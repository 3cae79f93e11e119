/** Argument inference: how many values a function without a declared arity must find on
    the stack when it is entered, from how far its paths reach below their start. */
module InferArgs {
  import opened Basics
  import opened Words
  import opened Opcodes
  import opened Stacking

  // ----- the effect table of the inference ------------------------------------------------

  datatype Effect =
    /** The operands are cut short: the inference gives up. */
    | Missing
    /** An opcode the inference does not know, or a call whose arity it cannot see: it stops
        with what it has. */
    | Unknown
    /** Entered at depth d, reaches down to d - dip, leaves d + delta, and goes on to any of
        `jumps`, or falls through. */
    | Moves(dip: nat, delta: int, jumps: seq<nat>, falls: Option<nat>)

  predicate Sound(e: Effect) { e.Moves? ==> e.dip + e.delta >= 0 }

  function Max(a: nat, b: nat): nat { if a < b then b else a }

  /** Pushes, pops, and the index of the deepest value read in place. */
  function Effects(pushes: nat, pops: nat, peek: Option<nat>, next: nat): (e: Effect)
    ensures Sound(e)
  {
    Moves(Max(pops, match peek { case None => 0 case Some(d) => d + 1 }), pushes - pops, [], Some(next))
  }

  function EffectAt(bc: seq<Byte>, pc: nat): (e: Effect)
    requires pc < |bc|
    ensures Sound(e)
  {
    var op := bc[pc];
    if IsLocal(op) then Effects(1, 0, Some(LocalIndex(op)), pc + 1)
    else if IsBinary(op) then Effects(1, 2, None, pc + 1)
    else if HasNoOperand(op) then EffectNoOperand(op, pc + 1)
    else if IsLeaving(op) then EffectLeaving(bc, pc)
    else if IsConstAddr(op) then Effects(1, 0, None, pc + 1 + PoolBytes(op))
    else if IsPool(op) then Unknown
    else EffectOperand(bc, pc)
  }

  function EffectNoOperand(op: Byte, next: nat): (e: Effect)
    requires HasNoOperand(op)
    ensures Sound(e)
  {
    if CONST_0 <= op <= CONST_4 || op in {CONST_10, GET_THREAD_ID, LDEXC, PUSH_HANDLER} then Effects(1, 0, None, next)
    else if op in {LOAD_UNTAGGED, ALLOC_BYTE_MEM, LOAD_ML_BYTE, LOAD_ML_WORD} then Effects(1, 2, None, next)
    else if op in {STORE_ML_WORD, STORE_ML_BYTE, ALLOC_WORD_MEMORY, STORE_UNTAGGED} then Effects(1, 3, None, next)
    else if IsBlockOp(op) then Effects(1, 5, None, next)
    else if op in {LOCK, CLEAR_MUTABLE, CELL_FLAGS} then Effects(0, 0, Some(0), next)
    else if op == INDIRECT_0_LOCAL_0 then Effects(1, 0, Some(0), next)
    else if op == NO_OP then Effects(0, 0, None, next)
    else if op in {RESET_1, DELETE_HANDLER} then Effects(0, 1, None, next)
    else if op == RESET_2 then Effects(0, 2, None, next)
    else if RESET_R_1 <= op <= RESET_R_3 then Effects(1, op - RESET_R_1 + 2, None, next)
    else if CALL_FAST_RTS0 <= op <= CALL_FAST_RTS5 then Effects(1, op - CALL_FAST_RTS0 + 1, None, next)
    else if op == CALL_CLOSURE then Moves(0, 0, [], None)
    else if TUPLE_2 <= op <= TUPLE_4 then Effects(1, op - TUPLE_2 + 2, None, next)
    else Effects(1, 1, None, next)
  }

  /** Only operands that the effect depends on have to be present. */
  function EffectOperand(bc: seq<Byte>, pc: nat): (e: Effect)
    requires pc < |bc|
    ensures Sound(e)
  {
    var op := bc[pc];
    if op in {CONST_INT_W, SET_HANDLER16} then Effects(1, 0, None, pc + 3)
    else if op in {INDIRECT_LOCAL_BB, INDIRECT_CLOSURE_BB} then
      if HasImm(bc, pc, 2) then Effects(1, 0, Some(Byte1(bc, pc)), pc + 3) else Missing
    else if HasOneByte(op) then EffectOneByte(bc, pc)
    else Unknown
  }

  function EffectOneByte(bc: seq<Byte>, pc: nat): (e: Effect)
    requires pc < |bc| && HasOneByte(bc[pc])
    ensures Sound(e)
  {
    var op, next := bc[pc], pc + 2;
    if op in {CONST_INT_B, SET_HANDLER8} then Effects(1, 0, None, next)
    else if op in {INDIRECT_B, INDIRECT_CONTAINER_B} then Effects(1, 1, None, next)
    else if op == ALLOC_MUT_CLOSURE_B then Effects(0, 0, Some(0), next)
    else if op == MOVE_TO_CONTAINER_B then Effects(0, 1, Some(0), next)
    else if op == MOVE_TO_MUT_CLOSURE_B then Effects(0, 1, Some(1), next)
    else if op == SET_STACK_VAL_B then Effects(0, 1, None, next)
    else if !HasImm(bc, pc, 1) then Missing
    else
      var n := Byte1(bc, pc);
      if op == STACK_CONTAINER_B then Effects(n + 1, 0, None, next)
      else if op == RESET_B then Effects(0, n, None, next)
      else if op in {RESET_R_B, CLOSURE_B} then Effects(1, n + 1, None, next)
      else if op == CALL_LOCAL_B then Effects(1, n, Some(n), next)
      else if op == TUPLE_B then Effects(1, n, None, next)
      else Effects(1, 0, Some(n), next)
  }

  function EffectLeaving(bc: seq<Byte>, pc: nat): (e: Effect)
    requires pc < |bc| && IsLeaving(bc[pc])
    ensures Sound(e)
  {
    var op := bc[pc];
    if op in {RETURN_1, RETURN_2, RETURN_3, RETURN_B, RETURN_W, RAISE_EX, TAIL_B_B} then Moves(0, 0, [], None)
    else if op == JUMP_TAGGED_LOCAL then
      if HasImm(bc, pc, 2) then Moves(Byte1(bc, pc) + 1, 0, [pc + 3 + bc[pc + 2]], Some(pc + 3)) else Missing
    else if op in {JUMP_NEQ_LOCAL, JUMP_NEQ_LOCAL_IND} then
      if HasImm(bc, pc, 3) then Moves(Byte1(bc, pc) + 1, 0, [pc + 4 + bc[pc + 3]], Some(pc + 4)) else Missing
    else if op == CASE16 then
      if !HasImm(bc, pc, 2) || CaseAll(bc, pc).Err? then Missing else Moves(1, -1, CaseAll(bc, pc).value, None)
    else if !HasImm(bc, pc, JumpBytes(op)) then Missing
    else
      var off, next := JumpOffset(bc, pc), pc + 1 + JumpBytes(op);
      if IsConditional(op) then Moves(1, -1, [next + off], Some(next))
      else if op in {JUMP8, JUMP16} then Moves(0, 0, [next + off], None)
      else if off > pc then Missing
      else Moves(0, 0, [pc - off], None)
  }

  // ----- paths ------------------------------------------------------------------------------

  datatype Walk = Walk(len: nat, at: map<nat, Effect>)

  predicate Whole(w: Walk) {
    forall pc :: 0 <= pc < w.len ==> pc in w.at && Sound(w.at[pc])
  }

  function WalkOf(bc: seq<Byte>): (w: Walk)
    ensures Whole(w) && w.len == |bc|
  {
    Walk(|bc|, map pc: nat | 0 <= pc < |bc| :: EffectAt(bc, pc))
  }

  /** An offset, and the depth there relative to the entry. */
  datatype Point = Point(pc: nat, depth: int)

  predicate Leads(w: Walk, a: Point, b: Point)
    requires Whole(w)
  {
    && a.pc < w.len && w.at[a.pc].Moves?
    && (b.pc in w.at[a.pc].jumps || w.at[a.pc].falls == Some(b.pc))
    && b.depth == a.depth + w.at[a.pc].delta
  }

  ghost predicate IsPath(w: Walk, start: nat, p: seq<Point>)
    requires Whole(w)
  {
    |p| > 0 && p[0] == Point(start, 0) && forall i :: 0 <= i < |p| - 1 ==> Leads(w, p[i], p[i + 1])
  }

  /** The lowest depth the opcode at `a` touches. */
  function Lowest(w: Walk, a: Point): int
    requires Whole(w) && a.pc < w.len
  {
    a.depth - if w.at[a.pc].Moves? then w.at[a.pc].dip else 0
  }

  /** With `k` values below it, no path reads or pops below its stack. */
  ghost predicate Suffices(w: Walk, start: nat, k: nat)
    requires Whole(w)
  {
    forall p: seq<Point>, i :: IsPath(w, start, p) && 0 <= i < |p| && p[i].pc < w.len ==> Lowest(w, p[i]) >= 0 - k
  }

  /** Every opcode on every path is one the inference knows. */
  ghost predicate Understood(w: Walk, start: nat)
    requires Whole(w)
  {
    forall p: seq<Point>, i :: IsPath(w, start, p) && 0 <= i < |p| && p[i].pc < w.len ==> w.at[p[i].pc].Moves?
  }

  ghost predicate Arrives(w: Walk, start: nat, a: Point)
    requires Whole(w)
  {
    exists p :: IsPath(w, start, p) && p[|p| - 1] == a
  }

  /** Some path does reach down to `-k`. */
  ghost predicate Reaches(w: Walk, start: nat, k: nat)
    requires Whole(w)
  {
    exists a :: Arrives(w, start, a) && a.pc < w.len && Lowest(w, a) == 0 - k
  }

  /** The least baseline: enough for every path, and needed by one. */
  ghost predicate LeastBaseline(w: Walk, start: nat, k: nat)
    requires Whole(w)
  {
    Suffices(w, start, k) && (k > 0 ==> Reaches(w, start, k))
  }

  /** There is only one least baseline: no smaller number would do. */
  lemma LeastIsLeast(w: Walk, start: nat, k: nat, j: nat)
    requires Whole(w) && LeastBaseline(w, start, k) && Suffices(w, start, j)
    ensures k <= j
  {
    if k > 0 {
      var a :| Arrives(w, start, a) && a.pc < w.len && Lowest(w, a) == 0 - k;
      var p :| IsPath(w, start, p) && p[|p| - 1] == a;
    }
  }

  lemma StartArrives(w: Walk, start: nat)
    requires Whole(w)
    ensures Arrives(w, start, Point(start, 0))
  {
    assert IsPath(w, start, [Point(start, 0)]);
  }

  lemma ArrivesNext(w: Walk, start: nat, a: Point, b: Point)
    requires Whole(w) && Arrives(w, start, a) && Leads(w, a, b)
    ensures Arrives(w, start, b)
  {
    var p :| IsPath(w, start, p) && p[|p| - 1] == a;
    assert IsPath(w, start, p + [b]);
  }

  // ----- the worklist -------------------------------------------------------------------------

  /** An explored point or a shallower one at the same offset: what is reached from the
      shallower point lies at least as deep. */
  ghost predicate Dominated(explored: set<Point>, a: Point) {
    exists e :: e <= a.depth && Point(a.pc, e) in explored
  }

  /** The point has been walked over: its effect is in `low`, and its successors are
      recorded, or walked over, or `now`. */
  ghost predicate Walked(w: Walk, entry: map<nat, int>, explored: set<Point>, low: int, now: Option<Point>, a: Point)
    requires Whole(w)
  {
    a.pc < w.len ==>
      && w.at[a.pc].Moves? && low <= Lowest(w, a)
      && (forall j :: j in w.at[a.pc].jumps ==> j in entry && entry[j] <= a.depth + w.at[a.pc].delta)
      && (w.at[a.pc].falls.Some? ==>
            var b := Point(w.at[a.pc].falls.value, a.depth + w.at[a.pc].delta);
            b in explored || now == Some(b))
  }

  /** What the loops keep: everything recorded is the end of a path; it waits, is being
      walked, or has been; and `low` has been reached. */
  ghost predicate Inferring(w: Walk, start: nat, entry: map<nat, int>, work: seq<Point>, explored: set<Point>,
                            low: int, now: Option<Point>)
    requires Whole(w)
  {
    && low <= 0 && (low < 0 ==> Reaches(w, start, -low))
    && (forall a :: a in work ==> Arrives(w, start, a) && low <= a.depth)
    && (now.Some? ==> Arrives(w, start, now.value) && low <= now.value.depth)
    && (forall q :: q in entry ==>
          var a := Point(q, entry[q]); a in work || a in explored || now == Some(a))
    && start in entry && entry[start] <= 0
    && (forall a :: a in explored ==> Walked(w, entry, explored, low, now, a))
  }

  /** A drained worklist has explored a point at or above every path. */
  lemma {:induction false} PathDominated(w: Walk, start: nat, entry: map<nat, int>, explored: set<Point>, low: int,
                                         p: seq<Point>, i: nat)
    requires Whole(w) && Inferring(w, start, entry, [], explored, low, None)
    requires IsPath(w, start, p) && i < |p|
    ensures Dominated(explored, p[i])
  {
    if i == 0 {
      assert Point(start, entry[start]) in explored;
    } else {
      PathDominated(w, start, entry, explored, low, p, i - 1);
      assert Leads(w, p[i - 1], p[i]);
      var e :| e <= p[i - 1].depth && Point(p[i - 1].pc, e) in explored;
      var a := Point(p[i - 1].pc, e);
      assert Walked(w, entry, explored, low, None, a);
      if p[i].pc in w.at[a.pc].jumps {
        assert Point(p[i].pc, entry[p[i].pc]) in explored;
      } else {
        assert Point(p[i].pc, e + w.at[a.pc].delta) in explored;
      }
    }
  }

  lemma DrainedSuffices(w: Walk, start: nat, entry: map<nat, int>, explored: set<Point>, low: int)
    requires Whole(w) && Inferring(w, start, entry, [], explored, low, None)
    ensures LeastBaseline(w, start, -low) && Understood(w, start)
  {
    forall p: seq<Point>, i | IsPath(w, start, p) && 0 <= i < |p| && p[i].pc < w.len
      ensures Lowest(w, p[i]) >= low && w.at[p[i].pc].Moves?
    {
      PathDominated(w, start, entry, explored, low, p, i);
      var e :| e <= p[i].depth && Point(p[i].pc, e) in explored;
      assert Walked(w, entry, explored, low, None, Point(p[i].pc, e));
    }
  }

  /** `infer_enqueue`, for each branch target of an opcode in turn. */
  method Enqueue(entry0: map<nat, int>, work0: seq<Point>, targets: seq<nat>, depth: int)
    returns (entry: map<nat, int>, work: seq<Point>)
    ensures forall q :: q in entry0 ==> q in entry && entry[q] <= entry0[q]
    ensures forall j :: j in targets ==> j in entry && entry[j] <= depth
    ensures forall a :: a in work0 ==> a in work
    ensures forall a :: a in work ==> a in work0 || (a.pc in targets && a.depth == depth)
    ensures forall q :: q in entry ==> (q in entry0 && entry[q] == entry0[q]) || Point(q, entry[q]) in work
  {
    entry, work := entry0, work0;
    var i := 0;
    while i < |targets|
      invariant 0 <= i <= |targets|
      invariant forall q :: q in entry0 ==> q in entry && entry[q] <= entry0[q]
      invariant forall k :: 0 <= k < i ==> targets[k] in entry && entry[targets[k]] <= depth
      invariant forall a :: a in work0 ==> a in work
      invariant forall a :: a in work ==> a in work0 || (a.pc in targets && a.depth == depth)
      invariant forall q :: q in entry ==> (q in entry0 && entry[q] == entry0[q]) || Point(q, entry[q]) in work
    {
      var t := targets[i];
      if !(t in entry && entry[t] <= depth) {
        entry := entry[t := depth];
        work := work + [Point(t, depth)];
      }
      i := i + 1;
    }
  }

  /** Walking over the point `a` with effect `e`: its reach is noted, its branch targets
      are recorded, and the next opcode, if code falls through, comes next. */
  lemma WalkedOver(w: Walk, start: nat, entry: map<nat, int>, work: seq<Point>, explored: set<Point>, low: int, a: Point,
                   entry': map<nat, int>, work': seq<Point>, low': int, next: Option<Point>)
    requires Whole(w) && Inferring(w, start, entry, work, explored, low, Some(a))
    requires a.pc < w.len && w.at[a.pc].Moves?
    requires low' == if Lowest(w, a) < low then Lowest(w, a) else low
    requires forall q :: q in entry ==> q in entry' && entry'[q] <= entry[q]
    requires forall j :: j in w.at[a.pc].jumps ==> j in entry' && entry'[j] <= a.depth + w.at[a.pc].delta
    requires forall x :: x in work ==> x in work'
    requires forall x :: x in work' ==> x in work || (x.pc in w.at[a.pc].jumps && x.depth == a.depth + w.at[a.pc].delta)
    requires forall q :: q in entry' ==> (q in entry && entry'[q] == entry[q]) || Point(q, entry'[q]) in work'
    requires next == if w.at[a.pc].falls.Some? then Some(Point(w.at[a.pc].falls.value, a.depth + w.at[a.pc].delta)) else None
    ensures Inferring(w, start, entry', work', explored + {a}, low', next)
  {
    forall x | x in work' ensures Arrives(w, start, x) && low' <= x.depth {
      if x !in work {
        ArrivesNext(w, start, a, x);
      }
    }
    if next.Some? {
      ArrivesNext(w, start, a, next.value);
    }
    forall x | x in explored + {a} ensures Walked(w, entry', explored + {a}, low', next, x) {
      if x in explored {
        assert Walked(w, entry, explored, low, Some(a), x);
      }
    }
  }

  /** The walk has left the bytecode: there is nothing to explore there. */
  lemma WalkedOut(w: Walk, start: nat, entry: map<nat, int>, work: seq<Point>, explored: set<Point>, low: int, a: Point)
    requires Whole(w) && Inferring(w, start, entry, work, explored, low, Some(a)) && a.pc >= w.len
    ensures Inferring(w, start, entry, work, explored + {a}, low, None)
  {
    forall x | x in explored + {a} ensures Walked(w, entry, explored + {a}, low, None, x) {
      if x in explored {
        assert Walked(w, entry, explored, low, Some(a), x);
      }
    }
  }

  /** How the inference ends: with nothing left to explore, at a point whose opcode it
      does not know or cannot read, or after as many opcodes as it may look at. */
  datatype Ending = Drained | Blocked(a: Point) | Spent(looked: nat)

  function Allowance(w: Walk): nat { if 8 * w.len < 1024 then 1024 else 8 * w.len }

  ghost predicate Explains(w: Walk, start: nat, r: Option<nat>, end: Ending)
    requires Whole(w)
  {
    match end
    case Drained => r.Some? && LeastBaseline(w, start, r.value) && Understood(w, start)
    case Blocked(a) =>
      && Arrives(w, start, a) && a.pc < w.len && !w.at[a.pc].Moves?
      && (r.None? <==> w.at[a.pc].Missing?)
    case Spent(looked) => r.Some? && looked == if 8 * w.len > 1024 then 8 * w.len else 1024
  }

  /** At the beginning only the entry is recorded. */
  lemma InferringFirst(w: Walk, start: nat)
    requires Whole(w)
    ensures Inferring(w, start, map[start := 0], [Point(start, 0)], {}, 0, None)
  {
    StartArrives(w, start);
  }

  /** The last point that waits is walked next. */
  lemma InferringNext(w: Walk, start: nat, entry: map<nat, int>, work: seq<Point>, explored: set<Point>, low: int)
    requires Whole(w) && work != [] && Inferring(w, start, entry, work, explored, low, None)
    ensures Inferring(w, start, entry, work[..|work| - 1], explored, low, Some(work[|work| - 1]))
  {
    var a, rest := work[|work| - 1], work[..|work| - 1];
    assert a in work && forall x :: x in work <==> x in rest || x == a;
    forall x | x in explored ensures Walked(w, entry, explored, low, Some(a), x) {
      assert Walked(w, entry, explored, low, None, x);
    }
  }

  /** What may be returned at any time, and why the walk stops at a point. */
  lemma InferringStops(w: Walk, start: nat, entry: map<nat, int>, work: seq<Point>, explored: set<Point>, low: int, a: Point)
    requires Whole(w) && Inferring(w, start, entry, work, explored, low, Some(a))
    ensures low <= 0 && (low < 0 ==> Reaches(w, start, -low)) && Arrives(w, start, a)
  {
  }

  /** `infer_arg_count`.  Whatever it returns is needed by some path; when it drains its
      worklist it returns exactly the least baseline; when it does not, it has met an
      opcode that it cannot judge or has used up its budget. */
  method InferArgCount(w: Walk, start: nat) returns (r: Option<nat>, ghost end: Ending)
    requires Whole(w)
    ensures r.Some? && r.value > 0 ==> Reaches(w, start, r.value)
    ensures Explains(w, start, r, end)
  {
    var low: int, budget: nat := 0, Allowance(w);
    ghost var looked: nat := 0;
    var entry: map<nat, int>, work := map[start := 0], [Point(start, 0)];
    ghost var explored: set<Point> := {};
    InferringFirst(w, start);
    while work != []
      invariant Inferring(w, start, entry, work, explored, low, None)
      invariant looked + budget == Allowance(w)
      decreases budget, |work|
    {
      var a := work[|work| - 1];
      ghost var waiting, allowance := |work|, budget;
      InferringNext(w, start, entry, work, explored, low);
      work := work[..|work| - 1];
      var now: Option<Point> := Some(a);
      while now.Some? && now.value.pc < w.len
        invariant Inferring(w, start, entry, work, explored, low, now)
        invariant looked + budget == Allowance(w)
        invariant budget < allowance || (budget == allowance && |work| < waiting)
        decreases budget
      {
        var at := now.value;
        InferringStops(w, start, entry, work, explored, low, at);
        if budget == 0 {
          return Some(-low), Spent(looked);
        }
        budget, looked := budget - 1, looked + 1;
        match w.at[at.pc] {
          case Missing => return None, Blocked(at);
          case Unknown => return Some(-low), Blocked(at);
          case Moves(dip, delta, jumps, falls) =>
            ghost var entry0, work0, low0 := entry, work, low;
            if at.depth - dip < low {
              low := at.depth - dip;
            }
            entry, work := Enqueue(entry, work, jumps, at.depth + delta);
            now := match falls { case None => None case Some(f) => Some(Point(f, at.depth + delta)) };
            WalkedOver(w, start, entry0, work0, explored, low0, at, entry, work, low, now);
            explored := explored + {at};
        }
      }
      if now.Some? {
        WalkedOut(w, start, entry, work, explored, low, now.value);
        explored := explored + {now.value};
      }
    }
    DrainedSuffices(w, start, entry, explored, low);
    return Some(-low), Drained;
  }

  // ----- against pass 1 -----------------------------------------------------------------------

  /** The inference and pass 1 see the same opcode. */
  ghost predicate SameEffect(s: Scan, e: Effect) {
    match s
    case Plain(next, need, delta) => e == Moves(need, delta, [], Some(next))
    case Branches(need, pops, targets) =>
      && targets.Ok? && e.Moves? && e.dip == need && e.delta == 0 - pops
      && (forall t :: t in targets.value <==> t in e.jumps || e.falls == Some(t))
    case Collapse(_) => e == Moves(0, 0, [], None)
    case Stop(_) => e == Moves(0, 0, [], None)
  }

  lemma NoOperandSame(op: Byte, pc: nat)
    requires HasNoOperand(op)
    ensures SameEffect(ScanNoOperand(op, pc), EffectNoOperand(op, pc + 1))
  {
  }

  lemma OneByteSame(bc: seq<Byte>, pc: nat)
    requires pc < |bc| && HasOneByte(bc[pc]) && HasImm(bc, pc, 1) && bc[pc] != MOVE_TO_CONTAINER_B
    ensures SameEffect(ScanOneByte(bc[pc], Byte1(bc, pc), pc + 2), EffectOneByte(bc, pc))
  {
  }

  lemma LeavingSame(b: Body, pc: nat)
    requires pc < |b.bc| && IsLeaving(b.bc[pc]) && ScanLeaving(b, pc).Ok?
    requires ScanLeaving(b, pc).value.Branches? ==> ScanLeaving(b, pc).value.targets.Ok?
    ensures SameEffect(ScanLeaving(b, pc).value, EffectLeaving(b.bc, pc))
  {
  }

  /** The inference's table agrees with pass 1 on every opcode that pass 1 accepts, but for
      two kinds: the static calls it cannot see through, and MOVE_TO_CONTAINER_B. */
  lemma InferenceAgrees(b: Body, pc: nat)
    requires pc < |b.bc| && ScanAt(b, pc).Ok?
    requires ScanAt(b, pc).value.Branches? ==> ScanAt(b, pc).value.targets.Ok?
    requires b.bc[pc] != MOVE_TO_CONTAINER_B && (IsPool(b.bc[pc]) ==> IsConstAddr(b.bc[pc]))
    ensures SameEffect(ScanAt(b, pc).value, EffectAt(b.bc, pc))
  {
    var op := b.bc[pc];
    if IsLocal(op) || IsBinary(op) {
    } else if HasNoOperand(op) {
      NoOperandSame(op, pc);
    } else if IsLeaving(op) {
      LeavingSame(b, pc);
    } else if IsPool(op) {
    } else {
      OperandSame(b.bc, pc);
    }
  }

  lemma OperandSame(bc: seq<Byte>, pc: nat)
    requires pc < |bc| && ScanOperand(bc, pc).Ok? && bc[pc] != MOVE_TO_CONTAINER_B
    ensures SameEffect(ScanOperand(bc, pc).value, EffectOperand(bc, pc))
  {
    if bc[pc] !in {CONST_INT_W, SET_HANDLER16, INDIRECT_LOCAL_BB, INDIRECT_CLOSURE_BB} {
      assert ScanOperand(bc, pc) == Ok(ScanOneByte(bc[pc], Byte1(bc, pc), pc + 2));
      OneByteSame(bc, pc);
    }
  }

  lemma NotElsewhere()
    ensures !IsBinary(MOVE_TO_CONTAINER_B) && !HasNoOperand(MOVE_TO_CONTAINER_B)
    ensures !IsLeaving(MOVE_TO_CONTAINER_B) && !IsPool(MOVE_TO_CONTAINER_B)
  {
  }
}
