/** Every lowered instruction keeps two memories related when collections happen in one of
    them: operands are read again after an allocation, so no stale address is ever used. */
module GcOps {
  import opened Basics
  import opened Words
  import opened Arith
  import opened Machine
  import opened Instr
  import opened Typing
  import opened Gc
  import L = Lowering
  import R = Region

  /** The two results of an instruction that ran with the stack pointer at `at`. */
  ghost predicate LowRel(l: Layout, rho: Renaming, at: int, low: R.Low, low': R.Low) {
    match low
    case Cont(m, sp) => low'.Cont? && low'.sp == sp && MemRel(l, rho, m, low'.m, sp)
    case Raised(m) => low'.Raised? && MemRel(l, rho, m, low'.m, at)
    case BadWorld => false
  }

  /** If the first run goes on so does the second, renamed, unless its collector or
      allocator broke its contract. */
  ghost predicate LowsRel(l: Layout, at: int, low: Option<R.Low>, low': Option<R.Low>) {
    low.Some? && !low.value.BadWorld? ==>
      low'.Some? && (low'.value.BadWorld? || exists rho :: LowRel(l, rho, at, low.value, low'.value))
  }

  lemma StoreContRel(l: Layout, rho: Renaming, m: R.Mem, m': R.Mem, sp: int, at: int, i: int, x: Word, y: Word)
    requires MemRel(l, rho, m, m', sp) && WordRel(l, rho, x, y) && sp - 1 <= i
    ensures LowsRel(l, at, R.StoreCont(m, i, x), R.StoreCont(m', i, y))
  {
    if R.StoreAt(m, i, x).Some? {
      StoreRel(l, rho, m, m', sp, i, x, y);
      var n, n' := R.StoreAt(m, i, x).value, R.StoreAt(m', i, y).value;
      if i > sp {
        PopRel(l, rho, n, n', sp, i);
      }
      assert LowRel(l, rho, at, R.Cont(n, i), R.Cont(n', i));
    }
  }

  lemma ContRel(l: Layout, rho: Renaming, m: R.Mem, m': R.Mem, at: int, sp: int)
    requires MemRel(l, rho, m, m', sp)
    ensures LowsRel(l, at, Some(R.Cont(m, sp)), Some(R.Cont(m', sp)))
  {
    assert LowRel(l, rho, at, R.Cont(m, sp), R.Cont(m', sp));
  }

  lemma RaiseRel(l: Layout, rho: Renaming, m: R.Mem, m': R.Mem, sp: int, exn: Exn)
    requires MemRel(l, rho, m, m', sp)
    ensures LowsRel(l, sp, Some(R.EmitRaise(m, exn)), Some(R.EmitRaise(m', exn)))
  {
    assert LowRel(l, rho, sp, R.EmitRaise(m, exn), R.EmitRaise(m', exn));
  }

  /** A tagged result, the same in both. */
  lemma StoreTagged(l: Layout, rho: Renaming, m: R.Mem, m': R.Mem, sp: int, at: int, i: int, x: Word)
    requires MemRel(l, rho, m, m', sp) && IsTagged(x) && sp - 1 <= i
    ensures LowsRel(l, at, R.StoreCont(m, i, x), R.StoreCont(m', i, x))
  {
    ImmovableRel(l, rho, x);
    StoreContRel(l, rho, m, m', sp, at, i, x, x);
  }

  lemma SameTagged(l: Layout, rho: Renaming, m: R.Mem, m': R.Mem, sp: int, i: int)
    requires MemRel(l, rho, m, m', sp) && sp <= i && TaggedSlot(m.stack, i)
    ensures TaggedSlot(m'.stack, i) && m'.stack[i] == m.stack[i]
  {
    LoadRel(l, rho, m, m', sp, i);
    TaggedRel(l, rho, m.stack[i], m'.stack[i]);
  }

  // ----- instructions that do not allocate ----------------------------------------------

  lemma MoveRel(l: Layout, rho: Renaming, w: World, w': World, ins: Instr, m: R.Mem, m': R.Mem, sp: int)
    requires L.MovesWords(ins) && !ins.Indirect? && !ins.IndirectLocal?
    requires MemRel(l, rho, m, m', sp) && TypedIns(l, ins, m.stack, sp, m.heap)
    ensures LowsRel(l, sp, R.Lower(w, ins, m, sp), R.Lower(w', ins, m', sp))
  {
    match ins {
      case NoOp => ContRel(l, rho, m, m', sp, sp);
      case StackSize(_) => ContRel(l, rho, m, m', sp, sp); RaiseRel(l, rho, m, m', sp, StackOverflow);
      case Const(v) => ImmovableRel(l, rho, v); StoreContRel(l, rho, m, m', sp, sp, sp - 1, v, v);
      case Local(k) => if sp + k < |m.stack| { LocalRel(l, rho, m, m', sp, k); }
      case Reset(n) => PopRel(l, rho, m, m', sp, sp + n); ContRel(l, rho, m, m', sp, sp + n);
      case ResetR(n) => if sp < |m.stack| { ResetRRel(l, rho, m, m', sp, n); }
      case SetStackVal(idx) => SetSlotRel(l, rho, w, w', m, m', sp, idx);
    }
  }

  lemma LocalRel(l: Layout, rho: Renaming, m: R.Mem, m': R.Mem, sp: int, k: nat)
    requires MemRel(l, rho, m, m', sp) && sp + k < |m.stack|
    ensures sp + k < |m'.stack|
    ensures LowsRel(l, sp, R.EmitPush(m, sp, m.stack[sp + k]), R.EmitPush(m', sp, m'.stack[sp + k]))
  {
    LoadRel(l, rho, m, m', sp, sp + k);
    StoreContRel(l, rho, m, m', sp, sp, sp - 1, m.stack[sp + k], m'.stack[sp + k]);
  }

  lemma ResetRRel(l: Layout, rho: Renaming, m: R.Mem, m': R.Mem, sp: int, n: nat)
    requires MemRel(l, rho, m, m', sp) && sp < |m.stack|
    ensures sp < |m'.stack|
    ensures LowsRel(l, sp, R.StoreCont(m, sp + n, m.stack[sp]), R.StoreCont(m', sp + n, m'.stack[sp]))
  {
    LoadRel(l, rho, m, m', sp, sp);
    StoreContRel(l, rho, m, m', sp, sp, sp + n, m.stack[sp], m'.stack[sp]);
  }

  lemma SetSlotRel(l: Layout, rho: Renaming, w: World, w': World, m: R.Mem, m': R.Mem, sp: int, idx: nat)
    requires MemRel(l, rho, m, m', sp)
    ensures LowsRel(l, sp, R.Lower(w, SetStackVal(idx), m, sp), R.Lower(w', SetStackVal(idx), m', sp))
  {
    LoadRel(l, rho, m, m', sp, sp);
    if sp < |m.stack| {
      var x, y := m.stack[sp], m'.stack[sp];
      var i := sp + 1 + (idx - 1);
      if R.StoreAt(m, i, x).Some? {
        StoreRel(l, rho, m, m', sp, i, x, y);
        PopRel(l, rho, R.StoreAt(m, i, x).value, R.StoreAt(m', i, y).value, sp, sp + 1);
        ContRel(l, rho, R.StoreAt(m, i, x).value, R.StoreAt(m', i, y).value, sp, sp + 1);
      }
    }
  }

  lemma FieldRel(l: Layout, rho: Renaming, m: R.Mem, m': R.Mem, sp: int, i: int, k: int)
    requires MemRel(l, rho, m, m', sp) && sp <= i && WordObjAt(m.heap, m.stack, i)
    requires ReadWord(m.heap, m.stack[i], k).Some?
    ensures i < |m'.stack| && ReadWord(m'.heap, m'.stack[i], k).Some?
    ensures WordRel(l, rho, ReadWord(m.heap, m.stack[i], k).value, ReadWord(m'.heap, m'.stack[i], k).value)
  {
    LoadRel(l, rho, m, m', sp, i);
    ReadRel(l, rho, m.heap, m'.heap, m.stack[i], m'.stack[i], k);
  }

  lemma IndirectRel(l: Layout, rho: Renaming, w: World, w': World, ins: Instr, m: R.Mem, m': R.Mem, sp: int)
    requires ins.Indirect? || ins.IndirectLocal?
    requires MemRel(l, rho, m, m', sp) && TypedIns(l, ins, m.stack, sp, m.heap)
    ensures LowsRel(l, sp, R.Lower(w, ins, m, sp), R.Lower(w', ins, m', sp))
  {
    var i := if ins.Indirect? then sp else sp + ins.k;
    var f := ins.field;
    if ReadWord(m.heap, m.stack[i], f).Some? {
      FieldRel(l, rho, m, m', sp, i, f);
      StoreContRel(l, rho, m, m', sp, sp, if ins.Indirect? then sp else sp - 1,
        ReadWord(m.heap, m.stack[i], f).value, ReadWord(m'.heap, m'.stack[i], f).value);
    }
  }

  lemma OutcomeRel(l: Layout, rho: Renaming, m: R.Mem, m': R.Mem, sp: int, o: Outcome)
    requires MemRel(l, rho, m, m', sp) && (o.Value? ==> IsTagged(o.w))
    ensures LowsRel(l, sp, R.OfOutcome(m, sp + 1, o), R.OfOutcome(m', sp + 1, o))
  {
    match o {
      case Value(x) => StoreTagged(l, rho, m, m', sp, sp, sp + 1, x);
      case Overflow => RaiseRel(l, rho, m, m', sp, Exn.Overflow);
      case DivZero => RaiseRel(l, rho, m, m', sp, DivByZero);
    }
  }

  /** Arithmetic runs on tagged words only, and its results are tagged. */
  lemma ArithRel(l: Layout, rho: Renaming, w: World, w': World, ins: Instr, m: R.Mem, m': R.Mem, sp: int)
    requires ins.Fixed? || ins.FixedDivide? || ins.WordArith? || ins.WordDivide?
    requires MemRel(l, rho, m, m', sp) && TaggedSlot(m.stack, sp) && TaggedSlot(m.stack, sp + 1)
    ensures LowsRel(l, sp, R.Lower(w, ins, m, sp), R.Lower(w', ins, m', sp))
  {
    SameTagged(l, rho, m, m', sp, sp);
    SameTagged(l, rho, m, m', sp, sp + 1);
    var x, y := m.stack[sp], m.stack[sp + 1];
    match ins {
      case Fixed(op) =>
        var o := LowerFixed(op, x, y);
        EmitTagIsTagged(FixedResult(op, EmitUntag(x), EmitUntag(y)));
        OutcomeRel(l, rho, m, m', sp, o);
      case FixedDivide(op) =>
        FixedDivTagged(op, x, y);
        OutcomeRel(l, rho, m, m', sp, LowerFixedDiv(op, x, y));
      case WordArith(op) =>
        WordKeepsTag(op, x, y);
        StoreTagged(l, rho, m, m', sp, sp, sp + 1, RegionWord(op, x, y));
      case WordDivide(op) =>
        WordDivTagged(op, x, y);
        OutcomeRel(l, rho, m, m', sp, R.LowerWordDiv(op, x, y));
    }
  }

  lemma FixedDivTagged(op: DivOp, x: Word, y: Word)
    requires IsTagged(x) && IsTagged(y)
    ensures LowerFixedDiv(op, x, y).Value? ==> IsTagged(LowerFixedDiv(op, x, y).w)
  {
    forall n: Word ensures IsTagged(EmitTag(n)) {
      EmitTagIsTagged(n);
    }
  }

  lemma WordDivTagged(op: WordDivOp, x: Word, y: Word)
    ensures R.LowerWordDiv(op, x, y).Value? ==> IsTagged(R.LowerWordDiv(op, x, y).w)
  {
    forall n: Word ensures IsTagged(SetTag(n)) {
      SetTagIsTagged(n);
    }
  }

  lemma CompareRel(l: Layout, rho: Renaming, w: World, w': World, cmp: Cmp, m: R.Mem, m': R.Mem, sp: int)
    requires MemRel(l, rho, m, m', sp) && TypedIns(l, Comparison(cmp), m.stack, sp, m.heap)
    ensures LowsRel(l, sp, R.Lower(w, Comparison(cmp), m, sp), R.Lower(w', Comparison(cmp), m', sp))
  {
    LoadRel(l, rho, m, m', sp, sp);
    LoadRel(l, rho, m, m', sp, sp + 1);
    if sp + 1 < |m.stack| {
      var x, y, x', y' := m.stack[sp], m.stack[sp + 1], m'.stack[sp], m'.stack[sp + 1];
      EqualRel(l, rho, y, x, y', x');
      if cmp != Eq {
        SameTagged(l, rho, m, m', sp, sp);
        SameTagged(l, rho, m, m', sp, sp + 1);
      }
      StoreTagged(l, rho, m, m', sp, sp, sp + 1, TagBool(Compare(cmp, x, y)));
    }
  }

  lemma NotRel(l: Layout, rho: Renaming, w: World, w': World, m: R.Mem, m': R.Mem, sp: int)
    requires MemRel(l, rho, m, m', sp)
    ensures LowsRel(l, sp, R.Lower(w, NotBoolean, m, sp), R.Lower(w', NotBoolean, m', sp))
  {
    LoadRel(l, rho, m, m', sp, sp);
    if sp < |m.stack| {
      TaggedRel(l, rho, m.stack[sp], m'.stack[sp]);
      StoreTagged(l, rho, m, m', sp, sp, sp, TagBool(m.stack[sp] == 1));
    }
  }

  lemma TagTestRel(l: Layout, rho: Renaming, m: R.Mem, m': R.Mem, sp: int, i: int, at: int)
    requires MemRel(l, rho, m, m', sp) && sp <= i < |m.stack| && sp - 1 <= at
    ensures LowsRel(l, sp, R.StoreCont(m, at, TagBool(m.stack[i] % 2 != 0)),
      R.StoreCont(m', at, TagBool(m'.stack[i] % 2 != 0)))
  {
    LoadRel(l, rho, m, m', sp, i);
    TaggedRel(l, rho, m.stack[i], m'.stack[i]);
    StoreTagged(l, rho, m, m', sp, sp, at, TagBool(m.stack[i] % 2 != 0));
  }

  lemma TestRel(l: Layout, rho: Renaming, w: World, w': World, ins: Instr, m: R.Mem, m': R.Mem, sp: int)
    requires ins.IsTaggedTop? || ins.IsTaggedLocal?
    requires MemRel(l, rho, m, m', sp)
    ensures LowsRel(l, sp, R.Lower(w, ins, m, sp), R.Lower(w', ins, m', sp))
  {
    var i := if ins.IsTaggedLocal? then sp + ins.k else sp;
    if i < |m.stack| {
      TagTestRel(l, rho, m, m', sp, i, if ins.IsTaggedLocal? then sp - 1 else sp);
    }
  }

  lemma LoadMlRel(l: Layout, rho: Renaming, kind: LoadKind, m: R.Mem, m': R.Mem, sp: int)
    requires MemRel(l, rho, m, m', sp) && TypedIns(l, LoadMl(kind), m.stack, sp, m.heap)
    ensures LowsRel(l, sp, R.LowerLoad(kind, m, sp), R.LowerLoad(kind, m', sp))
  {
    SameTagged(l, rho, m, m', sp, sp);
    LoadRel(l, rho, m, m', sp, sp + 1);
    var k, x, y := Signed(EmitUntag(m.stack[sp])), m.stack[sp + 1], m'.stack[sp + 1];
    match kind {
      case LoadWord =>
        if ReadWord(m.heap, x, k).Some? {
          FieldRel(l, rho, m, m', sp, sp + 1, k);
          StoreContRel(l, rho, m, m', sp, sp, sp + 1, ReadWord(m.heap, x, k).value, ReadWord(m'.heap, y, k).value);
        }
      case LoadByte =>
        if ReadByte(m.heap, x, k).Some? {
          ReadRel(l, rho, m.heap, m'.heap, x, y, k / 8);
          EmitTagIsTagged(ReadByte(m.heap, x, k).value);
          StoreTagged(l, rho, m, m', sp, sp, sp + 1, EmitTag(ReadByte(m.heap, x, k).value));
        }
      case LoadUntagged =>
        if ReadWord(m.heap, x, k).Some? {
          ReadRel(l, rho, m.heap, m'.heap, x, y, k);
          EmitTagIsTagged(ReadWord(m.heap, x, k).value);
          StoreTagged(l, rho, m, m', sp, sp, sp + 1, EmitTag(ReadWord(m.heap, x, k).value));
        }
    }
  }

  lemma StoreMlRel(l: Layout, rho: Renaming, untagged: bool, m: R.Mem, m': R.Mem, sp: int)
    requires MemRel(l, rho, m, m', sp) && TypedIns(l, StoreMl(untagged), m.stack, sp, m.heap)
    ensures LowsRel(l, sp, R.LowerStore(untagged, m, sp), R.LowerStore(untagged, m', sp))
  {
    LoadRel(l, rho, m, m', sp, sp);
    SameTagged(l, rho, m, m', sp, sp + 1);
    LoadRel(l, rho, m, m', sp, sp + 2);
    if untagged {
      SameTagged(l, rho, m, m', sp, sp);
    }
    var v, v' := m.stack[sp], m'.stack[sp];
    var u, u' := if untagged then EmitUntag(v) else v, if untagged then EmitUntag(v') else v';
    var k, x, y := Signed(EmitUntag(m.stack[sp + 1])), m.stack[sp + 2], m'.stack[sp + 2];
    if WriteWord(m.heap, x, k, u).Some? {
      WriteRel(l, rho, m.heap, m'.heap, x, y, k, u, u');
      StoreTagged(l, rho, m.(heap := WriteWord(m.heap, x, k, u).value),
        m'.(heap := WriteWord(m'.heap, y, k, u').value), sp, sp, sp + 2, Tagged(0));
    }
  }

  lemma CellRel(l: Layout, rho: Renaming, length: bool, m: R.Mem, m': R.Mem, sp: int)
    requires MemRel(l, rho, m, m', sp)
    ensures LowsRel(l, sp, R.LowerCell(length, m, sp), R.LowerCell(length, m', sp))
  {
    LoadRel(l, rho, m, m', sp, sp);
    if sp < |m.stack| && LengthWord(m.heap, m.stack[sp]).Some? {
      NamesRel(l, rho, m.heap, m'.heap, m.stack[sp], m'.stack[sp]);
      assert LengthWord(m'.heap, m'.stack[sp]) == LengthWord(m.heap, m.stack[sp]);
      var n := R.CellField(length, LengthWord(m.heap, m.stack[sp]).value);
      EmitTagIsTagged(n);
      StoreTagged(l, rho, m, m', sp, sp, sp, EmitTag(n));
    }
  }

  lemma {:induction false} ZerosRel(l: Layout, rho: Renaming, m: R.Mem, m': R.Mem, sp: int, lo: int, hi: int)
    requires MemRel(l, rho, m, m', sp) && hi == sp && lo <= hi && R.StoreZeros(m, lo, hi).Some?
    ensures R.StoreZeros(m', lo, hi).Some? && MemRel(l, rho, R.StoreZeros(m, lo, hi).value, R.StoreZeros(m', lo, hi).value, lo)
  {
    if lo < hi {
      assert R.StoreAt(m, lo, Tagged(0)).Some?;
      L.StoreZerosFills(m, lo, hi);
      L.StoreZerosFills(m', lo, hi);
      var n, n' := R.StoreZeros(m, lo, hi).value, R.StoreZeros(m', lo, hi).value;
      ImmovableRel(l, rho, 1);
      forall k | 0 <= k < |n.stack[lo..]| ensures WordRel(l, rho, n.stack[lo..][k], n'.stack[lo..][k]) {
        if lo + k >= hi {
          assert n.stack[lo..][k] == m.stack[sp..][lo + k - sp];
          assert n'.stack[lo..][k] == m'.stack[sp..][lo + k - sp];
        }
      }
    }
  }

  lemma ContainerRel(l: Layout, rho: Renaming, w: World, w': World, n: nat, m: R.Mem, m': R.Mem, sp: int)
    requires w.layout == l == w'.layout
    requires MemRel(l, rho, m, m', sp) && TypedIns(l, StackContainer(n), m.stack, sp, m.heap)
    ensures LowsRel(l, sp, R.LowerContainer(w, m, sp, n), R.LowerContainer(w', m', sp, n))
  {
    if R.StoreZeros(m, sp - n, sp).Some? {
      ZerosRel(l, rho, m, m', sp, sp - n, sp);
      var x := Wrap(l.stackBase + 8 * (sp - n));
      ImmovableRel(l, rho, x);
      StoreContRel(l, rho, R.StoreZeros(m, sp - n, sp).value, R.StoreZeros(m', sp - n, sp).value, sp - n, sp, sp - n - 1, x, x);
    }
  }
}
