/** Pass 1 of the per-function translator: the operand-stack depth at every reachable
    opcode, by a worklist over control-flow edges.

    When it succeeds the depths form a consistent typing, and no run, with its stack cut
    back to the recorded depth wherever it enters a block, ever lacks an operand. */
module DepthScan {
  import opened Basics
  import opened Words
  import opened Stacking

  /** A function's opcodes as pass 1 sees them, at every offset. */
  datatype Flow = Flow(len: nat, at: map<nat, Result<Scan, Fault>>)

  predicate Complete(flow: Flow) {
    forall pc :: 0 <= pc < flow.len ==> pc in flow.at && (flow.at[pc].Ok? ==> Covers(flow.at[pc].value))
  }

  function FlowOf(b: Body): (flow: Flow)
    ensures Complete(flow) && flow.len == |b.bc|
  {
    Flow(|b.bc|, map pc: nat | 0 <= pc < |b.bc| :: ScanAt(b, pc))
  }

  datatype Edge = Edge(pc: nat, depth: nat, isTarget: bool)

  /** `scan_one_opcode`: the edges out of the opcode at `pc`, entered at `depth`. */
  function Edges(flow: Flow, pc: nat, depth: nat): Result<seq<Edge>, Fault>
    requires Complete(flow) && pc < flow.len
  {
    var s :- flow.at[pc];
    match s
    case Plain(next, need, delta) =>
      if depth < need then Err(Underflow) else Ok([Edge(next, depth + delta, false)])
    case Collapse(next) =>
      if depth == 0 then Err(Underflow) else Ok([Edge(next, 1, false)])
    case Branches(need, pops, targets) =>
      if depth < need then Err(Underflow)
      else
        var ts :- targets;
        Ok(seq(|ts|, i requires 0 <= i < |ts| => Edge(ts[i], depth - pops, true)))
    case Stop(need) => if depth < need then Err(Underflow) else Ok([])
  }

  // ----- typings --------------------------------------------------------------------------

  type Reached = seq<Option<nat>>

  /** The depth at which the opcode at `pc` is scanned. */
  function DepthAt(reached: Reached, targets: map<nat, nat>, pc: nat): Option<nat> {
    if pc in targets then Some(targets[pc]) else if pc < |reached| then reached[pc] else None
  }

  /** A branch arrives at exactly the recorded depth; a fall-through at the recorded depth,
      or deeper when it falls into a block. */
  predicate EdgeOk(flow: Flow, reached: Reached, targets: map<nat, nat>, e: Edge) {
    && e.pc < flow.len
    && if e.isTarget then e.pc in targets && targets[e.pc] == e.depth
       else if e.pc in targets then e.depth >= targets[e.pc]
       else DepthAt(reached, targets, e.pc) == Some(e.depth)
  }

  predicate Settled(flow: Flow, reached: Reached, targets: map<nat, nat>, pc: nat)
    requires Complete(flow) && pc < flow.len
  {
    var d := DepthAt(reached, targets, pc);
    d.Some? ==>
      var es := Edges(flow, pc, d.value);
      es.Ok? && forall i :: 0 <= i < |es.value| ==> EdgeOk(flow, reached, targets, es.value[i])
  }

  /** The recorded depths, against the depths at which code falls in. */
  predicate Bounded(flow: Flow, reached: Reached, targets: map<nat, nat>, start: nat, args: nat) {
    && |reached| == flow.len
    && start < flow.len && reached[start] == Some(args)
    && forall t :: t in targets ==> t < flow.len && (reached[t].Some? ==> reached[t].value >= targets[t])
  }

  /** A consistent typing of the whole function. */
  predicate Typing(flow: Flow, reached: Reached, targets: map<nat, nat>, start: nat, args: nat)
    requires Complete(flow)
  {
    && Bounded(flow, reached, targets, start, args)
    && forall pc :: 0 <= pc < flow.len ==> Settled(flow, reached, targets, pc)
  }

  // ----- trails ---------------------------------------------------------------------------

  datatype Config = Config(pc: nat, depth: nat)

  /** One edge of the control flow, nothing being cut back. */
  ghost predicate Goes(flow: Flow, c: Config, c': Config)
    requires Complete(flow)
  {
    && c.pc < flow.len && Edges(flow, c.pc, c.depth).Ok?
    && exists e :: e in Edges(flow, c.pc, c.depth).value && c' == Config(e.pc, e.depth)
  }

  ghost predicate IsTrail(flow: Flow, start: nat, args: nat, trail: seq<Config>)
    requires Complete(flow)
  {
    |trail| > 0 && trail[0] == Config(start, args) && forall i :: 0 <= i < |trail| - 1 ==> Goes(flow, trail[i], trail[i + 1])
  }

  /** Control can arrive at that offset with that many values. */
  ghost predicate Arrives(flow: Flow, start: nat, args: nat, c: Config)
    requires Complete(flow)
  {
    exists trail :: IsTrail(flow, start, args, trail) && trail[|trail| - 1] == c
  }

  lemma ArrivesFirst(flow: Flow, start: nat, args: nat)
    requires Complete(flow)
    ensures Arrives(flow, start, args, Config(start, args))
  {
    assert IsTrail(flow, start, args, [Config(start, args)]);
  }

  lemma ArrivesNext(flow: Flow, start: nat, args: nat, c: Config, e: Edge)
    requires Complete(flow) && Arrives(flow, start, args, c) && c.pc < flow.len
    requires Edges(flow, c.pc, c.depth).Ok? && e in Edges(flow, c.pc, c.depth).value
    ensures Arrives(flow, start, args, Config(e.pc, e.depth))
  {
    var trail :| IsTrail(flow, start, args, trail) && trail[|trail| - 1] == c;
    var longer := trail + [Config(e.pc, e.depth)];
    assert forall i :: 0 <= i < |longer| - 1 ==> Goes(flow, longer[i], longer[i + 1]);
    assert IsTrail(flow, start, args, longer);
  }

  /** Control can arrive where the opcode is faulty or finds too few values. */
  ghost predicate ArrivesAtFault(flow: Flow, start: nat, args: nat, fault: Fault)
    requires Complete(flow)
  {
    exists c :: Arrives(flow, start, args, c) && c.pc < flow.len && Edges(flow, c.pc, c.depth) == Err(fault)
  }

  /** Control can leave the bytecode. */
  ghost predicate ArrivesOutside(flow: Flow, start: nat, args: nat)
    requires Complete(flow)
  {
    exists c :: Arrives(flow, start, args, c) && c.pc >= flow.len
  }

  /** Control can take that edge; it enters the function as if it fell in. */
  ghost predicate Enters(flow: Flow, start: nat, args: nat, e: Edge)
    requires Complete(flow)
  {
    e == Edge(start, args, false) || exists c :: Arrives(flow, start, args, c) && LeavesBy(flow, c, e)
  }

  predicate LeavesBy(flow: Flow, c: Config, e: Edge)
    requires Complete(flow)
  {
    c.pc < flow.len && Edges(flow, c.pc, c.depth).Ok? && e in Edges(flow, c.pc, c.depth).value
  }

  lemma EntersArrives(flow: Flow, start: nat, args: nat, e: Edge)
    requires Complete(flow) && Enters(flow, start, args, e)
    ensures Arrives(flow, start, args, Config(e.pc, e.depth))
  {
    if e == Edge(start, args, false) {
      ArrivesFirst(flow, start, args);
    } else {
      var c :| Arrives(flow, start, args, c) && LeavesBy(flow, c, e);
      ArrivesNext(flow, start, args, c, e);
    }
  }

  /** Control can branch to one offset with different numbers of values, or fall into one. */
  ghost predicate EntersTwice(flow: Flow, start: nat, args: nat)
    requires Complete(flow)
  {
    exists e, e' :: Enters(flow, start, args, e) && Enters(flow, start, args, e')
      && e.pc == e'.pc && e.isTarget == e'.isTarget && e.depth != e'.depth
  }

  /** Control can fall into an offset with fewer values than it can branch there with. */
  ghost predicate FallsShort(flow: Flow, start: nat, args: nat)
    requires Complete(flow)
  {
    exists e, e' :: Enters(flow, start, args, e) && Enters(flow, start, args, e')
      && e.pc == e'.pc && e.isTarget && !e'.isTarget && e'.depth < e.depth
  }

  /** What justifies a refusal. */
  ghost predicate Refuted(flow: Flow, start: nat, args: nat, fault: Fault)
    requires Complete(flow)
  {
    match fault
    case FellOffEnd => ArrivesOutside(flow, start, args) || ArrivesAtFault(flow, start, args, fault)
    case DepthConflict => EntersTwice(flow, start, args) || ArrivesAtFault(flow, start, args, fault)
    case TooShallow => FallsShort(flow, start, args) || ArrivesAtFault(flow, start, args, fault)
    case _ => ArrivesAtFault(flow, start, args, fault)
  }

  /** Every target's depth is one that control can branch there with, and every other
      recorded depth one that it can fall in with. */
  ghost predicate Evident(flow: Flow, reached: Reached, targets: map<nat, nat>, start: nat, args: nat)
    requires Complete(flow)
  {
    && (forall t :: t in targets ==> EntersAt(flow, start, args, t, targets[t], true))
    && forall p :: 0 <= p < |reached| && reached[p].Some? ==> EntersAt(flow, start, args, p, reached[p].value, false)
  }

  ghost predicate EntersAt(flow: Flow, start: nat, args: nat, pc: nat, depth: nat, isTarget: bool)
    requires Complete(flow)
  {
    Enters(flow, start, args, Edge(pc, depth, isTarget))
  }

  lemma EvidentArrives(flow: Flow, reached: Reached, targets: map<nat, nat>, start: nat, args: nat, pc: nat)
    requires Complete(flow) && Evident(flow, reached, targets, start, args) && DepthAt(reached, targets, pc).Some?
    ensures Arrives(flow, start, args, Config(pc, DepthAt(reached, targets, pc).value))
  {
    assert EntersAt(flow, start, args, pc, DepthAt(reached, targets, pc).value, pc in targets);
    EntersArrives(flow, start, args, Edge(pc, DepthAt(reached, targets, pc).value, pc in targets));
  }

  // ----- the worklist ---------------------------------------------------------------------

  datatype Outcome =
    | Typed(targets: map<nat, nat>)
    | Faulted(fault: Fault)
    /** The entry offset lies outside the bytecode, which the scan indexes unchecked. */
    | Panicked

  function Known(reached: Reached): set<nat> {
    set pc | 0 <= pc < |reached| && reached[pc].Some?
  }

  function Range(n: nat): (r: set<nat>)
    ensures forall p :: p in r <==> 0 <= p < n
    ensures |r| == n
  {
    if n == 0 then {} else Range(n - 1) + {n - 1}
  }

  lemma KnownBound(reached: Reached)
    ensures |Known(reached)| <= |reached|
  {
    SubsetSize(Known(reached), Range(|reached|));
  }

  lemma {:induction false} SubsetSize(a: set<nat>, b: set<nat>)
    requires a <= b
    ensures |a| <= |b|
  {
    assert b == a + (b - a);
  }

  /** How many offsets may still be recorded for the first time. */
  function Remaining(reached: Reached, targets: map<nat, nat>): int {
    2 * |reached| - |targets| - |Known(reached)|
  }

  lemma RemainingNat(flow: Flow, reached: Reached, targets: map<nat, nat>)
    requires |reached| == flow.len && forall t :: t in targets ==> t < flow.len
    ensures Remaining(reached, targets) >= 0
  {
    KnownBound(reached);
    SubsetSize(targets.Keys, Range(flow.len));
    assert |targets| == |targets.Keys|;
  }

  /** A target's depth is at most what was first recorded there. */
  ghost predicate Placed(flow: Flow, reached: Reached, targets: map<nat, nat>)
    requires |reached| == flow.len
  {
    forall p :: p in targets ==> p < flow.len && (reached[p].Some? ==> reached[p].value >= targets[p])
  }

  /** What one edge may change: a block target may be added, or an offset be reached for
      the first time; either is then on the worklist. */
  ghost predicate Extends(flow: Flow, r0: Reached, t0: map<nat, nat>, w0: seq<nat>, r1: Reached, t1: map<nat, nat>, w1: seq<nat>) {
    && |r0| == |r1| == flow.len && (forall p :: p in w0 ==> p in w1)
    && (forall p :: p in w1 ==> p in w0 || p < flow.len)
    && (forall p :: 0 <= p < flow.len && DepthAt(r1, t1, p) != DepthAt(r0, t0, p) ==> p in w1)
    && (forall p :: p in t0 ==> p in t1 && t1[p] == t0[p])
    && (forall p :: 0 <= p < flow.len && r0[p].Some? ==> r1[p] == r0[p])
    && (forall p :: p in t1 && p !in t0 ==> p < flow.len && (r0[p].Some? ==> r0[p].value >= t1[p]))
    && Placed(flow, r1, t1)
  }

  lemma EdgeOkKept(flow: Flow, r0: Reached, t0: map<nat, nat>, w0: seq<nat>, r1: Reached, t1: map<nat, nat>, w1: seq<nat>, e: Edge)
    requires Extends(flow, r0, t0, w0, r1, t1, w1) && EdgeOk(flow, r0, t0, e)
    ensures EdgeOk(flow, r1, t1, e)
  {
  }

  lemma SettledKept(flow: Flow, r0: Reached, t0: map<nat, nat>, w0: seq<nat>, r1: Reached, t1: map<nat, nat>, w1: seq<nat>, pc: nat)
    requires Complete(flow) && pc < flow.len
    requires Extends(flow, r0, t0, w0, r1, t1, w1) && Settled(flow, r0, t0, pc)
    ensures pc in w1 || Settled(flow, r1, t1, pc)
  {
    var d := DepthAt(r0, t0, pc);
    if pc !in w1 && d.Some? {
      var es := Edges(flow, pc, d.value).value;
      forall i | 0 <= i < |es| ensures EdgeOk(flow, r1, t1, es[i]) {
        EdgeOkKept(flow, r0, t0, w0, r1, t1, w1, es[i]);
      }
    }
  }

  lemma ExtendsTwice(flow: Flow, r0: Reached, t0: map<nat, nat>, w0: seq<nat>, r1: Reached, t1: map<nat, nat>, w1: seq<nat>,
                     r2: Reached, t2: map<nat, nat>, w2: seq<nat>)
    requires Extends(flow, r0, t0, w0, r1, t1, w1) && Extends(flow, r1, t1, w1, r2, t2, w2)
    ensures Extends(flow, r0, t0, w0, r2, t2, w2)
  {
    forall p | 0 <= p < flow.len && DepthAt(r2, t2, p) != DepthAt(r0, t0, p) ensures p in w2 {
      if DepthAt(r1, t1, p) != DepthAt(r0, t0, p) {
        assert p in w1;
      }
    }
  }

  lemma TargetAdded(flow: Flow, r: Reached, t: map<nat, nat>, w: seq<nat>, e: Edge)
    requires |r| == flow.len && Placed(flow, r, t) && e.isTarget && e.pc < flow.len && e.pc !in t
    requires r[e.pc].Some? ==> r[e.pc].value >= e.depth
    ensures MergedOne(flow, r, t, w, r, t[e.pc := e.depth], w + [e.pc], e)
  {
    assert |t[e.pc := e.depth]| == |t| + 1;
  }

  lemma DepthRecorded(flow: Flow, r: Reached, t: map<nat, nat>, w: seq<nat>, e: Edge)
    requires |r| == flow.len && Placed(flow, r, t) && !e.isTarget && e.pc < flow.len && e.pc !in t && r[e.pc].None?
    ensures MergedOne(flow, r, t, w, r[e.pc := Some(e.depth)], t, w + [e.pc], e)
  {
    assert Known(r[e.pc := Some(e.depth)]) == Known(r) + {e.pc};
  }

  /** What merging the one edge `e` keeps. */
  ghost predicate MergedOne(flow: Flow, r0: Reached, t0: map<nat, nat>, w0: seq<nat>, r1: Reached, t1: map<nat, nat>,
                            w1: seq<nat>, e: Edge) {
    && Extends(flow, r0, t0, w0, r1, t1, w1) && EdgeOk(flow, r1, t1, e)
    && ((r1 == r0 && t1 == t0 && w1 == w0) || Remaining(r1, t1) < Remaining(r0, t0))
  }

  ghost predicate EdgeEnters(flow: Flow, start: nat, args: nat, es: seq<Edge>, i: nat)
    requires Complete(flow) && i < |es|
  {
    Enters(flow, start, args, es[i])
  }

  /** Merges one edge, as the body of the inner loop does. */
  method Merge(flow: Flow, ghost start: nat, ghost args: nat, depthAt: array<Option<nat>>, targets0: map<nat, nat>,
               worklist0: seq<nat>, e: Edge)
    returns (r: Result<(map<nat, nat>, seq<nat>), Fault>)
    requires depthAt.Length == flow.len && Complete(flow)
    requires Evident(flow, depthAt[..], targets0, start, args) && Enters(flow, start, args, e)
    requires Placed(flow, depthAt[..], targets0)
    modifies depthAt
    ensures r.Ok? ==> MergedOne(flow, old(depthAt[..]), targets0, worklist0, depthAt[..], r.value.0, r.value.1, e)
    ensures r.Ok? ==> Evident(flow, depthAt[..], r.value.0, start, args)
    ensures r.Err? ==> Refuted(flow, start, args, r.error)
  {
    EntersArrives(flow, start, args, e);
    if e.pc >= flow.len {
      return Err(FellOffEnd);
    }
    if e.isTarget {
      if e.pc in targets0 {
        if targets0[e.pc] != e.depth {
          assert EntersAt(flow, start, args, e.pc, targets0[e.pc], true);
          return Err(DepthConflict);
        }
        return Ok((targets0, worklist0));
      }
      if depthAt[e.pc].Some? && depthAt[e.pc].value < e.depth {
        assert EntersAt(flow, start, args, e.pc, depthAt[e.pc].value, false);
        return Err(TooShallow);
      }
      TargetAdded(flow, depthAt[..], targets0, worklist0, e);
      return Ok((targets0[e.pc := e.depth], worklist0 + [e.pc]));
    }
    if e.pc in targets0 {
      if e.depth < targets0[e.pc] {
        assert EntersAt(flow, start, args, e.pc, targets0[e.pc], true);
        return Err(TooShallow);
      }
      return Ok((targets0, worklist0));
    }
    match depthAt[e.pc] {
      case Some(d) =>
        if d != e.depth {
          assert EntersAt(flow, start, args, e.pc, d, false);
          return Err(DepthConflict);
        }
        return Ok((targets0, worklist0));
      case None =>
        DepthRecorded(flow, depthAt[..], targets0, worklist0, e);
        depthAt[e.pc] := Some(e.depth);
        assert depthAt[..] == old(depthAt[..])[e.pc := Some(e.depth)];
        return Ok((targets0, worklist0 + [e.pc]));
    }
  }

  /** The state after some edges have been merged. */
  ghost predicate Merged(flow: Flow, r0: Reached, t0: map<nat, nat>, w0: seq<nat>, r1: Reached, t1: map<nat, nat>,
                         w1: seq<nat>, es: seq<Edge>) {
    && Extends(flow, r0, t0, w0, r1, t1, w1)
    && (forall i :: 0 <= i < |es| ==> EdgeOk(flow, r1, t1, es[i]))
    && ((r1 == r0 && t1 == t0 && w1 == w0) || Remaining(r1, t1) < Remaining(r0, t0))
  }

  lemma MergedNone(flow: Flow, r: Reached, t: map<nat, nat>, w: seq<nat>)
    requires |r| == flow.len && Placed(flow, r, t)
    ensures Merged(flow, r, t, w, r, t, w, [])
  {
  }

  lemma MergedStep(flow: Flow, r0: Reached, t0: map<nat, nat>, w0: seq<nat>, r1: Reached, t1: map<nat, nat>, w1: seq<nat>,
                   r2: Reached, t2: map<nat, nat>, w2: seq<nat>, es: seq<Edge>, e: Edge)
    requires Merged(flow, r0, t0, w0, r1, t1, w1, es)
    requires MergedOne(flow, r1, t1, w1, r2, t2, w2, e)
    ensures Merged(flow, r0, t0, w0, r2, t2, w2, es + [e]) && Placed(flow, r2, t2)
  {
    ExtendsTwice(flow, r0, t0, w0, r1, t1, w1, r2, t2, w2);
    forall k | 0 <= k < |es| ensures EdgeOk(flow, r2, t2, es[k]) {
      EdgeOkKept(flow, r1, t1, w1, r2, t2, w2, es[k]);
    }
  }

  /** Merges the edges of one opcode. */
  method MergeAll(flow: Flow, ghost start: nat, ghost args: nat, depthAt: array<Option<nat>>, targets0: map<nat, nat>,
                  worklist0: seq<nat>, es: seq<Edge>)
    returns (r: Result<(map<nat, nat>, seq<nat>), Fault>)
    requires depthAt.Length == flow.len && Complete(flow)
    requires Evident(flow, depthAt[..], targets0, start, args)
    requires forall i: nat :: i < |es| ==> EdgeEnters(flow, start, args, es, i)
    requires Placed(flow, depthAt[..], targets0)
    modifies depthAt
    ensures r.Ok? ==> Merged(flow, old(depthAt[..]), targets0, worklist0, depthAt[..], r.value.0, r.value.1, es)
    ensures r.Ok? ==> Evident(flow, depthAt[..], r.value.0, start, args)
    ensures r.Err? ==> Refuted(flow, start, args, r.error)
  {
    var targets, worklist, i := targets0, worklist0, 0;
    ghost var orig := depthAt[..];
    MergedNone(flow, orig, targets, worklist);
    while i < |es|
      invariant 0 <= i <= |es| && Placed(flow, depthAt[..], targets)
      invariant Evident(flow, depthAt[..], targets, start, args)
      invariant Merged(flow, orig, targets0, worklist0, depthAt[..], targets, worklist, es[..i])
    {
      ghost var r0, t0, w0 := depthAt[..], targets, worklist;
      assert EdgeEnters(flow, start, args, es, i);
      var merged :- Merge(flow, start, args, depthAt, targets, worklist, es[i]);
      targets, worklist := merged.0, merged.1;
      MergedStep(flow, orig, targets0, worklist0, r0, t0, w0, depthAt[..], targets, worklist, es[..i], es[i]);
      assert es[..i + 1] == es[..i] + [es[i]];
      i := i + 1;
    }
    assert es[..|es|] == es;
    return Ok((targets, worklist));
  }

  /** What the worklist loop keeps: every recorded offset waits or is settled. */
  ghost predicate Scanning(flow: Flow, reached: Reached, targets: map<nat, nat>, worklist: seq<nat>, start: nat, args: nat)
    requires Complete(flow)
  {
    && Bounded(flow, reached, targets, start, args)
    && (forall p :: p in worklist ==> p < flow.len)
    && forall p :: 0 <= p < flow.len ==> p in worklist || Settled(flow, reached, targets, p)
  }

  lemma ScanningStep(flow: Flow, r0: Reached, t0: map<nat, nat>, before: seq<nat>, w0: seq<nat>, pc: nat, es: seq<Edge>,
                     r1: Reached, t1: map<nat, nat>, w1: seq<nat>, start: nat, args: nat)
    requires Complete(flow) && Scanning(flow, r0, t0, before, start, args) && pc < flow.len
    requires forall p :: p in before <==> p in w0 || p == pc
    requires DepthAt(r0, t0, pc).Some? && Edges(flow, pc, DepthAt(r0, t0, pc).value) == Ok(es)
    requires Merged(flow, r0, t0, w0, r1, t1, w1, es)
    ensures Scanning(flow, r1, t1, w1, start, args)
  {
    forall p | 0 <= p < flow.len ensures p in w1 || Settled(flow, r1, t1, p) {
      if p == pc {
        if p !in w1 {
          assert DepthAt(r1, t1, p) == DepthAt(r0, t0, p);
        }
      } else if p !in w0 {
        SettledKept(flow, r0, t0, w0, r1, t1, w1, p);
      }
    }
  }

  /** `scan_branch_targets`.  What it accepts is consistently typed, at depths that control
      can arrive with; in what it refuses, control can reach a fault, leave the code, branch
      or fall to one offset with different depths, or fall short of a branch's depth. */
  method ScanBranchTargets(flow: Flow, start: nat, args: nat) returns (r: Outcome, ghost reached: Reached)
    requires Complete(flow)
    ensures r.Panicked? <==> start >= flow.len
    ensures r.Typed? ==> Typing(flow, reached, r.targets, start, args) && Evident(flow, reached, r.targets, start, args)
    ensures r.Faulted? ==> Refuted(flow, start, args, r.fault)
  {
    reached := [];
    if start >= flow.len {
      return Panicked, reached;
    }
    var depthAt := new Option<nat>[flow.len](i => None);
    depthAt[start] := Some(args);
    var targets: map<nat, nat>, worklist := map[], [start];
    RemainingNat(flow, depthAt[..], targets);
    ArrivesFirst(flow, start, args);
    while worklist != []
      invariant Scanning(flow, depthAt[..], targets, worklist, start, args)
      invariant Evident(flow, depthAt[..], targets, start, args)
      invariant Remaining(depthAt[..], targets) >= 0
      decreases Remaining(depthAt[..], targets), |worklist|
    {
      ghost var r0, before := depthAt[..], worklist;
      var pc := worklist[|worklist| - 1];
      worklist := worklist[..|worklist| - 1];
      assert pc in before && forall p :: p in before <==> p in worklist || p == pc;
      var depth := if pc in targets then Some(targets[pc]) else depthAt[pc];
      assert depth == DepthAt(r0, targets, pc);
      if depth.None? {
        continue;
      }
      ghost var c := Config(pc, depth.value);
      EvidentArrives(flow, r0, targets, start, args, pc);
      var es := Edges(flow, pc, depth.value);
      if es.Err? {
        return Faulted(es.error), reached;
      }
      forall i: nat | i < |es.value| ensures EdgeEnters(flow, start, args, es.value, i) {
        assert LeavesBy(flow, c, es.value[i]);
      }
      var merged := MergeAll(flow, start, args, depthAt, targets, worklist, es.value);
      if merged.Err? {
        return Faulted(merged.error), reached;
      }
      ghost var t0, w0 := targets, worklist;
      targets, worklist := merged.value.0, merged.value.1;
      ScanningStep(flow, r0, t0, before, w0, pc, es.value, depthAt[..], targets, worklist, start, args);
      RemainingNat(flow, depthAt[..], targets);
    }
    reached := depthAt[..];
    return Typed(targets), reached;
  }

  // ----- runs -----------------------------------------------------------------------------

  /** Entering an offset: a block keeps only the values it has parameters for. */
  function Enter(targets: map<nat, nat>, pc: nat, depth: nat): Config {
    Config(pc, if pc in targets then targets[pc] else depth)
  }

  ghost predicate StepsTo(flow: Flow, targets: map<nat, nat>, c: Config, c': Config)
    requires Complete(flow)
  {
    && c.pc < flow.len && Edges(flow, c.pc, c.depth).Ok?
    && exists e :: e in Edges(flow, c.pc, c.depth).value && c' == Enter(targets, e.pc, e.depth)
  }

  ghost predicate IsRun(flow: Flow, targets: map<nat, nat>, start: nat, args: nat, run: seq<Config>)
    requires Complete(flow)
  {
    && |run| > 0 && run[0] == Enter(targets, start, args)
    && forall i :: 0 <= i < |run| - 1 ==> StepsTo(flow, targets, run[i], run[i + 1])
  }

  /** The typing is sound: along every run, of any length, each opcode is entered at its
      recorded depth and finds the operands it needs; a branch never has to be cut back,
      and a fall into a block always has enough values. */
  lemma {:induction false} RunsNeverUnderflow(flow: Flow, reached: Reached, targets: map<nat, nat>, start: nat, args: nat,
                                              run: seq<Config>, i: nat)
    requires Complete(flow) && Typing(flow, reached, targets, start, args)
    requires IsRun(flow, targets, start, args, run) && i < |run|
    ensures run[i].pc < flow.len && DepthAt(reached, targets, run[i].pc) == Some(run[i].depth)
    ensures Edges(flow, run[i].pc, run[i].depth).Ok?
    ensures forall e :: e in Edges(flow, run[i].pc, run[i].depth).value ==>
      && e.pc < flow.len && e.depth >= Enter(targets, e.pc, e.depth).depth
      && (e.isTarget ==> e.pc in targets && e.depth == targets[e.pc])
  {
    if i > 0 {
      RunsNeverUnderflow(flow, reached, targets, start, args, run, i - 1);
      assert StepsTo(flow, targets, run[i - 1], run[i]);
      assert Settled(flow, reached, targets, run[i - 1].pc);
    }
    assert Settled(flow, reached, targets, run[i].pc);
  }
}
