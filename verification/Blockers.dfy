/** The scans that decide which functions may be installed: they look for opcodes at
    instruction boundaries, where a scan of the raw bytes also sees operands. */
module Blockers {
  import opened Basics
  import opened Words
  import opened Opcodes
  import opened Bytecode
  import opened Stacking

  // ----- boundaries -----------------------------------------------------------------------

  /** The step of the walk at `pc`: none where the walk cannot be trusted. */
  function StepAt(bc: seq<Byte>, pc: nat): (n: Option<nat>)
    requires pc < |bc|
    ensures n.Some? ==> 0 < n.value && pc + n.value <= |bc|
  {
    var op := bc[pc];
    if op == ESCAPE || !IsNamed(op) || pc + LengthAt(bc, pc) > |bc| then None else Some(LengthAt(bc, pc))
  }

  /** The code as its walks see it: the opcode and the step at every offset. */
  datatype Steps = Steps(bc: seq<Byte>, step: map<nat, Option<nat>>)

  predicate Whole(s: Steps) {
    forall pc :: 0 <= pc < |s.bc| ==>
      pc in s.step && (s.step[pc].Some? ==> 0 < s.step[pc].value && pc + s.step[pc].value <= |s.bc|)
  }

  function StepsOf(bc: seq<Byte>): (s: Steps)
    ensures Whole(s) && s.bc == bc
  {
    Steps(bc, map pc: nat | 0 <= pc < |bc| :: StepAt(bc, pc))
  }

  /** The instruction boundaries from `pc` on, if every step can be trusted. */
  function Boundaries(s: Steps, pc: nat): Option<seq<nat>>
    requires Whole(s)
    decreases |s.bc| - pc
  {
    if pc >= |s.bc| then Some([])
    else
      var n :- s.step[pc];
      var rest :- Boundaries(s, pc + n);
      Some([pc] + rest)
  }

  /** The end of the instruction at the i-th boundary. */
  function EndOf(bs: seq<nat>, i: nat, len: nat): nat {
    if i + 1 < |bs| then bs[i + 1] else len
  }

  /** The boundaries cut the bytes into instructions exactly: they start at the start,
      each instruction ends where the next begins, and the last ends at the end. */
  lemma {:induction false} BoundariesSplit(s: Steps, pc: nat)
    requires Whole(s) && pc <= |s.bc| && Boundaries(s, pc).Some?
    ensures var bs := Boundaries(s, pc).value;
      && (pc < |s.bc| <==> |bs| > 0) && (|bs| > 0 ==> bs[0] == pc)
      && forall i :: 0 <= i < |bs| ==>
           bs[i] < |s.bc| && s.step[bs[i]].Some? && bs[i] + s.step[bs[i]].value == EndOf(bs, i, |s.bc|)
    decreases |s.bc| - pc
  {
    if pc < |s.bc| {
      var next := pc + s.step[pc].value;
      BoundariesSplit(s, next);
      var bs: seq<nat>, rest: seq<nat> := Boundaries(s, pc).value, Boundaries(s, next).value;
      forall i | 0 <= i < |bs|
        ensures bs[i] < |s.bc| && s.step[bs[i]].Some? && bs[i] + s.step[bs[i]].value == EndOf(bs, i, |s.bc|)
      {
        if i > 0 { assert bs[i] == rest[i - 1]; }
      }
    }
  }

  /** A walk has reached `pc` over the boundaries `seen`. */
  predicate Visited(s: Steps, seen: seq<nat>, pc: nat)
    requires Whole(s)
  {
    if Boundaries(s, pc).None? then Boundaries(s, 0).None?
    else Boundaries(s, 0) == Some(seen + Boundaries(s, pc).value)
  }

  lemma VisitedNone(s: Steps)
    requires Whole(s)
    ensures Visited(s, [], 0)
  {
    if Boundaries(s, 0).Some? {
      assert [] + Boundaries(s, 0).value == Boundaries(s, 0).value;
    }
  }

  lemma VisitedNext(s: Steps, seen: seq<nat>, pc: nat)
    requires Whole(s) && Visited(s, seen, pc) && pc < |s.bc| && s.step[pc].Some?
    ensures Visited(s, seen + [pc], pc + s.step[pc].value)
  {
    var next := Boundaries(s, pc + s.step[pc].value);
    if next.Some? {
      assert seen + ([pc] + next.value) == seen + [pc] + next.value;
    }
  }

  lemma {:induction false} VisitedAll(s: Steps, seen: seq<nat>, pc: nat)
    requires Whole(s) && Visited(s, seen, pc) && pc >= |s.bc|
    ensures Boundaries(s, 0) == Some(seen)
  {
    assert seen + [] == seen;
  }

  /** Some instruction has an opcode of the set. */
  predicate Occurs(s: Steps, bs: seq<nat>, ops: set<Byte>)
    requires forall i :: 0 <= i < |bs| ==> bs[i] < |s.bc|
  {
    exists i :: 0 <= i < |bs| && s.bc[bs[i]] in ops
  }

  // ----- blockers --------------------------------------------------------------------------

  datatype BlockerScan = BlockerScan(callLocalB: bool, callConstAddr: bool, constAddr: bool, callFastRts: bool)

  function Ccas(): set<Byte> { {CALL_CONST_ADDR8_0, CALL_CONST_ADDR8_1, CALL_CONST_ADDR8_8, CALL_CONST_ADDR16_8} }

  function ConstAddrs(): set<Byte> { {CONST_ADDR8_0, CONST_ADDR8_1, CONST_ADDR8_8, CONST_ADDR16_8} }

  function FastRts(): set<Byte> {
    {CALL_FAST_RTS0, CALL_FAST_RTS1, CALL_FAST_RTS2, CALL_FAST_RTS3, CALL_FAST_RTS4, CALL_FAST_RTS5}
  }

  /** `scan_blockers_raw`. */
  function RawBlockers(bc: seq<Byte>): BlockerScan {
    BlockerScan(CALL_LOCAL_B in bc, exists b :: b in bc && b in Ccas(), exists b :: b in bc && b in ConstAddrs(),
      exists b :: b in bc && b in FastRts())
  }

  /** The flags of `a` are all among those of `b`. */
  predicate Within(a: BlockerScan, b: BlockerScan) {
    && (a.callLocalB ==> b.callLocalB) && (a.callConstAddr ==> b.callConstAddr)
    && (a.constAddr ==> b.constAddr) && (a.callFastRts ==> b.callFastRts)
  }

  predicate Exact(s: Steps, bs: seq<nat>, scan: BlockerScan)
    requires forall i :: 0 <= i < |bs| ==> bs[i] < |s.bc|
  {
    && (scan.callLocalB <==> Occurs(s, bs, {CALL_LOCAL_B})) && (scan.callConstAddr <==> Occurs(s, bs, Ccas()))
    && (scan.constAddr <==> Occurs(s, bs, ConstAddrs())) && (scan.callFastRts <==> Occurs(s, bs, FastRts()))
  }

  lemma ExactNext(s: Steps, bs: seq<nat>, scan: BlockerScan, pc: nat, scan': BlockerScan)
    requires (forall i :: 0 <= i < |bs| ==> bs[i] < |s.bc|) && Exact(s, bs, scan) && pc < |s.bc|
    requires var op := s.bc[pc];
      scan' == BlockerScan(scan.callLocalB || op == CALL_LOCAL_B, scan.callConstAddr || op in Ccas(),
        scan.constAddr || op in ConstAddrs(), scan.callFastRts || op in FastRts())
    ensures Exact(s, bs + [pc], scan')
  {
    OccursNext(s, bs, pc, {CALL_LOCAL_B});
    OccursNext(s, bs, pc, Ccas());
    OccursNext(s, bs, pc, ConstAddrs());
    OccursNext(s, bs, pc, FastRts());
  }

  lemma OccursNext(s: Steps, bs: seq<nat>, pc: nat, ops: set<Byte>)
    requires (forall i :: 0 <= i < |bs| ==> bs[i] < |s.bc|) && pc < |s.bc|
    ensures Occurs(s, bs + [pc], ops) <==> Occurs(s, bs, ops) || s.bc[pc] in ops
  {
    var both := bs + [pc];
    if s.bc[pc] in ops { assert both[|bs|] == pc; }
    if Occurs(s, bs, ops) {
      var i :| 0 <= i < |bs| && s.bc[bs[i]] in ops;
      assert both[i] == bs[i];
    }
  }

  /** `scan_blockers_boundary_aware`: when it completes, it sets each flag exactly when such
      an opcode stands at a boundary of the disassembler's walk, and so sets no flag that the
      raw scan does not set; it completes exactly when the code splits into instructions
      the disassembler knows. */
  method ScanBlockers(s: Steps) returns (r: Option<BlockerScan>)
    requires Whole(s)
    ensures r.Some? <==> Boundaries(s, 0).Some?
    ensures r.Some? ==>
      && (forall i :: 0 <= i < |Boundaries(s, 0).value| ==> Boundaries(s, 0).value[i] < |s.bc|)
      && Exact(s, Boundaries(s, 0).value, r.value)
      && Within(r.value, RawBlockers(s.bc))
  {
    var scan, pc := BlockerScan(false, false, false, false), 0;
    ghost var seen: seq<nat> := [];
    VisitedNone(s);
    while pc < |s.bc|
      invariant pc <= |s.bc|
      invariant forall i :: 0 <= i < |seen| ==> seen[i] < |s.bc|
      invariant Exact(s, seen, scan)
      invariant Visited(s, seen, pc)
      decreases |s.bc| - pc
    {
      var n := s.step[pc];
      if n.None? {
        return None;
      }
      var op := s.bc[pc];
      ghost var scan0 := scan;
      scan := BlockerScan(scan.callLocalB || op == CALL_LOCAL_B, scan.callConstAddr || op in Ccas(),
        scan.constAddr || op in ConstAddrs(), scan.callFastRts || op in FastRts());
      ExactNext(s, seen, scan0, pc, scan);
      VisitedNext(s, seen, pc);
      seen := seen + [pc];
      pc := pc + n.value;
    }
    VisitedAll(s, seen, pc);
    return Some(scan);
  }

  // ----- call density ----------------------------------------------------------------------

  function Outgoing(): set<Byte> { {CALL_CLOSURE, TAIL_B_B} + FastRts() }

  /** How many of the instructions have an opcode of the set. */
  function Count(s: Steps, bs: seq<nat>, ops: set<Byte>): (n: nat)
    requires forall i :: 0 <= i < |bs| ==> bs[i] < |s.bc|
    ensures n <= |bs|
  {
    if bs == [] then 0
    else Count(s, bs[..|bs| - 1], ops) + if s.bc[bs[|bs| - 1]] in ops then 1 else 0
  }

  /** `scan_call_density`: instructions, and those of them that call out. */
  method ScanCallDensity(s: Steps) returns (r: Option<(nat, nat)>)
    requires Whole(s)
    ensures r.Some? <==> Boundaries(s, 0).Some?
    ensures r.Some? ==>
      && (forall i :: 0 <= i < |Boundaries(s, 0).value| ==> Boundaries(s, 0).value[i] < |s.bc|)
      && r.value == (|Boundaries(s, 0).value|, Count(s, Boundaries(s, 0).value, Outgoing()))
  {
    var total, outgoing, pc := 0, 0, 0;
    ghost var seen: seq<nat> := [];
    VisitedNone(s);
    while pc < |s.bc|
      invariant pc <= |s.bc|
      invariant forall i :: 0 <= i < |seen| ==> seen[i] < |s.bc|
      invariant total == |seen| && outgoing == Count(s, seen, Outgoing())
      invariant Visited(s, seen, pc)
      decreases |s.bc| - pc
    {
      var n := s.step[pc];
      if n.None? {
        return None;
      }
      total := total + 1;
      if s.bc[pc] in Outgoing() {
        outgoing := outgoing + 1;
      }
      VisitedNext(s, seen, pc);
      assert (seen + [pc])[..|seen|] == seen;
      seen := seen + [pc];
      pc := pc + n.value;
    }
    VisitedAll(s, seen, pc);
    return Some((total, outgoing));
  }

  // ----- static calls in tail position -------------------------------------------------------

  /** What follows is a return, or the sequence LOCAL_0; RESET_R_1; RETURN_1. */
  predicate TailEquivalent(bc: seq<Byte>, next: nat) {
    || (next < |bc| && bc[next] in {RETURN_1, RETURN_2, RETURN_3, RETURN_B, RETURN_W})
    || (next + 2 < |bc| && bc[next] == LOCAL_0 && bc[next + 1] == RESET_R_1 && bc[next + 2] == RETURN_1)
  }

  /** Every static call among the instructions is in tail position. */
  predicate AllTail(s: Steps, bs: seq<nat>)
    requires Whole(s) && forall i :: 0 <= i < |bs| ==> bs[i] < |s.bc| && s.step[bs[i]].Some?
  {
    forall i :: 0 <= i < |bs| && s.bc[bs[i]] in Ccas() ==> TailEquivalent(s.bc, bs[i] + s.step[bs[i]].value)
  }

  /** `cca_all_tail_equivalent`. */
  method CcaAllTail(s: Steps) returns (r: Option<bool>)
    requires Whole(s)
    ensures r.Some? <==> Boundaries(s, 0).Some?
    ensures r.Some? ==>
      && (forall i :: 0 <= i < |Boundaries(s, 0).value| ==>
            Boundaries(s, 0).value[i] < |s.bc| && s.step[Boundaries(s, 0).value[i]].Some?)
      && (r.value <==> AllTail(s, Boundaries(s, 0).value))
  {
    var all, pc := true, 0;
    ghost var seen: seq<nat> := [];
    VisitedNone(s);
    while pc < |s.bc|
      invariant pc <= |s.bc|
      invariant forall i :: 0 <= i < |seen| ==> seen[i] < |s.bc| && s.step[seen[i]].Some?
      invariant all <==> AllTail(s, seen)
      invariant Visited(s, seen, pc)
      decreases |s.bc| - pc
    {
      var n := s.step[pc];
      if n.None? {
        return None;
      }
      if s.bc[pc] in Ccas() && !TailEquivalent(s.bc, pc + n.value) {
        all := false;
      }
      TailNext(s, seen, pc);
      VisitedNext(s, seen, pc);
      seen := seen + [pc];
      pc := pc + n.value;
    }
    VisitedAll(s, seen, pc);
    return Some(all);
  }

  lemma TailNext(s: Steps, bs: seq<nat>, pc: nat)
    requires Whole(s) && (forall i :: 0 <= i < |bs| ==> bs[i] < |s.bc| && s.step[bs[i]].Some?)
    requires pc < |s.bc| && s.step[pc].Some?
    ensures AllTail(s, bs + [pc]) <==>
      AllTail(s, bs) && (s.bc[pc] in Ccas() ==> TailEquivalent(s.bc, pc + s.step[pc].value))
  {
    var both := bs + [pc];
    assert both[|bs|] == pc;
    if AllTail(s, both) {
      forall i | 0 <= i < |bs| && s.bc[bs[i]] in Ccas() ensures TailEquivalent(s.bc, bs[i] + s.step[bs[i]].value) {
        assert both[i] == bs[i];
      }
    }
  }

  /** `cca_install_safe`: where the walk succeeds, exactly when every static call at a
      boundary is in tail position; where it does not, only if no byte looks like one. */
  method CcaInstallSafe(s: Steps) returns (safe: bool)
    requires Whole(s)
    ensures Boundaries(s, 0).Some? ==>
      && (forall i :: 0 <= i < |Boundaries(s, 0).value| ==>
            Boundaries(s, 0).value[i] < |s.bc| && s.step[Boundaries(s, 0).value[i]].Some?)
      && (safe <==> AllTail(s, Boundaries(s, 0).value))
    ensures Boundaries(s, 0).None? ==> (safe <==> !RawBlockers(s.bc).callConstAddr)
  {
    if !RawBlockers(s.bc).callConstAddr {
      if Boundaries(s, 0).Some? {
        BoundariesSplit(s, 0);
      }
      return true;
    }
    var r := CcaAllTail(s);
    return r == Some(true);
  }
}
