/** A body that the translator accepts, with a branch into the return sequence that a fused
    call skips: the block of the branch's target is never filled. */
module UnfilledBlock {
  import opened Basics
  import opened Words
  import opened Opcodes
  import opened Stacking
  import opened DepthScan
  import opened Emission
  import I = InferArgs
  import B = Blocks
  import T = Translator

  /** Two declared arguments; a conditional jump over a call, to the return sequence that
      the call falls into. */
  const JOINED: seq<Byte> := [ENTER_INT_X86, 2, JUMP8_FALSE, 1, CALL_CLOSURE, LOCAL_0, RESET_R_1, RETURN_1]

  // ----- the tables of the body -------------------------------------------------------------------

  lemma JumpLeaves()
    ensures IsLeaving(JUMP8_FALSE) && !IsLocal(JUMP8_FALSE) && !IsBinary(JUMP8_FALSE) && !HasNoOperand(JUMP8_FALSE)
  {
  }

  lemma JoinedJump(b: Body)
    requires b.bc == JOINED
    ensures ScanAt(b, 2) == Ok(Branches(1, 1, Ok([5, 4]))) && EmitAt(b, 2) == Ok(Jump(4, 1, 1, Ok([5, 4])))
  {
    JumpLeaves();
    assert ScanAt(b, 2) == ScanLeaving(b, 2);
    assert EmitAt(b, 2) == EmitLeaving(b, 2);
  }

  predicate Joined(flow: Flow, lo: Lowered) {
    && Complete(flow) && Tabled(lo) && flow.len == lo.len == 8
    && flow.at[2] == Ok(Branches(1, 1, Ok([5, 4]))) && flow.at[4] == Ok(Collapse(5)) && flow.at[5] == Ok(Plain(6, 1, 1))
    && flow.at[6] == Ok(Plain(7, 2, -1)) && flow.at[7] == Ok(Stop(1))
    && lo.at[2] == Ok(Jump(4, 1, 1, Ok([5, 4]))) && lo.at[4] == Ok(Return(8, 1))
  }

  lemma JoinedTables(b: Body)
    requires b.bc == JOINED
    ensures Joined(FlowOf(b), LoweredOf(b))
  {
    JoinedJump(b);
    B.FusedScans(b, 4);
    PassesMatch(b);
  }

  // ----- pass 1 -------------------------------------------------------------------------------------

  predicate Within(c: Config) {
    c in [Config(2, 2), Config(4, 1), Config(5, 1), Config(6, 2), Config(7, 1)]
  }

  lemma StepsWithin(flow: Flow, lo: Lowered, c: Config, c': Config)
    requires Joined(flow, lo) && Within(c) && Goes(flow, c, c')
    ensures Within(c')
  {
    var e :| e in Edges(flow, c.pc, c.depth).value && c' == Config(e.pc, e.depth);
  }

  lemma {:induction false} TrailWithin(flow: Flow, lo: Lowered, trail: seq<Config>, i: nat)
    requires Joined(flow, lo) && IsTrail(flow, 2, 2, trail) && i < |trail|
    ensures Within(trail[i])
  {
    if i > 0 {
      TrailWithin(flow, lo, trail, i - 1);
      assert Goes(flow, trail[i - 1], trail[i - 1 + 1]);
      StepsWithin(flow, lo, trail[i - 1], trail[i]);
    }
  }

  /** Control arrives at five offsets, with one depth at each. */
  lemma ArrivesWithin(flow: Flow, lo: Lowered, c: Config)
    requires Joined(flow, lo) && Arrives(flow, 2, 2, c)
    ensures Within(c)
  {
    var trail :| IsTrail(flow, 2, 2, trail) && trail[|trail| - 1] == c;
    TrailWithin(flow, lo, trail, |trail| - 1);
  }

  lemma WithinRuns(flow: Flow, lo: Lowered, c: Config)
    requires Joined(flow, lo) && Within(c)
    ensures c.pc < flow.len && Edges(flow, c.pc, c.depth).Ok?
  {
  }

  lemma WithinOnce(c: Config, c': Config)
    requires Within(c) && Within(c') && c.pc == c'.pc
    ensures c.depth == c'.depth
  {
  }

  lemma NoFault(flow: Flow, lo: Lowered, fault: Fault)
    requires Joined(flow, lo)
    ensures !ArrivesAtFault(flow, 2, 2, fault) && !ArrivesOutside(flow, 2, 2)
  {
    forall c | Arrives(flow, 2, 2, c) ensures c.pc < flow.len && Edges(flow, c.pc, c.depth).Ok? {
      ArrivesWithin(flow, lo, c);
      WithinRuns(flow, lo, c);
    }
  }

  lemma NotTwice(flow: Flow, lo: Lowered)
    requires Joined(flow, lo)
    ensures !EntersTwice(flow, 2, 2) && !FallsShort(flow, 2, 2)
  {
    forall e, e' | Enters(flow, 2, 2, e) && Enters(flow, 2, 2, e') && e.pc == e'.pc ensures e.depth == e'.depth {
      EntersArrives(flow, 2, 2, e);
      EntersArrives(flow, 2, 2, e');
      ArrivesWithin(flow, lo, Config(e.pc, e.depth));
      ArrivesWithin(flow, lo, Config(e'.pc, e'.depth));
      WithinOnce(Config(e.pc, e.depth), Config(e'.pc, e'.depth));
    }
  }

  /** Pass 1 has no reason to refuse the body. */
  lemma NotRefuted(flow: Flow, lo: Lowered, fault: Fault)
    requires Joined(flow, lo)
    ensures !Refuted(flow, 2, 2, fault)
  {
    NoFault(flow, lo, fault);
    NotTwice(flow, lo);
  }

  lemma StartKnown(flow: Flow, lo: Lowered, reached: Reached, targets: map<nat, nat>)
    requires Joined(flow, lo) && Typing(flow, reached, targets, 2, 2) && Evident(flow, reached, targets, 2, 2)
    ensures DepthAt(reached, targets, 2) == Some(2)
  {
    if 2 in targets {
      EvidentArrives(flow, reached, targets, 2, 2, 2);
      ArrivesWithin(flow, lo, Config(2, targets[2]));
    }
  }

  lemma TargetsKnown(flow: Flow, lo: Lowered, reached: Reached, targets: map<nat, nat>)
    requires Joined(flow, lo) && Typing(flow, reached, targets, 2, 2) && Evident(flow, reached, targets, 2, 2)
    ensures DepthAt(reached, targets, 2) == Some(2) && 4 in targets && 5 in targets && targets[5] == 1
    ensures Edges(flow, 2, 2) == Ok([Edge(5, 1, true), Edge(4, 1, true)])
  {
    StartKnown(flow, lo, reached, targets);
    JumpTargets(flow, lo, reached, targets);
  }

  lemma JumpTargets(flow: Flow, lo: Lowered, reached: Reached, targets: map<nat, nat>)
    requires Joined(flow, lo) && Typing(flow, reached, targets, 2, 2) && DepthAt(reached, targets, 2) == Some(2)
    ensures 4 in targets && 5 in targets && targets[5] == 1
    ensures Edges(flow, 2, 2) == Ok([Edge(5, 1, true), Edge(4, 1, true)])
  {
    assert Settled(flow, reached, targets, 2);
    var es := Edges(flow, 2, 2).value;
    assert es == [Edge(5, 1, true), Edge(4, 1, true)];
    assert EdgeOk(flow, reached, targets, es[0]) && EdgeOk(flow, reached, targets, es[1]);
  }

  // ----- pass 2 -------------------------------------------------------------------------------------

  lemma {:induction false} VisitEnd(lo: Lowered, targets: map<nat, nat>, pc: nat, returned: bool)
    requires Tabled(lo) && pc >= lo.len
    ensures Visits(lo, targets, pc, returned) == Some([])
  {
  }

  lemma VisitStep(lo: Lowered, targets: map<nat, nat>, pc: nat, returned: bool, rest: seq<nat>)
    requires Tabled(lo) && pc < lo.len && lo.at[pc].Ok? && (pc in targets || !returned)
    requires Visits(lo, targets, lo.at[pc].value.next, !GoesOn(lo, pc)) == Some(rest)
    ensures Visits(lo, targets, pc, returned) == Some([pc] + rest)
  {
  }

  /** The walk goes from the jump to the call, and from there past the end. */
  lemma {:induction false} JoinedVisits(flow: Flow, lo: Lowered, targets: map<nat, nat>)
    requires Joined(flow, lo) && 4 in targets
    ensures Visits(lo, targets, 2, false) == Some([2, 4])
  {
    assert lo.at[4].value.next == 8 && !GoesOn(lo, 4) && !GoesOn(lo, 2);
    VisitEnd(lo, targets, 8, true);
    VisitStep(lo, targets, 4, true, []);
    assert [4] + [] == [4] && [2] + [4] == [2, 4];
    VisitStep(lo, targets, 2, false, [4]);
  }

  lemma NoStackStore(at: nat)
    requires at < 8
    ensures JOINED[at] != SET_STACK_VAL_B
  {
  }

  /** Pass 2 asks for no more values than pass 1. */
  lemma {:induction false} NothingMore(b: Body, reached: Reached, targets: map<nat, nat>, at: nat)
    requires b.bc == JOINED
    ensures !AsksMore(FlowOf(b), LoweredOf(b), reached, targets, at)
  {
    if at < 8 && ScanAt(b, at).Ok? && EmitAt(b, at).Ok? {
      StricterOnly(b, at);
      NoStackStore(at);
    }
  }

  // ----- the translator's answer ----------------------------------------------------------------------

  /** An emitted jump passes its values to the block at `t`. */
  ghost predicate JumpedTo(log: seq<Emitted>, t: nat, n: nat) {
    exists k :: 0 <= k < |log| && Pass(t, n) in log[k].passes
  }

  /** The jump at the head of the walk goes to the block at 5; the walk never comes there. */
  lemma {:induction false} NeverFilled(flow: Flow, lo: Lowered, reached: Reached, targets: map<nat, nat>, log: seq<Emitted>)
    requires Joined(flow, lo) && Typing(flow, reached, targets, 2, 2) && Evident(flow, reached, targets, 2, 2)
    requires Finished(flow, lo, reached, targets, 2, log) && Visits(lo, targets, 2, false) == Some(Offsets(log))
    ensures JumpedTo(log, 5, 1) && !IsEmitted(log, 5)
  {
    TargetsKnown(flow, lo, reached, targets);
    JoinedVisits(flow, lo, targets);
    assert |log| == |Offsets(log)| && Offsets(log)[0] == 2;
    assert EntryOk(flow, lo, reached, targets, log, 0);
    var jumps := JumpsOf(flow, 2, 2);
    assert jumps[0] == Pass(5, 1) && Pass(5, 1) in jumps && Pass(5, 1) in log[0].passes;
    B.EmittedOffsets(log, 5);
  }

  /** The entry marker declares two arguments. */
  lemma JoinedCount(args: nat, end: Option<I.Ending>, bs: seq<nat>)
    requires T.Counted(JOINED, I.WalkOf(JOINED), args, end, bs)
    ensures args == 2
  {
    assert T.Prologue(JOINED) == (2, 2);
  }

  lemma {:induction false} JoinedAccepted(b: Body, r: T.Translation, reached: Reached, targets: map<nat, nat>, args: nat, at: nat)
    requires b.bc == JOINED && T.Answers(b, r, reached, targets, args, at)
    ensures r.Done? && args == 2
  {
    var end, bs :| T.Counted(b.bc, I.WalkOf(b.bc), args, end, bs);
    JoinedCount(args, end, bs);
    JoinedTables(b);
    assert T.Prologue(b.bc) == (2, 2);
    if r.Refused? {
      NotRefuted(FlowOf(b), LoweredOf(b), r.fault);
      PassTwoAccepts(b, reached, targets, at);
    }
  }

  lemma {:induction false} PassTwoAccepts(b: Body, reached: Reached, targets: map<nat, nat>, at: nat)
    requires b.bc == JOINED && Joined(FlowOf(b), LoweredOf(b))
    requires Typing(FlowOf(b), reached, targets, 2, 2) && Evident(FlowOf(b), reached, targets, 2, 2)
    ensures Visits(LoweredOf(b), targets, 2, false).Some? && !AsksMore(FlowOf(b), LoweredOf(b), reached, targets, at)
  {
    TargetsKnown(FlowOf(b), LoweredOf(b), reached, targets);
    JoinedVisits(FlowOf(b), LoweredOf(b), targets);
    NothingMore(b, reached, targets, at);
  }

  lemma {:induction false} InTheCall(b: Body, reached: Reached, targets: map<nat, nat>)
    requires b.bc == JOINED && Joined(FlowOf(b), LoweredOf(b))
    requires Typing(FlowOf(b), reached, targets, 2, 2) && Evident(FlowOf(b), reached, targets, 2, 2)
    ensures B.InFusedCall(b.bc, reached, targets, 5) && 5 in targets && targets[5] == 1
  {
    TargetsKnown(FlowOf(b), LoweredOf(b), reached, targets);
    assert B.FusedAt(b.bc, 4) && DepthAt(reached, targets, 4).Some?;
  }

  /** Whatever answer the translator gives for this body, it is an accepted one: with the two
      declared arguments neither pass can refuse.  The code emitted jumps to the block at
      5, which lies in the return sequence of a fused call and is never filled. */
  lemma {:induction false} BlockUnfilled(b: Body, r: T.Translation, reached: Reached, targets: map<nat, nat>, args: nat, at: nat)
    requires b.bc == JOINED && T.Answers(b, r, reached, targets, args, at)
    ensures r.Done? && T.Accepts(b, reached, targets, args) && 5 in targets && targets[5] == 1
    ensures JumpedTo(r.emitted, 5, 1) && !IsEmitted(r.emitted, 5)
    ensures B.InFusedCall(b.bc, reached, targets, 5)
  {
    JoinedAccepted(b, r, reached, targets, args, at);
    JoinedTables(b);
    assert T.Prologue(b.bc).0 == 2;
    NeverFilled(FlowOf(b), LoweredOf(b), reached, targets, r.emitted);
    InTheCall(b, reached, targets);
  }
}
