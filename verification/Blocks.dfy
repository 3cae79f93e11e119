/** Which blocks the emission walk fills: those whose start lies on the chain of opcodes from
    the entry, and not inside a call that is emitted together with its return. */
module Blocks {
  import opened Basics
  import opened Words
  import opened Opcodes
  import opened Stacking
  import opened DepthScan
  import opened Emission

  // ----- the chain of opcodes -----------------------------------------------------------------

  /** Stepping over opcodes leads from `a` to `t`. */
  predicate OnChain(lo: Lowered, a: nat, t: nat)
    requires Tabled(lo)
    decreases t - a
  {
    a == t || (a < t && a < lo.len && lo.skip[a].Ok? && OnChain(lo, a + lo.skip[a].value, t))
  }

  lemma {:induction false} ChainOn(lo: Lowered, a: nat, n: nat, t: nat)
    requires Tabled(lo) && OnChain(lo, a, n) && n <= t
    ensures OnChain(lo, a, t) <==> OnChain(lo, n, t)
    decreases n - a
  {
    if a < n {
      ChainOn(lo, a + lo.skip[a].value, n, t);
    }
  }

  /** What is emitted for an opcode ends on the chain. */
  ghost predicate KeepsChain(lo: Lowered)
    requires Tabled(lo)
  {
    forall pc :: 0 <= pc < lo.len && lo.at[pc].Ok? ==> OnChain(lo, pc, lo.at[pc].value.next)
  }

  /** The offset lies inside what was emitted for an earlier one. */
  predicate Swallowed(lo: Lowered, visits: seq<nat>, t: nat)
    requires Tabled(lo)
  {
    exists i :: 0 <= i < |visits| && Spans(lo, visits[i], t)
  }

  predicate Spans(lo: Lowered, pc: nat, t: nat)
    requires Tabled(lo)
  {
    pc < t && pc < lo.len && lo.at[pc].Ok? && t < lo.at[pc].value.next
  }

  lemma {:induction false} VisitsAbove(lo: Lowered, targets: map<nat, nat>, pc: nat, returned: bool, i: nat)
    requires Tabled(lo) && Visits(lo, targets, pc, returned).Some? && i < |Visits(lo, targets, pc, returned).value|
    ensures Visits(lo, targets, pc, returned).value[i] >= pc
    decreases lo.len - pc
  {
    if returned && pc !in targets {
      VisitsAbove(lo, targets, pc + lo.skip[pc].value, true, i);
    } else if i > 0 {
      VisitsAbove(lo, targets, lo.at[pc].value.next, !GoesOn(lo, pc), i - 1);
    }
  }

  lemma {:induction false} NothingBelow(lo: Lowered, targets: map<nat, nat>, pc: nat, returned: bool, t: nat)
    requires Tabled(lo) && Visits(lo, targets, pc, returned).Some? && t < pc
    ensures t !in Visits(lo, targets, pc, returned).value && !OnChain(lo, pc, t)
  {
    var v := Visits(lo, targets, pc, returned).value;
    if t in v {
      var i :| 0 <= i < |v| && v[i] == t;
      VisitsAbove(lo, targets, pc, returned, i);
    }
  }

  /** A walk emits the block at `t` exactly when the chain leads there and nothing emitted
      before covers it. */
  lemma {:induction false} BlockFilled(lo: Lowered, targets: map<nat, nat>, pc: nat, returned: bool, t: nat)
    requires Tabled(lo) && KeepsChain(lo) && Visits(lo, targets, pc, returned).Some? && t in targets && t < lo.len
    ensures var v := Visits(lo, targets, pc, returned).value;
      t in v <==> OnChain(lo, pc, t) && !Swallowed(lo, v, t)
    decreases lo.len - pc
  {
    if t < pc {
      NothingBelow(lo, targets, pc, returned, t);
    } else if returned && pc !in targets {
      BlockFilled(lo, targets, pc + lo.skip[pc].value, true, t);
    } else {
      EmittedFills(lo, targets, pc, returned, t);
    }
  }

  lemma {:induction false} EmittedFills(lo: Lowered, targets: map<nat, nat>, pc: nat, returned: bool, t: nat)
    requires Tabled(lo) && KeepsChain(lo) && Visits(lo, targets, pc, returned).Some? && t in targets
    requires pc <= t < lo.len && (pc in targets || !returned)
    ensures var v := Visits(lo, targets, pc, returned).value;
      t in v <==> OnChain(lo, pc, t) && !Swallowed(lo, v, t)
    decreases lo.len - pc, 0
  {
    var next := lo.at[pc].value.next;
    var v, rest := Visits(lo, targets, pc, returned).value, Visits(lo, targets, next, !GoesOn(lo, pc)).value;
    assert v == [pc] + rest;
    if t < next {
      NothingBelow(lo, targets, next, !GoesOn(lo, pc), t);
      if t > pc {
        assert Spans(lo, v[0], t);
      } else {
        NotSwallowed(lo, targets, next, !GoesOn(lo, pc), t);
        SwallowedLater(lo, pc, rest, t);
      }
    } else {
      BlockFilled(lo, targets, next, !GoesOn(lo, pc), t);
      ChainOn(lo, pc, next, t);
      SwallowedLater(lo, pc, rest, t);
    }
  }

  lemma {:induction false} NotSwallowed(lo: Lowered, targets: map<nat, nat>, pc: nat, returned: bool, t: nat)
    requires Tabled(lo) && Visits(lo, targets, pc, returned).Some? && t < pc
    ensures !Swallowed(lo, Visits(lo, targets, pc, returned).value, t)
  {
    var v := Visits(lo, targets, pc, returned).value;
    forall i | 0 <= i < |v| ensures !Spans(lo, v[i], t) {
      VisitsAbove(lo, targets, pc, returned, i);
    }
  }

  lemma {:induction false} SwallowedLater(lo: Lowered, pc: nat, rest: seq<nat>, t: nat)
    requires Tabled(lo) && !Spans(lo, pc, t)
    ensures Swallowed(lo, [pc] + rest, t) <==> Swallowed(lo, rest, t)
  {
    var v := [pc] + rest;
    if Swallowed(lo, v, t) {
      var i :| 0 <= i < |v| && Spans(lo, v[i], t);
      assert rest[i - 1] == v[i];
    }
    if Swallowed(lo, rest, t) {
      var i :| 0 <= i < |rest| && Spans(lo, rest[i], t);
      assert v[i + 1] == rest[i];
    }
  }

  // ----- the tables of one body ---------------------------------------------------------------------

  lemma {:induction false} OneStep(lo: Lowered, a: nat, t: nat)
    requires Tabled(lo) && a < lo.len && lo.skip[a].Ok? && t == a + lo.skip[a].value
    ensures OnChain(lo, a, t)
  {
    assert OnChain(lo, t, t);
  }

  lemma {:induction false} FusedSteps(b: Body, pc: nat)
    requires Tabled(LoweredOf(b)) && pc + 3 < |b.bc|
    requires b.bc[pc] == CALL_CLOSURE && b.bc[pc + 1] == LOCAL_0 && b.bc[pc + 2] == RESET_R_1 && b.bc[pc + 3] == RETURN_1
    ensures OnChain(LoweredOf(b), pc, pc + 4)
  {
    ReturnSequence();
    assert forall i :: pc <= i < pc + 4 ==> TotalLen(b.bc, i) == Ok(1);
    FourSteps(LoweredOf(b), pc);
  }

  lemma {:induction false} FourSteps(lo: Lowered, pc: nat)
    requires Tabled(lo) && pc + 3 < lo.len && forall i :: pc <= i < pc + 4 ==> lo.skip[i] == Ok(1)
    ensures OnChain(lo, pc, pc + 4)
  {
    OneStep(lo, pc, pc + 1);
    OneStep(lo, pc + 1, pc + 2);
    OneStep(lo, pc + 2, pc + 3);
    OneStep(lo, pc + 3, pc + 4);
    ChainOn(lo, pc + 2, pc + 3, pc + 4);
    ChainOn(lo, pc + 1, pc + 2, pc + 4);
    ChainOn(lo, pc, pc + 1, pc + 4);
  }

  /** The opcodes of a fused call have no operands. */
  lemma ReturnSequence()
    ensures HasNoOperand(CALL_CLOSURE) && IsLocal(LOCAL_0) && HasNoOperand(RESET_R_1)
    ensures IsLeaving(RETURN_1) && !IsLocal(RETURN_1) && !IsBinary(RETURN_1) && !HasNoOperand(RETURN_1)
  {
  }

  lemma {:induction false} BodyKeepsChain(b: Body)
    ensures Tabled(LoweredOf(b)) && KeepsChain(LoweredOf(b))
  {
    PassesMatch(b);
    var lo := LoweredOf(b);
    forall pc | 0 <= pc < lo.len && lo.at[pc].Ok? ensures OnChain(lo, pc, lo.at[pc].value.next) {
      LengthsAgree(b, pc);
      if b.bc[pc] == CALL_CLOSURE && EmitAt(b, pc).value.Return? {
        FusedBytes(b, pc);
        FusedSteps(b, pc);
      } else {
        OneStep(lo, pc, lo.at[pc].value.next);
      }
    }
  }

  lemma {:induction false} FusedBytes(b: Body, pc: nat)
    requires pc < |b.bc| && b.bc[pc] == CALL_CLOSURE && EmitAt(b, pc).Ok? && EmitAt(b, pc).value.Return?
    ensures pc + 3 < |b.bc| && b.bc[pc + 1] == LOCAL_0 && b.bc[pc + 2] == RESET_R_1 && b.bc[pc + 3] == RETURN_1
    ensures EmitAt(b, pc).value.next == pc + 4 && TotalLen(b.bc, pc) == Ok(1)
  {
    ReturnSequence();
    assert !IsLocal(CALL_CLOSURE) && !IsBinary(CALL_CLOSURE);
    assert EmitAt(b, pc) == EmitTailCall(b.bc, pc);
  }

  lemma {:induction false} EmittedOffsets(log: seq<Emitted>, t: nat)
    ensures IsEmitted(log, t) <==> t in Offsets(log)
  {
    if IsEmitted(log, t) {
      var k :| 0 <= k < |log| && log[k].pc == t;
      assert Offsets(log)[k] == t;
    }
    if t in Offsets(log) {
      var k :| 0 <= k < |log| && Offsets(log)[k] == t;
      assert log[k].pc == t;
    }
  }

  // ----- what the walk visits ---------------------------------------------------------------------

  /** The offset lies in the return sequence that the fused call at `f` skips. */
  predicate InZone(flow: Flow, lo: Lowered, f: nat, pc: nat)
    requires Complete(flow) && Tabled(lo) && flow.len == lo.len
  {
    f < lo.len && Fused(flow, lo, f) && f < pc < f + 4
  }

  predicate FallsTo(flow: Flow, pc: nat, next: nat)
    requires Complete(flow) && pc < flow.len
  {
    flow.at[pc].Ok? && flow.at[pc].value.Plain? && flow.at[pc].value.next == next
  }

  /** A fused call covers three opcodes that fall through to a return. */
  predicate Skipping(flow: Flow, lo: Lowered, f: nat)
    requires Complete(flow) && Tabled(lo) && flow.len == lo.len
  {
    && f + 3 < lo.len && lo.at[f].Ok? && lo.at[f].value.next == f + 4 && flow.at[f] == Ok(Collapse(f + 1))
    && FallsTo(flow, f + 1, f + 2) && FallsTo(flow, f + 2, f + 3) && flow.at[f + 3].Ok? && flow.at[f + 3].value.Stop?
  }

  /** Everything but a fused call ends where stepping over it would. */
  predicate StepsAlike(flow: Flow, lo: Lowered, pc: nat)
    requires Complete(flow) && Tabled(lo) && flow.len == lo.len && pc < lo.len
  {
    lo.at[pc].Ok? && !Fused(flow, lo, pc) ==> lo.skip[pc].Ok? && lo.at[pc].value.next == pc + lo.skip[pc].value
  }

  ghost predicate Regular(flow: Flow, lo: Lowered) {
    && Complete(flow) && Tabled(lo) && SamePasses(flow, lo) && KeepsChain(lo)
    && forall pc :: 0 <= pc < lo.len ==> StepsAlike(flow, lo, pc) && (Fused(flow, lo, pc) ==> Skipping(flow, lo, pc))
  }

  /** The walk emits the opcode, or skips it with a fused call. */
  ghost predicate Walked(flow: Flow, lo: Lowered, visits: seq<nat>, pc: nat)
    requires Complete(flow) && Tabled(lo) && flow.len == lo.len
  {
    pc in visits || exists f: nat :: f in visits && InZone(flow, lo, f, pc)
  }

  lemma {:induction false} VisitsOnChain(lo: Lowered, targets: map<nat, nat>, pc: nat, returned: bool, i: nat)
    requires Tabled(lo) && KeepsChain(lo) && Visits(lo, targets, pc, returned).Some?
    requires i < |Visits(lo, targets, pc, returned).value|
    ensures var p := Visits(lo, targets, pc, returned).value[i]; p < lo.len && lo.at[p].Ok? && OnChain(lo, pc, p)
    decreases lo.len - pc
  {
    var p := Visits(lo, targets, pc, returned).value[i];
    if returned && pc !in targets {
      var next := pc + lo.skip[pc].value;
      VisitsOnChain(lo, targets, next, true, i);
      VisitsAbove(lo, targets, next, true, i);
      OneStep(lo, pc, next);
      ChainOn(lo, pc, next, p);
    } else if i > 0 {
      var next := lo.at[pc].value.next;
      VisitsOnChain(lo, targets, next, !GoesOn(lo, pc), i - 1);
      VisitsAbove(lo, targets, next, !GoesOn(lo, pc), i - 1);
      ChainOn(lo, pc, next, p);
    }
  }

  /** After an opcode that leaves its block unfinished, the walk emits the next one. */
  lemma {:induction false} VisitsNext(lo: Lowered, targets: map<nat, nat>, pc: nat, returned: bool, i: nat)
    requires Tabled(lo) && KeepsChain(lo) && Visits(lo, targets, pc, returned).Some?
    requires i < |Visits(lo, targets, pc, returned).value|
    ensures var v := Visits(lo, targets, pc, returned).value;
      && v[i] < lo.len && lo.at[v[i]].Ok?
      && (GoesOn(lo, v[i]) && lo.at[v[i]].value.next < lo.len ==> lo.at[v[i]].value.next in v)
    decreases lo.len - pc
  {
    if returned && pc !in targets {
      VisitsNext(lo, targets, pc + lo.skip[pc].value, true, i);
    } else {
      var next := lo.at[pc].value.next;
      var rest := Visits(lo, targets, next, !GoesOn(lo, pc)).value;
      assert Visits(lo, targets, pc, returned).value == [pc] + rest;
      if i > 0 {
        VisitsNext(lo, targets, next, !GoesOn(lo, pc), i - 1);
      } else if GoesOn(lo, pc) && next < lo.len {
        assert rest[0] == next;
      }
    }
  }

  /** On the chain, only a fused call covers an opcode. */
  lemma {:induction false} CoversAsFused(flow: Flow, lo: Lowered, targets: map<nat, nat>, start: nat, i: nat, t: nat)
    requires Regular(flow, lo) && Visits(lo, targets, start, false).Some?
    requires i < |Visits(lo, targets, start, false).value|
    requires Spans(lo, Visits(lo, targets, start, false).value[i], t) && OnChain(lo, start, t)
    ensures InZone(flow, lo, Visits(lo, targets, start, false).value[i], t)
  {
    var p := Visits(lo, targets, start, false).value[i];
    VisitsOnChain(lo, targets, start, false, i);
    ChainOn(lo, start, p, t);
    assert StepsAlike(flow, lo, p) && (Fused(flow, lo, p) ==> Skipping(flow, lo, p));
  }

  lemma {:induction false} TargetWalked(flow: Flow, lo: Lowered, targets: map<nat, nat>, start: nat, t: nat)
    requires Regular(flow, lo) && Visits(lo, targets, start, false).Some? && t in targets && t < lo.len && OnChain(lo, start, t)
    ensures Walked(flow, lo, Visits(lo, targets, start, false).value, t)
  {
    var v := Visits(lo, targets, start, false).value;
    BlockFilled(lo, targets, start, false, t);
    if t !in v {
      var i :| 0 <= i < |v| && Spans(lo, v[i], t);
      CoversAsFused(flow, lo, targets, start, i, t);
      assert v[i] in v;
    }
  }

  /** Falling through, control stays with what the walk emits or skips. */
  lemma {:induction false} FallWalked(flow: Flow, lo: Lowered, targets: map<nat, nat>, start: nat, c: Config, e: Edge)
    requires Regular(flow, lo) && Visits(lo, targets, start, false).Some?
    requires c.pc < lo.len && Walked(flow, lo, Visits(lo, targets, start, false).value, c.pc)
    requires Edges(flow, c.pc, c.depth).Ok? && e in Edges(flow, c.pc, c.depth).value && !e.isTarget && e.pc < lo.len
    ensures Walked(flow, lo, Visits(lo, targets, start, false).value, e.pc)
  {
    var v := Visits(lo, targets, start, false).value;
    if f: nat :| f in v && InZone(flow, lo, f, c.pc) {
      assert Skipping(flow, lo, f);
      assert InZone(flow, lo, f, e.pc);
    } else {
      var i :| 0 <= i < |v| && v[i] == c.pc;
      VisitsNext(lo, targets, start, false, i);
      assert Agree(flow.at[c.pc].value, lo.at[c.pc].value);
      if Fused(flow, lo, c.pc) {
        assert Skipping(flow, lo, c.pc);
        assert InZone(flow, lo, c.pc, e.pc);
      }
    }
  }

  /** Where an edge leads does not depend on the depth. */
  lemma EdgesAlike(flow: Flow, pc: nat, depth: nat, other: nat, e: Edge)
    requires Complete(flow) && pc < flow.len && Edges(flow, pc, depth).Ok? && Edges(flow, pc, other).Ok?
    requires e in Edges(flow, pc, depth).value
    ensures exists e' :: e' in Edges(flow, pc, other).value && e'.pc == e.pc && e'.isTarget == e.isTarget
  {
    var es, es' := Edges(flow, pc, depth).value, Edges(flow, pc, other).value;
    var i :| 0 <= i < |es| && es[i] == e;
    assert es'[i] in es' && es'[i].pc == e.pc && es'[i].isTarget == e.isTarget;
  }

  ghost predicate AllOnChain(lo: Lowered, targets: map<nat, nat>, start: nat)
    requires Tabled(lo)
  {
    forall t :: t in targets ==> OnChain(lo, start, t)
  }

  /** One step of control, from an offset with a recorded depth to another. */
  lemma {:induction false} StepWalked(flow: Flow, lo: Lowered, reached: Reached, targets: map<nat, nat>, start: nat, args: nat,
                                      c: Config, c': Config)
    requires Regular(flow, lo) && Typing(flow, reached, targets, start, args) && Visits(lo, targets, start, false).Some?
    requires AllOnChain(lo, targets, start)
    requires c.pc < lo.len && DepthAt(reached, targets, c.pc).Some? && Goes(flow, c, c')
    requires Walked(flow, lo, Visits(lo, targets, start, false).value, c.pc)
    ensures c'.pc < lo.len && DepthAt(reached, targets, c'.pc).Some?
    ensures Walked(flow, lo, Visits(lo, targets, start, false).value, c'.pc)
  {
    assert Settled(flow, reached, targets, c.pc);
    var e :| e in Edges(flow, c.pc, c.depth).value && c' == Config(e.pc, e.depth);
    EdgesAlike(flow, c.pc, c.depth, DepthAt(reached, targets, c.pc).value, e);
    if c'.pc in targets {
      TargetWalked(flow, lo, targets, start, c'.pc);
    } else {
      FallWalked(flow, lo, targets, start, c, e);
    }
  }

  /** Wherever control can arrive, the walk emits the opcode or skips it with a fused call. */
  lemma {:induction false} TrailWalked(flow: Flow, lo: Lowered, reached: Reached, targets: map<nat, nat>, start: nat, args: nat,
                                       trail: seq<Config>, i: nat)
    requires Regular(flow, lo) && Typing(flow, reached, targets, start, args) && Visits(lo, targets, start, false).Some?
    requires AllOnChain(lo, targets, start)
    requires IsTrail(flow, start, args, trail) && i < |trail|
    ensures trail[i].pc < lo.len && DepthAt(reached, targets, trail[i].pc).Some?
    ensures Walked(flow, lo, Visits(lo, targets, start, false).value, trail[i].pc)
  {
    if i > 0 {
      TrailWalked(flow, lo, reached, targets, start, args, trail, i - 1);
      assert Goes(flow, trail[i - 1], trail[i - 1 + 1]);
      StepWalked(flow, lo, reached, targets, start, args, trail[i - 1], trail[i]);
    } else {
      assert start in Visits(lo, targets, start, false).value;
    }
  }

  /** A call that pass 1 reaches is emitted, if what follows it would have it fused. */
  lemma {:induction false} ReachedCallWalked(flow: Flow, lo: Lowered, reached: Reached, targets: map<nat, nat>, start: nat,
                                             args: nat, p: nat)
    requires Regular(flow, lo) && Typing(flow, reached, targets, start, args) && Evident(flow, reached, targets, start, args)
    requires Visits(lo, targets, start, false).Some? && AllOnChain(lo, targets, start)
    requires p < lo.len && Fused(flow, lo, p) && DepthAt(reached, targets, p).Some?
    ensures p in Visits(lo, targets, start, false).value
  {
    var c := Config(p, DepthAt(reached, targets, p).value);
    EvidentArrives(flow, reached, targets, start, args, p);
    var trail :| IsTrail(flow, start, args, trail) && trail[|trail| - 1] == c;
    TrailWalked(flow, lo, reached, targets, start, args, trail, |trail| - 1);
    assert Skipping(flow, lo, p);
    forall f: nat | f in Visits(lo, targets, start, false).value ensures !InZone(flow, lo, f, p) {
      if f < lo.len && Fused(flow, lo, f) {
        assert Skipping(flow, lo, f);
      }
    }
  }

  // ----- exactly which blocks are filled ------------------------------------------------------------

  /** The bytes at `p` are a call before the return sequence that is fused with it. */
  predicate FusedAt(bc: seq<Byte>, p: nat) {
    p + 3 < |bc| && bc[p] == CALL_CLOSURE && bc[p + 1] == LOCAL_0 && bc[p + 2] == RESET_R_1 && bc[p + 3] == RETURN_1
  }

  /** Pass 1 reaches a fused call, and `t` lies in the return sequence after it. */
  ghost predicate InFusedCall(bc: seq<Byte>, reached: Reached, targets: map<nat, nat>, t: nat) {
    exists p: nat :: FusedAt(bc, p) && p < t < p + 4 && DepthAt(reached, targets, p).Some?
  }

  lemma NoCollapse(b: Body, pc: nat)
    requires pc < |b.bc| && ScanAt(b, pc).Ok? && ScanAt(b, pc).value.Collapse?
    ensures b.bc[pc] == CALL_CLOSURE
  {
    if IsLeaving(b.bc[pc]) && !IsLocal(b.bc[pc]) && !IsBinary(b.bc[pc]) && !HasNoOperand(b.bc[pc]) {
      assert ScanAt(b, pc) == ScanLeaving(b, pc);
    }
  }

  lemma {:induction false} FusedScans(b: Body, pc: nat)
    requires FusedAt(b.bc, pc)
    ensures ScanAt(b, pc) == Ok(Collapse(pc + 1)) && EmitAt(b, pc) == Ok(Return(pc + 4, 1))
    ensures ScanAt(b, pc + 1) == Ok(Plain(pc + 2, 1, 1)) && ScanAt(b, pc + 2) == Ok(Plain(pc + 3, 2, -1))
    ensures ScanAt(b, pc + 3) == Ok(Stop(1))
  {
    ReturnSequence();
    assert !IsLocal(CALL_CLOSURE) && !IsBinary(CALL_CLOSURE) && !IsLocal(RESET_R_1) && !IsBinary(RESET_R_1);
    assert EmitAt(b, pc) == EmitTailCall(b.bc, pc);
    assert ScanAt(b, pc + 2) == Ok(ScanNoOperand(RESET_R_1, pc + 2));
    assert ScanAt(b, pc + 3) == ScanLeaving(b, pc + 3);
  }

  lemma {:induction false} FusedIsFusedAt(b: Body, pc: nat)
    requires pc < |b.bc| && Tabled(LoweredOf(b))
    ensures Fused(FlowOf(b), LoweredOf(b), pc) <==> FusedAt(b.bc, pc)
  {
    if Fused(FlowOf(b), LoweredOf(b), pc) {
      NoCollapse(b, pc);
      FusedBytes(b, pc);
    }
    if FusedAt(b.bc, pc) {
      FusedScans(b, pc);
    }
  }

  lemma {:induction false} BodyRegular(b: Body)
    ensures Regular(FlowOf(b), LoweredOf(b))
  {
    PassesMatch(b);
    BodyKeepsChain(b);
    var flow, lo := FlowOf(b), LoweredOf(b);
    forall pc | 0 <= pc < lo.len ensures StepsAlike(flow, lo, pc) && (Fused(flow, lo, pc) ==> Skipping(flow, lo, pc)) {
      FusedIsFusedAt(b, pc);
      if FusedAt(b.bc, pc) {
        FusedScans(b, pc);
      } else if lo.at[pc].Ok? {
        LengthsAgree(b, pc);
        if b.bc[pc] == CALL_CLOSURE && EmitAt(b, pc).value.Return? {
          FusedBytes(b, pc);
        }
      }
    }
  }

  /** The walk finished on the tables of `b`, from what pass 1 accepted. */
  ghost predicate Emits(b: Body, reached: Reached, targets: map<nat, nat>, start: nat, args: nat, log: seq<Emitted>) {
    && Regular(FlowOf(b), LoweredOf(b))
    && Typing(FlowOf(b), reached, targets, start, args) && Evident(FlowOf(b), reached, targets, start, args)
    && Finished(FlowOf(b), LoweredOf(b), reached, targets, start, log)
    && Visits(LoweredOf(b), targets, start, false) == Some(Offsets(log))
  }

  /** A target in the return sequence of a reached fused call is covered by it. */
  lemma {:induction false} FusedCovers(b: Body, reached: Reached, targets: map<nat, nat>, start: nat, args: nat,
                                       log: seq<Emitted>, p: nat, t: nat)
    requires Emits(b, reached, targets, start, args, log) && AllOnChain(LoweredOf(b), targets, start)
    requires FusedAt(b.bc, p) && p < t < p + 4 && DepthAt(reached, targets, p).Some?
    ensures Swallowed(LoweredOf(b), Offsets(log), t)
  {
    var flow, lo, v := FlowOf(b), LoweredOf(b), Offsets(log);
    FusedIsFusedAt(b, p);
    ReachedCallWalked(flow, lo, reached, targets, start, args, p);
    var i :| 0 <= i < |v| && v[i] == p;
    assert Skipping(flow, lo, p);
    assert Spans(lo, v[i], t);
  }

  lemma {:induction false} CoveredByFused(b: Body, reached: Reached, targets: map<nat, nat>, start: nat, args: nat,
                                          log: seq<Emitted>, t: nat)
    requires Emits(b, reached, targets, start, args, log) && OnChain(LoweredOf(b), start, t)
    requires Swallowed(LoweredOf(b), Offsets(log), t)
    ensures InFusedCall(b.bc, reached, targets, t)
  {
    var flow, lo := FlowOf(b), LoweredOf(b);
    var i :| 0 <= i < |log| && Spans(lo, Offsets(log)[i], t);
    var p := log[i].pc;
    CoversAsFused(flow, lo, targets, start, i, t);
    FusedIsFusedAt(b, p);
    assert EntryOk(flow, lo, reached, targets, log, i);
    assert FusedAt(b.bc, p) && p < t < p + 4 && DepthAt(reached, targets, p).Some?;
  }

  lemma {:induction false} FilledUnlessCovered(b: Body, reached: Reached, targets: map<nat, nat>, start: nat, args: nat,
                                               log: seq<Emitted>, t: nat)
    requires Emits(b, reached, targets, start, args, log) && t in targets
    ensures IsEmitted(log, t) <==> OnChain(LoweredOf(b), start, t) && !Swallowed(LoweredOf(b), Offsets(log), t)
  {
    EmittedOffsets(log, t);
    BlockFilled(LoweredOf(b), targets, start, false, t);
  }

  /** In the code emitted for a body whose branch targets all lie on the chain of opcodes
      from the entry, the block of a target is filled if and only if the target is not in
      the return sequence of a fused call that pass 1 reaches. */
  lemma {:induction false} TargetsFilled(b: Body, reached: Reached, targets: map<nat, nat>, start: nat, args: nat,
                                         log: seq<Emitted>, t: nat)
    requires Emits(b, reached, targets, start, args, log)
    requires AllOnChain(LoweredOf(b), targets, start) && t in targets
    ensures IsEmitted(log, t) <==> !InFusedCall(b.bc, reached, targets, t)
  {
    FilledUnlessCovered(b, reached, targets, start, args, log, t);
    if InFusedCall(b.bc, reached, targets, t) {
      var p: nat :| FusedAt(b.bc, p) && p < t < p + 4 && DepthAt(reached, targets, p).Some?;
      FusedCovers(b, reached, targets, start, args, log, p, t);
    } else if Swallowed(LoweredOf(b), Offsets(log), t) {
      CoveredByFused(b, reached, targets, start, args, log, t);
    }
  }

  /** Every block is filled if and only if every branch target lies on the chain and none
      lies in the return sequence of a fused call that pass 1 reaches. */
  lemma {:induction false} AllFilled(b: Body, reached: Reached, targets: map<nat, nat>, start: nat, args: nat, log: seq<Emitted>)
    requires Emits(b, reached, targets, start, args, log)
    ensures (forall t :: t in targets ==> IsEmitted(log, t)) <==>
      AllOnChain(LoweredOf(b), targets, start) && forall t :: t in targets ==> !InFusedCall(b.bc, reached, targets, t)
  {
    forall t | t in targets && IsEmitted(log, t) ensures OnChain(LoweredOf(b), start, t) {
      FilledUnlessCovered(b, reached, targets, start, args, log, t);
    }
    if AllOnChain(LoweredOf(b), targets, start) {
      forall t | t in targets ensures IsEmitted(log, t) <==> !InFusedCall(b.bc, reached, targets, t) {
        TargetsFilled(b, reached, targets, start, args, log, t);
      }
    }
  }

  /** Then everything that can run, up to the first fused call, has been emitted at the
      depth at which it runs. */
  lemma {:induction false} EverythingEmitted(b: Body, reached: Reached, targets: map<nat, nat>, start: nat, args: nat,
                                             log: seq<Emitted>, run: seq<Config>, i: nat)
    requires Emits(b, reached, targets, start, args, log)
    requires AllOnChain(LoweredOf(b), targets, start) && forall t :: t in targets ==> !InFusedCall(b.bc, reached, targets, t)
    requires IsRun(FlowOf(b), targets, start, args, run) && i < |run|
    requires forall j :: 0 <= j < i ==> !FusedAt(b.bc, run[j].pc)
    ensures exists k :: 0 <= k < |log| && log[k].pc == run[i].pc && log[k].depth == run[i].depth
  {
    AllFilled(b, reached, targets, start, args, log);
    forall j | 0 <= j < i ensures run[j].pc < |b.bc| && !Fused(FlowOf(b), LoweredOf(b), run[j].pc) {
      RunsNeverUnderflow(FlowOf(b), reached, targets, start, args, run, j);
      FusedIsFusedAt(b, run[j].pc);
    }
    RunsAreEmitted(FlowOf(b), LoweredOf(b), reached, targets, start, args, log, run, i);
  }
}
