/** Pass 2 of the per-function translator: one walk over the bytecode with a stack of
    values.  Whatever pass 1 recorded, pass 2 finds: at every opcode it emits, its stack is
    as deep as recorded, and every jump passes as many values as its block takes. */
module Emission {
  import opened Basics
  import opened Words
  import opened Opcodes
  import opened Stacking
  import opened DepthScan

  /** What the walk needs of each offset: the lowering, and the length for stepping over
      code that is not emitted. */
  datatype Lowered = Lowered(len: nat, at: map<nat, Result<Emit, Fault>>, skip: map<nat, Result<nat, Fault>>)

  /** A jump to a block, and how many values it passes. */
  datatype Pass = Pass(target: nat, values: nat)

  /** An emitted opcode: the depth of the stack there, and the jumps emitted with it. */
  datatype Emitted = Emitted(pc: nat, depth: nat, passes: seq<Pass>)

  predicate Tabled(lo: Lowered) {
    && (forall pc :: 0 <= pc < lo.len ==> pc in lo.at && pc in lo.skip)
    && (forall pc :: 0 <= pc < lo.len && lo.skip[pc].Ok? ==> lo.skip[pc].value > 0)
    && (forall pc :: 0 <= pc < lo.len && lo.at[pc].Ok? ==> lo.at[pc].value.next > pc)
  }

  /** The two passes read the same bytecode, and their tables agree. */
  predicate SamePasses(flow: Flow, lo: Lowered)
    requires Complete(flow) && Tabled(lo)
  {
    && flow.len == lo.len
    && forall pc :: 0 <= pc < lo.len && lo.at[pc].Ok? ==> flow.at[pc].Ok? && Agree(flow.at[pc].value, lo.at[pc].value)
  }

  /** A jump finds its block, and passes as many values as the block has parameters. */
  predicate PassOk(targets: map<nat, nat>, p: Pass) {
    p.target in targets && p.values == targets[p.target]
  }

  function PassesTo(ts: seq<nat>, n: nat): seq<Pass> {
    seq(|ts|, i requires 0 <= i < |ts| => Pass(ts[i], n))
  }

  /** The jumps that the control flow of pass 1 asks for. */
  function JumpsOf(flow: Flow, pc: nat, depth: nat): seq<Pass>
    requires Complete(flow) && pc < flow.len && Edges(flow, pc, depth).Ok?
  {
    var s := flow.at[pc].value;
    if s.Branches? then PassesTo(s.targets.value, depth - s.pops) else []
  }

  /** The jump into the block that starts at `pc`, when code falls into it. */
  function Entering(targets: map<nat, nat>, falls: bool, pc: nat): seq<Pass> {
    if falls && pc in targets then [Pass(pc, targets[pc])] else []
  }

  /** The opcode was emitted at the recorded depth, with the jumps that pass 1 found, each
      passing what its block takes. */
  predicate EmittedOk(flow: Flow, reached: Reached, targets: map<nat, nat>, e: Emitted, falls: bool)
    requires Complete(flow)
  {
    && e.pc < flow.len && DepthAt(reached, targets, e.pc) == Some(e.depth) && Edges(flow, e.pc, e.depth).Ok?
    && e.passes == Entering(targets, falls, e.pc) + JumpsOf(flow, e.pc, e.depth)
    && forall k :: 0 <= k < |e.passes| ==> PassOk(targets, e.passes[k])
  }

  /** The lowering at `pc` leaves the block unfinished, to go on at the next opcode. */
  predicate GoesOn(lo: Lowered, pc: nat)
    requires Tabled(lo) && pc < lo.len
  {
    lo.at[pc].Ok? && (lo.at[pc].value.Shuffle? || lo.at[pc].value.TailCall?)
  }

  predicate LogOk(flow: Flow, lo: Lowered, reached: Reached, targets: map<nat, nat>, start: nat, log: seq<Emitted>)
    requires Complete(flow) && Tabled(lo) && flow.len == lo.len
  {
    && (|log| > 0 ==> log[0].pc == start)
    && (forall k :: 0 <= k < |log| ==> log[k].pc < flow.len && lo.at[log[k].pc].Ok?)
    && forall k :: 0 <= k < |log| ==> EntryOk(flow, lo, reached, targets, log, k)
  }

  predicate EntryOk(flow: Flow, lo: Lowered, reached: Reached, targets: map<nat, nat>, log: seq<Emitted>, k: nat)
    requires Complete(flow) && Tabled(lo) && flow.len == lo.len
    requires k < |log| && forall i :: 0 <= i < |log| ==> log[i].pc < flow.len && lo.at[log[i].pc].Ok?
  {
    && EmittedOk(flow, reached, targets, log[k], k == 0 || GoesOn(lo, log[k - 1].pc))
    && (k > 0 && GoesOn(lo, log[k - 1].pc) ==> log[k].pc == lo.at[log[k - 1].pc].value.next)
  }

  /** A finished log: no block is left unfinished at the end of the code. */
  predicate Finished(flow: Flow, lo: Lowered, reached: Reached, targets: map<nat, nat>, start: nat, log: seq<Emitted>)
    requires Complete(flow) && Tabled(lo) && flow.len == lo.len
  {
    LogOk(flow, lo, reached, targets, start, log) && |log| > 0 && !GoesOn(lo, log[|log| - 1].pc)
  }

  /** The offsets that the walk from `pc` emits, in order: an opcode is emitted in an
      unfinished block or where a block starts, and stepped over otherwise.  None where the
      walk gets no further. */
  function Visits(lo: Lowered, targets: map<nat, nat>, pc: nat, returned: bool): Option<seq<nat>>
    requires Tabled(lo)
    decreases lo.len - pc
  {
    if pc >= lo.len then Some([])
    else if returned && pc !in targets then
      if lo.skip[pc].Err? then None else Visits(lo, targets, pc + lo.skip[pc].value, true)
    else if lo.at[pc].Err? then None
    else
      var rest :- Visits(lo, targets, lo.at[pc].value.next, !GoesOn(lo, pc));
      Some([pc] + rest)
  }

  function Offsets(log: seq<Emitted>): seq<nat> { seq(|log|, i requires 0 <= i < |log| => log[i].pc) }

  function After(done: seq<nat>, rest: Option<seq<nat>>): Option<seq<nat>> {
    var r :- rest;
    Some(done + r)
  }

  lemma AfterNone(rest: Option<seq<nat>>)
    ensures After(Offsets([]), rest) == rest
  {
    assert Offsets([]) == [];
    if rest.Some? { assert [] + rest.value == rest.value; }
  }

  lemma AfterOne(log: seq<Emitted>, e: Emitted, rest: Option<seq<nat>>)
    ensures After(Offsets(log), After([e.pc], rest)) == After(Offsets(log + [e]), rest)
  {
    assert Offsets(log + [e]) == Offsets(log) + [e.pc];
    if rest.Some? { assert Offsets(log) + ([e.pc] + rest.value) == Offsets(log) + [e.pc] + rest.value; }
  }

  lemma AfterAll(log: seq<Emitted>)
    ensures After(Offsets(log), Some([])) == Some(Offsets(log))
  {
    assert Offsets(log) + [] == Offsets(log);
  }

  /** Where the walk stands: in an unfinished block the stack is as deep as pass 1 says an
      opcode here, or code falling in here, must be. */
  predicate Standing(flow: Flow, reached: Reached, targets: map<nat, nat>, returned: bool, pc: nat, depth: nat) {
    !returned ==> EdgeOk(flow, reached, targets, Edge(pc, depth, false))
  }

  /** What justifies a refusal in pass 2: an opcode it cannot lower, or asks more values
      for than pass 1 did, at an offset that pass 1 reached; or dead code that it cannot
      step over. */
  predicate Unemittable(flow: Flow, lo: Lowered, reached: Reached, targets: map<nat, nat>, pc: nat, fault: Fault)
  {
    && Complete(flow) && Tabled(lo) && flow.len == lo.len && pc < flow.len
    && (lo.skip[pc] == Err(fault) || Unlowered(flow, lo, reached, targets, pc, fault))
  }

  /** At an offset that pass 1 reached, pass 2 has no lowering, or wants more values. */
  predicate Unlowered(flow: Flow, lo: Lowered, reached: Reached, targets: map<nat, nat>, pc: nat, fault: Fault)
    requires Tabled(lo) && pc < lo.len
  {
    || (DepthAt(reached, targets, pc).Some? && lo.at[pc] == Err(fault))
    || (fault == Underflow && AsksMore(flow, lo, reached, targets, pc))
  }

  /** At an offset that pass 1 reached, pass 2 asks for more values than pass 1 did. */
  predicate AsksMore(flow: Flow, lo: Lowered, reached: Reached, targets: map<nat, nat>, pc: nat) {
    && Complete(flow) && Tabled(lo) && flow.len == lo.len && pc < flow.len && DepthAt(reached, targets, pc).Some?
    && flow.at[pc].Ok? && lo.at[pc].Ok? && Stricter(flow.at[pc].value, lo.at[pc].value)
  }

  datatype Step = Step(depth: nat, returned: bool, next: nat, passes: seq<Pass>)

  /** Emits the opcode at `pc` on a stack of `depth` values. */
  method EmitOne(flow: Flow, lo: Lowered, ghost reached: Reached, targets: map<nat, nat>, ghost start: nat, ghost args: nat,
                 pc: nat, depth: nat)
    returns (r: Result<Step, Fault>)
    requires Complete(flow) && Tabled(lo) && SamePasses(flow, lo) && Typing(flow, reached, targets, start, args)
    requires pc < flow.len && DepthAt(reached, targets, pc) == Some(depth)
    ensures r.Ok? ==> lo.at[pc].Ok? && r.value.next == lo.at[pc].value.next && r.value.returned == !GoesOn(lo, pc)
    ensures r.Ok? ==> Edges(flow, pc, depth).Ok? && r.value.passes == JumpsOf(flow, pc, depth)
    ensures r.Ok? ==> forall k :: 0 <= k < |r.value.passes| ==> PassOk(targets, r.value.passes[k])
    ensures r.Ok? ==> Standing(flow, reached, targets, r.value.returned, r.value.next, r.value.depth)
    ensures r.Err? ==> Unlowered(flow, lo, reached, targets, pc, r.error)
  {
    var e :- lo.at[pc];
    assert Settled(flow, reached, targets, pc);
    ghost var es := Edges(flow, pc, depth).value;
    match e {
      case Shuffle(next, least, pops, pushes) =>
        if depth < least {
          return Err(Underflow);
        }
        assert EdgeOk(flow, reached, targets, es[0]);
        return Ok(Step(depth - pops + pushes, false, next, []));
      case TailCall(next) =>
        if depth == 0 {
          return Err(Underflow);
        }
        assert EdgeOk(flow, reached, targets, es[0]);
        return Ok(Step(1, false, next, []));
      case Jump(next, least, pops, targetsOf) =>
        if depth < least {
          return Err(Underflow);
        }
        // A jump table that is cut short has stopped pass 1 already.
        var passes := PassesTo(targetsOf.value, depth - pops);
        forall k | 0 <= k < |passes| ensures PassOk(targets, passes[k]) {
          assert EdgeOk(flow, reached, targets, es[k]);
        }
        return Ok(Step(depth - pops, true, next, passes));
      case Return(next, least) =>
        if depth < least {
          return Err(Underflow);
        }
        return Ok(Step(depth - 1, true, next, []));
    }
  }

  /** The emission walk.  Every opcode is emitted at its recorded depth and with its jumps;
      an unfinished block goes on at the next opcode; a stack is never shorter than the
      block it falls into expects; the walk does not run off the end of the code.  The
      walk fails only where pass 2 knows less than pass 1, never for want of values that
      pass 1 had seen. */
  method EmitFunction(flow: Flow, lo: Lowered, ghost reached: Reached, targets: map<nat, nat>, start: nat, args: nat)
    returns (r: Result<seq<Emitted>, Fault>, ghost at: nat)
    requires Complete(flow) && Tabled(lo) && SamePasses(flow, lo) && Typing(flow, reached, targets, start, args)
    ensures r.Ok? ==> Finished(flow, lo, reached, targets, start, r.value)
    ensures r.Ok? ==> Visits(lo, targets, start, false) == Some(Offsets(r.value))
    ensures r.Err? ==> Unemittable(flow, lo, reached, targets, at, r.error)
    ensures r.Err? && Visits(lo, targets, start, false).Some? ==> AsksMore(flow, lo, reached, targets, at)
  {
    var log: seq<Emitted>, depth, pc, returned := [], args, start, false;
    ghost var spec := Visits(lo, targets, start, false);
    AfterNone(spec);
    while pc < flow.len
      invariant Walking(flow, lo, reached, targets, start, spec, log, depth, pc, returned)
      decreases flow.len - pc
    {
      ghost var falls, before := !returned, depth;
      var entering: seq<Pass> := [];
      if pc in targets {
        if !returned {
          // Values the block has no parameter for are dropped; there are never too few.
          assert depth >= targets[pc];
          entering := [Pass(pc, targets[pc])];
        }
        depth := targets[pc];
        returned := false;
      }
      if returned {
        var n := lo.skip[pc];
        if n.Err? {
          return Err(n.error), pc;
        }
        WalkSkips(flow, lo, reached, targets, start, spec, log, depth, pc);
        pc := pc + n.value;
        continue;
      }
      assert DepthAt(reached, targets, pc) == Some(depth);
      var step := EmitOne(flow, lo, reached, targets, start, args, pc, depth);
      if step.Err? {
        WalkStops(flow, lo, reached, targets, start, spec, log, before, pc, !falls);
        return Err(step.error), pc;
      }
      assert entering == Entering(targets, falls, pc);
      var e := Emitted(pc, depth, entering + step.value.passes);
      WalkEmits(flow, lo, reached, targets, start, spec, log, before, pc, !falls, e, step.value.depth);
      log := log + [e];
      depth, returned, pc := step.value.depth, step.value.returned, step.value.next;
    }
    assert returned;
    AfterAll(log);
    return Ok(log), pc;
  }

  /** What the emission walk keeps: the offsets emitted so far and those still to come are
      the ones it is to visit, and what it has emitted so far is as it should be. */
  ghost predicate Walking(flow: Flow, lo: Lowered, reached: Reached, targets: map<nat, nat>, start: nat, spec: Option<seq<nat>>,
                          log: seq<Emitted>, depth: nat, pc: nat, returned: bool)
    requires Complete(flow) && Tabled(lo) && flow.len == lo.len
  {
    && spec == After(Offsets(log), Visits(lo, targets, pc, returned))
    && LogOk(flow, lo, reached, targets, start, log)
    && (if log == [] then pc == start && !returned
        else returned == !GoesOn(lo, log[|log| - 1].pc) && (!returned ==> pc == lo.at[log[|log| - 1].pc].value.next))
    && Standing(flow, reached, targets, returned, pc, depth)
  }

  lemma WalkSkips(flow: Flow, lo: Lowered, reached: Reached, targets: map<nat, nat>, start: nat, spec: Option<seq<nat>>,
                  log: seq<Emitted>, depth: nat, pc: nat)
    requires Complete(flow) && Tabled(lo) && flow.len == lo.len && pc < lo.len && pc !in targets && lo.skip[pc].Ok?
    requires Walking(flow, lo, reached, targets, start, spec, log, depth, pc, true)
    ensures Walking(flow, lo, reached, targets, start, spec, log, depth, pc + lo.skip[pc].value, true)
  {
  }

  /** Nothing more is to be visited where the opcode has no lowering. */
  lemma WalkStops(flow: Flow, lo: Lowered, reached: Reached, targets: map<nat, nat>, start: nat, spec: Option<seq<nat>>,
                  log: seq<Emitted>, depth: nat, pc: nat, returned: bool)
    requires Complete(flow) && Tabled(lo) && flow.len == lo.len && pc < lo.len && (returned ==> pc in targets)
    requires Walking(flow, lo, reached, targets, start, spec, log, depth, pc, returned)
    ensures lo.at[pc].Err? ==> spec.None?
  {
  }

  lemma WalkEmits(flow: Flow, lo: Lowered, reached: Reached, targets: map<nat, nat>, start: nat, spec: Option<seq<nat>>,
                  log: seq<Emitted>, depth: nat, pc: nat, returned: bool, e: Emitted, left: nat)
    requires Complete(flow) && Tabled(lo) && flow.len == lo.len && pc < lo.len && (returned ==> pc in targets)
    requires Walking(flow, lo, reached, targets, start, spec, log, depth, pc, returned)
    requires e.pc == pc && lo.at[pc].Ok? && EmittedOk(flow, reached, targets, e, !returned)
    requires Standing(flow, reached, targets, !GoesOn(lo, pc), lo.at[pc].value.next, left)
    ensures Walking(flow, lo, reached, targets, start, spec, log + [e], left, lo.at[pc].value.next, !GoesOn(lo, pc))
  {
    LogGrows(flow, lo, reached, targets, start, log, e, !returned);
    AfterOne(log, e, Visits(lo, targets, lo.at[pc].value.next, !GoesOn(lo, pc)));
  }

  lemma LogGrows(flow: Flow, lo: Lowered, reached: Reached, targets: map<nat, nat>, start: nat, log: seq<Emitted>, e: Emitted,
                 falls: bool)
    requires Complete(flow) && Tabled(lo) && flow.len == lo.len && LogOk(flow, lo, reached, targets, start, log)
    requires e.pc < flow.len && lo.at[e.pc].Ok? && EmittedOk(flow, reached, targets, e, falls)
    requires if log == [] then e.pc == start && falls
      else falls == GoesOn(lo, log[|log| - 1].pc) && (falls ==> e.pc == lo.at[log[|log| - 1].pc].value.next)
    ensures LogOk(flow, lo, reached, targets, start, log + [e])
  {
    var longer := log + [e];
    forall k | 0 <= k < |longer| ensures EntryOk(flow, lo, reached, targets, longer, k) {
      if k < |log| {
        assert EntryOk(flow, lo, reached, targets, log, k);
      }
    }
  }

  // ----- everything that can run is emitted ---------------------------------------------------

  /** A call emitted together with the return sequence after it, which is then skipped. */
  predicate Fused(flow: Flow, lo: Lowered, pc: nat)
    requires Complete(flow) && Tabled(lo) && flow.len == lo.len && pc < lo.len
  {
    lo.at[pc].Ok? && lo.at[pc].value.Return? && flow.at[pc].Ok? && flow.at[pc].value.Collapse?
  }

  ghost predicate IsEmitted(log: seq<Emitted>, pc: nat) {
    exists k :: 0 <= k < |log| && log[k].pc == pc
  }

  /** If the walk has come past every branch target, then whatever can run has been
      emitted, at the depth at which it runs; but for the opcodes that a fused call
      skips. */
  lemma RunsAreEmitted(flow: Flow, lo: Lowered, reached: Reached, targets: map<nat, nat>, start: nat, args: nat,
                       log: seq<Emitted>, run: seq<Config>, i: nat)
    requires Complete(flow) && Tabled(lo) && SamePasses(flow, lo) && Typing(flow, reached, targets, start, args)
    requires Finished(flow, lo, reached, targets, start, log)
    requires forall t :: t in targets ==> IsEmitted(log, t)
    requires IsRun(flow, targets, start, args, run) && i < |run|
    requires forall j :: 0 <= j < i ==> run[j].pc < lo.len && !Fused(flow, lo, run[j].pc)
    ensures exists k :: 0 <= k < |log| && log[k].pc == run[i].pc && log[k].depth == run[i].depth
  {
    RunsNeverUnderflow(flow, reached, targets, start, args, run, i);
    var at: nat;
    if run[i].pc in targets {
      assert IsEmitted(log, run[i].pc);
      at :| at < |log| && log[at].pc == run[i].pc;
    } else if i == 0 {
      at := 0;
    } else {
      RunsAreEmitted(flow, lo, reached, targets, start, args, log, run, i - 1);
      var k :| 0 <= k < |log| && log[k].pc == run[i - 1].pc;
      assert StepsTo(flow, targets, run[i - 1], run[i]);
      RunsNeverUnderflow(flow, reached, targets, start, args, run, i - 1);
      FallsOnward(flow, lo, targets, run[i - 1], run[i]);
      at := k + 1;
    }
    assert EntryOk(flow, lo, reached, targets, log, at);
  }

  /** Outside the branch targets, control comes from the opcode before. */
  lemma FallsOnward(flow: Flow, lo: Lowered, targets: map<nat, nat>, c: Config, c': Config)
    requires Complete(flow) && Tabled(lo) && SamePasses(flow, lo) && StepsTo(flow, targets, c, c')
    requires lo.at[c.pc].Ok? && !Fused(flow, lo, c.pc) && c'.pc !in targets
    requires forall e :: e in Edges(flow, c.pc, c.depth).value && e.isTarget ==> e.pc in targets
    ensures GoesOn(lo, c.pc) && c'.pc == lo.at[c.pc].value.next
  {
    var e :| e in Edges(flow, c.pc, c.depth).value && c' == Enter(targets, e.pc, e.depth);
    assert Agree(flow.at[c.pc].value, lo.at[c.pc].value);
  }

  // ----- the tables of the translator ----------------------------------------------------------

  function LoweredOf(b: Body): (lo: Lowered)
    ensures lo.len == |b.bc|
  {
    Lowered(|b.bc|,
      map pc: nat | 0 <= pc < |b.bc| :: EmitAt(b, pc),
      map pc: nat | 0 <= pc < |b.bc| :: TotalLen(b.bc, pc))
  }

  /** The two passes of the translator over one body agree, opcode by opcode. */
  lemma PassesMatch(b: Body)
    ensures Tabled(LoweredOf(b)) && SamePasses(FlowOf(b), LoweredOf(b))
  {
    var lo := LoweredOf(b);
    forall pc | 0 <= pc < lo.len && lo.at[pc].Ok?
      ensures FlowOf(b).at[pc].Ok? && Agree(FlowOf(b).at[pc].value, lo.at[pc].value)
      ensures lo.at[pc].value.next > pc
    {
      PassesAgree(b, pc);
      EmitAdvances(b, pc);
    }
  }
}
