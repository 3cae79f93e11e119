/** The converse of the simulation: where the compiled call ends, the interpreter's does not
    run for ever. */
module Divergence {
  import opened Basics
  import opened Words
  import opened Machine
  import opened Instr
  import opened Interp
  import opened RetPc
  import opened Trampoline
  import opened Compile
  import opened Simulation
  import opened RegionTheorem
  import R = Region

  // ----- more fuel, more steps -------------------------------------------------------------

  /** With more fuel the trampoline ends as it did. */
  ghost predicate Steady(env: R.Env) {
    forall m, sp, closure, k: nat, fuel: nat {:trigger env.interp(m, sp, closure, k), env.interp(m, sp, closure, fuel)} ::
      k <= fuel && !env.interp(m, sp, closure, k).OutOfFuel? ==> env.interp(m, sp, closure, fuel) == env.interp(m, sp, closure, k)
  }

  lemma {:induction false} MoreFuel(env: R.Env, f: Word, code: seq<R.Piece>, m: R.Mem, sp: int, k: nat, fuel: nat)
    requires Steady(env) && k <= fuel && !R.Run(env, f, code, m, sp, k).OutOfFuel?
    ensures R.Run(env, f, code, m, sp, fuel) == R.Run(env, f, code, m, sp, k)
    decreases k, |code|, 1
  {
    if code != [] && f in env.cs && env.admits(code[0], m, sp) {
      match code[0] {
        case Straight(ins) =>
          var low := env.lower(ins, m, sp);
          if low.Some? && low.value.Cont? {
            MoreFuel(env, f, code[1..], low.value.m, low.value.sp, k, fuel);
          }
        case CallNative(callee, closure) =>
          if R.EnterFrame(m, sp, closure).Some? && k > 0 {
            MoreFuelNative(env, f, code, m, sp, k, fuel);
          }
        case CallDynamic(popTop, depth) =>
          var closure := R.LoadAt(m, if popTop then sp else sp + depth);
          if closure.Some? {
            var at := if popTop then sp + 1 else sp;
            var r := env.interp(m, at, closure.value, k);
            assert env.interp(m, at, closure.value, fuel) == r;
            if r.Returned? && !r.raised {
              MoreFuel(env, f, code[1..], r.m, r.newSp, k, fuel);
            }
          }
        case Goto(t) =>
          if k > 0 { MoreFuel(env, f, R.BlockAt(env.cs[f], t), m, sp, k - 1, fuel - 1); }
        case PollGoto(t) =>
          if k > 0 && env.poll(m, sp).Some? {
            MoreFuel(env, f, R.BlockAt(env.cs[f], t), env.poll(m, sp).value, sp, k - 1, fuel - 1);
          }
        case Branch(cond, taken, fall) =>
          if k > 0 && env.test(cond, m, sp).Some? {
            var b := env.test(cond, m, sp).value;
            MoreFuel(env, f, R.BlockAt(env.cs[f], if b.Taken? then taken else fall), m, b.sp, k - 1, fuel - 1);
          }
        case Ret(n) =>
      }
    }
  }

  lemma {:induction false} MoreFuelNative(env: R.Env, f: Word, code: seq<R.Piece>, m: R.Mem, sp: int, k: nat, fuel: nat)
    requires Steady(env) && 0 < k <= fuel && !R.Run(env, f, code, m, sp, k).OutOfFuel?
    requires code != [] && code[0].CallNative? && f in env.cs && env.admits(code[0], m, sp)
    requires R.EnterFrame(m, sp, code[0].closure).Some?
    ensures R.Run(env, f, code, m, sp, fuel) == R.Run(env, f, code, m, sp, k)
    decreases k, |code|, 0
  {
    var callee, m1 := code[0].callee, R.EnterFrame(m, sp, code[0].closure).value;
    var r := R.Call(env, callee, m1, sp - 2, k - 1);
    if callee in env.cs {
      MoreFuel(env, callee, env.cs[callee].entry, m1, sp - 2, k - 1, fuel - 1);
    }
    assert R.Call(env, callee, m1, sp - 2, fuel - 1) == r;
    if r.Returned? && !r.raised {
      MoreFuel(env, f, code[1..], r.m, r.newSp, k, fuel);
    }
  }

  /** What a run that has ended becomes with `more` steps allowed. */
  function Later(r: Interp.Run, more: nat): Interp.Run {
    if r.Done? then Done(r.s, r.left + more) else r
  }

  lemma {:induction false} MoreSteps(step: Stepper, s: State, base: nat, n: nat, more: nat)
    requires !RunFrom(step, s, base, n).OutOfSteps?
    ensures RunFrom(step, s, base, n + more) == Later(RunFrom(step, s, base, n), more)
    decreases n
  {
    if |s.frames| >= base && step(s).Some? && step(s).value.Continue? {
      MoreSteps(step, step(s).value.s, base, n - 1, more);
    }
  }

  // ----- runs that end ------------------------------------------------------------------------

  ghost predicate Halts(step: Stepper, s: State, base: nat) {
    exists n: nat :: !RunFrom(step, s, base, n).OutOfSteps?
  }

  lemma {:induction false} HaltsBy(step: Stepper, s: State, base: nat, n: nat)
    requires !RunFrom(step, s, base, n).OutOfSteps?
    ensures Halts(step, s, base)
  {
  }

  /** One step at a time. */
  lemma {:induction false} HaltsNext(step: Stepper, s: State, base: nat)
    requires step(s).Some? && step(s).value.Continue? ==> Halts(step, step(s).value.s, base)
    ensures Halts(step, s, base)
  {
    if step(s).Some? && step(s).value.Continue? && |s.frames| >= base {
      var n: nat :| !RunFrom(step, step(s).value.s, base, n).OutOfSteps?;
      HaltsBy(step, s, base, n + 1);
    } else {
      HaltsBy(step, s, base, 1);
    }
  }

  /** A callee that halts, and what follows it. */
  lemma {:induction false} HaltsAfter(step: Stepper, s': State, low: nat, n: nat)
    requires KeepsFrames(step) && FramesOk(s') && 1 <= low < |s'.frames|
    requires !RunFrom(step, s', |s'.frames|, n).OutOfSteps?
    requires RunFrom(step, s', |s'.frames|, n).Done? ==> Halts(step, RunFrom(step, s', |s'.frames|, n).s, low)
    ensures Halts(step, s', low)
  {
    var r := RunFrom(step, s', |s'.frames|, n);
    if r.Done? {
      var more: nat :| !RunFrom(step, r.s, low, more).OutOfSteps?;
      MoreSteps(step, s', |s'.frames|, n, more);
      RunSplits(step, s', low, |s'.frames|, n + more);
      MoreSteps(step, r.s, low, more, r.left);
      HaltsBy(step, s', low, n + more);
    } else {
      RunSplits(step, s', low, |s'.frames|, n);
      HaltsBy(step, s', low, n);
    }
  }

  // ----- the trampoline -----------------------------------------------------------------------

  /** Where the trampoline ends, the interpreter's own run of the callee does. */
  ghost predicate Reflects(p: Program, step: Stepper, env: R.Env) {
    forall s, m: R.Mem :: ReflectsAt(p, step, env, s, m)
  }

  ghost predicate ReflectsAt(p: Program, step: Stepper, env: R.Env, s: State, m: R.Mem) {
    Agree(s, m) && s.frames != [] && step(s).Some? && step(s).value.Continue? && Fetch(p, s).Some? ==>
      var ins := Fetch(p, s).value.ins;
      && (ins.CallClosure? ==> CalleeHalts(step, env, step(s).value.s, m, s.core.sp, s.core.sp + 1))
      && (ins.CallLocal? ==> CalleeHalts(step, env, step(s).value.s, m, s.core.sp + ins.k, s.core.sp))
  }

  ghost predicate CalleeHalts(step: Stepper, env: R.Env, s': State, m: R.Mem, at: nat, sp: nat) {
    at < |m.stack| ==>
      forall fuel: nat :: !env.interp(m, sp, m.stack[at], fuel).OutOfFuel? ==> !RunFrom(step, s', |s'.frames|, fuel).OutOfSteps?
  }

  // ----- the converse ---------------------------------------------------------------------------

  ghost predicate Faithful(p: Program, step: Stepper, env: R.Env) {
    && IsRegion(p, env.cs) && KeepsFrames(step) && AllSimulate(p, step, env)
    && Steady(env) && Reflects(p, step, env)
  }

  /** The state is in a function of the region, with the compiled code at hand. */
  ghost predicate Ready(p: Program, env: R.Env, s: State, m: R.Mem) {
    s.code in env.cs && Agree(s, m) && s.frames != [] && s.code in p.funcs && Decodes(p.funcs[s.code])
  }

  lemma {:induction false} EndReflects(p: Program, step: Stepper, env: R.Env, s: State, m: R.Mem, code: seq<R.Piece>, fuel: nat)
    requires Faithful(p, step, env) && Ready(p, env, s, m) && TailAt(p, s) == Ok(code) && CallsInside(env.cs, code)
    requires !R.Run(env, s.code, code, m, s.core.sp, fuel).OutOfFuel?
    ensures Halts(step, s, |s.frames|)
    decreases fuel, |code|, 2
  {
    if step(s).Some? && step(s).value.Continue? {
      FetchedAt(p, step, env, s, m);
      var f := Fetch(p, s).value;
      if f.ins.CallConst? {
        InnerCode(p, env.cs, s, f, code);
        NativeReflects(p, step, env, s, m, f, code, fuel);
      } else if IsCall(f.ins) {
        InnerCode(p, env.cs, s, f, code);
        DynamicReflects(p, step, env, s, m, f, f.ins.CallClosure?, if f.ins.CallLocal? then f.ins.k else 0, code, fuel);
      } else if f.ins.Return? {
        ReturnReflects(p, step, env, s, m, f);
      } else if EndsBlock(f.ins) {
        JumpReflects(p, step, env, s, m, f, code, fuel);
      } else {
        StraightReflects(p, step, env, s, m, f, code, fuel);
      }
    } else {
      HaltsNext(step, s, |s.frames|);
    }
  }

  lemma {:induction false} ReturnReflects(p: Program, step: Stepper, env: R.Env, s: State, m: R.Mem, f: Fetched)
    requires AllSimulate(p, step, env) && Ready(p, env, s, m) && step(s).Some?
    requires Fetch(p, s) == Some(f) && f.ins.Return?
    ensures Halts(step, s, |s.frames|)
  {
    assert SimulatesAt(p, step, env, s, m);
    assert RunFrom(step, s, |s.frames|, 1).Done?;
    HaltsBy(step, s, |s.frames|, 1);
  }

  lemma {:induction false} StraightReflects(p: Program, step: Stepper, env: R.Env, s: State, m: R.Mem, f: Fetched,
                                            code: seq<R.Piece>, fuel: nat)
    requires Faithful(p, step, env) && Ready(p, env, s, m) && TailAt(p, s) == Ok(code) && CallsInside(env.cs, code)
    requires !R.Run(env, s.code, code, m, s.core.sp, fuel).OutOfFuel?
    requires Fetch(p, s) == Some(f) && !EndsBlock(f.ins) && !IsCall(f.ins)
    requires step(s).Some? && step(s).value.Continue?
    ensures Halts(step, s, |s.frames|)
    decreases fuel, |code|, 0
  {
    assert SimulatesAt(p, step, env, s, m);
    InnerCode(p, env.cs, s, f, code);
    OnwardReflects(p, step, env, step(s).value.s, env.lower(f.ins, m, s.core.sp).value.m, code[1..], fuel);
    HaltsNext(step, s, |s.frames|);
  }

  lemma {:induction false} JumpReflects(p: Program, step: Stepper, env: R.Env, s: State, m: R.Mem, f: Fetched,
                                        code: seq<R.Piece>, fuel: nat)
    requires Faithful(p, step, env) && Ready(p, env, s, m) && TailAt(p, s) == Ok(code)
    requires !R.Run(env, s.code, code, m, s.core.sp, fuel).OutOfFuel?
    requires Fetch(p, s) == Some(f) && EndsBlock(f.ins) && !f.ins.Return? && step(s).Some?
    ensures Halts(step, s, |s.frames|)
    decreases fuel, |code|, 0
  {
    if fuel > 0 {
      JumpBegins(p, step, env, s, m, f, code, fuel);
      var s' := step(s).value.s;
      EndReflects(p, step, env, s', Polled(f.ins, m), env.cs[s.code].blocks[s'.pc], fuel - 1);
      HaltsNext(step, s, |s.frames|);
    } else {
      JumpNeedsFuel(p, step, env, s, m, f, code);
    }
  }

  lemma {:induction false} JumpNeedsFuel(p: Program, step: Stepper, env: R.Env, s: State, m: R.Mem, f: Fetched, code: seq<R.Piece>)
    requires AllSimulate(p, step, env) && Ready(p, env, s, m) && TailAt(p, s) == Ok(code)
    requires Fetch(p, s) == Some(f) && EndsBlock(f.ins) && !f.ins.Return? && step(s).Some?
    ensures R.Run(env, s.code, code, m, s.core.sp, 0).OutOfFuel?
  {
    assert SimulatesAt(p, step, env, s, m);
  }

  lemma {:induction false} OnwardReflects(p: Program, step: Stepper, env: R.Env, s: State, m: R.Mem, code: seq<R.Piece>, fuel: nat)
    requires Faithful(p, step, env) && Ready(p, env, s, m) && OnwardAt(p, s) == Ok(code) && CallsInside(env.cs, code)
    requires !R.Run(env, s.code, code, m, s.core.sp, fuel).OutOfFuel?
    ensures Halts(step, s, |s.frames|)
    decreases fuel, |code|, 3
  {
    assert FunctionOk(p, env.cs, s.code);
    if s.pc in BlockStarts(p.funcs[s.code]) {
      EndReflects(p, step, env, s, m, env.cs[s.code].blocks[s.pc], fuel - 1);
    } else {
      EndReflects(p, step, env, s, m, code, fuel);
    }
  }

  /** After a callee that halts in `n` steps and compiled ends with `e`. */
  lemma {:induction false} AfterReflects(p: Program, step: Stepper, env: R.Env, s: State, s': State, handlerSp: int, e: R.Exit,
                                         rest: seq<R.Piece>, next: nat, n: nat, fuel: nat)
    requires Faithful(p, step, env)
    requires s.code in env.cs && s.frames != [] && s.code in p.funcs && Decodes(p.funcs[s.code])
    requires OnwardAt(p, s.(pc := next)) == Ok(rest) && CallsInside(env.cs, rest)
    requires FramesOk(s') && |s'.frames| == |s.frames| + 1 && s'.frames[..|s.frames|] == s.frames
    requires s'.frames[|s.frames|].caller == s.code && s'.frames[|s.frames|].resume == next
    requires !RunFrom(step, s', |s'.frames|, n).OutOfSteps?
    requires Matches(handlerSp, |s.frames|, RunFrom(step, s', |s'.frames|, n), e)
    requires !AfterCall(env, s.code, rest, e, fuel).OutOfFuel?
    ensures Halts(step, s', |s.frames|)
    decreases fuel, |rest|, 4
  {
    var r := RunFrom(step, s', |s'.frames|, n);
    if r.Done? {
      RunEndsAtCaller(step, s', |s'.frames|, n);
      OnwardReflects(p, step, env, r.s, e.m, rest, fuel);
    }
    HaltsAfter(step, s', |s.frames|, n);
  }

  lemma {:induction false} NativeReflects(p: Program, step: Stepper, env: R.Env, s: State, m: R.Mem, f: Fetched,
                                          code: seq<R.Piece>, fuel: nat)
    requires Faithful(p, step, env) && Ready(p, env, s, m) && CallsInside(env.cs, code)
    requires Fetch(p, s) == Some(f) && f.ins.CallConst? && step(s).Some? && step(s).value.Continue?
    requires code != [] && Inner(p.codeOf, s.pc, f.ins) == Ok(code[0]) && OnwardAt(p, s.(pc := f.next)) == Ok(code[1..])
    requires !R.Run(env, s.code, code, m, s.core.sp, fuel).OutOfFuel?
    ensures Halts(step, s, |s.frames|)
    decreases fuel, |code|, 1
  {
    if fuel > 0 {
      NativeBegins(p, step, env, s, m, f, code, fuel);
      var s', callee := step(s).value.s, p.codeOf[f.ins.closure];
      var m1 := R.EnterFrame(m, s.core.sp, f.ins.closure).value;
      var e := R.Call(env, callee, m1, s.core.sp - 2, fuel - 1);
      EndReflects(p, step, env, s', m1, env.cs[callee].entry, fuel - 1);
      var n: nat :| !RunFrom(step, s', |s'.frames|, n).OutOfSteps?;
      CalleeMatches(p, step, env, s', m1, env.cs[callee].entry, n, fuel - 1);
      NativeBelow(step, s', m.ctx.handlerSp, e, n);
      AfterReflects(p, step, env, s, s', m.ctx.handlerSp, e, code[1..], f.next, n, fuel);
      HaltsNext(step, s, |s.frames|);
    } else {
      NeedsFuel(p, step, env, s, m, f, code);
    }
  }

  /** A native call takes fuel. */
  lemma {:induction false} NeedsFuel(p: Program, step: Stepper, env: R.Env, s: State, m: R.Mem, f: Fetched, code: seq<R.Piece>)
    requires AllSimulate(p, step, env) && Ready(p, env, s, m)
    requires Fetch(p, s) == Some(f) && f.ins.CallConst? && step(s).Some? && step(s).value.Continue?
    requires code != [] && Inner(p.codeOf, s.pc, f.ins) == Ok(code[0])
    ensures R.Run(env, s.code, code, m, s.core.sp, 0).OutOfFuel?
  {
    assert SimulatesAt(p, step, env, s, m);
  }

  /** The compiled callee with just enough fuel ends as it does with plenty. */
  lemma {:induction false} CalleeMatches(p: Program, step: Stepper, env: R.Env, s: State, m: R.Mem, code: seq<R.Piece>, n: nat, fuel: nat)
    requires Faithful(p, step, env) && Ready(p, env, s, m) && TailAt(p, s) == Ok(code) && CallsInside(env.cs, code)
    requires !R.Run(env, s.code, code, m, s.core.sp, fuel).OutOfFuel?
    ensures Matches(m.ctx.handlerSp, |s.frames|, RunFrom(step, s, |s.frames|, n), R.Run(env, s.code, code, m, s.core.sp, fuel))
  {
    var plenty := fuel + 2 * n;
    RunSimulates(p, step, env, s, m, code, n, plenty);
    MoreFuel(env, s.code, code, m, s.core.sp, fuel, plenty);
  }

  lemma {:induction false} DynamicReflects(p: Program, step: Stepper, env: R.Env, s: State, m: R.Mem, f: Fetched,
                                           popTop: bool, depth: nat, code: seq<R.Piece>, fuel: nat)
    requires Faithful(p, step, env) && Ready(p, env, s, m) && CallsInside(env.cs, code)
    requires Fetch(p, s) == Some(f) && f.ins == (if popTop then CallClosure else CallLocal(depth)) && (popTop ==> depth == 0)
    requires step(s).Some? && step(s).value.Continue?
    requires code != [] && Inner(p.codeOf, s.pc, f.ins) == Ok(code[0]) && OnwardAt(p, s.(pc := f.next)) == Ok(code[1..])
    requires !R.Run(env, s.code, code, m, s.core.sp, fuel).OutOfFuel?
    ensures Halts(step, s, |s.frames|)
    decreases fuel, |code|, 1
  {
    DynamicBegins(p, step, env, s, m, f, popTop, depth, code, fuel);
    var s' := step(s).value.s;
    var at, sp := if popTop then s.core.sp else s.core.sp + depth, if popTop then s.core.sp + 1 else s.core.sp;
    var e := AsCaller(env.interp(m, sp, m.stack[at], fuel));
    assert ReflectsAt(p, step, env, s, m);
    assert CalleeHalts(step, env, s', m, at, sp);
    InterpEndsAt(step, env, s', m, sp, m.stack[at], fuel, fuel);
    DynamicBelow(step, s', m.ctx.handlerSp, e, fuel);
    AfterReflects(p, step, env, s, s', m.ctx.handlerSp, e, code[1..], f.next, fuel, fuel);
    HaltsNext(step, s, |s.frames|);
  }

  // ----- the emitted code ---------------------------------------------------------------------------

  lemma EmittedSteady(p: Program, cs: map<Word, R.Compiled>, w: World, typed: bool)
    ensures Steady(R.Emitted(p, cs, w, typed))
  {
    forall m, sp, closure: Word, k: nat, fuel: nat | k <= fuel && !R.InterpCall(p, w, m, sp, closure, k).OutOfFuel?
      ensures R.InterpCall(p, w, m, sp, closure, fuel) == R.InterpCall(p, w, m, sp, closure, k)
    {
      TrampolineSteady(p, w, m, sp, closure, k, fuel);
    }
  }

  lemma {:induction false} TrampolineSteady(p: Program, w: World, m: R.Mem, sp: int, closure: Word, k: nat, fuel: nat)
    requires k <= fuel && !R.InterpCall(p, w, m, sp, closure, k).OutOfFuel?
    ensures R.InterpCall(p, w, m, sp, closure, fuel) == R.InterpCall(p, w, m, sp, closure, k)
  {
    if ReadWord(m.heap, closure, 0).Some? && sp >= 2 && R.EnterFrame(m, sp, closure).Some? {
      var m1 := R.EnterFrame(m, sp, closure).value;
      var t := State(ReadWord(m.heap, closure, 0).value, 0, Core(m1.stack, sp - 2, m1.heap, m1.allocs),
        [Frame(0, sp - 1, 0, false)]);
      LaterExit(m1, Stepping(Unchecked, p, w), t, k, fuel);
    }
  }

  lemma {:induction false} LaterExit(m1: R.Mem, step: Stepper, t: State, k: nat, fuel: nat)
    requires k <= fuel && !R.RunExit(m1, RunFrom(step, t, 1, k)).OutOfFuel?
    ensures R.RunExit(m1, RunFrom(step, t, 1, fuel)) == R.RunExit(m1, RunFrom(step, t, 1, k))
  {
    MoreSteps(step, t, 1, k, fuel - k);
  }

  /** Paired runs take the same number of steps. */
  lemma {:induction false} PairedSteps(step: Stepper, step': Stepper, s: State, t: State, k: nat, n: nat)
    requires Mimics(step, step', k) && Paired(s, t, k) && RunFrom(step, s, k, n).OutOfSteps?
    ensures RunFrom(step', t, 1, n).OutOfSteps?
    decreases n
  {
    if n > 0 {
      assert PairedStep(step(s).value, step'(t).value, k);
      var s', t' := step(s).value.s, step'(t).value.s;
      if Paired(s', t', k) {
        PairedSteps(step, step', s', t', k, n - 1);
      }
    }
  }

  lemma {:induction false} CalleeReflects(p: Program, cs: map<Word, R.Compiled>, w: World, s: State, m: R.Mem, closure: Word,
                                          next: nat, fuel: nat)
    requires Agree(s, m) && s.core.sp >= 2 && next < MODULUS
    requires DoCall(p, s, false, closure, next).Some? && DoCall(p, s, false, closure, next).value.Continue?
    requires !R.InterpCall(p, w, m, s.core.sp, closure, fuel).OutOfFuel?
    ensures var s' := DoCall(p, s, false, closure, next).value.s;
      !RunFrom(Stepping(Framed, p, w), s', |s'.frames|, fuel).OutOfSteps?
  {
    EnterSimulates(p, s, m, false, closure, next);
    var s' := DoCall(p, s, false, closure, next).value.s;
    var m1 := R.EnterFrame(m, s.core.sp, closure).value;
    var t := State(s'.code, 0, Core(m1.stack, s.core.sp - 2, m1.heap, m1.allocs), [Frame(0, s.core.sp - 1, 0, false)]);
    var k := |s'.frames|;
    assert s'.frames[..k] == s'.frames;
    assert Paired(s', t, k);
    UncheckedMimics(Framed, p, w, k);
    if RunFrom(Stepping(Framed, p, w), s', k, fuel).OutOfSteps? {
      PairedSteps(Stepping(Framed, p, w), Stepping(Unchecked, p, w), s', t, k, fuel);
    }
  }

  lemma EmittedReflects(p: Program, cs: map<Word, R.Compiled>, check: Check, w: World)
    requires check != Unchecked && SmallCode(p)
    ensures Reflects(p, Stepping(check, p, w), R.Emitted(p, cs, w, check == Typed))
  {
    var step, env := Stepping(check, p, w), R.Emitted(p, cs, w, check == Typed);
    forall s, m: R.Mem ensures ReflectsAt(p, step, env, s, m) {
      if Agree(s, m) && step(s).Some? && step(s).value.Continue? && Fetch(p, s).Some? {
        var f := Fetch(p, s).value;
        if f.ins.CallClosure? || f.ins.CallLocal? {
          DynamicIsFramed(p, check, w, f.ins, s);
          if f.ins.CallClosure? {
            PoppedReflects(p, cs, w, s, m, f);
          } else {
            LocalReflects(p, cs, w, s, m, f);
          }
        }
      }
    }
  }

  lemma {:induction false} PoppedReflects(p: Program, cs: map<Word, R.Compiled>, w: World, s: State, m: R.Mem, f: Fetched)
    requires Agree(s, m) && SmallCode(p) && f.ins.CallClosure? && f.next < MODULUS && LeavesFrames(CallClosure, s)
    requires StepIns(p, w, s, f).Some? && StepIns(p, w, s, f).value.Continue?
    ensures CalleeHalts(Stepping(Framed, p, w), R.Emitted(p, cs, w, false), StepIns(p, w, s, f).value.s, m, s.core.sp, s.core.sp + 1)
  {
    PoppedAgrees(s, m);
    var s0, closure := s.(core := Pop(s.core).value.1), m.stack[s.core.sp];
    forall fuel: nat | !R.InterpCall(p, w, m, s.core.sp + 1, closure, fuel).OutOfFuel?
      ensures var s' := StepIns(p, w, s, f).value.s; !RunFrom(Stepping(Framed, p, w), s', |s'.frames|, fuel).OutOfSteps?
    {
      CalleeReflects(p, cs, w, s0, m, closure, f.next, fuel);
    }
  }

  lemma {:induction false} LocalReflects(p: Program, cs: map<Word, R.Compiled>, w: World, s: State, m: R.Mem, f: Fetched)
    requires Agree(s, m) && SmallCode(p) && f.ins.CallLocal? && f.next < MODULUS && LeavesFrames(f.ins, s)
    requires StepIns(p, w, s, f).Some? && StepIns(p, w, s, f).value.Continue?
    ensures CalleeHalts(Stepping(Framed, p, w), R.Emitted(p, cs, w, false), StepIns(p, w, s, f).value.s, m,
      s.core.sp + f.ins.k, s.core.sp)
  {
    var at := s.core.sp + f.ins.k;
    assert at !in Slots(s.frames) by {
      assert Touches(f.ins, at, s.core.sp);
    }
    var closure := m.stack[at];
    forall fuel: nat | !R.InterpCall(p, w, m, s.core.sp, closure, fuel).OutOfFuel?
      ensures var s' := StepIns(p, w, s, f).value.s; !RunFrom(Stepping(Framed, p, w), s', |s'.frames|, fuel).OutOfSteps?
    {
      CalleeReflects(p, cs, w, s, m, closure, f.next, fuel);
    }
  }

  // ----- the theorem ----------------------------------------------------------------------------------

  lemma {:induction false} RootReflects(p: Program, step: Stepper, env: R.Env, s: State, m: R.Mem, closure: Word, root: Word,
                                        next: nat, fuel: nat)
    returns (n: nat)
    requires Faithful(p, step, env) && Agree(s, m) && next < MODULUS
    requires ReadWord(s.core.heap, closure, 0) == Some(root) && root in env.cs
    requires !R.Dispatch(env, root, m, s.core.sp, closure, fuel).OutOfFuel?
    ensures !CallRun(p, step, s, closure, next, n).OutOfSteps?
  {
    n := 0;
    if s.core.sp >= 2 && DoCall(p, s, true, closure, next).Some? {
      EnterSimulates(p, s, m, true, closure, next);
      var s' := DoCall(p, s, true, closure, next).value.s;
      var m1 := R.EnterFrame(m, s.core.sp, closure).value;
      assert FunctionOk(p, env.cs, root);
      EndReflects(p, step, env, s', m1, env.cs[root].entry, fuel);
      n :| !RunFrom(step, s', |s'.frames|, n).OutOfSteps?;
    }
  }

  /** The converse of `RegionPreservesMeaning`: where the compiled call ends, whatever the
      fuel it took, the interpreter's run of the call does not go on for ever; and if it
      ends within the discipline, the two endings are the same, the full stack at a native
      push excepted. */
  lemma {:induction false} CompiledEndsWithInterpreter(p: Program, cs: map<Word, R.Compiled>, w: World, check: Check, s: State,
                                                       m: R.Mem, closure: Word, root: Word, next: nat, fuel: nat)
    returns (n: nat)
    requires IsRegion(p, cs) && Quiet(w) && check != Unchecked && Agree(s, m) && next < MODULUS
    requires ReadWord(s.core.heap, closure, 0) == Some(root) && root in cs
    requires !R.Dispatch(R.Emitted(p, cs, w, check == Typed), root, m, s.core.sp, closure, fuel).OutOfFuel?
    ensures var r := CallRun(p, Stepping(check, p, w), s, closure, next, n);
      var e := R.Dispatch(R.Emitted(p, cs, w, check == Typed), root, m, s.core.sp, closure, fuel);
      && !r.OutOfSteps?
      && (Ends(r) ==> (Mirrors(m.ctx.handlerSp, r, e) <==> !OverranNatively(s, r)))
  {
    var step, env := Stepping(check, p, w), R.Emitted(p, cs, w, check == Typed);
    EmittedSimulates(p, cs, check, w);
    CheckedKeepsFrames(check, p, w);
    EmittedSteady(p, cs, w, check == Typed);
    EmittedReflects(p, cs, check, w);
    n := RootReflects(p, step, env, s, m, closure, root, next, fuel);
    var plenty := fuel + 2 * n;
    RegionPreservesMeaning(p, cs, w, check, s, m, closure, root, next, n, plenty);
    DispatchSteady(env, root, m, s.core.sp, closure, fuel, plenty);
  }

  lemma {:induction false} DispatchSteady(env: R.Env, root: Word, m: R.Mem, sp: int, closure: Word, k: nat, fuel: nat)
    requires Steady(env) && k <= fuel && !R.Dispatch(env, root, m, sp, closure, k).OutOfFuel?
    ensures R.Dispatch(env, root, m, sp, closure, fuel) == R.Dispatch(env, root, m, sp, closure, k)
  {
    if R.EnterFrame(m, sp, closure).Some? && root in env.cs {
      MoreFuel(env, root, env.cs[root].entry, R.EnterFrame(m, sp, closure).value, sp - 2, k, fuel);
    }
  }
}
