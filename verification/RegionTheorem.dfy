/** The emitted code of a region against the interpreter: instruction by instruction, then
    for whole calls of the region's root. */
module RegionTheorem {
  import opened Basics
  import opened Words
  import opened Machine
  import opened Instr
  import opened Interp
  import opened RetPc
  import opened Trampoline
  import opened Lowering
  import opened Compile
  import opened Simulation
  import Typing
  import R = Region

  predicate Ends(r: Interp.Run) { r.Done? || r.Escaped? || r.Overran? }

  // ----- the emitted code of one instruction ---------------------------------------------

  lemma TypedAdmits(check: Check, p: Program, w: World, s: State, m: R.Mem, ins: Instr)
    requires Agree(s, m) && check != Unchecked && Admits(check, p, w, ins, s)
    ensures check == Typed ==> Typing.TypedIns(w.layout, ins, m.stack, s.core.sp, m.heap)
  {
    if check == Typed {
      DisciplineUntouched(ins, s, Slots(s.frames));
      TypedAlike(w.layout, ins, s.core, CoreOf(m, s.core.sp), Slots(s.frames));
    }
  }

  lemma EmittedStraight(p: Program, cs: map<Word, R.Compiled>, check: Check, w: World, s: State, m: R.Mem, f: Fetched)
    requires Agree(s, m) && Quiet(w) && check != Unchecked && Admits(check, p, w, f.ins, s)
    requires StraightLine(f.ins) && Exec(w, f.ins, s.core).Some?
    ensures OfEffect(s, f.next, Exec(w, f.ins, s.core)).Some?
    ensures Straightens(R.Emitted(p, cs, w, check == Typed), s, m, f,
      OfEffect(s, f.next, Exec(w, f.ins, s.core)).value)
  {
    StraightSimulates(w, s, m, f.ins);
    TypedAdmits(check, p, w, s, m, f.ins);
  }

  lemma EmittedJump(p: Program, cs: map<Word, R.Compiled>, check: Check, w: World, s: State, m: R.Mem, f: Fetched)
    requires Agree(s, m) && Quiet(w) && check != Unchecked && Admits(check, p, w, f.ins, s)
    requires EndsBlock(f.ins) && !f.ins.Return? && Exec(w, f.ins, s.core).Some?
    ensures OfEffect(s, f.next, Exec(w, f.ins, s.core)).Some?
    ensures Jumps(R.Emitted(p, cs, w, check == Typed), s, m, f, OfEffect(s, f.next, Exec(w, f.ins, s.core)).value)
  {
    JumpSimulates(w, s, m, f);
    TypedAdmits(check, p, w, s, m, f.ins);
  }

  lemma EmittedReturn(p: Program, cs: map<Word, R.Compiled>, typed: bool, w: World, s: State, m: R.Mem, n: nat)
    requires Agree(s, m) && ReturnInPlace(s, n) && DoReturn(s, n).Some?
    ensures Returns(R.Emitted(p, cs, w, typed), s, m, n, DoReturn(s, n).value)
  {
    ReturnSimulates(s, m, n);
  }

  lemma EmittedNative(p: Program, cs: map<Word, R.Compiled>, check: Check, w: World, s: State, m: R.Mem, f: Fetched)
    requires Agree(s, m) && check != Unchecked && Admits(check, p, w, f.ins, s) && f.next < MODULUS
    requires f.ins.CallConst? && DoCall(p, s, true, f.ins.closure, f.next).Some?
    ensures CallsNative(p, R.Emitted(p, cs, w, check == Typed), s, m, f, f.ins.closure,
      DoCall(p, s, true, f.ins.closure, f.next).value)
  {
    if s.core.sp < 2 {
      NoFrame(m, s.core.sp, f.ins.closure);
    } else {
      EnterSimulates(p, s, m, true, f.ins.closure, f.next);
    }
    TypedAdmits(check, p, w, s, m, f.ins);
  }

  /** A frame that does not fit is written below the stack. */
  lemma NoFrame(m: R.Mem, sp: nat, closure: Word)
    requires sp < 2
    ensures R.EnterFrame(m, sp, closure).None?
  {
  }

  /** The interpreter popping a closure, and the compiled code skipping it. */
  lemma PoppedAgrees(s: State, m: R.Mem)
    requires Agree(s, m) && Pop(s.core).Some? && LeavesFrames(CallClosure, s)
    ensures s.core.sp !in Slots(s.frames)
    ensures Agree(s.(core := Pop(s.core).value.1), m)
  {
    PoppedFrames(s);
    assert s.core.sp !in Slots(s.frames) by {
      assert Touches(CallClosure, s.core.sp, s.core.sp);
    }
  }

  lemma EmittedDynamic(p: Program, cs: map<Word, R.Compiled>, w: World, s: State, m: R.Mem, f: Fetched,
                       popTop: bool, depth: nat)
    requires Agree(s, m) && SmallCode(p) && f.next < MODULUS
    requires f.ins == (if popTop then CallClosure else CallLocal(depth)) && (popTop ==> depth == 0)
    requires Disciplined(p, f.ins, s) && StepIns(p, w, s, f).Some?
    ensures CallsDynamic(Stepping(Framed, p, w), R.Emitted(p, cs, w, false), s, m, f, popTop, depth,
      StepIns(p, w, s, f).value)
  {
    var s0: State, closure: Word;
    if popTop {
      PoppedAgrees(s, m);
      s0, closure := s.(core := Pop(s.core).value.1), m.stack[s.core.sp];
    } else {
      assert s.core.sp + depth !in Slots(s.frames) by {
        assert Touches(CallLocal(depth), s.core.sp + depth, s.core.sp);
      }
      s0, closure := s, m.stack[s.core.sp + depth];
    }
    assert StepIns(p, w, s, f) == DoCall(p, s0, false, closure, f.next);
    DynamicEnters(p, cs, w, s0, m, f, closure);
  }

  /** The call, once the closure is known. */
  lemma DynamicEnters(p: Program, cs: map<Word, R.Compiled>, w: World, s: State, m: R.Mem, f: Fetched, closure: Word)
    requires Agree(s, m) && SmallCode(p) && f.next < MODULUS && DoCall(p, s, false, closure, f.next).Some?
    ensures var r, env := DoCall(p, s, false, closure, f.next).value, R.Emitted(p, cs, w, false);
      if r.Escape? then r.s.frames == s.frames && AlwaysRaises(env, r.s, r.exn, m, s.core.sp, closure)
      else
        && Enters(m, s, f, false, s.core.sp, closure, r)
        && AlwaysEnds(Stepping(Framed, p, w), env, r.s, m, s.core.sp, closure)
  {
    if s.core.sp < 2 {
      TrampolineRaises(p, cs, w, s, m, closure);
    } else {
      EnterSimulates(p, s, m, false, closure, f.next);
      TrampolineEnds(p, cs, w, s, m, closure, f.next);
    }
  }

  lemma TrampolineRaises(p: Program, cs: map<Word, R.Compiled>, w: World, s: State, m: R.Mem, closure: Word)
    requires Agree(s, m) && s.core.sp < 2 && ReadWord(s.core.heap, closure, 0).Some?
    ensures AlwaysRaises(R.Emitted(p, cs, w, false), s, StackOverflow, m, s.core.sp, closure)
  {
  }

  lemma TrampolineEnds(p: Program, cs: map<Word, R.Compiled>, w: World, s: State, m: R.Mem, closure: Word, next: nat)
    requires Agree(s, m) && SmallCode(p) && next < MODULUS
    requires s.core.sp >= 2 && DoCall(p, s, false, closure, next).Some?
    ensures AlwaysEnds(Stepping(Framed, p, w), R.Emitted(p, cs, w, false), DoCall(p, s, false, closure, next).value.s, m,
      s.core.sp, closure)
  {
    var s' := DoCall(p, s, false, closure, next).value.s;
    forall n: nat, fuel: nat ensures InterpEnds(Stepping(Framed, p, w), R.Emitted(p, cs, w, false), s', m, s.core.sp, closure, n, fuel) {
      if n <= fuel {
        TrampolineEndsBy(p, w, s, m, closure, next, n, fuel);
      }
    }
  }

  lemma {:induction false} TrampolineEndsBy(p: Program, w: World, s: State, m: R.Mem, closure: Word, next: nat, n: nat, fuel: nat)
    requires Agree(s, m) && SmallCode(p) && next < MODULUS && n <= fuel
    requires s.core.sp >= 2 && DoCall(p, s, false, closure, next).Some?
    ensures var s' := DoCall(p, s, false, closure, next).value.s;
      Mirrors(m.ctx.handlerSp, RunFrom(Stepping(Framed, p, w), s', |s'.frames|, n),
        AsCaller(R.InterpCall(p, w, m, s.core.sp, closure, fuel)))
  {
    EnterSimulates(p, s, m, false, closure, next);
    var s' := DoCall(p, s, false, closure, next).value.s;
    var m1 := R.EnterFrame(m, s.core.sp, closure).value;
    var core := Core(m1.stack, s.core.sp - 2, m1.heap, m1.allocs);
    var t := State(s'.code, 0, core, [Frame(0, s.core.sp - 1, 0, false)]);
    var k := |s'.frames|;
    assert s'.frames[..k] == s'.frames;
    assert Paired(s', t, k);
    UncheckedMimics(Framed, p, w, k);
    RunPaired(Stepping(Framed, p, w), Stepping(Unchecked, p, w), s', t, k, n, fuel);
    CheckedKeepsFrames(Framed, p, w);
    var r, r' := RunFrom(Stepping(Framed, p, w), s', k, n), RunFrom(Stepping(Unchecked, p, w), t, 1, fuel);
    if r.Done? {
      RunEndsAtCaller(Stepping(Framed, p, w), s', k, n);
    }
    RunExits(m, m1, s.core.sp, r, r', k);
  }

  /** Two paired ends, the second as the trampoline reports it. */
  lemma RunExits(m: R.Mem, m1: R.Mem, sp: nat, r: Interp.Run, r': Interp.Run, k: nat)
    requires m1.ctx == m.ctx
    requires r.Done? ==> r'.Done? && BothReturned(r.s, r'.s, k) && FramesOk(r.s)
    requires r.Escaped? || r.Overran? ==>
      k <= |r.s.frames| && Ends(r') && AlikeAbove(r.s.core, r'.s.core, Slots(r.s.frames[..k]))
    requires (r.Escaped? ==> r'.Escaped? && r'.exn == r.exn) && (r.Overran? ==> r'.Overran?)
    ensures Ends(r) ==> Mirrors(m.ctx.handlerSp, r, AsCaller(R.RunExit(m1, r')))
  {
    if r.Escaped? || r.Overran? {
      SlotsMonotone(r.s.frames, k);
    }
  }

  lemma EmittedCall(p: Program, cs: map<Word, R.Compiled>, check: Check, w: World, s: State, m: R.Mem, f: Fetched)
    requires SmallCode(p) && check != Unchecked && Agree(s, m) && f.next < MODULUS && IsCall(f.ins)
    requires Admits(check, p, w, f.ins, s) && StepIns(p, w, s, f).Some?
    ensures InsSimulates(p, Stepping(check, p, w), R.Emitted(p, cs, w, check == Typed), s, m, f,
      StepIns(p, w, s, f).value)
  {
    if f.ins.CallConst? {
      EmittedNative(p, cs, check, w, s, m, f);
    } else {
      DynamicIsFramed(p, check, w, f.ins, s);
      EmittedDynamic(p, cs, w, s, m, f, f.ins.CallClosure?, if f.ins.CallLocal? then f.ins.k else 0);
    }
  }

  lemma DynamicIsFramed(p: Program, check: Check, w: World, ins: Instr, s: State)
    requires ins.CallClosure? || ins.CallLocal?
    requires check != Unchecked && Admits(check, p, w, ins, s)
    ensures check == Framed
  {
  }

  lemma EmittedIns(p: Program, cs: map<Word, R.Compiled>, check: Check, w: World, s: State, m: R.Mem, f: Fetched)
    requires Quiet(w) && SmallCode(p) && check != Unchecked && Agree(s, m) && f.next < MODULUS
    requires Admits(check, p, w, f.ins, s) && StepIns(p, w, s, f).Some?
    ensures InsSimulates(p, Stepping(check, p, w), R.Emitted(p, cs, w, check == Typed), s, m, f,
      StepIns(p, w, s, f).value)
  {
    if f.ins.Return? {
      EmittedReturn(p, cs, check == Typed, w, s, m, f.ins.n);
    } else if IsCall(f.ins) {
      EmittedCall(p, cs, check, w, s, m, f);
    } else if EndsBlock(f.ins) {
      EmittedJump(p, cs, check, w, s, m, f);
    } else {
      EmittedStraight(p, cs, check, w, s, m, f);
    }
  }

  lemma EmittedSimulates(p: Program, cs: map<Word, R.Compiled>, check: Check, w: World)
    requires Quiet(w) && SmallCode(p) && check != Unchecked
    ensures AllSimulate(p, Stepping(check, p, w), R.Emitted(p, cs, w, check == Typed))
  {
    var step, env := Stepping(check, p, w), R.Emitted(p, cs, w, check == Typed);
    forall s, m: R.Mem ensures SimulatesAt(p, step, env, s, m) {
      if Agree(s, m) && s.frames != [] && step(s).Some? {
        var f := Fetch(p, s).value;
        EmittedIns(p, cs, check, w, s, m, f);
      }
    }
  }

  // ----- the theorem --------------------------------------------------------------------

  /** A call of the root from the boundary, whatever the instructions mean. */
  lemma {:induction false} RootSimulates(p: Program, step: Stepper, env: R.Env, s': State, m: R.Mem, m1: R.Mem, sp: nat, closure: Word,
                      n: nat, fuel: nat)
    requires IsRegion(p, env.cs) && KeepsFrames(step) && AllSimulate(p, step, env)
    requires R.EnterFrame(m, sp, closure) == Some(m1) && m1.ctx == m.ctx && sp >= 2
    requires Agree(s', m1) && s'.frames != [] && s'.frames[|s'.frames| - 1].native
    requires s'.pc == 0 && s'.code in env.cs && s'.core.sp == sp - 2 && fuel >= 2 * n
    ensures Matches(m.ctx.handlerSp, |s'.frames| - 1, RunFrom(step, s', |s'.frames|, n),
      R.Dispatch(env, s'.code, m, sp, closure, fuel))
    ensures var r := RunFrom(step, s', |s'.frames|, n);
      r.Done? ==>
        && r.s.frames == s'.frames[..|s'.frames| - 1]
        && r.s.code == s'.frames[|s'.frames| - 1].caller && r.s.pc == s'.frames[|s'.frames| - 1].resume
  {
    assert FunctionOk(p, env.cs, s'.code);
    RunSimulates(p, step, env, s', m1, env.cs[s'.code].entry, n, fuel);
    NativeBelow(step, s', m.ctx.handlerSp, R.Dispatch(env, s'.code, m, sp, closure, fuel), n);
    if RunFrom(step, s', |s'.frames|, n).Done? {
      RunEndsAtCaller(step, s', |s'.frames|, n);
    }
  }

  /** The interpreter's run of a call: of the closure's code, until it returns. */
  function CallRun(p: Program, step: Stepper, s: State, closure: Word, next: nat, n: nat): Interp.Run {
    match DoCall(p, s, true, closure, next)
    case None => Stuck
    case Some(Continue(s')) => RunFrom(step, s', |s'.frames|, n)
    case Some(Escape(s', exn)) => Escaped(s', exn)
    case Some(Overrun(s')) => Overran(s')
  }

  /** The run ends with a push that found the stack full, in code that the region runs
      itself.  The test is the interpreter's own: the stack pointer at the push. */
  predicate OverranNatively(s: State, r: Interp.Run) { r.Overran? && AllNative(r.s.frames, |s.frames|) }

  /** Region compilation preserves meaning.

      The interpreter is about to call, from state `s`, a closure whose code is the root of
      the region; the boundary dispatches the call to the compiled root instead.  If the
      interpreter's run of that call ends, in any number of steps, then the compiled call,
      with enough fuel, ends in the same way if and only if the run was not stopped by a
      full stack at a push of native code: it returns with the interpreter's stack pointer,
      heap and live stack, or it reports the interpreter's exception with the handler's
      stack pointer untouched.  The stacks differ at most in the return-address slots of
      frames that are still active.  In the excepted case the interpreter raises
      StackOverflow, and the compiled push, which makes no check, writes below the stack. */
  lemma RegionPreservesMeaning(p: Program, cs: map<Word, R.Compiled>, w: World, check: Check, s: State, m: R.Mem,
                               closure: Word, root: Word, next: nat, n: nat, fuel: nat)
    requires IsRegion(p, cs) && Quiet(w) && check != Unchecked && Agree(s, m) && next < MODULUS
    requires ReadWord(s.core.heap, closure, 0) == Some(root) && root in cs && fuel >= 2 * n
    ensures var r := CallRun(p, Stepping(check, p, w), s, closure, next, n);
      var e := R.Dispatch(R.Emitted(p, cs, w, check == Typed), root, m, s.core.sp, closure, fuel);
      && (Ends(r) ==> (Mirrors(m.ctx.handlerSp, r, e) <==> !OverranNatively(s, r)))
      && (OverranNatively(s, r) ==> e.Undefined?)
      && (r.Done? ==> r.s.frames == s.frames && r.s.code == s.code && r.s.pc == next)
  {
    if DoCall(p, s, true, closure, next).Some? {
      if s.core.sp < 2 {
        NoFrame(m, s.core.sp, closure);
      } else {
        EnterSimulates(p, s, m, true, closure, next);
        var s' := DoCall(p, s, true, closure, next).value.s;
        var m1 := R.EnterFrame(m, s.core.sp, closure).value;
        EmittedSimulates(p, cs, check, w);
        CheckedKeepsFrames(check, p, w);
        RootSimulates(p, Stepping(check, p, w), R.Emitted(p, cs, w, check == Typed), s', m, m1, s.core.sp, closure, n, fuel);
      }
    }
  }
}
