/** Allocation that fails: the one exception that the compiled code reports as another. */
module Exhaustion {
  import opened Basics
  import opened Words
  import opened Arith
  import opened Machine
  import opened Instr
  import opened Interp
  import opened Lowering
  import opened RetPc
  import opened Simulation
  import opened RegionTheorem
  import opened Samples
  import R = Region

  // ----- when an exception keeps its identity ----------------------------------------------

  /** The packet that the compiled call leaves is the interpreter's exception if and only if
      that is not heap exhaustion. */
  lemma SameException(p: Program, cs: map<Word, R.Compiled>, w: World, check: Check, s: State, m: R.Mem,
                      closure: Word, root: Word, next: nat, n: nat, fuel: nat)
    requires IsRegion(p, cs) && Quiet(w) && check != Unchecked && Agree(s, m) && next < MODULUS
    requires ReadWord(s.core.heap, closure, 0) == Some(root) && root in cs && fuel >= 2 * n
    requires CallRun(p, Stepping(check, p, w), s, closure, next, n).Escaped?
    ensures var r := CallRun(p, Stepping(check, p, w), s, closure, next, n);
      var e := R.Dispatch(R.Emitted(p, cs, w, check == Typed), root, m, s.core.sp, closure, fuel);
      e.Returned? && e.raised && (e.m.ctx.packet == Some(r.exn) <==> r.exn != HeapExhausted)
  {
    RegionPreservesMeaning(p, cs, w, check, s, m, closure, root, next, n, fuel);
  }

  // ----- when the heap is never exhausted ----------------------------------------------------

  /** The allocator always finds room. */
  ghost predicate Ample(w: World) { forall n :: w.alloc(n).Some? }

  /** The length that an allocating instruction reads from the stack is not negative. */
  predicate LengthOk(ins: Instr, c: Core) {
    && (ins.AllocWordMemory? && Peek(c, 2).Some? ==> Payload(Peek(c, 2).value) >= 0)
    && (ins.AllocByteMem? && Peek(c, 1).Some? ==> Payload(Peek(c, 1).value) >= 0)
  }

  predicate Exhausts(e: Option<Effect>) { e.Some? && e.value.Raise? && e.value.exn == HeapExhausted }

  lemma AllocatesWithRoom(w: World, h: Heap, n: nat, size: int, flags: int)
    requires Ample(w) && size >= 0
    ensures Allocate(w, h, n, size, flags) != Some(Exhausted)
  {
  }

  lemma ExecWithRoom(w: World, ins: Instr, c: Core)
    requires Ample(w) && LengthOk(ins, c)
    ensures !Exhausts(Exec(w, ins, c))
  {
    if ins.Tuple? {
      AllocatesWithRoom(w, c.heap, c.allocs, ins.n, 0);
      assert !Exhausts(ExecTuple(w, ins.n, c));
    } else if ins.MakeClosure? {
      AllocatesWithRoom(w, c.heap, c.allocs, ins.n + 1, F_CLOSURE_OBJ);
      assert !Exhausts(ExecClosure(w, ins.n, c));
    } else if ins.AllocRef? {
      AllocatesWithRoom(w, c.heap, c.allocs, 1, F_MUTABLE_BIT);
      assert !Exhausts(ExecAllocRef(w, c));
    } else if ins.AllocWordMemory? {
      assert !Exhausts(ExecAllocWords(w, c));
    } else if ins.AllocByteMem? {
      assert !Exhausts(ExecAllocBytes(w, c));
    } else {
      NoAllocation(w, ins, c);
    }
  }

  lemma NoAllocationInArithmetic(w: World, ins: Instr, c: Core)
    requires Binary(ins)
    ensures !Exhausts(Exec(w, ins, c))
  {
  }

  lemma NoAllocation(w: World, ins: Instr, c: Core)
    requires !ins.Tuple? && !ins.MakeClosure? && !ins.AllocRef? && !ins.AllocWordMemory? && !ins.AllocByteMem?
    ensures !Exhausts(Exec(w, ins, c))
  {
    if Binary(ins) {
      NoAllocationInArithmetic(w, ins, c);
    } else if ReadsTop(ins) {
    } else if ReadsLocal(ins) {
    } else if ins.LoadMl? {
      assert !Exhausts(ExecLoad(ins.kind, c));
    } else if ins.StoreMl? {
      assert !Exhausts(ExecStore(ins.untagged, c));
    } else if ins.StackContainer? {
      assert !Exhausts(ExecContainer(w, ins.n, c));
    }
  }

  /** Runs only instructions whose length operand is not negative. */
  function Measured(p: Program, step: Stepper): Stepper {
    s => if Fetch(p, s).Some? && LengthOk(Fetch(p, s).value.ins, s.core) then step(s) else None
  }

  ghost predicate NeverExhausts(step: Stepper) {
    forall s :: step(s).Some? && step(s).value.Escape? ==> step(s).value.exn != HeapExhausted
  }

  lemma MeasuredNeverExhausts(check: Check, p: Program, w: World)
    requires Ample(w)
    ensures NeverExhausts(Measured(p, Stepping(check, p, w)))
  {
    forall s | Fetch(p, s).Some? && LengthOk(Fetch(p, s).value.ins, s.core) && Step(check, p, w, s).Some? && Step(check, p, w, s).value.Escape?
      ensures Step(check, p, w, s).value.exn != HeapExhausted
    {
      StepWithRoom(p, w, s, Fetch(p, s).value);
    }
  }

  lemma StepWithRoom(p: Program, w: World, s: State, f: Fetched)
    requires Ample(w) && LengthOk(f.ins, s.core) && StepIns(p, w, s, f).Some? && StepIns(p, w, s, f).value.Escape?
    ensures StepIns(p, w, s, f).value.exn != HeapExhausted
  {
    if !IsCall(f.ins) && !f.ins.Return? {
      ExecWithRoom(w, f.ins, s.core);
      EscapeIsRaise(s, f.next, Exec(w, f.ins, s.core));
    }
  }

  lemma EscapeIsRaise(s: State, next: nat, e: Option<Effect>)
    requires OfEffect(s, next, e).Some? && OfEffect(s, next, e).value.Escape?
    ensures e.Some? && e.value.Raise? && e.value.exn == OfEffect(s, next, e).value.exn
  {
  }

  lemma {:induction false} RunNeverExhausts(step: Stepper, s: State, base: nat, n: nat)
    requires NeverExhausts(step)
    ensures var r := RunFrom(step, s, base, n); r.Escaped? ==> r.exn != HeapExhausted
    decreases n
  {
    if |s.frames| >= base && n > 0 && step(s).Some? && step(s).value.Continue? {
      RunNeverExhausts(step, step(s).value.s, base, n - 1);
    }
  }

  /** With an allocator that always finds room, and lengths that are not negative, every
      exception that leaves the interpreter's call leaves the compiled call as itself. */
  lemma ExceptionsKept(p: Program, cs: map<Word, R.Compiled>, w: World, check: Check, s: State, m: R.Mem,
                       closure: Word, root: Word, next: nat, n: nat, fuel: nat)
    requires IsRegion(p, cs) && Quiet(w) && Ample(w) && check != Unchecked && Agree(s, m) && next < MODULUS
    requires ReadWord(s.core.heap, closure, 0) == Some(root) && root in cs && fuel >= 2 * n
    requires CallRun(p, Measured(p, Stepping(check, p, w)), s, closure, next, n).Escaped?
    ensures var r := CallRun(p, Measured(p, Stepping(check, p, w)), s, closure, next, n);
      var e := R.Dispatch(R.Emitted(p, cs, w, check == Typed), root, m, s.core.sp, closure, fuel);
      e.Returned? && e.raised && e.m.ctx.packet == Some(r.exn)
  {
    var step := Stepping(check, p, w);
    MeasuredNeverExhausts(check, p, w);
    MeasuredCall(p, step, s, closure, next, n);
    SameException(p, cs, w, check, s, m, closure, root, next, n, fuel);
  }

  lemma MeasuredCall(p: Program, step: Stepper, s: State, closure: Word, next: nat, n: nat)
    requires NeverExhausts(Measured(p, step)) && CallRun(p, Measured(p, step), s, closure, next, n).Escaped?
    ensures CallRun(p, step, s, closure, next, n) == CallRun(p, Measured(p, step), s, closure, next, n)
    ensures CallRun(p, step, s, closure, next, n).exn != HeapExhausted
  {
    var r := DoCall(p, s, true, closure, next).value;
    if r.Continue? {
      RunNeverExhausts(Measured(p, step), r.s, |r.s.frames|, n);
      MeasuredIsRun(p, step, r.s, |r.s.frames|, n);
    }
  }

  lemma {:induction false} MeasuredIsRun(p: Program, step: Stepper, s: State, base: nat, n: nat)
    requires Ends(RunFrom(Measured(p, step), s, base, n))
    ensures RunFrom(step, s, base, n) == RunFrom(Measured(p, step), s, base, n)
    decreases n
  {
    if |s.frames| >= base && step(s).value.Continue? {
      MeasuredIsRun(p, step, step(s).value.s, base, n - 1);
    }
  }

  // ----- a failed allocation --------------------------------------------------------------------

  /** A function that allocates a reference cell.  With an allocator that finds no room the
      interpreter reports heap exhaustion, and the compiled code StackOverflow. */
  lemma ExhaustionDiffers(w: World, m: R.Mem)
    requires m.stack == [0, 0, 0] && m.heap == map[16 := Obj(0, [8])] && w.alloc(m.allocs).None? && Quiet(w)
    ensures var body, s := [AllocRef], Caller(m, 3);
      var p, cs := ProgramOf(body), RegionOf(body);
      var r := CallRun(p, Stepping(Framed, p, w), s, 16, 0, 1);
      var e := R.Dispatch(R.Emitted(p, cs, w, false), 8, m, 3, 16, 2);
      && IsRegion(p, cs) && Agree(s, m)
      && r.Escaped? && r.exn == HeapExhausted
      && e.Returned? && e.raised && e.m.ctx.packet == Some(StackOverflow)
  {
    IsSampleRegion([AllocRef]);
    InterpExhausted(w, m);
    CompiledExhausted(w, m);
  }

  lemma InterpExhausted(w: World, m: R.Mem)
    requires m.stack == [0, 0, 0] && m.heap == map[16 := Obj(0, [8])] && w.alloc(m.allocs).None?
    ensures var p := ProgramOf([AllocRef]);
      var r := CallRun(p, Stepping(Framed, p, w), Caller(m, 3), 16, 0, 1);
      r.Escaped? && r.exn == HeapExhausted
  {
    var p := ProgramOf([AllocRef]);
    var s' := DoCall(p, Caller(m, 3), true, 16, 0).value.s;
    assert s'.core.sp == 1 && s'.frames == [Frame(8, 2, 0, true)];
    assert Fetch(p, s') == Some(Fetched(AllocRef, 1));
    assert Exec(w, AllocRef, s'.core) == Some(Raise(s'.core, HeapExhausted));
    assert Disciplined(p, AllocRef, s');
    assert Step(Framed, p, w, s') == Some(Escape(s', HeapExhausted));
  }

  lemma CompiledExhausted(w: World, m: R.Mem)
    requires m.stack == [0, 0, 0] && m.heap == map[16 := Obj(0, [8])] && w.alloc(m.allocs).None? && Quiet(w)
    ensures var e := R.Dispatch(R.Emitted(ProgramOf([AllocRef]), RegionOf([AllocRef]), w, false), 8, m, 3, 16, 2);
      e.Returned? && e.raised && e.m.ctx.packet == Some(StackOverflow)
  {
    var m1 := R.EnterFrame(m, 3, 16).value;
    assert R.RegionAlloc(w, m1, 1, 1, F_MUTABLE_BIT) == R.NoSpace(R.Publish(m1, 1));
    assert R.Lower(w, AllocRef, m1, 1) == Some(R.EmitRaise(R.Publish(m1, 1), StackOverflow));
    assert Pieces([AllocRef], 0)[0] == R.Straight(AllocRef);
  }
}
