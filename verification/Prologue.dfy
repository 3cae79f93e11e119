/** When native pushes cannot run below the stack: the stack-size check at the entry of every
    function is made for as many slots as the function then uses. */
module Prologue {
  import opened Basics
  import opened Words
  import opened Machine
  import opened Instr
  import opened Interp
  import opened RetPc
  import opened Lowering
  import opened Compile
  import opened Simulation
  import opened RegionTheorem
  import opened Samples
  import R = Region

  // ----- slots -----------------------------------------------------------------------------

  /** How many slots below the stack pointer an instruction pushes into; a static call
      pushes the two slots of its frame. */
  function Reach(ins: Instr): nat {
    if PushesOne(ins) then 1
    else if ins.StackContainer? then ins.n + 1
    else if ins.Tuple? && ins.n == 0 then 1
    else if ins.CallConst? then 2
    else 0
  }

  predicate PushesOne(ins: Instr) { ins.Const? || ins.Local? || ins.IndirectLocal? || ins.IsTaggedLocal? }

  lemma {:induction false} TupleRoom(w: World, n: nat, c: Core)
    requires ExecTuple(w, n, c) == Some(NoRoom)
    ensures n == 0 && c.sp == 0
  {
    var r := Allocate(w, c.heap, c.allocs, n, 0).value;
    var c1 := c.(heap := r.heap, allocs := c.allocs + 1);
    if n > 0 {
      PoppedAbove(c1, r.addr, 0, n);
    }
  }

  lemma {:induction false} ClosureRoom(w: World, n: nat, c: Core)
    ensures ExecClosure(w, n, c) != Some(NoRoom)
  {
  }

  lemma {:induction false} PoppedAbove(c: Core, p: Word, from: nat, n: nat)
    requires PopFields(c, p, from, n).Some?
    ensures PopFields(c, p, from, n).value.sp == c.sp + n
    decreases n
  {
    if n > 0 && WriteWord(c.heap, p, from + n - 1, c.stack[c.sp]).Some? {
      PoppedAbove(Pop(c).value.1.(heap := WriteWord(c.heap, p, from + n - 1, c.stack[c.sp]).value), p, from, n - 1);
    }
  }

  /** A push runs out of room exactly where the stack pointer is below its reach. */
  lemma RunsOutBelowReach(w: World, ins: Instr, c: Core)
    requires Exec(w, ins, c) == Some(NoRoom)
    ensures c.sp < Reach(ins)
  {
    if ins.Tuple? {
      TupleRoom(w, ins.n, c);
    } else if ins.MakeClosure? {
      ClosureRoom(w, ins.n, c);
    } else if PushesOne(ins) {
      OnePush(w, ins, c);
    } else if ins.StackContainer? {
      ContainerRoom(w, ins.n, c);
    } else {
      PopsFirst(w, ins, c);
    }
  }

  lemma ContainerRoom(w: World, n: nat, c: Core)
    requires ExecContainer(w, n, c) == Some(NoRoom)
    ensures c.sp <= n
  {
    if c.sp > n && PushZeros(c, n).Some? {
      PushZerosFills(c, n);
    }
  }

  lemma OnePush(w: World, ins: Instr, c: Core)
    requires PushesOne(ins) && Exec(w, ins, c) == Some(NoRoom)
    ensures c.sp == 0
  {
  }

  lemma OperandsFirst(w: World, ins: Instr, c: Core)
    requires Binary(ins)
    ensures Exec(w, ins, c) != Some(NoRoom)
  {
  }

  /** Every other instruction that pushes has popped before. */
  lemma PopsFirst(w: World, ins: Instr, c: Core)
    requires !PushesOne(ins) && !ins.StackContainer? && !ins.Tuple? && !ins.MakeClosure?
    ensures Exec(w, ins, c) != Some(NoRoom)
  {
    if Binary(ins) {
      OperandsFirst(w, ins, c);
    } else if ReadsTop(ins) {
    } else if ins.LoadMl? {
      assert ExecLoad(ins.kind, c) != Some(NoRoom);
    } else if ins.StoreMl? {
      assert ExecStore(ins.untagged, c) != Some(NoRoom);
    } else if ins.AllocRef? {
      assert ExecAllocRef(w, c) != Some(NoRoom);
    } else if ins.AllocWordMemory? {
      assert ExecAllocWords(w, c) != Some(NoRoom);
    } else if ins.AllocByteMem? {
      assert ExecAllocBytes(w, c) != Some(NoRoom);
    }
  }

  lemma OverrunBelowReach(p: Program, w: World, s: State, f: Fetched)
    requires StepIns(p, w, s, f).Some? && StepIns(p, w, s, f).value.Overrun?
    ensures s.core.sp < Reach(f.ins)
  {
    if f.ins.CallConst? {
    } else if f.ins.CallClosure? || f.ins.CallLocal? {
      assert false;
    } else if f.ins.Return? {
      assert false;
    } else {
      NoRoomOverruns(s, f.next, Exec(w, f.ins, s.core));
      RunsOutBelowReach(w, f.ins, s.core);
    }
  }

  lemma NoRoomOverruns(s: State, next: nat, e: Option<Effect>)
    requires OfEffect(s, next, e).Some? && OfEffect(s, next, e).value.Overrun?
    ensures e == Some(NoRoom)
  {
  }

  // ----- checked prologues -----------------------------------------------------------------

  /** Every function starts by checking for as many slots as `need` says. */
  ghost predicate Checked(p: Program, need: map<Word, nat>) {
    forall f :: f in p.funcs ==> f in need && 0 in p.funcs[f].at && p.funcs[f].at[0].ins == StackSize(need[f])
  }

  /** The stack pointer at which the active function was entered. */
  function EntrySp(s: State): int
    requires s.frames != []
  {
    s.frames[|s.frames| - 1].retSlot - 1
  }

  /** The instruction about to run stays within the slots its function has checked for. */
  predicate Within(p: Program, need: map<Word, nat>, s: State) {
    Fetch(p, s).Some? && s.frames != [] && s.code in need && s.pc != 0 ==>
      s.core.sp - Reach(Fetch(p, s).value.ins) >= EntrySp(s) - need[s.code]
  }

  /** Runs only functions that stay within what they checked for. */
  function Honest(p: Program, need: map<Word, nat>, step: Stepper): Stepper {
    s => if Within(p, need, s) then step(s) else None
  }

  /** Every active function, the one about to check apart, has found the slots it needs. */
  ghost predicate Provided(need: map<Word, nat>, s: State, base: nat) {
    && 1 <= base <= |s.frames| && s.code in need
    && ((s.pc == 0 && s.core.sp == EntrySp(s)) || EntrySp(s) >= need[s.code])
    && forall i :: base <= i < |s.frames| ==> CallerProvided(need, s.frames, i)
  }

  /** The function that made call `i` has found the slots it needs. */
  predicate CallerProvided(need: map<Word, nat>, frames: seq<Frame>, i: nat)
    requires 1 <= i < |frames|
  {
    frames[i].caller in need && frames[i - 1].retSlot - 1 >= need[frames[i].caller]
  }

  ghost predicate StillProvided(need: map<Word, nat>, base: nat, r: StepResult) {
    !r.Overrun? && (r.Continue? && |r.s.frames| >= base ==> Provided(need, r.s, base))
  }

  lemma ProvidedStep(p: Program, w: World, need: map<Word, nat>, s: State, f: Fetched, base: nat)
    requires Checked(p, need) && Provided(need, s, base) && Within(p, need, s)
    requires Fetch(p, s) == Some(f) && StepIns(p, w, s, f).Some?
    ensures StillProvided(need, base, StepIns(p, w, s, f).value)
  {
    var r := StepIns(p, w, s, f).value;
    if r.Overrun? {
      OverrunBelowReach(p, w, s, f);
    } else if s.pc == 0 {
      assert f.ins == StackSize(need[s.code]);
      CheckProvides(p, w, need, s, f, base);
    } else if r.Continue? && f.ins.Return? {
      ProvidedReturn(need, s, f.ins.n, base);
    } else if r.Continue? && IsCall(f.ins) {
      CallAdds(p, w, need, s, f);
      FrameAdded(need, s, r.s, base);
    } else if r.Continue? {
      InFunction(s, f.next, Exec(w, f.ins, s.core));
      StaysProvided(need, s, r.s, base);
    }
  }

  lemma CheckProvides(p: Program, w: World, need: map<Word, nat>, s: State, f: Fetched, base: nat)
    requires Provided(need, s, base) && f.ins == StackSize(need[s.code])
    ensures StepIns(p, w, s, f).Some? && StillProvided(need, base, StepIns(p, w, s, f).value)
  {
    if s.core.sp >= need[s.code] {
      StaysProvided(need, s, s.(pc := f.next), base);
    }
  }

  /** An instruction that neither calls nor returns stays in its function. */
  lemma InFunction(s: State, next: nat, e: Option<Effect>)
    requires OfEffect(s, next, e).Some? && OfEffect(s, next, e).value.Continue?
    ensures var s' := OfEffect(s, next, e).value.s; s'.frames == s.frames && s'.code == s.code
  {
  }

  lemma StaysProvided(need: map<Word, nat>, s: State, s': State, base: nat)
    requires Provided(need, s, base) && EntrySp(s) >= need[s.code] && s'.frames == s.frames && s'.code == s.code
    ensures Provided(need, s', base)
  {
  }

  lemma ProvidedReturn(need: map<Word, nat>, s: State, n: nat, base: nat)
    requires Provided(need, s, base) && DoReturn(s, n).Some?
    ensures |DoReturn(s, n).value.s.frames| >= base ==> Provided(need, DoReturn(s, n).value.s, base)
  {
    var s' := DoReturn(s, n).value.s;
    var last := |s.frames| - 1;
    if |s'.frames| >= base {
      assert CallerProvided(need, s.frames, last);
      forall i | base <= i < last ensures CallerProvided(need, s'.frames, i) {
        assert CallerProvided(need, s.frames, i);
      }
    }
  }

  /** `s'` has entered a function from `s`. */
  ghost predicate Entered(need: map<Word, nat>, s: State, s': State) {
    && |s'.frames| == |s.frames| + 1 && s'.frames[..|s.frames|] == s.frames && s'.frames[|s.frames|].caller == s.code
    && s'.pc == 0 && s'.core.sp == EntrySp(s') && s'.code in need
  }

  lemma CallAdds(p: Program, w: World, need: map<Word, nat>, s: State, f: Fetched)
    requires Checked(p, need) && IsCall(f.ins) && StepIns(p, w, s, f).Some? && StepIns(p, w, s, f).value.Continue?
    ensures Entered(need, s, StepIns(p, w, s, f).value.s)
  {
    if f.ins.CallConst? {
      DoCallAdds(p, need, s, true, f.ins.closure, f.next);
    } else if f.ins.CallClosure? {
      DoCallAdds(p, need, s.(core := Pop(s.core).value.1), false, Pop(s.core).value.0, f.next);
    } else {
      DoCallAdds(p, need, s, false, Peek(s.core, f.ins.k).value, f.next);
    }
  }

  lemma DoCallAdds(p: Program, need: map<Word, nat>, s: State, native: bool, closure: Word, next: nat)
    requires Checked(p, need) && DoCall(p, s, native, closure, next).Some? && DoCall(p, s, native, closure, next).value.Continue?
    ensures Entered(need, s, DoCall(p, s, native, closure, next).value.s)
  {
  }

  lemma FrameAdded(need: map<Word, nat>, s: State, s': State, base: nat)
    requires Provided(need, s, base) && EntrySp(s) >= need[s.code] && Entered(need, s, s')
    ensures Provided(need, s', base)
  {
    forall i | base <= i < |s'.frames| ensures CallerProvided(need, s'.frames, i) {
      assert forall k :: 0 <= k < |s.frames| ==> s'.frames[k] == s'.frames[..|s.frames|][k];
      if i < |s.frames| {
        assert CallerProvided(need, s.frames, i);
      }
    }
  }

  /** What a step keeps while functions are honest. */
  ghost predicate Provides(p: Program, need: map<Word, nat>, step: Stepper) {
    forall s, base: nat :: Provided(need, s, base) && Within(p, need, s) && step(s).Some? ==>
      StillProvided(need, base, step(s).value)
  }

  lemma SteppingProvides(check: Check, p: Program, w: World, need: map<Word, nat>)
    requires Checked(p, need)
    ensures Provides(p, need, Stepping(check, p, w))
  {
    forall s, base: nat | Provided(need, s, base) && Within(p, need, s) && Step(check, p, w, s).Some?
      ensures StillProvided(need, base, Step(check, p, w, s).value)
    {
      ProvidedStep(p, w, need, s, Fetch(p, s).value, base);
    }
  }

  lemma {:induction false} HonestNeverOverruns(p: Program, need: map<Word, nat>, step: Stepper, s: State, base: nat, n: nat)
    requires Provides(p, need, step) && Provided(need, s, base)
    ensures !RunFrom(Honest(p, need, step), s, base, n).Overran?
    decreases n
  {
    if n > 0 && Within(p, need, s) && step(s).Some? {
      var r := step(s).value;
      if r.Continue? && |r.s.frames| >= base {
        HonestNeverOverruns(p, need, step, r.s, base, n - 1);
      }
    }
  }

  /** An honest run that ends is the run. */
  lemma {:induction false} HonestIsRun(p: Program, need: map<Word, nat>, step: Stepper, s: State, base: nat, n: nat)
    requires Ends(RunFrom(Honest(p, need, step), s, base, n))
    ensures RunFrom(step, s, base, n) == RunFrom(Honest(p, need, step), s, base, n)
    decreases n
  {
    if |s.frames| >= base && step(s).value.Continue? {
      HonestIsRun(p, need, step, step(s).value.s, base, n - 1);
    }
  }

  // ----- the guarded theorem ----------------------------------------------------------------

  /** With room for the frame of the call itself, and with functions that check at their
      entry for the slots they use, the compiled call ends as the interpreter's does,
      without exception. */
  lemma PrologueGuards(p: Program, cs: map<Word, R.Compiled>, w: World, check: Check, need: map<Word, nat>, s: State,
                       m: R.Mem, closure: Word, root: Word, next: nat, n: nat, fuel: nat)
    requires IsRegion(p, cs) && Quiet(w) && check != Unchecked && Agree(s, m) && next < MODULUS
    requires ReadWord(s.core.heap, closure, 0) == Some(root) && root in cs && fuel >= 2 * n
    requires Checked(p, need) && s.core.sp >= 2
    ensures var r := CallRun(p, Honest(p, need, Stepping(check, p, w)), s, closure, next, n);
      var e := R.Dispatch(R.Emitted(p, cs, w, check == Typed), root, m, s.core.sp, closure, fuel);
      Ends(r) ==> !r.Overran? && Mirrors(m.ctx.handlerSp, r, e)
  {
    var step := Stepping(check, p, w);
    if Ends(CallRun(p, Honest(p, need, step), s, closure, next, n)) {
      assert FunctionOk(p, cs, root);
      SteppingProvides(check, p, w, need);
      HonestCall(p, need, step, s, closure, next, n);
      RegionPreservesMeaning(p, cs, w, check, s, m, closure, root, next, n, fuel);
    }
  }

  lemma {:induction false} HonestCall(p: Program, need: map<Word, nat>, step: Stepper, s: State, closure: Word, next: nat, n: nat)
    requires Checked(p, need) && Provides(p, need, step) && s.core.sp >= 2
    requires Ends(CallRun(p, Honest(p, need, step), s, closure, next, n))
    ensures !CallRun(p, step, s, closure, next, n).Overran?
    ensures CallRun(p, step, s, closure, next, n) == CallRun(p, Honest(p, need, step), s, closure, next, n)
  {
    var s' := DoCall(p, s, true, closure, next).value.s;
    HonestNeverOverruns(p, need, step, s', |s'.frames|, n);
    HonestIsRun(p, need, step, s', |s'.frames|, n);
  }

  // ----- a push below the stack ---------------------------------------------------------------

  /** A function that pushes a constant without a check.  On a stack with room for its frame
      and for nothing else, the interpreter raises StackOverflow in it, and the compiled
      function writes below the stack. */
  lemma {:induction false} PushBelowStack(w: World, m: R.Mem)
    requires m.stack == [0, 0] && m.heap == map[16 := Obj(0, [8])]
    ensures var body, s := [Const(1)], Caller(m, 2);
      var p, cs := ProgramOf(body), RegionOf(body);
      && IsRegion(p, cs) && Agree(s, m)
      && OverranNatively(s, CallRun(p, Stepping(Framed, p, w), s, 16, 0, 1))
      && R.Dispatch(R.Emitted(p, cs, w, false), 8, m, 2, 16, 2).Undefined?
  {
    IsSampleRegion([Const(1)]);
    InterpOverruns(w, m);
    CompiledOverruns(w, m);
  }

  lemma {:induction false} InterpOverruns(w: World, m: R.Mem)
    requires m.stack == [0, 0] && m.heap == map[16 := Obj(0, [8])]
    ensures OverranNatively(Caller(m, 2), CallRun(ProgramOf([Const(1)]), Stepping(Framed, ProgramOf([Const(1)]), w), Caller(m, 2), 16, 0, 1))
  {
    var p := ProgramOf([Const(1)]);
    var s' := DoCall(p, Caller(m, 2), true, 16, 0).value.s;
    assert s'.core.sp == 0 && Fetch(p, s') == Some(Fetched(Const(1), 1));
    assert Step(Framed, p, w, s') == Some(Overrun(s'));
  }

  lemma {:induction false} CompiledOverruns(w: World, m: R.Mem)
    requires m.stack == [0, 0] && m.heap == map[16 := Obj(0, [8])]
    ensures R.Dispatch(R.Emitted(ProgramOf([Const(1)]), RegionOf([Const(1)]), w, false), 8, m, 2, 16, 2).Undefined?
  {
    var m1 := R.EnterFrame(m, 2, 16).value;
    assert R.Lower(w, Const(1), m1, 0).None?;
    assert Pieces([Const(1)], 0)[0] == R.Straight(Const(1));
  }
}
