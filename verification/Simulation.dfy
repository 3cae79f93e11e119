/** Region compilation preserves meaning: whatever the interpreter does with a call, the
    compiled region does, native calls and all, without ever keeping a return address. */
module Simulation {
  import opened Basics
  import opened Words
  import opened Arith
  import opened Machine
  import opened Instr
  import opened Interp
  import opened RetPc
  import opened Trampoline
  import opened Lowering
  import opened Compile
  import Typing
  import R = Region

  // ----- the region ----------------------------------------------------------------

  /** Every native call in a piece list goes to a function of the region. */
  predicate CallsInside(cs: map<Word, R.Compiled>, code: seq<R.Piece>) {
    forall i :: 0 <= i < |code| && code[i].CallNative? ==> code[i].callee in cs
  }

  predicate FunctionOk(p: Program, cs: map<Word, R.Compiled>, f: Word)
    requires f in cs
  {
    && f in p.funcs && Decodes(p.funcs[f]) && IsCompiled(p.codeOf, p.funcs[f], cs[f])
    && CallsInside(cs, cs[f].entry)
    && forall o :: o in cs[f].blocks ==> CallsInside(cs, cs[f].blocks[o])
  }

  /** `cs` is the compiled region: all its functions compiled, all its static callees in it. */
  ghost predicate IsRegion(p: Program, cs: map<Word, R.Compiled>) {
    SmallCode(p) && forall f {:trigger FunctionOk(p, cs, f)} :: f in cs ==> FunctionOk(p, cs, f)
  }

  /** No collection happens. */
  ghost predicate Quiet(w: World) {
    && (forall n :: w.allocGc(n) == None)
    && (forall n :: w.pollGc(n) == None)
  }

  function TailAt(p: Program, s: State): Code
    requires s.code in p.funcs && Decodes(p.funcs[s.code])
  {
    Tail(p.codeOf, p.funcs[s.code], BlockStarts(p.funcs[s.code]), s.pc)
  }

  function OnwardAt(p: Program, s: State): Code
    requires s.code in p.funcs && Decodes(p.funcs[s.code])
  {
    Onward(p.codeOf, p.funcs[s.code], BlockStarts(p.funcs[s.code]), s.pc)
  }

  // ----- the relation ------------------------------------------------------------------

  function CoreOf(m: R.Mem, sp: nat): Core { Core(m.stack, sp, m.heap, m.allocs) }

  /** The compiled code's memory agrees with the interpreter's, return addresses aside. */
  ghost predicate Agree(s: State, m: R.Mem) {
    FramesOk(s) && Alike(s.core, CoreOf(m, s.core.sp), Slots(s.frames))
  }

  /** Native allocation failure shows as StackOverflow, the trampoline's as Overflow;
      every other exception shows as itself. */
  predicate Shows(exn: Exn, packet: Option<Exn>) {
    packet.Some? &&
    if exn == HeapExhausted then packet.value in {StackOverflow, Exn.Overflow} else packet.value == exn
  }

  /** The compiled call raises what the interpreter raised in `s`. */
  ghost predicate Raises(handlerSp: int, s: State, exn: Exn, e: R.Exit) {
    && e.Returned? && e.raised && e.newSp == handlerSp == e.m.ctx.handlerSp
    && Shows(exn, e.m.ctx.packet)
    && e.at <= s.core.sp && AlikeAbove(s.core, CoreOf(e.m, s.core.sp), Slots(s.frames))
  }

  /** The compiled call ends as the interpreter's does, given the handler's stack pointer
      in the context. */
  ghost predicate Mirrors(handlerSp: int, r: Interp.Run, e: R.Exit) {
    match r
    case Done(s, _) =>
      && e.Returned? && !e.raised && e.newSp == s.core.sp && e.at == e.newSp
      && Agree(s, e.m) && e.m.ctx.handlerSp == handlerSp
    case Escaped(s, exn) => Raises(handlerSp, s, exn, e)
    case Overran(s) => Raises(handlerSp, s, StackOverflow, e)
    case _ => true
  }

  /** All frames from place `from` on are those of native calls. */
  predicate AllNative(frames: seq<Frame>, from: nat) {
    forall i :: from <= i < |frames| ==> frames[i].native
  }

  /** What becomes of the compiled call: where the interpreter's push finds the stack full
      in code that runs natively, the compiled push, which makes no check, writes below
      the stack; otherwise the two end alike. */
  ghost predicate Matches(handlerSp: int, from: nat, r: Interp.Run, e: R.Exit) {
    if r.Overran? && AllNative(r.s.frames, from) then e.Undefined? else Mirrors(handlerSp, r, e)
  }

  // ----- one instruction -----------------------------------------------------------------

  lemma UntagsAlike(ins: Instr, a: Core, b: Core, x: set<int>)
    requires Alike(a, b, x) && Untouched(ins, a.sp, x) && UntagsInts(ins, a)
    ensures UntagsInts(ins, b)
  {
  }

  lemma TypedAlike(l: Layout, ins: Instr, a: Core, b: Core, x: set<int>)
    requires Alike(a, b, x) && Untouched(ins, a.sp, x)
    requires Typing.TypedIns(l, ins, a.stack, a.sp, a.heap)
    ensures Typing.TypedIns(l, ins, b.stack, b.sp, b.heap)
  {
  }

  /** A lowered instruction from related memories. */
  lemma StraightSimulates(w: World, s: State, m: R.Mem, ins: Instr)
    requires Agree(s, m) && Quiet(w) && StraightLine(ins)
    requires UntagsInts(ins, s.core) && LeavesFrames(ins, s) && Exec(w, ins, s.core).Some?
    ensures var e, low := Exec(w, ins, s.core).value, R.Lower(w, ins, m, s.core.sp);
      && (low.Some? <==> !e.NoRoom?)
      && match e
         case Next(c) =>
           && low.value.Cont? && low.value.sp == c.sp
           && Agree(s.(core := c), low.value.m) && low.value.m.ctx.handlerSp == m.ctx.handlerSp
         case Raise(c, exn) =>
           && low.value.Raised? && low.value.m.ctx.handlerSp == m.ctx.handlerSp
           && Shows(exn, low.value.m.ctx.packet) && s.core.sp <= c.sp
           && AlikeAbove(c, CoreOf(low.value.m, c.sp), Slots(s.frames))
         case NoRoom => true
         case JumpTo(_, _) => false
  {
    var x, b := Slots(s.frames), CoreOf(m, s.core.sp);
    DisciplineUntouched(ins, s, x);
    ExecAlike(w, ins, s.core, b, x);
    UntagsAlike(ins, s.core, b, x);
    LoweringIsInterp(w, ins, b, m);
    EffectAgrees(s, m, Exec(w, ins, s.core).value, Exec(w, ins, b).value, R.Lower(w, ins, m, s.core.sp));
  }

  lemma EffectAgrees(s: State, m: R.Mem, e: Effect, e': Effect, low: Option<R.Low>)
    requires Agree(s, m) && AlikeEffects(s.core, e, e', Slots(s.frames)) && Agrees(e', m, low)
    ensures (low.Some? <==> !e.NoRoom?) && !e.JumpTo?
    ensures e.Next? ==>
      && low.value.Cont? && low.value.sp == e.c.sp
      && Agree(s.(core := e.c), low.value.m) && low.value.m.ctx.handlerSp == m.ctx.handlerSp
    ensures e.Raise? ==>
      && low.value.Raised? && low.value.m.ctx.handlerSp == m.ctx.handlerSp
      && Shows(e.exn, low.value.m.ctx.packet) && s.core.sp <= e.c.sp
      && AlikeAbove(e.c, CoreOf(low.value.m, e.c.sp), Slots(s.frames))
  {
    if e.Next? {
      KeptFrames(s, e.c);
    }
  }

  /** The interpreter's effect `e` is what the emitted jump or test comes to. */
  ghost predicate Decides(f: Fetched, e: Effect, m: R.Mem, sp: nat) {
    && !e.Raise? && !e.NoRoom?
    && if f.ins.Jump? || f.ins.JumpBack? then e.JumpTo? && e.target == f.ins.target && e.c.sp == sp
       else
         && R.BranchTest(f.ins, m, sp) == Some(if e.JumpTo? then R.Taken(e.c.sp) else R.Fall(e.c.sp))
         && (e.JumpTo? ==> JumpTarget(f.ins) == Some(e.target))
  }

  /** The emitted test decides as the interpreter does. */
  lemma BranchIsInterp(w: World, f: Fetched, b: Core, m: R.Mem)
    requires EndsBlock(f.ins) && !f.ins.Return? && m.stack == b.stack && m.heap == b.heap && m.allocs == b.allocs
    requires Exec(w, f.ins, b).Some?
    ensures var e := Exec(w, f.ins, b).value;
      && Decides(f, e, m, b.sp)
      && e.c.stack == b.stack && e.c.heap == b.heap && e.c.allocs == b.allocs
  {
    TaggedBools();
    if f.ins.JumpNeqLocal? && Peek(b, f.ins.k).Some? {
      var v := Peek(b, f.ins.k).value;
      var u := if f.ins.indirect then ReadWord(b.heap, v, 0) else Some(v);
      if u.Some? {
        WantedTag(u.value, f.ins.want);
      }
    }
  }

  /** Being tagged with a given payload is being that tagged word. */
  lemma WantedTag(u: Word, want: Byte)
    ensures (IsTagged(u) && Payload(u) == want) <==> u == Tagged(want)
  {
    TaggedRoundTrip(want);
    if IsTagged(u) {
      UntagReadsPayload(u);
    }
  }

  /** A jump or branch from related memories. */
  lemma JumpSimulates(w: World, s: State, m: R.Mem, f: Fetched)
    requires Agree(s, m) && EndsBlock(f.ins) && !f.ins.Return?
    requires LeavesFrames(f.ins, s) && Exec(w, f.ins, s.core).Some?
    ensures var e := Exec(w, f.ins, s.core).value;
      Decides(f, e, m, s.core.sp) && Agree(s.(core := e.c), m)
  {
    var x, b := Slots(s.frames), CoreOf(m, s.core.sp);
    DisciplineUntouched(f.ins, s, x);
    ExecAlike(w, f.ins, s.core, b, x);
    BranchIsInterp(w, f, b, m);
    KeptFrames(s, Exec(w, f.ins, s.core).value.c);
  }

  // ----- frames ----------------------------------------------------------------------

  lemma ReturnSimulates(s: State, m: R.Mem, n: nat)
    requires Agree(s, m) && ReturnInPlace(s, n) && DoReturn(s, n).Some?
    ensures DoReturn(s, n).value.Continue?
    ensures var s' := DoReturn(s, n).value.s;
      && |s'.frames| == |s.frames| - 1 && s'.core.sp == s.core.sp + n + 2
      && s.core.sp + n + 2 < |m.stack|
      && Agree(s', m.(stack := m.stack[s.core.sp + n + 2 := m.stack[s.core.sp]]))
  {
    ReturnKeepsFrames(s, n);
    var s' := DoReturn(s, n).value.s;
    var last := |s.frames| - 1;
    assert s.core.sp !in Slots(s.frames);
    SlotsMonotone(s.frames, last);
    assert s'.frames == s.frames[..last];
    assert s.frames == s.frames[..last] + [s.frames[last]];
    assert Slots(s.frames) == Slots(s'.frames) + {s.core.sp + 2};
  }

  lemma EnterSimulates(p: Program, s: State, m: R.Mem, native: bool, closure: Word, next: nat)
    requires Agree(s, m) && DoCall(p, s, native, closure, next).Some? && DoCall(p, s, native, closure, next).value.Continue?
    requires next < MODULUS
    ensures var s' := DoCall(p, s, native, closure, next).value.s;
      && s.core.sp >= 2 && s'.core.sp == s.core.sp - 2
      && s'.frames == s.frames + [Frame(s.code, s.core.sp - 1, next, native)]
      && R.EnterFrame(m, s.core.sp, closure).Some?
      && Agree(s', R.EnterFrame(m, s.core.sp, closure).value)
      && R.EnterFrame(m, s.core.sp, closure).value.ctx == m.ctx
  {
    CallKeepsFrames(p, s, native, closure, next);
    var s' := DoCall(p, s, native, closure, next).value.s;
    assert Slots(s'.frames) == Slots(s.frames) + {s.core.sp - 1};
  }

  // ----- what each instruction must satisfy ---------------------------------------------

  ghost predicate Straightens(env: R.Env, s: State, m: R.Mem, f: Fetched, r: StepResult) {
    var low := env.lower(f.ins, m, s.core.sp);
    && env.admits(R.Straight(f.ins), m, s.core.sp) && (low.Some? <==> !r.Overrun?)
    && match r
       case Continue(s') =>
         && s' == s.(core := s'.core, pc := f.next)
         && low.value.Cont? && low.value.sp == s'.core.sp
         && Agree(s', low.value.m) && low.value.m.ctx.handlerSp == m.ctx.handlerSp
       case Escape(s', exn) =>
         && s'.frames == s.frames
         && low.value.Raised? && low.value.m.ctx.handlerSp == m.ctx.handlerSp
         && Shows(exn, low.value.m.ctx.packet) && s.core.sp <= s'.core.sp
         && AlikeAbove(s'.core, CoreOf(low.value.m, s'.core.sp), Slots(s'.frames))
       case Overrun(s') => s' == s
  }

  ghost predicate Jumps(env: R.Env, s: State, m: R.Mem, f: Fetched, r: StepResult) {
    && r.Continue? && r.s == s.(core := r.s.core, pc := r.s.pc)
    && Agree(r.s, m)
    && if f.ins.Jump? then
         r.s.pc == f.ins.target && r.s.core.sp == s.core.sp
       else if f.ins.JumpBack? then
         && r.s.pc == f.ins.target && r.s.core.sp == s.core.sp
         && env.admits(R.PollGoto(f.ins.target), m, s.core.sp)
         && env.poll(m, s.core.sp) == Some(m.(polls := m.polls + 1))
       else
         && (forall t, n :: env.admits(R.Branch(f.ins, t, n), m, s.core.sp))
         && var b, t := env.test(f.ins, m, s.core.sp), JumpTarget(f.ins);
           && b.Some? && b.value.sp == r.s.core.sp
           && t.Some? && r.s.pc == if b.value.Taken? then t.value else f.next
  }

  ghost predicate Returns(env: R.Env, s: State, m: R.Mem, n: nat, r: StepResult) {
    && r.Continue? && |r.s.frames| == |s.frames| - 1 && r.s.core.sp == s.core.sp + n + 2
    && env.admits(R.Ret(n), m, s.core.sp)
    && s.core.sp + n + 2 < |m.stack|
    && Agree(r.s, m.(stack := m.stack[s.core.sp + n + 2 := m.stack[s.core.sp]]))
  }

  ghost predicate Enters(m: R.Mem, s: State, f: Fetched, native: bool, sp: int, closure: Word, r: StepResult) {
    && r.Continue? && r.s.pc == 0 && sp >= 2
    && |r.s.frames| == |s.frames| + 1 && r.s.frames[..|s.frames|] == s.frames
    && r.s.frames[|s.frames|].caller == s.code && r.s.frames[|s.frames|].resume == f.next
    && r.s.frames[|s.frames|].native == native
    && r.s.core.sp == sp - 2
    && R.EnterFrame(m, sp, closure).Some?
    && Agree(r.s, R.EnterFrame(m, sp, closure).value)
    && R.EnterFrame(m, sp, closure).value.ctx == m.ctx
  }

  ghost predicate CallsNative(p: Program, env: R.Env, s: State, m: R.Mem, f: Fetched, closure: Word, r: StepResult) {
    && closure in p.codeOf && env.admits(R.CallNative(p.codeOf[closure], closure), m, s.core.sp)
    && if r.Overrun? then r.s == s && R.EnterFrame(m, s.core.sp, closure).None?
       else Enters(m, s, f, true, s.core.sp, closure, r) && r.s.code == p.codeOf[closure]
  }

  /** The trampoline ends as the interpreter's own run of the callee does. */
  ghost predicate CallsDynamic(step: Stepper, env: R.Env, s: State, m: R.Mem, f: Fetched, popTop: bool, depth: nat,
                               r: StepResult) {
    var at, sp := if popTop then s.core.sp else s.core.sp + depth, if popTop then s.core.sp + 1 else s.core.sp;
    && at < |m.stack| && env.admits(R.CallDynamic(popTop, depth), m, s.core.sp)
    && if r.Escape? then r.s.frames == s.frames && AlwaysRaises(env, r.s, r.exn, m, sp, m.stack[at])
       else Enters(m, s, f, false, sp, m.stack[at], r) && AlwaysEnds(step, env, r.s, m, sp, m.stack[at])
  }

  ghost predicate AlwaysEnds(step: Stepper, env: R.Env, s': State, m: R.Mem, sp: int, closure: Word) {
    forall n: nat, fuel: nat :: InterpEnds(step, env, s', m, sp, closure, n, fuel)
  }

  ghost predicate InterpEnds(step: Stepper, env: R.Env, s': State, m: R.Mem, sp: int, closure: Word, n: nat, fuel: nat) {
    n <= fuel ==>
      Mirrors(m.ctx.handlerSp, RunFrom(step, s', |s'.frames|, n), AsCaller(env.interp(m, sp, closure, fuel)))
  }

  /** The trampoline reports at once what the interpreter raised at the call. */
  ghost predicate AlwaysRaises(env: R.Env, s: State, exn: Exn, m: R.Mem, sp: int, closure: Word) {
    forall fuel: nat :: Raises(m.ctx.handlerSp, s, exn, AsCaller(env.interp(m, sp, closure, fuel)))
  }

  /** The result of a callee as its caller passes it on. */
  function AsCaller(e: R.Exit): R.Exit {
    if e.Returned? && e.raised then e.(newSp := e.m.ctx.handlerSp) else e
  }

  /** The instruction at `s`, with step result `r`, does in the compiled code what it does
      in the interpreter. */
  ghost predicate InsSimulates(p: Program, step: Stepper, env: R.Env, s: State, m: R.Mem, f: Fetched, r: StepResult) {
    if f.ins.Return? then Returns(env, s, m, f.ins.n, r)
    else if f.ins.CallConst? then CallsNative(p, env, s, m, f, f.ins.closure, r)
    else if f.ins.CallClosure? then CallsDynamic(step, env, s, m, f, true, 0, r)
    else if f.ins.CallLocal? then CallsDynamic(step, env, s, m, f, false, f.ins.k, r)
    else if EndsBlock(f.ins) then Jumps(env, s, m, f, r)
    else Straightens(env, s, m, f, r)
  }

  ghost predicate SimulatesAt(p: Program, step: Stepper, env: R.Env, s: State, m: R.Mem) {
    Agree(s, m) && s.frames != [] && step(s).Some? ==>
      Fetch(p, s).Some? && InsSimulates(p, step, env, s, m, Fetch(p, s).value, step(s).value)
  }

  ghost predicate AllSimulate(p: Program, step: Stepper, env: R.Env) {
    && (forall t, m, sp :: env.admits(R.Goto(t), m, sp))
    && (forall s, m: R.Mem :: SimulatesAt(p, step, env, s, m))
  }

  // ----- whole runs ---------------------------------------------------------------------

  /** From a block boundary on, the compiled function ends as the interpreter's run of the
      active frame does. */
  lemma {:induction false} RunSimulates(p: Program, step: Stepper, env: R.Env, s: State, m: R.Mem,
                                        code: seq<R.Piece>, n: nat, fuel: nat)
    requires IsRegion(p, env.cs) && KeepsFrames(step) && AllSimulate(p, step, env)
    requires s.code in env.cs && Agree(s, m) && s.frames != []
    requires s.code in p.funcs && Decodes(p.funcs[s.code])
    requires TailAt(p, s) == Ok(code) && CallsInside(env.cs, code) && fuel >= 2 * n
    ensures Matches(m.ctx.handlerSp, |s.frames|, RunFrom(step, s, |s.frames|, n), R.Run(env, s.code, code, m, s.core.sp, fuel))
    decreases n, 2
  {
    if n > 0 && step(s).Some? {
      FetchedAt(p, step, env, s, m);
      var f := Fetch(p, s).value;
      if IsCall(f.ins) {
        CallOn(p, step, env, s, m, f, code, n, fuel);
      } else if f.ins.Return? {
        ReturnOn(p, step, env, s, m, f, code, n, fuel);
      } else if EndsBlock(f.ins) {
        JumpOn(p, step, env, s, m, f, code, n, fuel);
      } else {
        StraightOn(p, step, env, s, m, f, code, n, fuel);
      }
    }
  }

  lemma FetchedAt(p: Program, step: Stepper, env: R.Env, s: State, m: R.Mem)
    requires AllSimulate(p, step, env) && Agree(s, m) && s.frames != [] && step(s).Some?
    ensures Fetch(p, s).Some?
  {
    assert SimulatesAt(p, step, env, s, m);
  }

  lemma {:induction false} ReturnOn(p: Program, step: Stepper, env: R.Env, s: State, m: R.Mem, f: Fetched,
                 code: seq<R.Piece>, n: nat, fuel: nat)
    requires AllSimulate(p, step, env) && s.code in env.cs && Agree(s, m) && s.frames != []
    requires s.code in p.funcs && Decodes(p.funcs[s.code])
    requires TailAt(p, s) == Ok(code) && n > 0
    requires Fetch(p, s) == Some(f) && f.ins.Return?
    requires step(s).Some?
    ensures Matches(m.ctx.handlerSp, |s.frames|, RunFrom(step, s, |s.frames|, n), R.Run(env, s.code, code, m, s.core.sp, fuel))
  {
    assert SimulatesAt(p, step, env, s, m);
    assert RunFrom(step, s, |s.frames|, n) == Done(step(s).value.s, n - 1);
  }

  lemma {:induction false} StraightOn(p: Program, step: Stepper, env: R.Env, s: State, m: R.Mem, f: Fetched,
                                      code: seq<R.Piece>, n: nat, fuel: nat)
    requires IsRegion(p, env.cs) && KeepsFrames(step) && AllSimulate(p, step, env)
    requires s.code in env.cs && Agree(s, m) && s.frames != []
    requires s.code in p.funcs && Decodes(p.funcs[s.code])
    requires TailAt(p, s) == Ok(code) && CallsInside(env.cs, code) && fuel >= 2 * n && n > 0
    requires Fetch(p, s) == Some(f) && !EndsBlock(f.ins) && !IsCall(f.ins)
    requires step(s).Some?
    ensures Matches(m.ctx.handlerSp, |s.frames|, RunFrom(step, s, |s.frames|, n), R.Run(env, s.code, code, m, s.core.sp, fuel))
    decreases n, 0
  {
    assert SimulatesAt(p, step, env, s, m);
    var r := step(s).value;
    if r.Continue? {
      OnwardSimulates(p, step, env, r.s, env.lower(f.ins, m, s.core.sp).value.m, code[1..], n - 1, fuel);
    }
  }

  function Polled(ins: Instr, m: R.Mem): R.Mem {
    if ins.JumpBack? then m.(polls := m.polls + 1) else m
  }

  lemma {:induction false} JumpRuns(env: R.Env, fun: Word, s: State, m: R.Mem, f: Fetched, r: StepResult, fuel: nat)
    requires fun in env.cs && (forall t, m, sp :: env.admits(R.Goto(t), m, sp))
    requires EndsBlock(f.ins) && !f.ins.Return? && Terminator(env.cs[fun].blocks.Keys, f).Ok?
    requires Jumps(env, s, m, f, r) && fuel > 0
    ensures r.s.pc in env.cs[fun].blocks
    ensures R.Run(env, fun, [Terminator(env.cs[fun].blocks.Keys, f).value], m, s.core.sp, fuel)
      == R.Run(env, fun, env.cs[fun].blocks[r.s.pc], Polled(f.ins, m), r.s.core.sp, fuel - 1)
  {
  }

  lemma {:induction false} JumpOn(p: Program, step: Stepper, env: R.Env, s: State, m: R.Mem, f: Fetched,
                                  code: seq<R.Piece>, n: nat, fuel: nat)
    requires IsRegion(p, env.cs) && KeepsFrames(step) && AllSimulate(p, step, env)
    requires s.code in env.cs && Agree(s, m) && s.frames != []
    requires s.code in p.funcs && Decodes(p.funcs[s.code])
    requires TailAt(p, s) == Ok(code) && fuel >= 2 * n && n > 0
    requires Fetch(p, s) == Some(f) && EndsBlock(f.ins) && !f.ins.Return?
    requires step(s).Some?
    ensures Matches(m.ctx.handlerSp, |s.frames|, RunFrom(step, s, |s.frames|, n), R.Run(env, s.code, code, m, s.core.sp, fuel))
    decreases n, 0
  {
    JumpBegins(p, step, env, s, m, f, code, fuel);
    var s' := step(s).value.s;
    RunSimulates(p, step, env, s', Polled(f.ins, m), env.cs[s.code].blocks[s'.pc], n - 1, fuel - 1);
  }

  /** What the jump does: the block it leads to, with the code that block must hold. */
  lemma {:induction false} JumpBegins(p: Program, step: Stepper, env: R.Env, s: State, m: R.Mem, f: Fetched,
                                      code: seq<R.Piece>, fuel: nat)
    requires IsRegion(p, env.cs) && AllSimulate(p, step, env)
    requires s.code in env.cs && Agree(s, m) && s.frames != [] && s.code in p.funcs && Decodes(p.funcs[s.code])
    requires TailAt(p, s) == Ok(code) && fuel > 0
    requires Fetch(p, s) == Some(f) && EndsBlock(f.ins) && !f.ins.Return? && step(s).Some?
    ensures step(s).value.Continue?
    ensures var s' := step(s).value.s;
      && s'.code == s.code && s'.frames == s.frames && Agree(s', Polled(f.ins, m))
      && s'.pc in env.cs[s.code].blocks && TailAt(p, s') == Ok(env.cs[s.code].blocks[s'.pc])
      && CallsInside(env.cs, env.cs[s.code].blocks[s'.pc])
      && R.Run(env, s.code, code, m, s.core.sp, fuel)
        == R.Run(env, s.code, env.cs[s.code].blocks[s'.pc], Polled(f.ins, m), s'.core.sp, fuel - 1)
  {
    assert SimulatesAt(p, step, env, s, m);
    assert FunctionOk(p, env.cs, s.code);
    JumpRuns(env, s.code, s, m, f, step(s).value, fuel);
  }

  /** The same from the middle of a block, where a jump may lead to the next block. */
  lemma {:induction false} OnwardSimulates(p: Program, step: Stepper, env: R.Env, s: State, m: R.Mem,
                                           code: seq<R.Piece>, n: nat, fuel: nat)
    requires IsRegion(p, env.cs) && KeepsFrames(step) && AllSimulate(p, step, env)
    requires s.code in env.cs && Agree(s, m) && s.frames != []
    requires s.code in p.funcs && Decodes(p.funcs[s.code])
    requires OnwardAt(p, s) == Ok(code) && CallsInside(env.cs, code) && fuel >= 2 * n + 1
    ensures Matches(m.ctx.handlerSp, |s.frames|, RunFrom(step, s, |s.frames|, n), R.Run(env, s.code, code, m, s.core.sp, fuel))
    decreases n, 3
  {
    assert FunctionOk(p, env.cs, s.code);
    if s.pc in BlockStarts(p.funcs[s.code]) {
      RunSimulates(p, step, env, s, m, env.cs[s.code].blocks[s.pc], n, fuel - 1);
    } else {
      RunSimulates(p, step, env, s, m, code, n, fuel);
    }
  }

  /** The caller after a call: the rest of its block, unless the callee raised. */
  function AfterCall(env: R.Env, fun: Word, rest: seq<R.Piece>, e: R.Exit, fuel: nat): R.Exit {
    if !e.Returned? then e
    else if e.raised then R.Returned(e.m, e.m.ctx.handlerSp, true, e.at)
    else R.Run(env, fun, rest, e.m, e.newSp, fuel)
  }

  lemma {:induction false} AfterCallSimulates(p: Program, step: Stepper, env: R.Env, s: State, s': State, handlerSp: int,
                                              e: R.Exit, rest: seq<R.Piece>, next: nat, n: nat, fuel: nat)
    requires IsRegion(p, env.cs) && KeepsFrames(step) && AllSimulate(p, step, env)
    requires s.code in env.cs && s.frames != []
    requires s.code in p.funcs && Decodes(p.funcs[s.code])
    requires OnwardAt(p, s.(pc := next)) == Ok(rest) && CallsInside(env.cs, rest) && fuel >= 2 * n + 1
    requires FramesOk(s') && |s'.frames| == |s.frames| + 1 && s'.frames[..|s.frames|] == s.frames
    requires s'.frames[|s.frames|].caller == s.code && s'.frames[|s.frames|].resume == next
    requires Matches(handlerSp, |s.frames|, RunFrom(step, s', |s'.frames|, n), e)
    ensures Matches(handlerSp, |s.frames|, RunFrom(step, s', |s.frames|, n), AfterCall(env, s.code, rest, e, fuel))
    decreases n, 4
  {
    var base := |s'.frames|;
    var r := RunFrom(step, s', base, n);
    RunSplits(step, s', |s.frames|, base, n);
    if r.Done? {
      RunEndsAtCaller(step, s', base, n);
      OnwardSimulates(p, step, env, r.s, e.m, rest, r.left, fuel);
    }
  }

  /** A call, native or through the trampoline, and the rest of the caller after it. */
  lemma {:induction false} CallOn(p: Program, step: Stepper, env: R.Env, s: State, m: R.Mem, f: Fetched,
                                  code: seq<R.Piece>, n: nat, fuel: nat)
    requires IsRegion(p, env.cs) && KeepsFrames(step) && AllSimulate(p, step, env)
    requires s.code in env.cs && Agree(s, m) && s.frames != []
    requires s.code in p.funcs && Decodes(p.funcs[s.code])
    requires TailAt(p, s) == Ok(code) && CallsInside(env.cs, code) && fuel >= 2 * n && n > 0
    requires Fetch(p, s) == Some(f) && IsCall(f.ins)
    requires step(s).Some?
    ensures Matches(m.ctx.handlerSp, |s.frames|, RunFrom(step, s, |s.frames|, n), R.Run(env, s.code, code, m, s.core.sp, fuel))
    decreases n, 1
  {
    InnerCode(p, env.cs, s, f, code);
    match f.ins {
      case CallConst(closure) => NativeOn(p, step, env, s, m, f, code, n, fuel);
      case CallClosure => DynamicOn(p, step, env, s, m, f, true, 0, code, n, fuel);
      case CallLocal(k) => DynamicOn(p, step, env, s, m, f, false, k, code, n, fuel);
    }
  }

  /** The code of an instruction inside a block, and of what follows it. */
  lemma {:induction false} InnerCode(p: Program, cs: map<Word, R.Compiled>, s: State, f: Fetched, code: seq<R.Piece>)
    requires s.code in p.funcs && Decodes(p.funcs[s.code])
    requires TailAt(p, s) == Ok(code) && CallsInside(cs, code) && Fetch(p, s) == Some(f) && !EndsBlock(f.ins)
    ensures code != [] && Inner(p.codeOf, s.pc, f.ins) == Ok(code[0])
    ensures OnwardAt(p, s.(pc := f.next)) == Ok(code[1..]) && CallsInside(cs, code[1..])
  {
  }

  lemma {:induction false} NativeOn(p: Program, step: Stepper, env: R.Env, s: State, m: R.Mem, f: Fetched,
                                    code: seq<R.Piece>, n: nat, fuel: nat)
    requires IsRegion(p, env.cs) && KeepsFrames(step) && AllSimulate(p, step, env)
    requires s.code in env.cs && Agree(s, m) && s.frames != []
    requires s.code in p.funcs && Decodes(p.funcs[s.code])
    requires Fetch(p, s) == Some(f) && f.ins.CallConst?
    requires code != [] && Inner(p.codeOf, s.pc, f.ins) == Ok(code[0]) && CallsInside(env.cs, code) && fuel >= 2 * n && n > 0
    requires OnwardAt(p, s.(pc := f.next)) == Ok(code[1..])
    requires step(s).Some?
    ensures Matches(m.ctx.handlerSp, |s.frames|, RunFrom(step, s, |s.frames|, n), R.Run(env, s.code, code, m, s.core.sp, fuel))
    decreases n, 0
  {
    NativeBegins(p, step, env, s, m, f, code, fuel);
    if step(s).value.Continue? {
      var s', callee := step(s).value.s, p.codeOf[f.ins.closure];
      var m1 := R.EnterFrame(m, s.core.sp, f.ins.closure).value;
      var e := R.Call(env, callee, m1, s.core.sp - 2, fuel - 1);
      RunSimulates(p, step, env, s', m1, env.cs[callee].entry, n - 1, fuel - 1);
      NativeAfter(p, step, env, s, s', m.ctx.handlerSp, e, code[1..], f.next, n - 1, fuel);
    }
  }

  lemma {:induction false} NativeAfter(p: Program, step: Stepper, env: R.Env, s: State, s': State, handlerSp: int,
                                       e: R.Exit, rest: seq<R.Piece>, next: nat, n: nat, fuel: nat)
    requires IsRegion(p, env.cs) && KeepsFrames(step) && AllSimulate(p, step, env)
    requires s.code in env.cs && s.frames != []
    requires s.code in p.funcs && Decodes(p.funcs[s.code])
    requires OnwardAt(p, s.(pc := next)) == Ok(rest) && CallsInside(env.cs, rest) && fuel >= 2 * n + 1
    requires FramesOk(s') && |s'.frames| == |s.frames| + 1 && s'.frames[..|s.frames|] == s.frames
    requires s'.frames[|s.frames|].caller == s.code && s'.frames[|s.frames|].resume == next && s'.frames[|s.frames|].native
    requires Matches(handlerSp, |s'.frames|, RunFrom(step, s', |s'.frames|, n), e)
    ensures Matches(handlerSp, |s.frames|, RunFrom(step, s', |s.frames|, n), AfterCall(env, s.code, rest, e, fuel))
    decreases n, 5
  {
    NativeBelow(step, s', handlerSp, e, n);
    AfterCallSimulates(p, step, env, s, s', handlerSp, e, rest, next, n, fuel);
  }

  /** What the call does: the frame, the callee, and what is left to the caller. */
  lemma {:induction false} NativeBegins(p: Program, step: Stepper, env: R.Env, s: State, m: R.Mem, f: Fetched,
                                        code: seq<R.Piece>, fuel: nat)
    requires IsRegion(p, env.cs) && AllSimulate(p, step, env)
    requires s.code in env.cs && Agree(s, m) && s.frames != [] && step(s).Some?
    requires Fetch(p, s) == Some(f) && f.ins.CallConst?
    requires code != [] && Inner(p.codeOf, s.pc, f.ins) == Ok(code[0]) && CallsInside(env.cs, code) && fuel > 0
    ensures f.ins.closure in p.codeOf && p.codeOf[f.ins.closure] in env.cs
    ensures var callee := p.codeOf[f.ins.closure];
      match step(s).value
      case Continue(s') =>
        && Enters(m, s, f, true, s.core.sp, f.ins.closure, step(s).value) && s'.code == callee
        && callee in p.funcs && Decodes(p.funcs[callee])
        && TailAt(p, s') == Ok(env.cs[callee].entry) && CallsInside(env.cs, env.cs[callee].entry)
        && R.Run(env, s.code, code, m, s.core.sp, fuel) == AfterCall(env, s.code, code[1..],
             R.Call(env, callee, R.EnterFrame(m, s.core.sp, f.ins.closure).value, s.core.sp - 2, fuel - 1), fuel)
      case Overrun(s') => s' == s && R.Run(env, s.code, code, m, s.core.sp, fuel).Undefined?
      case Escape(_, _) => false
  {
    assert SimulatesAt(p, step, env, s, m);
    var callee := p.codeOf[f.ins.closure];
    assert code[0] == R.CallNative(callee, f.ins.closure);
    assert FunctionOk(p, env.cs, callee);
  }

  /** Below a native callee it is for the caller to be native too. */
  lemma {:induction false} NativeBelow(step: Stepper, s': State, handlerSp: int, e: R.Exit, n: nat)
    requires KeepsFrames(step) && FramesOk(s') && s'.frames != [] && s'.frames[|s'.frames| - 1].native
    requires Matches(handlerSp, |s'.frames|, RunFrom(step, s', |s'.frames|, n), e)
    ensures Matches(handlerSp, |s'.frames| - 1, RunFrom(step, s', |s'.frames|, n), e)
  {
    var r, k := RunFrom(step, s', |s'.frames|, n), |s'.frames|;
    if r.Overran? {
      RunKeepsBelow(step, s', k, n);
      assert r.s.frames[k - 1] == r.s.frames[..k][k - 1];
    }
  }

  /** Under the trampoline nothing runs natively. */
  lemma {:induction false} DynamicBelow(step: Stepper, s': State, handlerSp: int, e: R.Exit, n: nat)
    requires KeepsFrames(step) && FramesOk(s') && s'.frames != [] && !s'.frames[|s'.frames| - 1].native
    requires Mirrors(handlerSp, RunFrom(step, s', |s'.frames|, n), e)
    ensures Matches(handlerSp, |s'.frames| - 1, RunFrom(step, s', |s'.frames|, n), e)
  {
    var r, k := RunFrom(step, s', |s'.frames|, n), |s'.frames|;
    if r.Overran? {
      RunKeepsBelow(step, s', k, n);
      assert !r.s.frames[k - 1].native by {
        assert r.s.frames[k - 1] == r.s.frames[..k][k - 1];
      }
    }
  }

  lemma {:induction false} DynamicOn(p: Program, step: Stepper, env: R.Env, s: State, m: R.Mem, f: Fetched,
                                     popTop: bool, depth: nat, code: seq<R.Piece>, n: nat, fuel: nat)
    requires IsRegion(p, env.cs) && KeepsFrames(step) && AllSimulate(p, step, env)
    requires s.code in env.cs && Agree(s, m) && s.frames != []
    requires s.code in p.funcs && Decodes(p.funcs[s.code])
    requires Fetch(p, s) == Some(f) && f.ins == (if popTop then CallClosure else CallLocal(depth)) && (popTop ==> depth == 0)
    requires code != [] && Inner(p.codeOf, s.pc, f.ins) == Ok(code[0]) && CallsInside(env.cs, code) && fuel >= 2 * n && n > 0
    requires OnwardAt(p, s.(pc := f.next)) == Ok(code[1..])
    requires step(s).Some?
    ensures Matches(m.ctx.handlerSp, |s.frames|, RunFrom(step, s, |s.frames|, n), R.Run(env, s.code, code, m, s.core.sp, fuel))
    decreases n, 0
  {
    DynamicBegins(p, step, env, s, m, f, popTop, depth, code, fuel);
    var s' := step(s).value.s;
    var at, sp := if popTop then s.core.sp else s.core.sp + depth, if popTop then s.core.sp + 1 else s.core.sp;
    var e := AsCaller(env.interp(m, sp, m.stack[at], fuel));
    if step(s).value.Continue? {
      InterpEndsAt(step, env, s', m, sp, m.stack[at], n - 1, fuel);
      DynamicAfter(p, step, env, s, s', m.ctx.handlerSp, e, code[1..], f.next, n - 1, fuel);
    }
  }

  /** What the call does, and what is left to the trampoline. */
  lemma {:induction false} DynamicBegins(p: Program, step: Stepper, env: R.Env, s: State, m: R.Mem, f: Fetched,
                                         popTop: bool, depth: nat, code: seq<R.Piece>, fuel: nat)
    requires AllSimulate(p, step, env) && s.code in env.cs && Agree(s, m) && s.frames != [] && step(s).Some?
    requires Fetch(p, s) == Some(f) && f.ins == (if popTop then CallClosure else CallLocal(depth)) && (popTop ==> depth == 0)
    requires code != [] && code[0] == R.CallDynamic(popTop, depth)
    ensures var at, sp := if popTop then s.core.sp else s.core.sp + depth, if popTop then s.core.sp + 1 else s.core.sp;
      && at < |m.stack|
      && R.Run(env, s.code, code, m, s.core.sp, fuel)
        == AfterCall(env, s.code, code[1..], AsCaller(env.interp(m, sp, m.stack[at], fuel)), fuel)
      && match step(s).value
         case Continue(s') => Enters(m, s, f, false, sp, m.stack[at], step(s).value) && AlwaysEnds(step, env, s', m, sp, m.stack[at])
         case Escape(s', exn) =>
           s'.frames == s.frames && Raises(m.ctx.handlerSp, s', exn, AsCaller(env.interp(m, sp, m.stack[at], fuel)))
         case Overrun(_) => false
  {
    assert SimulatesAt(p, step, env, s, m);
    assert CallsDynamic(step, env, s, m, f, popTop, depth, step(s).value);
    DynamicRuns(env, s.code, code, m, s.core.sp, popTop, depth, fuel);
  }

  lemma {:induction false} InterpEndsAt(step: Stepper, env: R.Env, s': State, m: R.Mem, sp: int, closure: Word, n: nat, fuel: nat)
    requires AlwaysEnds(step, env, s', m, sp, closure) && n <= fuel
    ensures Mirrors(m.ctx.handlerSp, RunFrom(step, s', |s'.frames|, n), AsCaller(env.interp(m, sp, closure, fuel)))
  {
    var ends := InterpEnds(step, env, s', m, sp, closure, n, fuel);
    assert ends;
  }

  lemma {:induction false} DynamicAfter(p: Program, step: Stepper, env: R.Env, s: State, s': State, handlerSp: int,
                                        e: R.Exit, rest: seq<R.Piece>, next: nat, n: nat, fuel: nat)
    requires IsRegion(p, env.cs) && KeepsFrames(step) && AllSimulate(p, step, env)
    requires s.code in env.cs && s.frames != []
    requires s.code in p.funcs && Decodes(p.funcs[s.code])
    requires OnwardAt(p, s.(pc := next)) == Ok(rest) && CallsInside(env.cs, rest) && fuel >= 2 * n + 1
    requires FramesOk(s') && |s'.frames| == |s.frames| + 1 && s'.frames[..|s.frames|] == s.frames
    requires s'.frames[|s.frames|].caller == s.code && s'.frames[|s.frames|].resume == next && !s'.frames[|s.frames|].native
    requires Mirrors(handlerSp, RunFrom(step, s', |s'.frames|, n), e)
    ensures Matches(handlerSp, |s.frames|, RunFrom(step, s', |s.frames|, n), AfterCall(env, s.code, rest, e, fuel))
    decreases n, 5
  {
    DynamicBelow(step, s', handlerSp, e, n);
    AfterCallSimulates(p, step, env, s, s', handlerSp, e, rest, next, n, fuel);
  }

  lemma {:induction false} DynamicRuns(env: R.Env, fun: Word, code: seq<R.Piece>, m: R.Mem, sp: nat, popTop: bool, depth: nat, fuel: nat)
    requires fun in env.cs && code != [] && code[0] == R.CallDynamic(popTop, depth) && env.admits(code[0], m, sp)
    requires (if popTop then sp else sp + depth) < |m.stack|
    ensures var at, sp1 := if popTop then sp else sp + depth, if popTop then sp + 1 else sp;
      R.Run(env, fun, code, m, sp, fuel) == AfterCall(env, fun, code[1..], AsCaller(env.interp(m, sp1, m.stack[at], fuel)), fuel)
  {
  }
}
