/** The boundary between the interpreter and a compiled region: the frame handshake on the
    one stack that both share. */
module Boundary {
  import opened Basics
  import opened Words
  import A = Arith
  import opened Machine
  import opened Instr
  import Interp
  import L = Lowering
  import R = Region

  // ----- the stack never changes its size ------------------------------------------------

  ghost predicate LowSized(m: R.Mem, low: Option<R.Low>) {
    && (low.Some? && low.value.Cont? ==> |low.value.m.stack| == |m.stack|)
    && (low.Some? && low.value.Raised? ==> |low.value.m.stack| == |m.stack|)
  }

  lemma CollectSized(w: World, m: R.Mem, g: Option<Move>)
    ensures R.Collect(w, m, g).Some? ==> |R.Collect(w, m, g).value.stack| == |m.stack|
  {
  }

  lemma AllocSized(w: World, m: R.Mem, sp: int, size: int, flags: int)
    ensures var a := R.RegionAlloc(w, m, sp, size, flags);
      !a.Illegal? ==> |a.m.stack| == |m.stack|
  {
    CollectSized(w, R.Publish(m, sp), w.allocGc(m.allocs));
  }

  lemma {:induction false} FieldsSized(m: R.Mem, top: int, p: Word, base: nat, i: nat, n: nat)
    ensures R.StoreFields(m, top, p, base, i, n).Some? ==> R.StoreFields(m, top, p, base, i, n).value.stack == m.stack
    decreases n - i
  {
    if i < n && R.LoadAt(m, top - i).Some? && WriteWord(m.heap, p, base + i, m.stack[top - i]).Some? {
      FieldsSized(m.(heap := WriteWord(m.heap, p, base + i, m.stack[top - i]).value), top, p, base, i + 1, n);
    }
  }

  lemma {:induction false} ZerosSized(m: R.Mem, lo: int, hi: int)
    ensures R.StoreZeros(m, lo, hi).Some? ==> |R.StoreZeros(m, lo, hi).value.stack| == |m.stack|
    decreases hi - lo
  {
    if lo < hi && R.StoreAt(m, lo, Tagged(0)).Some? {
      ZerosSized(R.StoreAt(m, lo, Tagged(0)).value, lo + 1, hi);
    }
  }

  lemma TupleSized(w: World, m: R.Mem, sp: int, n: nat)
    ensures LowSized(m, R.LowerTuple(w, m, sp, n)) && LowSized(m, R.LowerClosure(w, m, sp, n))
  {
    AllocSized(w, m, sp, n, 0);
    AllocSized(w, m, sp, n + 1, F_CLOSURE_OBJ);
    var a, c := R.RegionAlloc(w, m, sp, n, 0), R.RegionAlloc(w, m, sp, n + 1, F_CLOSURE_OBJ);
    if a.NewObj? { FieldsSized(a.m, sp + n - 1, a.p, 0, 0, n); }
    if c.NewObj? { FieldsSized(c.m, sp + n - 1, c.p, 1, 0, n); }
  }

  lemma AllocsSized(w: World, m: R.Mem, sp: int)
    ensures LowSized(m, R.LowerAllocRef(w, m, sp)) && LowSized(m, R.LowerAllocWords(w, m, sp))
    ensures LowSized(m, R.LowerAllocBytes(w, m, sp))
  {
    forall size, flags: int ensures var a := R.RegionAlloc(w, m, sp, size, flags); !a.Illegal? ==> |a.m.stack| == |m.stack| {
      AllocSized(w, m, sp, size, flags);
    }
  }

  lemma ContainerSized(w: World, m: R.Mem, sp: int, n: nat)
    ensures LowSized(m, R.LowerContainer(w, m, sp, n))
  {
    ZerosSized(m, sp - n, sp);
  }

  lemma OutcomeSized(m: R.Mem, at: int, o: A.Outcome)
    ensures LowSized(m, R.OfOutcome(m, at, o))
  {
  }

  lemma ArithSized(w: World, ins: Instr, m: R.Mem, sp: int)
    requires ins.Fixed? || ins.FixedDivide? || ins.WordArith? || ins.WordDivide?
    ensures LowSized(m, R.Lower(w, ins, m, sp))
  {
    var at := sp + 1;
    forall o: A.Outcome ensures LowSized(m, R.OfOutcome(m, at, o)) {
      OutcomeSized(m, at, o);
    }
  }

  lemma MoveSized(w: World, ins: Instr, m: R.Mem, sp: int)
    requires L.MovesWords(ins)
    ensures LowSized(m, R.Lower(w, ins, m, sp))
  {
  }

  lemma TestSized(w: World, ins: Instr, m: R.Mem, sp: int)
    requires ins.Comparison? || ins.NotBoolean? || ins.IsTaggedTop? || ins.IsTaggedLocal?
    ensures LowSized(m, R.Lower(w, ins, m, sp))
  {
  }

  lemma StoreContSized(m: R.Mem, h: Heap, at: int, v: Word)
    ensures LowSized(m, R.StoreCont(m.(heap := h), at, v))
  {
  }

  lemma AccessSized(w: World, ins: Instr, m: R.Mem, sp: int)
    requires ins.LoadMl? || ins.StoreMl? || ins.CellLength? || ins.CellFlags?
    ensures LowSized(m, R.Lower(w, ins, m, sp))
  {
    forall h: Heap, at: int, v: Word ensures LowSized(m, R.StoreCont(m.(heap := h), at, v)) {
      StoreContSized(m, h, at, v);
    }
    assert m.(heap := m.heap) == m;
  }

  lemma LowerSized(w: World, ins: Instr, m: R.Mem, sp: int)
    ensures LowSized(m, R.Lower(w, ins, m, sp))
  {
    if L.MovesWords(ins) {
      MoveSized(w, ins, m, sp);
    } else if ins.Fixed? || ins.FixedDivide? || ins.WordArith? || ins.WordDivide? {
      ArithSized(w, ins, m, sp);
    } else if ins.Comparison? || ins.NotBoolean? || ins.IsTaggedTop? || ins.IsTaggedLocal? {
      TestSized(w, ins, m, sp);
    } else if ins.LoadMl? || ins.StoreMl? || ins.CellLength? || ins.CellFlags? {
      AccessSized(w, ins, m, sp);
    } else if ins.Tuple? || ins.MakeClosure? {
      TupleSized(w, m, sp, ins.n);
    } else if ins.AllocRef? || ins.AllocWordMemory? || ins.AllocByteMem? {
      AllocsSized(w, m, sp);
    } else if ins.StackContainer? {
      ContainerSized(w, m, sp, ins.n);
    }
  }

  // ----- the interpreter -----------------------------------------------------------------

  lemma {:induction false} PopFieldsSized(c: Interp.Core, p: Word, from: nat, n: nat)
    ensures Interp.PopFields(c, p, from, n).Some? ==> Interp.PopFields(c, p, from, n).value.stack == c.stack
    decreases n
  {
    if n > 0 && Interp.Pop(c).Some? && WriteWord(c.heap, p, from + n - 1, c.stack[c.sp]).Some? {
      var c1 := Interp.Pop(c).value.1;
      PopFieldsSized(c1.(heap := WriteWord(c.heap, p, from + n - 1, c.stack[c.sp]).value), p, from, n - 1);
    }
  }

  lemma {:induction false} PushZerosSized(c: Interp.Core, n: nat)
    ensures Interp.PushZeros(c, n).Some? ==> |Interp.PushZeros(c, n).value.stack| == |c.stack|
    decreases n
  {
    if n > 0 && Interp.Push(c, Tagged(0)).Some? {
      PushZerosSized(Interp.Push(c, Tagged(0)).value, n - 1);
    }
  }

  ghost predicate EffectSized(c: Interp.Core, e: Option<Interp.Effect>) {
    e.Some? && !e.value.NoRoom? ==> |e.value.c.stack| == |c.stack|
  }

  lemma TupleEffectSized(w: World, c: Interp.Core, n: nat)
    ensures EffectSized(c, Interp.ExecTuple(w, n, c))
  {
    var r := Allocate(w, c.heap, c.allocs, n, 0);
    if r.Some? && r.value.Allocated? {
      PopFieldsSized(c.(heap := r.value.heap, allocs := c.allocs + 1), r.value.addr, 0, n);
    }
  }

  lemma ClosureEffectSized(w: World, c: Interp.Core, n: nat)
    ensures EffectSized(c, Interp.ExecClosure(w, n, c))
  {
    var r := Allocate(w, c.heap, c.allocs, n + 1, F_CLOSURE_OBJ);
    if r.Some? && r.value.Allocated? {
      PopFieldsSized(c.(heap := r.value.heap, allocs := c.allocs + 1), r.value.addr, 1, n);
    }
  }

  lemma ExecSized(w: World, ins: Instr, c: Interp.Core)
    ensures EffectSized(c, Interp.Exec(w, ins, c))
  {
    if ins.Tuple? {
      TupleEffectSized(w, c, ins.n);
    } else if ins.MakeClosure? {
      ClosureEffectSized(w, c, ins.n);
    } else if ins.StackContainer? {
      PushZerosSized(c, ins.n);
    }
  }

  ghost predicate StepsSized(step: Interp.Stepper) {
    forall s :: step(s).Some? ==> |step(s).value.s.core.stack| == |s.core.stack|
  }

  lemma SteppingSized(check: Interp.Check, p: Program, w: World)
    ensures StepsSized(Interp.Stepping(check, p, w))
  {
    forall s | Interp.Step(check, p, w, s).Some?
      ensures |Interp.Step(check, p, w, s).value.s.core.stack| == |s.core.stack|
    {
      StepInsSized(p, w, s, Interp.Fetch(p, s).value);
    }
  }

  lemma StepInsSized(p: Program, w: World, s: Interp.State, f: Fetched)
    ensures Interp.StepIns(p, w, s, f).Some? ==> |Interp.StepIns(p, w, s, f).value.s.core.stack| == |s.core.stack|
  {
    if !IsCall(f.ins) && !f.ins.Return? {
      ExecSized(w, f.ins, s.core);
      EffectStepSized(s, f.next, Interp.Exec(w, f.ins, s.core));
    }
  }

  lemma EffectStepSized(s: Interp.State, next: nat, e: Option<Interp.Effect>)
    requires EffectSized(s.core, e)
    ensures Interp.OfEffect(s, next, e).Some? ==> |Interp.OfEffect(s, next, e).value.s.core.stack| == |s.core.stack|
  {
  }

  lemma {:induction false} RunFromSized(step: Interp.Stepper, s: Interp.State, base: nat, steps: nat)
    requires StepsSized(step)
    ensures var r := Interp.RunFrom(step, s, base, steps);
      r.Done? || r.Escaped? || r.Overran? ==> |r.s.core.stack| == |s.core.stack|
    decreases steps
  {
    if |s.frames| >= base && steps > 0 && step(s).Some? && step(s).value.Continue? {
      RunFromSized(step, step(s).value.s, base, steps - 1);
    }
  }

  // ----- compiled code -------------------------------------------------------------------

  ghost predicate EnvSized(env: R.Env) {
    && (forall ins, m, sp :: LowSized(m, env.lower(ins, m, sp)))
    && (forall m, sp :: env.poll(m, sp).Some? ==> |env.poll(m, sp).value.stack| == |m.stack|)
    && (forall m, sp, closure, fuel ::
          env.interp(m, sp, closure, fuel).Returned? ==> |env.interp(m, sp, closure, fuel).m.stack| == |m.stack|)
  }

  lemma EmittedSized(p: Program, cs: map<Word, R.Compiled>, w: World, typed: bool)
    ensures EnvSized(R.Emitted(p, cs, w, typed))
  {
    forall ins, m, sp ensures LowSized(m, R.Lower(w, ins, m, sp)) {
      LowerSized(w, ins, m, sp);
    }
    forall m, sp ensures R.Poll(w, m, sp).Some? ==> |R.Poll(w, m, sp).value.stack| == |m.stack| {
      CollectSized(w, R.Publish(m, sp).(polls := m.polls + 1), w.pollGc(m.polls));
    }
    forall m, sp, closure: Word, fuel: nat
      ensures R.InterpCall(p, w, m, sp, closure, fuel).Returned? ==>
        |R.InterpCall(p, w, m, sp, closure, fuel).m.stack| == |m.stack|
    {
      InterpSized(p, w, m, sp, closure, fuel);
    }
  }

  lemma InterpSized(p: Program, w: World, m: R.Mem, sp: int, closure: Word, fuel: nat)
    ensures R.InterpCall(p, w, m, sp, closure, fuel).Returned? ==>
      |R.InterpCall(p, w, m, sp, closure, fuel).m.stack| == |m.stack|
  {
    if R.EnterFrame(m, sp, closure).Some? && ReadWord(m.heap, closure, 0).Some? && sp >= 2 {
      var m1 := R.EnterFrame(m, sp, closure).value;
      var core := Interp.Core(m1.stack, sp - 2, m1.heap, m1.allocs);
      var s := Interp.State(ReadWord(m.heap, closure, 0).value, 0, core, [Interp.Frame(0, sp - 1, 0, false)]);
      SteppingSized(Interp.Unchecked, p, w);
      RunFromSized(Interp.Stepping(Interp.Unchecked, p, w), s, 1, fuel);
    }
  }

  lemma {:induction false} RunSized(env: R.Env, f: Word, code: seq<R.Piece>, m: R.Mem, sp: int, fuel: nat)
    requires EnvSized(env)
    ensures var e := R.Run(env, f, code, m, sp, fuel);
      e.Returned? ==> |e.m.stack| == |m.stack|
    decreases fuel, |code|, 0
  {
    if code != [] && f in env.cs && env.admits(code[0], m, sp) {
      match code[0] {
        case Straight(ins) =>
          assert LowSized(m, env.lower(ins, m, sp));
          var low := env.lower(ins, m, sp);
          if low.Some? && low.value.Cont? {
            RunSized(env, f, code[1..], low.value.m, low.value.sp, fuel);
          }
        case CallNative(callee, closure) =>
          if R.EnterFrame(m, sp, closure).Some? && fuel > 0 {
            var m1 := R.EnterFrame(m, sp, closure).value;
            CallSized(env, callee, m1, sp - 2, fuel - 1);
            var e := R.Call(env, callee, m1, sp - 2, fuel - 1);
            if e.Returned? && !e.raised {
              RunSized(env, f, code[1..], e.m, e.newSp, fuel);
            }
          }
        case CallDynamic(popTop, depth) =>
          var closure := R.LoadAt(m, if popTop then sp else sp + depth);
          if closure.Some? {
            var e := env.interp(m, if popTop then sp + 1 else sp, closure.value, fuel);
            if e.Returned? && !e.raised {
              RunSized(env, f, code[1..], e.m, e.newSp, fuel);
            }
          }
        case Goto(t) =>
          if fuel > 0 { RunSized(env, f, R.BlockAt(env.cs[f], t), m, sp, fuel - 1); }
        case PollGoto(t) =>
          if fuel > 0 && env.poll(m, sp).Some? {
            RunSized(env, f, R.BlockAt(env.cs[f], t), env.poll(m, sp).value, sp, fuel - 1);
          }
        case Branch(cond, taken, fall) =>
          if fuel > 0 && env.test(cond, m, sp).Some? {
            var b := env.test(cond, m, sp).value;
            RunSized(env, f, R.BlockAt(env.cs[f], if b.Taken? then taken else fall), m, b.sp, fuel - 1);
          }
        case Ret(n) =>
      }
    }
  }

  lemma {:induction false} CallSized(env: R.Env, f: Word, m: R.Mem, sp: int, fuel: nat)
    requires EnvSized(env)
    ensures var e := R.Call(env, f, m, sp, fuel);
      e.Returned? ==> |e.m.stack| == |m.stack|
    decreases fuel, if f in env.cs then |env.cs[f].entry| else 0, 1
  {
    if f in env.cs {
      RunSized(env, f, env.cs[f].entry, m, sp, fuel);
    }
  }

  // ----- the boundary ---------------------------------------------------------------------

  /** `BoundaryOutcome`. */
  datatype Outcome = Returned(newSp: int) | Raised(packet: Option<Exn>, handlerSp: int) | NoReturn(why: R.Exit)

  /** What the interpreter and the compiled code share: the stack in one array, the heap,
      and the context that is passed along. */
  class Shared {
    const stack: array<Word>
    var heap: Heap
    var allocs: nat
    var polls: nat
    var ctx: R.Ctx

    constructor (stack: array<Word>, heap: Heap, ctx: R.Ctx)
      ensures this.stack == stack && Memory() == R.Mem(stack[..], heap, 0, 0, ctx)
    {
      this.stack := stack;
      this.heap := heap;
      this.ctx := ctx;
      allocs, polls := 0, 0;
    }

    function Memory(): R.Mem
      reads this, stack
    {
      R.Mem(stack[..], heap, allocs, polls, ctx)
    }

    /** Runs a compiled function in place: the state becomes what its meaning says. */
    method RunNative(env: R.Env, f: Word, sp: int, fuel: nat) returns (e: R.Exit)
      requires EnvSized(env)
      modifies this, stack
      ensures e == R.Call(env, f, old(Memory()), sp, fuel)
      ensures Memory() == if e.Returned? then e.m else old(Memory())
    {
      e := R.Call(env, f, Memory(), sp, fuel);
      CallSized(env, f, Memory(), sp, fuel);
      if e.Returned? {
        var i := 0;
        while i < stack.Length
          invariant 0 <= i <= stack.Length == |e.m.stack|
          invariant stack[..i] == e.m.stack[..i]
        {
          stack[i] := e.m.stack[i];
          i := i + 1;
        }
        assert stack[..] == e.m.stack;
        heap, allocs, polls, ctx := e.m.heap, e.m.allocs, e.m.polls, e.m.ctx;
      }
    }

    /** `dispatch_region`: writes a zero return address and the closure below the
        arguments, runs the root, and tells a return from an escaping exception. */
    method DispatchRegion(env: R.Env, root: Word, sp: nat, closure: Word, fuel: nat) returns (outcome: Outcome)
      requires EnvSized(env) && 2 <= sp <= stack.Length
      modifies this, stack
      ensures var e := R.Dispatch(env, root, old(Memory()), sp, closure, fuel);
        && (e.Returned? ==> Memory() == e.m)
        && outcome == (if !e.Returned? then NoReturn(e)
           else if e.raised then Raised(e.m.ctx.packet, e.newSp) else Returned(e.newSp))
    {
      ghost var before := Memory();
      stack[sp - 1] := 0;
      stack[sp - 2] := closure;
      assert R.EnterFrame(before, sp, closure) == Some(Memory());
      var e := RunNative(env, root, sp - 2, fuel);
      if !e.Returned? {
        return NoReturn(e);
      } else if e.raised {
        return Raised(ctx.packet, e.newSp);
      } else {
        return Returned(e.newSp);
      }
    }
  }
}
