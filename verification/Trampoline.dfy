/** A function run by the interpreter on its own, from a frame with a zero return address,
    does what it does when the interpreter calls it: only return-address slots differ. */
module Trampoline {
  import opened Basics
  import opened Words
  import opened Machine
  import opened Instr
  import opened Interp
  import opened RetPc

  /** `t` runs the code of `s` above the first `k` frames of `s`, with one frame of its
      own, whatever its contents, below. */
  ghost predicate Paired(s: State, t: State, k: nat) {
    && 1 <= k <= |s.frames|
    && t.code == s.code && t.pc == s.pc
    && |t.frames| > 0 && t.frames[1..] == s.frames[k..]
    && Alike(s.core, t.core, Slots(s.frames[..k]))
  }

  /** The two have returned from frame `k`. */
  ghost predicate BothReturned(s: State, t: State, k: nat) {
    && |s.frames| == k - 1 && t.frames == []
    && Alike(s.core, t.core, Slots(s.frames))
  }

  ghost predicate PairedStep(r: StepResult, r': StepResult, k: nat) {
    match r
    case Continue(s') => r'.Continue? && (Paired(s', r'.s, k) || BothReturned(s', r'.s, k))
    case Escape(s', exn) =>
      && r'.Escape? && r'.exn == exn && k <= |s'.frames|
      && AlikeAbove(s'.core, r'.s.core, Slots(s'.frames[..k]))
    case Overrun(s') =>
      && r'.Overrun? && k <= |s'.frames|
      && AlikeAbove(s'.core, r'.s.core, Slots(s'.frames[..k]))
  }

  lemma SlotsMonotone(fs: seq<Frame>, k: nat)
    requires k <= |fs|
    ensures Slots(fs[..k]) <= Slots(fs)
  {
  }

  lemma EffectPaired(s: State, t: State, k: nat, next: nat, e: Option<Effect>, e': Option<Effect>)
    requires Paired(s, t, k) && AlikeOptions(s.core, e, e', Slots(s.frames[..k])) && e.Some?
    ensures OfEffect(s, next, e).Some? && OfEffect(t, next, e').Some?
    ensures PairedStep(OfEffect(s, next, e).value, OfEffect(t, next, e').value, k)
  {
  }

  lemma CallPaired(p: Program, s: State, t: State, k: nat, native: bool, closure: Word, next: nat)
    requires Paired(s, t, k) && DoCall(p, s, native, closure, next).Some?
    ensures DoCall(p, t, native, closure, next).Some?
    ensures PairedStep(DoCall(p, s, native, closure, next).value, DoCall(p, t, native, closure, next).value, k)
  {
    if s.core.sp >= 2 {
      FrameAddedPaired(p, s, t, k, native, closure, next);
    }
  }

  lemma FrameAddedPaired(p: Program, s: State, t: State, k: nat, native: bool, closure: Word, next: nat)
    requires Paired(s, t, k) && DoCall(p, s, native, closure, next).Some? && s.core.sp >= 2
    ensures DoCall(p, t, native, closure, next).Some?
    ensures PairedStep(DoCall(p, s, native, closure, next).value, DoCall(p, t, native, closure, next).value, k)
  {
    var x := Slots(s.frames[..k]);
    PushAlike(s.core, t.core, x, Wrap(s.code + next));
    PushAlike(Push(s.core, Wrap(s.code + next)).value, Push(t.core, Wrap(s.code + next)).value, x, closure);
    var s' := DoCall(p, s, native, closure, next).value.s;
    assert s'.frames[..k] == s.frames[..k];
    assert s'.frames[k..] == s.frames[k..] + s'.frames[|s.frames|..];
  }

  lemma CallTopPaired(p: Program, s: State, t: State, k: nat, next: nat)
    requires Paired(s, t, k) && CallTop(p, s, next).Some? && LeavesFrames(CallClosure, s)
    ensures CallTop(p, t, next).Some?
    ensures PairedStep(CallTop(p, s, next).value, CallTop(p, t, next).value, k)
  {
    var x := Slots(s.frames[..k]);
    SlotsMonotone(s.frames, k);
    DisciplineUntouched(CallClosure, s, x);
    assert s.core.sp !in x by {
      assert Touches(CallClosure, s.core.sp, s.core.sp);
    }
    PopAlike(s.core, t.core, x);
    CallPaired(p, s.(core := Pop(s.core).value.1), t.(core := Pop(t.core).value.1), k, false, s.core.stack[s.core.sp], next);
  }

  lemma CallLocalPaired(p: Program, s: State, t: State, k: nat, i: nat, next: nat)
    requires Paired(s, t, k) && CallLocalAt(p, s, i, next).Some? && LeavesFrames(CallLocal(i), s)
    ensures CallLocalAt(p, t, i, next).Some?
    ensures PairedStep(CallLocalAt(p, s, i, next).value, CallLocalAt(p, t, i, next).value, k)
  {
    var x := Slots(s.frames[..k]);
    SlotsMonotone(s.frames, k);
    DisciplineUntouched(CallLocal(i), s, x);
    assert s.core.sp + i !in x by {
      assert Touches(CallLocal(i), s.core.sp + i, s.core.sp);
    }
    CallPaired(p, s, t, k, false, s.core.stack[s.core.sp + i], next);
  }

  lemma ReturnPaired(s: State, t: State, k: nat, n: nat)
    requires Paired(s, t, k) && DoReturn(s, n).Some? && ReturnInPlace(s, n)
    ensures DoReturn(t, n).Some?
    ensures PairedStep(DoReturn(s, n).value, DoReturn(t, n).value, k)
  {
    var last := |s.frames| - 1;
    var s', t' := DoReturn(s, n).value.s, DoReturn(t, n).value.s;
    forall i | i in Slots(s.frames[..last]) ensures i > s.core.sp + 2 + n {
    }
    if last >= k {
      assert s.frames[..last][..k] == s.frames[..k];
      assert t.frames[..|t.frames| - 1][1..] == s.frames[..last][k..];
      assert t.frames[|t.frames| - 1] == t.frames[1..][last - k];
      assert s.frames[last] == s.frames[k..][last - k];
      SlotsMonotone(s.frames[..last], k);
      assert Paired(s', t', k);
    } else {
      assert s.frames[..k] == s.frames;
      forall i | i in Slots(s.frames) && i !in Slots(s.frames[..last]) ensures i == s.core.sp + 2 {
      }
      SlotsMonotone(s.frames, last);
      assert s'.core.stack[s'.core.sp] == t'.core.stack[t'.core.sp] by {
        assert s.core.sp !in Slots(s.frames);
      }
      forall i | s'.core.sp < i < |s'.core.stack| && i !in Slots(s'.frames)
        ensures s'.core.stack[i] == t'.core.stack[i]
      {
        assert i !in Slots(s.frames);
      }
      assert BothReturned(s', t', k);
    }
  }

  lemma StepPaired(check: Check, p: Program, w: World, s: State, t: State, k: nat)
    requires check != Unchecked && Paired(s, t, k) && Step(check, p, w, s).Some?
    ensures Step(Unchecked, p, w, t).Some?
    ensures PairedStep(Step(check, p, w, s).value, Step(Unchecked, p, w, t).value, k)
  {
    var f := Fetch(p, s).value;
    InsPaired(p, w, s, t, k, f);
  }

  lemma InsPaired(p: Program, w: World, s: State, t: State, k: nat, f: Fetched)
    requires Paired(s, t, k) && Disciplined(p, f.ins, s) && StepIns(p, w, s, f).Some?
    ensures StepIns(p, w, t, f).Some?
    ensures PairedStep(StepIns(p, w, s, f).value, StepIns(p, w, t, f).value, k)
  {
    if f.ins.Return? {
      ReturnPaired(s, t, k, f.ins.n);
    } else if f.ins.CallConst? {
      CallPaired(p, s, t, k, true, f.ins.closure, f.next);
    } else if f.ins.CallLocal? {
      CallLocalPaired(p, s, t, k, f.ins.k, f.next);
    } else if f.ins.CallClosure? {
      CallTopPaired(p, s, t, k, f.next);
    } else {
      var x := Slots(s.frames[..k]);
      SlotsMonotone(s.frames, k);
      DisciplineUntouched(f.ins, s, x);
      var e, e' := Exec(w, f.ins, s.core), Exec(w, f.ins, t.core);
      ExecAlike(w, f.ins, s.core, t.core, x);
      EffectPaired(s, t, k, f.next, e, e');
    }
  }

  ghost predicate Mimics(step: Stepper, step': Stepper, k: nat) {
    forall s, t :: Paired(s, t, k) && step(s).Some? ==>
      step'(t).Some? && PairedStep(step(s).value, step'(t).value, k)
  }

  lemma UncheckedMimics(check: Check, p: Program, w: World, k: nat)
    requires check != Unchecked
    ensures Mimics(Stepping(check, p, w), Stepping(Unchecked, p, w), k)
  {
    forall s, t | Paired(s, t, k) && Step(check, p, w, s).Some?
      ensures Step(Unchecked, p, w, t).Some?
      ensures PairedStep(Step(check, p, w, s).value, Step(Unchecked, p, w, t).value, k)
    {
      StepPaired(check, p, w, s, t, k);
    }
  }

  /** The run of a callee and the trampoline's run of it end alike. */
  lemma {:induction false} RunPaired(step: Stepper, step': Stepper, s: State, t: State, k: nat, n: nat, n': nat)
    requires Mimics(step, step', k) && Paired(s, t, k) && n <= n'
    ensures var r, r' := RunFrom(step, s, k, n), RunFrom(step', t, 1, n');
      && (r.Done? ==> r'.Done? && BothReturned(r.s, r'.s, k))
      && (r.Escaped? ==>
            && r'.Escaped? && r'.exn == r.exn && k <= |r.s.frames|
            && AlikeAbove(r.s.core, r'.s.core, Slots(r.s.frames[..k])))
      && (r.Overran? ==>
            && r'.Overran? && k <= |r.s.frames|
            && AlikeAbove(r.s.core, r'.s.core, Slots(r.s.frames[..k])))
    decreases n
  {
    if n > 0 && step(s).Some? {
      assert PairedStep(step(s).value, step'(t).value, k);
      if step(s).value.Continue? {
        var s', t' := step(s).value.s, step'(t).value.s;
        if Paired(s', t', k) {
          RunPaired(step, step', s', t', k, n - 1, n' - 1);
        }
      }
    }
  }
}
