/** Return addresses are invisible: two runs of the interpreter whose stacks differ only
    in return-address slots do the same, as long as the code keeps to the discipline. */
module RetPc {
  import opened Basics
  import opened Words
  import opened Arith
  import opened Machine
  import opened Instr
  import opened Interp

  function Slots(fs: seq<Frame>): set<int> {
    set f | f in fs :: f.retSlot
  }

  /** Equal but for the slots `x`; all of those are live. */
  ghost predicate Alike(a: Core, b: Core, x: set<int>) {
    && AlikeAbove(a, b, x) && a.sp <= |a.stack|
    && (forall i :: i in x ==> a.sp <= i < |a.stack|)
  }

  ghost predicate AlikeAbove(a: Core, b: Core, x: set<int>) {
    && |a.stack| == |b.stack| && a.sp == b.sp
    && a.heap == b.heap && a.allocs == b.allocs
    && (forall i :: a.sp <= i < |a.stack| && i !in x ==> a.stack[i] == b.stack[i])
  }

  /** The slots `x` hold in `c` what they held in `a`. */
  ghost predicate Keeps(a: Core, c: Core, x: set<int>) {
    |c.stack| == |a.stack| && forall i :: i in x && 0 <= i < |a.stack| ==> c.stack[i] == a.stack[i]
  }

  /** From `a` and `b`, the effects `e` and `e'` are the same and leave the slots alone. */
  ghost predicate AlikeEffects(a: Core, e: Effect, e': Effect, x: set<int>) {
    match e
    case Next(c) => e'.Next? && Alike(c, e'.c, x) && Keeps(a, c, x)
    case JumpTo(c, t) => e'.JumpTo? && e'.target == t && Alike(c, e'.c, x) && Keeps(a, c, x)
    case Raise(c, exn) => e'.Raise? && e'.exn == exn && AlikeAbove(c, e'.c, x) && a.sp <= c.sp
    case NoRoom => e'.NoRoom?
  }

  ghost predicate AlikeOptions(a: Core, e: Option<Effect>, e': Option<Effect>, x: set<int>) {
    e.Some? ==> e'.Some? && AlikeEffects(a, e.value, e'.value, x)
  }

  ghost predicate Untouched(ins: Instr, sp: int, x: set<int>) {
    forall i :: i in x ==> !Touches(ins, i, sp)
  }

  lemma PushAlike(a: Core, b: Core, x: set<int>, w: Word)
    requires Alike(a, b, x) && Push(a, w).Some?
    ensures Push(b, w).Some? && Alike(Push(a, w).value, Push(b, w).value, x)
    ensures Keeps(a, Push(a, w).value, x)
  {
  }

  lemma PopAlike(a: Core, b: Core, x: set<int>)
    requires Alike(a, b, x) && Pop(a).Some? && a.sp !in x
    ensures Pop(b).Some? && Pop(a).value.0 == Pop(b).value.0 && Alike(Pop(a).value.1, Pop(b).value.1, x)
  {
  }

  lemma {:induction false} PopFieldsAlike(a: Core, b: Core, x: set<int>, p: Word, from: nat, n: nat)
    requires Alike(a, b, x) && PopFields(a, p, from, n).Some?
    requires forall i :: i in x ==> !(a.sp <= i < a.sp + n)
    ensures PopFields(b, p, from, n).Some?
    ensures Alike(PopFields(a, p, from, n).value, PopFields(b, p, from, n).value, x)
    ensures PopFields(a, p, from, n).value.sp == a.sp + n
    ensures PopFields(a, p, from, n).value.stack == a.stack
    ensures PopFields(a, p, from, n).value.allocs == a.allocs
    decreases n
  {
    if n > 0 {
      PopAlike(a, b, x);
      var h := WriteWord(a.heap, p, from + n - 1, a.stack[a.sp]).value;
      PopFieldsAlike(Pop(a).value.1.(heap := h), Pop(b).value.1.(heap := h), x, p, from, n - 1);
    }
  }

  lemma {:induction false} PushZerosAlike(a: Core, b: Core, x: set<int>, n: nat)
    requires Alike(a, b, x) && PushZeros(a, n).Some?
    ensures PushZeros(b, n).Some?
    ensures Alike(PushZeros(a, n).value, PushZeros(b, n).value, x)
    ensures Keeps(a, PushZeros(a, n).value, x)
    decreases n
  {
    if n > 0 {
      PushAlike(a, b, x, Tagged(0));
      PushZerosAlike(Push(a, Tagged(0)).value, Push(b, Tagged(0)).value, x, n - 1);
    }
  }

  /** One instruction that leaves the slots `x` alone does the same on both stacks. */
  lemma ExecAlike(w: World, ins: Instr, a: Core, b: Core, x: set<int>)
    requires Alike(a, b, x) && Untouched(ins, a.sp, x) && Exec(w, ins, a).Some?
    ensures AlikeOptions(a, Exec(w, ins, a), Exec(w, ins, b), x)
  {
    if Simple(ins) {
      SimpleAlike(w, ins, a, b, x);
    } else if ins.LoadMl? {
      LoadAlike(ins.kind, a, b, x);
    } else if ins.StoreMl? {
      StoreAlike(ins.untagged, a, b, x);
    } else if ins.StackContainer? {
      ContainerAlike(w, ins.n, a, b, x);
    } else {
      AllocationAlike(w, ins, a, b, x);
    }
  }

  predicate Allocates(ins: Instr) {
    ins.Tuple? || ins.MakeClosure? || ins.AllocRef? || ins.AllocWordMemory? || ins.AllocByteMem?
  }

  lemma AllocationAlike(w: World, ins: Instr, a: Core, b: Core, x: set<int>)
    requires Allocates(ins) && Alike(a, b, x) && Untouched(ins, a.sp, x) && Exec(w, ins, a).Some?
    ensures AlikeOptions(a, Exec(w, ins, a), Exec(w, ins, b), x)
  {
    if ins.Tuple? {
      TupleAlike(w, ins.n, a, b, x);
    } else if ins.MakeClosure? {
      ClosureAlike(w, ins.n, a, b, x);
    } else if ins.AllocRef? {
      AllocRefAlike(w, a, b, x);
    } else if ins.AllocWordMemory? {
      AllocWordsAlike(w, a, b, x);
    } else {
      AllocBytesAlike(w, a, b, x);
    }
  }

  lemma ContainerAlike(w: World, n: nat, a: Core, b: Core, x: set<int>)
    requires Alike(a, b, x)
    ensures AlikeOptions(a, ExecContainer(w, n, a), ExecContainer(w, n, b), x)
  {
    if n < a.sp && PushZeros(a, n).Some? {
      PushZerosAlike(a, b, x, n);
    }
  }

  lemma LoadAlike(kind: LoadKind, a: Core, b: Core, x: set<int>)
    requires Alike(a, b, x) && Untouched(LoadMl(kind), a.sp, x)
    ensures AlikeOptions(a, ExecLoad(kind, a), ExecLoad(kind, b), x)
  {
    assert !Touches(LoadMl(kind), a.sp, a.sp) ==> a.sp !in x;
  }

  lemma StoreAlike(untagged: bool, a: Core, b: Core, x: set<int>)
    requires Alike(a, b, x) && Untouched(StoreMl(untagged), a.sp, x)
    ensures AlikeOptions(a, ExecStore(untagged, a), ExecStore(untagged, b), x)
  {
    if ExecStore(untagged, a).Some? {
      assert a.sp !in x && a.sp + 1 !in x && a.sp + 2 !in x;
      StoredAlike(untagged, a, b, x);
    }
  }

  lemma StoredAlike(untagged: bool, a: Core, b: Core, x: set<int>)
    requires Alike(a, b, x) && a.sp !in x && a.sp + 1 !in x && a.sp + 2 !in x && ExecStore(untagged, a).Some?
    ensures AlikeOptions(a, ExecStore(untagged, a), ExecStore(untagged, b), x)
  {
    PopAlike(a, b, x);
    PopAlike(Pop(a).value.1, Pop(b).value.1, x);
  }

  lemma TupleAlike(w: World, n: nat, a: Core, b: Core, x: set<int>)
    requires Alike(a, b, x) && Untouched(Tuple(n), a.sp, x)
    ensures AlikeOptions(a, ExecTuple(w, n, a), ExecTuple(w, n, b), x)
  {
    if ExecTuple(w, n, a).Some? && Allocate(w, a.heap, a.allocs, n, 0).value.Allocated? {
      var r := Allocate(w, a.heap, a.allocs, n, 0).value;
      FilledAlike(a.(heap := r.heap, allocs := a.allocs + 1), b.(heap := r.heap, allocs := b.allocs + 1), x, r.addr, n);
    }
  }

  /** The fields are filled from the stack, and the object takes their place. */
  lemma {:induction false} FilledAlike(a: Core, b: Core, x: set<int>, p: Word, n: nat)
    requires Alike(a, b, x) && Untouched(Tuple(n), a.sp, x) && PopFields(a, p, 0, n).Some?
    ensures PopFields(b, p, 0, n).Some?
    ensures PopFields(b, p, 0, n).value.sp == PopFields(a, p, 0, n).value.sp
    ensures Push(PopFields(a, p, 0, n).value, p).Some? ==>
      var a1, b1 := Push(PopFields(a, p, 0, n).value, p), Push(PopFields(b, p, 0, n).value, p);
      b1.Some? && Alike(a1.value, b1.value, x) && Keeps(a, a1.value, x)
  {
    FieldsAlike(a, b, x, p, 0, n);
    if Push(PopFields(a, p, 0, n).value, p).Some? {
      PushAlike(PopFields(a, p, 0, n).value, PopFields(b, p, 0, n).value, x, p);
    }
  }

  lemma {:induction false} FieldsAlike(a: Core, b: Core, x: set<int>, p: Word, from: nat, n: nat)
    requires Alike(a, b, x) && PopFields(a, p, from, n).Some?
    requires Untouched(Tuple(n), a.sp, x)
    ensures PopFields(b, p, from, n).Some?
    ensures Alike(PopFields(a, p, from, n).value, PopFields(b, p, from, n).value, x)
    ensures PopFields(a, p, from, n).value.sp == a.sp + n
    ensures PopFields(a, p, from, n).value.stack == a.stack
  {
    forall i | i in x ensures !(a.sp <= i < a.sp + n) {
      assert !Touches(Tuple(n), i, a.sp);
    }
    PopFieldsAlike(a, b, x, p, from, n);
  }

  lemma FinishClosureAlike(a: Core, b: Core, x: set<int>, p: Word)
    requires Alike(a, b, x) && a.sp !in x
    ensures AlikeOptions(a, FinishClosure(a, p), FinishClosure(b, p), x)
  {
  }

  lemma FillClosureAlike(a: Core, b: Core, x: set<int>, p: Word, n: nat)
    requires Alike(a, b, x) && Untouched(MakeClosure(n), a.sp, x)
    ensures AlikeOptions(a, FillClosure(a, p, n), FillClosure(b, p, n), x)
  {
    if PopFields(a, p, 1, n).Some? {
      forall i | i in x ensures !Touches(Tuple(n), i, a.sp) {
        assert !Touches(MakeClosure(n), i, a.sp);
      }
      assert Touches(MakeClosure(n), a.sp + n, a.sp);
      FieldsAlike(a, b, x, p, 1, n);
      FinishClosureAlike(PopFields(a, p, 1, n).value, PopFields(b, p, 1, n).value, x, p);
    }
  }

  lemma ClosureAlike(w: World, n: nat, a: Core, b: Core, x: set<int>)
    requires Alike(a, b, x) && Untouched(MakeClosure(n), a.sp, x)
    ensures AlikeOptions(a, ExecClosure(w, n, a), ExecClosure(w, n, b), x)
  {
    var r := Allocate(w, a.heap, a.allocs, n + 1, F_CLOSURE_OBJ);
    if r.Some? && r.value.Allocated? {
      var a0 := a.(heap := r.value.heap, allocs := a.allocs + 1);
      var b0 := b.(heap := r.value.heap, allocs := b.allocs + 1);
      assert ExecClosure(w, n, a) == FillClosure(a0, r.value.addr, n);
      assert ExecClosure(w, n, b) == FillClosure(b0, r.value.addr, n);
      FillClosureAlike(a0, b0, x, r.value.addr, n);
    }
  }

  lemma AllocRefAlike(w: World, a: Core, b: Core, x: set<int>)
    requires Alike(a, b, x) && Untouched(AllocRef, a.sp, x)
    ensures AlikeOptions(a, ExecAllocRef(w, a), ExecAllocRef(w, b), x)
  {
  }

  lemma AllocWordsAlike(w: World, a: Core, b: Core, x: set<int>)
    requires Alike(a, b, x) && Untouched(AllocWordMemory, a.sp, x)
    ensures AlikeOptions(a, ExecAllocWords(w, a), ExecAllocWords(w, b), x)
  {
    if ExecAllocWords(w, a).Some? {
      assert a.sp !in x && a.sp + 1 !in x && a.sp + 2 !in x;
      WordsAlike(w, a, b, x);
    }
  }

  lemma WordsAlike(w: World, a: Core, b: Core, x: set<int>)
    requires Alike(a, b, x) && a.sp !in x && a.sp + 1 !in x && a.sp + 2 !in x && ExecAllocWords(w, a).Some?
    ensures AlikeOptions(a, ExecAllocWords(w, a), ExecAllocWords(w, b), x)
  {
    PopAlike(a, b, x);
    var a1, b1 := Pop(a).value.1, Pop(b).value.1;
    PopAlike(a1, b1, x);
    PopAlike(Pop(a1).value.1, Pop(b1).value.1, x);
  }

  lemma AllocBytesAlike(w: World, a: Core, b: Core, x: set<int>)
    requires Alike(a, b, x) && Untouched(AllocByteMem, a.sp, x)
    ensures AlikeOptions(a, ExecAllocBytes(w, a), ExecAllocBytes(w, b), x)
  {
    if ExecAllocBytes(w, a).Some? {
      assert a.sp !in x && a.sp + 1 !in x;
      BytesAlike(w, a, b, x);
    }
  }

  lemma BytesAlike(w: World, a: Core, b: Core, x: set<int>)
    requires Alike(a, b, x) && a.sp !in x && a.sp + 1 !in x && ExecAllocBytes(w, a).Some?
    ensures AlikeOptions(a, ExecAllocBytes(w, a), ExecAllocBytes(w, b), x)
  {
    PopAlike(a, b, x);
    PopAlike(Pop(a).value.1, Pop(b).value.1, x);
  }

  predicate Simple(ins: Instr) {
    !ins.LoadMl? && !ins.StoreMl? && !ins.StackContainer? && !ins.Tuple? && !ins.MakeClosure?
    && !ins.AllocRef? && !ins.AllocWordMemory? && !ins.AllocByteMem?
  }

  predicate Binary(ins: Instr) {
    ins.Fixed? || ins.FixedDivide? || ins.WordArith? || ins.WordDivide? || ins.Comparison?
  }

  predicate ReadsTop(ins: Instr) {
    ins.Indirect? || ins.NotBoolean? || ins.IsTaggedTop? || ins.CellLength? || ins.CellFlags? || ins.JumpIf?
  }

  predicate ReadsLocal(ins: Instr) {
    ins.Local? || ins.IndirectLocal? || ins.IsTaggedLocal? || ins.JumpNeqLocal? || ins.JumpTaggedLocal?
  }

  lemma SimpleAlike(w: World, ins: Instr, a: Core, b: Core, x: set<int>)
    requires Simple(ins) && Alike(a, b, x) && Untouched(ins, a.sp, x) && Exec(w, ins, a).Some?
    ensures AlikeOptions(a, Exec(w, ins, a), Exec(w, ins, b), x)
  {
    if Binary(ins) {
      BinaryAlike(w, ins, a, b, x);
    } else if ReadsTop(ins) {
      TopAlike(w, ins, a, b, x);
    } else if ReadsLocal(ins) {
      LocalAlike(w, ins, a, b, x);
    } else {
      RestAlike(w, ins, a, b, x);
    }
  }

  lemma BinaryAlike(w: World, ins: Instr, a: Core, b: Core, x: set<int>)
    requires Binary(ins) && Alike(a, b, x) && Untouched(ins, a.sp, x) && Exec(w, ins, a).Some?
    ensures AlikeOptions(a, Exec(w, ins, a), Exec(w, ins, b), x)
  {
    assert a.sp !in x && a.sp + 1 !in x;
    OperandsAlike(w, ins, a, b, x);
  }

  lemma OperandsAlike(w: World, ins: Instr, a: Core, b: Core, x: set<int>)
    requires Binary(ins) && Alike(a, b, x) && a.sp !in x && a.sp + 1 !in x && Exec(w, ins, a).Some?
    ensures AlikeOptions(a, Exec(w, ins, a), Exec(w, ins, b), x)
  {
    PopAlike(a, b, x);
    PopAlike(Pop(a).value.1, Pop(b).value.1, x);
    if ins.Fixed? || ins.FixedDivide? {
      FixedOperandsAlike(w, ins, a, b, x);
    }
  }

  lemma FixedOperandsAlike(w: World, ins: Instr, a: Core, b: Core, x: set<int>)
    requires (ins.Fixed? || ins.FixedDivide?) && Alike(a, b, x) && a.sp !in x && a.sp + 1 !in x && Exec(w, ins, a).Some?
    ensures AlikeOptions(a, Exec(w, ins, a), Exec(w, ins, b), x)
  {
    PopAlike(a, b, x);
    PopAlike(Pop(a).value.1, Pop(b).value.1, x);
  }

  lemma TopAlike(w: World, ins: Instr, a: Core, b: Core, x: set<int>)
    requires ReadsTop(ins) && Alike(a, b, x) && Untouched(ins, a.sp, x) && Exec(w, ins, a).Some?
    ensures AlikeOptions(a, Exec(w, ins, a), Exec(w, ins, b), x)
  {
    assert a.sp !in x;
    PopAlike(a, b, x);
  }

  lemma LocalAlike(w: World, ins: Instr, a: Core, b: Core, x: set<int>)
    requires ReadsLocal(ins) && Alike(a, b, x) && Untouched(ins, a.sp, x) && Exec(w, ins, a).Some?
    ensures AlikeOptions(a, Exec(w, ins, a), Exec(w, ins, b), x)
  {
    assert a.sp + ins.k !in x;
    assert Peek(a, ins.k) == Peek(b, ins.k);
  }

  lemma RestAlike(w: World, ins: Instr, a: Core, b: Core, x: set<int>)
    requires Simple(ins) && !Binary(ins) && !ReadsTop(ins) && !ReadsLocal(ins)
    requires Alike(a, b, x) && Untouched(ins, a.sp, x) && Exec(w, ins, a).Some?
    ensures AlikeOptions(a, Exec(w, ins, a), Exec(w, ins, b), x)
  {
  }

  // ----- frames ---------------------------------------------------------------------

  /** Every saved frame's return address is live on the stack and says where to resume. */
  ghost predicate FramesOk(s: State) {
    && s.core.sp <= |s.core.stack|
    && forall i :: 0 <= i < |s.frames| ==> FrameOk(s.frames[i], s.core)
  }

  ghost predicate FrameOk(f: Frame, c: Core) {
    && c.sp <= f.retSlot < |c.stack|
    && f.resume < MODULUS
    && c.stack[f.retSlot] == Wrap(f.caller + f.resume)
  }

  ghost predicate SmallCode(p: Program) {
    forall f :: f in p.funcs ==> p.funcs[f].len < MODULUS
  }

  lemma ResumePoint(caller: Word, resume: nat)
    requires resume < MODULUS
    ensures ISub(Wrap(caller + resume), caller) == resume
  {
    WrapNested(caller + resume, 0 - caller);
  }

  lemma SelfAlike(s: State)
    requires FramesOk(s)
    ensures Alike(s.core, s.core, Slots(s.frames))
  {
  }

  lemma DisciplineUntouched(ins: Instr, s: State, x: set<int>)
    requires LeavesFrames(ins, s) && x <= Slots(s.frames)
    ensures Untouched(ins, s.core.sp, x)
  {
  }

  lemma KeptFrames(s: State, c: Core)
    requires FramesOk(s) && Keeps(s.core, c, Slots(s.frames)) && Alike(c, c, Slots(s.frames))
    ensures forall i :: 0 <= i < |s.frames| ==> FrameOk(s.frames[i], c)
  {
    forall i | 0 <= i < |s.frames| ensures FrameOk(s.frames[i], c) {
      assert s.frames[i].retSlot in Slots(s.frames);
    }
  }

  /** One disciplined step keeps the frames in order: a call adds one, a return resumes
      the caller at the recorded offset. */
  lemma StepKeepsFrames(p: Program, w: World, s: State, f: Fetched)
    requires FramesOk(s) && Disciplined(p, f.ins, s) && f.next < MODULUS
    requires StepIns(p, w, s, f).Some? && StepIns(p, w, s, f).value.Continue?
    ensures FramesMove(s, StepIns(p, w, s, f).value.s)
  {
    if f.ins.Return? {
      ReturnKeepsFrames(s, f.ins.n);
    } else if f.ins.CallConst? {
      CallKeepsFrames(p, s, true, f.ins.closure, f.next);
    } else if f.ins.CallLocal? {
      CallKeepsFrames(p, s, false, Peek(s.core, f.ins.k).value, f.next);
    } else if f.ins.CallClosure? {
      CallTopKeepsFrames(p, s, f.next);
    } else {
      SelfAlike(s);
      DisciplineUntouched(f.ins, s, Slots(s.frames));
      var e := Exec(w, f.ins, s.core);
      ExecAlike(w, f.ins, s.core, s.core, Slots(s.frames));
      EffectKeepsFrames(s, f.next, e);
    }
  }

  /** The frames are in order in `s'`, which has the frames of `s`, or one more, or has
      returned from the last. */
  ghost predicate FramesMove(s: State, s': State) {
    && FramesOk(s')
    && (|s'.frames| <= |s.frames| ==> s'.frames == s.frames[..|s'.frames|])
    && (|s'.frames| > |s.frames| ==> s'.frames[..|s.frames|] == s.frames)
    && (|s'.frames| < |s.frames| ==>
          && |s'.frames| == |s.frames| - 1
          && s'.code == s.frames[|s'.frames|].caller && s'.pc == s.frames[|s'.frames|].resume)
  }

  lemma EffectKeepsFrames(s: State, next: nat, e: Option<Effect>)
    requires FramesOk(s) && AlikeOptions(s.core, e, e, Slots(s.frames))
    requires OfEffect(s, next, e).Some? && OfEffect(s, next, e).value.Continue?
    ensures FramesMove(s, OfEffect(s, next, e).value.s)
  {
    KeptFrames(s, e.value.c);
  }

  lemma CallTopKeepsFrames(p: Program, s: State, next: nat)
    requires FramesOk(s) && CallTop(p, s, next).Some? && next < MODULUS && LeavesFrames(CallClosure, s)
    ensures CallTop(p, s, next).value.Continue? ==> FramesMove(s, CallTop(p, s, next).value.s)
  {
    var c1 := Pop(s.core).value.1;
    PoppedFrames(s);
    if CallTop(p, s, next).value.Continue? {
      CallKeepsFrames(p, s.(core := c1), false, s.core.stack[s.core.sp], next);
    }
  }

  lemma PoppedFrames(s: State)
    requires FramesOk(s) && Pop(s.core).Some? && LeavesFrames(CallClosure, s)
    ensures FramesOk(s.(core := Pop(s.core).value.1))
  {
    forall i | 0 <= i < |s.frames| ensures FrameOk(s.frames[i], Pop(s.core).value.1) {
      assert FrameOk(s.frames[i], s.core);
      assert !Touches(CallClosure, s.frames[i].retSlot, s.core.sp);
    }
  }

  lemma CallKeepsFrames(p: Program, s: State, native: bool, closure: Word, next: nat)
    requires FramesOk(s) && DoCall(p, s, native, closure, next).Some? && DoCall(p, s, native, closure, next).value.Continue?
    requires next < MODULUS
    ensures var s' := DoCall(p, s, native, closure, next).value.s;
      s.core.sp >= 2 && FramesMove(s, s') && s'.frames == s.frames + [Frame(s.code, s.core.sp - 1, next, native)]
  {
    var s' := DoCall(p, s, native, closure, next).value.s;
    forall i | 0 <= i < |s'.frames| ensures FrameOk(s'.frames[i], s'.core) {
      if i < |s.frames| {
        assert FrameOk(s.frames[i], s.core);
      }
    }
  }

  lemma ReturnKeepsFrames(s: State, n: nat)
    requires FramesOk(s) && DoReturn(s, n).Some? && ReturnInPlace(s, n)
    ensures DoReturn(s, n).value.Continue? && FramesMove(s, DoReturn(s, n).value.s)
    ensures |DoReturn(s, n).value.s.frames| == |s.frames| - 1
  {
    var f := s.frames[|s.frames| - 1];
    assert FrameOk(f, s.core);
    ResumePoint(f.caller, f.resume);
    var s' := DoReturn(s, n).value.s;
    forall i | 0 <= i < |s'.frames| ensures FrameOk(s'.frames[i], s'.core) {
      assert FrameOk(s.frames[i], s.core);
    }
  }

  // ----- runs -------------------------------------------------------------------------

  ghost predicate KeepsFrames(step: Stepper) {
    && (forall s :: FramesOk(s) && step(s).Some? && step(s).value.Continue? ==> FramesMove(s, step(s).value.s))
    && (forall s :: step(s).Some? && !step(s).value.Continue? ==> step(s).value.s.frames == s.frames)
  }

  lemma CheckedKeepsFrames(check: Check, p: Program, w: World)
    requires check != Unchecked && SmallCode(p)
    ensures KeepsFrames(Stepping(check, p, w))
  {
    forall s | FramesOk(s) && Step(check, p, w, s).Some? && Step(check, p, w, s).value.Continue?
      ensures FramesMove(s, Step(check, p, w, s).value.s)
    {
      StepKeepsFrames(p, w, s, Fetch(p, s).value);
    }
    forall s | Step(check, p, w, s).Some? && !Step(check, p, w, s).value.Continue?
      ensures Step(check, p, w, s).value.s.frames == s.frames
    {
      EndKeepsFrames(p, w, s, Fetch(p, s).value);
    }
  }

  lemma EndKeepsFrames(p: Program, w: World, s: State, f: Fetched)
    requires StepIns(p, w, s, f).Some? && !StepIns(p, w, s, f).value.Continue?
    ensures StepIns(p, w, s, f).value.s.frames == s.frames
  {
    if !IsCall(f.ins) && !f.ins.Return? {
      EffectEndKeepsFrames(s, f.next, Exec(w, f.ins, s.core));
    }
  }

  lemma EffectEndKeepsFrames(s: State, next: nat, e: Option<Effect>)
    requires OfEffect(s, next, e).Some? && !OfEffect(s, next, e).value.Continue?
    ensures OfEffect(s, next, e).value.s.frames == s.frames
  {
  }

  /** Until it ends, a run leaves the frames below its own alone. */
  lemma {:induction false} RunKeepsBelow(step: Stepper, s: State, base: nat, n: nat)
    requires KeepsFrames(step) && FramesOk(s) && 1 <= base <= |s.frames|
    requires RunFrom(step, s, base, n).Escaped? || RunFrom(step, s, base, n).Overran?
    ensures var r := RunFrom(step, s, base, n);
      base <= |r.s.frames| && r.s.frames[..base] == s.frames[..base]
    decreases n
  {
    if step(s).value.Continue? {
      var s' := step(s).value.s;
      assert FramesMove(s, s');
      RunKeepsBelow(step, s', base, n - 1);
    }
  }

  /** A run that ends has popped exactly the frame it was to end with. */
  lemma {:induction false} RunEndsAtCaller(step: Stepper, s: State, base: nat, n: nat)
    requires KeepsFrames(step) && FramesOk(s) && 1 <= base <= |s.frames|
    requires RunFrom(step, s, base, n).Done?
    ensures var r := RunFrom(step, s, base, n);
      && FramesOk(r.s) && r.s.frames == s.frames[..base - 1] && r.left < n
      && r.s.code == s.frames[base - 1].caller && r.s.pc == s.frames[base - 1].resume
    decreases n
  {
    var s' := step(s).value.s;
    assert FramesMove(s, s');
    if |s'.frames| >= base {
      RunEndsAtCaller(step, s', base, n - 1);
    }
  }

  /** A run at a lower base passes through the end of the run at a higher one. */
  lemma {:induction false} RunSplits(step: Stepper, s: State, low: nat, high: nat, n: nat)
    requires KeepsFrames(step) && FramesOk(s) && 1 <= low <= high <= |s.frames|
    ensures var r := RunFrom(step, s, high, n);
      RunFrom(step, s, low, n) == if r.Done? then RunFrom(step, r.s, low, r.left) else r
    decreases n
  {
    if n > 0 && step(s).Some? && step(s).value.Continue? {
      var s' := step(s).value.s;
      assert FramesMove(s, s');
      if |s'.frames| >= high {
        RunSplits(step, s', low, high, n - 1);
      }
    }
  }
}
