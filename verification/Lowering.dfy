/** Each lowered instruction does to the stack, the heap and the stack pointer exactly
    what the interpreter's instruction does, although the interpreter pops and pushes
    while the lowering loads and stores at absolute indices. */
module Lowering {
  import opened Basics
  import opened Words
  import opened Arith
  import opened Machine
  import opened Instr
  import opened Interp
  import R = Region

  ghost predicate Same(c: Core, m: R.Mem) {
    m.stack == c.stack && m.heap == c.heap && m.allocs == c.allocs
  }

  /** A native allocation that fails raises StackOverflow. */
  function NativeExn(e: Exn): Exn { if e == HeapExhausted then StackOverflow else e }

  ghost predicate Agrees(e: Effect, m: R.Mem, low: Option<R.Low>) {
    match e
    case Next(c1) =>
      && low.Some? && low.value.Cont?
      && Same(c1, low.value.m) && low.value.sp == c1.sp
      && low.value.m.ctx.handlerSp == m.ctx.handlerSp
      && low.value.m.polls == m.polls
    case Raise(c1, exn) =>
      && low.Some? && low.value.Raised?
      && Same(c1, low.value.m) && c1.stack == m.stack
      && low.value.m.ctx.packet == Some(NativeExn(exn))
      && low.value.m.ctx.handlerSp == m.ctx.handlerSp
      && low.value.m.polls == m.polls
    case JumpTo(_, _) => false
    case NoRoom => low.None?
  }

  predicate StraightLine(ins: Instr) { !EndsBlock(ins) && !IsCall(ins) && ins != Truncated }

  lemma TaggedBools()
    ensures Tagged(0) == 1 && Tagged(1) == 3
  {
  }

  /** The instructions that move words without computing or allocating. */
  predicate MovesWords(ins: Instr) {
    ins.NoOp? || ins.StackSize? || ins.Const? || ins.Local? || ins.Indirect? || ins.IndirectLocal?
    || ins.Reset? || ins.ResetR? || ins.SetStackVal?
  }

  predicate Computes(ins: Instr) {
    ins.Fixed? || ins.FixedDivide? || ins.WordArith? || ins.WordDivide? || ins.Comparison?
    || ins.NotBoolean? || ins.IsTaggedTop? || ins.IsTaggedLocal?
  }

  lemma LoweringIsInterp(w: World, ins: Instr, c: Core, m: R.Mem)
    requires StraightLine(ins) && UntagsInts(ins, c) && Same(c, m)
    requires Exec(w, ins, c).Some? && w.allocGc(c.allocs) == None
    ensures Agrees(Exec(w, ins, c).value, m, R.Lower(w, ins, m, c.sp))
  {
    if MovesWords(ins) {
      MoveAgrees(w, ins, c, m);
    } else if Computes(ins) {
      ComputeAgrees(w, ins, c, m);
    } else if ins.LoadMl? {
      LoadAgrees(w, ins.kind, c, m);
    } else if ins.StoreMl? {
      StoreAgrees(w, ins.untagged, c, m);
    } else if ins.CellLength? || ins.CellFlags? {
      CellAgrees(w, ins, c, m);
    } else if ins.StackContainer? {
      ContainerAgrees(w, ins.n, c, m);
    } else if ins.Tuple? {
      TupleAgrees(w, ins.n, c, m);
    } else if ins.MakeClosure? {
      ClosureAgrees(w, ins.n, c, m);
    } else if ins.AllocRef? {
      AllocRefAgrees(w, c, m);
    } else if ins.AllocWordMemory? {
      AllocWordsAgrees(w, c, m);
    } else {
      AllocBytesAgrees(w, c, m);
    }
  }

  lemma MoveAgrees(w: World, ins: Instr, c: Core, m: R.Mem)
    requires MovesWords(ins) && Same(c, m) && Exec(w, ins, c).Some?
    ensures Agrees(Exec(w, ins, c).value, m, R.Lower(w, ins, m, c.sp))
  {
  }

  lemma ComputeAgrees(w: World, ins: Instr, c: Core, m: R.Mem)
    requires Computes(ins) && UntagsInts(ins, c) && Same(c, m) && Exec(w, ins, c).Some?
    ensures Agrees(Exec(w, ins, c).value, m, R.Lower(w, ins, m, c.sp))
  {
    if ins.Fixed? {
      FixedAgrees(w, ins.fop, c, m);
    } else if ins.FixedDivide? {
      FixedDivideAgrees(w, ins.dop, c, m);
    } else if ins.WordArith? {
      RegionWordIsInterp(ins.wop, c.stack[c.sp], c.stack[c.sp + 1]);
    } else if ins.WordDivide? {
      WordDivideAgrees(w, ins.wdop, c, m);
    } else {
      TestAgrees(w, ins, c, m);
    }
  }

  /** The interpreter's result and the lowered one are the same value or the same raise. */
  lemma OutcomeAgrees(c: Core, m: R.Mem, o: Outcome)
    requires Same(c, m) && c.sp + 1 < |c.stack|
    ensures var e := OfOutcome(c.(sp := c.sp + 2), o);
      e.Some? && Agrees(e.value, m, R.OfOutcome(m, c.sp + 1, o))
  {
  }

  lemma FixedAgrees(w: World, op: FixedOp, c: Core, m: R.Mem)
    requires UntagsInts(Fixed(op), c) && Same(c, m) && Exec(w, Fixed(op), c).Some?
    ensures Agrees(Exec(w, Fixed(op), c).value, m, R.Lower(w, Fixed(op), m, c.sp))
  {
    var o := InterpFixed(op, c.stack[c.sp], c.stack[c.sp + 1]);
    FixedArithExact(op, c.stack[c.sp], c.stack[c.sp + 1]);
    OutcomeAgrees(c, m, o);
    assert Exec(w, Fixed(op), c) == OfOutcome(c.(sp := c.sp + 2), o);
    assert R.Lower(w, Fixed(op), m, c.sp) == R.OfOutcome(m, c.sp + 1, o);
  }

  lemma FixedDivideAgrees(w: World, op: DivOp, c: Core, m: R.Mem)
    requires UntagsInts(FixedDivide(op), c) && Same(c, m) && Exec(w, FixedDivide(op), c).Some?
    ensures Agrees(Exec(w, FixedDivide(op), c).value, m, R.Lower(w, FixedDivide(op), m, c.sp))
  {
    var o := InterpFixedDiv(op, c.stack[c.sp], c.stack[c.sp + 1]);
    FixedDivExact(op, c.stack[c.sp], c.stack[c.sp + 1]);
    OutcomeAgrees(c, m, o);
    assert Exec(w, FixedDivide(op), c) == OfOutcome(c.(sp := c.sp + 2), o);
    assert R.Lower(w, FixedDivide(op), m, c.sp) == R.OfOutcome(m, c.sp + 1, o);
  }

  lemma WordDivideAgrees(w: World, op: WordDivOp, c: Core, m: R.Mem)
    requires Same(c, m) && Exec(w, WordDivide(op), c).Some?
    ensures Agrees(Exec(w, WordDivide(op), c).value, m, R.Lower(w, WordDivide(op), m, c.sp))
  {
    var o := InterpWordDiv(op, c.stack[c.sp], c.stack[c.sp + 1]);
    OutcomeAgrees(c, m, o);
    assert Exec(w, WordDivide(op), c) == OfOutcome(c.(sp := c.sp + 2), o);
    assert R.LowerWordDiv(op, c.stack[c.sp], c.stack[c.sp + 1]) == o;
    assert R.Lower(w, WordDivide(op), m, c.sp) == R.OfOutcome(m, c.sp + 1, o);
  }

  lemma TestAgrees(w: World, ins: Instr, c: Core, m: R.Mem)
    requires ins.Comparison? || ins.NotBoolean? || ins.IsTaggedTop? || ins.IsTaggedLocal?
    requires Same(c, m) && Exec(w, ins, c).Some?
    ensures Agrees(Exec(w, ins, c).value, m, R.Lower(w, ins, m, c.sp))
  {
    TaggedBools();
  }

  lemma LoadAgrees(w: World, kind: LoadKind, c: Core, m: R.Mem)
    requires UntagsInts(LoadMl(kind), c) && Same(c, m) && ExecLoad(kind, c).Some?
    ensures Agrees(ExecLoad(kind, c).value, m, R.LowerLoad(kind, m, c.sp))
  {
    var index, obj := c.stack[c.sp], c.stack[c.sp + 1];
    UntagReadsPayload(index);
    var k := Payload(index);
    match kind {
      case LoadWord =>
      case LoadByte =>
        var b := ReadByte(c.heap, obj, k).value;
        EmitTagIsTagged(b);
      case LoadUntagged => EmitTagIsTagged(ReadWord(c.heap, obj, k).value);
    }
  }

  lemma StoreAgrees(w: World, untagged: bool, c: Core, m: R.Mem)
    requires UntagsInts(StoreMl(untagged), c) && Same(c, m) && ExecStore(untagged, c).Some?
    ensures Agrees(ExecStore(untagged, c).value, m, R.LowerStore(untagged, m, c.sp))
  {
    var v, index := c.stack[c.sp], c.stack[c.sp + 1];
    StoredWord(untagged, v, index);
    var u, k := if untagged then Wrap(Payload(v)) else v, Payload(index);
    StoreIsStoreField(untagged, c, m, u, k);
    StoreFieldAgrees(c.(sp := c.sp + 2), m, k, u);
  }

  lemma StoreIsStoreField(untagged: bool, c: Core, m: R.Mem, u: Word, k: int)
    requires c.sp + 1 < |c.stack| && Same(c, m)
    requires u == if untagged then Wrap(Payload(c.stack[c.sp])) else c.stack[c.sp]
    requires untagged ==> EmitUntag(c.stack[c.sp]) == u
    requires k == Signed(EmitUntag(c.stack[c.sp + 1])) == Payload(c.stack[c.sp + 1])
    ensures ExecStore(untagged, c) == StoreField(c.(sp := c.sp + 2), k, u)
    ensures R.LowerStore(untagged, m, c.sp) == R.StoreField(m, c.sp + 2, k, u)
  {
  }

  lemma StoreFieldAgrees(c: Core, m: R.Mem, k: int, v: Word)
    requires Same(c, m) && StoreField(c, k, v).Some?
    ensures Agrees(StoreField(c, k, v).value, m, R.StoreField(m, c.sp, k, v))
  {
    TaggedBools();
  }

  lemma StoredWord(untagged: bool, v: Word, index: Word)
    requires IsTagged(index) && (untagged ==> IsTagged(v))
    ensures Signed(EmitUntag(index)) == Payload(index)
    ensures untagged ==> EmitUntag(v) == Wrap(Payload(v))
  {
    UntagReadsPayload(index);
    if untagged {
      UntagReadsPayload(v);
    }
  }

  lemma CellAgrees(w: World, ins: Instr, c: Core, m: R.Mem)
    requires ins.CellLength? || ins.CellFlags?
    requires Same(c, m) && Exec(w, ins, c).Some?
    ensures Agrees(Exec(w, ins, c).value, m, R.Lower(w, ins, m, c.sp))
  {
    LengthWordDecodes(c.heap, c.stack[c.sp]);
  }

  /** Masking and shifting the length word give the length and the flag byte back. */
  lemma LengthWordDecodes(h: Heap, a: Word)
    requires LengthWord(h, a).Some?
    ensures var lw := LengthWord(h, a).value;
      && EmitTag(R.CellField(true, lw)) == Tagged(|h[a].words|)
      && EmitTag(R.CellField(false, lw)) == Tagged(h[a].flags)
  {
    var len, flags := |h[a].words|, h[a].flags;
    LengthWordFields(flags, len, LengthWord(h, a).value);
    EmitTagIsTagged(len);
    EmitTagIsTagged(flags);
  }

  lemma LengthWordFields(flags: Byte, len: nat, lw: Word)
    requires len < 0x100_0000_0000_0000 && lw == flags * 0x100_0000_0000_0000 + len
    ensures R.CellField(true, lw) == len && R.CellField(false, lw) == flags
  {
  }

  // ----- the stack container ---------------------------------------------------------

  function ZerosFrom(stack: seq<Word>, lo: int, hi: int): seq<Word>
    requires 0 <= lo <= hi <= |stack|
  {
    seq(|stack|, i requires 0 <= i < |stack| => if lo <= i < hi then 1 else stack[i])
  }

  lemma {:induction false} PushZerosFills(c: Core, n: nat)
    requires PushZeros(c, n).Some?
    ensures n <= c.sp && (n > 0 ==> c.sp <= |c.stack|)
    ensures n > 0 ==> PushZeros(c, n).value == c.(sp := c.sp - n, stack := ZerosFrom(c.stack, c.sp - n, c.sp))
    ensures n == 0 ==> PushZeros(c, n).value == c
    decreases n
  {
    if n > 0 {
      var c1 := Push(c, Tagged(0)).value;
      PushZerosFills(c1, n - 1);
      assert PushZeros(c, n).value.stack == ZerosFrom(c.stack, c.sp - n, c.sp);
    }
  }

  lemma {:induction false} StoreZerosFills(m: R.Mem, lo: int, hi: int)
    requires 0 <= lo <= hi <= |m.stack|
    ensures R.StoreZeros(m, lo, hi) == Some(m.(stack := ZerosFrom(m.stack, lo, hi)))
    decreases hi - lo
  {
    if lo == hi {
      assert ZerosFrom(m.stack, lo, hi) == m.stack;
    } else {
      var m1 := R.StoreAt(m, lo, Tagged(0)).value;
      StoreZerosFills(m1, lo + 1, hi);
      assert ZerosFrom(m1.stack, lo + 1, hi) == ZerosFrom(m.stack, lo, hi);
    }
  }

  lemma ContainerAgrees(w: World, n: nat, c: Core, m: R.Mem)
    requires Same(c, m) && ExecContainer(w, n, c).Some?
    ensures Agrees(ExecContainer(w, n, c).value, m, R.LowerContainer(w, m, c.sp, n))
  {
    if c.sp < n {
      NoZerosBelow(m, c.sp - n, c.sp);
    } else if c.sp == n {
      if n > 0 && n <= |m.stack| {
        StoreZerosFills(m, 0, n);
      }
    } else {
      PushZerosFills(c, n);
      if n > 0 {
        StoreZerosFills(m, c.sp - n, c.sp);
      }
    }
  }

  lemma {:induction false} NoZerosBelow(m: R.Mem, lo: int, hi: int)
    requires lo < 0 <= hi
    ensures R.StoreZeros(m, lo, hi).None?
  {
  }

  // ----- allocation --------------------------------------------------------------------

  /** The fields `base + i` up to `base + n - 1` of `p` set from the stack downwards from
      `top - i`. */
  function FieldsSet(h: Heap, p: Word, stack: seq<Word>, top: int, base: nat, i: nat, n: nat): Heap
    requires p in h && i <= n && base + n <= |h[p].words| && 0 <= top - n + 1 && top < |stack|
  {
    var ws := h[p].words;
    h[p := h[p].(words := seq(|ws|, j requires 0 <= j < |ws| =>
      if base + i <= j < base + n then stack[top - (j - base)] else ws[j]))]
  }

  lemma {:induction false} PopFieldsSets(c: Core, p: Word, base: nat, n: nat)
    requires PopFields(c, p, base, n).Some? && p in c.heap && c.sp <= |c.stack|
    ensures c.sp + n <= |c.stack|
    ensures n > 0 ==> base + n <= |c.heap[p].words|
    ensures PopFields(c, p, base, n).value ==
      if n == 0 then c
      else c.(sp := c.sp + n, heap := FieldsSet(c.heap, p, c.stack, c.sp + n - 1, base, 0, n))
    decreases n
  {
    if n > 0 {
      var c1 := Pop(c).value.1;
      var h := WriteWord(c1.heap, p, base + n - 1, c.stack[c.sp]).value;
      var c2 := c1.(heap := h);
      PopFieldsSets(c2, p, base, n - 1);
      var r := PopFields(c, p, base, n).value;
      var expected := FieldsSet(c.heap, p, c.stack, c.sp + n - 1, base, 0, n);
      assert r.heap[p].words == expected[p].words;
      assert r.heap == expected;
    }
  }

  lemma {:induction false} StoreFieldsSets(m: R.Mem, top: int, p: Word, base: nat, i: nat, n: nat)
    requires p in m.heap && i <= n && base + n <= |m.heap[p].words| && 0 <= top - n + 1 && top < |m.stack|
    ensures R.StoreFields(m, top, p, base, i, n)
      == Some(m.(heap := FieldsSet(m.heap, p, m.stack, top, base, i, n)))
    decreases n - i
  {
    if i == n {
      assert FieldsSet(m.heap, p, m.stack, top, base, i, n)[p].words == m.heap[p].words;
      assert FieldsSet(m.heap, p, m.stack, top, base, i, n) == m.heap;
    } else {
      var h := WriteWord(m.heap, p, base + i, m.stack[top - i]).value;
      var m1 := m.(heap := h);
      StoreFieldsSets(m1, top, p, base, i + 1, n);
      var l, r := FieldsSet(h, p, m.stack, top, base, i + 1, n), FieldsSet(m.heap, p, m.stack, top, base, i, n);
      assert l[p].words == r[p].words;
      assert l == r;
    }
  }

  lemma TupleAgrees(w: World, n: nat, c: Core, m: R.Mem)
    requires Same(c, m) && ExecTuple(w, n, c).Some? && w.allocGc(c.allocs) == None
    ensures Agrees(ExecTuple(w, n, c).value, m, R.LowerTuple(w, m, c.sp, n))
  {
    var r := Allocate(w, c.heap, c.allocs, n, 0).value;
    var a := R.RegionAlloc(w, m, c.sp, n, 0);
    if r.Allocated? {
      var c0 := c.(heap := r.heap, allocs := c.allocs + 1);
      if n > 0 {
        PopFieldsSets(c0, r.addr, 0, n);
        StoreFieldsSets(a.m, c.sp + n - 1, r.addr, 0, 0, n);
      }
    }
  }

  lemma ClosureAgrees(w: World, n: nat, c: Core, m: R.Mem)
    requires Same(c, m) && ExecClosure(w, n, c).Some? && w.allocGc(c.allocs) == None
    ensures Agrees(ExecClosure(w, n, c).value, m, R.LowerClosure(w, m, c.sp, n))
  {
    var r := Allocate(w, c.heap, c.allocs, n + 1, F_CLOSURE_OBJ).value;
    var a := R.RegionAlloc(w, m, c.sp, n + 1, F_CLOSURE_OBJ);
    if r.Allocated? {
      FillClosureAgrees(c.(heap := r.heap, allocs := c.allocs + 1), a.m, r.addr, n);
    }
  }

  lemma FillClosureAgrees(c: Core, m: R.Mem, p: Word, n: nat)
    requires Same(c, m) && FillClosure(c, p, n).Some?
    requires p in c.heap && n + 1 <= |c.heap[p].words|
    ensures Agrees(FillClosure(c, p, n).value, m, R.FillClosure(m, c.sp, p, n))
  {
    if n > 0 {
      PopFieldsSets(c, p, 1, n);
      StoreFieldsSets(m, c.sp + n - 1, p, 1, 0, n);
    }
  }

  lemma {:induction false} FillLoopIsFill(h: Heap, p: Word, i: nat, n: nat, v: Word)
    ensures R.FillLoop(h, p, i, n, v) == FillWords(h, p, i, n, v)
    decreases n - i
  {
    if i < n && WriteWord(h, p, i, v).Some? {
      FillLoopIsFill(WriteWord(h, p, i, v).value, p, i + 1, n, v);
    }
  }

  lemma AllocRefAgrees(w: World, c: Core, m: R.Mem)
    requires Same(c, m) && ExecAllocRef(w, c).Some? && w.allocGc(c.allocs) == None
    ensures Agrees(ExecAllocRef(w, c).value, m, R.LowerAllocRef(w, m, c.sp))
  {
  }

  lemma AllocWordsAgrees(w: World, c: Core, m: R.Mem)
    requires UntagsInts(AllocWordMemory, c) && Same(c, m)
    requires ExecAllocWords(w, c).Some? && w.allocGc(c.allocs) == None
    ensures Agrees(ExecAllocWords(w, c).value, m, R.LowerAllocWords(w, m, c.sp))
  {
    var length, flags := c.stack[c.sp + 2], c.stack[c.sp + 1];
    UntagReadsPayload(length);
    UntagReadsPayload(flags);
    WordsOfAgrees(w, c, m, Payload(length), Payload(flags));
  }

  /** The same once length and flags have been read. */
  lemma WordsOfAgrees(w: World, c: Core, m: R.Mem, length: int, flags: int)
    requires Same(c, m) && ExecAllocWords(w, c).Some? && w.allocGc(c.allocs) == None
    requires length == Payload(c.stack[c.sp + 2]) && flags == Payload(c.stack[c.sp + 1])
    ensures Agrees(ExecAllocWords(w, c).value, m, R.AllocWordsOf(w, m, c.sp, length, flags))
  {
    var r := Allocate(w, c.heap, c.allocs, length, flags).value;
    if r.Allocated? {
      FillLoopIsFill(r.heap, r.addr, 0, length, c.stack[c.sp]);
    }
  }

  lemma AllocBytesAgrees(w: World, c: Core, m: R.Mem)
    requires UntagsInts(AllocByteMem, c) && Same(c, m)
    requires ExecAllocBytes(w, c).Some? && w.allocGc(c.allocs) == None
    ensures Agrees(ExecAllocBytes(w, c).value, m, R.LowerAllocBytes(w, m, c.sp))
  {
    UntagReadsPayload(c.stack[c.sp]);
    UntagReadsPayload(c.stack[c.sp + 1]);
  }
}
