/** Allocating instructions and a moving collector: whatever the collection inside the
    allocation moves, the new objects are filled with the moved operands. */
module GcAlloc {
  import opened Basics
  import opened Words
  import opened Machine
  import opened Instr
  import opened Typing
  import opened Gc
  import opened GcOps
  import L = Lowering
  import R = Region

  /** Both allocations succeeded: the memories without the new objects are related, and the
      new objects, still holding the same junk, lie at fresh movable addresses. */
  ghost predicate NewRel(l: Layout, rho: Renaming, h: Heap, h': Heap, a: R.Alloc, a': R.Alloc, sp: int, o: Obj) {
    && a.NewObj? && a'.NewObj?
    && MemRel(l, rho, a.m.(heap := h), a'.m.(heap := h'), sp)
    && a.p !in h && a'.p !in h' && l.Movable(a.p) && l.Movable(a'.p)
    && a.m.heap == h[a.p := o] && a'.m.heap == h'[a'.p := o]
  }

  lemma CollectsTo(l: Layout, rho: Renaming, w': World, m: R.Mem, m': R.Mem, sp: int, g: Option<Move>)
    returns (rho': Renaming)
    requires MemRel(l, rho, m, m', sp) && w'.layout == l
    ensures var c := R.Collect(w', R.Publish(m', sp), g);
      c.Some? ==> MemRel(l, rho', R.Publish(m, sp), c.value, sp)
  {
    rho' := rho;
    if g.Some? && LegalMove(l, g.value, m'.stack, sp, m'.heap) {
      CollectRel(l, rho, m, m', sp, g.value);
      rho' := Moved(rho, g.value.to);
    }
  }

  /** `region_alloc` in both worlds. */
  lemma RegionAllocRel(l: Layout, rho: Renaming, w: World, w': World, m: R.Mem, m': R.Mem, sp: int, size: int, flags: int)
    returns (rho': Renaming, h': Heap)
    requires WorldsRel(w, w') && w.layout == l && MemRel(l, rho, m, m', sp)
    ensures var a, a' := R.RegionAlloc(w, m, sp, size, flags), R.RegionAlloc(w', m', sp, size, flags);
      && (a.Illegal? || a'.Illegal?
          || (a.NoSpace? && a'.NoSpace? && MemRel(l, rho', a.m, a'.m, sp))
          || (size >= 0 && NewRel(l, rho', m.heap, h', a, a', sp, Junk(w, m.allocs, size, flags))))
      && (!a.Illegal? ==> a.m.stack == m.stack)
  {
    rho' := CollectsTo(l, rho, w', m, m', sp, w'.allocGc(m'.allocs));
    h' := m'.heap;
    var c := R.Collect(w', R.Publish(m', sp), w'.allocGc(m'.allocs));
    if c.Some? {
      h' := c.value.heap;
      if size >= 0 {
        assert Junk(w', m.allocs, size, flags) == Junk(w, m.allocs, size, flags);
      }
    }
  }

  /** Once the new objects hold related words, they belong to the renaming. */
  lemma NewDone(l: Layout, rho: Renaming, h: Heap, h': Heap, a: R.Alloc, a': R.Alloc, sp: int, junk: Obj, o: Obj, o': Obj)
    requires NewRel(l, rho, h, h', a, a', sp, junk) && ObjRel(l, rho[a.p := a'.p], o, o')
    ensures MemRel(l, rho[a.p := a'.p], a.m.(heap := h[a.p := o]), a'.m.(heap := h'[a'.p := o']), sp)
    ensures WordRel(l, rho[a.p := a'.p], a.p, a'.p)
  {
    ExtendRel(l, rho, h, h', a.p, a'.p, o, o');
    var xs, ys := a.m.stack[sp..], a'.m.stack[sp..];
    forall i | 0 <= i < |xs| ensures WordRel(l, rho[a.p := a'.p], xs[i], ys[i]) {
      WordRelGrows(l, rho, h, a.p, a'.p, xs[i], ys[i]);
    }
  }

  /** The pointer to the filled new object replaces a stack slot. */
  lemma FreshRel(l: Layout, rho: Renaming, h: Heap, h': Heap, a: R.Alloc, a': R.Alloc, sp: int, junk: Obj, o: Obj, o': Obj,
                 at: int)
    requires NewRel(l, rho, h, h', a, a', sp, junk) && ObjRel(l, rho[a.p := a'.p], o, o') && sp - 1 <= at
    ensures LowsRel(l, sp, R.StoreCont(a.m.(heap := h[a.p := o]), at, a.p), R.StoreCont(a'.m.(heap := h'[a'.p := o']), at, a'.p))
  {
    NewDone(l, rho, h, h', a, a', sp, junk, o, o');
    StoreContRel(l, rho[a.p := a'.p], a.m.(heap := h[a.p := o]), a'.m.(heap := h'[a'.p := o']), sp, sp, at, a.p, a'.p);
  }

  /** Words of the stack stay related when the new objects join the renaming. */
  lemma SlotGrows(l: Layout, rho: Renaming, h: Heap, h': Heap, a: R.Alloc, a': R.Alloc, sp: int, junk: Obj, i: int)
    requires NewRel(l, rho, h, h', a, a', sp, junk) && sp <= i < |a.m.stack|
    ensures i < |a'.m.stack| && WordRel(l, rho[a.p := a'.p], a.m.stack[i], a'.m.stack[i])
  {
    LoadRel(l, rho, a.m.(heap := h), a'.m.(heap := h'), sp, i);
    WordRelGrows(l, rho, h, a.p, a'.p, a.m.stack[i], a'.m.stack[i]);
  }

  /** The words that filling fields `base` to `base + n - 1` from the stack leaves. */
  function Filled(words: seq<Word>, stack: seq<Word>, top: int, base: nat, n: nat): seq<Word>
    requires base + n <= |words| && 0 <= top - n + 1 && top < |stack|
  {
    seq(|words|, j requires 0 <= j < |words| => if base <= j < base + n then stack[top - (j - base)] else words[j])
  }

  lemma {:induction false} FieldsFill(m: R.Mem, top: int, p: Word, base: nat, n: nat)
    requires p in m.heap && base + n <= |m.heap[p].words| && -1 <= top - n
    requires R.StoreFields(m, top, p, base, 0, n).Some? && top - n < |m.stack|
    ensures top < |m.stack|
    ensures R.StoreFields(m, top, p, base, 0, n) ==
      Some(m.(heap := m.heap[p := m.heap[p].(words := Filled(m.heap[p].words, m.stack, top, base, n))]))
  {
    L.StoreFieldsSets(m, top, p, base, 0, n);
    assert L.FieldsSet(m.heap, p, m.stack, top, base, 0, n)[p].words == Filled(m.heap[p].words, m.stack, top, base, n);
  }

  lemma FilledRel(l: Layout, rho: Renaming, h: Heap, h': Heap, a: R.Alloc, a': R.Alloc, sp: int, junk: Obj,
                  base: nat, n: nat, j: nat)
    requires NewRel(l, rho, h, h', a, a', sp, junk)
    requires base + n <= |junk.words| && sp + n - 1 < |a.m.stack| && base <= j < base + n
    ensures WordRel(l, rho[a.p := a'.p], Filled(junk.words, a.m.stack, sp + n - 1, base, n)[j],
      Filled(junk.words, a'.m.stack, sp + n - 1, base, n)[j])
  {
    SlotGrows(l, rho, h, h', a, a', sp, junk, sp + n - 1 - (j - base));
  }

  // ----- the instructions -------------------------------------------------------------------

  lemma TupleRel(l: Layout, rho: Renaming, w: World, w': World, n: nat, m: R.Mem, m': R.Mem, sp: int)
    requires WorldsRel(w, w') && w.layout == l && MemRel(l, rho, m, m', sp)
    ensures LowsRel(l, sp, R.LowerTuple(w, m, sp, n), R.LowerTuple(w', m', sp, n))
  {
    var a, a' := R.RegionAlloc(w, m, sp, n, 0), R.RegionAlloc(w', m', sp, n, 0);
    var rho1, h' := RegionAllocRel(l, rho, w, w', m, m', sp, n, 0);
    if a.NoSpace? && a'.NoSpace? {
      RaiseRel(l, rho1, a.m, a'.m, sp, StackOverflow);
    } else if a.NewObj? && a'.NewObj? && R.StoreFields(a.m, sp + n - 1, a.p, 0, 0, n).Some? {
      TupleFills(l, rho1, m.heap, h', a, a', sp, n, Junk(w, m.allocs, n, 0));
    }
  }

  lemma TupleFills(l: Layout, rho: Renaming, h: Heap, h': Heap, a: R.Alloc, a': R.Alloc, sp: int, n: nat, junk: Obj)
    requires NewRel(l, rho, h, h', a, a', sp, junk) && |junk.words| == n && junk.flags == 0
    requires R.StoreFields(a.m, sp + n - 1, a.p, 0, 0, n).Some?
    ensures R.StoreFields(a'.m, sp + n - 1, a'.p, 0, 0, n).Some?
    ensures LowsRel(l, sp, R.StoreCont(R.StoreFields(a.m, sp + n - 1, a.p, 0, 0, n).value, sp + n - 1, a.p),
      R.StoreCont(R.StoreFields(a'.m, sp + n - 1, a'.p, 0, 0, n).value, sp + n - 1, a'.p))
  {
    var top := sp + n - 1;
    FieldsFill(a.m, top, a.p, 0, n);
    L.StoreFieldsSets(a'.m, top, a'.p, 0, 0, n);
    FieldsFill(a'.m, top, a'.p, 0, n);
    var o, o' := junk.(words := Filled(junk.words, a.m.stack, top, 0, n)), junk.(words := Filled(junk.words, a'.m.stack, top, 0, n));
    forall j | 0 <= j < n ensures WordRel(l, rho[a.p := a'.p], o.words[j], o'.words[j]) {
      FilledRel(l, rho, h, h', a, a', sp, junk, 0, n, j);
    }
    assert h[a.p := junk][a.p := o] == h[a.p := o];
    assert h'[a'.p := junk][a'.p := o'] == h'[a'.p := o'];
    FreshRel(l, rho, h, h', a, a', sp, junk, o, o', top);
  }

  lemma AllocRefRel(l: Layout, rho: Renaming, w: World, w': World, m: R.Mem, m': R.Mem, sp: int)
    requires WorldsRel(w, w') && w.layout == l && MemRel(l, rho, m, m', sp)
    ensures LowsRel(l, sp, R.LowerAllocRef(w, m, sp), R.LowerAllocRef(w', m', sp))
  {
    var a, a' := R.RegionAlloc(w, m, sp, 1, F_MUTABLE_BIT), R.RegionAlloc(w', m', sp, 1, F_MUTABLE_BIT);
    var rho1, h' := RegionAllocRel(l, rho, w, w', m, m', sp, 1, F_MUTABLE_BIT);
    if a.NoSpace? && a'.NoSpace? {
      RaiseRel(l, rho1, a.m, a'.m, sp, StackOverflow);
    } else if a.NewObj? && a'.NewObj? && sp < |a.m.stack| {
      RefFills(l, rho1, m.heap, h', a, a', sp, Junk(w, m.allocs, 1, F_MUTABLE_BIT));
    }
  }

  lemma RefFills(l: Layout, rho: Renaming, h: Heap, h': Heap, a: R.Alloc, a': R.Alloc, sp: int, junk: Obj)
    requires NewRel(l, rho, h, h', a, a', sp, junk) && |junk.words| == 1 && junk.flags == F_MUTABLE_BIT && sp < |a.m.stack|
    ensures sp < |a'.m.stack|
    ensures var f, f' := WriteWord(a.m.heap, a.p, 0, a.m.stack[sp]), WriteWord(a'.m.heap, a'.p, 0, a'.m.stack[sp]);
      && f.Some? && f'.Some?
      && LowsRel(l, sp, R.StoreCont(a.m.(heap := f.value), sp, a.p), R.StoreCont(a'.m.(heap := f'.value), sp, a'.p))
  {
    SlotGrows(l, rho, h, h', a, a', sp, junk, sp);
    WriteFresh(h, a.p, junk, a.m.stack[sp]);
    WriteFresh(h', a'.p, junk, a'.m.stack[sp]);
    FreshRel(l, rho, h, h', a, a', sp, junk, junk.(words := [a.m.stack[sp]]), junk.(words := [a'.m.stack[sp]]), sp);
  }

  lemma WriteFresh(h: Heap, p: Word, junk: Obj, v: Word)
    requires |junk.words| == 1
    ensures WriteWord(h[p := junk], p, 0, v) == Some(h[p := junk.(words := [v])])
  {
    assert junk.words[0 := v] == [v];
    assert h[p := junk][p := junk.(words := [v])] == h[p := junk.(words := [v])];
  }

  lemma AllocBytesRel(l: Layout, rho: Renaming, w: World, w': World, m: R.Mem, m': R.Mem, sp: int)
    requires WorldsRel(w, w') && w.layout == l && MemRel(l, rho, m, m', sp)
    requires TypedIns(l, AllocByteMem, m.stack, sp, m.heap)
    ensures LowsRel(l, sp, R.LowerAllocBytes(w, m, sp), R.LowerAllocBytes(w', m', sp))
  {
    SameTagged(l, rho, m, m', sp, sp);
    SameTagged(l, rho, m, m', sp, sp + 1);
    UntagReadsPayload(m.stack[sp]);
    AllocBytesOfRel(l, rho, w, w', m, m', sp, Signed(EmitUntag(m.stack[sp + 1])), Signed(EmitUntag(m.stack[sp])));
  }

  lemma AllocBytesOfRel(l: Layout, rho: Renaming, w: World, w': World, m: R.Mem, m': R.Mem, sp: int, size: int, flags: int)
    requires WorldsRel(w, w') && w.layout == l && MemRel(l, rho, m, m', sp) && flags % 4 == F_BYTE_OBJ
    ensures LowsRel(l, sp, R.AllocBytesOf(w, m, sp, size, flags), R.AllocBytesOf(w', m', sp, size, flags))
  {
    var a, a' := R.RegionAlloc(w, m, sp, size, flags), R.RegionAlloc(w', m', sp, size, flags);
    var rho1, h' := RegionAllocRel(l, rho, w, w', m, m', sp, size, flags);
    if a.NoSpace? && a'.NoSpace? {
      RaiseRel(l, rho1, a.m, a'.m, sp, StackOverflow);
    } else if a.NewObj? && a'.NewObj? {
      var junk := Junk(w, m.allocs, size, flags);
      FlagsType(flags);
      FreshRel(l, rho1, m.heap, h', a, a', sp, junk, junk, junk, sp + 1);
    }
  }

  lemma FlagsType(flags: int)
    ensures (flags % 256) % 4 == flags % 4
  {
  }

  function Repeat(v: Word, n: nat): seq<Word> { seq(n, i => v) }

  lemma {:induction false} FillLoopFills(h: Heap, p: Word, o: Obj, i: nat, n: nat, v: Word)
    requires i <= n == |o.words| && p in h && h[p] == o && o.words[..i] == Repeat(v, i)
    ensures R.FillLoop(h, p, i, n, v) == Some(h[p := o.(words := Repeat(v, n))])
    decreases n - i
  {
    if i == n {
      assert o.words == o.words[..i];
      assert h == h[p := o];
    } else {
      var o1 := o.(words := o.words[i := v]);
      assert o1.words[..i + 1] == o.words[..i] + [v] == Repeat(v, i + 1);
      FillLoopFills(h[p := o1], p, o1, i + 1, n, v);
      assert h[p := o1][p := o.(words := Repeat(v, n))] == h[p := o.(words := Repeat(v, n))];
    }
  }

  lemma AllocWordsRel(l: Layout, rho: Renaming, w: World, w': World, m: R.Mem, m': R.Mem, sp: int)
    requires WorldsRel(w, w') && w.layout == l && MemRel(l, rho, m, m', sp)
    requires TypedIns(l, AllocWordMemory, m.stack, sp, m.heap)
    ensures LowsRel(l, sp, R.LowerAllocWords(w, m, sp), R.LowerAllocWords(w', m', sp))
  {
    SameTagged(l, rho, m, m', sp, sp + 1);
    SameTagged(l, rho, m, m', sp, sp + 2);
    UntagReadsPayload(m.stack[sp + 1]);
    AllocWordsOfRel(l, rho, w, w', m, m', sp, Signed(EmitUntag(m.stack[sp + 2])), Signed(EmitUntag(m.stack[sp + 1])));
  }

  lemma AllocWordsOfRel(l: Layout, rho: Renaming, w: World, w': World, m: R.Mem, m': R.Mem, sp: int, size: int, flags: int)
    requires WorldsRel(w, w') && w.layout == l && MemRel(l, rho, m, m', sp)
    requires sp < |m.stack| && (flags % 4 == F_BYTE_OBJ ==> TaggedSlot(m.stack, sp))
    ensures LowsRel(l, sp, R.AllocWordsOf(w, m, sp, size, flags), R.AllocWordsOf(w', m', sp, size, flags))
  {
    var a, a' := R.RegionAlloc(w, m, sp, size, flags), R.RegionAlloc(w', m', sp, size, flags);
    var rho1, h' := RegionAllocRel(l, rho, w, w', m, m', sp, size, flags);
    if a.NoSpace? && a'.NoSpace? {
      RaiseRel(l, rho1, a.m, a'.m, sp, StackOverflow);
    } else if a.NewObj? && a'.NewObj? {
      FlagsType(flags);
      WordsFill(l, rho1, m.heap, h', a, a', sp, size, Junk(w, m.allocs, size, flags));
    }
  }

  lemma {:induction false} WordsFill(l: Layout, rho: Renaming, h: Heap, h': Heap, a: R.Alloc, a': R.Alloc, sp: int, size: nat, junk: Obj)
    requires NewRel(l, rho, h, h', a, a', sp, junk) && |junk.words| == size && sp < |a.m.stack|
    requires IsByteObj(junk) ==> IsTagged(a.m.stack[sp])
    ensures sp < |a'.m.stack|
    ensures var f, f' := R.FillLoop(a.m.heap, a.p, 0, size, a.m.stack[sp]), R.FillLoop(a'.m.heap, a'.p, 0, size, a'.m.stack[sp]);
      && f.Some? && f'.Some?
      && LowsRel(l, sp, R.StoreCont(a.m.(heap := f.value), sp + 2, a.p), R.StoreCont(a'.m.(heap := f'.value), sp + 2, a'.p))
  {
    SlotGrows(l, rho, h, h', a, a', sp, junk, sp);
    var v, v' := a.m.stack[sp], a'.m.stack[sp];
    if IsByteObj(junk) {
      SameTagged(l, rho, a.m.(heap := h), a'.m.(heap := h'), sp, sp);
    }
    var o, o' := junk.(words := Repeat(v, size)), junk.(words := Repeat(v', size));
    FillLoopFills(a.m.heap, a.p, junk, 0, size, v);
    FillLoopFills(a'.m.heap, a'.p, junk, 0, size, v');
    assert h[a.p := junk][a.p := o] == h[a.p := o];
    assert h'[a'.p := junk][a'.p := o'] == h'[a'.p := o'];
    FreshRel(l, rho, h, h', a, a', sp, junk, o, o', sp + 2);
  }

  /** The captures and the code address of a new closure. */
  function ClosureWords(words: seq<Word>, stack: seq<Word>, sp: int, n: nat, code: Word): seq<Word>
    requires |words| == n + 1 && 0 <= sp && sp + n - 1 < |stack|
  {
    Filled(words, stack, sp + n - 1, 1, n)[0 := code]
  }

  lemma ClosureRel(l: Layout, rho: Renaming, w: World, w': World, n: nat, m: R.Mem, m': R.Mem, sp: int)
    requires WorldsRel(w, w') && w.layout == l && MemRel(l, rho, m, m', sp)
    requires WordObjAt(m.heap, m.stack, sp + n)
    ensures LowsRel(l, sp, R.LowerClosure(w, m, sp, n), R.LowerClosure(w', m', sp, n))
  {
    var a, a' := R.RegionAlloc(w, m, sp, n + 1, F_CLOSURE_OBJ), R.RegionAlloc(w', m', sp, n + 1, F_CLOSURE_OBJ);
    var rho1, h' := RegionAllocRel(l, rho, w, w', m, m', sp, n + 1, F_CLOSURE_OBJ);
    if a.NoSpace? && a'.NoSpace? {
      RaiseRel(l, rho1, a.m, a'.m, sp, StackOverflow);
    } else if a.NewObj? && a'.NewObj? {
      ClosureFills(l, rho1, m.heap, h', a, a', sp, n, Junk(w, m.allocs, n + 1, F_CLOSURE_OBJ));
    }
  }

  lemma ClosureFills(l: Layout, rho: Renaming, h: Heap, h': Heap, a: R.Alloc, a': R.Alloc, sp: int, n: nat, junk: Obj)
    requires NewRel(l, rho, h, h', a, a', sp, junk) && |junk.words| == n + 1 && junk.flags == F_CLOSURE_OBJ
    requires WordObjAt(h, a.m.stack, sp + n)
    ensures LowsRel(l, sp, R.FillClosure(a.m, sp, a.p, n), R.FillClosure(a'.m, sp, a'.p, n))
  {
    var src := a.m.stack[sp + n];
    if ReadWord(h, src, 0).Some? {
      FieldRel(l, rho, a.m.(heap := h), a'.m.(heap := h'), sp, sp + n, 0);
      CodeFills(l, rho, h, h', a, a', sp, n, junk, ReadWord(h, src, 0).value, ReadWord(h', a'.m.stack[sp + n], 0).value);
    } else {
      ClosureNeedsCode(h, a, sp, n, junk);
    }
  }

  lemma CodeFills(l: Layout, rho: Renaming, h: Heap, h': Heap, a: R.Alloc, a': R.Alloc, sp: int, n: nat, junk: Obj,
                  code: Word, code': Word)
    requires NewRel(l, rho, h, h', a, a', sp, junk) && |junk.words| == n + 1 && junk.flags == F_CLOSURE_OBJ
    requires sp + n < |a.m.stack| && sp + n < |a'.m.stack|
    requires ReadWord(h, a.m.stack[sp + n], 0) == Some(code) && ReadWord(h', a'.m.stack[sp + n], 0) == Some(code')
    requires WordRel(l, rho, code, code')
    ensures LowsRel(l, sp, R.FillClosure(a.m, sp, a.p, n), R.FillClosure(a'.m, sp, a'.p, n))
  {
    ClosureBuilt(h, a, sp, n, junk, code);
    ClosureBuilt(h', a', sp, n, junk, code');
    ClosureWordsRel(l, rho, h, h', a, a', sp, n, junk, code, code');
    var o, o' := junk.(words := ClosureWords(junk.words, a.m.stack, sp, n, code)),
      junk.(words := ClosureWords(junk.words, a'.m.stack, sp, n, code'));
    FreshRel(l, rho, h, h', a, a', sp, junk, o, o', sp + n);
  }

  lemma ClosureWordsRel(l: Layout, rho: Renaming, h: Heap, h': Heap, a: R.Alloc, a': R.Alloc, sp: int, n: nat, junk: Obj,
                        code: Word, code': Word)
    requires NewRel(l, rho, h, h', a, a', sp, junk) && |junk.words| == n + 1 && sp + n < |a.m.stack|
    requires WordRel(l, rho, code, code')
    ensures WordsRel(l, rho[a.p := a'.p], ClosureWords(junk.words, a.m.stack, sp, n, code),
      ClosureWords(junk.words, a'.m.stack, sp, n, code'))
  {
    forall j | 0 <= j < n + 1
      ensures WordRel(l, rho[a.p := a'.p], ClosureWords(junk.words, a.m.stack, sp, n, code)[j],
        ClosureWords(junk.words, a'.m.stack, sp, n, code')[j])
    {
      if j == 0 {
        WordRelGrows(l, rho, h, a.p, a'.p, code, code');
      } else {
        FilledRel(l, rho, h, h', a, a', sp, junk, 1, n, j);
      }
    }
  }

  lemma ClosureBuilt(h: Heap, a: R.Alloc, sp: int, n: nat, junk: Obj, code: Word)
    requires a.NewObj? && a.p !in h && a.m.heap == h[a.p := junk] && |junk.words| == n + 1
    requires 0 <= sp && sp + n < |a.m.stack| && ReadWord(h, a.m.stack[sp + n], 0) == Some(code)
    ensures R.FillClosure(a.m, sp, a.p, n) == R.StoreCont(
      a.m.(heap := h[a.p := junk.(words := ClosureWords(junk.words, a.m.stack, sp, n, code))]), sp + n, a.p)
  {
    var top := sp + n - 1;
    L.StoreFieldsSets(a.m, top, a.p, 1, 0, n);
    FieldsFill(a.m, top, a.p, 1, n);
    var o1 := junk.(words := Filled(junk.words, a.m.stack, top, 1, n));
    var o := junk.(words := ClosureWords(junk.words, a.m.stack, sp, n, code));
    assert h[a.p := junk][a.p := o1] == h[a.p := o1];
    assert h[a.p := o1][a.p := o] == h[a.p := o];
  }

  lemma ClosureNeedsCode(h: Heap, a: R.Alloc, sp: int, n: nat, junk: Obj)
    requires a.NewObj? && a.p !in h && a.m.heap == h[a.p := junk] && |junk.words| == n + 1
    requires 0 <= sp && sp + n < |a.m.stack| && a.m.stack[sp + n] in h && ReadWord(h, a.m.stack[sp + n], 0).None?
    ensures R.FillClosure(a.m, sp, a.p, n).None?
  {
    L.StoreFieldsSets(a.m, sp + n - 1, a.p, 1, 0, n);
    FieldsFill(a.m, sp + n - 1, a.p, 1, n);
  }

  // ----- any instruction ----------------------------------------------------------------------

  /** A lowered instruction on a typed heap is blind to the collector. */
  lemma LowerRel(rho: Renaming, w: World, w': World, ins: Instr, m: R.Mem, m': R.Mem, sp: int)
    requires WorldsRel(w, w') && MemRel(w.layout, rho, m, m', sp) && TypedIns(w.layout, ins, m.stack, sp, m.heap)
    ensures LowsRel(w.layout, sp, R.Lower(w, ins, m, sp), R.Lower(w', ins, m', sp))
  {
    var l := w.layout;
    if L.MovesWords(ins) {
      if ins.Indirect? || ins.IndirectLocal? {
        IndirectRel(l, rho, w, w', ins, m, m', sp);
      } else {
        MoveRel(l, rho, w, w', ins, m, m', sp);
      }
    } else if ins.Fixed? || ins.FixedDivide? || ins.WordArith? || ins.WordDivide? {
      ArithRel(l, rho, w, w', ins, m, m', sp);
    } else if ins.Comparison? {
      CompareRel(l, rho, w, w', ins.cmp, m, m', sp);
    } else if ins.NotBoolean? {
      NotRel(l, rho, w, w', m, m', sp);
    } else if ins.IsTaggedTop? || ins.IsTaggedLocal? {
      TestRel(l, rho, w, w', ins, m, m', sp);
    } else if ins.LoadMl? {
      LoadMlRel(l, rho, ins.kind, m, m', sp);
    } else if ins.StoreMl? {
      StoreMlRel(l, rho, ins.untagged, m, m', sp);
    } else if ins.CellLength? || ins.CellFlags? {
      CellRel(l, rho, ins.CellLength?, m, m', sp);
    } else if ins.StackContainer? {
      ContainerRel(l, rho, w, w', ins.n, m, m', sp);
    } else {
      AllocRel(rho, w, w', ins, m, m', sp);
    }
  }

  lemma AllocRel(rho: Renaming, w: World, w': World, ins: Instr, m: R.Mem, m': R.Mem, sp: int)
    requires WorldsRel(w, w') && MemRel(w.layout, rho, m, m', sp) && TypedIns(w.layout, ins, m.stack, sp, m.heap)
    requires ins.Tuple? || ins.MakeClosure? || ins.AllocRef? || ins.AllocWordMemory? || ins.AllocByteMem?
      || R.Lower(w, ins, m, sp).None?
    ensures LowsRel(w.layout, sp, R.Lower(w, ins, m, sp), R.Lower(w', ins, m', sp))
  {
    var l := w.layout;
    if ins.Tuple? {
      TupleRel(l, rho, w, w', ins.n, m, m', sp);
    } else if ins.MakeClosure? {
      ClosureRel(l, rho, w, w', ins.n, m, m', sp);
    } else if ins.AllocRef? {
      AllocRefRel(l, rho, w, w', m, m', sp);
    } else if ins.AllocWordMemory? {
      AllocWordsRel(l, rho, w, w', m, m', sp);
    } else if ins.AllocByteMem? {
      AllocBytesRel(l, rho, w, w', m, m', sp);
    }
  }
}
