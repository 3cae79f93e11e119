/** What the heap opcodes do, in terms of the objects: which byte a byte load reads, and what is
    in the objects that the allocating instructions make. */
module HeapMeaning {
  import opened Basics
  import opened Words
  import opened Machine
  import opened Instr
  import opened Interp
  import A = Assembler
  import L = Lowering

  // ----- loads and stores -----------------------------------------------------------------------

  lemma Powers()
    ensures Pow2(0) == 1 && Pow2(8) == 0x100 && Pow2(16) == 0x1_0000 && Pow2(24) == 0x100_0000
    ensures Pow2(32) == 0x1_0000_0000 && Pow2(40) == 0x100_0000_0000 && Pow2(48) == 0x1_0000_0000_0000
    ensures Pow2(56) == 0x100_0000_0000_0000
  {
  }

  /** The byte between the lower bytes `lo` and the higher ones `hi`. */
  lemma MiddleByte(w: nat, p: nat, lo: nat, b: nat, hi: nat)
    requires p > 0 && lo < p && b < 256 && w == lo + p * (b + 256 * hi)
    ensures (w / p) % 256 == b
  {
    assert w / p == b + 256 * hi by {
      var q, r := w / p, w % p;
      assert p * (q - (b + 256 * hi)) == lo - r;
      if q - (b + 256 * hi) >= 1 { MulAtLeast(p, q - (b + 256 * hi)); }
      if (b + 256 * hi) - q >= 1 { MulAtLeast(p, (b + 256 * hi) - q); }
    }
  }

  /** A byte load reads the byte at its place in memory, the lowest byte of a word first. */
  lemma ReadsByte(h: Heap, a: Word, k: nat, bytes: seq<Byte>)
    requires a in h && k / 8 < |h[a].words| && |bytes| == 8 && A.StoredAt(bytes, 0, h[a].words[k / 8])
    ensures ReadByte(h, a, k) == Some(bytes[k % 8])
  {
    Powers();
    ByteOfWord(h[a].words[k / 8], bytes, k % 8);
  }

  lemma {:induction false} ByteOfWord(w: Word, bytes: seq<Byte>, j: nat)
    requires |bytes| == 8 && A.StoredAt(bytes, 0, w) && j < 8
    ensures (w / Pow2(8 * j)) % 256 == bytes[j]
  {
    Powers();
    if j < 4 {
      LowByte(w, bytes, j);
    } else {
      HighByte(w, bytes, j);
    }
  }

  function Num(bytes: seq<Byte>, i: nat): int
    requires i < |bytes|
  {
    bytes[i]
  }

  lemma {:induction false} LowByte(w: Word, bytes: seq<Byte>, j: nat)
    requires |bytes| == 8 && A.StoredAt(bytes, 0, w) && j < 4
    ensures (w / Pow2(8 * j)) % 256 == bytes[j]
  {
    Powers();
    var b0, b1, b2, b3 := Num(bytes, 0), Num(bytes, 1), Num(bytes, 2), Num(bytes, 3);
    var top := Num(bytes, 4) + 0x100 * Num(bytes, 5) + 0x1_0000 * Num(bytes, 6) + 0x100_0000 * Num(bytes, 7);
    if j == 0 {
      MiddleByte(w, 1, 0, b0, b1 + 0x100 * b2 + 0x1_0000 * b3 + 0x100_0000 * top);
    } else if j == 1 {
      MiddleByte(w, 0x100, b0, b1, b2 + 0x100 * b3 + 0x1_0000 * top);
    } else if j == 2 {
      MiddleByte(w, 0x1_0000, b0 + 0x100 * b1, b2, b3 + 0x100 * top);
    } else {
      MiddleByte(w, 0x100_0000, b0 + 0x100 * b1 + 0x1_0000 * b2, b3, top);
    }
  }

  lemma {:induction false} HighByte(w: Word, bytes: seq<Byte>, j: nat)
    requires |bytes| == 8 && A.StoredAt(bytes, 0, w) && 4 <= j < 8
    ensures (w / Pow2(8 * j)) % 256 == bytes[j]
  {
    Powers();
    var low := Num(bytes, 0) + 0x100 * Num(bytes, 1) + 0x1_0000 * Num(bytes, 2) + 0x100_0000 * Num(bytes, 3);
    var b4, b5, b6, b7 := Num(bytes, 4), Num(bytes, 5), Num(bytes, 6), Num(bytes, 7);
    if j == 4 {
      MiddleByte(w, 0x1_0000_0000, low, b4, b5 + 0x100 * b6 + 0x1_0000 * b7);
    } else if j == 5 {
      MiddleByte(w, 0x100_0000_0000, low + 0x1_0000_0000 * b4, b5, b6 + 0x100 * b7);
    } else if j == 6 {
      MiddleByte(w, 0x1_0000_0000_0000, low + 0x1_0000_0000 * b4 + 0x100_0000_0000 * b5, b6, b7);
    } else {
      MiddleByte(w, 0x100_0000_0000_0000, low + 0x1_0000_0000 * b4 + 0x100_0000_0000 * b5 + 0x1_0000_0000_0000 * b6, b7, 0);
    }
  }

  /** The object is below the integer `k`, which is on top. */
  predicate Indexed(c: Core, obj: Word, k: nat) {
    c.sp + 1 < |c.stack| && Representable(k) && c.stack[c.sp] == Tagged(k) && c.stack[c.sp + 1] == obj && obj in c.heap
  }

  /** LOAD_ML_BYTE leaves the byte, tagged; LOAD_ML_WORD the word; LOAD_UNTAGGED the word as
      a signed integer, tagged. */
  lemma LoadsLeave(w: World, c: Core, obj: Word, k: nat, bytes: seq<Byte>)
    requires Indexed(c, obj, k)
    ensures k / 8 < |c.heap[obj].words| && |bytes| == 8 && A.StoredAt(bytes, 0, c.heap[obj].words[k / 8]) ==>
      Exec(w, LoadMl(LoadByte), c) == Some(Next(c.(sp := c.sp + 1, stack := c.stack[c.sp + 1 := Tagged(bytes[k % 8])])))
    ensures k < |c.heap[obj].words| ==>
      var v := c.heap[obj].words[k];
      && Exec(w, LoadMl(LoadWord), c) == Some(Next(c.(sp := c.sp + 1, stack := c.stack[c.sp + 1 := v])))
      && Exec(w, LoadMl(LoadUntagged), c) == Some(Next(c.(sp := c.sp + 1, stack := c.stack[c.sp + 1 := Tagged(Signed(v))])))
  {
    TaggedRoundTrip(k);
    if k / 8 < |c.heap[obj].words| && |bytes| == 8 && A.StoredAt(bytes, 0, c.heap[obj].words[k / 8]) {
      ReadsByte(c.heap, obj, k, bytes);
    }
  }

  // ----- allocation -----------------------------------------------------------------------------

  /** The allocator hands out a free address. */
  predicate Finds(w: World, c: Core, p: Word) {
    w.alloc(c.allocs) == Some(p) && p != 0 && p !in c.heap && w.layout.Movable(p)
  }

  /** The instruction takes `n` values and leaves the new object `o` at `p`. */
  ghost predicate Makes(e: Option<Effect>, c: Core, n: nat, p: Word, o: Obj) {
    0 < n && c.sp + n <= |c.stack| &&
    var at := c.sp + n - 1;
    e == Some(Next(Core(c.stack[at := p], at, c.heap[p := o], c.allocs + 1)))
  }

  /** The `n` topmost values, the deepest first. */
  function Topmost(c: Core, n: nat): seq<Word>
    requires c.sp + n <= |c.stack|
  {
    seq(n, i requires 0 <= i < n => c.stack[c.sp + n - 1 - i])
  }

  lemma FreshObject(w: World, c: Core, p: Word, size: nat, flags: Byte)
    requires Finds(w, c, p)
    ensures Allocate(w, c.heap, c.allocs, size, flags).Some?
    ensures var r := Allocate(w, c.heap, c.allocs, size, flags).value;
      r.Allocated? && r.addr == p && |r.heap[p].words| == size && r.heap == c.heap[p := Obj(flags, r.heap[p].words)]
  {
  }

  lemma FieldsAre(h: Heap, p: Word, c: Core, base: nat, n: nat)
    requires p in h && base + n == |h[p].words| && c.sp + n <= |c.stack| && n > 0
    ensures L.FieldsSet(h, p, c.stack, c.sp + n - 1, base, 0, n)
      == h[p := Obj(h[p].flags, h[p].words[..base] + Topmost(c, n))]
  {
    assert L.FieldsSet(h, p, c.stack, c.sp + n - 1, base, 0, n)[p].words == h[p].words[..base] + Topmost(c, n);
  }

  /** A tuple has the values it takes as its fields, the deepest first, and no flags. */
  lemma TupleMakes(w: World, n: nat, c: Core, p: Word)
    requires 0 < n && c.sp + n <= |c.stack| && Finds(w, c, p) && Exec(w, Tuple(n), c).Some?
    ensures Makes(Exec(w, Tuple(n), c), c, n, p, Obj(0, Topmost(c, n)))
  {
    FreshObject(w, c, p, n, 0);
    var h := Allocate(w, c.heap, c.allocs, n, 0).value.heap;
    var c1 := c.(heap := h, allocs := c.allocs + 1);
    L.PopFieldsSets(c1, p, 0, n);
    FieldsAre(h, p, c1, 0, n);
    assert h[p].words[..0] + Topmost(c, n) == Topmost(c, n);
    assert Topmost(c1, n) == Topmost(c, n);
    Overwritten(c.heap, p, h[p], Obj(0, Topmost(c, n)));
  }

  lemma Overwritten(h: Heap, p: Word, a: Obj, b: Obj)
    ensures h[p := a][p := b] == h[p := b]
  {
  }

  /** A closure has the code address of the closure below its captures, then the captures. */
  lemma ClosureMakes(w: World, n: nat, c: Core, p: Word, src: Word)
    requires 0 < n && c.sp + n < |c.stack| && Finds(w, c, p) && Exec(w, MakeClosure(n), c).Some?
    requires c.stack[c.sp + n] == src && src in c.heap && |c.heap[src].words| > 0
    ensures Makes(Exec(w, MakeClosure(n), c), c, n + 1, p, Obj(0x03, [c.heap[src].words[0]] + Topmost(c, n)))
  {
    FreshObject(w, c, p, n + 1, 0x03);
    var h := Allocate(w, c.heap, c.allocs, n + 1, 0x03).value.heap;
    var c1 := c.(heap := h, allocs := c.allocs + 1);
    L.PopFieldsSets(c1, p, 1, n);
    FieldsAre(h, p, c1, 1, n);
    assert Topmost(c1, n) == Topmost(c, n);
    Overwritten(c.heap, p, h[p], Obj(0x03, [c.heap[src].words[0]] + Topmost(c, n)));
    CodeCopied(PopFields(c1, p, 1, n).value, h, p, src, Topmost(c, n));
  }

  lemma CodeCopied(c: Core, h: Heap, p: Word, src: Word, fields: seq<Word>)
    requires c.sp < |c.stack| && c.stack[c.sp] == src && src in h && src != p && p in h && |h[src].words| > 0
    requires |h[p].words| > 0 && c.heap == h[p := Obj(0x03, h[p].words[..1] + fields)]
    ensures FinishClosure(c, p) == Some(Next(c.(stack := c.stack[c.sp := p],
      heap := h[p := Obj(0x03, [h[src].words[0]] + fields)])))
  {
    var ws := h[p].words[..1] + fields;
    assert ws[0 := h[src].words[0]] == [h[src].words[0]] + fields;
    assert c.heap[p := Obj(0x03, [h[src].words[0]] + fields)] == h[p := Obj(0x03, [h[src].words[0]] + fields)];
  }

  /** A reference has one mutable field. */
  lemma RefMakes(w: World, c: Core, p: Word)
    requires c.sp < |c.stack| && Finds(w, c, p)
    ensures Makes(Exec(w, AllocRef, c), c, 1, p, Obj(0x40, [c.stack[c.sp]]))
  {
    FreshObject(w, c, p, 1, 0x40);
    var h := Allocate(w, c.heap, c.allocs, 1, 0x40).value.heap;
    assert h[p].words[0 := c.stack[c.sp]] == [c.stack[c.sp]];
    Overwritten(c.heap, p, h[p], Obj(0x40, [c.stack[c.sp]]));
  }
}
