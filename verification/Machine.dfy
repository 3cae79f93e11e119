/** What the interpreter and the compiled regions share: the value stack, the heap, the
    allocator and the moving collector.

    The stack grows downward: `stack[sp]` is the top and `|stack|` the bottom.  A heap
    object is known by the address of its first body word.  Objects inside the movable
    range may be moved by a collection; all others (image constants, code, closures in
    constant pools) stay where they are. */
module Machine {
  import opened Basics
  import opened Words

  /** `flags` is the flag byte of the length word. */
  datatype Obj = Obj(flags: Byte, words: seq<Word>)

  type Heap = map<Word, Obj>

  const F_BYTE_OBJ: Byte := 0x01
  const F_CLOSURE_OBJ: Byte := 0x03
  const F_MUTABLE_BIT: Byte := 0x40

  /** The low two flag bits are the object's type; only byte objects hold raw data. */
  predicate IsByteObj(o: Obj) { o.flags % 4 == F_BYTE_OBJ }

  /** The movable range and the address of `stack[0]`. */
  datatype Layout = Layout(lo: Word, hi: Word, stackBase: Word) {
    predicate Movable(w: Word) { lo <= w < hi && w % 8 == 0 }
  }

  /** A collection: where each retained object goes, and what is left in the dead part
      of the stack. */
  datatype Move = Move(to: map<Word, Word>, dead: seq<Word>)

  /** The surroundings of a run: what the n-th allocation returns and finds in the fresh
      body, and which collection, if any, happens at the n-th allocation or poll. */
  datatype World = World(
    layout: Layout,
    alloc: nat -> Option<Word>,
    junk: (nat, nat) -> Word,
    allocGc: nat -> Option<Move>,
    pollGc: nat -> Option<Move>)

  datatype Exn = Overflow | DivByZero | StackOverflow | HeapExhausted

  // ----- heap access ----------------------------------------------------------

  /** Word `k` of the object at `a`; none for an address or index that is not valid. */
  function ReadWord(h: Heap, a: Word, k: int): Option<Word> {
    if a in h && 0 <= k < |h[a].words| then Some(h[a].words[k]) else None
  }

  function WriteWord(h: Heap, a: Word, k: int, w: Word): Option<Heap> {
    if a in h && 0 <= k < |h[a].words| then
      Some(h[a := h[a].(words := h[a].words[k := w])])
    else None
  }

  /** Byte `k` of the object at `a`, little-endian within each word. */
  function ReadByte(h: Heap, a: Word, k: int): Option<Word> {
    if k < 0 then None
    else
      var w :- ReadWord(h, a, k / 8);
      Some((w / Pow2(8 * (k % 8))) % 256)
  }

  /** The word below the body: the length, with the flag byte on top. */
  function LengthWord(h: Heap, a: Word): Option<Word> {
    if a in h && |h[a].words| < 0x100_0000_0000_0000 then
      Some(h[a].flags * 0x100_0000_0000_0000 + |h[a].words|)
    else None
  }

  // ----- allocation --------------------------------------------------------------

  datatype Allocated = Allocated(heap: Heap, addr: Word) | Exhausted

  /** A fresh object, its body still holding whatever was there. */
  function Junk(w: World, n: nat, size: int, flags: int): (o: Obj)
    requires size >= 0
  {
    Obj(flags % 256, seq<Word>(size, i requires 0 <= i < size => w.junk(n, i)))
  }

  /** `allocate` as the n-th allocation of a run.  None when the allocator would hand out
      an address that is in use or outside its own range. */
  function Allocate(w: World, h: Heap, n: nat, size: int, flags: int): Option<Allocated> {
    if size < 0 then Some(Exhausted)
    else
      match w.alloc(n)
      case None => Some(Exhausted)
      case Some(a) =>
        if a == 0 || a in h || !w.layout.Movable(a) then None
        else Some(Allocated(h[a := Junk(w, n, size, flags)], a))
  }

  // ----- collection ----------------------------------------------------------------

  function Forward(to: map<Word, Word>, w: Word): Word {
    if w in to then to[w] else w
  }

  function ForwardAll(to: map<Word, Word>, ws: seq<Word>): (r: seq<Word>)
    ensures |r| == |ws|
  {
    seq(|ws|, i requires 0 <= i < |ws| => Forward(to, ws[i]))
  }

  function ForwardObj(to: map<Word, Word>, o: Obj): Obj {
    if IsByteObj(o) then o else o.(words := ForwardAll(to, o.words))
  }

  predicate Injective(m: map<Word, Word>) {
    forall a, b :: a in m && b in m && m[a] == m[b] ==> a == b
  }

  /** What a collector may do: it keeps every object reachable in one step from the live
      stack or from a kept object, keeps all immovable objects in place, and gives the
      movable ones distinct addresses in the movable range. */
  predicate LegalMove(l: Layout, g: Move, stack: seq<Word>, sp: nat, h: Heap) {
    && sp <= |stack|
    && |g.dead| == sp
    && Injective(g.to)
    && (forall a :: a in g.to ==>
          a in h && (if l.Movable(a) then l.Movable(g.to[a]) else g.to[a] == a))
    && (forall a :: a in h && !l.Movable(a) ==> a in g.to)
    && (forall i :: sp <= i < |stack| && stack[i] in h ==> stack[i] in g.to)
    && (forall a, k :: a in g.to && !IsByteObj(h[a]) && 0 <= k < |h[a].words| && h[a].words[k] in h
          ==> h[a].words[k] in g.to)
  }

  function MovedHeap(g: Move, h: Heap): Heap
    requires Injective(g.to) && forall a :: a in g.to ==> a in h
  {
    map a | a in g.to :: g.to[a] := ForwardObj(g.to, h[a])
  }

  function MovedStack(g: Move, stack: seq<Word>, sp: nat): seq<Word>
    requires sp <= |stack|
  {
    g.dead + ForwardAll(g.to, stack[sp..])
  }
}
