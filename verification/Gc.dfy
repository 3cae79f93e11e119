/** What a moving collection does to a running region: a renaming of movable addresses
    that the collection changes and every allocation extends. */
module Gc {
  import opened Basics
  import opened Words
  import opened Machine
  import opened Instr
  import opened Typing
  import R = Region

  type Renaming = map<Word, Word>

  // ----- the relation ------------------------------------------------------------------

  /** `y` is `x` renamed: an object's new address, or the same word, which then is not
      the address of anything that could have moved. */
  predicate WordRel(l: Layout, rho: Renaming, x: Word, y: Word) {
    if x in rho then y == rho[x] else x == y && !l.Movable(x)
  }

  ghost predicate WordsRel(l: Layout, rho: Renaming, xs: seq<Word>, ys: seq<Word>) {
    |xs| == |ys| && forall i :: 0 <= i < |xs| ==> WordRel(l, rho, xs[i], ys[i])
  }

  /** The same object, its words renamed unless they are raw bytes. */
  ghost predicate ObjRel(l: Layout, rho: Renaming, o: Obj, o': Obj) {
    && o.flags == o'.flags
    && if IsByteObj(o) then o'.words == o.words else WordsRel(l, rho, o.words, o'.words)
  }

  predicate Renames(l: Layout, rho: Renaming) {
    && Injective(rho)
    && forall a :: a in rho ==> if l.Movable(a) then l.Movable(rho[a]) else rho[a] == a
  }

  /** The second heap holds the renamed copy of every object the renaming still knows.
      Objects of the first heap may be missing: a collection has dropped them. */
  ghost predicate HeapRel(l: Layout, rho: Renaming, h: Heap, h': Heap) {
    && Renames(l, rho)
    && (forall a :: a in h && !l.Movable(a) ==> a in rho)
    && (forall a :: a in rho ==> a in h && rho[a] in h' && ObjRel(l, rho, h[a], h'[rho[a]]))
  }

  /** The live stacks and the heaps agree up to the renaming. */
  ghost predicate MemRel(l: Layout, rho: Renaming, m: R.Mem, m': R.Mem, sp: int) {
    && 0 <= sp <= |m.stack|
    && HeapRel(l, rho, m.heap, m'.heap)
    && |m.stack| == |m'.stack|
    && WordsRel(l, rho, m.stack[sp..], m'.stack[sp..])
    && m.allocs == m'.allocs && m.polls == m'.polls
    && m.ctx.handlerSp == m'.ctx.handlerSp && m.ctx.packet == m'.ctx.packet
  }

  /** Two worlds with the same layout: in the first nothing is ever collected. */
  ghost predicate WorldsRel(w: World, w': World) {
    && w.layout == w'.layout && w.layout.lo > 0
    && (forall n :: w.allocGc(n) == None) && (forall n :: w.pollGc(n) == None)
    && (forall n, i :: w.junk(n, i) == w'.junk(n, i))
    && (forall n :: w.alloc(n).None? <==> w'.alloc(n).None?)
  }

  // ----- words and slots -------------------------------------------------------------------

  lemma ImmovableRel(l: Layout, rho: Renaming, x: Word)
    requires Renames(l, rho) && !l.Movable(x)
    ensures WordRel(l, rho, x, x)
  {
  }

  lemma TaggedRel(l: Layout, rho: Renaming, x: Word, y: Word)
    requires Renames(l, rho) && WordRel(l, rho, x, y)
    ensures IsTagged(x) <==> IsTagged(y)
    ensures IsTagged(x) ==> y == x
  {
  }

  /** Renamed words are equal exactly when the words are. */
  lemma EqualRel(l: Layout, rho: Renaming, x: Word, y: Word, x': Word, y': Word)
    requires Renames(l, rho) && WordRel(l, rho, x, x') && WordRel(l, rho, y, y')
    ensures x == y <==> x' == y'
  {
  }

  lemma LoadRel(l: Layout, rho: Renaming, m: R.Mem, m': R.Mem, sp: int, i: int)
    requires MemRel(l, rho, m, m', sp) && sp <= i
    ensures R.LoadAt(m, i).Some? ==>
      R.LoadAt(m', i).Some? && WordRel(l, rho, R.LoadAt(m, i).value, R.LoadAt(m', i).value)
  {
    if i < |m.stack| {
      assert m.stack[i] == m.stack[sp..][i - sp] && m'.stack[i] == m'.stack[sp..][i - sp];
    }
  }

  /** A renamed word stored at or just below the live part of both stacks. */
  lemma StoreRel(l: Layout, rho: Renaming, m: R.Mem, m': R.Mem, sp: int, i: int, x: Word, y: Word)
    requires MemRel(l, rho, m, m', sp) && WordRel(l, rho, x, y) && sp - 1 <= i
    requires R.StoreAt(m, i, x).Some?
    ensures R.StoreAt(m', i, y).Some?
    ensures MemRel(l, rho, R.StoreAt(m, i, x).value, R.StoreAt(m', i, y).value, if i < sp then i else sp)
  {
    var from := if i < sp then i else sp;
    var n, n' := R.StoreAt(m, i, x).value, R.StoreAt(m', i, y).value;
    forall k | 0 <= k < |n.stack[from..]| ensures WordRel(l, rho, n.stack[from..][k], n'.stack[from..][k]) {
      if from + k != i {
        assert n.stack[from..][k] == m.stack[sp..][from + k - sp];
        assert n'.stack[from..][k] == m'.stack[sp..][from + k - sp];
      }
    }
  }

  /** Popping keeps the relation. */
  lemma PopRel(l: Layout, rho: Renaming, m: R.Mem, m': R.Mem, sp: int, sp1: int)
    requires MemRel(l, rho, m, m', sp) && sp <= sp1 <= |m.stack|
    ensures MemRel(l, rho, m, m', sp1)
  {
    forall k | 0 <= k < |m.stack[sp1..]| ensures WordRel(l, rho, m.stack[sp1..][k], m'.stack[sp1..][k]) {
      assert m.stack[sp1..][k] == m.stack[sp..][sp1 - sp + k];
      assert m'.stack[sp1..][k] == m'.stack[sp..][sp1 - sp + k];
    }
  }

  // ----- objects --------------------------------------------------------------------------

  /** A word naming an object names its copy. */
  lemma NamesRel(l: Layout, rho: Renaming, h: Heap, h': Heap, x: Word, y: Word)
    requires HeapRel(l, rho, h, h') && WordRel(l, rho, x, y) && x in h
    ensures x in rho && y in h' && ObjRel(l, rho, h[x], h'[y])
  {
  }

  lemma ReadRel(l: Layout, rho: Renaming, h: Heap, h': Heap, x: Word, y: Word, k: int)
    requires HeapRel(l, rho, h, h') && WordRel(l, rho, x, y) && x in h
    requires ReadWord(h, x, k).Some?
    ensures ReadWord(h', y, k).Some?
    ensures IsByteObj(h[x]) ==> ReadWord(h', y, k) == ReadWord(h, x, k)
    ensures !IsByteObj(h[x]) ==> WordRel(l, rho, ReadWord(h, x, k).value, ReadWord(h', y, k).value)
  {
    NamesRel(l, rho, h, h', x, y);
  }

  /** Writing renamed words, or equal raw words into byte objects. */
  lemma WriteRel(l: Layout, rho: Renaming, h: Heap, h': Heap, x: Word, y: Word, k: int, v: Word, v': Word)
    requires HeapRel(l, rho, h, h') && WordRel(l, rho, x, y) && x in h
    requires if IsByteObj(h[x]) then v == v' else WordRel(l, rho, v, v')
    requires WriteWord(h, x, k, v).Some?
    ensures WriteWord(h', y, k, v').Some?
    ensures HeapRel(l, rho, WriteWord(h, x, k, v).value, WriteWord(h', y, k, v').value)
  {
    NamesRel(l, rho, h, h', x, y);
  }

  // ----- collections ------------------------------------------------------------------------

  /** The renaming after a collection of the second heap. */
  function Moved(rho: Renaming, to: map<Word, Word>): Renaming {
    map a | a in rho && rho[a] in to :: to[rho[a]]
  }

  lemma MovedRenames(l: Layout, rho: Renaming, g: Move, h: Heap, h': Heap, stack: seq<Word>, sp: nat)
    requires HeapRel(l, rho, h, h') && LegalMove(l, g, stack, sp, h')
    ensures Renames(l, Moved(rho, g.to))
    ensures forall a :: a in h && !l.Movable(a) ==> a in Moved(rho, g.to)
  {
  }

  /** A word the collector keeps. */
  lemma MovedWord(l: Layout, rho: Renaming, g: Move, h: Heap, h': Heap, stack: seq<Word>, sp: nat, x: Word, y: Word)
    requires HeapRel(l, rho, h, h') && LegalMove(l, g, stack, sp, h')
    requires WordRel(l, rho, x, y) && (y in h' ==> y in g.to)
    ensures WordRel(l, Moved(rho, g.to), x, Forward(g.to, y))
  {
  }

  lemma MovedObj(l: Layout, rho: Renaming, g: Move, h: Heap, h': Heap, stack: seq<Word>, sp: nat, a: Word)
    requires HeapRel(l, rho, h, h') && LegalMove(l, g, stack, sp, h')
    requires a in rho && rho[a] in g.to
    ensures ObjRel(l, Moved(rho, g.to), h[a], ForwardObj(g.to, h'[rho[a]]))
  {
    var o, o' := h[a], h'[rho[a]];
    if !IsByteObj(o) {
      forall i | 0 <= i < |o.words|
        ensures WordRel(l, Moved(rho, g.to), o.words[i], Forward(g.to, o'.words[i]))
      {
        MovedWord(l, rho, g, h, h', stack, sp, o.words[i], o'.words[i]);
      }
    }
  }

  lemma MovedHeapRel(l: Layout, rho: Renaming, g: Move, h: Heap, h': Heap, stack: seq<Word>, sp: nat)
    requires HeapRel(l, rho, h, h') && LegalMove(l, g, stack, sp, h')
    ensures HeapRel(l, Moved(rho, g.to), h, MovedHeap(g, h'))
  {
    MovedRenames(l, rho, g, h, h', stack, sp);
    var rho' := Moved(rho, g.to);
    forall a | a in rho' ensures rho'[a] in MovedHeap(g, h') && ObjRel(l, rho', h[a], MovedHeap(g, h')[rho'[a]]) {
      MovedObj(l, rho, g, h, h', stack, sp, a);
      assert MovedHeap(g, h')[g.to[rho[a]]] == ForwardObj(g.to, h'[rho[a]]);
    }
  }

  lemma MovedStackRel(l: Layout, rho: Renaming, g: Move, h: Heap, h': Heap, stack: seq<Word>, stack': seq<Word>, sp: nat)
    requires HeapRel(l, rho, h, h') && LegalMove(l, g, stack', sp, h')
    requires |stack| == |stack'| && WordsRel(l, rho, stack[sp..], stack'[sp..])
    ensures WordsRel(l, Moved(rho, g.to), stack[sp..], MovedStack(g, stack', sp)[sp..])
  {
    var rho' := Moved(rho, g.to);
    assert MovedStack(g, stack', sp)[sp..] == ForwardAll(g.to, stack'[sp..]);
    forall k | 0 <= k < |stack[sp..]| ensures WordRel(l, rho', stack[sp..][k], ForwardAll(g.to, stack'[sp..])[k]) {
      assert stack'[sp + k] == stack'[sp..][k];
      MovedWord(l, rho, g, h, h', stack', sp, stack[sp..][k], stack'[sp + k]);
    }
  }

  /** A legal collection of the second memory, with its live stack pointer published, keeps
      the relation, with moved addresses renamed again. */
  lemma CollectRel(l: Layout, rho: Renaming, m: R.Mem, m': R.Mem, sp: nat, g: Move)
    requires MemRel(l, rho, m, m', sp) && LegalMove(l, g, m'.stack, sp, m'.heap)
    ensures MemRel(l, Moved(rho, g.to), m,
      m'.(stack := MovedStack(g, m'.stack, sp), heap := MovedHeap(g, m'.heap)), sp)
  {
    MovedHeapRel(l, rho, g, m.heap, m'.heap, m'.stack, sp);
    MovedStackRel(l, rho, g, m.heap, m'.heap, m.stack, m'.stack, sp);
  }

  // ----- allocation --------------------------------------------------------------------------

  /** Words already related stay so when a fresh object is added. */
  lemma WordRelGrows(l: Layout, rho: Renaming, h: Heap, p: Word, p': Word, x: Word, y: Word)
    requires p !in h && l.Movable(p) && (forall a :: a in rho ==> a in h) && WordRel(l, rho, x, y)
    ensures WordRel(l, rho[p := p'], x, y)
  {
  }

  /** A fresh object in both heaps extends the renaming. */
  lemma ExtendRel(l: Layout, rho: Renaming, h: Heap, h': Heap, p: Word, p': Word, o: Obj, o': Obj)
    requires HeapRel(l, rho, h, h') && p !in h && p' !in h' && l.Movable(p) && l.Movable(p')
    requires ObjRel(l, rho[p := p'], o, o')
    ensures HeapRel(l, rho[p := p'], h[p := o], h'[p' := o'])
  {
    var rho' := rho[p := p'];
    forall a | a in rho ensures rho[a] != p' && a != p && ObjRel(l, rho', h[a], h'[rho[a]]) {
      if !IsByteObj(h[a]) {
        forall i | 0 <= i < |h[a].words| ensures WordRel(l, rho', h[a].words[i], h'[rho[a]].words[i]) {
          WordRelGrows(l, rho, h, p, p', h[a].words[i], h'[rho[a]].words[i]);
        }
      }
    }
  }

  // ----- what a move does, word by word --------------------------------------------------

  /** The word after the move: the new address of an object that was kept, or as before. */
  function Renamed(g: Move, w: Word): Word { if w in g.to then g.to[w] else w }

  /** After a legal move a kept object is at its new address, with its flags; the words of a
      byte object (type bits 01) are as they were, those of any other have been renamed. */
  lemma MovedObject(l: Layout, g: Move, stack: seq<Word>, sp: nat, h: Heap, a: Word)
    requires LegalMove(l, g, stack, sp, h) && a in g.to
    ensures g.to[a] in MovedHeap(g, h)
    ensures var o := MovedHeap(g, h)[g.to[a]];
      && o.flags == h[a].flags && |o.words| == |h[a].words|
      && forall k :: 0 <= k < |o.words| ==> o.words[k] == if h[a].flags % 4 == 1 then h[a].words[k] else Renamed(g, h[a].words[k])
  {
    MovedTo(g, h, a);
  }

  lemma MovedTo(g: Move, h: Heap, a: Word)
    requires Injective(g.to) && (forall b :: b in g.to ==> b in h) && a in g.to
    ensures g.to[a] in MovedHeap(g, h) && MovedHeap(g, h)[g.to[a]] == ForwardObj(g.to, h[a])
  {
  }

  /** Nothing else is left, and the live stack slots have been renamed. */
  lemma MovedRest(l: Layout, g: Move, stack: seq<Word>, sp: nat, h: Heap, b: Word, i: nat)
    requires LegalMove(l, g, stack, sp, h)
    ensures b in MovedHeap(g, h) ==> exists a :: a in g.to && g.to[a] == b
    ensures |MovedStack(g, stack, sp)| == |stack| && (sp <= i < |stack| ==> MovedStack(g, stack, sp)[i] == Renamed(g, stack[i]))
  {
  }
}
