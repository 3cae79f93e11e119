/** A run with a real collection: the collector's freedom in `GcTheorem` is used. */
module Collected {
  import opened Basics
  import opened Words
  import opened Machine
  import opened Instr
  import opened Interp
  import opened Samples
  import R = Region

  /** Movable objects lie between 64 and 1024. */
  const LAYOUT: Layout := Layout(64, 1024, 4096)

  /** At the first allocation the object at 64 moves to 72, and the dead slot is scrambled. */
  const MOVE: Move := Move(map[16 := 16, 64 := 72], [77])

  ghost predicate Collects(w: World) {
    && w.layout == LAYOUT && w.alloc(0) == Some(80) && w.allocGc(0) == Some(MOVE)
  }

  /** The closure of the function, and an object that the caller still refers to. */
  ghost predicate Start(m: R.Mem) {
    && m.stack == [0, 0, 0, 0, 64] && m.heap == map[16 := Obj(0, [8]), 64 := Obj(0, [1])]
    && m.allocs == 0
  }

  lemma MoveIsLegal(stack: seq<Word>, h: Heap)
    requires |stack| == 5 && stack[1..] == [1, 16, 0, 64] && h == map[16 := Obj(0, [8]), 64 := Obj(0, [1])]
    ensures LegalMove(LAYOUT, MOVE, stack, 1, h)
    ensures MovedHeap(MOVE, h) == map[16 := Obj(0, [8]), 72 := Obj(0, [1])]
    ensures MovedStack(MOVE, stack, 1) == [77, 1, 16, 0, 72]
  {
    assert forall i :: 1 <= i < 5 ==> stack[i] == stack[1..][i - 1];
    assert ForwardAll(MOVE.to, stack[1..]) == [1, 16, 0, 72];
    assert ForwardAll(MOVE.to, [8]) == [8] && ForwardAll(MOVE.to, [1]) == [1];
    assert ForwardObj(MOVE.to, h[16]) == Obj(0, [8]) && ForwardObj(MOVE.to, h[64]) == Obj(0, [1]);
    var moved := MovedHeap(MOVE, h);
    assert moved.Keys == {16, 72};
    assert moved[16] == Obj(0, [8]) && moved[72] == Obj(0, [1]);
  }

  /** Up to the allocation: the frame is built, and the constant pushed. */
  lemma BeforeAlloc(w: World, m: R.Mem)
    requires Start(m)
    ensures var m1 := R.EnterFrame(m, 4, 16);
      && m1 == Some(m.(stack := [0, 0, 16, 0, 64]))
      && R.Lower(w, Const(1), m1.value, 2) == Some(R.Cont(m.(stack := [0, 1, 16, 0, 64]), 1))
  {
    assert m.stack[3 := 0] == [0, 0, 0, 0, 64];
    assert m.stack[3 := 0][2 := 16] == [0, 0, 16, 0, 64];
    assert R.EnterFrame(m, 4, 16) == Some(m.(stack := [0, 0, 16, 0, 64]));
    var m1 := m.(stack := [0, 0, 16, 0, 64]);
    assert m1.stack[1 := 1] == [0, 1, 16, 0, 64];
    assert R.EmitPush(m1, 2, 1) == Some(R.Cont(m.(stack := [0, 1, 16, 0, 64]), 1));
  }

  /** A legal collection, and an address that is free after it. */
  lemma CollectThenAllocate(w: World, m: R.Mem, sp: nat, g: Move, size: nat, flags: int, stack: seq<Word>, h: Heap, p: Word)
    requires sp <= |m.stack| && w.allocGc(m.allocs) == Some(g) && LegalMove(w.layout, g, m.stack, sp, m.heap)
    requires MovedStack(g, m.stack, sp) == stack && MovedHeap(g, m.heap) == h
    requires w.alloc(m.allocs) == Some(p) && p != 0 && p !in h && w.layout.Movable(p)
    ensures var a := R.RegionAlloc(w, m, sp, size, flags);
      a.NewObj? && a.p == p && a.m.stack == stack && p in a.m.heap && |a.m.heap[p].words| == size
  {
  }

  /** The allocation, with the collection before it. */
  lemma Allocation(w: World, m: R.Mem)
    requires Collects(w) && m.stack == [0, 1, 16, 0, 64] && m.heap == map[16 := Obj(0, [8]), 64 := Obj(0, [1])]
    requires m.allocs == 0
    ensures var low := R.LowerAllocRef(w, m, 1);
      && low.Some? && low.value.Cont? && low.value.sp == 1
      && low.value.m.stack == [77, 80, 16, 0, 72] && 80 in low.value.m.heap && low.value.m.heap[80].words == [1]
  {
    var stack, h := [77, 1, 16, 0, 72], map[16 := Obj(0, [8]), 72 := Obj(0, [1])];
    MoveIsLegal(m.stack, m.heap);
    CollectThenAllocate(w, m, 1, MOVE, 1, F_MUTABLE_BIT, stack, h, 80);
    CellFilled(w, m, R.RegionAlloc(w, m, 1, 1, F_MUTABLE_BIT));
  }

  lemma CellFilled(w: World, m: R.Mem, a: R.Alloc)
    requires a == R.RegionAlloc(w, m, 1, 1, F_MUTABLE_BIT) && a.NewObj? && a.p == 80
    requires a.m.stack == [77, 1, 16, 0, 72] && 80 in a.m.heap && |a.m.heap[80].words| == 1
    ensures var low := R.LowerAllocRef(w, m, 1);
      && low.Some? && low.value.Cont? && low.value.sp == 1
      && low.value.m.stack == [77, 80, 16, 0, 72] && 80 in low.value.m.heap && low.value.m.heap[80].words == [1]
  {
    assert a.m.heap[80].words[0 := 1] == [1];
    assert a.m.stack[1 := 80] == [77, 80, 16, 0, 72];
  }

  /** The call returns: the caller's object has moved, its slot follows it, and the new cell
      holds the constant. */
  lemma CollectionHappens(w: World, m: R.Mem)
    requires Collects(w) && Start(m)
    ensures var body := [Const(1), AllocRef];
      var e := R.Dispatch(R.Emitted(ProgramOf(body), RegionOf(body), w, false), 8, m, 4, 16, 0);
      && e.Returned? && !e.raised && e.newSp == 3
      && e.m.stack == [77, 80, 16, 80, 72] && 80 in e.m.heap && e.m.heap[80].words == [1]
  {
    var body := [Const(1), AllocRef];
    var env := R.Emitted(ProgramOf(body), RegionOf(body), w, false);
    var m1 := m.(stack := [0, 0, 16, 0, 64]);
    var m2 := m.(stack := [0, 1, 16, 0, 64]);
    BeforeAlloc(w, m);
    Allocation(w, m2);
    LowersAlloc(w, m2);
    SamplePieces();
    RunsThrough(env, m1, m2, R.LowerAllocRef(w, m2, 1).value.m);
  }

  lemma LowersAlloc(w: World, m: R.Mem)
    ensures R.Lower(w, AllocRef, m, 1) == R.LowerAllocRef(w, m, 1)
  {
  }

  lemma SamplePieces()
    ensures Pieces([Const(1), AllocRef], 0) == [R.Straight(Const(1)), R.Straight(AllocRef), R.Ret(0)]
  {
    var body := [Const(1), AllocRef];
    assert Pieces(body, 2) == [R.Ret(0)];
    assert Pieces(body, 1) == [R.Straight(AllocRef), R.Ret(0)];
  }

  lemma {:induction false} RunsThrough(env: R.Env, m1: R.Mem, m2: R.Mem, m3: R.Mem)
    requires 8 in env.cs && forall piece, m, sp :: env.admits(piece, m, sp)
    requires env.lower(Const(1), m1, 2) == Some(R.Cont(m2, 1)) && env.lower(AllocRef, m2, 1) == Some(R.Cont(m3, 1))
    requires m3.stack == [77, 80, 16, 0, 72]
    ensures R.Run(env, 8, [R.Straight(Const(1)), R.Straight(AllocRef), R.Ret(0)], m1, 2, 0)
      == R.Returned(m3.(stack := [77, 80, 16, 80, 72]), 3, false, 3)
  {
    var code := [R.Straight(Const(1)), R.Straight(AllocRef), R.Ret(0)];
    assert code[1..] == [R.Straight(AllocRef), R.Ret(0)] && code[1..][1..] == [R.Ret(0)];
    assert m3.stack[3 := 80] == [77, 80, 16, 80, 72];
    assert R.Run(env, 8, [R.Ret(0)], m3, 1, 0) == R.Returned(m3.(stack := [77, 80, 16, 80, 72]), 3, false, 3);
    assert R.Run(env, 8, code[1..], m2, 1, 0) == R.Run(env, 8, [R.Ret(0)], m3, 1, 0);
  }
}
