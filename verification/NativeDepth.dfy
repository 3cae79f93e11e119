/** How deep native calls nest: in a region whose call graph has no cycle, never deeper
    than the region has functions. */
module NativeDepth {
  import opened Basics
  import opened Words
  import opened Instr
  import opened CallGraph
  import opened Discovery
  import opened Build
  import R = Region

  function Max(a: nat, b: nat): nat { if a < b then b else a }

  /** The greatest number of native calls that are active at once while the rest of a block,
      and what it leads to, runs.  It follows `Region.Run` step by step. */
  function Depth(env: R.Env, f: Word, code: seq<R.Piece>, m: R.Mem, sp: int, fuel: nat): nat
    decreases fuel, |code|
  {
    if code == [] || f !in env.cs || !env.admits(code[0], m, sp) then 0
    else
      match code[0]
      case Straight(ins) =>
        (match env.lower(ins, m, sp)
         case Some(Cont(m1, sp1)) => Depth(env, f, code[1..], m1, sp1, fuel)
         case _ => 0)
      case CallNative(callee, closure) =>
        (match R.EnterFrame(m, sp, closure)
         case None => 0
         case Some(m1) =>
           if fuel == 0 then 0
           else
             var r := R.Call(env, callee, m1, sp - 2, fuel - 1);
             Max(CallDepth(env, callee, m1, sp - 2, fuel - 1),
               if r.Returned? && !r.raised then Depth(env, f, code[1..], r.m, r.newSp, fuel) else 0))
      case CallDynamic(popTop, depth) =>
        (match R.LoadAt(m, if popTop then sp else sp + depth)
         case None => 0
         case Some(closure) =>
           var r := env.interp(m, if popTop then sp + 1 else sp, closure, fuel);
           if r.Returned? && !r.raised then Depth(env, f, code[1..], r.m, r.newSp, fuel) else 0)
      case Goto(t) => if fuel == 0 then 0 else Depth(env, f, R.BlockAt(env.cs[f], t), m, sp, fuel - 1)
      case PollGoto(t) =>
        (match env.poll(m, sp)
         case None => 0
         case Some(m1) => if fuel == 0 then 0 else Depth(env, f, R.BlockAt(env.cs[f], t), m1, sp, fuel - 1))
      case Branch(cond, taken, fall) =>
        (match env.test(cond, m, sp)
         case None => 0
         case Some(b) =>
           if fuel == 0 then 0
           else Depth(env, f, R.BlockAt(env.cs[f], if b.Taken? then taken else fall), m, b.sp, fuel - 1))
      case Ret(n) => 0
  }

  /** A native call counts itself. */
  function CallDepth(env: R.Env, f: Word, m: R.Mem, sp: int, fuel: nat): nat
    decreases fuel, if f in env.cs then |env.cs[f].entry| + 1 else 0
  {
    if f !in env.cs then 0 else 1 + Depth(env, f, env.cs[f].entry, m, sp, fuel)
  }

  // ----- the bound ---------------------------------------------------------------------------

  /** Every native call in the code of the function at place `k` goes to a later place. */
  ghost predicate Descends(order: seq<Word>, k: nat, code: seq<R.Piece>) {
    forall i, j :: 0 <= i < |code| && code[i].CallNative? && 0 <= j < |order| && order[j] == code[i].callee ==> j > k
  }

  ghost predicate Layered(env: R.Env, order: seq<Word>) {
    && (forall f :: f in env.cs ==> f in order)
    && (forall k :: 0 <= k < |order| && order[k] in env.cs ==>
          && Descends(order, k, env.cs[order[k]].entry)
          && forall o :: o in env.cs[order[k]].blocks ==> Descends(order, k, env.cs[order[k]].blocks[o]))
  }

  lemma {:induction false} DepthBound(env: R.Env, order: seq<Word>, k: nat, code: seq<R.Piece>, m: R.Mem, sp: int, fuel: nat)
    requires Layered(env, order) && k < |order| && Descends(order, k, code)
    ensures Depth(env, order[k], code, m, sp, fuel) <= |order| - 1 - k
    decreases fuel, |code|, 0
  {
    var f := order[k];
    if code != [] && f in env.cs && env.admits(code[0], m, sp) {
      assert Descends(order, k, code[1..]);
      match code[0] {
        case Straight(ins) =>
          var low := env.lower(ins, m, sp);
          if low.Some? && low.value.Cont? {
            DepthBound(env, order, k, code[1..], low.value.m, low.value.sp, fuel);
          }
        case CallNative(callee, closure) =>
          if R.EnterFrame(m, sp, closure).Some? && fuel > 0 {
            var m1 := R.EnterFrame(m, sp, closure).value;
            CallDepthBound(env, order, k, callee, m1, sp - 2, fuel - 1);
            var r := R.Call(env, callee, m1, sp - 2, fuel - 1);
            if r.Returned? && !r.raised {
              DepthBound(env, order, k, code[1..], r.m, r.newSp, fuel);
            }
          }
        case CallDynamic(popTop, depth) =>
          var closure := R.LoadAt(m, if popTop then sp else sp + depth);
          if closure.Some? {
            var r := env.interp(m, if popTop then sp + 1 else sp, closure.value, fuel);
            if r.Returned? && !r.raised {
              DepthBound(env, order, k, code[1..], r.m, r.newSp, fuel);
            }
          }
        case Goto(t) =>
          if fuel > 0 { DepthBound(env, order, k, R.BlockAt(env.cs[f], t), m, sp, fuel - 1); }
        case PollGoto(t) =>
          if fuel > 0 && env.poll(m, sp).Some? {
            DepthBound(env, order, k, R.BlockAt(env.cs[f], t), env.poll(m, sp).value, sp, fuel - 1);
          }
        case Branch(cond, taken, fall) =>
          if fuel > 0 && env.test(cond, m, sp).Some? {
            var b := env.test(cond, m, sp).value;
            DepthBound(env, order, k, R.BlockAt(env.cs[f], if b.Taken? then taken else fall), m, b.sp, fuel - 1);
          }
        case Ret(n) =>
      }
    }
  }

  lemma {:induction false} CallDepthBound(env: R.Env, order: seq<Word>, k: nat, callee: Word, m: R.Mem, sp: int, fuel: nat)
    requires Layered(env, order) && k < |order|
    requires forall j :: 0 <= j < |order| && order[j] == callee ==> j > k
    ensures CallDepth(env, callee, m, sp, fuel) <= |order| - 1 - k
    decreases fuel, if callee in env.cs then |env.cs[callee].entry| else 0, 1
  {
    if callee in env.cs {
      var j :| 0 <= j < |order| && order[j] == callee;
      DepthBound(env, order, j, env.cs[callee].entry, m, sp, fuel);
    }
  }

  /** Native recursion in an accepted region is bounded: if the recursion check found no
      cycle, then in every run, whatever its instructions do, at most as many native calls
      are active at once as the region has functions. */
  lemma {:induction false} NativeRecursionBounded(image: Image, root: Word, r: Region, env: R.Env, m: R.Mem, sp: int, fuel: nat)
    requires IsBuilt(image, root, r) && !r.recursive && env.cs == r.funcs
    ensures CallDepth(env, root, m, sp, fuel) <= |r.funcs|
  {
    forall i | 0 <= i < |r.edges| ensures r.edges[i].0 in r.funcs.Keys {
      assert (r.edges[i].0, r.edges[i].1) in r.edges;
    }
    var order := AcyclicOrder(r.funcs.Keys, r.edges, []);
    LayeredByOrder(image, root, r, env, order);
    var k :| 0 <= k < |order| && order[k] == root;
    DepthBound(env, order, k, env.cs[root].entry, m, sp, fuel);
    DistinctSize(order, r.funcs.Keys);
    assert |r.funcs| == |r.funcs.Keys|;
  }

  lemma LayeredByOrder(image: Image, root: Word, r: Region, env: R.Env, order: seq<Word>)
    requires IsBuilt(image, root, r) && env.cs == r.funcs
    requires Ordered(r.edges, order) && forall f :: f in r.funcs <==> f in order
    ensures Layered(env, order)
  {
    forall k | 0 <= k < |order| && order[k] in env.cs
      ensures Descends(order, k, env.cs[order[k]].entry)
      ensures forall o :: o in env.cs[order[k]].blocks ==> Descends(order, k, env.cs[order[k]].blocks[o])
    {
      CalleesInside(image, root, r, order[k]);
      FunctionDescends(image, r.edges, order, k, r.funcs[order[k]]);
    }
  }

  lemma FunctionDescends(image: Image, edges: seq<Edge>, order: seq<Word>, k: nat, c: R.Compiled)
    requires Ordered(edges, order) && k < |order| && Defined(image, order[k], c)
    requires forall b: Word :: Calls(image, order[k], b) ==> (order[k], b) in edges
    ensures Descends(order, k, c.entry)
    ensures forall o :: o in c.blocks ==> Descends(order, k, c.blocks[o])
  {
    CodeDescends(image, edges, order, k, c.entry);
    forall o | o in c.blocks ensures Descends(order, k, c.blocks[o]) {
      CodeDescends(image, edges, order, k, c.blocks[o]);
    }
  }

  lemma CodeDescends(image: Image, edges: seq<Edge>, order: seq<Word>, k: nat, code: seq<R.Piece>)
    requires Ordered(edges, order) && k < |order| && FollowsGraph(image, order[k], code)
    requires forall b: Word :: Calls(image, order[k], b) ==> (order[k], b) in edges
    ensures Descends(order, k, code)
  {
    forall i, j | 0 <= i < |code| && code[i].CallNative? && 0 <= j < |order| && order[j] == code[i].callee
      ensures j > k
    {
      assert Calls(image, order[k], code[i].callee);
      EdgeDescends(edges, order, k, j);
    }
  }

  lemma EdgeDescends(edges: seq<Edge>, order: seq<Word>, k: nat, j: nat)
    requires Ordered(edges, order) && k < |order| && j < |order| && (order[k], order[j]) in edges
    ensures j > k
  {
    var e :| 0 <= e < |edges| && edges[e] == (order[k], order[j]);
    assert edges[e].0 in order[..j];
  }
}
