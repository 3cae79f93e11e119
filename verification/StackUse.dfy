/** How far down the shared stack native calls go: in a region whose call graph has no cycle,
    no further than all its functions together. */
module StackUse {
  import opened Basics
  import opened Words
  import opened Instr
  import opened CallGraph
  import opened Discovery
  import opened Build
  import opened NativeDepth
  import S = Simulation
  import R = Region

  function Min(a: int, b: int): int { if a < b then a else b }

  // ----- how low a run goes ------------------------------------------------------------------

  /** The lowest stack pointer while the rest of a block, and what it leads to, runs, the
      frames and the code of native callees included.  It follows `Region.Run` step by
      step. */
  function Lowest(env: R.Env, f: Word, code: seq<R.Piece>, m: R.Mem, sp: int, fuel: nat): (low: int)
    ensures low <= sp
    decreases fuel, |code|
  {
    if code == [] || f !in env.cs || !env.admits(code[0], m, sp) then sp
    else
      match code[0]
      case Straight(ins) =>
        (match env.lower(ins, m, sp)
         case Some(Cont(m1, sp1)) => Min(sp, Lowest(env, f, code[1..], m1, sp1, fuel))
         case _ => sp)
      case CallNative(callee, closure) =>
        (match R.EnterFrame(m, sp, closure)
         case None => sp
         case Some(m1) =>
           if fuel == 0 then sp - 2
           else
             var r := R.Call(env, callee, m1, sp - 2, fuel - 1);
             Min(CallLowest(env, callee, m1, sp - 2, fuel - 1),
               if r.Returned? && !r.raised then Lowest(env, f, code[1..], r.m, r.newSp, fuel) else sp))
      case CallDynamic(popTop, depth) =>
        (match R.LoadAt(m, if popTop then sp else sp + depth)
         case None => sp
         case Some(closure) =>
           var r := env.interp(m, if popTop then sp + 1 else sp, closure, fuel);
           Min(sp, if r.Returned? && !r.raised then Lowest(env, f, code[1..], r.m, r.newSp, fuel) else sp))
      case Goto(t) => if fuel == 0 then sp else Lowest(env, f, R.BlockAt(env.cs[f], t), m, sp, fuel - 1)
      case PollGoto(t) =>
        (match env.poll(m, sp)
         case None => sp
         case Some(m1) => if fuel == 0 then sp else Lowest(env, f, R.BlockAt(env.cs[f], t), m1, sp, fuel - 1))
      case Branch(cond, taken, fall) =>
        (match env.test(cond, m, sp)
         case None => sp
         case Some(b) =>
           if fuel == 0 then sp
           else Min(sp, Lowest(env, f, R.BlockAt(env.cs[f], if b.Taken? then taken else fall), m, b.sp, fuel - 1)))
      case Ret(n) => sp
  }

  function CallLowest(env: R.Env, f: Word, m: R.Mem, sp: int, fuel: nat): (low: int)
    ensures low <= sp
    decreases fuel, if f in env.cs then |env.cs[f].entry| + 1 else 0
  {
    if f !in env.cs then sp else Lowest(env, f, env.cs[f].entry, m, sp, fuel)
  }

  // ----- what each function may use ------------------------------------------------------------

  /** In this run no function's own code takes the stack pointer more than `use` slots below
      where the function was entered. */
  predicate Frugal(env: R.Env, use: Word -> nat, f: Word, entry: int, code: seq<R.Piece>, m: R.Mem, sp: int, fuel: nat)
    decreases fuel, |code|
  {
    sp >= entry - use(f) &&
    if code == [] || f !in env.cs || !env.admits(code[0], m, sp) then true
    else
      match code[0]
      case Straight(ins) =>
        (match env.lower(ins, m, sp)
         case Some(Cont(m1, sp1)) => Frugal(env, use, f, entry, code[1..], m1, sp1, fuel)
         case _ => true)
      case CallNative(callee, closure) =>
        (match R.EnterFrame(m, sp, closure)
         case None => true
         case Some(m1) =>
           fuel == 0 ||
           var r := R.Call(env, callee, m1, sp - 2, fuel - 1);
           && CallFrugal(env, use, callee, m1, sp - 2, fuel - 1)
           && (r.Returned? && !r.raised ==> Frugal(env, use, f, entry, code[1..], r.m, r.newSp, fuel)))
      case CallDynamic(popTop, depth) =>
        (match R.LoadAt(m, if popTop then sp else sp + depth)
         case None => true
         case Some(closure) =>
           var r := env.interp(m, if popTop then sp + 1 else sp, closure, fuel);
           r.Returned? && !r.raised ==> Frugal(env, use, f, entry, code[1..], r.m, r.newSp, fuel))
      case Goto(t) => fuel == 0 || Frugal(env, use, f, entry, R.BlockAt(env.cs[f], t), m, sp, fuel - 1)
      case PollGoto(t) =>
        (match env.poll(m, sp)
         case None => true
         case Some(m1) => fuel == 0 || Frugal(env, use, f, entry, R.BlockAt(env.cs[f], t), m1, sp, fuel - 1))
      case Branch(cond, taken, fall) =>
        (match env.test(cond, m, sp)
         case None => true
         case Some(b) =>
           fuel == 0 || Frugal(env, use, f, entry, R.BlockAt(env.cs[f], if b.Taken? then taken else fall), m, b.sp, fuel - 1))
      case Ret(n) => true
  }

  predicate CallFrugal(env: R.Env, use: Word -> nat, f: Word, m: R.Mem, sp: int, fuel: nat)
    decreases fuel, if f in env.cs then |env.cs[f].entry| + 1 else 0
  {
    f !in env.cs || Frugal(env, use, f, sp, env.cs[f].entry, m, sp, fuel)
  }

  // ----- sums ------------------------------------------------------------------------------------

  /** What the functions from place `i` on use together, each with its frame of two slots. */
  function Suffix(use: Word -> nat, order: seq<Word>, i: nat): nat
    decreases |order| - i
  {
    if i >= |order| then 0 else use(order[i]) + 2 + Suffix(use, order, i + 1)
  }

  lemma {:induction false} SuffixFalls(use: Word -> nat, order: seq<Word>, i: nat, j: nat)
    requires i <= j
    ensures Suffix(use, order, j) <= Suffix(use, order, i)
    decreases j - i
  {
    if i < j {
      SuffixFalls(use, order, i + 1, j);
    }
  }

  /** What the functions of a set use together. */
  ghost function Total(use: Word -> nat, fs: set<Word>): nat {
    if fs == {} then 0
    else
      var f :| f in fs;
      use(f) + 2 + Total(use, fs - {f})
  }

  lemma {:induction false} TotalWithout(use: Word -> nat, fs: set<Word>, f: Word)
    requires f in fs
    ensures Total(use, fs) == use(f) + 2 + Total(use, fs - {f})
    decreases |fs|
  {
    var g :| g in fs && Total(use, fs) == use(g) + 2 + Total(use, fs - {g});
    if g != f {
      TotalWithout(use, fs - {g}, f);
      TotalWithout(use, fs - {f}, g);
      assert fs - {g} - {f} == fs - {f} - {g};
    }
  }

  /** A sum in any order, each function once. */
  lemma {:induction false} SuffixIsTotal(use: Word -> nat, order: seq<Word>, i: nat)
    requires i <= |order| && forall a, b :: 0 <= a < b < |order| ==> order[a] != order[b]
    ensures Suffix(use, order, i) == Total(use, Elems(order[i..]))
    decreases |order| - i
  {
    if i < |order| {
      SuffixIsTotal(use, order, i + 1);
      ElemsOfSuffix(order, i);
      TotalWithout(use, Elems(order[i..]), order[i]);
      assert Elems(order[i..]) - {order[i]} == Elems(order[i + 1..]);
    }
  }

  lemma {:induction false} ElemsOfSuffix(order: seq<Word>, i: nat)
    requires i < |order| && forall a, b :: 0 <= a < b < |order| ==> order[a] != order[b]
    ensures Elems(order[i..]) == {order[i]} + Elems(order[i + 1..]) && order[i] !in Elems(order[i + 1..])
  {
    assert order[i..] == [order[i]] + order[i + 1..];
  }

  // ----- the bound ---------------------------------------------------------------------------------

  /** Every native call in the region's code goes to one of its functions. */
  ghost predicate Closed(env: R.Env) {
    forall f :: f in env.cs ==>
      S.CallsInside(env.cs, env.cs[f].entry) && forall o :: o in env.cs[f].blocks ==> S.CallsInside(env.cs, env.cs[f].blocks[o])
  }

  /** What holds of the code of the function at place `k`. */
  ghost predicate Placed(env: R.Env, order: seq<Word>, k: nat, code: seq<R.Piece>) {
    k < |order| && Descends(order, k, code) && S.CallsInside(env.cs, code)
  }

  ghost predicate Acyclic(env: R.Env, order: seq<Word>) { Layered(env, order) && Closed(env) }

  lemma BlockPlaced(env: R.Env, order: seq<Word>, k: nat, o: nat)
    requires Acyclic(env, order) && k < |order| && order[k] in env.cs
    ensures Placed(env, order, k, R.BlockAt(env.cs[order[k]], o)) && Placed(env, order, k, env.cs[order[k]].entry)
  {
  }

  lemma {:induction false} LowestBound(env: R.Env, use: Word -> nat, order: seq<Word>, k: nat, entry: int, code: seq<R.Piece>,
                                       m: R.Mem, sp: int, fuel: nat)
    requires Acyclic(env, order) && Placed(env, order, k, code) && Frugal(env, use, order[k], entry, code, m, sp, fuel)
    ensures Lowest(env, order[k], code, m, sp, fuel) >= entry - use(order[k]) - Suffix(use, order, k + 1)
    decreases fuel, |code|, 0
  {
    var f := order[k];
    if code != [] && f in env.cs && env.admits(code[0], m, sp) {
      assert Placed(env, order, k, code[1..]);
      match code[0] {
        case Straight(ins) =>
          var low := env.lower(ins, m, sp);
          if low.Some? && low.value.Cont? {
            LowestBound(env, use, order, k, entry, code[1..], low.value.m, low.value.sp, fuel);
          }
        case CallNative(callee, closure) =>
          if R.EnterFrame(m, sp, closure).Some? {
            var m1 := R.EnterFrame(m, sp, closure).value;
            CalleeLater(env, use, order, k, code);
            if fuel > 0 {
              CallLowestBound(env, use, order, k, callee, m1, sp - 2, fuel - 1);
              var r := R.Call(env, callee, m1, sp - 2, fuel - 1);
              if r.Returned? && !r.raised {
                LowestBound(env, use, order, k, entry, code[1..], r.m, r.newSp, fuel);
              }
            }
          }
        case CallDynamic(popTop, depth) =>
          var closure := R.LoadAt(m, if popTop then sp else sp + depth);
          if closure.Some? {
            var r := env.interp(m, if popTop then sp + 1 else sp, closure.value, fuel);
            if r.Returned? && !r.raised {
              LowestBound(env, use, order, k, entry, code[1..], r.m, r.newSp, fuel);
            }
          }
        case Goto(t) =>
          BlockPlaced(env, order, k, t);
          if fuel > 0 { LowestBound(env, use, order, k, entry, R.BlockAt(env.cs[f], t), m, sp, fuel - 1); }
        case PollGoto(t) =>
          BlockPlaced(env, order, k, t);
          if fuel > 0 && env.poll(m, sp).Some? {
            LowestBound(env, use, order, k, entry, R.BlockAt(env.cs[f], t), env.poll(m, sp).value, sp, fuel - 1);
          }
        case Branch(cond, taken, fall) =>
          if fuel > 0 && env.test(cond, m, sp).Some? {
            var b := env.test(cond, m, sp).value;
            var t := if b.Taken? then taken else fall;
            BlockPlaced(env, order, k, t);
            LowestBound(env, use, order, k, entry, R.BlockAt(env.cs[f], t), m, b.sp, fuel - 1);
          }
        case Ret(n) =>
      }
    }
  }

  /** A callee lies at a later place, and so its frame is counted there. */
  lemma {:induction false} CalleeLater(env: R.Env, use: Word -> nat, order: seq<Word>, k: nat, code: seq<R.Piece>)
    requires Acyclic(env, order) && Placed(env, order, k, code) && code != [] && code[0].CallNative?
    ensures exists j: nat :: k < j < |order| && order[j] == code[0].callee
    ensures Suffix(use, order, k + 1) >= 2
  {
    var j: nat :| j < |order| && order[j] == code[0].callee;
    SuffixFalls(use, order, k + 1, j);
  }

  lemma {:induction false} CallLowestBound(env: R.Env, use: Word -> nat, order: seq<Word>, k: nat, callee: Word, m: R.Mem, sp: int,
                                           fuel: nat)
    requires Acyclic(env, order) && CallFrugal(env, use, callee, m, sp, fuel)
    requires exists j: nat :: k < j < |order| && order[j] == callee
    ensures CallLowest(env, callee, m, sp, fuel) >= sp + 2 - Suffix(use, order, k + 1)
    decreases fuel, if callee in env.cs then |env.cs[callee].entry| else 0, 1
  {
    var j: nat :| k < j < |order| && order[j] == callee;
    SuffixFalls(use, order, k + 1, j);
    if callee in env.cs {
      BlockPlaced(env, order, j, 0);
      LowestBound(env, use, order, j, sp, env.cs[callee].entry, m, sp, fuel);
    }
  }

  /** Native calls use a bounded part of the shared stack: if the recursion check found no
      cycle, and each function's own code stays within the slots `use` gives it, then from
      the frame of the root downwards the whole call tree takes no more than the sum, over
      the functions of the region, of their slots and their frames. */
  lemma {:induction false} SharedStackBounded(image: Image, root: Word, r: Region, env: R.Env, use: Word -> nat, m: R.Mem, sp: int,
                                              closure: Word, fuel: nat)
    requires IsBuilt(image, root, r) && !r.recursive && env.cs == r.funcs && R.EnterFrame(m, sp, closure).Some?
    requires CallFrugal(env, use, root, R.EnterFrame(m, sp, closure).value, sp - 2, fuel)
    ensures CallLowest(env, root, R.EnterFrame(m, sp, closure).value, sp - 2, fuel) >= sp - Total(use, r.funcs.Keys)
  {
    forall i | 0 <= i < |r.edges| ensures r.edges[i].0 in r.funcs.Keys {
      assert (r.edges[i].0, r.edges[i].1) in r.edges;
    }
    var order := AcyclicOrder(r.funcs.Keys, r.edges, []);
    LayeredByOrder(image, root, r, env, order);
    RegionClosed(image, root, r, env);
    RootBound(env, use, order, root, R.EnterFrame(m, sp, closure).value, sp - 2, fuel);
  }

  lemma {:induction false} RootBound(env: R.Env, use: Word -> nat, order: seq<Word>, root: Word, m: R.Mem, sp: int, fuel: nat)
    requires Acyclic(env, order) && CallFrugal(env, use, root, m, sp, fuel) && root in env.cs
    requires forall f :: f in env.cs <==> f in order
    requires forall a, b :: 0 <= a < b < |order| ==> order[a] != order[b]
    ensures CallLowest(env, root, m, sp, fuel) >= sp + 2 - Total(use, env.cs.Keys)
  {
    var k: nat :| k < |order| && order[k] == root;
    BlockPlaced(env, order, k, 0);
    LowestBound(env, use, order, k, sp, env.cs[root].entry, m, sp, fuel);
    SuffixFalls(use, order, 0, k);
    assert order[0..] == order;
    SuffixIsTotal(use, order, 0);
    assert Elems(order) == env.cs.Keys;
  }

  lemma RegionClosed(image: Image, root: Word, r: Region, env: R.Env)
    requires IsBuilt(image, root, r) && env.cs == r.funcs
    ensures Closed(env)
  {
    forall f | f in env.cs
      ensures S.CallsInside(env.cs, env.cs[f].entry)
      ensures forall o :: o in env.cs[f].blocks ==> S.CallsInside(env.cs, env.cs[f].blocks[o])
    {
      CalleesInside(image, root, r, f);
      DefinedIsOk(image, f, r.funcs);
    }
  }
}
