/** Recursion in a region's static call graph: Kahn's algorithm finds a cycle exactly when
    there is one. */
module CallGraph {
  import opened Words

  type Edge = (Word, Word)

  /** A walk along edges between nodes. */
  ghost predicate IsPath(nodes: set<Word>, edges: seq<Edge>, p: seq<Word>) {
    && (forall i :: 0 <= i < |p| ==> p[i] in nodes)
    && (forall i :: 0 <= i < |p| - 1 ==> (p[i], p[i + 1]) in edges)
  }

  ghost predicate IsCycle(nodes: set<Word>, edges: seq<Edge>, p: seq<Word>) {
    |p| > 1 && IsPath(nodes, edges, p) && p[0] == p[|p| - 1]
  }

  ghost predicate HasCycle(nodes: set<Word>, edges: seq<Edge>) {
    exists p :: IsCycle(nodes, edges, p)
  }

  /** `order` lists nodes once each, callers before callees, with every caller of a listed
      node listed. */
  predicate Ordered(edges: seq<Edge>, order: seq<Word>) {
    && (forall i, j :: 0 <= i < j < |order| ==> order[i] != order[j])
    && (forall i, j :: 0 <= i < |edges| && 0 <= j < |order| && edges[i].1 == order[j] ==>
          edges[i].0 in order[..j])
  }

  function Elems(s: seq<Word>): set<Word> {
    set x | x in s
  }

  // ----- counting edges -----------------------------------------------------------------

  /** How many edges of `es` lead to `n` from a node that is not `done`. */
  function InDegree(es: seq<Edge>, done: set<Word>, n: Word): nat {
    if es == [] then 0
    else (if es[0].1 == n && es[0].0 !in done then 1 else 0) + InDegree(es[1..], done, n)
  }

  lemma {:induction false} InDegreeAppend(es: seq<Edge>, fs: seq<Edge>, done: set<Word>, n: Word)
    ensures InDegree(es + fs, done, n) == InDegree(es, done, n) + InDegree(fs, done, n)
  {
    if es == [] {
      assert es + fs == fs;
    } else {
      assert (es + fs)[1..] == es[1..] + fs;
      InDegreeAppend(es[1..], fs, done, n);
    }
  }

  lemma {:induction false} InDegreeOne(e: Edge, done: set<Word>, n: Word)
    ensures InDegree([e], done, n) == if e.1 == n && e.0 !in done then 1 else 0
  {
    assert [e][1..] == [];
  }

  lemma {:induction false} InDegreeZero(es: seq<Edge>, done: set<Word>, n: Word)
    ensures InDegree(es, done, n) == 0 <==> forall i :: 0 <= i < |es| && es[i].1 == n ==> es[i].0 in done
  {
    if es != [] {
      InDegreeZero(es[1..], done, n);
      if InDegree(es, done, n) == 0 {
        forall i | 0 <= i < |es| && es[i].1 == n ensures es[i].0 in done {
          if i > 0 { assert es[1..][i - 1] == es[i]; }
        }
      } else if InDegree(es[1..], done, n) != 0 {
        var i :| 0 <= i < |es[1..]| && es[1..][i].1 == n && es[1..][i].0 !in done;
        assert es[i + 1].1 == n && es[i + 1].0 !in done;
      }
    }
  }

  // ----- cycles -------------------------------------------------------------------------

  lemma {:induction false} IndexIn(s: seq<Word>, x: Word) returns (i: nat)
    requires x in s
    ensures i < |s| && s[i] == x
  {
    i :| 0 <= i < |s| && s[i] == x;
  }

  /** Along a path inside an order, positions grow. */
  lemma {:induction false} PathAscends(nodes: set<Word>, edges: seq<Edge>, order: seq<Word>, p: seq<Word>, i: nat, j: nat)
    requires Ordered(edges, order) && IsPath(nodes, edges, p) && i < j < |p|
    requires forall k :: 0 <= k < |p| ==> p[k] in order
    ensures forall a, b :: 0 <= a < |order| && 0 <= b < |order| && order[a] == p[i] && order[b] == p[j] ==> a < b
    decreases j - i
  {
    forall a, b | 0 <= a < |order| && 0 <= b < |order| && order[a] == p[i] && order[b] == p[j] ensures a < b {
      assert (p[j - 1], p[j]) in edges;
      var e :| 0 <= e < |edges| && edges[e] == (p[j - 1], p[j]);
      assert edges[e].0 in order[..b];
      var c :| 0 <= c < b && order[c] == p[j - 1];
      if i < j - 1 {
        PathAscends(nodes, edges, order, p, i, j - 1);
      }
    }
  }

  /** A graph whose nodes can all be put in order has no cycle. */
  lemma OrderedAcyclic(nodes: set<Word>, edges: seq<Edge>, order: seq<Word>)
    requires Ordered(edges, order) && forall n :: n in nodes ==> n in order
    ensures !HasCycle(nodes, edges)
  {
    if p :| IsCycle(nodes, edges, p) {
      var a :| 0 <= a < |order| && order[a] == p[0];
      PathAscends(nodes, edges, order, p, 0, |p| - 1);
    }
  }

  /** More places than values: some value stands twice. */
  lemma {:induction false} Pigeonhole(s: set<Word>, p: seq<Word>) returns (i: nat, j: nat)
    requires (forall k :: 0 <= k < |p| ==> p[k] in s) && |p| > |s|
    ensures i < j < |p| && p[i] == p[j]
    decreases |p|
  {
    var last := p[|p| - 1];
    if last in p[..|p| - 1] {
      i := IndexIn(p[..|p| - 1], last);
      j := |p| - 1;
    } else {
      i, j := Pigeonhole(s - {last}, p[..|p| - 1]);
    }
  }

  ghost predicate HasCaller(stuck: set<Word>, edges: seq<Edge>, x: Word) {
    exists i :: 0 <= i < |edges| && edges[i].1 == x && edges[i].0 in stuck
  }

  /** Where every node of a set has a caller in the set, one can walk backwards forever. */
  lemma {:induction false} BackwardWalk(stuck: set<Word>, edges: seq<Edge>, n: Word, len: nat) returns (p: seq<Word>)
    requires n in stuck
    requires forall x {:trigger HasCaller(stuck, edges, x)} :: x in stuck ==> HasCaller(stuck, edges, x)
    ensures |p| == len + 1 && IsPath(stuck, edges, p)
    decreases len
  {
    if len == 0 {
      p := [n];
    } else {
      var rest := BackwardWalk(stuck, edges, n, len - 1);
      assert HasCaller(stuck, edges, rest[0]);
      var i :| 0 <= i < |edges| && edges[i].1 == rest[0] && edges[i].0 in stuck;
      p := [edges[i].0] + rest;
      forall k | 0 <= k < |p| - 1 ensures (p[k], p[k + 1]) in edges {
        if k > 0 { assert (rest[k - 1], rest[k]) in edges; }
      }
    }
  }

  lemma StuckHasCycle(nodes: set<Word>, stuck: set<Word>, edges: seq<Edge>)
    requires stuck != {} && stuck <= nodes
    requires forall x {:trigger HasCaller(stuck, edges, x)} :: x in stuck ==> HasCaller(stuck, edges, x)
    ensures HasCycle(nodes, edges)
  {
    var n :| n in stuck;
    var p := BackwardWalk(stuck, edges, n, |stuck|);
    var i, j := Pigeonhole(stuck, p);
    var c := p[i..j + 1];
    forall k | 0 <= k < |c| - 1 ensures (c[k], c[k + 1]) in edges {
      assert (p[i + k], p[i + k + 1]) in edges;
    }
    assert IsCycle(nodes, edges, c);
  }

  /** A graph without a cycle can be put in order. */
  lemma {:induction false} AcyclicOrder(nodes: set<Word>, edges: seq<Edge>, start: seq<Word>) returns (order: seq<Word>)
    requires !HasCycle(nodes, edges) && forall i :: 0 <= i < |edges| ==> edges[i].0 in nodes
    requires Ordered(edges, start) && forall n :: n in start ==> n in nodes
    ensures Ordered(edges, order) && forall n :: n in nodes <==> n in order
    decreases |nodes| - |start|
  {
    DistinctSize(start, nodes);
    var stuck := set n | n in nodes && n !in start;
    if stuck == {} {
      order := start;
      forall n | n in nodes ensures n in order {
        assert n !in stuck;
      }
    } else {
      if forall x {:trigger HasCaller(stuck, edges, x)} :: x in stuck ==> HasCaller(stuck, edges, x) {
        StuckHasCycle(nodes, stuck, edges);
      }
      var x :| x in stuck && !HasCaller(stuck, edges, x);
      InDegreeZero(edges, Elems(start), x);
      OrderGrows(nodes, edges, start, x);
      DistinctSize(start + [x], nodes);
      order := AcyclicOrder(nodes, edges, start + [x]);
    }
  }

  // ----- Kahn's algorithm ----------------------------------------------------------------

  /** The in-degrees are those that edges from nodes not yet removed give. */
  ghost predicate Counts(nodes: set<Word>, edges: seq<Edge>, indeg: map<Word, nat>, done: set<Word>) {
    indeg.Keys == nodes && forall n :: n in nodes ==> indeg[n] == InDegree(edges, done, n)
  }

  /** In the middle of removing `n`: the edges up to `i` have been looked at. */
  ghost predicate CountsAt(nodes: set<Word>, edges: seq<Edge>, indeg: map<Word, nat>, done: set<Word>, n: Word, i: nat)
    requires i <= |edges|
  {
    && indeg.Keys == nodes
    && forall t :: t in nodes ==>
         indeg[t] == InDegree(edges[..i], done + {n}, t) + InDegree(edges[i..], done, t)
  }

  lemma {:induction false} CountsStep(nodes: set<Word>, edges: seq<Edge>, done: set<Word>, n: Word, i: nat, t: Word)
    requires i < |edges|
    ensures InDegree(edges[..i + 1], done + {n}, t) + InDegree(edges[i + 1..], done, t)
      + (if edges[i].1 == t && edges[i].0 == n && n !in done then 1 else 0)
      == InDegree(edges[..i], done + {n}, t) + InDegree(edges[i..], done, t)
  {
    assert edges[..i + 1] == edges[..i] + [edges[i]];
    InDegreeAppend(edges[..i], [edges[i]], done + {n}, t);
    assert edges[i..][1..] == edges[i + 1..];
  }

  /** Taking edge `i` out of the in-degrees if it comes from `n`; no in-degree is zero then. */
  lemma CountsAdvance(nodes: set<Word>, edges: seq<Edge>, indeg: map<Word, nat>, done: set<Word>, n: Word, i: nat)
    requires i < |edges| && n !in done && CountsAt(nodes, edges, indeg, done, n, i)
    ensures edges[i].0 == n && edges[i].1 in indeg ==>
      && indeg[edges[i].1] > 0
      && CountsAt(nodes, edges, indeg[edges[i].1 := indeg[edges[i].1] - 1], done, n, i + 1)
    ensures !(edges[i].0 == n && edges[i].1 in indeg) ==> CountsAt(nodes, edges, indeg, done, n, i + 1)
  {
    forall t ensures InDegree(edges[..i + 1], done + {n}, t) + InDegree(edges[i + 1..], done, t)
        + (if edges[i].1 == t && edges[i].0 == n then 1 else 0)
        == InDegree(edges[..i], done + {n}, t) + InDegree(edges[i..], done, t) {
      CountsStep(nodes, edges, done, n, i, t);
    }
  }

  /** Which nodes wait in the queue: exactly those not removed whose in-degree is zero. */
  ghost predicate Waiting(nodes: set<Word>, indeg: map<Word, nat>, queue: seq<Word>, gone: set<Word>) {
    && indeg.Keys == nodes
    && (forall i, j :: 0 <= i < j < |queue| ==> queue[i] != queue[j])
    && (forall x :: x in queue ==> x !in gone)
    && (forall x :: x in queue || x in gone ==> x in nodes)
    && (forall x :: x in nodes ==> (indeg[x] == 0 <==> x in queue || x in gone))
  }

  method CountInDegrees(nodes: set<Word>, edges: seq<Edge>) returns (indeg: map<Word, nat>)
    ensures Counts(nodes, edges, indeg, {})
  {
    indeg := map n | n in nodes :: 0;
    var i := 0;
    while i < |edges|
      invariant 0 <= i <= |edges|
      invariant Counts(nodes, edges[..i], indeg, {})
    {
      var to := edges[i].1;
      assert edges[..i + 1] == edges[..i] + [edges[i]];
      forall t ensures InDegree(edges[..i + 1], {}, t) == InDegree(edges[..i], {}, t) + if edges[i].1 == t then 1 else 0 {
        InDegreeAppend(edges[..i], [edges[i]], {}, t);
        InDegreeOne(edges[i], {}, t);
      }
      if to in indeg {
        indeg := indeg[to := indeg[to] + 1];
      }
      i := i + 1;
    }
    assert edges[..|edges|] == edges;
  }

  /** The nodes no edge leads to, in some order. */
  method Sources(indeg: map<Word, nat>) returns (queue: seq<Word>)
    ensures Waiting(indeg.Keys, indeg, queue, {})
  {
    queue := [];
    var left := indeg.Keys;
    while left != {}
      invariant left <= indeg.Keys
      invariant forall i, j :: 0 <= i < j < |queue| ==> queue[i] != queue[j]
      invariant forall x :: x in queue <==> x in indeg.Keys - left && indeg[x] == 0
      decreases left
    {
      var n :| n in left;
      if indeg[n] == 0 {
        queue := queue + [n];
      }
      left := left - {n};
    }
  }

  /** The inner loop: takes `n`'s edges out of the in-degrees. */
  method RemoveNode(nodes: set<Word>, edges: seq<Edge>, indeg0: map<Word, nat>, queue0: seq<Word>, ghost gone: set<Word>,
                    n: Word)
    returns (indeg: map<Word, nat>, queue: seq<Word>)
    requires Waiting(nodes, indeg0, queue0, gone + {n}) && n !in gone
    requires Counts(nodes, edges, indeg0, gone)
    ensures Waiting(nodes, indeg, queue, gone + {n})
    ensures Counts(nodes, edges, indeg, gone + {n})
  {
    indeg, queue := indeg0, queue0;
    var i := 0;
    while i < |edges|
      invariant 0 <= i <= |edges|
      invariant CountsAt(nodes, edges, indeg, gone, n, i)
      invariant Waiting(nodes, indeg, queue, gone + {n})
    {
      var (from, to) := edges[i];
      CountsAdvance(nodes, edges, indeg, gone, n, i);
      if from == n && to in indeg {
        indeg := indeg[to := indeg[to] - 1];
        if indeg[to] == 0 {
          queue := queue + [to];
        }
      }
      i := i + 1;
    }
    assert edges[..|edges|] == edges;
  }

  lemma {:induction false} DistinctSize(s: seq<Word>, nodes: set<Word>)
    requires forall i, j :: 0 <= i < j < |s| ==> s[i] != s[j]
    requires forall x :: x in s ==> x in nodes
    ensures |s| <= |nodes|
    ensures |s| == |nodes| ==> forall x :: x in nodes ==> x in s
    decreases |s|
  {
    if |s| == 0 {
    } else {
      var last := s[|s| - 1];
      DistinctSize(s[..|s| - 1], nodes - {last});
      assert nodes == nodes - {last} + {last};
    }
  }

  lemma {:induction false} OrderGrows(nodes: set<Word>, edges: seq<Edge>, order: seq<Word>, n: Word)
    requires Ordered(edges, order) && n !in order
    requires InDegree(edges, Elems(order), n) == 0
    ensures Ordered(edges, order + [n])
  {
    InDegreeZero(edges, Elems(order), n);
    var order' := order + [n];
    forall i, j | 0 <= i < |edges| && 0 <= j < |order'| && edges[i].1 == order'[j]
      ensures edges[i].0 in order'[..j]
    {
      if j < |order| {
        assert order'[..j] == order[..j];
      } else {
        assert order'[..j] == order;
      }
    }
  }

  /** With the queue empty, every node left over has a caller left over. */
  lemma KahnEnds(nodes: set<Word>, edges: seq<Edge>, indeg: map<Word, nat>, order: seq<Word>)
    requires forall i :: 0 <= i < |edges| ==> edges[i].0 in nodes
    requires Ordered(edges, order) && Waiting(nodes, indeg, [], Elems(order))
    requires Counts(nodes, edges, indeg, Elems(order))
    ensures |order| == |nodes| <==> !HasCycle(nodes, edges)
    ensures |order| == |nodes| ==> forall n :: n in nodes ==> n in order
  {
    DistinctSize(order, nodes);
    if |order| == |nodes| {
      OrderedAcyclic(nodes, edges, order);
    } else {
      var stuck := set n | n in nodes && n !in order;
      if stuck == {} {
        forall x | x in nodes ensures x in Elems(order) {
          assert x !in stuck;
        }
        assert nodes == Elems(order);
        SetOfSize(order);
      }
      forall x | x in stuck ensures HasCaller(stuck, edges, x) {
        InDegreeZero(edges, Elems(order), x);
      }
      StuckHasCycle(nodes, stuck, edges);
    }
  }

  lemma {:induction false} SetOfSize(s: seq<Word>)
    ensures |Elems(s)| <= |s|
    decreases |s|
  {
    if s != [] {
      var last := s[|s| - 1];
      SetOfSize(s[..|s| - 1]);
      assert Elems(s) == Elems(s[..|s| - 1]) + {last};
    }
  }

  /** `call_graph_has_cycle`.  Edges may repeat and may loop.  The in-degrees are naturals:
      none is ever decremented below zero.  When there is no cycle the nodes were removed
      callers first. */
  method CallGraphHasCycle(nodes: set<Word>, edges: seq<Edge>) returns (cyclic: bool, ghost order: seq<Word>)
    requires forall i :: 0 <= i < |edges| ==> edges[i].0 in nodes
    ensures cyclic <==> HasCycle(nodes, edges)
    ensures !cyclic ==> Ordered(edges, order) && forall n :: n in nodes <==> n in order
  {
    var indeg := CountInDegrees(nodes, edges);
    var queue := Sources(indeg);
    var removed := 0;
    order := [];
    assert Elems(order) == {};
    while queue != []
      invariant removed == |order|
      invariant Ordered(edges, order)
      invariant Waiting(nodes, indeg, queue, Elems(order))
      invariant Counts(nodes, edges, indeg, Elems(order))
      decreases |nodes| - |order|
    {
      var n := queue[|queue| - 1];
      assert n in queue;
      queue := queue[..|queue| - 1];
      removed := removed + 1;
      DistinctSize(order + [n], nodes);
      indeg, queue := RemoveNode(nodes, edges, indeg, queue, Elems(order), n);
      assert Elems(order + [n]) == Elems(order) + {n};
      OrderGrows(nodes, edges, order, n);
      order := order + [n];
    }
    KahnEnds(nodes, edges, indeg, order);
    cyclic := removed != |nodes|;
  }
}
