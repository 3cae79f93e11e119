/** Building a region: from a root code object, every function its static calls reach. */
module Discovery {
  import opened Basics
  import opened Words
  import opened Instr
  import opened Opcodes
  import opened Bytecode
  import opened CallGraph

  /** What can be read of the heap while it is frozen: the code objects that resolve, by
      address, and the first word of every other object. */
  datatype Image = Image(code: map<Word, ResolvedCode>, firstWord: map<Word, Word>)

  /** What is wrong with a code object. */
  datatype Flaw =
    | Unresolvable
    | UnsupportedOpcode(op: Byte, at: nat)
    | UnresolvableCallee(at: nat)

  datatype Refusal = Flawed(flaw: Flaw) | RegionTooLarge

  const MAX_REGION_FUNCS: nat := 256

  // ----- the pre-flight check -----------------------------------------------------------

  /** What the check sees at one offset: the static callee named there, if any, and where
      the next instruction is. */
  datatype Line = Line(callee: Result<seq<Word>, Flaw>, next: nat)

  datatype Listing = Listing(len: nat, at: map<nat, Line>)

  predicate Advances(l: Listing) {
    forall pc :: 0 <= pc < l.len ==> pc in l.at && l.at[pc].next > pc
  }

  function CalleeOf(image: Image, rc: ResolvedCode, pc: nat): Result<seq<Word>, Flaw>
    requires pc < |rc.bytecode|
  {
    var op := rc.bytecode[pc];
    if !IsSupported(op) then Err(UnsupportedOpcode(op, pc))
    else if !IsCca(op) then Ok([])
    else
      match CalleeAt(rc, image.firstWord, pc)
      case None => Err(UnresolvableCallee(pc))
      case Some(callee) => Ok([callee])
  }

  function ListingOf(image: Image, rc: ResolvedCode): (l: Listing)
    ensures Advances(l) && l.len == |rc.bytecode|
  {
    Listing(|rc.bytecode|,
      map pc: nat | 0 <= pc < |rc.bytecode| :: Line(CalleeOf(image, rc, pc), pc + LengthAt(rc.bytecode, pc)))
  }

  /** The static callees from `pc` on, in order, if every opcode is supported and every
      callee resolves. */
  function Callees(l: Listing, pc: nat): Result<seq<Word>, Flaw>
    requires Advances(l)
    decreases l.len - pc
  {
    if pc >= l.len then Ok([])
    else
      var callee :- l.at[pc].callee;
      Prepended(callee, Callees(l, l.at[pc].next))
  }

  function EdgesTo(from: Word, callees: seq<Word>): seq<Edge> {
    seq(|callees|, i requires 0 <= i < |callees| => (from, callees[i]))
  }

  lemma EdgesToAppend(from: Word, xs: seq<Word>, ys: seq<Word>)
    ensures EdgesTo(from, xs + ys) == EdgesTo(from, xs) + EdgesTo(from, ys)
  {
  }

  /** The walk over one code object, which adds to the edges and the worklist as it goes. */
  method Preflight(addr: Word, l: Listing, edges0: seq<Edge>, worklist0: seq<Word>)
    returns (r: Result<(seq<Edge>, seq<Word>), Flaw>)
    requires Advances(l)
    ensures r.Ok? <==> Callees(l, 0).Ok?
    ensures r.Ok? ==>
      && r.value.0 == edges0 + EdgesTo(addr, Callees(l, 0).value)
      && r.value.1 == worklist0 + Callees(l, 0).value
    ensures r.Err? ==> Callees(l, 0) == Err(r.error)
  {
    var edges, worklist, pc := edges0, worklist0, 0;
    ghost var seen: seq<Word> := [];
    assert edges == edges0 + EdgesTo(addr, seen);
    assert worklist == worklist0 + seen;
    PrependNone(Callees(l, 0));
    while pc < l.len
      invariant edges == edges0 + EdgesTo(addr, seen)
      invariant worklist == worklist0 + seen
      invariant Callees(l, 0) == Prepended(seen, Callees(l, pc))
      decreases l.len - pc
    {
      var callee :- l.at[pc].callee;
      EdgesToAppend(addr, seen, callee);
      PrependedTwice(seen, callee, Callees(l, l.at[pc].next));
      edges := edges + EdgesTo(addr, callee);
      worklist := worklist + callee;
      seen := seen + callee;
      pc := l.at[pc].next;
    }
    assert seen + [] == seen;
    return Ok((edges, worklist));
  }

  function Prepended(xs: seq<Word>, r: Result<seq<Word>, Flaw>): Result<seq<Word>, Flaw> {
    var rest :- r;
    Ok(xs + rest)
  }

  lemma PrependNone(r: Result<seq<Word>, Flaw>)
    ensures Prepended([], r) == r
  {
    if r.Ok? { assert [] + r.value == r.value; }
  }

  lemma PrependedTwice(xs: seq<Word>, ys: seq<Word>, r: Result<seq<Word>, Flaw>)
    ensures Prepended(xs, Prepended(ys, r)) == Prepended(xs + ys, r)
  {
    if r.Ok? { assert xs + (ys + r.value) == xs + ys + r.value; }
  }

  // ----- reachability -----------------------------------------------------------------------

  /** The static callees of the function at `a`. */
  function CalleesOf(image: Image, a: Word): Result<seq<Word>, Flaw> {
    if a in image.code then Callees(ListingOf(image, image.code[a]), 0) else Err(Unresolvable)
  }

  /** `b` is a static callee of the function at `a`. */
  ghost predicate Calls(image: Image, a: Word, b: Word) {
    CalleesOf(image, a).Ok? && b in CalleesOf(image, a).value
  }

  /** A chain of static calls. */
  ghost predicate Chain(image: Image, p: seq<Word>) {
    |p| > 0 && forall i :: 0 <= i < |p| - 1 ==> Calls(image, p[i], p[i + 1])
  }

  ghost predicate Reachable(image: Image, root: Word, a: Word) {
    exists p :: Chain(image, p) && p[0] == root && p[|p| - 1] == a
  }

  /** The function can be part of a region. */
  ghost predicate Acceptable(image: Image, a: Word) {
    CalleesOf(image, a).Ok?
  }

  lemma RootReachable(image: Image, root: Word)
    ensures Reachable(image, root, root)
  {
    assert Chain(image, [root]);
  }

  lemma CalleeReachable(image: Image, root: Word, a: Word, b: Word)
    requires Reachable(image, root, a) && Calls(image, a, b)
    ensures Reachable(image, root, b)
  {
    var p :| Chain(image, p) && p[0] == root && p[|p| - 1] == a;
    assert Chain(image, p + [b]);
  }

  /** A set with the root and all callees of its members has everything reachable. */
  lemma {:induction false} ClosedHasChain(image: Image, s: set<Word>, p: seq<Word>, i: nat)
    requires Chain(image, p) && p[0] in s && i < |p|
    requires forall a: Word, b: Word :: a in s && Calls(image, a, b) ==> b in s
    ensures p[i] in s
  {
    if i > 0 {
      ClosedHasChain(image, s, p, i - 1);
      assert Calls(image, p[i - 1], p[i]);
    }
  }

  // ----- discovery ------------------------------------------------------------------------

  /** What the worklist loop keeps. */
  ghost predicate Discovered(image: Image, root: Word, resolved: set<Word>, edges: seq<Edge>, worklist: seq<Word>) {
    && |resolved| <= MAX_REGION_FUNCS
    && (forall a :: a in resolved ==> Acceptable(image, a) && Reachable(image, root, a))
    && (forall a :: a in worklist ==> Reachable(image, root, a))
    && (root in resolved || root in worklist)
    && (forall a: Word, b: Word :: a in resolved && Calls(image, a, b) ==> b in resolved || b in worklist)
    && (forall a: Word, b: Word :: (a, b) in edges <==> a in resolved && Calls(image, a, b))
  }

  /** Resolves and scans the function at `addr`, just taken off the worklist. */
  method Visit(image: Image, root: Word, ghost resolved: set<Word>, edges: seq<Edge>, worklist: seq<Word>,
               ghost before: seq<Word>, addr: Word)
    returns (r: Result<(seq<Edge>, seq<Word>), Refusal>)
    requires Discovered(image, root, resolved, edges, before)
    requires forall a :: a in before <==> a in worklist || a == addr
    requires addr !in resolved && |resolved| < MAX_REGION_FUNCS
    ensures r.Ok? ==> Discovered(image, root, resolved + {addr}, r.value.0, r.value.1)
    ensures r.Err? ==> !r.error.RegionTooLarge? && Reachable(image, root, addr) && !Acceptable(image, addr)
  {
    if addr !in image.code {
      return Err(Flawed(Unresolvable));
    }
    var walked := Preflight(addr, ListingOf(image, image.code[addr]), edges, worklist);
    if walked.Err? {
      return Err(Flawed(walked.error));
    }
    Resolves(image, root, resolved, edges, worklist, before, addr, walked.value.0, walked.value.1);
    return Ok(walked.value);
  }

  /** The worklist of `build_region`.  It succeeds exactly when everything the root reaches
      can be part of a region and is at most 256 functions; then it has resolved exactly
      what the root reaches, and has exactly the static calls among them as edges. */
  method Discover(image: Image, root: Word) returns (r: Result<(set<Word>, seq<Edge>), Refusal>)
    ensures r.Ok? ==> forall a :: a in r.value.0 <==> Reachable(image, root, a)
    ensures r.Ok? ==> |r.value.0| <= 256 && forall a :: a in r.value.0 ==> Acceptable(image, a)
    ensures r.Ok? ==> forall a: Word, b: Word :: (a, b) in r.value.1 <==> a in r.value.0 && b in r.value.0 && Calls(image, a, b)
    ensures r.Err? && r.error.RegionTooLarge? ==>
      exists s: set<Word> :: |s| == 257 && forall a :: a in s ==> Reachable(image, root, a)
    ensures r.Err? && !r.error.RegionTooLarge? ==> exists a :: Reachable(image, root, a) && !Acceptable(image, a)
  {
    var resolved: set<Word>, worklist, edges: seq<Edge> := {}, [root], [];
    RootReachable(image, root);
    while worklist != []
      invariant Discovered(image, root, resolved, edges, worklist)
      decreases MAX_REGION_FUNCS - |resolved|, |worklist|
    {
      var addr := worklist[|worklist| - 1];
      ghost var before := worklist;
      worklist := worklist[..|worklist| - 1];
      assert forall a :: a in before <==> a in worklist || a == addr;
      if addr in resolved {
        Skipped(image, root, resolved, edges, before, worklist, addr);
        continue;
      }
      if |resolved| >= MAX_REGION_FUNCS {
        OneTooMany(image, root, resolved, edges, before, addr);
        return Err(RegionTooLarge);
      }
      var visited :- Visit(image, root, resolved, edges, worklist, before, addr);
      edges, worklist := visited.0, visited.1;
      resolved := resolved + {addr};
    }
    AllReached(image, root, resolved, edges);
    return Ok((resolved, edges));
  }

  lemma Skipped(image: Image, root: Word, resolved: set<Word>, edges: seq<Edge>, before: seq<Word>, worklist: seq<Word>, addr: Word)
    requires Discovered(image, root, resolved, edges, before) && addr in resolved
    requires forall a :: a in before <==> a in worklist || a == addr
    ensures Discovered(image, root, resolved, edges, worklist)
  {
  }

  lemma OneTooMany(image: Image, root: Word, resolved: set<Word>, edges: seq<Edge>, before: seq<Word>, addr: Word)
    requires Discovered(image, root, resolved, edges, before) && |resolved| >= MAX_REGION_FUNCS
    requires addr in before && addr !in resolved
    ensures exists s: set<Word> :: |s| == MAX_REGION_FUNCS + 1 && forall a :: a in s ==> Reachable(image, root, a)
  {
    assert |resolved + {addr}| == MAX_REGION_FUNCS + 1;
  }

  lemma EdgesToAre(from: Word, callees: seq<Word>, a: Word, b: Word)
    ensures (a, b) in EdgesTo(from, callees) <==> a == from && b in callees
  {
    if a == from && b in callees {
      var i :| 0 <= i < |callees| && callees[i] == b;
      assert EdgesTo(from, callees)[i] == (a, b);
    }
  }

  lemma Resolves(image: Image, root: Word, resolved: set<Word>, edges: seq<Edge>, worklist: seq<Word>, before: seq<Word>,
                 addr: Word, edges': seq<Edge>, worklist': seq<Word>)
    requires Discovered(image, root, resolved, edges, before)
    requires forall a :: a in before <==> a in worklist || a == addr
    requires addr !in resolved && |resolved| < MAX_REGION_FUNCS && Acceptable(image, addr)
    requires edges' == edges + EdgesTo(addr, CalleesOf(image, addr).value)
    requires worklist' == worklist + CalleesOf(image, addr).value
    ensures Discovered(image, root, resolved + {addr}, edges', worklist')
  {
    var callees := CalleesOf(image, addr).value;
    forall a | a in worklist' ensures Reachable(image, root, a) {
      if a in callees {
        CalleeReachable(image, root, addr, a);
      }
    }
    forall a: Word, b: Word ensures (a, b) in edges' <==> a in resolved + {addr} && Calls(image, a, b) {
      EdgesToAre(addr, callees, a, b);
    }
  }

  lemma AllReached(image: Image, root: Word, resolved: set<Word>, edges: seq<Edge>)
    requires Discovered(image, root, resolved, edges, [])
    ensures forall a :: a in resolved <==> Reachable(image, root, a)
    ensures forall a: Word, b: Word :: (a, b) in edges <==> a in resolved && b in resolved && Calls(image, a, b)
  {
    forall a | Reachable(image, root, a) ensures a in resolved {
      var p :| Chain(image, p) && p[0] == root && p[|p| - 1] == a;
      ClosedHasChain(image, resolved, p, |p| - 1);
    }
  }
}
