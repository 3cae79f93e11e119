/** `build_region`: discovery, the recursion check and the compilation of every function
    found, ending in a region for which the theorems about regions hold. */
module Build {
  import opened Basics
  import opened Words
  import opened Instr
  import opened Opcodes
  import opened Bytecode
  import opened CallGraph
  import opened Discovery
  import C = Compile
  import RetPc
  import S = Simulation
  import R = Region

  datatype Failure = Refused(refusal: Refusal) | Bailed(bail: C.Bail)

  datatype Region = Region(root: Word, funcs: map<Word, R.Compiled>, edges: seq<Edge>, recursive: bool)

  /** Object lengths are bounded by 2^24 words, far below the address space. */
  predicate Bounded(image: Image) {
    forall a :: a in image.code ==> |image.code[a].bytecode| < MODULUS
  }

  /** What a constant-pool closure names, where the translator accepts it. */
  function CodeOf(image: Image): map<Word, Word> {
    map c | c in image.firstWord && Aligned(c) && Aligned(image.firstWord[c]) :: image.firstWord[c]
  }

  function ProgramOf(image: Image): Program {
    Program(map a | a in image.code :: FunctionOf(image.code[a]), CodeOf(image))
  }

  // ----- native calls stay inside the region --------------------------------------------------

  /** A native call to `g` that the code calls for somewhere. */
  ghost predicate CallsOut(codeOf: map<Word, Word>, fn: Function, g: Word)
    requires C.Decodes(fn)
  {
    exists pc :: pc in C.Boundaries(fn, 0) && fn.at[pc].ins.CallConst?
      && fn.at[pc].ins.closure in codeOf && codeOf[fn.at[pc].ins.closure] == g
  }

  /** Every native call in a block comes from a call instruction of the bytecode. */
  lemma {:induction false} TailCalls(codeOf: map<Word, Word>, fn: Function, starts: set<nat>, pc: nat, i: nat)
    requires C.Decodes(fn) && pc in C.Boundaries(fn, 0) && C.Tail(codeOf, fn, starts, pc).Ok?
    requires i < |C.Tail(codeOf, fn, starts, pc).value| && C.Tail(codeOf, fn, starts, pc).value[i].CallNative?
    ensures CallsOut(codeOf, fn, C.Tail(codeOf, fn, starts, pc).value[i].callee)
    decreases fn.len - pc
  {
    var f := fn.at[pc];
    if i > 0 {
      C.BoundariesClosed(fn, 0, pc);
      if f.next !in starts {
        TailCalls(codeOf, fn, starts, f.next, i - 1);
      }
    } else {
      assert f.ins.CallConst?;
    }
  }

  lemma {:induction false} CalleesCover(l: Listing, fn: Function, pc: nat, b: nat, g: Word)
    requires Advances(l) && C.Decodes(fn) && fn.len == l.len
    requires forall q :: 0 <= q < l.len ==> fn.at[q].next == l.at[q].next
    requires b in C.Boundaries(fn, pc) && Callees(l, pc).Ok?
    requires l.at[b].callee.Ok? ==> g in l.at[b].callee.value
    ensures l.at[b].callee.Ok? && g in Callees(l, pc).value
    decreases l.len - pc
  {
    if b != pc {
      CalleesCover(l, fn, l.at[pc].next, b, g);
    }
  }

  lemma CallLine(image: Image, rc: ResolvedCode, pc: nat, closure: Word)
    requires pc < |rc.bytecode| && FunctionOf(rc).at[pc].ins == CallConst(closure) && closure in CodeOf(image)
    ensures CalleeOf(image, rc, pc) == Ok([CodeOf(image)[closure]])
  {
    assert DecodeAt(rc, pc) == Some(CallConst(closure));
    CallConstIsCca(rc, pc, closure);
    CalleeIsCodeOf(image, rc, pc, closure);
  }

  lemma CalleeIsCodeOf(image: Image, rc: ResolvedCode, pc: nat, closure: Word)
    requires pc < |rc.bytecode| && IsCca(rc.bytecode[pc]) && IsSupported(rc.bytecode[pc])
    requires PoolWord(rc, pc) == Some(closure) && closure in CodeOf(image)
    ensures CalleeOf(image, rc, pc) == Ok([CodeOf(image)[closure]])
  {
  }

  lemma CallCovered(image: Image, a: Word, pc: nat)
    requires Acceptable(image, a) && a in image.code
    requires pc in C.Boundaries(FunctionOf(image.code[a]), 0) && FunctionOf(image.code[a]).at[pc].ins.CallConst?
    requires FunctionOf(image.code[a]).at[pc].ins.closure in CodeOf(image)
    ensures Calls(image, a, CodeOf(image)[FunctionOf(image.code[a]).at[pc].ins.closure])
  {
    var rc := image.code[a];
    var closure := FunctionOf(rc).at[pc].ins.closure;
    CallLine(image, rc, pc, closure);
    CalleesCover(ListingOf(image, rc), FunctionOf(rc), 0, pc, CodeOf(image)[closure]);
  }

  /** The native calls of a compiled function are static calls of the call graph. */
  lemma {:induction false} NativeCallsAreCalls(image: Image, a: Word, fn: Function, starts: set<nat>, pc: nat, i: nat)
    requires Acceptable(image, a) && a in image.code && fn == FunctionOf(image.code[a])
    requires pc in C.Boundaries(fn, 0) && C.Tail(CodeOf(image), fn, starts, pc).Ok?
    requires i < |C.Tail(CodeOf(image), fn, starts, pc).value| && C.Tail(CodeOf(image), fn, starts, pc).value[i].CallNative?
    ensures Calls(image, a, C.Tail(CodeOf(image), fn, starts, pc).value[i].callee)
  {
    var g := C.Tail(CodeOf(image), fn, starts, pc).value[i].callee;
    TailCalls(CodeOf(image), fn, starts, pc, i);
    var b :| b in C.Boundaries(fn, 0) && fn.at[b].ins.CallConst?
      && fn.at[b].ins.closure in CodeOf(image) && CodeOf(image)[fn.at[b].ins.closure] == g;
    CallCovered(image, a, b);
  }

  // ----- the whole build ------------------------------------------------------------------------

  /** Every native call in the code goes to a static callee of `a`. */
  ghost predicate FollowsGraph(image: Image, a: Word, code: seq<R.Piece>) {
    forall i :: 0 <= i < |code| && code[i].CallNative? ==> Calls(image, a, code[i].callee)
  }

  ghost predicate Defined(image: Image, a: Word, c: R.Compiled) {
    && a in image.code && C.IsCompiled(CodeOf(image), FunctionOf(image.code[a]), c)
    && FollowsGraph(image, a, c.entry)
    && forall o :: o in c.blocks ==> FollowsGraph(image, a, c.blocks[o])
  }

  lemma CompiledFollowsGraph(image: Image, a: Word, c: R.Compiled)
    requires Acceptable(image, a) && a in image.code
    requires C.TargetsAligned(FunctionOf(image.code[a]))
    requires C.IsCompiled(CodeOf(image), FunctionOf(image.code[a]), c)
    ensures Defined(image, a, c)
  {
    var fn := FunctionOf(image.code[a]);
    var starts := C.BlockStarts(fn);
    C.BlockStartsAreBoundaries(fn);
    forall i | 0 <= i < |c.entry| && c.entry[i].CallNative? ensures Calls(image, a, c.entry[i].callee) {
      NativeCallsAreCalls(image, a, fn, starts, 0, i);
    }
    forall o, i | o in c.blocks && 0 <= i < |c.blocks[o]| && c.blocks[o][i].CallNative?
      ensures Calls(image, a, c.blocks[o][i].callee)
    {
      NativeCallsAreCalls(image, a, fn, starts, o, i);
    }
  }

  /** What a region promises: its functions are what the root reaches, all compiled, and
      it is recursive exactly when their call graph has a cycle. */
  ghost predicate IsBuilt(image: Image, root: Word, r: Region) {
    && r.root == root && root in r.funcs
    && (forall a :: a in r.funcs <==> Reachable(image, root, a))
    && |r.funcs| <= 256
    && (forall a: Word, b: Word :: (a, b) in r.edges <==> a in r.funcs && b in r.funcs && Calls(image, a, b))
    && (r.recursive <==> HasCycle(r.funcs.Keys, r.edges))
    && (forall a :: a in r.funcs ==> Acceptable(image, a) && Defined(image, a, r.funcs[a]))
  }

  lemma StaysInside(image: Image, a: Word, funcs: map<Word, R.Compiled>, code: seq<R.Piece>)
    requires FollowsGraph(image, a, code) && forall b :: Calls(image, a, b) ==> b in funcs
    ensures S.CallsInside(funcs, code)
  {
  }

  lemma DefinedIsOk(image: Image, a: Word, funcs: map<Word, R.Compiled>)
    requires a in funcs && Defined(image, a, funcs[a]) && forall b :: Calls(image, a, b) ==> b in funcs
    ensures S.FunctionOk(ProgramOf(image), funcs, a)
  {
    StaysInside(image, a, funcs, funcs[a].entry);
    forall o | o in funcs[a].blocks ensures S.CallsInside(funcs, funcs[a].blocks[o]) {
      StaysInside(image, a, funcs, funcs[a].blocks[o]);
    }
  }

  lemma CalleesInside(image: Image, root: Word, r: Region, f: Word)
    requires IsBuilt(image, root, r) && f in r.funcs
    ensures Defined(image, f, r.funcs[f]) && forall b :: Calls(image, f, b) ==> b in r.funcs && (f, b) in r.edges
  {
    forall b | Calls(image, f, b) ensures b in r.funcs && (f, b) in r.edges {
      CalleeReachable(image, root, f, b);
    }
  }

  lemma BuiltIsRegion(image: Image, root: Word, r: Region)
    requires Bounded(image) && IsBuilt(image, root, r)
    ensures S.IsRegion(ProgramOf(image), r.funcs)
  {
    forall f {:trigger S.FunctionOk(ProgramOf(image), r.funcs, f)} | f in r.funcs
      ensures S.FunctionOk(ProgramOf(image), r.funcs, f)
    {
      CalleesInside(image, root, r, f);
      DefinedIsOk(image, f, r.funcs);
    }
    SmallProgram(image);
  }

  lemma SmallProgram(image: Image)
    requires Bounded(image)
    ensures RetPc.SmallCode(ProgramOf(image))
  {
  }

  /** Everything the root reaches can be compiled. */
  ghost predicate Buildable(image: Image, root: Word) {
    forall a :: Reachable(image, root, a) ==>
      Acceptable(image, a) && a in image.code && C.Compilable(CodeOf(image), FunctionOf(image.code[a]))
  }

  /** Compiles every function that was found. */
  ghost predicate Compiles(image: Image, a: Word) {
    a in image.code && C.Compilable(CodeOf(image), FunctionOf(image.code[a]))
  }

  method DefineAll(image: Image, resolved: set<Word>) returns (r: Result<map<Word, R.Compiled>, C.Bail>)
    requires forall a :: a in resolved ==> Acceptable(image, a)
    ensures r.Ok? <==> forall a :: a in resolved ==> Compiles(image, a)
    ensures r.Ok? ==> r.value.Keys == resolved && forall a :: a in resolved ==> Defined(image, a, r.value[a])
  {
    var funcs: map<Word, R.Compiled>, left := map[], resolved;
    while left != {}
      invariant left <= resolved && funcs.Keys == resolved - left
      invariant forall a :: a in funcs ==> Compiles(image, a) && Defined(image, a, funcs[a])
      decreases left
    {
      var a :| a in left;
      assert Acceptable(image, a);
      var c :- C.DefineFunction(CodeOf(image), FunctionOf(image.code[a]));
      CompiledFollowsGraph(image, a, c);
      funcs := funcs[a := c];
      left := left - {a};
    }
    return Ok(funcs);
  }

  /** The root reaches more functions than a region may have. */
  ghost predicate TooLarge(image: Image, root: Word) {
    exists s: set<Word> :: |s| == 257 && forall a :: a in s ==> Reachable(image, root, a)
  }

  /** `build_region`.  It succeeds exactly when all the root reaches is at most 256
      functions that scan and compile, and what it builds is a region in the sense of the
      theorems. */
  method BuildRegion(image: Image, root: Word) returns (r: Result<Region, Failure>)
    requires Bounded(image)
    ensures r.Ok? ==> IsBuilt(image, root, r.value) && S.IsRegion(ProgramOf(image), r.value.funcs)
    ensures r.Ok? ==> Buildable(image, root)
    ensures r.Err? ==> !Buildable(image, root) || TooLarge(image, root)
  {
    var found := Discover(image, root);
    if found.Err? {
      return Err(Refused(found.error));
    }
    var (resolved, edges) := found.value;
    forall i | 0 <= i < |edges| ensures edges[i].0 in resolved {
      assert (edges[i].0, edges[i].1) in edges;
    }
    var recursive, _ := CallGraphHasCycle(resolved, edges);
    var funcs := DefineAll(image, resolved);
    if funcs.Err? {
      return Err(Bailed(funcs.error));
    }
    RootReachable(image, root);
    var region := Region(root, funcs.value, edges, recursive);
    assert |region.funcs| == |region.funcs.Keys|;
    BuiltIsRegion(image, root, region);
    return Ok(region);
  }
}
