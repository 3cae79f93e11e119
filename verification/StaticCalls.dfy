/** What the discovery takes for a static call, and for a function it can compile, in terms of
    the bytes of the code and the words of the frozen heap. */
module StaticCalls {
  import opened Basics
  import opened Words
  import opened Instr
  import opened Opcodes
  import opened Bytecode
  import opened Discovery
  import A = Assembler
  import C = Compile

  /** An address of an object: not zero, and a multiple of eight. */
  predicate IsAddress(w: Word) { w != 0 && w % 8 == 0 }

  /** The closure at `w` has code at `b`. */
  predicate HasCode(image: Image, w: Word, b: Word) {
    IsAddress(w) && w in image.firstWord && image.firstWord[w] == b && IsAddress(b)
  }

  /** The `n` bytes at `pc` are a call of the closure at `w`. */
  predicate SpellsCall(rc: ResolvedCode, pc: nat, n: nat, w: Word) {
    A.Whole(rc.bytecode, pc, n) && A.Spells(rc, pc, n, CallConst(w))
  }

  /** The bytes at `pc` are a call of a closure with code at `b`. */
  ghost predicate CallsAt(image: Image, rc: ResolvedCode, pc: nat, b: Word) {
    exists n: nat, w: Word :: SpellsCall(rc, pc, n, w) && HasCode(image, w, b)
  }

  predicate IsCallByte(op: Byte) { op in {0x57, 0x58, 0x17, 0x18} }

  lemma CallBytes(op: Byte)
    ensures IsCallByte(op) <==> IsCca(op)
    ensures IsCca(op) ==> IsSupported(op) && IsControlOp(op)
  {
  }

  /** A call whose pool word can be read is complete. */
  lemma CallWhole(rc: ResolvedCode, pc: nat)
    requires pc < |rc.bytecode| && IsCca(rc.bytecode[pc]) && PoolWord(rc, pc).Some?
    ensures A.Whole(rc.bytecode, pc, LengthAt(rc.bytecode, pc))
    ensures DecodeAt(rc, pc) == Some(CallConst(PoolWord(rc, pc).value))
  {
    CallBytes(rc.bytecode[pc]);
    A.PoolLengths(rc.bytecode, pc);
    A.OneKind(rc.bytecode[pc]);
    A.DecodedByKind(rc, pc);
  }

  lemma SpelledCall(rc: ResolvedCode, pc: nat, n: nat, w: Word)
    requires SpellsCall(rc, pc, n, w)
    ensures IsCca(rc.bytecode[pc]) && PoolWord(rc, pc) == Some(w)
  {
    A.DecodesSpelling(rc, pc, n, CallConst(w));
    CallConstIsCca(rc, pc, w);
  }

  lemma CallSpelled(rc: ResolvedCode, pc: nat)
    requires pc < |rc.bytecode| && IsCca(rc.bytecode[pc]) && PoolWord(rc, pc).Some?
    ensures SpellsCall(rc, pc, LengthAt(rc.bytecode, pc), PoolWord(rc, pc).value)
  {
    CallWhole(rc, pc);
    A.DecodesSpelling(rc, pc, LengthAt(rc.bytecode, pc), CallConst(PoolWord(rc, pc).value));
  }

  lemma CalleeByWord(image: Image, rc: ResolvedCode, pc: nat, b: Word)
    requires pc < |rc.bytecode|
    ensures CalleeOf(image, rc, pc) == Ok([b]) <==>
      IsCca(rc.bytecode[pc]) && PoolWord(rc, pc).Some? && HasCode(image, PoolWord(rc, pc).value, b)
  {
    CallBytes(rc.bytecode[pc]);
  }

  /** The callee that the discovery finds at an offset is the one that is called there. */
  lemma CalleeIsCalled(image: Image, rc: ResolvedCode, pc: nat, b: Word)
    requires pc < |rc.bytecode|
    ensures CalleeOf(image, rc, pc) == Ok([b]) <==> CallsAt(image, rc, pc, b)
  {
    CalleeByWord(image, rc, pc, b);
    if CalleeOf(image, rc, pc) == Ok([b]) {
      CallSpelled(rc, pc);
    }
    if CallsAt(image, rc, pc, b) {
      var n: nat, w: Word :| SpellsCall(rc, pc, n, w) && HasCode(image, w, b);
      SpelledCall(rc, pc, n, w);
    }
  }

  /** What the discovery makes of one instruction. */
  lemma CalleeCases(image: Image, rc: ResolvedCode, pc: nat)
    requires pc < |rc.bytecode|
    ensures var r := CalleeOf(image, rc, pc);
      && (r.Ok? ==> |r.value| <= 1)
      && (r.Ok? <==> DecodeAt(rc, pc).Some? && (IsCallByte(rc.bytecode[pc]) ==> exists b :: CallsAt(image, rc, pc, b)))
  {
    CallBytes(rc.bytecode[pc]);
    SupportedIsLowered(rc, pc);
    var r := CalleeOf(image, rc, pc);
    if IsCca(rc.bytecode[pc]) {
      if r.Ok? {
        CalleeIsCalled(image, rc, pc, r.value[0]);
      }
      if b :| CallsAt(image, rc, pc, b) {
        CalleeIsCalled(image, rc, pc, b);
      }
    }
  }

  // ----- whole functions ----------------------------------------------------------------------

  /** The walk of the discovery and the boundaries of the function step alike. */
  predicate Alongside(l: Listing, fn: Function) {
    Advances(l) && C.Decodes(fn) && fn.len == l.len && forall pc :: 0 <= pc < l.len ==> fn.at[pc].next == l.at[pc].next
  }

  lemma {:induction false} CalleesFound(l: Listing, fn: Function, pc: nat)
    requires Alongside(l, fn)
    ensures Callees(l, pc).Ok? <==> forall q :: q in C.Boundaries(fn, pc) ==> l.at[q].callee.Ok?
    ensures Callees(l, pc).Ok? ==>
      forall b :: b in Callees(l, pc).value <==> exists q :: q in C.Boundaries(fn, pc) && b in l.at[q].callee.value
    decreases l.len - pc
  {
    if pc < l.len {
      var next := l.at[pc].next;
      CalleesFound(l, fn, next);
      assert C.Boundaries(fn, pc) == {pc} + C.Boundaries(fn, next);
    }
  }

  ghost predicate CallsSomewhere(image: Image, rc: ResolvedCode, b: Word) {
    exists pc :: pc in C.Boundaries(FunctionOf(rc), 0) && CallsAt(image, rc, pc, b)
  }

  lemma ListingAlongside(image: Image, rc: ResolvedCode)
    ensures Alongside(ListingOf(image, rc), FunctionOf(rc))
  {
  }

  lemma {:induction false} ListedCall(image: Image, rc: ResolvedCode, pc: nat, b: Word)
    requires pc < |rc.bytecode| && ListingOf(image, rc).at[pc].callee.Ok?
    ensures b in ListingOf(image, rc).at[pc].callee.value <==> CallsAt(image, rc, pc, b)
  {
    CalleeCases(image, rc, pc);
    CalleeIsCalled(image, rc, pc, b);
    AtOffset(image, rc, pc);
    OneCallee(ListingOf(image, rc).at[pc].callee.value, b);
  }

  lemma AtOffset(image: Image, rc: ResolvedCode, pc: nat)
    requires pc < |rc.bytecode|
    ensures ListingOf(image, rc).at[pc].callee == CalleeOf(image, rc, pc)
  {
  }

  lemma {:induction false} OneCallee(bs: seq<Word>, b: Word)
    requires |bs| <= 1
    ensures b in bs <==> bs == [b]
  {
  }

  /** The static callees of a function the discovery accepts are exactly those that some
      instruction of it calls. */
  lemma {:induction false} CallsAreSpelled(image: Image, a: Word, b: Word)
    requires Acceptable(image, a)
    ensures Calls(image, a, b) <==> CallsSomewhere(image, image.code[a], b)
  {
    var rc := image.code[a];
    var l, fn := ListingOf(image, rc), FunctionOf(rc);
    ListingAlongside(image, rc);
    CalleesFound(l, fn, 0);
    forall q | q in C.Boundaries(fn, 0) ensures b in l.at[q].callee.value <==> CallsAt(image, rc, q, b) {
      ListedCall(image, rc, q, b);
    }
  }

  /** A function can be part of a region if and only if it is code that can be resolved, every
      instruction of it has a lowering, and every static call names a closure whose code
      address can be read. */
  lemma {:induction false} AcceptableIs(image: Image, a: Word)
    ensures Acceptable(image, a) <==>
      a in image.code && forall pc :: pc in C.Boundaries(FunctionOf(image.code[a]), 0) ==> Compilable(image, image.code[a], pc)
  {
    if a in image.code {
      var rc := image.code[a];
      ListingAlongside(image, rc);
      CalleesFound(ListingOf(image, rc), FunctionOf(rc), 0);
      forall pc | pc in C.Boundaries(FunctionOf(rc), 0)
        ensures ListingOf(image, rc).at[pc].callee.Ok? <==> Compilable(image, rc, pc)
      {
        CalleeCases(image, rc, pc);
        assert ListingOf(image, rc).at[pc].callee == CalleeOf(image, rc, pc);
      }
    }
  }

  ghost predicate Compilable(image: Image, rc: ResolvedCode, pc: nat) {
    && pc < |rc.bytecode| && DecodeAt(rc, pc).Some?
    && (IsCallByte(rc.bytecode[pc]) ==> exists b :: CallsAt(image, rc, pc, b))
  }
}
