/** The per-function translator from end to end: entry marker, arity, argument count, the
    depth scan and the emission walk. */
module Translator {
  import opened Basics
  import opened Words
  import opened Opcodes
  import opened Stacking
  import opened DepthScan
  import opened InferArgs
  import E = Emission
  import B = Bytecode
  import A = Assembler
  import N = Instr

  /** `function_prologue`: where the body starts, and the argument count an entry marker
      declares. */
  function Prologue(bc: seq<Byte>): (nat, nat) {
    if |bc| >= 2 && bc[0] in {ENTER_INT_X86, ENTER_INT_ARM64} then (2, bc[1] % 128) else (0, 0)
  }

  /** Both markers are followed by a count of up to 127, whose top bit does not matter. */
  lemma MarkerCounts(marker: Byte, n: Byte, body: seq<Byte>)
    requires n < 128
    ensures marker in {0xff, 0xe9} ==>
      Prologue([marker, n] + body) == (2, n as int) && Prologue([marker, n + 128] + body) == (2, n as int)
    ensures marker !in {0xff, 0xe9} ==> Prologue([marker] + body) == (0, 0)
  {
  }

  // ----- arity ---------------------------------------------------------------------------

  /** The number of arguments that a return at `pc` collapses, if there is one there whose
      operand is present. */
  function ReturnAt(bc: seq<Byte>, pc: nat): Option<Option<nat>>
    requires pc < |bc|
  {
    var op := bc[pc];
    if RETURN_1 <= op <= RETURN_3 then Some(Some(op - RETURN_1 + 1))
    else if op == RETURN_B then Some(if HasImm(bc, pc, 1) then Some(Byte1(bc, pc)) else None)
    else if op == RETURN_W then Some(if HasImm(bc, pc, 2) then Some(Word16(bc, pc + 1)) else None)
    else None
  }

  function Code(bc: seq<Byte>): B.ResolvedCode { B.ResolvedCode(bc, bc) }

  /** The instruction at `pc`, its operand included, is a return of `n` arguments. */
  predicate Returns(bc: seq<Byte>, pc: nat, n: nat) {
    pc < |bc| && pc + B.LengthAt(bc, pc) <= |bc| && B.DecodeAt(Code(bc), pc) == Some(N.Return(n))
  }

  /** The instruction at `pc` is a return whose operand is cut off. */
  predicate ReturnCut(bc: seq<Byte>, pc: nat) {
    pc < |bc| && pc + B.LengthAt(bc, pc) > |bc| && B.DecodeAt(Code(bc), pc).Some? && B.DecodeAt(Code(bc), pc).value.Return?
  }

  predicate IsReturnOp(op: Byte) { RETURN_1 <= op <= RETURN_3 || op == RETURN_B || op == RETURN_W }

  lemma ReturnsAreControl(bc: seq<Byte>, pc: nat)
    requires pc < |bc|
    ensures IsReturnOp(bc[pc]) ==> B.DecodeAt(Code(bc), pc) == B.DecodeControl(Code(bc), pc)
    ensures IsReturnOp(bc[pc]) ==> B.DecodeAt(Code(bc), pc).Some? && B.DecodeAt(Code(bc), pc).value.Return?
    ensures IsReturnOp(bc[pc]) ==> B.LengthAt(bc, pc) == if bc[pc] == RETURN_B then 2 else if bc[pc] == RETURN_W then 3 else 1
    ensures B.DecodeAt(Code(bc), pc).Some? && B.DecodeAt(Code(bc), pc).value.Return? ==> IsReturnOp(bc[pc])
  {
    A.OneKind(bc[pc]);
    A.DecodedByKind(Code(bc), pc);
    if IsReturnOp(bc[pc]) {
      A.CallLengths(bc, pc);
    } else {
      NoReturns(bc, pc);
    }
  }

  lemma NoReturns(bc: seq<Byte>, pc: nat)
    requires pc < |bc| && !IsReturnOp(bc[pc])
    ensures forall n :: B.DecodeConstant(Code(bc), pc) != Some(N.Return(n)) && B.DecodeLocal(bc, pc) != Some(N.Return(n))
    ensures forall n :: B.DecodeStack(bc, pc) != Some(N.Return(n)) && B.DecodeControl(Code(bc), pc) != Some(N.Return(n))
    ensures forall n :: B.DecodeHeap(bc, pc) != Some(N.Return(n)) && B.DecodeArith(bc[pc]) != Some(N.Return(n))
  {
  }

  /** The scan for returns sees what the decoder sees. */
  lemma ReturnsDecoded(bc: seq<Byte>, pc: nat)
    requires pc < |bc|
    ensures forall n: nat :: ReturnAt(bc, pc) == Some(Some(n)) <==> Returns(bc, pc, n)
    ensures ReturnAt(bc, pc) == Some(None) <==> ReturnCut(bc, pc)
  {
    ReturnsAreControl(bc, pc);
  }

  /** The instruction at `p` does not return, and `q` comes after it. */
  ghost predicate Hop(bc: seq<Byte>, p: nat, q: nat) {
    p < |bc| && ReturnAt(bc, p).None? && TotalLen(bc, p).Ok? && q == p + TotalLen(bc, p).value
  }

  /** The offsets reached from the start by stepping over instructions that do not return. */
  ghost predicate BeforeReturn(bc: seq<Byte>, bs: seq<nat>) {
    && |bs| > 0 && bs[0] == 0
    && forall i :: 0 <= i < |bs| - 1 ==> Hop(bc, bs[i], bs[i + 1])
  }

  lemma OneMoreHop(bc: seq<Byte>, bs: seq<nat>, pc: nat)
    requires BeforeReturn(bc, bs) && Hop(bc, bs[|bs| - 1], pc)
    ensures BeforeReturn(bc, bs + [pc])
  {
    var longer := bs + [pc];
    forall i | 0 <= i < |longer| - 1 ensures Hop(bc, longer[i], longer[i + 1]) {
      if i < |bs| - 1 {
        assert Hop(bc, bs[i], bs[i + 1]);
      }
    }
  }

  /** What the scan that stopped at the last offset of `bs` returns. */
  ghost predicate Scanned(bc: seq<Byte>, bs: seq<nat>, r: Option<nat>) {
    BeforeReturn(bc, bs) &&
    var last := bs[|bs| - 1];
    if last < |bc| && ReturnAt(bc, last).Some? then r == ReturnAt(bc, last).value
    else r == None && (last < |bc| ==> TotalLen(bc, last).Err?)
  }

  /** The first return in the code, reached by stepping, is a complete one of `n` arguments. */
  ghost predicate FirstReturns(bc: seq<Byte>, n: nat) {
    exists bs :: BeforeReturn(bc, bs) && Returns(bc, bs[|bs| - 1], n)
  }

  /** Stepping gives one sequence of offsets. */
  lemma {:induction false} SameOffsets(bc: seq<Byte>, bs: seq<nat>, bs': seq<nat>, i: nat)
    requires BeforeReturn(bc, bs) && BeforeReturn(bc, bs') && i < |bs| && i < |bs'|
    ensures bs[i] == bs'[i]
  {
    if i > 0 {
      SameOffsets(bc, bs, bs', i - 1);
      assert Hop(bc, bs[i - 1], bs[i - 1 + 1]) && Hop(bc, bs'[i - 1], bs'[i - 1 + 1]);
    }
  }

  /** No step leads on from there. */
  predicate Halts(bc: seq<Byte>, pc: nat) { pc < |bc| ==> ReturnAt(bc, pc).Some? || TotalLen(bc, pc).Err? }

  lemma SameEnd(bc: seq<Byte>, bs: seq<nat>, bs': seq<nat>)
    requires BeforeReturn(bc, bs) && BeforeReturn(bc, bs') && Halts(bc, bs[|bs| - 1]) && Halts(bc, bs'[|bs'| - 1])
    ensures bs[|bs| - 1] == bs'[|bs'| - 1]
  {
    var n, n' := |bs| - 1, |bs'| - 1;
    SameOffsets(bc, bs, bs', if n < n' then n else n');
    if n < n' {
      GoesOn(bc, bs', n);
    } else if n' < n {
      GoesOn(bc, bs, n');
    }
  }

  lemma GoesOn(bc: seq<Byte>, bs: seq<nat>, i: nat)
    requires BeforeReturn(bc, bs) && i < |bs| - 1
    ensures !Halts(bc, bs[i])
  {
    assert Hop(bc, bs[i], bs[i + 1]);
  }

  lemma FirstIs(bc: seq<Byte>, bs: seq<nat>, n: nat)
    requires BeforeReturn(bc, bs) && Halts(bc, bs[|bs| - 1])
    ensures FirstReturns(bc, n) <==> Returns(bc, bs[|bs| - 1], n)
  {
    if FirstReturns(bc, n) {
      var bs' :| BeforeReturn(bc, bs') && Returns(bc, bs'[|bs'| - 1], n);
      ReturnsDecoded(bc, bs'[|bs'| - 1]);
      assert ReturnAt(bc, bs'[|bs'| - 1]) == Some(Some(n));
      SameEnd(bc, bs, bs');
    }
  }

  /** The scan finds `n` exactly if the first return collapses `n` arguments. */
  lemma ScanFinds(bc: seq<Byte>, bs: seq<nat>, r: Option<nat>)
    requires Scanned(bc, bs, r)
    ensures forall n: nat :: r == Some(n) <==> FirstReturns(bc, n)
  {
    var last := bs[|bs| - 1];
    if last < |bc| {
      ReturnsDecoded(bc, last);
    }
    forall n: nat ensures r == Some(n) <==> FirstReturns(bc, n) {
      FirstIs(bc, bs, n);
    }
  }

  /** `arity_from_return_scan`: the argument count of the first return instruction; none if
      no return is found, its operand is cut off, or an unknown opcode comes first. */
  method ArityFromReturns(bc: seq<Byte>) returns (r: Option<nat>)
    ensures exists bs :: Scanned(bc, bs, r)
    ensures forall n: nat :: r == Some(n) <==> FirstReturns(bc, n)
  {
    var pc := 0;
    ghost var bs: seq<nat> := [0];
    while pc < |bc|
      invariant BeforeReturn(bc, bs) && bs[|bs| - 1] == pc
      decreases |bc| - pc
    {
      var found := ReturnAt(bc, pc);
      if found.Some? {
        assert Scanned(bc, bs, found.value);
        ScanFinds(bc, bs, found.value);
        return found.value;
      }
      var step := TotalLen(bc, pc);
      if step.Err? {
        assert Scanned(bc, bs, None);
        ScanFinds(bc, bs, None);
        return None;
      }
      OneMoreHop(bc, bs, pc + step.value);
      pc := pc + step.value;
      bs := bs + [pc];
    }
    assert Scanned(bc, bs, None);
    ScanFinds(bc, bs, None);
    return None;
  }

  /** `compute_arg_count`: a declared count is taken as it is; otherwise the inferred one,
      but at least the arity with the return address and the closure. */
  method ComputeArgCount(bc: seq<Byte>) returns (args: nat)
    ensures exists end, bs :: Counted(bc, WalkOf(bc), args, end, bs)
    ensures !Declares(bc) ==> CoversReturn(bc, args)
  {
    var (start, declared) := Prologue(bc);
    var w := WalkOf(bc);
    if declared > 0 || start > 0 {
      assert Counted(bc, w, declared, None, []);
      return declared;
    }
    var inferred, ending := InferArgCount(w, start);
    var arity := ArityFromReturns(bc);
    ghost var bs :| Scanned(bc, bs, arity);
    var a := if inferred.Some? then inferred.value else 0;
    var b := if arity.Some? then arity.value + 2 else 0;
    args := Max(a, b);
    CountedFrom(bc, w, inferred, ending, bs);
    CountedReturn(bc, w, args, Some(ending), bs);
  }

  /** The count has room for the arguments that the first return collapses, the return
      address and the closure, and is no greater unless some path needs as much. */
  ghost predicate CoversReturn(bc: seq<Byte>, args: nat) {
    && (forall n: nat :: FirstReturns(bc, n) ==> args >= n + 2)
    && (args > 0 ==> Reaches(WalkOf(bc), 0, args) || (args >= 2 && FirstReturns(bc, args - 2)))
  }

  lemma CountedReturn(bc: seq<Byte>, w: Walk, args: nat, end: Option<Ending>, bs: seq<nat>)
    requires Whole(w) && !Declares(bc) && Counted(bc, w, args, end, bs) && |bs| > 0 && Halts(bc, bs[|bs| - 1])
    requires w == WalkOf(bc)
    ensures CoversReturn(bc, args)
  {
    if bs[|bs| - 1] < |bc| {
      ReturnsDecoded(bc, bs[|bs| - 1]);
    }
    forall n: nat ensures FirstReturns(bc, n) <==> FirstReturn(bc, bs) == Some(n) {
      FirstIs(bc, bs, n);
    }
  }

  /** The greater of the two counts, from what each of them promises. */
  lemma CountedFrom(bc: seq<Byte>, w: Walk, inferred: Option<nat>, end: Ending, bs: seq<nat>)
    requires Whole(w) && !Declares(bc) && BeforeReturn(bc, bs)
    requires (inferred.Some? && inferred.value > 0 ==> Reaches(w, 0, inferred.value)) && Explains(w, 0, inferred, end)
    ensures var a, b := if inferred.Some? then inferred.value else 0,
        if FirstReturn(bc, bs).Some? then FirstReturn(bc, bs).value + 2 else 0;
      Counted(bc, w, Max(a, b), Some(end), bs)
  {
    if end.Drained? {
      var b := if FirstReturn(bc, bs).Some? then FirstReturn(bc, bs).value + 2 else 0;
      MoreSuffices(w, 0, inferred.value, Max(inferred.value, b));
    }
  }

  /** What the count `args` is: the declared one; or as much as the first return asks for,
      enough for every path if the inference saw them all, and no more than one of them
      needs. */
  ghost predicate Counted(bc: seq<Byte>, w: Walk, args: nat, end: Option<Ending>, bs: seq<nat>)
    requires Whole(w)
  {
    if Declares(bc) then args == Prologue(bc).1 && end == None
    else
      && BeforeReturn(bc, bs) && Needed(bc, w, args, bs)
      && (FirstReturn(bc, bs).Some? ==> args >= FirstReturn(bc, bs).value + 2)
      && end.Some? && (end == Some(Drained) ==> Suffices(w, 0, args) && Understood(w, 0))
  }

  /** An entry marker fixes the argument count. */
  predicate Declares(bc: seq<Byte>) { Prologue(bc).1 > 0 || Prologue(bc).0 > 0 }

  /** The argument count of the return that ends the scan `bs`. */
  function FirstReturn(bc: seq<Byte>, bs: seq<nat>): Option<nat>
    requires |bs| > 0
  {
    var last := bs[|bs| - 1];
    if last < |bc| && ReturnAt(bc, last).Some? then ReturnAt(bc, last).value else None
  }

  /** No more arguments are assumed than some path or the first return asks for. */
  ghost predicate Needed(bc: seq<Byte>, w: Walk, args: nat, bs: seq<nat>)
    requires Whole(w) && |bs| > 0
  {
    args > 0 ==> Reaches(w, 0, args) || FirstReturn(bc, bs) == Some(args - 2)
  }

  lemma MoreSuffices(w: Walk, start: nat, k: nat, j: nat)
    requires Whole(w) && Suffices(w, start, k) && k <= j
    ensures Suffices(w, start, j)
  {
    forall p: seq<Point>, i | IsPath(w, start, p) && 0 <= i < |p| && p[i].pc < w.len ensures Lowest(w, p[i]) >= 0 - j {
    }
  }

  // ----- a whole function ----------------------------------------------------------------

  datatype Translation =
    | Done(emitted: seq<E.Emitted>)
    | Refused(fault: Fault)
    /** An entry marker with nothing after it, or no code at all. */
    | Panicked

  /** What the translator may answer, with the argument count it computes.  An accepted body
      is typed, at depths that control can arrive with, and emitted at its types.  A refused
      one has a fault that control can reach in pass 1; or it is typed, and pass 2 stops at
      an offset it cannot lower or step over, or, if it visits only what it can lower, at
      an opcode that asks for more values than pass 1 did. */
  ghost predicate Answers(b: Body, r: Translation, reached: Reached, targets: map<nat, nat>, args: nat, at: nat) {
    var flow, lo, start := FlowOf(b), E.LoweredOf(b), Prologue(b.bc).0;
    && (exists end, bs :: Counted(b.bc, WalkOf(b.bc), args, end, bs))
    && E.Tabled(lo)
    && match r
       case Panicked => start >= |b.bc|
       case Done(emitted) =>
         && Accepts(b, reached, targets, args)
         && E.Finished(flow, lo, reached, targets, start, emitted)
         && E.Visits(lo, targets, start, false) == Some(E.Offsets(emitted))
       case Refused(fault) =>
         || Refuted(flow, start, args, fault)
         || (&& Accepts(b, reached, targets, args)
             && E.Unemittable(flow, lo, reached, targets, at, fault)
             && (E.Visits(lo, targets, start, false).Some? ==> E.AsksMore(flow, lo, reached, targets, at)))
  }

  /** Pass 1 accepts the body. */
  ghost predicate Accepts(b: Body, reached: Reached, targets: map<nat, nat>, args: nat) {
    && Typing(FlowOf(b), reached, targets, Prologue(b.bc).0, args)
    && Evident(FlowOf(b), reached, targets, Prologue(b.bc).0, args)
  }

  /** `compile_with_consts_impl`, as far as its two passes go.  If pass 1 accepts the body,
      pass 2 finds exactly the depths that pass 1 recorded. */
  method Translate(b: Body)
    returns (r: Translation, ghost reached: Reached, ghost targets: map<nat, nat>, ghost args: nat, ghost at: nat)
    ensures r.Panicked? <==> Prologue(b.bc).0 >= |b.bc|
    ensures Answers(b, r, reached, targets, args, at)
  {
    var (start, _) := Prologue(b.bc);
    var count := ComputeArgCount(b.bc);
    args, targets, at := count, map[], 0;
    E.PassesMatch(b);
    var scanned, depths := ScanBranchTargets(FlowOf(b), start, count);
    reached := depths;
    if scanned.Panicked? {
      return Translation.Panicked, reached, targets, args, at;
    }
    if scanned.Faulted? {
      return Refused(scanned.fault), reached, targets, args, at;
    }
    targets := scanned.targets;
    var emitted, stopped := E.EmitFunction(FlowOf(b), E.LoweredOf(b), depths, scanned.targets, start, count);
    if emitted.Err? {
      return Refused(emitted.error), reached, targets, args, stopped;
    }
    return Done(emitted.value), reached, targets, args, at;
  }
}
