/** The boundary walk of the blocker scans against the instructions the translator reads.  The
    walk takes its lengths from the disassembler, the translator from a table of its own. */
module Alignment {
  import opened Basics
  import opened Words
  import opened Opcodes
  import opened Bytecode
  import opened Stacking
  import opened Blockers
  import D = DepthScan
  import E = Emission
  import C = Blocks
  import T = Translator

  // ----- two tables of lengths --------------------------------------------------------------

  /** The opcodes that the disassembler gives an operand byte and the translator does not. */
  predicate Widened(op: Byte) {
    op in {PUSH_HANDLER, CALL_FAST_RTS0, CALL_FAST_RTS1, CALL_FAST_RTS2, CALL_FAST_RTS3, CALL_FAST_RTS4, CALL_FAST_RTS5}
  }

  lemma NoOperandLength(op: Byte)
    requires IsLocal(op) || IsBinary(op) || HasNoOperand(op)
    ensures op != CASE16 && op != ESCAPE && ImmBytes(op) == if Widened(op) then 1 else 0
  {
    if Widened(op) {
    } else if IsLocal(op) {
      LocalLength(op);
    } else if IsBinary(op) {
      BinaryLength(op);
    } else {
      PlainLength(op);
    }
  }

  lemma LocalLength(op: Byte)
    requires IsLocal(op)
    ensures op != CASE16 && op != ESCAPE && ImmBytes(op) == 0
  {
  }

  lemma BinaryLength(op: Byte)
    requires IsBinary(op)
    ensures op != CASE16 && op != ESCAPE && ImmBytes(op) == 0
  {
  }

  lemma PlainLength(op: Byte)
    requires HasNoOperand(op) && !Widened(op)
    ensures op != CASE16 && op != ESCAPE && ImmBytes(op) == 0
  {
  }

  lemma LeavingLength(bc: seq<Byte>, pc: nat)
    requires pc < |bc| && IsLeaving(bc[pc]) && bc[pc] != CASE16
    ensures bc[pc] != ESCAPE && !Widened(bc[pc]) && LeavingLen(bc, pc) == Ok(1 + ImmBytes(bc[pc]))
  {
  }

  lemma CaseLength(bc: seq<Byte>, pc: nat)
    requires pc < |bc| && bc[pc] == CASE16 && LeavingLen(bc, pc).Ok?
    ensures LeavingLen(bc, pc) == Ok(LengthAt(bc, pc)) && !Widened(CASE16)
  {
  }

  lemma OperandLength(op: Byte)
    requires IsPool(op) || HasOneByte(op) || op in {CONST_INT_W, SET_HANDLER16, INDIRECT_LOCAL_BB, INDIRECT_CLOSURE_BB}
    ensures op != CASE16 && op != ESCAPE && !Widened(op)
    ensures IsPool(op) ==> ImmBytes(op) == PoolBytes(op)
    ensures op in {CONST_INT_W, SET_HANDLER16, INDIRECT_LOCAL_BB, INDIRECT_CLOSURE_BB} ==> ImmBytes(op) == 2
    ensures HasOneByte(op) ==> ImmBytes(op) == 1
  {
  }

  /** The disassembler has a name for every opcode the translator's table knows, so that its
      walk does not stop there. */
  lemma KnownNamed(bc: seq<Byte>, pc: nat)
    requires pc < |bc| && TotalLen(bc, pc).Ok?
    ensures IsNamed(bc[pc]) && bc[pc] != ESCAPE
    ensures pc + LengthAt(bc, pc) <= |bc| ==> StepAt(bc, pc) == Some(LengthAt(bc, pc))
  {
    var op := bc[pc];
    if HasNoOperand(op) {
      NoOperandNamed(op);
    } else if HasOneByte(op) {
      OneByteNamed(op);
    } else if IsLeaving(op) {
      LeavingNamed(op);
    }
  }

  lemma NoOperandNamed(op: Byte)
    requires HasNoOperand(op)
    ensures IsNamed(op) && op != ESCAPE
  {
  }

  lemma OneByteNamed(op: Byte)
    requires HasOneByte(op)
    ensures IsNamed(op) && op != ESCAPE
  {
  }

  lemma LeavingNamed(op: Byte)
    requires IsLeaving(op)
    ensures IsNamed(op) && op != ESCAPE
  {
  }

  /** On every opcode the translator's table knows, the two lengths differ at just these
      seven, and there by one. */
  lemma LengthsDiffer(bc: seq<Byte>, pc: nat)
    requires pc < |bc| && TotalLen(bc, pc).Ok?
    ensures LengthAt(bc, pc) == TotalLen(bc, pc).value + if Widened(bc[pc]) then 1 else 0
  {
    var op := bc[pc];
    if IsLocal(op) || IsBinary(op) || HasNoOperand(op) {
      NoOperandLength(op);
    } else if op == CASE16 {
      CaseLength(bc, pc);
    } else if IsLeaving(op) {
      LeavingLength(bc, pc);
    } else {
      OperandLength(op);
    }
  }

  // ----- two walks -----------------------------------------------------------------------------

  /** The code as the translator sees it: the size of each instruction that its table knows. */
  datatype Sizes = Sizes(len: nat, at: map<nat, nat>)

  predicate Positive(z: Sizes) { forall pc :: pc in z.at ==> z.at[pc] > 0 }

  function SizesOf(bc: seq<Byte>): (z: Sizes)
    ensures Positive(z) && z.len == |bc|
    ensures forall pc: nat :: pc in z.at <==> pc < |bc| && TotalLen(bc, pc).Ok?
    ensures forall pc: nat :: pc in z.at ==> z.at[pc] == TotalLen(bc, pc).value
  {
    Sizes(|bc|, map pc: nat | pc < |bc| && TotalLen(bc, pc).Ok? :: TotalLen(bc, pc).value)
  }

  /** The instructions the translator steps over, from `pc` on. */
  function Instructions(z: Sizes, pc: nat): Option<seq<nat>>
    requires Positive(z)
    decreases z.len - pc
  {
    if pc >= z.len then Some([])
    else if pc !in z.at then None
    else
      var rest :- Instructions(z, pc + z.at[pc]);
      Some([pc] + rest)
  }

  /** The offsets of the opcodes that are widened. */
  function WideAt(bc: seq<Byte>): set<nat> { set pc: nat | pc < |bc| && Widened(bc[pc]) }

  /** The sizes differ at the offsets in `wide`, by one. */
  ghost predicate Differ(s: Steps, z: Sizes, wide: set<nat>)
    requires Whole(s)
  {
    && z.len == |s.bc|
    && forall pc :: 0 <= pc < z.len && pc in z.at && s.step[pc].Some? ==>
         s.step[pc].value == z.at[pc] + if pc in wide then 1 else 0
  }

  lemma BodyDiffers(bc: seq<Byte>)
    ensures Differ(StepsOf(bc), SizesOf(bc), WideAt(bc))
  {
    var s, z := StepsOf(bc), SizesOf(bc);
    forall pc | 0 <= pc < z.len && pc in z.at && s.step[pc].Some?
      ensures s.step[pc].value == z.at[pc] + if pc in WideAt(bc) then 1 else 0
    {
      LengthsDiffer(bc, pc);
    }
  }

  /** None of the boundaries holds a widened opcode. */
  predicate Narrow(wide: set<nat>, bs: seq<nat>) { forall i :: 0 <= i < |bs| ==> bs[i] !in wide }

  lemma {:induction false} BoundariesAbove(s: Steps, pc: nat, i: nat)
    requires Whole(s) && Boundaries(s, pc).Some? && i < |Boundaries(s, pc).value|
    ensures pc <= Boundaries(s, pc).value[i] < |s.bc|
    decreases |s.bc| - pc
  {
    if i > 0 {
      BoundariesAbove(s, pc + s.step[pc].value, i - 1);
    }
  }

  lemma {:induction false} NarrowNext(wide: set<nat>, pc: nat, rest: seq<nat>)
    ensures Narrow(wide, [pc] + rest) <==> pc !in wide && Narrow(wide, rest)
  {
    var bs := [pc] + rest;
    if Narrow(wide, bs) {
      assert bs[0] == pc;
      forall i | 0 <= i < |rest| ensures rest[i] !in wide {
        assert bs[i + 1] == rest[i];
      }
    }
  }

  lemma SameTails(pc: nat, a: seq<nat>, b: seq<nat>)
    ensures [pc] + a == [pc] + b <==> a == b
  {
    assert ([pc] + a)[1..] == a && ([pc] + b)[1..] == b;
  }

  /** From a common boundary on, the two walks see the same instructions if and only if the
      first meets no widened opcode. */
  lemma {:induction false} AlikeFrom(s: Steps, z: Sizes, wide: set<nat>, pc: nat)
    requires Whole(s) && Positive(z) && Differ(s, z, wide)
    requires Boundaries(s, pc).Some? && Instructions(z, pc).Some?
    ensures Boundaries(s, pc) == Instructions(z, pc) <==> Narrow(wide, Boundaries(s, pc).value)
    decreases z.len - pc
  {
    if pc < z.len {
      var next := pc + s.step[pc].value;
      var rest, rest' := Boundaries(s, next).value, Instructions(z, pc + z.at[pc]).value;
      NarrowNext(wide, pc, rest);
      SameTails(pc, rest, rest');
      if pc in wide {
        StepsOver(s, z, pc + z.at[pc]);
      } else {
        AlikeFrom(s, z, wide, next);
      }
    }
  }

  /** The second walk steps on the byte that the first steps over. */
  lemma {:induction false} StepsOver(s: Steps, z: Sizes, pc: nat)
    requires Whole(s) && Positive(z) && z.len == |s.bc| && pc < z.len
    requires Instructions(z, pc).Some? && Boundaries(s, pc + 1).Some?
    ensures Boundaries(s, pc + 1).value != Instructions(z, pc).value
  {
    var bs, ins := Boundaries(s, pc + 1).value, Instructions(z, pc).value;
    assert ins[0] == pc;
    if bs != [] {
      BoundariesAbove(s, pc + 1, 0);
    }
  }

  // ----- whole functions ------------------------------------------------------------------------

  /** The walk starts at the first byte, the translator after the entry marker and its
      count. */
  function Lead(bc: seq<Byte>): seq<nat> { if T.Prologue(bc).0 == 2 then [0, 1] else [] }

  /** The walk is not led astray: the count byte of an entry marker does not look like an
      opcode with operands, and no boundary after it holds a widened opcode. */
  predicate Undisturbed(bc: seq<Byte>, bs: seq<nat>) {
    && (T.Prologue(bc).0 == 2 ==> LengthAt(bc, 1) == 1)
    && forall i :: 0 <= i < |bs| && bs[i] >= T.Prologue(bc).0 ==> bs[i] !in WideAt(bc)
  }

  /** The walk's boundaries are the translator's, the marker apart, if and only if the walk
      is not led astray.  The walk itself can tell. */
  lemma {:induction false} WalkIsAligned(bc: seq<Byte>)
    requires Boundaries(StepsOf(bc), 0).Some? && Instructions(SizesOf(bc), T.Prologue(bc).0).Some?
    ensures var bs := Boundaries(StepsOf(bc), 0).value;
      bs == Lead(bc) + Instructions(SizesOf(bc), T.Prologue(bc).0).value <==> Undisturbed(bc, bs)
  {
    var s, z, wide := StepsOf(bc), SizesOf(bc), WideAt(bc);
    BodyDiffers(bc);
    if T.Prologue(bc).0 == 2 {
      MarkerSteps(bc);
      MarkedWalk(s, z, wide, LengthAt(bc, 1));
    } else {
      AlikeFrom(s, z, wide, 0);
      assert Lead(bc) + Instructions(z, 0).value == Instructions(z, 0).value;
    }
  }

  lemma MarkerSteps(bc: seq<Byte>)
    requires T.Prologue(bc).0 == 2 && Boundaries(StepsOf(bc), 0).Some?
    ensures StepsOf(bc).step[0] == Some(1) && StepsOf(bc).step[1] == Some(LengthAt(bc, 1))
  {
    assert LengthAt(bc, 0) == 1;
    assert Boundaries(StepsOf(bc), 1).Some?;
  }

  lemma {:induction false} MarkedWalk(s: Steps, z: Sizes, wide: set<nat>, n: nat)
    requires Whole(s) && Positive(z) && Differ(s, z, wide) && |s.bc| >= 2
    requires s.step[0] == Some(1) && s.step[1] == Some(n)
    requires Boundaries(s, 0).Some? && Instructions(z, 2).Some?
    ensures var bs := Boundaries(s, 0).value;
      (bs == [0, 1] + Instructions(z, 2).value) <==> (n == 1 && forall i :: 0 <= i < |bs| && bs[i] >= 2 ==> bs[i] !in wide)
  {
    var rest := Boundaries(s, 1 + n).value;
    assert Boundaries(s, 1).value == [1] + rest;
    var bs := Boundaries(s, 0).value;
    assert bs == [0, 1] + rest;
    if n == 1 {
      AlikeFrom(s, z, wide, 2);
      forall i | 0 <= i < |rest| ensures rest[i] >= 2 && bs[i + 2] == rest[i] {
        BoundariesAbove(s, 2, i);
      }
    } else {
      MarkerStepsOver(s, z, n);
    }
    assert bs[2..] == rest && ([0, 1] + Instructions(z, 2).value)[2..] == Instructions(z, 2).value;
  }

  lemma {:induction false} MarkerStepsOver(s: Steps, z: Sizes, n: nat)
    requires Whole(s) && Positive(z) && z.len == |s.bc| && n >= 2 && 1 + n <= z.len
    requires Instructions(z, 2).Some? && Boundaries(s, 1 + n).Some?
    ensures Boundaries(s, 1 + n).value != Instructions(z, 2).value
  {
    assert Instructions(z, 2).value[0] == 2;
    if Boundaries(s, 1 + n).value != [] {
      BoundariesAbove(s, 1 + n, 0);
    }
  }

  // ----- what the scans then promise --------------------------------------------------------------

  /** Some instruction of the translator has an opcode of the set. */
  predicate OccursAt(bc: seq<Byte>, ins: seq<nat>, ops: set<Byte>) {
    exists i :: 0 <= i < |ins| && ins[i] < |bc| && bc[ins[i]] in ops
  }

  /** Each flag says whether the translator meets such an opcode. */
  predicate ExactAt(bc: seq<Byte>, ins: seq<nat>, scan: BlockerScan) {
    && (scan.callLocalB <==> OccursAt(bc, ins, {CALL_LOCAL_B})) && (scan.callConstAddr <==> OccursAt(bc, ins, Ccas()))
    && (scan.constAddr <==> OccursAt(bc, ins, ConstAddrs())) && (scan.callFastRts <==> OccursAt(bc, ins, FastRts()))
  }

  /** Every static call that the translator meets is in tail position. */
  predicate AllTailAt(bc: seq<Byte>, ins: seq<nat>) {
    forall i :: 0 <= i < |ins| && ins[i] < |bc| && bc[ins[i]] in Ccas() && TotalLen(bc, ins[i]).Ok? ==>
      TailEquivalent(bc, ins[i] + TotalLen(bc, ins[i]).value)
  }

  /** Opcodes that the scans look for have operands, and are no entry markers. */
  predicate Sought(op: Byte) {
    op == CALL_LOCAL_B || op in Ccas() || op in ConstAddrs() || op in FastRts()
  }

  lemma SoughtHasOperand(op: Byte)
    requires Sought(op)
    ensures op != CASE16 && op != ESCAPE && ImmBytes(op) > 0 && op != ENTER_INT_X86 && op != ENTER_INT_ARM64
  {
  }

  lemma {:induction false} InstructionsInside(z: Sizes, pc: nat, i: nat)
    requires Positive(z) && Instructions(z, pc).Some? && i < |Instructions(z, pc).value|
    ensures var at := Instructions(z, pc).value[i]; pc <= at < z.len && at in z.at
    decreases z.len - pc
  {
    if i > 0 {
      InstructionsInside(z, pc + z.at[pc], i - 1);
    }
  }

  /** The marker and its count hold nothing that the scans look for. */
  lemma {:induction false} LeadHoldsNothing(bc: seq<Byte>, ops: set<Byte>, ins: seq<nat>)
    requires (forall op :: op in ops ==> Sought(op)) && (T.Prologue(bc).0 == 2 ==> LengthAt(bc, 1) == 1)
    requires (forall i :: 0 <= i < |ins| ==> ins[i] < |bc|) && |Lead(bc)| <= |bc|
    ensures forall i :: 0 <= i < |Lead(bc) + ins| ==> (Lead(bc) + ins)[i] < |bc|
    ensures Occurs(StepsOf(bc), Lead(bc) + ins, ops) <==> OccursAt(bc, ins, ops)
  {
    var bs, n := Lead(bc) + ins, |Lead(bc)|;
    forall i | 0 <= i < |Lead(bc)| ensures bc[Lead(bc)[i]] !in ops {
      if bc[Lead(bc)[i]] in ops {
        SoughtHasOperand(bc[Lead(bc)[i]]);
      }
    }
    forall i | 0 <= i < |bs| ensures bs[i] < |bc| && (i >= n ==> bs[i] == ins[i - n]) {
    }
    if Occurs(StepsOf(bc), bs, ops) {
      var i :| 0 <= i < |bs| && bc[bs[i]] in ops;
      assert i >= n;
      assert bc[ins[i - n]] in ops;
    }
    if OccursAt(bc, ins, ops) {
      var i :| 0 <= i < |ins| && bc[ins[i]] in ops;
      assert bs[n + i] == ins[i];
    }
  }

  /** Where the walk is not led astray, each flag of the boundary scan is set exactly when
      the translator meets such an opcode: no real blocker slips through. */
  lemma {:induction false} FlagsAreReal(bc: seq<Byte>, scan: BlockerScan)
    requires Boundaries(StepsOf(bc), 0).Some? && Instructions(SizesOf(bc), T.Prologue(bc).0).Some?
    requires forall i :: 0 <= i < |Boundaries(StepsOf(bc), 0).value| ==> Boundaries(StepsOf(bc), 0).value[i] < |bc|
    requires Undisturbed(bc, Boundaries(StepsOf(bc), 0).value) && Exact(StepsOf(bc), Boundaries(StepsOf(bc), 0).value, scan)
    ensures ExactAt(bc, Instructions(SizesOf(bc), T.Prologue(bc).0).value, scan)
  {
    WalkIsAligned(bc);
    var ins := Instructions(SizesOf(bc), T.Prologue(bc).0).value;
    forall i | 0 <= i < |ins| ensures ins[i] < |bc| {
      InstructionsInside(SizesOf(bc), T.Prologue(bc).0, i);
    }
    LeadHoldsNothing(bc, {CALL_LOCAL_B}, ins);
    LeadHoldsNothing(bc, Ccas(), ins);
    LeadHoldsNothing(bc, ConstAddrs(), ins);
    LeadHoldsNothing(bc, FastRts(), ins);
  }

  /** And the tail test is about the static calls that the translator meets. */
  lemma {:induction false} TailsAreReal(bc: seq<Byte>)
    requires Boundaries(StepsOf(bc), 0).Some? && Instructions(SizesOf(bc), T.Prologue(bc).0).Some?
    requires forall i :: 0 <= i < |Boundaries(StepsOf(bc), 0).value| ==>
      Boundaries(StepsOf(bc), 0).value[i] < |bc| && StepsOf(bc).step[Boundaries(StepsOf(bc), 0).value[i]].Some?
    requires Undisturbed(bc, Boundaries(StepsOf(bc), 0).value)
    ensures AllTail(StepsOf(bc), Boundaries(StepsOf(bc), 0).value)
      <==> AllTailAt(bc, Instructions(SizesOf(bc), T.Prologue(bc).0).value)
  {
    WalkIsAligned(bc);
    var z, lead := SizesOf(bc), Lead(bc);
    var ins := Instructions(z, T.Prologue(bc).0).value;
    forall i | 0 <= i < |ins| ensures ins[i] in z.at && ins[i] < |bc| {
      InstructionsInside(z, T.Prologue(bc).0, i);
    }
    BodyDiffers(bc);
    forall i | 0 <= i < |lead| ensures bc[lead[i]] !in Ccas() {
      if bc[lead[i]] in Ccas() {
        SoughtHasOperand(bc[lead[i]]);
      }
    }
    CcasAreNarrow(bc);
    TailsAlike(StepsOf(bc), z, WideAt(bc), lead, ins);
    SizesTail(bc, ins);
  }

  lemma CcasAreNarrow(bc: seq<Byte>)
    ensures forall pc :: 0 <= pc < |bc| && bc[pc] in Ccas() ==> pc !in WideAt(bc)
  {
  }

  /** The tail test over the translator's sizes. */
  predicate AllTailSized(bc: seq<Byte>, z: Sizes, ins: seq<nat>) {
    forall i :: 0 <= i < |ins| && ins[i] < |bc| && bc[ins[i]] in Ccas() && ins[i] in z.at ==>
      TailEquivalent(bc, ins[i] + z.at[ins[i]])
  }

  lemma SizesTail(bc: seq<Byte>, ins: seq<nat>)
    ensures AllTailSized(bc, SizesOf(bc), ins) <==> AllTailAt(bc, ins)
  {
  }

  lemma {:induction false} TailsAlike(s: Steps, z: Sizes, wide: set<nat>, lead: seq<nat>, ins: seq<nat>)
    requires Whole(s) && Differ(s, z, wide)
    requires forall i :: 0 <= i < |lead + ins| ==> (lead + ins)[i] < |s.bc| && s.step[(lead + ins)[i]].Some?
    requires forall i :: 0 <= i < |lead| ==> lead[i] < |s.bc| && s.bc[lead[i]] !in Ccas()
    requires forall i :: 0 <= i < |ins| ==> ins[i] < |s.bc| && ins[i] in z.at
    requires forall pc :: 0 <= pc < |s.bc| && s.bc[pc] in Ccas() ==> pc !in wide
    ensures AllTail(s, lead + ins) <==> AllTailSized(s.bc, z, ins)
  {
    var bs, n := lead + ins, |lead|;
    if AllTail(s, bs) {
      forall i | 0 <= i < |ins| && s.bc[ins[i]] in Ccas() ensures TailEquivalent(s.bc, ins[i] + z.at[ins[i]]) {
        assert bs[n + i] == ins[i];
      }
    }
    if AllTailSized(s.bc, z, ins) {
      forall i | 0 <= i < |bs| && s.bc[bs[i]] in Ccas() ensures TailEquivalent(s.bc, bs[i] + s.step[bs[i]].value) {
        assert bs[i] == ins[i - n];
      }
    }
  }

  // ----- accepted bodies ---------------------------------------------------------------------------

  /** Both tables step over the same bytes. */
  ghost predicate SameSteps(lo: E.Lowered, z: Sizes)
    requires E.Tabled(lo)
  {
    && lo.len == z.len && Positive(z)
    && forall pc :: 0 <= pc < z.len && lo.skip[pc].Ok? ==> pc in z.at && z.at[pc] == lo.skip[pc].value
  }

  lemma {:induction false} ChainSplits(lo: E.Lowered, z: Sizes, a: nat, n: nat)
    requires E.Tabled(lo) && SameSteps(lo, z) && C.OnChain(lo, a, n) && Instructions(z, n).Some?
    ensures Instructions(z, a).Some?
    decreases n - a
  {
    if a < n {
      ChainSplits(lo, z, a + lo.skip[a].value, n);
    }
  }

  lemma {:induction false} VisitedSplits(lo: E.Lowered, z: Sizes, targets: map<nat, nat>, pc: nat, returned: bool)
    requires E.Tabled(lo) && SameSteps(lo, z) && C.KeepsChain(lo) && E.Visits(lo, targets, pc, returned).Some?
    ensures Instructions(z, pc).Some?
    decreases lo.len - pc
  {
    if pc < lo.len {
      if returned && pc !in targets {
        VisitedSplits(lo, z, targets, pc + lo.skip[pc].value, true);
      } else {
        var next := lo.at[pc].value.next;
        VisitedSplits(lo, z, targets, next, !E.GoesOn(lo, pc));
        ChainSplits(lo, z, pc, next);
      }
    }
  }

  /** A body that the translator accepts splits into instructions of its table. */
  lemma {:induction false} AcceptedSplits(b: Body, r: T.Translation, reached: D.Reached, targets: map<nat, nat>, args: nat,
                                          at: nat)
    requires T.Answers(b, r, reached, targets, args, at) && r.Done?
    ensures Instructions(SizesOf(b.bc), T.Prologue(b.bc).0).Some?
  {
    C.BodyKeepsChain(b);
    VisitedSplits(E.LoweredOf(b), SizesOf(b.bc), targets, T.Prologue(b.bc).0, false);
  }

  // ----- blockers that slip through -----------------------------------------------------------------

  /** Pushes a handler and then calls dynamically. */
  const HANDLED: seq<Byte> := [PUSH_HANDLER, CALL_LOCAL_B, NO_OP, RETURN_1]

  /** Takes one argument, and calls dynamically at once: the count byte of the entry marker
      looks like SET_HANDLER8. */
  const MARKED: seq<Byte> := [ENTER_INT_X86, SET_HANDLER8, CALL_LOCAL_B, NO_OP, RETURN_1]

  lemma SampleLengths(bc: seq<Byte>, pc: nat)
    requires pc + 1 < |bc|
    ensures bc[pc] == CALL_LOCAL_B ==> TotalLen(bc, pc) == Ok(2)
    ensures bc[pc] == PUSH_HANDLER ==> TotalLen(bc, pc) == Ok(1)
  {
    assert HasOneByte(CALL_LOCAL_B) && !IsLocal(CALL_LOCAL_B) && !IsBinary(CALL_LOCAL_B) && !HasNoOperand(CALL_LOCAL_B);
    assert !IsLeaving(CALL_LOCAL_B) && !IsPool(CALL_LOCAL_B) && HasNoOperand(PUSH_HANDLER);
  }

  lemma ReturnLength(bc: seq<Byte>, pc: nat)
    requires pc < |bc| && bc[pc] == RETURN_1
    ensures TotalLen(bc, pc) == Ok(1) && StepAt(bc, pc) == Some(1)
  {
    assert IsLeaving(RETURN_1) && !IsLocal(RETURN_1) && !IsBinary(RETURN_1) && !HasNoOperand(RETURN_1);
    assert IsControlOp(RETURN_1);
  }

  lemma {:induction false} Meets(z: Sizes, pc: nat, rest: seq<nat>)
    requires Positive(z) && pc < z.len && pc in z.at && Instructions(z, pc + z.at[pc]) == Some(rest)
    ensures Instructions(z, pc) == Some([pc] + rest)
  {
  }

  lemma {:induction false} Bounds(s: Steps, pc: nat, n: nat, rest: seq<nat>)
    requires Whole(s) && pc < |s.bc| && s.step[pc] == Some(n) && Boundaries(s, pc + n) == Some(rest)
    ensures Boundaries(s, pc) == Some([pc] + rest)
  {
  }

  lemma {:induction false} HandledWalks(s: Steps, z: Sizes)
    requires Whole(s) && Positive(z) && z.len == |s.bc| == 4
    requires s.step[0] == Some(2) && s.step[2] == Some(1) && s.step[3] == Some(1)
    requires 0 in z.at && z.at[0] == 1 && 1 in z.at && z.at[1] == 2 && 3 in z.at && z.at[3] == 1
    ensures Boundaries(s, 0) == Some([0, 2, 3]) && Instructions(z, 0) == Some([0, 1, 3])
  {
    Meets(z, 3, []);
    assert [3] + [] == [3] && [1] + [3] == [1, 3] && [0] + [1, 3] == [0, 1, 3];
    Meets(z, 1, [3]);
    Meets(z, 0, [1, 3]);
    assert [2] + [3] == [2, 3] && [0] + [2, 3] == [0, 2, 3];
    Bounds(s, 3, 1, []);
    Bounds(s, 2, 1, [3]);
    Bounds(s, 0, 2, [2, 3]);
  }

  lemma {:induction false} MarkedWalks(s: Steps, z: Sizes)
    requires Whole(s) && Positive(z) && z.len == |s.bc| == 5
    requires s.step[0] == Some(1) && s.step[1] == Some(2) && s.step[3] == Some(1) && s.step[4] == Some(1)
    requires 2 in z.at && z.at[2] == 2 && 4 in z.at && z.at[4] == 1
    ensures Boundaries(s, 0) == Some([0, 1, 3, 4]) && Instructions(z, 2) == Some([2, 4])
  {
    Meets(z, 4, []);
    assert [4] + [] == [4] && [2] + [4] == [2, 4];
    Meets(z, 2, [4]);
    assert [3] + [4] == [3, 4] && [1] + [3, 4] == [1, 3, 4] && [0] + [1, 3, 4] == [0, 1, 3, 4];
    Bounds(s, 4, 1, []);
    Bounds(s, 3, 1, [4]);
    Bounds(s, 1, 2, [3, 4]);
    Bounds(s, 0, 1, [1, 3, 4]);
  }

  lemma SampleSteps()
    ensures StepAt(HANDLED, 0) == Some(2) && StepAt(HANDLED, 2) == Some(1)
    ensures StepAt(MARKED, 0) == Some(1) && StepAt(MARKED, 1) == Some(2) && StepAt(MARKED, 3) == Some(1)
  {
    assert IsUnlowered(PUSH_HANDLER) && IsUnlowered(ENTER_INT_X86) && IsUnlowered(SET_HANDLER8) && IsStackOp(NO_OP);
    assert HasOneImmediate(PUSH_HANDLER) && HasOneImmediate(SET_HANDLER8);
    assert ImmBytes(NO_OP) == 0 && ImmBytes(ENTER_INT_X86) == 0;
  }

  /** A scan that is exact at these boundaries misses a dynamic call at these instructions. */
  ghost predicate Misses(bc: seq<Byte>, bs: seq<nat>, ins: seq<nat>) {
    && (forall i :: 0 <= i < |bs| ==> bs[i] < |bc|)
    && OccursAt(bc, ins, {CALL_LOCAL_B}) && forall scan :: Exact(StepsOf(bc), bs, scan) ==> !scan.callLocalB
  }

  lemma {:induction false} MissesThere(bc: seq<Byte>, bs: seq<nat>, ins: seq<nat>, k: nat)
    requires forall i :: 0 <= i < |bs| ==> bs[i] < |bc| && bc[bs[i]] != CALL_LOCAL_B
    requires k < |ins| && ins[k] < |bc| && bc[ins[k]] == CALL_LOCAL_B
    ensures Misses(bc, bs, ins)
  {
  }

  /** The walk takes the call for the operand of PUSH_HANDLER and steps over it. */
  lemma {:induction false} MissedBlocker()
    ensures Boundaries(StepsOf(HANDLED), 0) == Some([0, 2, 3])
    ensures T.Prologue(HANDLED).0 == 0 && Instructions(SizesOf(HANDLED), 0) == Some([0, 1, 3])
    ensures Misses(HANDLED, [0, 2, 3], [0, 1, 3])
  {
    SampleLengths(HANDLED, 0);
    SampleLengths(HANDLED, 1);
    ReturnLength(HANDLED, 3);
    SampleSteps();
    HandledWalks(StepsOf(HANDLED), SizesOf(HANDLED));
    MissesThere(HANDLED, [0, 2, 3], [0, 1, 3], 1);
  }

  /** And for the operand of the count byte. */
  lemma {:induction false} MissedAfterMarker()
    ensures Boundaries(StepsOf(MARKED), 0) == Some([0, 1, 3, 4])
    ensures T.Prologue(MARKED).0 == 2 && Instructions(SizesOf(MARKED), 2) == Some([2, 4])
    ensures Misses(MARKED, [0, 1, 3, 4], [2, 4])
  {
    SampleLengths(MARKED, 2);
    ReturnLength(MARKED, 4);
    SampleSteps();
    MarkedWalks(StepsOf(MARKED), SizesOf(MARKED));
    MissesThere(MARKED, [0, 1, 3, 4], [2, 4], 0);
  }
}
