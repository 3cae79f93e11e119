/** What the scans mean by a tail call, and which opcodes they look for, in terms of the
    decoder and of the interpreter. */
module Tails {
  import opened Basics
  import opened Words
  import opened Machine
  import opened Instr
  import opened Opcodes
  import opened Bytecode
  import opened Interp
  import A = Assembler
  import B = Blockers
  import T = Translator

  // ----- opcodes ----------------------------------------------------------------------------------

  /** The opcodes that the scans look for, as bytes, and as what the decoder makes of them. */
  lemma SoughtOpcodes(rc: ResolvedCode, pc: nat)
    requires pc < |rc.bytecode|
    ensures var op := rc.bytecode[pc];
      && (op == CALL_LOCAL_B <==> op == 0x16) && (op in B.Ccas() <==> op in {0x57, 0x58, 0x17, 0x18})
      && (op in B.ConstAddrs() <==> op in {0x55, 0x56, 0x15, 0x14}) && (op in B.FastRts() <==> 0x83 <= op <= 0x88)
      && (op in B.Outgoing() <==> op == 0x0c || op == 0x7b || 0x83 <= op <= 0x88)
  {
  }

  lemma LocalCalls(rc: ResolvedCode, pc: nat)
    requires pc < |rc.bytecode|
    ensures DecodeAt(rc, pc).Some? ==>
      && (DecodeAt(rc, pc).value.CallLocal? <==> rc.bytecode[pc] == CALL_LOCAL_B)
      && (DecodeAt(rc, pc).value.CallConst? ==> rc.bytecode[pc] in B.Ccas())
  {
    var op := rc.bytecode[pc];
    A.OneKind(op);
    A.DecodedByKind(rc, pc);
    if IsControlOp(op) {
      ControlCalls(rc, pc);
    } else {
      NoCalls(rc, pc);
    }
  }

  lemma ControlCalls(rc: ResolvedCode, pc: nat)
    requires pc < |rc.bytecode| && IsControlOp(rc.bytecode[pc])
    ensures DecodeControl(rc, pc).Some?
    ensures DecodeControl(rc, pc).value.CallLocal? <==> rc.bytecode[pc] == CALL_LOCAL_B
    ensures DecodeControl(rc, pc).value.CallConst? ==> rc.bytecode[pc] in B.Ccas()
  {
  }

  predicate NoCall(ins: Option<Instr>) { ins.Some? ==> !ins.value.CallLocal? && !ins.value.CallConst? }

  lemma NoCalls(rc: ResolvedCode, pc: nat)
    requires pc < |rc.bytecode| && !IsControlOp(rc.bytecode[pc])
    ensures rc.bytecode[pc] != CALL_LOCAL_B
    ensures NoCall(DecodeConstant(rc, pc)) && NoCall(DecodeLocal(rc.bytecode, pc)) && NoCall(DecodeStack(rc.bytecode, pc))
    ensures NoCall(DecodeHeap(rc.bytecode, pc)) && NoCall(DecodeArith(rc.bytecode[pc]))
  {
  }

  // ----- tail positions -----------------------------------------------------------------------------

  /** LOCAL_0; RESET_R_1; RETURN_1, in bytes. */
  predicate Cleanup(bc: seq<Byte>, next: nat) {
    next + 3 <= |bc| && bc[next] == 0x29 && bc[next + 1] == 0x64 && bc[next + 2] == 0x42
  }

  /** A call is in tail position if and only if a return follows it, or that sequence. */
  lemma TailReturns(bc: seq<Byte>, next: nat)
    ensures B.TailEquivalent(bc, next) <==>
      || (next < |bc| && DecodeAt(T.Code(bc), next).Some? && DecodeAt(T.Code(bc), next).value.Return?)
      || Cleanup(bc, next)
  {
    if next < |bc| {
      T.ReturnsAreControl(bc, next);
    }
  }

  /** The function at the state's offset goes on with the sequence. */
  predicate CleansUp(p: Program, s: State) {
    FetchesAt(p, s.code, s.pc, Local(0)) && FetchesAt(p, s.code, s.pc + 1, ResetR(1)) && FetchesAt(p, s.code, s.pc + 2, Return(1))
  }

  predicate FetchesAt(p: Program, code: Word, pc: nat, ins: Instr) {
    && code in p.funcs && pc in p.funcs[code].at && pc + 1 <= p.funcs[code].len
    && p.funcs[code].at[pc] == Fetched(ins, pc + 1)
  }

  /** The states differ in dead slots of the stack only. */
  predicate SameLive(a: State, b: State) {
    && a.code == b.code && a.pc == b.pc && a.frames == b.frames
    && a.core.sp == b.core.sp && a.core.heap == b.core.heap && a.core.allocs == b.core.allocs
    && |a.core.stack| == |b.core.stack| && forall i :: a.core.sp <= i < |a.core.stack| ==> a.core.stack[i] == b.core.stack[i]
  }

  function Stepped(p: Program, w: World, s: State): Option<State> {
    match Step(Unchecked, p, w, s)
    case Some(Continue(t)) => Some(t)
    case _ => None
  }

  lemma CopyStep(p: Program, w: World, s: State)
    requires CleansUp(p, s) && 0 < s.core.sp < |s.core.stack|
    ensures Stepped(p, w, s) == Some(s.(pc := s.pc + 1,
      core := s.core.(sp := s.core.sp - 1, stack := s.core.stack[s.core.sp - 1 := s.core.stack[s.core.sp]])))
  {
  }

  lemma DropStep(p: Program, w: World, s: State, top: Word)
    requires FetchesAt(p, s.code, s.pc, ResetR(1))
    requires s.core.sp + 1 < |s.core.stack| && s.core.stack[s.core.sp] == top == s.core.stack[s.core.sp + 1]
    ensures Stepped(p, w, s) == Some(s.(pc := s.pc + 1, core := s.core.(sp := s.core.sp + 1)))
  {
    assert s.core.stack[s.core.sp + 1 := top] == s.core.stack;
  }

  lemma ReturnStep(p: Program, w: World, s: State)
    requires FetchesAt(p, s.code, s.pc, Return(1))
    ensures Step(Unchecked, p, w, s) == DoReturn(s, 1)
  {
  }

  lemma ReturnAlike(a: State, b: State)
    requires SameLive(a, b.(pc := a.pc)) && DoReturn(b, 1).Some? && DoReturn(b, 1).value.Continue?
    ensures DoReturn(a, 1).Some? && DoReturn(a, 1).value.Continue?
    ensures SameLive(DoReturn(a, 1).value.s, DoReturn(b, 1).value.s)
  {
  }

  /** In code that holds the sequence, the decoder finds it. */
  lemma CleanupDecoded(p: Program, rc: ResolvedCode, s: State)
    requires s.code in p.funcs && p.funcs[s.code] == FunctionOf(rc) && Cleanup(rc.bytecode, s.pc)
    ensures CleansUp(p, s)
  {
    SpelledAt(rc, s.pc, Local(0));
    SpelledAt(rc, s.pc + 1, ResetR(1));
    SpelledAt(rc, s.pc + 2, Return(1));
  }

  lemma SpelledAt(rc: ResolvedCode, pc: nat, ins: Instr)
    requires pc < |rc.bytecode|
    requires || (rc.bytecode[pc] == 0x29 && ins == Local(0)) || (rc.bytecode[pc] == 0x64 && ins == ResetR(1))
             || (rc.bytecode[pc] == 0x42 && ins == Return(1))
    ensures FunctionOf(rc).at[pc] == Fetched(ins, pc + 1) && FunctionOf(rc).len == |rc.bytecode| && pc in FunctionOf(rc).at
  {
    OneByteSpelled(rc, pc, ins);
    A.DecodesSpelling(rc, pc, 1, ins);
    FetchedIs(rc, pc, ins);
  }

  lemma OneByteSpelled(rc: ResolvedCode, pc: nat, ins: Instr)
    requires pc < |rc.bytecode|
    requires || (rc.bytecode[pc] == 0x29 && ins == Local(0)) || (rc.bytecode[pc] == 0x64 && ins == ResetR(1))
             || (rc.bytecode[pc] == 0x42 && ins == Return(1))
    ensures A.Spells(rc, pc, 1, ins)
  {
  }

  lemma FetchedIs(rc: ResolvedCode, pc: nat, ins: Instr)
    requires pc < |rc.bytecode| && DecodeAt(rc, pc) == Some(ins) && LengthAt(rc.bytecode, pc) == 1
    ensures FunctionOf(rc).at[pc] == Fetched(ins, pc + 1) && FunctionOf(rc).len == |rc.bytecode| && pc in FunctionOf(rc).at
  {
  }

  /** The sequence copies the result, drops the original and returns the copy: three steps of
      the interpreter that come to what a return of one argument does at once. */
  lemma CleanupReturns(p: Program, w: World, s: State)
    requires CleansUp(p, s) && 0 < s.core.sp < |s.core.stack|
    requires DoReturn(s, 1).Some? && DoReturn(s, 1).value.Continue?
    ensures var s1 := Stepped(p, w, s);
      && s1.Some? && Stepped(p, w, s1.value).Some?
      && Stepped(p, w, Stepped(p, w, s1.value).value).Some?
      && SameLive(Stepped(p, w, Stepped(p, w, s1.value).value).value, DoReturn(s, 1).value.s)
  {
    CopyStep(p, w, s);
    var s1 := Stepped(p, w, s).value;
    DropStep(p, w, s1, s.core.stack[s.core.sp]);
    var s2 := Stepped(p, w, s1).value;
    ReturnStep(p, w, s2);
    ReturnAlike(s2, s);
  }
}
