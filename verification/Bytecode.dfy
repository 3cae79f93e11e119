/** Decoding: from the bytes of a code object to the instructions of `Instr`. */
module Bytecode {
  import opened Basics
  import opened Words
  import opened Arith
  import opened Instr
  import opened Opcodes

  /** A resolved code object: its bytecode, and its whole body (the bytecode, then the
      constant pool). */
  datatype ResolvedCode = ResolvedCode(bytecode: seq<Byte>, body: seq<Byte>)

  // ----- lengths ------------------------------------------------------------------------

  function ByteAt(bc: seq<Byte>, i: nat): Option<Byte> {
    if i < |bc| then Some(bc[i]) else None
  }

  /** A missing immediate reads as 0. */
  function Imm(bc: seq<Byte>, i: nat): Byte {
    if i < |bc| then bc[i] else 0
  }

  function Imm16(bc: seq<Byte>, i: nat): (n: nat)
    ensures n < 0x1_0000
  {
    Imm(bc, i) + 256 * Imm(bc, i + 1)
  }

  /** `decode(..).total_len`: an opcode with its immediates.  A case table carries its own
      length. */
  function LengthAt(bc: seq<Byte>, pc: nat): (n: nat)
    requires pc < |bc|
    ensures n >= 1
  {
    var op := bc[pc];
    if op == CASE16 then
      if pc + 2 < |bc| then 3 + 2 * Imm16(bc, pc + 1) else 1
    else if op == ESCAPE then 2
    else 1 + ImmBytes(op)
  }

  // ----- jumps and constants --------------------------------------------------------------

  /** `jump_target`; none for a backward jump past the start or a missing offset. */
  function TargetAt(bc: seq<Byte>, pc: nat): Option<nat>
    requires pc < |bc|
  {
    var op, after := bc[pc], pc + LengthAt(bc, pc);
    if op in {JUMP8, JUMP8_FALSE, JUMP8_TRUE} then
      var off :- ByteAt(bc, pc + 1);
      Some(after + off)
    else if op in {JUMP16, JUMP16_FALSE, JUMP16_TRUE} then
      var lo :- ByteAt(bc, pc + 1);
      var hi :- ByteAt(bc, pc + 2);
      Some(after + lo + 256 * hi)
    else if op == JUMP_BACK8 then
      var off :- ByteAt(bc, pc + 1);
      if off <= pc then Some(pc - off) else None
    else if op == JUMP_BACK16 then
      var lo :- ByteAt(bc, pc + 1);
      var hi :- ByteAt(bc, pc + 2);
      if lo + 256 * hi <= pc then Some(pc - (lo + 256 * hi)) else None
    else if op in {JUMP_NEQ_LOCAL, JUMP_NEQ_LOCAL_IND} then
      var off :- ByteAt(bc, pc + 3);
      Some(after + off)
    else if op == JUMP_TAGGED_LOCAL then
      var off :- ByteAt(bc, pc + 2);
      Some(after + off)
    else None
  }

  /** The byte offset and pool index of a constant's address, for the four forms of
      CONST_ADDR and of CALL_CONST_ADDR. */
  function PoolOperands(bc: seq<Byte>, pc: nat): Option<(nat, nat)>
    requires pc < |bc|
  {
    var op := bc[pc];
    if op in {CONST_ADDR8_0, CALL_CONST_ADDR8_0} then
      var off :- ByteAt(bc, pc + 1);
      Some((off, 3))
    else if op in {CONST_ADDR8_1, CALL_CONST_ADDR8_1} then
      var off :- ByteAt(bc, pc + 1);
      Some((off, 4))
    else if op in {CONST_ADDR8_8, CALL_CONST_ADDR8_8} then
      var off :- ByteAt(bc, pc + 1);
      var idx :- ByteAt(bc, pc + 2);
      Some((off, idx + 3))
    else if op in {CONST_ADDR16_8, CALL_CONST_ADDR16_8} then
      var lo :- ByteAt(bc, pc + 1);
      var hi :- ByteAt(bc, pc + 2);
      var idx :- ByteAt(bc, pc + 3);
      Some((lo + 256 * hi, idx + 3))
    else None
  }

  lemma Pow2Byte(k: nat)
    ensures Pow2(k + 8) == 256 * Pow2(k)
  {
    assert Pow2(k + 2) == 4 * Pow2(k);
    assert Pow2(k + 4) == 4 * Pow2(k + 2);
    assert Pow2(k + 6) == 4 * Pow2(k + 4);
    assert Pow2(k + 8) == 4 * Pow2(k + 6);
  }

  /** `n` bytes, low byte first. */
  function LittleEndian(bytes: seq<Byte>): (w: nat)
    ensures w < Pow2(8 * |bytes|)
  {
    if bytes == [] then 0
    else
      Pow2Byte(8 * |bytes[1..]|);
      bytes[0] + 256 * LittleEndian(bytes[1..])
  }

  /** The pool word an instruction refers to, read from the code object's own body. */
  function PoolWord(rc: ResolvedCode, pc: nat): Option<Word>
    requires pc < |rc.bytecode|
  {
    var (off, idx) :- PoolOperands(rc.bytecode, pc);
    var at := pc + LengthAt(rc.bytecode, pc) + off + idx * 8;
    if at + 8 > |rc.body| then None
    else
      Pow2Is64();
      Some(LittleEndian(rc.body[at..at + 8]))
  }

  predicate IsCca(op: Byte) {
    op in {CALL_CONST_ADDR8_0, CALL_CONST_ADDR8_1, CALL_CONST_ADDR8_8, CALL_CONST_ADDR16_8}
  }

  predicate Aligned(w: Word) { w != 0 && w % 8 == 0 }

  /** `cca_target_code_addr`: the code address behind the closure a call names;
      `firstWord` is what the frozen heap holds at the closure. */
  function CalleeAt(rc: ResolvedCode, firstWord: map<Word, Word>, pc: nat): Option<Word>
    requires pc < |rc.bytecode|
  {
    var closure :- PoolWord(rc, pc);
    if Aligned(closure) && closure in firstWord && Aligned(firstWord[closure]) then Some(firstWord[closure]) else None
  }

  // ----- instructions ------------------------------------------------------------------------

  function Small(n: nat): Instr
    requires n < 0x1_0000
  {
    Const(Tagged(n))
  }

  function DecodeConstant(rc: ResolvedCode, pc: nat): Option<Instr>
    requires pc < |rc.bytecode|
  {
    var bc := rc.bytecode;
    var op := bc[pc];
    if CONST_0 <= op <= CONST_4 then Some(Small(op - CONST_0))
    else if op == CONST_10 then Some(Small(10))
    else if op == CONST_INT_B then Some(Small(Imm(bc, pc + 1)))
    else if op == CONST_INT_W then Some(Small(Imm16(bc, pc + 1)))
    else if op in {CONST_ADDR8_0, CONST_ADDR8_1, CONST_ADDR8_8, CONST_ADDR16_8} then
      match PoolWord(rc, pc)
      case Some(w) => Some(Const(w))
      case None => Some(Truncated)
    else None
  }

  function DecodeLocal(bc: seq<Byte>, pc: nat): Option<Instr>
    requires pc < |bc|
  {
    var op := bc[pc];
    if LOCAL_0 <= op <= LOCAL_11 then Some(Local(op - LOCAL_0))
    else if op == LOCAL_12 then Some(Local(12))
    else if LOCAL_13 <= op <= LOCAL_15 then Some(Local(13 + (op - LOCAL_13)))
    else if op == LOCAL_B then Some(Local(Imm(bc, pc + 1)))
    else if op == LOCAL_W then Some(Local(Imm16(bc, pc + 1)))
    else if INDIRECT_0 <= op <= INDIRECT_5 then Some(Indirect(op - INDIRECT_0))
    else if op == INDIRECT_B then Some(Indirect(Imm(bc, pc + 1)))
    else if op == INDIRECT_LOCAL_B0 then Some(IndirectLocal(Imm(bc, pc + 1), 0))
    else if op == INDIRECT_LOCAL_B1 then Some(IndirectLocal(Imm(bc, pc + 1), 1))
    else if op == INDIRECT_0_LOCAL_0 then Some(IndirectLocal(0, 0))
    else if op == INDIRECT_LOCAL_BB then Some(IndirectLocal(Imm(bc, pc + 1), Imm(bc, pc + 2)))
    else if op == IS_TAGGED_LOCAL_B then Some(IsTaggedLocal(Imm(bc, pc + 1)))
    else None
  }

  function DecodeStack(bc: seq<Byte>, pc: nat): Option<Instr>
    requires pc < |bc|
  {
    var op := bc[pc];
    if op == NO_OP then Some(NoOp)
    else if op == STACK_SIZE16 then Some(StackSize(Imm16(bc, pc + 1)))
    else if op == RESET_1 then Some(Reset(1))
    else if op == RESET_2 then Some(Reset(2))
    else if op == RESET_B then Some(Reset(Imm(bc, pc + 1)))
    else if RESET_R_1 <= op <= RESET_R_3 then Some(ResetR(op - RESET_R_1 + 1))
    else if op == RESET_R_B then Some(ResetR(Imm(bc, pc + 1)))
    else if op == SET_STACK_VAL_B then Some(SetStackVal(Imm(bc, pc + 1)))
    else if op == STACK_CONTAINER_B then Some(StackContainer(Imm(bc, pc + 1)))
    else None
  }

  /** Jumps, branches, returns and calls.  A jump whose target cannot be worked out, or a
      call whose closure word cannot be read, is `Truncated`. */
  function DecodeControl(rc: ResolvedCode, pc: nat): Option<Instr>
    requires pc < |rc.bytecode|
  {
    var bc := rc.bytecode;
    var op := bc[pc];
    if RETURN_1 <= op <= RETURN_3 then Some(Return(op - RETURN_1 + 1))
    else if op == RETURN_B then Some(Return(Imm(bc, pc + 1)))
    else if op == RETURN_W then Some(Return(Imm16(bc, pc + 1)))
    else if op == CALL_CLOSURE then Some(CallClosure)
    else if op == CALL_LOCAL_B then Some(CallLocal(Imm(bc, pc + 1)))
    else if IsCca(op) then
      match PoolWord(rc, pc)
      case Some(w) => Some(CallConst(w))
      case None => Some(Truncated)
    else if op in {JUMP8, JUMP16, JUMP_BACK8, JUMP_BACK16, JUMP8_FALSE, JUMP16_FALSE, JUMP8_TRUE, JUMP16_TRUE,
                   JUMP_NEQ_LOCAL, JUMP_NEQ_LOCAL_IND, JUMP_TAGGED_LOCAL} then
      match TargetAt(bc, pc)
      case Some(t) => Some(DecodeJump(bc, pc, t))
      case None => Some(Truncated)
    else None
  }

  function DecodeJump(bc: seq<Byte>, pc: nat, t: nat): Instr
    requires pc < |bc|
  {
    var op := bc[pc];
    if op in {JUMP8, JUMP16} then Jump(t)
    else if op in {JUMP_BACK8, JUMP_BACK16} then JumpBack(t)
    else if op in {JUMP8_FALSE, JUMP16_FALSE} then JumpIf(true, t)
    else if op in {JUMP8_TRUE, JUMP16_TRUE} then JumpIf(false, t)
    else if op == JUMP_TAGGED_LOCAL then JumpTaggedLocal(Imm(bc, pc + 1), t)
    else JumpNeqLocal(Imm(bc, pc + 1), Imm(bc, pc + 2), op == JUMP_NEQ_LOCAL_IND, t)
  }

  function DecodeHeap(bc: seq<Byte>, pc: nat): Option<Instr>
    requires pc < |bc|
  {
    var op := bc[pc];
    if op == LOAD_ML_WORD then Some(LoadMl(LoadWord))
    else if op == LOAD_ML_BYTE then Some(LoadMl(LoadByte))
    else if op == LOAD_UNTAGGED then Some(LoadMl(LoadUntagged))
    else if op == STORE_ML_WORD then Some(StoreMl(false))
    else if op == STORE_UNTAGGED then Some(StoreMl(true))
    else if op == CELL_LENGTH then Some(CellLength)
    else if op == CELL_FLAGS then Some(CellFlags)
    else if TUPLE_2 <= op <= TUPLE_4 then Some(Tuple(op - TUPLE_2 + 2))
    else if op == TUPLE_B then Some(Tuple(Imm(bc, pc + 1)))
    else if op == CLOSURE_B then Some(MakeClosure(Imm(bc, pc + 1)))
    else if op == ALLOC_REF then Some(AllocRef)
    else if op == ALLOC_WORD_MEMORY then Some(AllocWordMemory)
    else if op == ALLOC_BYTE_MEM then Some(AllocByteMem)
    else None
  }

  function DecodeArith(op: Byte): Option<Instr> {
    if op == FIXED_ADD then Some(Fixed(FAdd))
    else if op == FIXED_SUB then Some(Fixed(FSub))
    else if op == FIXED_MULT then Some(Fixed(FMul))
    else if op == FIXED_QUOT then Some(FixedDivide(Quot))
    else if op == FIXED_REM then Some(FixedDivide(Rem))
    else if op == WORD_ADD then Some(WordArith(WAdd))
    else if op == WORD_SUB then Some(WordArith(WSub))
    else if op == WORD_MULT then Some(WordArith(WMul))
    else if op == WORD_AND then Some(WordArith(WBit(And)))
    else if op == WORD_OR then Some(WordArith(WBit(Or)))
    else if op == WORD_XOR then Some(WordArith(WBit(Xor)))
    else if op == WORD_SHIFT_LEFT then Some(WordArith(WShl))
    else if op == WORD_SHIFT_R_LOG then Some(WordArith(WShrLog))
    else if op == WORD_DIV then Some(WordDivide(WDiv))
    else if op == WORD_MOD then Some(WordDivide(WMod))
    else DecodeTest(op)
  }

  function DecodeTest(op: Byte): Option<Instr> {
    if op == EQUAL_WORD then Some(Comparison(Eq))
    else if op == LESS_SIGNED then Some(Comparison(LtS))
    else if op == LESS_UNSIGNED then Some(Comparison(LtU))
    else if op == LESS_EQ_SIGNED then Some(Comparison(LeS))
    else if op == LESS_EQ_UNSIGNED then Some(Comparison(LeU))
    else if op == GREATER_SIGNED then Some(Comparison(GtS))
    else if op == GREATER_UNSIGNED then Some(Comparison(GtU))
    else if op == GREATER_EQ_SIGNED then Some(Comparison(GeS))
    else if op == GREATER_EQ_UNSIGNED then Some(Comparison(GeU))
    else if op == NOT_BOOLEAN then Some(NotBoolean)
    else if op == IS_TAGGED then Some(IsTaggedTop)
    else None
  }

  function OrElse(a: Option<Instr>, b: Option<Instr>): Option<Instr> {
    if a.Some? then a else b
  }

  /** The instruction at `pc`; none for an opcode that `emit_one` does not lower. */
  function DecodeAt(rc: ResolvedCode, pc: nat): Option<Instr>
    requires pc < |rc.bytecode|
  {
    var bc := rc.bytecode;
    OrElse(DecodeConstant(rc, pc), OrElse(DecodeLocal(bc, pc), OrElse(DecodeStack(bc, pc),
      OrElse(DecodeControl(rc, pc), OrElse(DecodeHeap(bc, pc), DecodeArith(bc[pc]))))))
  }

  lemma ConstantsLowered(rc: ResolvedCode, pc: nat)
    requires pc < |rc.bytecode|
    ensures DecodeConstant(rc, pc).Some? <==> IsConstantOp(rc.bytecode[pc])
    ensures DecodeConstant(rc, pc).Some? ==> !DecodeConstant(rc, pc).value.CallConst?
  {
  }

  lemma LocalsLowered(bc: seq<Byte>, pc: nat)
    requires pc < |bc|
    ensures DecodeLocal(bc, pc).Some? <==> IsLocalOp(bc[pc])
    ensures DecodeLocal(bc, pc).Some? ==> !DecodeLocal(bc, pc).value.CallConst?
  {
  }

  lemma StackLowered(bc: seq<Byte>, pc: nat)
    requires pc < |bc|
    ensures DecodeStack(bc, pc).Some? <==> IsStackOp(bc[pc])
    ensures DecodeStack(bc, pc).Some? ==> !DecodeStack(bc, pc).value.CallConst?
  {
  }

  lemma ControlLowered(rc: ResolvedCode, pc: nat)
    requires pc < |rc.bytecode|
    ensures DecodeControl(rc, pc).Some? <==> IsControlOp(rc.bytecode[pc])
    ensures forall closure: Word :: DecodeControl(rc, pc) == Some(CallConst(closure)) ==>
      IsCca(rc.bytecode[pc]) && PoolWord(rc, pc) == Some(closure)
  {
  }

  lemma HeapLowered(bc: seq<Byte>, pc: nat)
    requires pc < |bc|
    ensures DecodeHeap(bc, pc).Some? <==> IsHeapOp(bc[pc])
    ensures DecodeHeap(bc, pc).Some? ==> !DecodeHeap(bc, pc).value.CallConst?
  {
  }

  lemma ArithLowered(op: Byte)
    ensures DecodeArith(op).Some? <==> IsArithOp(op)
    ensures DecodeArith(op).Some? ==> !DecodeArith(op).value.CallConst?
  {
  }

  /** The two tables of the region compiler agree: the pre-flight check lets an opcode through
      exactly when the emitter has a lowering for it. */
  lemma SupportedIsLowered(rc: ResolvedCode, pc: nat)
    requires pc < |rc.bytecode|
    ensures IsSupported(rc.bytecode[pc]) <==> DecodeAt(rc, pc).Some?
  {
    ConstantsLowered(rc, pc);
    LocalsLowered(rc.bytecode, pc);
    StackLowered(rc.bytecode, pc);
    ControlLowered(rc, pc);
    HeapLowered(rc.bytecode, pc);
    ArithLowered(rc.bytecode[pc]);
  }

  /** A static call is decoded from a CALL_CONST_ADDR opcode and names its pool word. */
  lemma CallConstIsCca(rc: ResolvedCode, pc: nat, closure: Word)
    requires pc < |rc.bytecode| && DecodeAt(rc, pc) == Some(CallConst(closure))
    ensures IsCca(rc.bytecode[pc]) && IsSupported(rc.bytecode[pc]) && PoolWord(rc, pc) == Some(closure)
  {
    SupportedIsLowered(rc, pc);
    ConstantsLowered(rc, pc);
    LocalsLowered(rc.bytecode, pc);
    StackLowered(rc.bytecode, pc);
    ControlLowered(rc, pc);
    HeapLowered(rc.bytecode, pc);
    ArithLowered(rc.bytecode[pc]);
  }

  /** The code object's instructions at every offset.  An unsupported opcode stands as
      `Truncated`: a region that contains one is never compiled. */
  function FunctionOf(rc: ResolvedCode): (fn: Function)
    ensures fn.len == |rc.bytecode|
    ensures forall pc :: 0 <= pc < fn.len ==> pc in fn.at && fn.at[pc].next == pc + LengthAt(rc.bytecode, pc)
  {
    Function(|rc.bytecode|,
      map pc: nat | 0 <= pc < |rc.bytecode| ::
        Fetched(if DecodeAt(rc, pc).Some? then DecodeAt(rc, pc).value else Truncated, pc + LengthAt(rc.bytecode, pc)))
  }
}
