/** The stack effects that the per-function translator knows about each opcode.  Its two
    passes, its argument inference and its step over dead code each carry a table of their
    own; the lemmas at the end say how the tables agree. */
module Stacking {
  import opened Basics
  import opened Words
  import opened Opcodes
  import opened Bytecode

  datatype Fault =
    | Truncated
    | Unsupported
    | Underflow
    /** Two branches reach a block at different depths. */
    | DepthConflict
    /** Code falls into a block with too few values. */
    | TooShallow
    | FellOffEnd

  /** A function body: its bytecode, the bytes with the constant pool after it, and the
      arity of the function a pool word names, where it can be found out. */
  datatype Body = Body(bc: seq<Byte>, full: seq<Byte>, arity: Word -> Option<nat>)

  // ----- operands -------------------------------------------------------------------------

  /** `k` immediate bytes follow the opcode at `pc`. */
  predicate HasImm(bc: seq<Byte>, pc: nat, k: nat) { pc + k < |bc| }

  function Need(b: bool): Result<(), Fault> { if b then Ok(()) else Err(Truncated) }

  function Byte1(bc: seq<Byte>, pc: nat): nat
    requires pc + 1 < |bc|
  {
    bc[pc + 1]
  }

  function Word16(bc: seq<Byte>, i: nat): nat
    requires i + 1 < |bc|
  {
    bc[i] as int + 256 * bc[i + 1] as int
  }

  predicate Wide(op: Byte) { op in {JUMP16, JUMP_BACK16, JUMP16_FALSE, JUMP16_TRUE} }

  function JumpBytes(op: Byte): nat { if Wide(op) then 2 else 1 }

  function JumpOffset(bc: seq<Byte>, pc: nat): nat
    requires pc < |bc| && HasImm(bc, pc, JumpBytes(bc[pc]))
  {
    if Wide(bc[pc]) then Word16(bc, pc + 1) else Byte1(bc, pc)
  }

  predicate IsBinary(op: Byte) {
    op in {FIXED_ADD, FIXED_SUB, FIXED_MULT, FIXED_QUOT, FIXED_REM, WORD_ADD, WORD_SUB, WORD_MULT, WORD_DIV, WORD_MOD,
     WORD_AND, WORD_OR, WORD_XOR, WORD_SHIFT_LEFT, WORD_SHIFT_R_LOG, EQUAL_WORD, LESS_SIGNED, LESS_UNSIGNED,
     LESS_EQ_SIGNED, LESS_EQ_UNSIGNED, GREATER_SIGNED, GREATER_UNSIGNED, GREATER_EQ_SIGNED, GREATER_EQ_UNSIGNED}
  }

  predicate IsBlockOp(op: Byte) {
    op in {BLOCK_MOVE_WORD, BLOCK_MOVE_BYTE, BLOCK_EQUAL_BYTE, BLOCK_COMPARE_BYTE}
  }

  predicate IsConditional(op: Byte) {
    op in {JUMP8_FALSE, JUMP8_TRUE, JUMP16_FALSE, JUMP16_TRUE}
  }

  predicate IsConstAddr(op: Byte) {
    op in {CONST_ADDR8_0, CONST_ADDR8_1, CONST_ADDR8_8, CONST_ADDR16_8}
  }

  predicate IsLocal(op: Byte) { LOCAL_0 <= op <= LOCAL_11 || op == LOCAL_12 || LOCAL_13 <= op <= LOCAL_15 }

  /** The index of a LOCAL_N opcode. */
  function LocalIndex(op: Byte): nat
    requires IsLocal(op)
  {
    if op <= LOCAL_11 then op - LOCAL_0 else if op == LOCAL_12 then 12 else 13 + (op - LOCAL_13)
  }

  /** The immediate bytes of a CONST_ADDR or CALL_CONST_ADDR. */
  function PoolBytes(op: Byte): nat {
    if op in {CONST_ADDR16_8, CALL_CONST_ADDR16_8} then 3
    else if op in {CONST_ADDR8_8, CALL_CONST_ADDR8_8} then 2
    else 1
  }

  /** The pool word a call names: its offset operand, index operand and 8 bytes. */
  function CalledWord(b: Body, pc: nat): Result<Word, Fault>
    requires pc < |b.bc|
  {
    match PoolWord(ResolvedCode(b.bc, b.full), pc)
    case Some(w) => Ok(w)
    case None => Err(Unsupported)
  }

  /** The targets of a jump table, default first, unless the table is cut short. */
  function CaseTargets(bc: seq<Byte>, table: nat, n: nat, i: nat): Result<seq<nat>, Fault>
    decreases n - i
  {
    if i >= n then Ok([])
    else if table + 2 * i + 1 >= |bc| then Err(Truncated)
    else
      var rest :- CaseTargets(bc, table, n, i + 1);
      Ok([table + Word16(bc, table + 2 * i)] + rest)
  }

  // ----- pass 1 -----------------------------------------------------------------------------

  /** What `scan_one_opcode` does with an opcode, depth apart. */
  datatype Scan =
    /** Needs `need` values, changes the depth by `delta`, goes on at `next`. */
    | Plain(next: nat, need: nat, delta: int)
    /** Leaves one value, whatever the depth. */
    | Collapse(next: nat)
    /** Needs `need` values, pops `pops` of them, branches to any of `targets`. */
    | Branches(need: nat, pops: nat, targets: Result<seq<nat>, Fault>)
    | Stop(need: nat)

  /** A step never takes more than it needs. */
  predicate Covers(s: Scan) {
    match s
    case Plain(_, need, delta) => need + delta >= 0
    case Branches(need, pops, _) => pops <= need
    case _ => true
  }

  function ScanAt(b: Body, pc: nat): (r: Result<Scan, Fault>)
    requires pc < |b.bc|
    ensures r.Ok? ==> Covers(r.value)
  {
    var op := b.bc[pc];
    if IsLocal(op) then Ok(Plain(pc + 1, LocalIndex(op) + 1, 1))
    else if IsBinary(op) then Ok(Plain(pc + 1, 2, -1))
    else if HasNoOperand(op) then Ok(ScanNoOperand(op, pc))
    else if IsLeaving(op) then ScanLeaving(b, pc)
    else if IsPool(op) then ScanPool(b, pc)
    else ScanOperand(b.bc, pc)
  }

  /** The opcodes that name a word of the constant pool. */
  predicate IsPool(op: Byte) {
    IsConstAddr(op) || op in {CALL_CONST_ADDR8_0, CALL_CONST_ADDR8_1, CALL_CONST_ADDR8_8, CALL_CONST_ADDR16_8}
  }

  function ScanPool(b: Body, pc: nat): (r: Result<Scan, Fault>)
    requires pc < |b.bc|
    ensures r.Ok? ==> Covers(r.value)
  {
    var op := b.bc[pc];
    var _ :- Need(HasImm(b.bc, pc, PoolBytes(op)));
    if IsConstAddr(op) then Ok(Plain(pc + 1 + PoolBytes(op), 0, 1))
    else
      var w :- CalledWord(b, pc);
      match b.arity(w)
      case None => Err(Unsupported)
      case Some(n) => Ok(Plain(pc + 1 + PoolBytes(op), n, 1 - n))
  }

  /** The opcodes without operands, other than LOCAL_N and the binary ones. */
  predicate HasNoOperand(op: Byte) {
    IsPushing(op) || IsReplacing(op) || IsAccessing(op) || IsDropping(op) || IsCalling(op)
  }

  predicate IsPushing(op: Byte) {
    op in {CONST_0, CONST_1, CONST_2, CONST_3, CONST_4, CONST_10, GET_THREAD_ID, LDEXC, PUSH_HANDLER, INDIRECT_0_LOCAL_0}
  }

  predicate IsReplacing(op: Byte) {
    op in {INDIRECT_0, INDIRECT_1, INDIRECT_2, INDIRECT_3, INDIRECT_4, INDIRECT_5, LOCK, CLEAR_MUTABLE, CELL_FLAGS, ALLOC_REF,
     CELL_LENGTH, NOT_BOOLEAN, IS_TAGGED, NO_OP}
  }

  predicate IsAccessing(op: Byte) {
    op in {LOAD_UNTAGGED, ALLOC_BYTE_MEM, LOAD_ML_BYTE, LOAD_ML_WORD, STORE_ML_WORD, STORE_ML_BYTE, ALLOC_WORD_MEMORY,
     STORE_UNTAGGED, BLOCK_MOVE_WORD, BLOCK_MOVE_BYTE, BLOCK_EQUAL_BYTE, BLOCK_COMPARE_BYTE}
  }

  predicate IsDropping(op: Byte) {
    op in {RESET_1, DELETE_HANDLER, RESET_2, RESET_R_1, RESET_R_2, RESET_R_3}
  }

  predicate IsCalling(op: Byte) {
    op in {CALL_FAST_RTS0, CALL_FAST_RTS1, CALL_FAST_RTS2, CALL_FAST_RTS3, CALL_FAST_RTS4, CALL_FAST_RTS5, CALL_CLOSURE,
     TUPLE_2, TUPLE_3, TUPLE_4}
  }

  function ScanNoOperand(op: Byte, pc: nat): (s: Scan)
    requires HasNoOperand(op)
    ensures Covers(s)
  {
    var a := pc + 1;
    if CONST_0 <= op <= CONST_4 || op in {CONST_10, GET_THREAD_ID, LDEXC, PUSH_HANDLER} then Plain(a, 0, 1)
    else if op in {LOAD_UNTAGGED, ALLOC_BYTE_MEM, LOAD_ML_BYTE, LOAD_ML_WORD} then Plain(a, 2, -1)
    else if op in {STORE_ML_WORD, STORE_ML_BYTE, ALLOC_WORD_MEMORY, STORE_UNTAGGED} then Plain(a, 3, -2)
    else if IsBlockOp(op) then Plain(a, 5, -4)
    else if op == INDIRECT_0_LOCAL_0 then Plain(a, 1, 1)
    else if op == NO_OP then Plain(a, 0, 0)
    else if op in {RESET_1, DELETE_HANDLER} then Plain(a, 1, -1)
    else if op == RESET_2 then Plain(a, 2, -2)
    else if RESET_R_1 <= op <= RESET_R_3 then
      var n := op - RESET_R_1 + 1;
      Plain(a, n + 1, -n)
    else if CALL_FAST_RTS0 <= op <= CALL_FAST_RTS5 then
      var n := op - CALL_FAST_RTS0;
      Plain(a, n + 1, -n)
    else if op == CALL_CLOSURE then Collapse(a)
    else if TUPLE_2 <= op <= TUPLE_4 then
      var n := op - TUPLE_2 + 2;
      Plain(a, n, 1 - n)
    else Plain(a, 1, 0)
  }

  /** Sequential opcodes with operand bytes. */
  function ScanOperand(bc: seq<Byte>, pc: nat): (r: Result<Scan, Fault>)
    requires pc < |bc|
    ensures r.Ok? ==> Covers(r.value)
  {
    var op := bc[pc];
    if op in {CONST_INT_W, SET_HANDLER16} then
      var _ :- Need(HasImm(bc, pc, 2));
      Ok(Plain(pc + 3, 0, 1))
    else if op in {INDIRECT_LOCAL_BB, INDIRECT_CLOSURE_BB} then
      var _ :- Need(HasImm(bc, pc, 2));
      Ok(Plain(pc + 3, Byte1(bc, pc) + 1, 1))
    else if HasOneByte(op) then
      var _ :- Need(HasImm(bc, pc, 1));
      Ok(ScanOneByte(op, Byte1(bc, pc), pc + 2))
    else Err(Unsupported)
  }

  predicate HasOneByte(op: Byte) {
    op in {LOCAL_B, INDIRECT_LOCAL_B0, INDIRECT_LOCAL_B1, INDIRECT_CLOSURE_B0, INDIRECT_CLOSURE_B1, INDIRECT_CLOSURE_B2,
     IS_TAGGED_LOCAL_B, INDIRECT_B, INDIRECT_CONTAINER_B, ALLOC_MUT_CLOSURE_B, STACK_CONTAINER_B, MOVE_TO_CONTAINER_B,
     MOVE_TO_MUT_CLOSURE_B, RESET_B, RESET_R_B, CALL_LOCAL_B, TUPLE_B, CONST_INT_B, SET_STACK_VAL_B, SET_HANDLER8,
     CLOSURE_B}
  }

  function ScanOneByte(op: Byte, n: nat, next: nat): (s: Scan)
    requires HasOneByte(op)
    ensures Covers(s)
  {
    if op in {INDIRECT_B, INDIRECT_CONTAINER_B, ALLOC_MUT_CLOSURE_B} then Plain(next, 1, 0)
    else if op == STACK_CONTAINER_B then Plain(next, 0, n + 1)
    else if op in {MOVE_TO_CONTAINER_B, MOVE_TO_MUT_CLOSURE_B} then Plain(next, 2, -1)
    else if op == RESET_B then Plain(next, n, 0 - n)
    else if op in {RESET_R_B, CLOSURE_B} then Plain(next, n + 1, 0 - n)
    else if op == CALL_LOCAL_B then Plain(next, n + 1, 1 - n)
    else if op == TUPLE_B then Plain(next, n, 1 - n)
    else if op in {CONST_INT_B, SET_HANDLER8} then Plain(next, 0, 1)
    else if op == SET_STACK_VAL_B then Plain(next, 1, -1)
    else Plain(next, n + 1, 1)
  }

  /** Jumps and terminators. */
  predicate IsLeaving(op: Byte) {
    op in {JUMP8, JUMP16, JUMP_BACK8, JUMP_BACK16, JUMP8_FALSE, JUMP8_TRUE, JUMP16_FALSE, JUMP16_TRUE, JUMP_TAGGED_LOCAL,
     JUMP_NEQ_LOCAL, JUMP_NEQ_LOCAL_IND, CASE16, RETURN_1, RETURN_2, RETURN_3, RETURN_B, RETURN_W, RAISE_EX, TAIL_B_B}
  }

  function ScanLeaving(b: Body, pc: nat): (r: Result<Scan, Fault>)
    requires pc < |b.bc| && IsLeaving(b.bc[pc])
    ensures r.Ok? ==> Covers(r.value)
  {
    var bc, op := b.bc, b.bc[pc];
    if op in {RETURN_1, RETURN_2, RETURN_3, RAISE_EX} then Ok(Stop(1))
    else if op == RETURN_B then
      var _ :- Need(HasImm(bc, pc, 1));
      Ok(Stop(1))
    else if op == RETURN_W then
      var _ :- Need(HasImm(bc, pc, 2));
      Ok(Stop(1))
    else if op == TAIL_B_B then
      var _ :- Need(HasImm(bc, pc, 2));
      if Byte1(bc, pc) < 2 then Err(Unsupported) else Ok(Stop(Byte1(bc, pc)))
    else if op == JUMP_TAGGED_LOCAL then
      var _ :- Need(HasImm(bc, pc, 2));
      Ok(Branches(Byte1(bc, pc) + 1, 0, Ok([pc + 3 + bc[pc + 2], pc + 3])))
    else if op in {JUMP_NEQ_LOCAL, JUMP_NEQ_LOCAL_IND} then
      var _ :- Need(HasImm(bc, pc, 3));
      Ok(Branches(Byte1(bc, pc) + 1, 0, Ok([pc + 4 + bc[pc + 3], pc + 4])))
    else if op == CASE16 then
      var _ :- Need(HasImm(bc, pc, 2));
      Ok(Branches(1, 1, CaseAll(bc, pc)))
    else
      var _ :- Need(HasImm(bc, pc, JumpBytes(op)));
      var off, next := JumpOffset(bc, pc), pc + 1 + JumpBytes(op);
      if IsConditional(op) then Ok(Branches(1, 1, Ok([next + off, next])))
      else if op in {JUMP8, JUMP16} then Ok(Branches(0, 0, Ok([next + off])))
      else if off > pc then Err(Unsupported)
      else Ok(Branches(0, 0, Ok([pc - off])))
  }

  function CaseAll(bc: seq<Byte>, pc: nat): Result<seq<nat>, Fault>
    requires HasImm(bc, pc, 2)
  {
    var n := Word16(bc, pc + 1);
    var rest :- CaseTargets(bc, pc + 3, n, 0);
    Ok([pc + 3 + 2 * n] + rest)
  }

  // ----- pass 2 -----------------------------------------------------------------------------

  /** What the emission walk does to its stack of values. */
  datatype Emit =
    /** Checks that `least` values are there, pops and pushes, goes on at `next`. */
    | Shuffle(next: nat, least: nat, pops: nat, pushes: nat)
    /** Spills everything, calls, and keeps the result for the return that follows. */
    | TailCall(next: nat)
    /** Ends the block with a jump or branch that passes what is left of the stack. */
    | Jump(next: nat, least: nat, pops: nat, targets: Result<seq<nat>, Fault>)
    /** Ends the block with a return. */
    | Return(next: nat, least: nat)

  function EmitAt(b: Body, pc: nat): Result<Emit, Fault>
    requires pc < |b.bc|
  {
    var op := b.bc[pc];
    if IsLocal(op) then Ok(Shuffle(pc + 1, LocalIndex(op) + 1, 0, 1))
    else if IsBinary(op) then Ok(Shuffle(pc + 1, 2, 2, 1))
    else if op == CALL_CLOSURE then EmitTailCall(b.bc, pc)
    else if HasNoOperand(op) then Ok(EmitNoOperand(op, pc + 1))
    else if IsLeaving(op) then EmitLeaving(b, pc)
    else if IsPool(op) then EmitPool(b, pc)
    else EmitOperand(b.bc, pc)
  }

  /** Unlike the first pass, this one also reads the pool word of a CONST_ADDR. */
  function EmitPool(b: Body, pc: nat): Result<Emit, Fault>
    requires pc < |b.bc|
  {
    var op := b.bc[pc];
    var _ :- Need(HasImm(b.bc, pc, PoolBytes(op)));
    var w :- CalledWord(b, pc);
    if IsConstAddr(op) then Ok(Shuffle(pc + 1 + PoolBytes(op), 0, 0, 1))
    else
      match b.arity(w)
      case None => Err(Unsupported)
      case Some(n) => Ok(Shuffle(pc + 1 + PoolBytes(op), n, n, 1))
  }

  function EmitNoOperand(op: Byte, next: nat): Emit
    requires HasNoOperand(op) && op != CALL_CLOSURE
  {
    if CONST_0 <= op <= CONST_4 || op in {CONST_10, GET_THREAD_ID, LDEXC, PUSH_HANDLER} then Shuffle(next, 0, 0, 1)
    else if op in {STORE_ML_WORD, STORE_ML_BYTE, ALLOC_WORD_MEMORY, STORE_UNTAGGED} then Shuffle(next, 3, 3, 1)
    else if op in {LOAD_UNTAGGED, ALLOC_BYTE_MEM, LOAD_ML_BYTE, LOAD_ML_WORD} then Shuffle(next, 2, 2, 1)
    else if IsBlockOp(op) then Shuffle(next, 5, 5, 1)
    else if op == INDIRECT_0_LOCAL_0 then Shuffle(next, 1, 0, 1)
    else if op in {NO_OP} then Shuffle(next, 0, 0, 0)
    else if op == LOCK then Shuffle(next, 1, 0, 0)
    else if op in {RESET_1, DELETE_HANDLER} then Shuffle(next, 1, 1, 0)
    else if op == RESET_2 then Shuffle(next, 2, 2, 0)
    else if op == RESET_R_1 then Shuffle(next, 2, 2, 1)
    else if op == RESET_R_2 then Shuffle(next, 3, 3, 1)
    else if op == RESET_R_3 then Shuffle(next, 4, 4, 1)
    else if CALL_FAST_RTS0 <= op <= CALL_FAST_RTS5 then
      Shuffle(next, op - CALL_FAST_RTS0 + 1, op - CALL_FAST_RTS0 + 1, 1)
    else if TUPLE_2 <= op <= TUPLE_4 then Shuffle(next, op - TUPLE_2 + 2, op - TUPLE_2 + 2, 1)
    else Shuffle(next, 1, 1, 1)
  }

  function EmitOperand(bc: seq<Byte>, pc: nat): Result<Emit, Fault>
    requires pc < |bc|
  {
    var op := bc[pc];
    if op in {CONST_INT_W, SET_HANDLER16} then
      var _ :- Need(HasImm(bc, pc, 2));
      Ok(Shuffle(pc + 3, 0, 0, 1))
    else if op in {INDIRECT_LOCAL_BB, INDIRECT_CLOSURE_BB} then
      var _ :- Need(HasImm(bc, pc, 2));
      Ok(Shuffle(pc + 3, Byte1(bc, pc) + 1, 0, 1))
    else if HasOneByte(op) then
      var _ :- Need(HasImm(bc, pc, 1));
      EmitOneByte(op, Byte1(bc, pc), pc + 2)
    else Err(Unsupported)
  }

  function EmitOneByte(op: Byte, n: nat, next: nat): Result<Emit, Fault>
    requires HasOneByte(op)
  {
    if op in {CONST_INT_B, SET_HANDLER8} then Ok(Shuffle(next, 0, 0, 1))
    else if op in {INDIRECT_B, INDIRECT_CONTAINER_B, ALLOC_MUT_CLOSURE_B} then Ok(Shuffle(next, 1, 1, 1))
    else if op in {MOVE_TO_CONTAINER_B, MOVE_TO_MUT_CLOSURE_B} then Ok(Shuffle(next, 2, 1, 0))
    else if op == STACK_CONTAINER_B then Ok(Shuffle(next, 0, 0, n + 1))
    else if op == RESET_B then Ok(Shuffle(next, n, n, 0))
    else if op in {RESET_R_B, CLOSURE_B} then Ok(Shuffle(next, n + 1, n + 1, 1))
    else if op == CALL_LOCAL_B then Ok(Shuffle(next, n + 1, n, 1))
    else if op == TUPLE_B then Ok(Shuffle(next, n, n, 1))
    else if op == SET_STACK_VAL_B then
      if n == 0 then Err(Underflow) else Ok(Shuffle(next, n + 1, 1, 0))
    else Ok(Shuffle(next, n + 1, 0, 1))
  }

  /** CALL_CLOSURE is translated in tail position only: before a return, or before the
      sequence LOCAL_0; RESET_R_1; RETURN_1, which is then skipped. */
  function EmitTailCall(bc: seq<Byte>, pc: nat): Result<Emit, Fault>
    requires pc < |bc|
  {
    var follow := if pc + 1 < |bc| then bc[pc + 1] else 0;
    if follow in {RETURN_1, RETURN_2, RETURN_3, RETURN_B, RETURN_W} then Ok(TailCall(pc + 1))
    else if pc + 3 < |bc| && bc[pc + 1] == LOCAL_0 && bc[pc + 2] == RESET_R_1 && bc[pc + 3] == RETURN_1 then
      Ok(Return(pc + 4, 1))
    else Err(Unsupported)
  }

  function EmitLeaving(b: Body, pc: nat): Result<Emit, Fault>
    requires pc < |b.bc| && IsLeaving(b.bc[pc])
  {
    var bc, op := b.bc, b.bc[pc];
    if op in {RETURN_1, RETURN_2, RETURN_3, RAISE_EX} then Ok(Return(pc + 1, 1))
    else if op == RETURN_B then
      var _ :- Need(HasImm(bc, pc, 1));
      Ok(Return(pc + 2, 1))
    else if op == RETURN_W then
      var _ :- Need(HasImm(bc, pc, 2));
      Ok(Return(pc + 3, 1))
    else if op == TAIL_B_B then
      var _ :- Need(HasImm(bc, pc, 2));
      if Byte1(bc, pc) < 2 then Err(Unsupported) else Ok(Return(pc + 3, Byte1(bc, pc)))
    else if op == JUMP_TAGGED_LOCAL then
      var _ :- Need(HasImm(bc, pc, 2));
      Ok(Jump(pc + 3, Byte1(bc, pc) + 1, 0, Ok([pc + 3 + bc[pc + 2], pc + 3])))
    else if op in {JUMP_NEQ_LOCAL, JUMP_NEQ_LOCAL_IND} then
      var _ :- Need(HasImm(bc, pc, 3));
      Ok(Jump(pc + 4, Byte1(bc, pc) + 1, 0, Ok([pc + 4 + bc[pc + 3], pc + 4])))
    else if op == CASE16 then
      var _ :- Need(HasImm(bc, pc, 2));
      Ok(Jump(pc + 3 + 2 * Word16(bc, pc + 1), 1, 1, CaseAll(bc, pc)))
    else
      var _ :- Need(HasImm(bc, pc, JumpBytes(op)));
      var off, next := JumpOffset(bc, pc), pc + 1 + JumpBytes(op);
      if IsConditional(op) then Ok(Jump(next, 1, 1, Ok([next + off, next])))
      else if op in {JUMP8, JUMP16} then Ok(Jump(next, 0, 0, Ok([next + off])))
      else if off > pc then Err(Unsupported)
      else Ok(Jump(next, 0, 0, Ok([pc - off])))
  }

  // ----- the passes agree ------------------------------------------------------------------

  /** The second pass does to its stack what the first recorded. */
  predicate Agree(s: Scan, e: Emit) {
    match e
    case Shuffle(next, least, pops, pushes) =>
      s.Plain? && s.next == next && pushes - pops == s.delta && least >= pops && least >= s.need
    case TailCall(next) => s == Collapse(next)
    case Jump(_, least, pops, targets) => s == Branches(least, pops, targets) && least >= pops
    case Return(_, least) => least > 0 && if s.Collapse? then least == 1 else s == Stop(least)
  }

  /** The second pass asks for more values than the first did. */
  predicate Stricter(s: Scan, e: Emit) { e.Shuffle? && s.Plain? && e.least > s.need }

  lemma NoOperandAgrees(op: Byte, pc: nat)
    requires HasNoOperand(op) && op != CALL_CLOSURE
    ensures Agree(ScanNoOperand(op, pc), EmitNoOperand(op, pc + 1))
  {
  }

  lemma OneByteAgrees(op: Byte, n: nat, next: nat)
    requires HasOneByte(op) && EmitOneByte(op, n, next).Ok?
    ensures Agree(ScanOneByte(op, n, next), EmitOneByte(op, n, next).value)
  {
  }

  lemma LeavingAgrees(b: Body, pc: nat)
    requires pc < |b.bc| && IsLeaving(b.bc[pc]) && EmitLeaving(b, pc).Ok?
    ensures ScanLeaving(b, pc).Ok? && Agree(ScanLeaving(b, pc).value, EmitLeaving(b, pc).value)
  {
  }

  /** The tables of the two passes agree on every opcode the second pass accepts: the same
      next offset, the same change of depth, the same branch targets. */
  lemma PassesAgree(b: Body, pc: nat)
    requires pc < |b.bc| && EmitAt(b, pc).Ok?
    ensures ScanAt(b, pc).Ok? && Agree(ScanAt(b, pc).value, EmitAt(b, pc).value)
  {
    var op := b.bc[pc];
    if IsLocal(op) || IsBinary(op) {
    } else if op == CALL_CLOSURE {
      TailCallAgrees(b, pc);
    } else if HasNoOperand(op) {
      NoOperandAgrees(op, pc);
    } else if IsLeaving(op) {
      assert EmitAt(b, pc) == EmitLeaving(b, pc);
      LeavingAgrees(b, pc);
    } else if IsPool(op) {
      PoolAgrees(b, pc);
    } else {
      OperandAgrees(b.bc, pc);
    }
  }

  lemma TailCallAgrees(b: Body, pc: nat)
    requires pc < |b.bc| && b.bc[pc] == CALL_CLOSURE && EmitAt(b, pc).Ok?
    ensures ScanAt(b, pc).Ok? && Agree(ScanAt(b, pc).value, EmitAt(b, pc).value)
  {
    assert ScanAt(b, pc) == Ok(Collapse(pc + 1));
  }

  lemma PoolAgrees(b: Body, pc: nat)
    requires pc < |b.bc| && EmitPool(b, pc).Ok?
    ensures ScanPool(b, pc).Ok? && Agree(ScanPool(b, pc).value, EmitPool(b, pc).value)
  {
  }

  lemma OperandAgrees(bc: seq<Byte>, pc: nat)
    requires pc < |bc| && EmitOperand(bc, pc).Ok?
    ensures ScanOperand(bc, pc).Ok? && Agree(ScanOperand(bc, pc).value, EmitOperand(bc, pc).value)
  {
    var op := bc[pc];
    if op in {CONST_INT_W, SET_HANDLER16, INDIRECT_LOCAL_BB, INDIRECT_CLOSURE_BB} {
    } else {
      assert EmitOperand(bc, pc) == EmitOneByte(op, Byte1(bc, pc), pc + 2);
      OneByteAgrees(op, Byte1(bc, pc), pc + 2);
    }
  }

  /** Only SET_STACK_VAL_B does: pass 1 asks for the value it pops, pass 2 also for the
      slot it overwrites. */
  lemma StricterOnly(b: Body, pc: nat)
    requires pc < |b.bc| && EmitAt(b, pc).Ok? && ScanAt(b, pc).Ok?
    ensures Stricter(ScanAt(b, pc).value, EmitAt(b, pc).value) ==> b.bc[pc] == SET_STACK_VAL_B
  {
    var op := b.bc[pc];
    if IsLocal(op) || IsBinary(op) {
    } else if op == CALL_CLOSURE {
      TailCallAgrees(b, pc);
    } else if HasNoOperand(op) {
      NoOperandExact(op, pc);
    } else if IsLeaving(op) {
      assert EmitAt(b, pc) == EmitLeaving(b, pc);
      LeavingAgrees(b, pc);
    } else if IsPool(op) {
      PoolExact(b, pc);
    } else {
      OperandExact(b.bc, pc);
    }
  }

  lemma NoOperandExact(op: Byte, pc: nat)
    requires HasNoOperand(op) && op != CALL_CLOSURE
    ensures !Stricter(ScanNoOperand(op, pc), EmitNoOperand(op, pc + 1))
  {
  }

  lemma PoolExact(b: Body, pc: nat)
    requires pc < |b.bc| && EmitPool(b, pc).Ok? && ScanPool(b, pc).Ok?
    ensures !Stricter(ScanPool(b, pc).value, EmitPool(b, pc).value)
  {
  }

  lemma OneByteExact(op: Byte, n: nat, next: nat)
    requires HasOneByte(op) && EmitOneByte(op, n, next).Ok? && op != SET_STACK_VAL_B
    ensures !Stricter(ScanOneByte(op, n, next), EmitOneByte(op, n, next).value)
  {
  }

  lemma OperandExact(bc: seq<Byte>, pc: nat)
    requires pc < |bc| && EmitOperand(bc, pc).Ok? && ScanOperand(bc, pc).Ok?
    ensures Stricter(ScanOperand(bc, pc).value, EmitOperand(bc, pc).value) ==> bc[pc] == SET_STACK_VAL_B
  {
    var op := bc[pc];
    if op !in {CONST_INT_W, SET_HANDLER16, INDIRECT_LOCAL_BB, INDIRECT_CLOSURE_BB} {
      assert EmitOperand(bc, pc) == EmitOneByte(op, Byte1(bc, pc), pc + 2);
      if op != SET_STACK_VAL_B {
        OneByteExact(op, Byte1(bc, pc), pc + 2);
      }
    }
  }

  lemma EmitAdvances(b: Body, pc: nat)
    requires pc < |b.bc| && EmitAt(b, pc).Ok?
    ensures EmitAt(b, pc).value.next > pc
  {
  }

  // ----- stepping over dead code -----------------------------------------------------------

  /** `opcode_total_len`: the third table of lengths, for code that is not emitted. */
  function TotalLen(bc: seq<Byte>, pc: nat): (r: Result<nat, Fault>)
    requires pc < |bc|
    ensures r.Ok? ==> r.value > 0
  {
    var op := bc[pc];
    if IsLocal(op) || IsBinary(op) || HasNoOperand(op) then Ok(1)
    else if IsLeaving(op) then LeavingLen(bc, pc)
    else if IsPool(op) then Ok(1 + PoolBytes(op))
    else if op in {CONST_INT_W, SET_HANDLER16, INDIRECT_LOCAL_BB, INDIRECT_CLOSURE_BB} then Ok(3)
    else if HasOneByte(op) then Ok(2)
    else Err(Unsupported)
  }

  /** Only a jump table has no fixed length. */
  function LeavingLen(bc: seq<Byte>, pc: nat): (r: Result<nat, Fault>)
    requires pc < |bc| && IsLeaving(bc[pc])
    ensures r.Ok? ==> r.value > 0
  {
    var op := bc[pc];
    if op == CASE16 then
      var _ :- Need(HasImm(bc, pc, 2));
      Ok(3 + 2 * Word16(bc, pc + 1))
    else if op in {RETURN_1, RETURN_2, RETURN_3, RAISE_EX} then Ok(1)
    else if op in {JUMP_NEQ_LOCAL, JUMP_NEQ_LOCAL_IND} then Ok(4)
    else if op in {JUMP_TAGGED_LOCAL, RETURN_W, TAIL_B_B, JUMP16, JUMP_BACK16, JUMP16_FALSE, JUMP16_TRUE} then Ok(3)
    else Ok(2)
  }

  lemma LeavingLengths(b: Body, pc: nat)
    requires pc < |b.bc| && IsLeaving(b.bc[pc]) && EmitLeaving(b, pc).Ok?
    ensures LeavingLen(b.bc, pc).Ok? && EmitLeaving(b, pc).value.next == pc + LeavingLen(b.bc, pc).value
  {
  }

  /** Where an emitted opcode ends, stepping over it would have ended too.  The one
      exception is a tail call that swallows the three opcodes after it. */
  lemma LengthsAgree(b: Body, pc: nat)
    requires pc < |b.bc| && EmitAt(b, pc).Ok?
    ensures TotalLen(b.bc, pc).Ok?
    ensures var step := pc + TotalLen(b.bc, pc).value;
      EmitAt(b, pc).value.next == if b.bc[pc] == CALL_CLOSURE && EmitAt(b, pc).value.Return? then step + 3 else step
  {
    var op := b.bc[pc];
    if IsLocal(op) || IsBinary(op) || HasNoOperand(op) {
    } else if IsLeaving(op) {
      LeavingLengths(b, pc);
    }
  }
}
