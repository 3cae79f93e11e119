/** The opcode bytes of the bytecode that the translators read, the number of immediate
    bytes after each, and the subset that whole regions are compiled from. */
module Opcodes {
  import opened Words

  const JUMP8: Byte := 0x02
  const JUMP8_FALSE: Byte := 0x03
  const LOAD_ML_WORD: Byte := 0x04
  const STORE_ML_WORD: Byte := 0x05
  const ALLOC_REF: Byte := 0x06
  const BLOCK_MOVE_WORD: Byte := 0x07
  const LOAD_UNTAGGED: Byte := 0x08
  const STORE_UNTAGGED: Byte := 0x09
  const CASE16: Byte := 0x0a
  const CALL_CLOSURE: Byte := 0x0c
  const RETURN_W: Byte := 0x0d
  const STACK_CONTAINER_B: Byte := 0x0e
  const RAISE_EX: Byte := 0x10
  const LOCAL_W: Byte := 0x13
  const CONST_ADDR16_8: Byte := 0x14
  const CONST_ADDR8_8: Byte := 0x15
  const CALL_LOCAL_B: Byte := 0x16
  const CALL_CONST_ADDR8_8: Byte := 0x17
  const CALL_CONST_ADDR16_8: Byte := 0x18
  const CONST_INT_W: Byte := 0x1b
  const JUMP_BACK8: Byte := 0x1e
  const RETURN_B: Byte := 0x1f
  const JUMP_BACK16: Byte := 0x20
  const INDIRECT_LOCAL_BB: Byte := 0x21
  const LOCAL_B: Byte := 0x22
  const INDIRECT_B: Byte := 0x23
  const MOVE_TO_CONTAINER_B: Byte := 0x24
  const SET_STACK_VAL_B: Byte := 0x25
  const RESET_B: Byte := 0x26
  const RESET_R_B: Byte := 0x27
  const CONST_INT_B: Byte := 0x28
  const LOCAL_0: Byte := 0x29
  const LOCAL_1: Byte := 0x2a
  const LOCAL_2: Byte := 0x2b
  const LOCAL_3: Byte := 0x2c
  const LOCAL_4: Byte := 0x2d
  const LOCAL_5: Byte := 0x2e
  const LOCAL_6: Byte := 0x2f
  const LOCAL_7: Byte := 0x30
  const LOCAL_8: Byte := 0x31
  const LOCAL_9: Byte := 0x32
  const LOCAL_10: Byte := 0x33
  const LOCAL_11: Byte := 0x34
  const INDIRECT_0: Byte := 0x35
  const INDIRECT_1: Byte := 0x36
  const INDIRECT_2: Byte := 0x37
  const INDIRECT_3: Byte := 0x38
  const INDIRECT_4: Byte := 0x39
  const INDIRECT_5: Byte := 0x3a
  const CONST_0: Byte := 0x3b
  const CONST_1: Byte := 0x3c
  const CONST_2: Byte := 0x3d
  const CONST_3: Byte := 0x3e
  const CONST_4: Byte := 0x3f
  const CONST_10: Byte := 0x40
  const RETURN_1: Byte := 0x42
  const RETURN_2: Byte := 0x43
  const RETURN_3: Byte := 0x44
  const LOCAL_12: Byte := 0x45
  const JUMP8_TRUE: Byte := 0x46
  const JUMP16_TRUE: Byte := 0x47
  const LOCAL_13: Byte := 0x49
  const LOCAL_14: Byte := 0x4a
  const LOCAL_15: Byte := 0x4b
  const ARB_ADD: Byte := 0x4c
  const ARB_SUBTRACT: Byte := 0x4d
  const ARB_MULTIPLY: Byte := 0x4e
  const RESET_1: Byte := 0x50
  const RESET_2: Byte := 0x51
  const NO_OP: Byte := 0x52
  const INDIRECT_CLOSURE_BB: Byte := 0x54
  const CONST_ADDR8_0: Byte := 0x55
  const CONST_ADDR8_1: Byte := 0x56
  const CALL_CONST_ADDR8_0: Byte := 0x57
  const CALL_CONST_ADDR8_1: Byte := 0x58
  const RESET_R_1: Byte := 0x64
  const RESET_R_2: Byte := 0x65
  const RESET_R_3: Byte := 0x66
  const TUPLE_B: Byte := 0x68
  const TUPLE_2: Byte := 0x69
  const TUPLE_3: Byte := 0x6a
  const TUPLE_4: Byte := 0x6b
  const LOCK: Byte := 0x6c
  const LDEXC: Byte := 0x6d
  const INDIRECT_CONTAINER_B: Byte := 0x74
  const MOVE_TO_MUT_CLOSURE_B: Byte := 0x75
  const ALLOC_MUT_CLOSURE_B: Byte := 0x76
  const INDIRECT_CLOSURE_B0: Byte := 0x77
  const PUSH_HANDLER: Byte := 0x78
  const INDIRECT_CLOSURE_B1: Byte := 0x7a
  const TAIL_B_B: Byte := 0x7b
  const INDIRECT_CLOSURE_B2: Byte := 0x7c
  const SET_HANDLER8: Byte := 0x81
  const CALL_FAST_RTS0: Byte := 0x83
  const CALL_FAST_RTS1: Byte := 0x84
  const CALL_FAST_RTS2: Byte := 0x85
  const CALL_FAST_RTS3: Byte := 0x86
  const CALL_FAST_RTS4: Byte := 0x87
  const CALL_FAST_RTS5: Byte := 0x88
  const NOT_BOOLEAN: Byte := 0x91
  const IS_TAGGED: Byte := 0x92
  const CELL_LENGTH: Byte := 0x93
  const CELL_FLAGS: Byte := 0x94
  const CLEAR_MUTABLE: Byte := 0x95
  const ATOMIC_INCR: Byte := 0x97
  const ATOMIC_DECR: Byte := 0x98
  const EQUAL_WORD: Byte := 0xa0
  const LESS_SIGNED: Byte := 0xa2
  const LESS_UNSIGNED: Byte := 0xa3
  const LESS_EQ_SIGNED: Byte := 0xa4
  const LESS_EQ_UNSIGNED: Byte := 0xa5
  const GREATER_SIGNED: Byte := 0xa6
  const GREATER_UNSIGNED: Byte := 0xa7
  const GREATER_EQ_SIGNED: Byte := 0xa8
  const GREATER_EQ_UNSIGNED: Byte := 0xa9
  const FIXED_ADD: Byte := 0xaa
  const FIXED_SUB: Byte := 0xab
  const FIXED_MULT: Byte := 0xac
  const FIXED_QUOT: Byte := 0xad
  const FIXED_REM: Byte := 0xae
  const WORD_ADD: Byte := 0xb1
  const WORD_SUB: Byte := 0xb2
  const WORD_MULT: Byte := 0xb3
  const WORD_DIV: Byte := 0xb4
  const WORD_MOD: Byte := 0xb5
  const WORD_AND: Byte := 0xb7
  const WORD_OR: Byte := 0xb8
  const WORD_XOR: Byte := 0xb9
  const WORD_SHIFT_LEFT: Byte := 0xba
  const WORD_SHIFT_R_LOG: Byte := 0xbb
  const ALLOC_BYTE_MEM: Byte := 0xbd
  const INDIRECT_LOCAL_B1: Byte := 0xc1
  const IS_TAGGED_LOCAL_B: Byte := 0xc2
  const JUMP_NEQ_LOCAL_IND: Byte := 0xc3
  const JUMP_TAGGED_LOCAL: Byte := 0xc4
  const JUMP_NEQ_LOCAL: Byte := 0xc5
  const INDIRECT_0_LOCAL_0: Byte := 0xc6
  const INDIRECT_LOCAL_B0: Byte := 0xc7
  const CLOSURE_B: Byte := 0xd0
  const GET_THREAD_ID: Byte := 0xd9
  const ALLOC_WORD_MEMORY: Byte := 0xda
  const LOAD_ML_BYTE: Byte := 0xdc
  const STORE_ML_BYTE: Byte := 0xe4
  const ENTER_INT_ARM64: Byte := 0xe9
  const BLOCK_MOVE_BYTE: Byte := 0xec
  const BLOCK_EQUAL_BYTE: Byte := 0xed
  const BLOCK_COMPARE_BYTE: Byte := 0xee
  const DELETE_HANDLER: Byte := 0xf1
  const JUMP16: Byte := 0xf7
  const JUMP16_FALSE: Byte := 0xf8
  const SET_HANDLER16: Byte := 0xf9
  const STACK_SIZE16: Byte := 0xfc
  const ESCAPE: Byte := 0xfe
  const ENTER_INT_X86: Byte := 0xff

  /** `imm_bytes`: immediate bytes after an opcode of fixed length. */
  function ImmBytes(op: Byte): (n: nat)
    ensures n <= 3
  {
    if HasThreeImmediates(op) then 3
    else if HasTwoImmediates(op) then 2
    else if HasOneImmediate(op) then 1
    else 0
  }

  predicate HasOneImmediate(op: Byte) {
    op in {
      JUMP8, JUMP8_FALSE, JUMP8_TRUE, JUMP_BACK8, LOCAL_B, INDIRECT_B, CONST_INT_B, RESET_B, RESET_R_B, RETURN_B,
      TUPLE_B, CLOSURE_B, SET_HANDLER8, PUSH_HANDLER, MOVE_TO_CONTAINER_B, SET_STACK_VAL_B, STACK_CONTAINER_B,
      INDIRECT_CONTAINER_B, INDIRECT_CLOSURE_B0, INDIRECT_CLOSURE_B1, INDIRECT_CLOSURE_B2, INDIRECT_LOCAL_B0,
      INDIRECT_LOCAL_B1, IS_TAGGED_LOCAL_B, MOVE_TO_MUT_CLOSURE_B, ALLOC_MUT_CLOSURE_B, CALL_LOCAL_B,
      CONST_ADDR8_0, CONST_ADDR8_1, CALL_CONST_ADDR8_0, CALL_CONST_ADDR8_1, CALL_FAST_RTS0, CALL_FAST_RTS1,
      CALL_FAST_RTS2, CALL_FAST_RTS3, CALL_FAST_RTS4, CALL_FAST_RTS5
    }
  }

  predicate HasTwoImmediates(op: Byte) {
    op in {
      JUMP16, JUMP16_FALSE, JUMP16_TRUE, JUMP_BACK16, LOCAL_W, CONST_INT_W, RETURN_W, SET_HANDLER16,
      STACK_SIZE16, INDIRECT_LOCAL_BB, INDIRECT_CLOSURE_BB, CONST_ADDR8_8, CALL_CONST_ADDR8_8, JUMP_TAGGED_LOCAL,
      TAIL_B_B
    }
  }

  predicate HasThreeImmediates(op: Byte) {
    op in {
      JUMP_NEQ_LOCAL, JUMP_NEQ_LOCAL_IND, CONST_ADDR16_8, CALL_CONST_ADDR16_8
    }
  }

  /** `is_supported`: the subset the region translator lowers, by kind. */
  predicate IsSupported(op: Byte) {
    IsConstantOp(op) || IsLocalOp(op) || IsStackOp(op) || IsControlOp(op) || IsHeapOp(op) || IsArithOp(op)
  }

  predicate IsConstantOp(op: Byte) {
    op in {
      CONST_ADDR16_8, CONST_ADDR8_8, CONST_INT_W, CONST_INT_B, CONST_0, CONST_1, CONST_2, CONST_3, CONST_4,
      CONST_10, CONST_ADDR8_0, CONST_ADDR8_1
    }
  }

  predicate IsLocalOp(op: Byte) {
    op in {
      LOCAL_W, INDIRECT_LOCAL_BB, LOCAL_B, INDIRECT_B, LOCAL_0, LOCAL_1, LOCAL_2, LOCAL_3, LOCAL_4, LOCAL_5,
      LOCAL_6, LOCAL_7, LOCAL_8, LOCAL_9, LOCAL_10, LOCAL_11, INDIRECT_0, INDIRECT_1, INDIRECT_2, INDIRECT_3,
      INDIRECT_4, INDIRECT_5, LOCAL_12, LOCAL_13, LOCAL_14, LOCAL_15, INDIRECT_LOCAL_B1, IS_TAGGED_LOCAL_B,
      INDIRECT_0_LOCAL_0, INDIRECT_LOCAL_B0
    }
  }

  predicate IsStackOp(op: Byte) {
    op in {
      STACK_CONTAINER_B, SET_STACK_VAL_B, RESET_B, RESET_R_B, RESET_1, RESET_2, NO_OP, RESET_R_1, RESET_R_2,
      RESET_R_3, STACK_SIZE16
    }
  }

  predicate IsControlOp(op: Byte) {
    op in {
      JUMP8, JUMP8_FALSE, CALL_CLOSURE, RETURN_W, CALL_LOCAL_B, CALL_CONST_ADDR8_8, CALL_CONST_ADDR16_8,
      JUMP_BACK8, RETURN_B, JUMP_BACK16, RETURN_1, RETURN_2, RETURN_3, JUMP8_TRUE, JUMP16_TRUE,
      CALL_CONST_ADDR8_0, CALL_CONST_ADDR8_1, JUMP_NEQ_LOCAL_IND, JUMP_TAGGED_LOCAL, JUMP_NEQ_LOCAL, JUMP16,
      JUMP16_FALSE
    }
  }

  predicate IsHeapOp(op: Byte) {
    op in {
      LOAD_ML_WORD, STORE_ML_WORD, ALLOC_REF, LOAD_UNTAGGED, STORE_UNTAGGED, TUPLE_B, TUPLE_2, TUPLE_3, TUPLE_4,
      CELL_LENGTH, CELL_FLAGS, ALLOC_BYTE_MEM, CLOSURE_B, ALLOC_WORD_MEMORY, LOAD_ML_BYTE
    }
  }

  predicate IsArithOp(op: Byte) {
    op in {
      NOT_BOOLEAN, IS_TAGGED, EQUAL_WORD, LESS_SIGNED, LESS_UNSIGNED, LESS_EQ_SIGNED, LESS_EQ_UNSIGNED,
      GREATER_SIGNED, GREATER_UNSIGNED, GREATER_EQ_SIGNED, GREATER_EQ_UNSIGNED, FIXED_ADD, FIXED_SUB, FIXED_MULT,
      FIXED_QUOT, FIXED_REM, WORD_ADD, WORD_SUB, WORD_MULT, WORD_DIV, WORD_MOD, WORD_AND, WORD_OR, WORD_XOR,
      WORD_SHIFT_LEFT, WORD_SHIFT_R_LOG
    }
  }

  /** The opcodes the disassembler has a name for. */
  predicate IsNamed(op: Byte) {
    IsSupported(op) || IsUnlowered(op)
  }

  /** Those among them that are not lowered for regions. */
  predicate IsUnlowered(op: Byte) {
    || op in {
         ARB_ADD, ARB_SUBTRACT, ARB_MULTIPLY, ATOMIC_INCR, ATOMIC_DECR, BLOCK_COMPARE_BYTE, BLOCK_EQUAL_BYTE,
         BLOCK_MOVE_BYTE, BLOCK_MOVE_WORD, CALL_FAST_RTS0, CALL_FAST_RTS1, CALL_FAST_RTS2, CALL_FAST_RTS3,
         CALL_FAST_RTS4, CALL_FAST_RTS5, CASE16, CLEAR_MUTABLE, DELETE_HANDLER, ENTER_INT_ARM64, ENTER_INT_X86,
         ESCAPE
       }
    || op in {
         GET_THREAD_ID, INDIRECT_CLOSURE_B0, INDIRECT_CLOSURE_B1, INDIRECT_CLOSURE_B2, INDIRECT_CLOSURE_BB,
         INDIRECT_CONTAINER_B, LDEXC, LOCK, MOVE_TO_CONTAINER_B, MOVE_TO_MUT_CLOSURE_B, PUSH_HANDLER, RAISE_EX,
         SET_HANDLER8, SET_HANDLER16, STORE_ML_BYTE, TAIL_B_B, ALLOC_MUT_CLOSURE_B
       }
  }
}
