/** The bytes of each instruction, and that exactly these are decoded to it.  Opcodes are given
    as numbers, displacements as distances from the end of a forward jump and from the start
    of a backward one, pool words as eight bytes in the body. */
module Assembler {
  import opened Basics
  import opened Words
  import opened Arith
  import opened Instr
  import opened Opcodes
  import opened Bytecode
  import S = Stacking

  function Num(s: seq<Byte>, i: nat): int
    requires i < |s|
  {
    s[i]
  }

  // ----- forms ----------------------------------------------------------------------------------

  /** An opcode alone, or with one operand of one or two bytes, or with two of one byte. */
  predicate Op(bc: seq<Byte>, pc: nat, n: nat, op: int)
    requires pc + n <= |bc|
  {
    n == 1 && bc[pc] == op
  }

  predicate Op8(bc: seq<Byte>, pc: nat, n: nat, op: int, v: int)
    requires pc + n <= |bc|
  {
    n == 2 && bc[pc] == op && bc[pc + 1] == v
  }

  predicate Op16(bc: seq<Byte>, pc: nat, n: nat, op: int, v: int)
    requires pc + n <= |bc|
  {
    n == 3 && bc[pc] == op && Num(bc, pc + 1) + 0x100 * Num(bc, pc + 2) == v
  }

  predicate Op88(bc: seq<Byte>, pc: nat, n: nat, op: int, u: int, v: int)
    requires pc + n <= |bc|
  {
    n == 3 && bc[pc] == op && bc[pc + 1] == u && bc[pc + 2] == v
  }

  /** The eight bytes at `at`, the lowest first, are the word `w`. */
  predicate StoredAt(body: seq<Byte>, at: nat, w: Word) {
    && at + 8 <= |body|
    && w == Num(body, at) + 0x100 * Num(body, at + 1) + 0x1_0000 * Num(body, at + 2) + 0x100_0000 * Num(body, at + 3)
         + 0x1_0000_0000 * Num(body, at + 4) + 0x100_0000_0000 * Num(body, at + 5)
         + 0x1_0000_0000_0000 * Num(body, at + 6) + 0x100_0000_0000_0000 * Num(body, at + 7)
  }

  /** The four forms of an opcode that names pool word `w`: an offset in bytes from the end
      of the instruction, and an index in words behind a header of three. */
  predicate OpPool(rc: ResolvedCode, pc: nat, n: nat, op0: int, op1: int, op8: int, op16: int, w: Word)
    requires pc + n <= |rc.bytecode|
  {
    var bc := rc.bytecode;
    || (n == 2 && bc[pc] == op0 && StoredAt(rc.body, pc + 2 + Num(bc, pc + 1) + 8 * 3, w))
    || (n == 2 && bc[pc] == op1 && StoredAt(rc.body, pc + 2 + Num(bc, pc + 1) + 8 * 4, w))
    || (n == 3 && bc[pc] == op8 && StoredAt(rc.body, pc + 3 + Num(bc, pc + 1) + 8 * (3 + Num(bc, pc + 2)), w))
    || (n == 4 && bc[pc] == op16
        && StoredAt(rc.body, pc + 4 + Num(bc, pc + 1) + 0x100 * Num(bc, pc + 2) + 8 * (3 + Num(bc, pc + 3)), w))
  }

  // ----- spellings ------------------------------------------------------------------------------

  predicate SpellsConstant(rc: ResolvedCode, pc: nat, n: nat, ins: Instr)
    requires pc + n <= |rc.bytecode|
  {
    var bc := rc.bytecode;
    ins.Const? &&
    (|| (n == 1 && 0x3b <= bc[pc] <= 0x3f && ins.w == Tagged(Num(bc, pc) - 0x3b))
     || (n == 1 && bc[pc] == 0x40 && ins.w == Tagged(10))
     || (n == 2 && bc[pc] == 0x28 && ins.w == Tagged(bc[pc + 1]))
     || (n == 3 && bc[pc] == 0x1b && ins.w == Tagged(Num(bc, pc + 1) + 0x100 * Num(bc, pc + 2)))
     || OpPool(rc, pc, n, 0x55, 0x56, 0x15, 0x14, ins.w))
  }

  predicate SpellsLocal(bc: seq<Byte>, pc: nat, n: nat, ins: Instr)
    requires pc + n <= |bc|
  {
    match ins
    case Local(k) =>
      || (k <= 11 && Op(bc, pc, n, 0x29 + k)) || (k == 12 && Op(bc, pc, n, 0x45))
      || (13 <= k <= 15 && Op(bc, pc, n, 0x49 + (k - 13))) || Op8(bc, pc, n, 0x22, k) || Op16(bc, pc, n, 0x13, k)
    case Indirect(f) => (f <= 5 && Op(bc, pc, n, 0x35 + f)) || Op8(bc, pc, n, 0x23, f)
    case IndirectLocal(k, f) =>
      || (f == 0 && Op8(bc, pc, n, 0xc7, k)) || (f == 1 && Op8(bc, pc, n, 0xc1, k))
      || (k == 0 && f == 0 && Op(bc, pc, n, 0xc6)) || Op88(bc, pc, n, 0x21, k, f)
    case IsTaggedLocal(k) => Op8(bc, pc, n, 0xc2, k)
    case _ => false
  }

  predicate SpellsStack(bc: seq<Byte>, pc: nat, n: nat, ins: Instr)
    requires pc + n <= |bc|
  {
    match ins
    case NoOp => Op(bc, pc, n, 0x52)
    case StackSize(k) => Op16(bc, pc, n, 0xfc, k)
    case Reset(k) => (k == 1 && Op(bc, pc, n, 0x50)) || (k == 2 && Op(bc, pc, n, 0x51)) || Op8(bc, pc, n, 0x26, k)
    case ResetR(k) => (1 <= k <= 3 && Op(bc, pc, n, 0x64 + (k - 1))) || Op8(bc, pc, n, 0x27, k)
    case SetStackVal(k) => Op8(bc, pc, n, 0x25, k)
    case StackContainer(k) => Op8(bc, pc, n, 0x0e, k)
    case _ => false
  }

  /** A jump forward over `target - (pc + n)` bytes, in the short or the long form. */
  predicate Forward(bc: seq<Byte>, pc: nat, n: nat, short: int, long: int, target: nat)
    requires pc + n <= |bc|
  {
    Op8(bc, pc, n, short, target - (pc + 2)) || Op16(bc, pc, n, long, target - (pc + 3))
  }

  predicate SpellsJump(bc: seq<Byte>, pc: nat, n: nat, ins: Instr)
    requires pc + n <= |bc|
  {
    match ins
    case Jump(t) => Forward(bc, pc, n, 0x02, 0xf7, t)
    case JumpBack(t) => Op8(bc, pc, n, 0x1e, pc - t) || Op16(bc, pc, n, 0x20, pc - t)
    case JumpIf(onFalse, t) => if onFalse then Forward(bc, pc, n, 0x03, 0xf8, t) else Forward(bc, pc, n, 0x46, 0x47, t)
    case JumpNeqLocal(k, want, indirect, t) =>
      n == 4 && bc[pc] == (if indirect then 0xc3 else 0xc5) && bc[pc + 1] == k && bc[pc + 2] == want && bc[pc + 3] == t - (pc + 4)
    case JumpTaggedLocal(k, t) => Op88(bc, pc, n, 0xc4, k, t - (pc + 3))
    case _ => false
  }

  predicate SpellsCall(rc: ResolvedCode, pc: nat, n: nat, ins: Instr)
    requires pc + n <= |rc.bytecode|
  {
    match ins
    case Return(k) =>
      || (1 <= k <= 3 && Op(rc.bytecode, pc, n, 0x42 + (k - 1)))
      || Op8(rc.bytecode, pc, n, 0x1f, k) || Op16(rc.bytecode, pc, n, 0x0d, k)
    case CallClosure => Op(rc.bytecode, pc, n, 0x0c)
    case CallLocal(k) => Op8(rc.bytecode, pc, n, 0x16, k)
    case CallConst(w) => OpPool(rc, pc, n, 0x57, 0x58, 0x17, 0x18, w)
    case _ => false
  }

  predicate SpellsHeap(bc: seq<Byte>, pc: nat, n: nat, ins: Instr)
    requires pc + n <= |bc|
  {
    match ins
    case LoadMl(kind) => Op(bc, pc, n, if kind.LoadWord? then 0x04 else if kind.LoadByte? then 0xdc else 0x08)
    case StoreMl(untagged) => Op(bc, pc, n, if untagged then 0x09 else 0x05)
    case CellLength => Op(bc, pc, n, 0x93)
    case CellFlags => Op(bc, pc, n, 0x94)
    case Tuple(k) => (2 <= k <= 4 && Op(bc, pc, n, 0x69 + (k - 2))) || Op8(bc, pc, n, 0x68, k)
    case MakeClosure(k) => Op8(bc, pc, n, 0xd0, k)
    case AllocRef => Op(bc, pc, n, 0x06)
    case AllocWordMemory => Op(bc, pc, n, 0xda)
    case AllocByteMem => Op(bc, pc, n, 0xbd)
    case _ => false
  }

  /** The byte of an operation on the two topmost words, or on the topmost. */
  function ArithByte(ins: Instr): Option<int> {
    match ins
    case Fixed(op) => Some(match op { case FAdd => 0xaa case FSub => 0xab case FMul => 0xac })
    case FixedDivide(op) => Some(if op.Quot? then 0xad else 0xae)
    case WordDivide(op) => Some(if op.WDiv? then 0xb4 else 0xb5)
    case WordArith(op) =>
      Some(match op {
        case WAdd => 0xb1 case WSub => 0xb2 case WMul => 0xb3
        case WBit(bit) => (match bit { case And => 0xb7 case Or => 0xb8 case Xor => 0xb9 })
        case WShl => 0xba case WShrLog => 0xbb
      })
    case Comparison(cmp) =>
      Some(match cmp {
        case Eq => 0xa0 case LtS => 0xa2 case LtU => 0xa3 case LeS => 0xa4 case LeU => 0xa5
        case GtS => 0xa6 case GtU => 0xa7 case GeS => 0xa8 case GeU => 0xa9
      })
    case NotBoolean => Some(0x91)
    case IsTaggedTop => Some(0x92)
    case _ => None
  }

  predicate SpellsArith(bc: seq<Byte>, pc: nat, n: nat, ins: Instr)
    requires pc + n <= |bc|
  {
    ArithByte(ins).Some? && Op(bc, pc, n, ArithByte(ins).value)
  }

  /** The `n` bytes at `pc` are the instruction. */
  predicate Spells(rc: ResolvedCode, pc: nat, n: nat, ins: Instr)
    requires pc + n <= |rc.bytecode|
  {
    || SpellsConstant(rc, pc, n, ins) || SpellsLocal(rc.bytecode, pc, n, ins) || SpellsStack(rc.bytecode, pc, n, ins)
    || SpellsJump(rc.bytecode, pc, n, ins) || SpellsCall(rc, pc, n, ins) || SpellsHeap(rc.bytecode, pc, n, ins)
    || SpellsArith(rc.bytecode, pc, n, ins)
  }

  // ----- each kind of opcode ----------------------------------------------------------------------

  predicate Whole(bc: seq<Byte>, pc: nat, n: nat) { n > 0 && pc + n <= |bc| }

  lemma LocalLengths(bc: seq<Byte>, pc: nat)
    requires pc < |bc| && IsLocalOp(bc[pc])
    ensures LengthAt(bc, pc) ==
      if bc[pc] in {LOCAL_W, INDIRECT_LOCAL_BB} then 3
      else if bc[pc] in {LOCAL_B, INDIRECT_B, IS_TAGGED_LOCAL_B, INDIRECT_LOCAL_B0, INDIRECT_LOCAL_B1} then 2 else 1
  {
  }

  lemma LocalSpelled(bc: seq<Byte>, pc: nat, n: nat, ins: Instr)
    requires Whole(bc, pc, n)
    ensures SpellsLocal(bc, pc, n, ins) ==> IsLocalOp(bc[pc])
    ensures IsLocalOp(bc[pc]) ==> (n == LengthAt(bc, pc) && DecodeLocal(bc, pc) == Some(ins) <==> SpellsLocal(bc, pc, n, ins))
  {
    if IsLocalOp(bc[pc]) {
      LocalLengths(bc, pc);
    }
  }

  lemma StackSpelled(bc: seq<Byte>, pc: nat, n: nat, ins: Instr)
    requires Whole(bc, pc, n)
    ensures SpellsStack(bc, pc, n, ins) ==> IsStackOp(bc[pc])
    ensures IsStackOp(bc[pc]) ==> (n == LengthAt(bc, pc) && DecodeStack(bc, pc) == Some(ins) <==> SpellsStack(bc, pc, n, ins))
  {
  }

  lemma HeapLengths(bc: seq<Byte>, pc: nat)
    requires pc < |bc| && IsHeapOp(bc[pc])
    ensures LengthAt(bc, pc) == if bc[pc] in {TUPLE_B, CLOSURE_B} then 2 else 1
  {
  }

  lemma HeapSpelled(bc: seq<Byte>, pc: nat, n: nat, ins: Instr)
    requires Whole(bc, pc, n)
    ensures SpellsHeap(bc, pc, n, ins) ==> IsHeapOp(bc[pc])
    ensures IsHeapOp(bc[pc]) ==> (n == LengthAt(bc, pc) && DecodeHeap(bc, pc) == Some(ins) <==> SpellsHeap(bc, pc, n, ins))
  {
    if IsHeapOp(bc[pc]) {
      HeapLengths(bc, pc);
    }
  }

  lemma ArithLengths(bc: seq<Byte>, pc: nat)
    requires pc < |bc| && IsArithOp(bc[pc])
    ensures LengthAt(bc, pc) == 1
  {
  }

  lemma ArithBytes(op: Byte, ins: Instr)
    ensures DecodeArith(op) == Some(ins) <==> ArithByte(ins) == Some(op as int)
  {
    if DecodeArith(op) == Some(ins) {
      ByteOfArith(op);
    }
    if ArithByte(ins) == Some(op as int) {
      ArithOfByte(ins);
    }
  }

  lemma ByteOfArith(op: Byte)
    requires DecodeArith(op).Some?
    ensures ArithByte(DecodeArith(op).value) == Some(op as int)
  {
  }

  lemma ArithOfByte(ins: Instr)
    requires ArithByte(ins).Some?
    ensures DecodeArith(ArithByte(ins).value) == Some(ins)
  {
  }

  lemma ArithSpelled(bc: seq<Byte>, pc: nat, n: nat, ins: Instr)
    requires Whole(bc, pc, n)
    ensures SpellsArith(bc, pc, n, ins) ==> IsArithOp(bc[pc])
    ensures IsArithOp(bc[pc]) ==> (n == LengthAt(bc, pc) && DecodeArith(bc[pc]) == Some(ins) <==> SpellsArith(bc, pc, n, ins))
  {
    ArithBytes(bc[pc], ins);
    ArithLowered(bc[pc]);
    if IsArithOp(bc[pc]) {
      ArithLengths(bc, pc);
    }
  }

  // ----- pool words ---------------------------------------------------------------------------------

  lemma WordStored(body: seq<Byte>, at: nat, w: Word)
    requires at + 8 <= |body|
    ensures LittleEndian(body[at..at + 8]) == w <==> StoredAt(body, at, w)
  {
    var e := body[at..at + 8];
    assert e[1..] == body[at + 1..at + 8] && e[2..] == body[at + 2..at + 8];
    EndianStep(body, at, at + 8);
    EndianStep(body, at + 1, at + 8);
    EndianStep(body, at + 2, at + 8);
    EndianStep(body, at + 3, at + 8);
    EndianStep(body, at + 4, at + 8);
    EndianStep(body, at + 5, at + 8);
    EndianStep(body, at + 6, at + 8);
    EndianStep(body, at + 7, at + 8);
  }

  lemma {:induction false} EndianStep(body: seq<Byte>, at: nat, to: nat)
    requires at < to <= |body|
    ensures LittleEndian(body[at..to]) == Num(body, at) + 256 * LittleEndian(body[at + 1..to])
    ensures at + 1 == to ==> LittleEndian(body[at + 1..to]) == 0
  {
    assert body[at..to][1..] == body[at + 1..to];
  }

  predicate IsConstAddrOp(op: Byte) { op in {CONST_ADDR8_0, CONST_ADDR8_1, CONST_ADDR8_8, CONST_ADDR16_8} }

  lemma PoolLengths(bc: seq<Byte>, pc: nat)
    requires pc < |bc| && (IsConstAddrOp(bc[pc]) || IsCca(bc[pc]))
    ensures LengthAt(bc, pc) ==
      if bc[pc] in {CONST_ADDR16_8, CALL_CONST_ADDR16_8} then 4
      else if bc[pc] in {CONST_ADDR8_8, CALL_CONST_ADDR8_8} then 3 else 2
  {
  }

  /** Where the pool word of a complete instruction lies. */
  function PlaceOf(bc: seq<Byte>, pc: nat, n: nat): int
    requires Whole(bc, pc, n) && 2 <= n <= 4
  {
    if n == 2 then pc + 2 + Num(bc, pc + 1) + 8 * if bc[pc] in {0x55, 0x57} then 3 else 4
    else if n == 3 then pc + 3 + Num(bc, pc + 1) + 8 * (3 + Num(bc, pc + 2))
    else pc + 4 + Num(bc, pc + 1) + 0x100 * Num(bc, pc + 2) + 8 * (3 + Num(bc, pc + 3))
  }

  lemma PoolPlaces(bc: seq<Byte>, pc: nat, n: nat)
    requires Whole(bc, pc, n) && n == LengthAt(bc, pc) && (IsConstAddrOp(bc[pc]) || IsCca(bc[pc]))
    ensures 2 <= n <= 4 && PoolOperands(bc, pc).Some?
    ensures var (off, idx) := PoolOperands(bc, pc).value; pc + n + off + idx * 8 == PlaceOf(bc, pc, n)
  {
    PoolLengths(bc, pc);
  }

  lemma PoolReads(rc: ResolvedCode, pc: nat, at: nat, w: Word)
    requires pc < |rc.bytecode| && PoolOperands(rc.bytecode, pc).Some?
    requires var (off, idx) := PoolOperands(rc.bytecode, pc).value; at == pc + LengthAt(rc.bytecode, pc) + off + idx * 8
    ensures PoolWord(rc, pc) == Some(w) <==> StoredAt(rc.body, at, w)
  {
    if at + 8 <= |rc.body| {
      WordStored(rc.body, at, w);
    }
  }

  lemma PoolForms(rc: ResolvedCode, pc: nat, n: nat, w: Word)
    requires Whole(rc.bytecode, pc, n) && n == LengthAt(rc.bytecode, pc) && 2 <= n <= 4
    ensures IsConstAddrOp(rc.bytecode[pc]) ==>
      (OpPool(rc, pc, n, 0x55, 0x56, 0x15, 0x14, w) <==> StoredAt(rc.body, PlaceOf(rc.bytecode, pc, n), w))
    ensures IsCca(rc.bytecode[pc]) ==>
      (OpPool(rc, pc, n, 0x57, 0x58, 0x17, 0x18, w) <==> StoredAt(rc.body, PlaceOf(rc.bytecode, pc, n), w))
  {
    if IsConstAddrOp(rc.bytecode[pc]) || IsCca(rc.bytecode[pc]) {
      PoolLengths(rc.bytecode, pc);
    }
  }

  /** A complete instruction with a pool operand reads the word that its operands point at. */
  lemma PoolSpelled(rc: ResolvedCode, pc: nat, n: nat, w: Word)
    requires Whole(rc.bytecode, pc, n) && n == LengthAt(rc.bytecode, pc)
    ensures IsConstAddrOp(rc.bytecode[pc]) ==> (PoolWord(rc, pc) == Some(w) <==> OpPool(rc, pc, n, 0x55, 0x56, 0x15, 0x14, w))
    ensures IsCca(rc.bytecode[pc]) ==> (PoolWord(rc, pc) == Some(w) <==> OpPool(rc, pc, n, 0x57, 0x58, 0x17, 0x18, w))
  {
    if IsConstAddrOp(rc.bytecode[pc]) || IsCca(rc.bytecode[pc]) {
      PoolPlaces(rc.bytecode, pc, n);
      PoolReads(rc, pc, PlaceOf(rc.bytecode, pc, n), w);
      PoolForms(rc, pc, n, w);
    }
  }

  lemma ConstantLengths(bc: seq<Byte>, pc: nat)
    requires pc < |bc| && IsConstantOp(bc[pc])
    ensures IsConstAddrOp(bc[pc]) ||
      LengthAt(bc, pc) == if bc[pc] == CONST_INT_B then 2 else if bc[pc] == CONST_INT_W then 3 else 1
  {
  }

  lemma {:induction false} ConstantSpelled(rc: ResolvedCode, pc: nat, n: nat, ins: Instr)
    requires Whole(rc.bytecode, pc, n) && ins != Truncated
    ensures SpellsConstant(rc, pc, n, ins) ==> IsConstantOp(rc.bytecode[pc])
    ensures IsConstantOp(rc.bytecode[pc]) ==>
      (n == LengthAt(rc.bytecode, pc) && DecodeConstant(rc, pc) == Some(ins) <==> SpellsConstant(rc, pc, n, ins))
  {
    var op := rc.bytecode[pc];
    if IsConstAddrOp(op) {
      PoolLengths(rc.bytecode, pc);
      if n == LengthAt(rc.bytecode, pc) && ins.Const? {
        PoolSpelled(rc, pc, n, ins.w);
      }
    } else if IsConstantOp(op) {
      ConstantLengths(rc.bytecode, pc);
    }
  }

  // ----- jumps, returns and calls -------------------------------------------------------------------

  predicate IsJumpOp(op: Byte) {
    op in {JUMP8, JUMP16, JUMP_BACK8, JUMP_BACK16, JUMP8_FALSE, JUMP16_FALSE, JUMP8_TRUE, JUMP16_TRUE, JUMP_NEQ_LOCAL,
     JUMP_NEQ_LOCAL_IND, JUMP_TAGGED_LOCAL}
  }

  lemma JumpLengths(bc: seq<Byte>, pc: nat)
    requires pc < |bc| && IsJumpOp(bc[pc])
    ensures LengthAt(bc, pc) ==
      if bc[pc] in {JUMP_NEQ_LOCAL, JUMP_NEQ_LOCAL_IND} then 4
      else if bc[pc] in {JUMP16, JUMP_BACK16, JUMP16_FALSE, JUMP16_TRUE, JUMP_TAGGED_LOCAL} then 3 else 2
  {
  }

  /** What a complete jump is decoded to, from its target. */
  function Jumping(bc: seq<Byte>, pc: nat): Option<Instr>
    requires pc < |bc| && IsJumpOp(bc[pc])
  {
    match TargetAt(bc, pc)
    case Some(t) => Some(DecodeJump(bc, pc, t))
    case None => Some(Truncated)
  }

  lemma JumpDecoded(rc: ResolvedCode, pc: nat)
    requires pc < |rc.bytecode| && IsJumpOp(rc.bytecode[pc])
    ensures DecodeControl(rc, pc) == Jumping(rc.bytecode, pc)
  {
  }

  lemma ForwardSpelled(bc: seq<Byte>, pc: nat, n: nat, ins: Instr)
    requires Whole(bc, pc, n) && n == LengthAt(bc, pc) && ins != Truncated
    requires bc[pc] in {JUMP8, JUMP16, JUMP8_FALSE, JUMP16_FALSE, JUMP8_TRUE, JUMP16_TRUE}
    ensures Jumping(bc, pc) == Some(ins) <==> SpellsJump(bc, pc, n, ins)
  {
    JumpLengths(bc, pc);
  }

  lemma BackSpelled(bc: seq<Byte>, pc: nat, n: nat, ins: Instr)
    requires Whole(bc, pc, n) && n == LengthAt(bc, pc) && ins != Truncated && bc[pc] in {JUMP_BACK8, JUMP_BACK16}
    ensures Jumping(bc, pc) == Some(ins) <==> SpellsJump(bc, pc, n, ins)
  {
    JumpLengths(bc, pc);
  }

  lemma TestSpelled(bc: seq<Byte>, pc: nat, n: nat, ins: Instr)
    requires Whole(bc, pc, n) && n == LengthAt(bc, pc) && ins != Truncated
    requires bc[pc] in {JUMP_NEQ_LOCAL, JUMP_NEQ_LOCAL_IND, JUMP_TAGGED_LOCAL}
    ensures Jumping(bc, pc) == Some(ins) <==> SpellsJump(bc, pc, n, ins)
  {
    JumpLengths(bc, pc);
  }

  lemma SpelledJump(bc: seq<Byte>, pc: nat, n: nat, ins: Instr)
    requires Whole(bc, pc, n) && SpellsJump(bc, pc, n, ins)
    ensures IsJumpOp(bc[pc]) && n == LengthAt(bc, pc)
  {
    if IsJumpOp(bc[pc]) {
      JumpLengths(bc, pc);
    }
  }

  lemma JumpSpelled(rc: ResolvedCode, pc: nat, n: nat, ins: Instr)
    requires Whole(rc.bytecode, pc, n) && ins != Truncated
    ensures SpellsJump(rc.bytecode, pc, n, ins) ==> IsJumpOp(rc.bytecode[pc])
    ensures IsJumpOp(rc.bytecode[pc]) ==>
      (n == LengthAt(rc.bytecode, pc) && DecodeControl(rc, pc) == Some(ins) <==> SpellsJump(rc.bytecode, pc, n, ins))
  {
    var bc := rc.bytecode;
    if SpellsJump(bc, pc, n, ins) {
      SpelledJump(bc, pc, n, ins);
    }
    if IsJumpOp(bc[pc]) && n == LengthAt(bc, pc) {
      JumpDecoded(rc, pc);
      if bc[pc] in {JUMP_BACK8, JUMP_BACK16} {
        BackSpelled(bc, pc, n, ins);
      } else if bc[pc] in {JUMP_NEQ_LOCAL, JUMP_NEQ_LOCAL_IND, JUMP_TAGGED_LOCAL} {
        TestSpelled(bc, pc, n, ins);
      } else {
        ForwardSpelled(bc, pc, n, ins);
      }
    }
  }

  lemma CallLengths(bc: seq<Byte>, pc: nat)
    requires pc < |bc| && IsControlOp(bc[pc]) && !IsJumpOp(bc[pc]) && !IsCca(bc[pc])
    ensures LengthAt(bc, pc) == if bc[pc] == RETURN_W then 3 else if bc[pc] in {RETURN_B, CALL_LOCAL_B} then 2 else 1
  {
  }

  lemma CcaSpelled(rc: ResolvedCode, pc: nat, n: nat, ins: Instr)
    requires Whole(rc.bytecode, pc, n) && ins != Truncated && IsCca(rc.bytecode[pc])
    ensures n == LengthAt(rc.bytecode, pc) && DecodeControl(rc, pc) == Some(ins) <==> SpellsCall(rc, pc, n, ins)
  {
    PoolLengths(rc.bytecode, pc);
    if n == LengthAt(rc.bytecode, pc) && ins.CallConst? {
      PoolSpelled(rc, pc, n, ins.closure);
    }
  }

  lemma CallSpelled(rc: ResolvedCode, pc: nat, n: nat, ins: Instr)
    requires Whole(rc.bytecode, pc, n) && ins != Truncated
    ensures SpellsCall(rc, pc, n, ins) ==> IsControlOp(rc.bytecode[pc]) && !IsJumpOp(rc.bytecode[pc])
    ensures IsControlOp(rc.bytecode[pc]) && !IsJumpOp(rc.bytecode[pc]) ==>
      (n == LengthAt(rc.bytecode, pc) && DecodeControl(rc, pc) == Some(ins) <==> SpellsCall(rc, pc, n, ins))
  {
    var op := rc.bytecode[pc];
    if IsCca(op) {
      CcaSpelled(rc, pc, n, ins);
    } else if IsControlOp(op) && !IsJumpOp(op) {
      CallLengths(rc.bytecode, pc);
    }
  }

  // ----- the assembler and the decoder ---------------------------------------------------------------

  lemma OneKind(op: Byte)
    ensures IsConstantOp(op) ==> !IsLocalOp(op) && !IsStackOp(op) && !IsControlOp(op) && !IsHeapOp(op) && !IsArithOp(op)
    ensures IsLocalOp(op) ==> !IsStackOp(op) && !IsControlOp(op) && !IsHeapOp(op) && !IsArithOp(op)
    ensures IsStackOp(op) ==> !IsControlOp(op) && !IsHeapOp(op) && !IsArithOp(op)
    ensures IsControlOp(op) ==> !IsHeapOp(op) && !IsArithOp(op)
    ensures IsHeapOp(op) ==> !IsArithOp(op)
    ensures IsJumpOp(op) ==> IsControlOp(op)
  {
  }

  lemma DecodedByKind(rc: ResolvedCode, pc: nat)
    requires pc < |rc.bytecode|
    ensures var op := rc.bytecode[pc];
      DecodeAt(rc, pc) ==
        if IsConstantOp(op) then DecodeConstant(rc, pc) else if IsLocalOp(op) then DecodeLocal(rc.bytecode, pc)
        else if IsStackOp(op) then DecodeStack(rc.bytecode, pc) else if IsControlOp(op) then DecodeControl(rc, pc)
        else if IsHeapOp(op) then DecodeHeap(rc.bytecode, pc) else DecodeArith(op)
  {
    ConstantsLowered(rc, pc);
    LocalsLowered(rc.bytecode, pc);
    StackLowered(rc.bytecode, pc);
    ControlLowered(rc, pc);
    HeapLowered(rc.bytecode, pc);
    ArithLowered(rc.bytecode[pc]);
  }

  /** A complete instruction is decoded as `ins`, and is `n` bytes long, if and only if its
      `n` bytes are one of the spellings of `ins`. */
  lemma DecodesSpelling(rc: ResolvedCode, pc: nat, n: nat, ins: Instr)
    requires Whole(rc.bytecode, pc, n) && ins != Truncated
    ensures n == LengthAt(rc.bytecode, pc) && DecodeAt(rc, pc) == Some(ins) <==> Spells(rc, pc, n, ins)
  {
    var bc := rc.bytecode;
    OneKind(bc[pc]);
    DecodedByKind(rc, pc);
    ConstantSpelled(rc, pc, n, ins);
    LocalSpelled(bc, pc, n, ins);
    StackSpelled(bc, pc, n, ins);
    JumpSpelled(rc, pc, n, ins);
    CallSpelled(rc, pc, n, ins);
    HeapSpelled(bc, pc, n, ins);
    ArithSpelled(bc, pc, n, ins);
    ArithLowered(bc[pc]);
  }

  /** So the spellings are unambiguous: no bytes spell two instructions. */
  lemma OneSpelling(rc: ResolvedCode, pc: nat, n: nat, ins: Instr, n': nat, ins': Instr)
    requires Whole(rc.bytecode, pc, n) && Whole(rc.bytecode, pc, n') && ins != Truncated && ins' != Truncated
    requires Spells(rc, pc, n, ins) && Spells(rc, pc, n', ins')
    ensures n == n' && ins == ins'
  {
    DecodesSpelling(rc, pc, n, ins);
    DecodesSpelling(rc, pc, n', ins');
  }

  // ----- the jump tables of the two translators ---------------------------------------------------------

  /** The scanned branch goes where the decoded jump goes, or on to `after`. */
  predicate SameTargets(ins: Instr, s: Result<S.Scan, S.Fault>, after: nat) {
    if s.Err? then ins == Truncated
    else
      && s.value.Branches? && s.value.targets.Ok? && JumpTarget(ins).Some?
      && s.value.targets.value == if ins.Jump? || ins.JumpBack? then [ins.target] else [ins.target, after]
  }

  lemma JumpsLeave(op: Byte)
    requires IsJumpOp(op)
    ensures S.IsLeaving(op) && !S.IsLocal(op) && !S.IsBinary(op) && !S.HasNoOperand(op)
  {
  }

  lemma ScannedJump(b: S.Body, pc: nat)
    requires pc < |b.bc| && IsJumpOp(b.bc[pc])
    ensures S.IsLeaving(b.bc[pc]) && S.ScanAt(b, pc) == S.ScanLeaving(b, pc)
  {
    JumpsLeave(b.bc[pc]);
  }

  /** Where the region compiler and the per-function translator take a jump to: their tables
      find the same target and the same fall-through, or both none, because the operand is
      cut off or a backward jump would leave the code. */
  lemma JumpsAgree(rc: ResolvedCode, b: S.Body, pc: nat)
    requires b.bc == rc.bytecode && pc < |b.bc| && IsJumpOp(b.bc[pc])
    ensures DecodeAt(rc, pc).Some?
    ensures SameTargets(DecodeAt(rc, pc).value, S.ScanAt(b, pc), pc + LengthAt(b.bc, pc))
  {
    OneKind(b.bc[pc]);
    DecodedByKind(rc, pc);
    JumpLengths(b.bc, pc);
    ScannedJump(b, pc);
    JumpTablesAgree(rc, b, pc);
  }

  lemma JumpTablesAgree(rc: ResolvedCode, b: S.Body, pc: nat)
    requires b.bc == rc.bytecode && pc < |b.bc| && IsJumpOp(b.bc[pc]) && S.IsLeaving(b.bc[pc])
    requires LengthAt(b.bc, pc) ==
      if b.bc[pc] in {JUMP_NEQ_LOCAL, JUMP_NEQ_LOCAL_IND} then 4
      else if b.bc[pc] in {JUMP16, JUMP_BACK16, JUMP16_FALSE, JUMP16_TRUE, JUMP_TAGGED_LOCAL} then 3 else 2
    ensures DecodeControl(rc, pc).Some?
    ensures SameTargets(DecodeControl(rc, pc).value, S.ScanLeaving(b, pc), pc + LengthAt(b.bc, pc))
  {
  }

  /** A jump table that is there in full goes to the offset behind it by default, and for each
      case as far from its own start as the case's two bytes say. */
  lemma {:induction false} TableRead(b: S.Body, pc: nat)
    requires pc + 2 < |b.bc| && b.bc[pc] == 0x0a
    ensures var n := Num(b.bc, pc + 1) + 0x100 * Num(b.bc, pc + 2);
      if pc + 3 + 2 * n <= |b.bc| then
        S.ScanAt(b, pc) == Ok(S.Branches(1, 1, Ok([pc + 3 + 2 * n] + Entries(b.bc, pc + 3, n))))
      else
        S.ScanAt(b, pc).Ok? && S.ScanAt(b, pc).value.Branches? && S.ScanAt(b, pc).value.targets.Err?
  {
    var n := S.Word16(b.bc, pc + 1);
    TableLeaves(b, pc);
    if pc + 3 + 2 * n <= |b.bc| {
      EntriesRead(b.bc, pc + 3, n, 0);
    } else {
      EntriesCut(b.bc, pc + 3, n, 0);
    }
  }

  lemma TableLeaves(b: S.Body, pc: nat)
    requires pc + 2 < |b.bc| && b.bc[pc] == 0x0a
    ensures S.ScanAt(b, pc) == Ok(S.Branches(1, 1, S.CaseAll(b.bc, pc)))
  {
    assert S.IsLeaving(CASE16) && !S.IsLocal(CASE16) && !S.IsBinary(CASE16) && !S.HasNoOperand(CASE16);
    assert S.ScanAt(b, pc) == S.ScanLeaving(b, pc);
  }

  /** The targets of `n` cases of a table. */
  function Entries(bc: seq<Byte>, table: nat, n: nat): seq<nat>
    requires table + 2 * n <= |bc|
  {
    seq(n, i requires 0 <= i < n => table + Num(bc, table + 2 * i) + 0x100 * Num(bc, table + 2 * i + 1))
  }

  lemma {:induction false} EntriesRead(bc: seq<Byte>, table: nat, n: nat, i: nat)
    requires table + 2 * n <= |bc| && i <= n
    ensures S.CaseTargets(bc, table, n, i) == Ok(Entries(bc, table, n)[i..])
    decreases n - i
  {
    if i < n {
      EntriesRead(bc, table, n, i + 1);
      assert Entries(bc, table, n)[i..] == [Entries(bc, table, n)[i]] + Entries(bc, table, n)[i + 1..];
    } else {
      assert Entries(bc, table, n)[i..] == [];
    }
  }

  lemma {:induction false} EntriesCut(bc: seq<Byte>, table: nat, n: nat, i: nat)
    requires table + 2 * n > |bc| && i < n
    ensures S.CaseTargets(bc, table, n, i).Err?
    decreases n - i
  {
    if i + 1 < n {
      EntriesCut(bc, table, n, i + 1);
    }
  }
}
