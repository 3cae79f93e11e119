/** The instructions the whole-region translator accepts, with their operands decoded,
    and code objects as tables of decoded instructions. */
module Instr {
  import opened Basics
  import opened Words
  import opened Arith

  datatype LoadKind = LoadWord | LoadByte | LoadUntagged

  datatype Instr =
    | NoOp
    | StackSize(needed: nat)
    | Const(w: Word)
    | Local(k: nat)
    | Indirect(field: nat)
    | IndirectLocal(k: nat, field: nat)
    | Reset(n: nat)
    | ResetR(n: nat)
    | Jump(target: nat)
    | JumpBack(target: nat)
    | JumpIf(onFalse: bool, target: nat)
    | JumpNeqLocal(k: nat, want: Byte, indirect: bool, target: nat)
    | JumpTaggedLocal(k: nat, target: nat)
    | SetStackVal(idx: nat)
    | IsTaggedLocal(k: nat)
    | LoadMl(kind: LoadKind)
    | StoreMl(untagged: bool)
    | CellLength
    | CellFlags
    | Fixed(fop: FixedOp)
    | FixedDivide(dop: DivOp)
    | WordArith(wop: WordOp)
    | WordDivide(wdop: WordDivOp)
    | Comparison(cmp: Cmp)
    | NotBoolean
    | IsTaggedTop
    | Return(n: nat)
    | CallConst(closure: Word)
    | CallClosure
    | CallLocal(k: nat)
    | StackContainer(n: nat)
    | Tuple(n: nat)
    | MakeClosure(n: nat)
    | AllocRef
    | AllocWordMemory
    | AllocByteMem
    /** An opcode of the subset whose operand bytes are missing. */
    | Truncated

  /** An instruction and the offset of the one after it. */
  datatype Fetched = Fetched(ins: Instr, next: nat)

  /** A code object's bytecode: its length, and the instruction that decodes at each
      offset where one does. */
  datatype Function = Function(len: nat, at: map<nat, Fetched>)

  /** The code objects of a region by address, and the code address each constant-pool
      closure names. */
  datatype Program = Program(funcs: map<Word, Function>, codeOf: map<Word, Word>)

  predicate EndsBlock(ins: Instr) {
    ins.Jump? || ins.JumpBack? || ins.JumpIf? || ins.JumpNeqLocal? || ins.JumpTaggedLocal? || ins.Return?
  }

  predicate IsCall(ins: Instr) {
    ins.CallConst? || ins.CallClosure? || ins.CallLocal?
  }

  /** Where an instruction can jump, if it jumps. */
  function JumpTarget(ins: Instr): Option<nat> {
    if ins.Jump? || ins.JumpBack? || ins.JumpIf? || ins.JumpNeqLocal? || ins.JumpTaggedLocal? then Some(ins.target)
    else None
  }
}
