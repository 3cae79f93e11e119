/** The typing a moving collector relies on: raw data lives in byte objects only, no
    instruction computes on the bits of a pointer, and the words baked into the code
    name nothing that moves. */
module Typing {
  import opened Words
  import opened Arith
  import opened Machine
  import opened Instr

  predicate TaggedSlot(stack: seq<Word>, i: int) {
    0 <= i < |stack| && IsTagged(stack[i])
  }

  predicate WordObjAt(h: Heap, stack: seq<Word>, i: int) {
    0 <= i < |stack| && stack[i] in h && !IsByteObj(h[stack[i]])
  }

  predicate ByteObjAt(h: Heap, stack: seq<Word>, i: int) {
    0 <= i < |stack| && stack[i] in h && IsByteObj(h[stack[i]])
  }

  /** The instruction may run on a heap whose objects move. */
  predicate TypedIns(l: Layout, ins: Instr, stack: seq<Word>, sp: int, h: Heap) {
    match ins
    case Const(v) => !l.Movable(v)
    case CallConst(closure) => !l.Movable(closure)
    case CallClosure => false
    case CallLocal(_) => false
    case Reset(n) => sp + n <= |stack|
    case Indirect(_) => WordObjAt(h, stack, sp)
    case IndirectLocal(k, _) => WordObjAt(h, stack, sp + k)
    case JumpNeqLocal(k, _, indirect, _) => indirect ==> WordObjAt(h, stack, sp + k)
    case LoadMl(kind) =>
      && TaggedSlot(stack, sp)
      && if kind.LoadWord? then WordObjAt(h, stack, sp + 1) else ByteObjAt(h, stack, sp + 1)
    case StoreMl(untagged) =>
      && TaggedSlot(stack, sp + 1)
      && if untagged then TaggedSlot(stack, sp) && ByteObjAt(h, stack, sp + 2) else WordObjAt(h, stack, sp + 2)
    case Fixed(_) => TaggedSlot(stack, sp) && TaggedSlot(stack, sp + 1)
    case FixedDivide(_) => TaggedSlot(stack, sp) && TaggedSlot(stack, sp + 1)
    case WordArith(_) => TaggedSlot(stack, sp) && TaggedSlot(stack, sp + 1)
    case WordDivide(_) => TaggedSlot(stack, sp) && TaggedSlot(stack, sp + 1)
    case Comparison(cmp) => cmp == Eq || (TaggedSlot(stack, sp) && TaggedSlot(stack, sp + 1))
    case MakeClosure(n) => WordObjAt(h, stack, sp + n)
    case AllocWordMemory =>
      && TaggedSlot(stack, sp + 1) && TaggedSlot(stack, sp + 2)
      && (Payload(stack[sp + 1]) % 4 == F_BYTE_OBJ ==> TaggedSlot(stack, sp))
    case AllocByteMem =>
      && TaggedSlot(stack, sp) && TaggedSlot(stack, sp + 1)
      && Payload(stack[sp]) % 4 == F_BYTE_OBJ
    case StackContainer(n) => !l.Movable(Wrap(l.stackBase + 8 * (sp - n)))
    case _ => true
  }
}
