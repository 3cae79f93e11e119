/** The reference: the bytecode interpreter as a small-step machine.

    A call pushes the return address and the closure on the value stack and saves the
    caller's code object on a side stack; a return pops them again.  Each saved frame
    also records where its return address lies, which offset it stands for, and whether
    the call was a static one, which compiled code makes natively: the interpreter keeps
    no such record and no step depends on it; it lets us say which slots hold return
    addresses, and which frames compiled code runs itself. */
module Interp {
  import opened Basics
  import opened Words
  import opened Arith
  import opened Machine
  import opened Instr
  import Typing

  datatype Core = Core(stack: seq<Word>, sp: nat, heap: Heap, allocs: nat)

  datatype Frame = Frame(caller: Word, retSlot: nat, resume: nat, native: bool)

  datatype State = State(code: Word, pc: nat, core: Core, frames: seq<Frame>)

  /** What one instruction does: continue in sequence, jump, or raise.  `NoRoom` is the
      StackOverflow that a push raises on a full stack, told apart from the StackOverflow
      of a stack-size check because compiled code makes only the check.  What an
      instruction has pushed before it ran out of room lies in dead slots and is not
      recorded. */
  datatype Effect = Next(c: Core) | JumpTo(c: Core, target: nat) | Raise(c: Core, exn: Exn) | NoRoom

  // ----- stack primitives -------------------------------------------------------

  function Push(c: Core, w: Word): Option<Core> {
    if c.sp == 0 || c.sp > |c.stack| then None
    else Some(c.(sp := c.sp - 1, stack := c.stack[c.sp - 1 := w]))
  }

  function Pop(c: Core): Option<(Word, Core)> {
    if c.sp >= |c.stack| then None
    else Some((c.stack[c.sp], c.(sp := c.sp + 1)))
  }

  function Peek(c: Core, k: nat): Option<Word> {
    if c.sp + k >= |c.stack| then None else Some(c.stack[c.sp + k])
  }

  function PushNext(c: Core, w: Word): Option<Effect> {
    if c.sp == 0 then Some(NoRoom) else NextAfterPush(c, w)
  }

  function NextAfterPush(c: Core, w: Word): Option<Effect> {
    var c1 :- Push(c, w);
    Some(Next(c1))
  }

  /** Pops `n` values into fields `from + n - 1` down to `from` of the object at `p`. */
  function PopFields(c: Core, p: Word, from: nat, n: nat): Option<Core>
    decreases n
  {
    if n == 0 then Some(c)
    else
      var (v, c1) :- Pop(c);
      var h :- WriteWord(c1.heap, p, from + n - 1, v);
      PopFields(c1.(heap := h), p, from, n - 1)
  }

  function PushZeros(c: Core, n: nat): Option<Core>
    decreases n
  {
    if n == 0 then Some(c)
    else
      var c1 :- Push(c, Tagged(0));
      PushZeros(c1, n - 1)
  }

  function FillWords(h: Heap, p: Word, i: nat, n: nat, v: Word): Option<Heap>
    decreases n - i
  {
    if i >= n then Some(h)
    else
      var h1 :- WriteWord(h, p, i, v);
      FillWords(h1, p, i + 1, n, v)
  }

  function OfOutcome(c: Core, o: Outcome): Option<Effect> {
    match o
    case Value(w) => PushNext(c, w)
    case Overflow => Some(Raise(c, Exn.Overflow))
    case DivZero => Some(Raise(c, DivByZero))
  }

  function Load(kind: LoadKind, h: Heap, obj: Word, index: int): Option<Word> {
    match kind
    case LoadWord => ReadWord(h, obj, index)
    case LoadByte =>
      var b :- ReadByte(h, obj, index);
      Some(Tagged(b))
    case LoadUntagged =>
      var raw :- ReadWord(h, obj, index);
      Some(Tagged(Signed(raw)))
  }

  function ExecLoad(kind: LoadKind, c: Core): Option<Effect> {
    var (index, c1) :- Pop(c);
    var obj :- Peek(c1, 0);
    var v :- Load(kind, c.heap, obj, Payload(index));
    var (_, c2) :- Pop(c1);
    PushNext(c2, v)
  }

  function ExecStore(untagged: bool, c: Core): Option<Effect> {
    var (v, c1) :- Pop(c);
    var (index, c2) :- Pop(c1);
    StoreField(c2, Payload(index), if untagged then Wrap(Payload(v)) else v)
  }

  /** Writes a field of the object on top, which a zero then replaces. */
  function StoreField(c: Core, k: int, v: Word): Option<Effect> {
    var obj :- Peek(c, 0);
    var h :- WriteWord(c.heap, obj, k, v);
    var (_, c1) :- Pop(c);
    PushNext(c1.(heap := h), Tagged(0))
  }

  /** `STACK_CONTAINER_B`: zeros, then the address of the last one pushed. */
  function ExecContainer(w: World, n: nat, c: Core): Option<Effect> {
    if c.sp <= n then Some(NoRoom)
    else
      var c1 :- PushZeros(c, n);
      PushNext(c1, Wrap(w.layout.stackBase + 8 * c1.sp))
  }

  /** `do_tuple`: the top of the stack becomes the last field. */
  function ExecTuple(w: World, n: nat, c: Core): Option<Effect> {
    var r :- Allocate(w, c.heap, c.allocs, n, 0);
    if r.Exhausted? then Some(Raise(c, HeapExhausted))
    else
      var c1 :- PopFields(c.(heap := r.heap, allocs := c.allocs + 1), r.addr, 0, n);
      PushNext(c1, r.addr)
  }

  /** `do_create_closure`: the captures are on top, the closure whose code address is
      copied below them. */
  function ExecClosure(w: World, n: nat, c: Core): Option<Effect> {
    var r :- Allocate(w, c.heap, c.allocs, n + 1, F_CLOSURE_OBJ);
    if r.Exhausted? then Some(Raise(c, HeapExhausted))
    else
      FillClosure(c.(heap := r.heap, allocs := c.allocs + 1), r.addr, n)
  }

  function FillClosure(c: Core, p: Word, n: nat): Option<Effect> {
    var c1 :- PopFields(c, p, 1, n);
    FinishClosure(c1, p)
  }

  /** Copies the source closure's code address, then replaces the source on the stack. */
  function FinishClosure(c: Core, p: Word): Option<Effect> {
    var src :- Peek(c, 0);
    var code :- ReadWord(c.heap, src, 0);
    var h :- WriteWord(c.heap, p, 0, code);
    var (_, c1) :- Pop(c);
    PushNext(c1.(heap := h), p)
  }

  function ExecAllocRef(w: World, c: Core): Option<Effect> {
    var init :- Peek(c, 0);
    var r :- Allocate(w, c.heap, c.allocs, 1, F_MUTABLE_BIT);
    if r.Exhausted? then Some(Raise(c, HeapExhausted))
    else
      var h :- WriteWord(r.heap, r.addr, 0, init);
      var (_, c1) :- Pop(c);
      PushNext(c1.(heap := h, allocs := c.allocs + 1), r.addr)
  }

  function ExecAllocWords(w: World, c: Core): Option<Effect> {
    var length :- Peek(c, 2);
    var (init, c1) :- Pop(c);
    var (flags, c2) :- Pop(c1);
    var r :- Allocate(w, c.heap, c.allocs, Payload(length), Payload(flags));
    if r.Exhausted? then Some(Raise(c, HeapExhausted))
    else
      var h :- FillWords(r.heap, r.addr, 0, Payload(length), init);
      var (_, c3) :- Pop(c2);
      PushNext(c3.(heap := h, allocs := c.allocs + 1), r.addr)
  }

  function ExecAllocBytes(w: World, c: Core): Option<Effect> {
    var (flags, c1) :- Pop(c);
    var length :- Peek(c1, 0);
    var r :- Allocate(w, c.heap, c.allocs, Payload(length), Payload(flags));
    if r.Exhausted? then Some(Raise(c, HeapExhausted))
    else
      var (_, c2) :- Pop(c1);
      PushNext(c2.(heap := r.heap, allocs := c.allocs + 1), r.addr)
  }

  // ----- one instruction -----------------------------------------------------------

  /** Every instruction but calls and returns.  None where the interpreter reports an
      error that no run of trusted bytecode meets, or reads outside an object. */
  function Exec(w: World, ins: Instr, c: Core): Option<Effect> {
    match ins
    case NoOp => Some(Next(c))
    case StackSize(needed) =>
      if c.sp < needed then Some(Raise(c, StackOverflow)) else Some(Next(c))
    case Const(v) => PushNext(c, v)
    case Local(k) =>
      var v :- Peek(c, k);
      PushNext(c, v)
    case Indirect(f) =>
      var (obj, c1) :- Pop(c);
      var v :- ReadWord(c.heap, obj, f);
      PushNext(c1, v)
    case IndirectLocal(k, f) =>
      var obj :- Peek(c, k);
      var v :- ReadWord(c.heap, obj, f);
      PushNext(c, v)
    case Reset(n) =>
      if c.sp + n > |c.stack| then None else Some(Next(c.(sp := c.sp + n)))
    case ResetR(n) =>
      if c.sp + n >= |c.stack| then None
      else Some(Next(c.(sp := c.sp + n, stack := c.stack[c.sp + n := c.stack[c.sp]])))
    case Jump(t) => Some(JumpTo(c, t))
    case JumpBack(t) => Some(JumpTo(c, t))
    case JumpIf(onFalse, t) =>
      var (v, c1) :- Pop(c);
      Some(if (v == Tagged(0)) == onFalse then JumpTo(c1, t) else Next(c1))
    case JumpNeqLocal(k, want, indirect, t) =>
      var v :- Peek(c, k);
      var u :- if indirect then ReadWord(c.heap, v, 0) else Some(v);
      Some(if IsTagged(u) && Payload(u) == want then Next(c) else JumpTo(c, t))
    case JumpTaggedLocal(k, t) =>
      var u :- Peek(c, k);
      Some(if IsTagged(u) then JumpTo(c, t) else Next(c))
    case SetStackVal(idx) =>
      var (v, c1) :- Pop(c);
      if idx == 0 || c1.sp + idx - 1 >= |c1.stack| then None
      else Some(Next(c1.(stack := c1.stack[c1.sp + idx - 1 := v])))
    case IsTaggedLocal(k) =>
      var u :- Peek(c, k);
      PushNext(c, if IsTagged(u) then Tagged(1) else Tagged(0))
    case LoadMl(kind) => ExecLoad(kind, c)
    case StoreMl(untagged) => ExecStore(untagged, c)
    case CellLength =>
      var obj :- Peek(c, 0);
      var lw :- LengthWord(c.heap, obj);
      var (_, c1) :- Pop(c);
      PushNext(c1, Tagged(|c.heap[obj].words|))
    case CellFlags =>
      var obj :- Peek(c, 0);
      var lw :- LengthWord(c.heap, obj);
      var (_, c1) :- Pop(c);
      PushNext(c1, Tagged(c.heap[obj].flags))
    case Fixed(op) =>
      var (x, c1) :- Pop(c);
      var (y, c2) :- Pop(c1);
      OfOutcome(c2, InterpFixed(op, x, y))
    case FixedDivide(op) =>
      var (x, c1) :- Pop(c);
      var (y, c2) :- Pop(c1);
      OfOutcome(c2, InterpFixedDiv(op, x, y))
    case WordArith(op) =>
      var (x, c1) :- Pop(c);
      var (y, c2) :- Pop(c1);
      PushNext(c2, InterpWord(op, x, y))
    case WordDivide(op) =>
      var (x, c1) :- Pop(c);
      var (y, c2) :- Pop(c1);
      OfOutcome(c2, InterpWordDiv(op, x, y))
    case Comparison(cmp) =>
      var (x, c1) :- Pop(c);
      var (y, c2) :- Pop(c1);
      PushNext(c2, if Compare(cmp, x, y) then Tagged(1) else Tagged(0))
    case NotBoolean =>
      var (v, c1) :- Pop(c);
      PushNext(c1, if v == Tagged(0) then Tagged(1) else Tagged(0))
    case IsTaggedTop =>
      var (v, c1) :- Pop(c);
      PushNext(c1, if IsTagged(v) then Tagged(1) else Tagged(0))
    case StackContainer(n) => ExecContainer(w, n, c)
    case Tuple(n) => ExecTuple(w, n, c)
    case MakeClosure(n) => ExecClosure(w, n, c)
    case AllocRef => ExecAllocRef(w, c)
    case AllocWordMemory => ExecAllocWords(w, c)
    case AllocByteMem => ExecAllocBytes(w, c)
    case _ => None
  }

  // ----- calls, returns and runs --------------------------------------------------

  /** `Overrun` is the StackOverflow of a push for which compiled code makes no check; a
      dynamic call goes through the interpreter's own pushes either way. */
  datatype StepResult = Continue(s: State) | Escape(s: State, exn: Exn) | Overrun(s: State)

  function CallOverflow(s: State, native: bool): StepResult {
    if native then Overrun(s) else Escape(s, StackOverflow)
  }

  /** `do_call`: the code object is the closure's first word. */
  function DoCall(p: Program, s: State, native: bool, closure: Word, next: nat): Option<StepResult> {
    var code :- ReadWord(s.core.heap, closure, 0);
    if s.core.sp < 2 then Some(CallOverflow(s, native))
    else
      var c1 :- Push(s.core, Wrap(s.code + next));
      var c2 :- Push(c1, closure);
      if code !in p.funcs then None
      else Some(Continue(State(code, 0, c2, s.frames + [Frame(s.code, c1.sp, next, native)])))
  }

  /** `do_return`: pops result, closure, return address and `n` arguments, then pushes
      the result. */
  function DoReturn(s: State, n: nat): Option<StepResult> {
    var c := s.core;
    var (result, c1) :- Pop(c);
    var (_, c2) :- Pop(c1);
    var (retPc, c3) :- Pop(c2);
    if c3.sp + n > |c3.stack| || s.frames == [] then None
    else
      var c4 :- Push(c3.(sp := c3.sp + n), result);
      var caller := s.frames[|s.frames| - 1].caller;
      Some(Continue(State(caller, ISub(retPc, caller), c4, s.frames[..|s.frames| - 1])))
  }

  function Fetch(p: Program, s: State): Option<Fetched> {
    if s.code in p.funcs && s.pc in p.funcs[s.code].at && p.funcs[s.code].at[s.pc].next <= p.funcs[s.code].len
    then Some(p.funcs[s.code].at[s.pc])
    else None
  }

  function OfEffect(s: State, next: nat, e: Option<Effect>): Option<StepResult> {
    var e :- e;
    match e
    case Next(c) => Some(Continue(s.(core := c, pc := next)))
    case JumpTo(c, t) => Some(Continue(s.(core := c, pc := t)))
    case Raise(c, exn) => Some(Escape(s.(core := c), exn))
    case NoRoom => Some(Overrun(s))
  }

  function CallTop(p: Program, s: State, next: nat): Option<StepResult> {
    var (closure, c1) :- Pop(s.core);
    DoCall(p, s.(core := c1), false, closure, next)
  }

  function CallLocalAt(p: Program, s: State, k: nat, next: nat): Option<StepResult> {
    var closure :- Peek(s.core, k);
    DoCall(p, s, false, closure, next)
  }

  function StepIns(p: Program, w: World, s: State, f: Fetched): Option<StepResult> {
    if f.ins.CallConst? then DoCall(p, s, true, f.ins.closure, f.next)
    else if f.ins.CallClosure? then CallTop(p, s, f.next)
    else if f.ins.CallLocal? then CallLocalAt(p, s, f.ins.k, f.next)
    else if f.ins.Return? then DoReturn(s, f.ins.n)
    else OfEffect(s, f.next, Exec(w, f.ins, s.core))
  }

  // ----- the discipline of compiled code --------------------------------------------

  /** Whether an instruction uses slot `i` as a value: reads it, overwrites it, or pops it. */
  predicate Touches(ins: Instr, i: int, sp: int) {
    match ins
    case Local(k) => i == sp + k
    case IndirectLocal(k, _) => i == sp + k
    case IsTaggedLocal(k) => i == sp + k
    case JumpNeqLocal(k, _, _, _) => i == sp + k
    case JumpTaggedLocal(k, _) => i == sp + k
    case CallLocal(k) => i == sp + k
    case Indirect(_) => i == sp
    case JumpIf(_, _) => i == sp
    case CellLength => i == sp
    case CellFlags => i == sp
    case NotBoolean => i == sp
    case IsTaggedTop => i == sp
    case AllocRef => i == sp
    case CallClosure => i == sp
    case SetStackVal(idx) => i == sp || i == sp + idx
    case LoadMl(_) => sp <= i < sp + 2
    case Fixed(_) => sp <= i < sp + 2
    case FixedDivide(_) => sp <= i < sp + 2
    case WordArith(_) => sp <= i < sp + 2
    case WordDivide(_) => sp <= i < sp + 2
    case Comparison(_) => sp <= i < sp + 2
    case AllocByteMem => sp <= i < sp + 2
    case StoreMl(_) => sp <= i < sp + 3
    case AllocWordMemory => sp <= i < sp + 3
    case Reset(n) => sp <= i < sp + n
    case Tuple(n) => sp <= i < sp + n
    case ResetR(n) => sp <= i <= sp + n
    case MakeClosure(n) => sp <= i <= sp + n
    case _ => false
  }

  /** The interpreter untags only tagged words (`PolyWord::untag` leaves others undefined). */
  predicate UntagsInts(ins: Instr, c: Core) {
    match ins
    case Fixed(_) => TaggedAt(c, 0) && TaggedAt(c, 1)
    case FixedDivide(_) => TaggedAt(c, 0) && TaggedAt(c, 1)
    case LoadMl(_) => TaggedAt(c, 0)
    case StoreMl(untagged) => (untagged ==> TaggedAt(c, 0)) && TaggedAt(c, 1)
    case AllocWordMemory => TaggedAt(c, 1) && TaggedAt(c, 2)
    case AllocByteMem => TaggedAt(c, 0) && TaggedAt(c, 1)
    case _ => true
  }

  predicate TaggedAt(c: Core, k: nat) {
    c.sp + k < |c.stack| && IsTagged(c.stack[c.sp + k])
  }

  /** The instruction does not use a return-address slot as a value. */
  predicate LeavesFrames(ins: Instr, s: State) {
    forall i :: 0 <= i < |s.frames| ==> !Touches(ins, s.frames[i].retSlot, s.core.sp)
  }

  /** A return of `n` arguments finds its return address where the frame layout puts it,
      and discards no other frame's. */
  predicate ReturnInPlace(s: State, n: nat) {
    && s.frames != []
    && s.frames[|s.frames| - 1].retSlot == s.core.sp + 2
    && forall i :: 0 <= i < |s.frames| - 1 ==> s.frames[i].retSlot > s.core.sp + 2 + n
  }

  /** A constant-pool closure still holds the code address it held when the region was
      compiled. */
  predicate NamesItsCode(p: Program, h: Heap, closure: Word) {
    closure in p.codeOf && ReadWord(h, closure, 0) == Some(p.codeOf[closure])
  }

  /** What the SML compiler guarantees of the instruction about to run. */
  predicate Disciplined(p: Program, ins: Instr, s: State) {
    && UntagsInts(ins, s.core)
    && LeavesFrames(ins, s)
    && (ins.Return? ==> ReturnInPlace(s, ins.n))
    && (ins.CallConst? ==> NamesItsCode(p, s.core.heap, ins.closure))
  }

  /** What a run checks of each instruction before it is executed: nothing, the frame
      discipline, or also the typing that a moving collector relies on. */
  datatype Check = Unchecked | Framed | Typed

  predicate Admits(check: Check, p: Program, w: World, ins: Instr, s: State) {
    && (check != Unchecked ==> Disciplined(p, ins, s))
    && (check == Typed ==> Typing.TypedIns(w.layout, ins, s.core.stack, s.core.sp, s.core.heap))
  }

  /** None where the interpreter reports an error, or where the check fails. */
  function Step(check: Check, p: Program, w: World, s: State): Option<StepResult> {
    var f :- Fetch(p, s);
    if Admits(check, p, w, f.ins, s) then StepIns(p, w, s, f) else None
  }

  // ----- runs --------------------------------------------------------------------------

  type Stepper = State -> Option<StepResult>

  function Stepping(check: Check, p: Program, w: World): Stepper {
    s => Step(check, p, w, s)
  }

  datatype Run =
    /** The frame at depth `base` has returned, with `left` steps of the allowance unused. */
    | Done(s: State, left: nat)
    /** An exception, in the state in which it was raised. */
    | Escaped(s: State, exn: Exn)
    /** A StackOverflow from a push. */
    | Overran(s: State)
    | Stuck
    | OutOfSteps

  /** Runs until fewer than `base` frames are left. */
  function RunFrom(step: Stepper, s: State, base: nat, steps: nat): Run
    decreases steps
  {
    if |s.frames| < base then Done(s, steps)
    else if steps == 0 then OutOfSteps
    else
      match step(s)
      case None => Stuck
      case Some(Escape(s', exn)) => Escaped(s', exn)
      case Some(Overrun(s')) => Overran(s')
      case Some(Continue(s')) => RunFrom(step, s', base, steps - 1)
  }
}
