/** Compiled regions: the meaning of the code the whole-region translator emits.

    A compiled function works on the interpreter's own stack through absolute slot
    indices; the stack pointer is the one value handed from block to block.  A word
    loaded into a local value stays as it is when a collection moves the object it names,
    so every lowering below says exactly when it loads.  None is an access outside the
    stack or an object. */
module Region {
  import opened Basics
  import opened Words
  import opened Arith
  import opened Machine
  import opened Instr
  import Interp
  import Typing

  /** The context shared with the interpreter (`ExnCtx`). */
  datatype Ctx = Ctx(handlerSp: int, packet: Option<Exn>, liveSp: int)

  datatype Mem = Mem(stack: seq<Word>, heap: Heap, allocs: nat, polls: nat, ctx: Ctx)

  /** Where one lowered instruction leaves control: the next one with a new stack pointer,
      or a return to the caller with `raised = 1`.  `BadWorld` when the collector or the
      allocator of the run broke its own contract. */
  datatype Low = Cont(m: Mem, sp: int) | Raised(m: Mem) | BadWorld

  // ----- emitted primitives --------------------------------------------------------

  function LoadAt(m: Mem, idx: int): Option<Word> {
    if 0 <= idx < |m.stack| then Some(m.stack[idx]) else None
  }

  function StoreAt(m: Mem, idx: int, w: Word): Option<Mem> {
    if 0 <= idx < |m.stack| then Some(m.(stack := m.stack[idx := w])) else None
  }

  /** Stores `w` at `idx` and continues with the stack pointer there. */
  function StoreCont(m: Mem, idx: int, w: Word): Option<Low> {
    var m1 :- StoreAt(m, idx, w);
    Some(Cont(m1, idx))
  }

  function EmitPush(m: Mem, sp: int, w: Word): Option<Low> { StoreCont(m, sp - 1, w) }

  function EmitRaise(m: Mem, exn: Exn): Low {
    Raised(m.(ctx := m.ctx.(packet := Some(exn))))
  }

  function OfOutcome(m: Mem, idx: int, o: Outcome): Option<Low> {
    match o
    case Value(w) => StoreCont(m, idx, w)
    case Overflow => Some(EmitRaise(m, Exn.Overflow))
    case DivZero => Some(EmitRaise(m, DivByZero))
  }

  // ----- collections ------------------------------------------------------------------

  /** The collector at a point where `live_sp` has been published. */
  function Collect(w: World, m: Mem, g: Option<Move>): Option<Mem> {
    match g
    case None => Some(m)
    case Some(g) =>
      var sp := m.ctx.liveSp;
      if 0 <= sp <= |m.stack| && LegalMove(w.layout, g, m.stack, sp, m.heap) then
        Some(m.(stack := MovedStack(g, m.stack, sp), heap := MovedHeap(g, m.heap)))
      else None
  }

  function Publish(m: Mem, sp: int): Mem { m.(ctx := m.ctx.(liveSp := sp)) }

  /** The poll on a backward jump; none if the collection is not a legal one. */
  function Poll(w: World, m: Mem, sp: int): Option<Mem> {
    match w.pollGc(m.polls)
    case None => Some(m.(polls := m.polls + 1))
    case Some(g) => Collect(w, Publish(m, sp).(polls := m.polls + 1), Some(g))
  }

  datatype Alloc = NewObj(m: Mem, p: Word) | NoSpace(m: Mem) | Illegal

  /** `region_alloc`: publish the stack pointer, maybe collect, then allocate. */
  function RegionAlloc(w: World, m: Mem, sp: int, size: int, flags: int): Alloc {
    match Collect(w, Publish(m, sp), w.allocGc(m.allocs))
    case None => Illegal
    case Some(m1) =>
      match Allocate(w, m1.heap, m1.allocs, size, flags)
      case None => Illegal
      case Some(Exhausted) => NoSpace(m1)
      case Some(Allocated(h, p)) => NewObj(m1.(heap := h, allocs := m1.allocs + 1), p)
  }

  // ----- lowered instructions ------------------------------------------------------------

  /** Stores `stack[top - i]` into field `base + i` for each i from `i` to `n - 1`. */
  function StoreFields(m: Mem, top: int, p: Word, base: nat, i: nat, n: nat): Option<Mem>
    decreases n - i
  {
    if i >= n then Some(m)
    else
      var v :- LoadAt(m, top - i);
      var h :- WriteWord(m.heap, p, base + i, v);
      StoreFields(m.(heap := h), top, p, base, i + 1, n)
  }

  function StoreZeros(m: Mem, lo: int, hi: int): Option<Mem>
    decreases hi - lo
  {
    if lo >= hi then Some(m)
    else
      var m1 :- StoreAt(m, lo, Tagged(0));
      StoreZeros(m1, lo + 1, hi)
  }

  /** The counted loop that fills `p[i..n]`. */
  function FillLoop(h: Heap, p: Word, i: int, n: int, v: Word): Option<Heap>
    decreases n - i
  {
    if i >= n then Some(h)
    else
      var h1 :- WriteWord(h, p, i, v);
      FillLoop(h1, p, i + 1, n, v)
  }

  function LowerTuple(w: World, m: Mem, sp: int, n: nat): Option<Low> {
    var a := RegionAlloc(w, m, sp, n, 0);
    if a.Illegal? then Some(BadWorld)
    else if a.NoSpace? then Some(EmitRaise(a.m, StackOverflow))
    else
      var m1 :- StoreFields(a.m, sp + n - 1, a.p, 0, 0, n);
      StoreCont(m1, sp + n - 1, a.p)
  }

  function LowerClosure(w: World, m: Mem, sp: int, n: nat): Option<Low> {
    var a := RegionAlloc(w, m, sp, n + 1, F_CLOSURE_OBJ);
    if a.Illegal? then Some(BadWorld)
    else if a.NoSpace? then Some(EmitRaise(a.m, StackOverflow))
    else FillClosure(a.m, sp, a.p, n)
  }

  function FillClosure(m: Mem, sp: int, p: Word, n: nat): Option<Low> {
    var m1 :- StoreFields(m, sp + n - 1, p, 1, 0, n);
    var src :- LoadAt(m1, sp + n);
    var code :- ReadWord(m1.heap, src, 0);
    var h :- WriteWord(m1.heap, p, 0, code);
    StoreCont(m1.(heap := h), sp + n, p)
  }

  function LowerAllocRef(w: World, m: Mem, sp: int): Option<Low> {
    var a := RegionAlloc(w, m, sp, 1, F_MUTABLE_BIT);
    if a.Illegal? then Some(BadWorld)
    else if a.NoSpace? then Some(EmitRaise(a.m, StackOverflow))
    else
      var init :- LoadAt(a.m, sp);
      var h :- WriteWord(a.m.heap, a.p, 0, init);
      StoreCont(a.m.(heap := h), sp, a.p)
  }

  /** Length and flags are read before the allocation, the initial value after it. */
  function LowerAllocWords(w: World, m: Mem, sp: int): Option<Low> {
    var lengthW :- LoadAt(m, sp + 2);
    var flagsW :- LoadAt(m, sp + 1);
    AllocWordsOf(w, m, sp, Signed(EmitUntag(lengthW)), Signed(EmitUntag(flagsW)))
  }

  function AllocWordsOf(w: World, m: Mem, sp: int, length: int, flags: int): Option<Low> {
    var a := RegionAlloc(w, m, sp, length, flags);
    if a.Illegal? then Some(BadWorld)
    else if a.NoSpace? then Some(EmitRaise(a.m, StackOverflow))
    else
      var init :- LoadAt(a.m, sp);
      var h :- FillLoop(a.m.heap, a.p, 0, length, init);
      StoreCont(a.m.(heap := h), sp + 2, a.p)
  }

  function LowerAllocBytes(w: World, m: Mem, sp: int): Option<Low> {
    var flagsW :- LoadAt(m, sp);
    var lengthW :- LoadAt(m, sp + 1);
    AllocBytesOf(w, m, sp, Signed(EmitUntag(lengthW)), Signed(EmitUntag(flagsW)))
  }

  function AllocBytesOf(w: World, m: Mem, sp: int, length: int, flags: int): Option<Low> {
    var a := RegionAlloc(w, m, sp, length, flags);
    if a.Illegal? then Some(BadWorld)
    else if a.NoSpace? then Some(EmitRaise(a.m, StackOverflow))
    else StoreCont(a.m, sp + 1, a.p)
  }

  function LowerContainer(w: World, m: Mem, sp: int, n: nat): Option<Low> {
    var m1 :- StoreZeros(m, sp - n, sp);
    EmitPush(m1, sp - n, Wrap(w.layout.stackBase + 8 * (sp - n)))
  }

  /** `LOAD_ML_*`: the index is on top, the object below it. */
  function LowerLoad(kind: LoadKind, m: Mem, sp: int): Option<Low> {
    var indexW :- LoadAt(m, sp);
    var obj :- LoadAt(m, sp + 1);
    var idx := Signed(EmitUntag(indexW));
    var r :-
      match kind {
        case LoadWord => ReadWord(m.heap, obj, idx)
        case LoadByte =>
          var b :- ReadByte(m.heap, obj, idx);
          Some(EmitTag(b))
        case LoadUntagged =>
          var raw :- ReadWord(m.heap, obj, idx);
          Some(EmitTag(raw))
      };
    StoreCont(m, sp + 1, r)
  }

  function LowerStore(untagged: bool, m: Mem, sp: int): Option<Low> {
    var v :- LoadAt(m, sp);
    var indexW :- LoadAt(m, sp + 1);
    StoreField(m, sp + 2, Signed(EmitUntag(indexW)), if untagged then EmitUntag(v) else v)
  }

  function StoreField(m: Mem, at: int, k: int, v: Word): Option<Low> {
    var obj :- LoadAt(m, at);
    var h :- WriteWord(m.heap, obj, k, v);
    StoreCont(m.(heap := h), at, Tagged(0))
  }

  /** The length or the flag byte of a length word. */
  function CellField(length: bool, lw: Word): Word {
    if length then lw % 0x100_0000_0000_0000 else (lw / 0x100_0000_0000_0000) % 256
  }

  function LowerCell(length: bool, m: Mem, sp: int): Option<Low> {
    var obj :- LoadAt(m, sp);
    var lw :- LengthWord(m.heap, obj);
    StoreCont(m, sp, EmitTag(CellField(length, lw)))
  }

  function LowerWordDiv(op: WordDivOp, x: Word, y: Word): Outcome {
    var ax, ay := UShr1(x), UShr1(y);
    if ax == 0 then DivZero
    else Value(SetTag(if op.WDiv? then Quotient(ay, ax) else Remainder(ay, ax)))
  }

  /** The meaning of a lowered instruction that neither ends its block nor calls.
      Untagging an operand that is not tagged is outside the model (None), as it is for
      the interpreter. */
  function Lower(w: World, ins: Instr, m: Mem, sp: int): Option<Low> {
    match ins
    case NoOp => Some(Cont(m, sp))
    case StackSize(needed) =>
      if sp < needed then Some(EmitRaise(m, StackOverflow)) else Some(Cont(m, sp))
    case Const(v) => EmitPush(m, sp, v)
    case Local(k) =>
      var v :- LoadAt(m, sp + k);
      EmitPush(m, sp, v)
    case Indirect(f) =>
      var obj :- LoadAt(m, sp);
      var v :- ReadWord(m.heap, obj, f);
      StoreCont(m, sp, v)
    case IndirectLocal(k, f) =>
      var obj :- LoadAt(m, sp + k);
      var v :- ReadWord(m.heap, obj, f);
      EmitPush(m, sp, v)
    case Reset(n) => Some(Cont(m, sp + n))
    case ResetR(n) =>
      var top :- LoadAt(m, sp);
      StoreCont(m, sp + n, top)
    case SetStackVal(idx) =>
      var v :- LoadAt(m, sp);
      var m1 :- StoreAt(m, sp + 1 + (idx - 1), v);
      Some(Cont(m1, sp + 1))
    case IsTaggedLocal(k) =>
      var v :- LoadAt(m, sp + k);
      EmitPush(m, sp, TagBool(v % 2 != 0))
    case LoadMl(kind) => LowerLoad(kind, m, sp)
    case StoreMl(untagged) => LowerStore(untagged, m, sp)
    case CellLength => LowerCell(true, m, sp)
    case CellFlags => LowerCell(false, m, sp)
    case Fixed(op) =>
      var x :- LoadAt(m, sp);
      var y :- LoadAt(m, sp + 1);
      if !IsTagged(x) || !IsTagged(y) then None else OfOutcome(m, sp + 1, LowerFixed(op, x, y))
    case FixedDivide(op) =>
      var x :- LoadAt(m, sp);
      var y :- LoadAt(m, sp + 1);
      if !IsTagged(x) || !IsTagged(y) then None else OfOutcome(m, sp + 1, LowerFixedDiv(op, x, y))
    case WordArith(op) =>
      var x :- LoadAt(m, sp);
      var y :- LoadAt(m, sp + 1);
      StoreCont(m, sp + 1, RegionWord(op, x, y))
    case WordDivide(op) =>
      var x :- LoadAt(m, sp);
      var y :- LoadAt(m, sp + 1);
      OfOutcome(m, sp + 1, LowerWordDiv(op, x, y))
    case Comparison(cmp) =>
      var x :- LoadAt(m, sp);
      var y :- LoadAt(m, sp + 1);
      StoreCont(m, sp + 1, TagBool(Compare(cmp, x, y)))
    case NotBoolean =>
      var v :- LoadAt(m, sp);
      StoreCont(m, sp, TagBool(v == 1))
    case IsTaggedTop =>
      var v :- LoadAt(m, sp);
      StoreCont(m, sp, TagBool(v % 2 != 0))
    case StackContainer(n) => LowerContainer(w, m, sp, n)
    case Tuple(n) => LowerTuple(w, m, sp, n)
    case MakeClosure(n) => LowerClosure(w, m, sp, n)
    case AllocRef => LowerAllocRef(w, m, sp)
    case AllocWordMemory => LowerAllocWords(w, m, sp)
    case AllocByteMem => LowerAllocBytes(w, m, sp)
    case _ => None
  }

  // ----- blocks and functions ----------------------------------------------------------

  /** One piece of a block.  A block is a sequence of these whose last one, and no other,
      leaves the block. */
  datatype Piece =
    | Straight(ins: Instr)
    | CallNative(callee: Word, closure: Word)
    | CallDynamic(popTop: bool, depth: nat)
    | Goto(target: nat)
    | PollGoto(target: nat)
    | Branch(cond: Instr, taken: nat, fall: nat)
    | Ret(n: nat)

  /** The entry block, and a block per jump target or fall-through offset other than 0. */
  datatype Compiled = Compiled(entry: seq<Piece>, blocks: map<nat, seq<Piece>>)

  /** How a native call ends.  `Returned` is the pair `(new_sp, raised)`; `at` is the stack
      pointer where the last instruction ran, recorded only to say which slots are live
      when an exception escapes. */
  datatype Exit =
    | Returned(m: Mem, newSp: int, raised: bool, at: int)
    | Undefined
    | IllegalWorld
    | OutOfFuel

  datatype Test = Taken(sp: int) | Fall(sp: int)

  /** A conditional branch: which side, and the stack pointer handed over. */
  function BranchTest(cond: Instr, m: Mem, sp: int): Option<Test> {
    if cond.JumpIf? then
      var v :- LoadAt(m, sp);
      Some(if (v == 1) == cond.onFalse then Taken(sp + 1) else Fall(sp + 1))
    else if cond.JumpNeqLocal? then
      var v :- LoadAt(m, sp + cond.k);
      var u :- if cond.indirect then ReadWord(m.heap, v, 0) else Some(v);
      Some(if u != Tagged(cond.want) then Taken(sp) else Fall(sp))
    else if cond.JumpTaggedLocal? then
      var u :- LoadAt(m, sp + cond.k);
      Some(if u % 2 != 0 then Taken(sp) else Fall(sp))
    else None
  }

  /** The frame a native caller builds: a zero in place of the return address, then the
      closure. */
  function EnterFrame(m: Mem, sp: int, closure: Word): Option<Mem> {
    var m1 :- StoreAt(m, sp - 1, 0);
    StoreAt(m1, sp - 2, closure)
  }

  function BlockAt(c: Compiled, off: nat): seq<Piece> {
    if off in c.blocks then c.blocks[off] else []
  }

  /** The typing of the instruction a piece came from; no dynamic call is typed. */
  predicate TypedPiece(w: World, piece: Piece, m: Mem, sp: int) {
    match piece
    case Straight(ins) => Typing.TypedIns(w.layout, ins, m.stack, sp, m.heap)
    case Branch(cond, _, _) => Typing.TypedIns(w.layout, cond, m.stack, sp, m.heap)
    case CallNative(_, closure) => !w.layout.Movable(closure)
    case CallDynamic(_, _) => false
    case _ => true
  }

  /** The dynamic-call trampoline: the interpreter runs the callee on the same stack, with
      a zero return address that makes its return the end of the run. */
  function InterpCall(p: Program, w: World, m: Mem, sp: int, closure: Word, fuel: nat): Exit {
    match ReadWord(m.heap, closure, 0)
    case None => Undefined
    case Some(code) =>
      if sp < 2 then Returned(m.(ctx := m.ctx.(packet := Some(StackOverflow))), sp, true, sp)
      else
        match EnterFrame(m, sp, closure)
        case None => Undefined
        case Some(m1) =>
          var core := Interp.Core(m1.stack, sp - 2, m1.heap, m1.allocs);
          var s := Interp.State(code, 0, core, [Interp.Frame(0, sp - 1, 0, false)]);
          RunExit(m1, Interp.RunFrom(Interp.Stepping(Interp.Unchecked, p, w), s, 1, fuel))
  }

  /** What the trampoline makes of the interpreter's run. */
  function RunExit(m1: Mem, r: Interp.Run): Exit {
    match r
    case Done(s, _) => Returned(WithCore(m1, s.core), s.core.sp, false, s.core.sp)
    case Escaped(s, exn) =>
      var m2 := WithCore(m1, s.core);
      Returned(m2.(ctx := m2.ctx.(packet := Some(TrampolineExn(exn)))), s.core.sp, true, s.core.sp)
    case Overran(s) =>
      var m2 := WithCore(m1, s.core);
      Returned(m2.(ctx := m2.ctx.(packet := Some(StackOverflow))), s.core.sp, true, s.core.sp)
    case Stuck => Undefined
    case OutOfSteps => OutOfFuel
  }

  /** The trampoline knows three errors; any other, heap exhaustion among them, it reports
      as Overflow. */
  function TrampolineExn(e: Exn): Exn { if e == HeapExhausted then Exn.Overflow else e }

  function WithCore(m: Mem, c: Interp.Core): Mem {
    m.(stack := c.stack, heap := c.heap, allocs := c.allocs)
  }

  // ----- running blocks ----------------------------------------------------------------

  /** What a block graph runs on: the region's functions, what its instructions, polls and
      dynamic calls do, and which pieces may run. */
  datatype Env = Env(
    cs: map<Word, Compiled>,
    lower: (Instr, Mem, int) -> Option<Low>,
    test: (Instr, Mem, int) -> Option<Test>,
    poll: (Mem, int) -> Option<Mem>,
    interp: (Mem, int, Word, nat) -> Exit,
    admits: (Piece, Mem, int) -> bool)

  /** The emitted code in the world `w`.  With `typed` a run is undefined at an ill-typed
      instruction. */
  function Emitted(p: Program, cs: map<Word, Compiled>, w: World, typed: bool): Env {
    Env(cs,
      (ins, m, sp) => Lower(w, ins, m, sp),
      (ins, m, sp) => BranchTest(ins, m, sp),
      (m, sp) => Poll(w, m, sp),
      (m, sp, closure: Word, fuel: nat) => InterpCall(p, w, m, sp, closure, fuel),
      (piece, m, sp) => typed ==> TypedPiece(w, piece, m, sp))
  }

  /** Runs the rest of a block of function `f`, and the blocks it leads to. */
  function Run(env: Env, f: Word, code: seq<Piece>, m: Mem, sp: int, fuel: nat): Exit
    decreases fuel, |code|
  {
    if code == [] || f !in env.cs || !env.admits(code[0], m, sp) then Undefined
    else
      match code[0]
      case Straight(ins) =>
        (match env.lower(ins, m, sp)
         case None => Undefined
         case Some(Cont(m1, sp1)) => Run(env, f, code[1..], m1, sp1, fuel)
         case Some(Raised(m1)) => Returned(m1, m1.ctx.handlerSp, true, sp)
         case Some(BadWorld) => IllegalWorld)
      case CallNative(callee, closure) =>
        (match EnterFrame(m, sp, closure)
         case None => Undefined
         case Some(m1) =>
           if fuel == 0 then OutOfFuel
           else
             var r := Call(env, callee, m1, sp - 2, fuel - 1);
             if !r.Returned? then r
             else if r.raised then Returned(r.m, r.m.ctx.handlerSp, true, r.at)
             else Run(env, f, code[1..], r.m, r.newSp, fuel))
      case CallDynamic(popTop, depth) =>
        (match LoadAt(m, if popTop then sp else sp + depth)
         case None => Undefined
         case Some(closure) =>
           var r := env.interp(m, if popTop then sp + 1 else sp, closure, fuel);
           if !r.Returned? then r
           else if r.raised then Returned(r.m, r.m.ctx.handlerSp, true, r.at)
           else Run(env, f, code[1..], r.m, r.newSp, fuel))
      case Goto(t) =>
        if fuel == 0 then OutOfFuel
        else Run(env, f, BlockAt(env.cs[f], t), m, sp, fuel - 1)
      case PollGoto(t) =>
        (match env.poll(m, sp)
         case None => IllegalWorld
         case Some(m1) =>
           if fuel == 0 then OutOfFuel
           else Run(env, f, BlockAt(env.cs[f], t), m1, sp, fuel - 1))
      case Branch(cond, taken, fall) =>
        (match env.test(cond, m, sp)
         case None => Undefined
         case Some(b) =>
           if fuel == 0 then OutOfFuel
           else Run(env, f, BlockAt(env.cs[f], if b.Taken? then taken else fall), m, b.sp, fuel - 1))
      case Ret(n) =>
        (match LoadAt(m, sp)
         case None => Undefined
         case Some(result) =>
           match StoreAt(m, sp + n + 2, result)
           case None => Undefined
           case Some(m1) => Returned(m1, sp + n + 2, false, sp + n + 2))
  }

  /** A native call of a compiled function. */
  function Call(env: Env, f: Word, m: Mem, sp: int, fuel: nat): Exit
    decreases fuel, if f in env.cs then |env.cs[f].entry| + 1 else 0
  {
    if f !in env.cs then Undefined else Run(env, f, env.cs[f].entry, m, sp, fuel)
  }

  /** `dispatch_region`: the interpreter calls a region root. */
  function Dispatch(env: Env, root: Word, m: Mem, sp: int, closure: Word, fuel: nat): Exit {
    match EnterFrame(m, sp, closure)
    case None => Undefined
    case Some(m1) => Call(env, root, m1, sp - 2, fuel)
  }
}
