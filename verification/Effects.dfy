/** The stack effects of the per-function translator's first pass, against what the
    interpreter does.  On the opcodes both models cover, calls and returns apart, an
    interpreter's step is an edge of the depth scan; and so the argument count under which a
    body is accepted is enough for the interpreter itself. */
module Effects {
  import opened Basics
  import opened Words
  import opened Instr
  import opened Opcodes
  import opened Bytecode
  import opened Machine
  import I = Interp
  import S = Stacking
  import D = DepthScan
  import A = Assembler
  import P = Prologue
  import L = Lowering

  function CodeOf(b: S.Body): ResolvedCode { ResolvedCode(b.bc, b.full) }

  // ----- effects of instructions ------------------------------------------------------------------

  /** How many values an instruction takes off the stack. */
  function Pops(ins: Instr): nat {
    match ins
    case Indirect(_) => 1
    case Reset(n) => n
    case ResetR(n) => n + 1
    case SetStackVal(_) => 1
    case LoadMl(_) => 2
    case StoreMl(_) => 3
    case CellLength => 1
    case CellFlags => 1
    case Fixed(_) => 2
    case FixedDivide(_) => 2
    case WordArith(_) => 2
    case WordDivide(_) => 2
    case Comparison(_) => 2
    case NotBoolean => 1
    case IsTaggedTop => 1
    case JumpIf(_, _) => 1
    case Tuple(n) => n
    case MakeClosure(n) => n + 1
    case AllocRef => 1
    case AllocWordMemory => 3
    case AllocByteMem => 2
    case _ => 0
  }

  /** How many values it leaves in their place. */
  function Pushes(ins: Instr): nat {
    if ins.StackContainer? then ins.n + 1
    else if ins.NoOp? || ins.StackSize? || ins.Reset? || ins.SetStackVal? || EndsBlock(ins) then 0
    else 1
  }

  /** How many values it must find. */
  function Needs(ins: Instr): nat {
    if ins.Local? || ins.IndirectLocal? || ins.IsTaggedLocal? || ins.JumpNeqLocal? || ins.JumpTaggedLocal? then ins.k + 1
    else Pops(ins)
  }

  predicate Simple(ins: Instr) { !IsCall(ins) && !ins.Return? && ins != Truncated }

  /** What the interpreter does to the stack pointer, and where it goes on. */
  ghost predicate Moved(ins: Instr, c: I.Core, e: Option<I.Effect>) {
    e.Some? && (e.value.Next? || e.value.JumpTo?) ==>
      && e.value.c.sp + Pushes(ins) == c.sp + Pops(ins)
      && (e.value.JumpTo? ==> JumpTarget(ins) == Some(e.value.target))
      && (e.value.Next? ==> !ins.Jump? && !ins.JumpBack?)
  }

  lemma WordsMove(w: World, ins: Instr, c: I.Core)
    requires L.MovesWords(ins)
    ensures Moved(ins, c, I.Exec(w, ins, c))
  {
  }

  lemma JumpsMove(w: World, ins: Instr, c: I.Core)
    requires EndsBlock(ins)
    ensures Moved(ins, c, I.Exec(w, ins, c))
  {
  }

  lemma ArithMoves(w: World, ins: Instr, c: I.Core)
    requires ins.Fixed? || ins.FixedDivide? || ins.WordArith? || ins.WordDivide?
    ensures Moved(ins, c, I.Exec(w, ins, c))
  {
  }

  lemma TestMoves(w: World, ins: Instr, c: I.Core)
    requires ins.Comparison? || ins.NotBoolean? || ins.IsTaggedTop? || ins.IsTaggedLocal? || ins.CellLength? || ins.CellFlags?
    ensures Moved(ins, c, I.Exec(w, ins, c))
  {
  }

  lemma HeapMoves(w: World, ins: Instr, c: I.Core)
    requires ins.LoadMl? || ins.StoreMl? || ins.AllocRef? || ins.AllocWordMemory? || ins.AllocByteMem?
    ensures Moved(ins, c, I.Exec(w, ins, c))
  {
  }

  lemma TupleMoves(w: World, n: nat, c: I.Core)
    ensures Moved(Tuple(n), c, I.ExecTuple(w, n, c))
  {
    var r := Allocate(w, c.heap, c.allocs, n, 0);
    if r.Some? && r.value.Allocated? {
      var c1 := c.(heap := r.value.heap, allocs := c.allocs + 1);
      if I.PopFields(c1, r.value.addr, 0, n).Some? {
        P.PoppedAbove(c1, r.value.addr, 0, n);
        PushMoves(I.PopFields(c1, r.value.addr, 0, n).value, r.value.addr);
      }
    }
  }

  lemma PushMoves(c: I.Core, v: Word)
    ensures var e := I.PushNext(c, v); e.Some? ==> e.value.NoRoom? || (e.value.Next? && e.value.c.sp + 1 == c.sp)
  {
  }

  lemma ClosureMoves(w: World, n: nat, c: I.Core)
    ensures Moved(MakeClosure(n), c, I.ExecClosure(w, n, c))
  {
    var r := Allocate(w, c.heap, c.allocs, n + 1, F_CLOSURE_OBJ);
    if r.Some? && r.value.Allocated? {
      var c1 := c.(heap := r.value.heap, allocs := c.allocs + 1);
      FillMoves(c1, r.value.addr, n);
      AllocatedThenFilled(w, n, c, r.value.heap, r.value.addr);
    }
  }

  lemma AllocatedThenFilled(w: World, n: nat, c: I.Core, h: Heap, p: Word)
    requires Allocate(w, c.heap, c.allocs, n + 1, F_CLOSURE_OBJ) == Some(Allocated(h, p))
    ensures I.ExecClosure(w, n, c) == I.FillClosure(c.(heap := h, allocs := c.allocs + 1), p, n)
  {
  }

  lemma FillMoves(c: I.Core, p: Word, n: nat)
    ensures Moved(MakeClosure(n), c, I.FillClosure(c, p, n))
  {
    if I.PopFields(c, p, 1, n).Some? {
      var c1 := I.PopFields(c, p, 1, n).value;
      P.PoppedAbove(c, p, 1, n);
      FinishMoves(c1, p);
      FilledThenFinished(c, p, n, c1);
    }
  }

  lemma {:induction false} FilledThenFinished(c: I.Core, p: Word, n: nat, c1: I.Core)
    requires I.PopFields(c, p, 1, n) == Some(c1)
    ensures I.FillClosure(c, p, n) == I.FinishClosure(c1, p)
  {
  }

  lemma FinishMoves(c: I.Core, p: Word)
    ensures var e := I.FinishClosure(c, p); e.Some? && e.value.Next? ==> e.value.c.sp == c.sp
    ensures var e := I.FinishClosure(c, p); e.Some? ==> !e.value.JumpTo?
  {
  }

  lemma ContainerMoves(w: World, n: nat, c: I.Core)
    ensures Moved(StackContainer(n), c, I.ExecContainer(w, n, c))
  {
    if c.sp > n && I.PushZeros(c, n).Some? {
      L.PushZerosFills(c, n);
    }
  }

  /** The interpreter moves the stack pointer as the table says. */
  lemma MovesPointer(w: World, ins: Instr, c: I.Core)
    requires Simple(ins)
    ensures Moved(ins, c, I.Exec(w, ins, c))
  {
    if L.MovesWords(ins) {
      WordsMove(w, ins, c);
    } else if EndsBlock(ins) {
      JumpsMove(w, ins, c);
    } else if ins.Fixed? || ins.FixedDivide? || ins.WordArith? || ins.WordDivide? {
      ArithMoves(w, ins, c);
    } else if L.Computes(ins) || ins.CellLength? || ins.CellFlags? {
      TestMoves(w, ins, c);
    } else if ins.Tuple? {
      TupleMoves(w, ins.n, c);
    } else if ins.MakeClosure? {
      ClosureMoves(w, ins.n, c);
    } else if ins.StackContainer? {
      ContainerMoves(w, ins.n, c);
    } else {
      HeapMoves(w, ins, c);
    }
  }

  /** No instruction uses a slot beyond those it is said to need, SET_STACK_VAL_B apart. */
  lemma TouchesNeeded(ins: Instr, i: int, sp: int)
    requires Simple(ins) && !ins.SetStackVal? && I.Touches(ins, i, sp)
    ensures sp <= i < sp + Needs(ins)
  {
  }

  // ----- effects of opcodes -----------------------------------------------------------------------

  /** Pass 1 knows the sequential instruction's effect. */
  predicate Known(ins: Instr, r: Result<S.Scan, S.Fault>, after: nat) {
    r == Ok(S.Plain(after, Needs(ins), Pushes(ins) - Pops(ins)))
  }

  lemma ScansNone(b: S.Body, pc: nat)
    requires pc < |b.bc| && S.HasNoOperand(b.bc[pc]) && !S.IsLocal(b.bc[pc]) && !S.IsBinary(b.bc[pc])
    ensures S.ScanAt(b, pc) == Ok(S.ScanNoOperand(b.bc[pc], pc))
  {
  }

  lemma ScansOne(b: S.Body, pc: nat)
    requires pc < |b.bc| && S.HasOneByte(b.bc[pc])
    ensures S.ScanAt(b, pc) == if pc + 1 < |b.bc| then Ok(S.ScanOneByte(b.bc[pc], b.bc[pc + 1], pc + 2)) else Err(S.Truncated)
  {
    OneByteOnly(b.bc[pc]);
    assert S.ScanAt(b, pc) == S.ScanOperand(b.bc, pc);
  }

  lemma OneByteOnly(op: Byte)
    requires S.HasOneByte(op)
    ensures !S.IsLocal(op) && !S.IsBinary(op) && !S.HasNoOperand(op) && !S.IsLeaving(op) && !S.IsPool(op)
  {
  }

  lemma ScansTwo(b: S.Body, pc: nat)
    requires pc < |b.bc| && b.bc[pc] in {CONST_INT_W, INDIRECT_LOCAL_BB, LOCAL_W, STACK_SIZE16}
    ensures S.ScanAt(b, pc) == S.ScanOperand(b.bc, pc)
    ensures b.bc[pc] in {LOCAL_W, STACK_SIZE16} ==> S.ScanAt(b, pc).Err?
  {
    TwoBytesOnly(b.bc[pc]);
  }

  lemma TwoBytesOnly(op: Byte)
    requires op in {CONST_INT_W, INDIRECT_LOCAL_BB, LOCAL_W, STACK_SIZE16}
    ensures !S.IsLocal(op) && !S.IsBinary(op) && !S.HasNoOperand(op) && !S.IsLeaving(op) && !S.IsPool(op) && !S.HasOneByte(op)
  {
  }

  lemma PoolOnly(b: S.Body, pc: nat)
    requires pc < |b.bc| && A.IsConstAddrOp(b.bc[pc])
    ensures S.ScanAt(b, pc) == S.ScanPool(b, pc) && S.IsConstAddr(b.bc[pc])
  {
  }

  lemma AddressKnown(b: S.Body, pc: nat)
    requires pc < |b.bc| && A.IsConstAddrOp(b.bc[pc]) && S.ScanAt(b, pc).Ok?
    ensures S.ScanAt(b, pc) == Ok(S.Plain(pc + LengthAt(b.bc, pc), 0, 1))
  {
    PoolOnly(b, pc);
    A.PoolLengths(b.bc, pc);
  }

  lemma ConstantsPush(rc: ResolvedCode, pc: nat)
    requires pc < |rc.bytecode| && IsConstantOp(rc.bytecode[pc])
    ensures DecodeConstant(rc, pc).Some? && (DecodeConstant(rc, pc).value.Const? || DecodeConstant(rc, pc) == Some(Truncated))
  {
  }

  predicate IsShortConst(op: Byte) { CONST_0 <= op <= CONST_4 || op == CONST_10 }

  lemma ShortConst(op: Byte, pc: nat)
    requires IsShortConst(op)
    ensures S.HasNoOperand(op) && !S.IsLocal(op) && !S.IsBinary(op) && S.ScanNoOperand(op, pc) == S.Plain(pc + 1, 0, 1)
  {
  }

  lemma ConstantKnown(b: S.Body, pc: nat)
    requires pc < |b.bc| && IsConstantOp(b.bc[pc]) && S.ScanAt(b, pc).Ok?
    ensures DecodeConstant(CodeOf(b), pc).Some?
    ensures var ins := DecodeConstant(CodeOf(b), pc).value;
      Simple(ins) ==> Known(ins, S.ScanAt(b, pc), pc + LengthAt(b.bc, pc))
  {
    ConstantsPush(CodeOf(b), pc);
    if A.IsConstAddrOp(b.bc[pc]) {
      AddressKnown(b, pc);
    } else {
      A.ConstantLengths(b.bc, pc);
      if b.bc[pc] == CONST_INT_B {
        ScansOne(b, pc);
      } else if b.bc[pc] == CONST_INT_W {
        ScansTwo(b, pc);
      } else {
        ShortConst(b.bc[pc], pc);
        ScansNone(b, pc);
      }
    }
  }

  predicate IsShortLocal(op: Byte) { INDIRECT_0 <= op <= INDIRECT_5 || op == INDIRECT_0_LOCAL_0 }

  lemma ShortLocal(op: Byte, pc: nat)
    requires IsShortLocal(op)
    ensures S.HasNoOperand(op) && !S.IsLocal(op) && !S.IsBinary(op)
    ensures S.ScanNoOperand(op, pc) == S.Plain(pc + 1, 1, if op == INDIRECT_0_LOCAL_0 then 1 else 0)
  {
  }

  lemma LocalOne(op: Byte, n: Byte, next: nat)
    requires op in {LOCAL_B, INDIRECT_B, IS_TAGGED_LOCAL_B, INDIRECT_LOCAL_B0, INDIRECT_LOCAL_B1}
    ensures S.HasOneByte(op)
    ensures S.ScanOneByte(op, n, next) == if op == INDIRECT_B then S.Plain(next, 1, 0) else S.Plain(next, n + 1, 1)
  {
  }

  /** What the decoded instruction is, for the forms of different lengths. */
  lemma LocalDecoded(bc: seq<Byte>, pc: nat)
    requires pc < |bc| && IsLocalOp(bc[pc])
    ensures DecodeLocal(bc, pc).Some?
    ensures var op, ins := bc[pc], DecodeLocal(bc, pc).value;
      && (S.IsLocal(op) ==> ins == Local(S.LocalIndex(op)))
      && (INDIRECT_0 <= op <= INDIRECT_5 ==> ins.Indirect?) && (op == INDIRECT_0_LOCAL_0 ==> ins == IndirectLocal(0, 0))
      && (op == LOCAL_B ==> ins == Local(Imm(bc, pc + 1))) && (op == INDIRECT_B ==> ins.Indirect?)
      && (op == IS_TAGGED_LOCAL_B ==> ins == IsTaggedLocal(Imm(bc, pc + 1)))
      && (op in {INDIRECT_LOCAL_B0, INDIRECT_LOCAL_B1, INDIRECT_LOCAL_BB} ==> ins.IndirectLocal? && ins.k == Imm(bc, pc + 1))
      && (op == LOCAL_W || op == INDIRECT_LOCAL_BB || S.IsLocal(op) || IsShortLocal(op)
          || op in {LOCAL_B, INDIRECT_B, IS_TAGGED_LOCAL_B, INDIRECT_LOCAL_B0, INDIRECT_LOCAL_B1})
  {
  }

  lemma LocalKnown(b: S.Body, pc: nat)
    requires pc < |b.bc| && IsLocalOp(b.bc[pc]) && S.ScanAt(b, pc).Ok?
    ensures DecodeLocal(b.bc, pc).Some? && Simple(DecodeLocal(b.bc, pc).value)
    ensures Known(DecodeLocal(b.bc, pc).value, S.ScanAt(b, pc), pc + LengthAt(b.bc, pc))
  {
    A.LocalLengths(b.bc, pc);
    LocalDecoded(b.bc, pc);
    if b.bc[pc] in {LOCAL_W, INDIRECT_LOCAL_BB} {
      ScansTwo(b, pc);
    } else if IsShortLocal(b.bc[pc]) {
      ShortLocal(b.bc[pc], pc);
      ScansNone(b, pc);
    } else if !S.IsLocal(b.bc[pc]) {
      if pc + 1 < |b.bc| {
        LocalOne(b.bc[pc], b.bc[pc + 1], pc + 2);
      } else {
        LocalOne(b.bc[pc], 0, pc + 2);
      }
      ScansOne(b, pc);
    }
  }

  predicate IsShortStack(op: Byte) { op == NO_OP || op == RESET_1 || op == RESET_2 || RESET_R_1 <= op <= RESET_R_3 }

  lemma ShortStack(bc: seq<Byte>, pc: nat)
    requires pc < |bc| && IsShortStack(bc[pc])
    ensures S.HasNoOperand(bc[pc]) && !S.IsLocal(bc[pc]) && !S.IsBinary(bc[pc])
    ensures DecodeStack(bc, pc).Some? && Simple(DecodeStack(bc, pc).value)
    ensures Known(DecodeStack(bc, pc).value, Ok(S.ScanNoOperand(bc[pc], pc)), pc + 1)
  {
  }

  lemma ShortStackLength(bc: seq<Byte>, pc: nat)
    requires pc < |bc| && IsShortStack(bc[pc])
    ensures LengthAt(bc, pc) == 1
  {
  }

  lemma LongStack(bc: seq<Byte>, pc: nat)
    requires pc + 1 < |bc| && bc[pc] in {STACK_CONTAINER_B, SET_STACK_VAL_B, RESET_B, RESET_R_B}
    ensures S.HasOneByte(bc[pc]) && LengthAt(bc, pc) == 2
    ensures DecodeStack(bc, pc).Some? && Simple(DecodeStack(bc, pc).value)
    ensures Known(DecodeStack(bc, pc).value, Ok(S.ScanOneByte(bc[pc], bc[pc + 1], pc + 2)), pc + 2)
  {
  }

  lemma StackOps(op: Byte)
    requires IsStackOp(op)
    ensures IsShortStack(op) || op == STACK_SIZE16 || op in {STACK_CONTAINER_B, SET_STACK_VAL_B, RESET_B, RESET_R_B}
    ensures op in {STACK_CONTAINER_B, SET_STACK_VAL_B, RESET_B, RESET_R_B} ==> S.HasOneByte(op)
  {
  }

  lemma StackKnown(b: S.Body, pc: nat)
    requires pc < |b.bc| && IsStackOp(b.bc[pc]) && S.ScanAt(b, pc).Ok?
    ensures DecodeStack(b.bc, pc).Some? && Simple(DecodeStack(b.bc, pc).value)
    ensures Known(DecodeStack(b.bc, pc).value, S.ScanAt(b, pc), pc + LengthAt(b.bc, pc))
  {
    StackOps(b.bc[pc]);
    if IsShortStack(b.bc[pc]) {
      ShortStack(b.bc, pc);
      ShortStackLength(b.bc, pc);
      ScansNone(b, pc);
    } else if b.bc[pc] == STACK_SIZE16 {
      ScansTwo(b, pc);
    } else {
      ScansOne(b, pc);
      LongStack(b.bc, pc);
    }
  }

  lemma HeapPlain(op: Byte)
    requires IsHeapOp(op) && op != TUPLE_B && op != CLOSURE_B
    ensures S.HasNoOperand(op) && !S.IsLocal(op) && !S.IsBinary(op)
  {
  }

  predicate IsAccess(op: Byte) {
    op in {LOAD_ML_WORD, LOAD_ML_BYTE, LOAD_UNTAGGED, STORE_ML_WORD, STORE_UNTAGGED, CELL_LENGTH, CELL_FLAGS}
  }

  lemma AccessHeap(bc: seq<Byte>, pc: nat)
    requires pc < |bc| && IsAccess(bc[pc]) && S.HasNoOperand(bc[pc])
    ensures DecodeHeap(bc, pc).Some? && Simple(DecodeHeap(bc, pc).value)
    ensures Known(DecodeHeap(bc, pc).value, Ok(S.ScanNoOperand(bc[pc], pc)), pc + 1)
  {
  }

  lemma AllocHeap(bc: seq<Byte>, pc: nat)
    requires pc < |bc| && IsHeapOp(bc[pc]) && !IsAccess(bc[pc]) && S.HasNoOperand(bc[pc])
    requires bc[pc] != TUPLE_B && bc[pc] != CLOSURE_B
    ensures DecodeHeap(bc, pc).Some? && Simple(DecodeHeap(bc, pc).value)
    ensures Known(DecodeHeap(bc, pc).value, Ok(S.ScanNoOperand(bc[pc], pc)), pc + 1)
  {
  }

  lemma LongHeap(bc: seq<Byte>, pc: nat)
    requires pc + 1 < |bc| && bc[pc] in {TUPLE_B, CLOSURE_B}
    ensures DecodeHeap(bc, pc).Some? && Simple(DecodeHeap(bc, pc).value)
    ensures Known(DecodeHeap(bc, pc).value, Ok(S.ScanOneByte(bc[pc], bc[pc + 1], pc + 2)), pc + 2)
  {
  }

  lemma HeapKnown(b: S.Body, pc: nat)
    requires pc < |b.bc| && IsHeapOp(b.bc[pc]) && S.ScanAt(b, pc).Ok?
    ensures DecodeHeap(b.bc, pc).Some? && Simple(DecodeHeap(b.bc, pc).value)
    ensures Known(DecodeHeap(b.bc, pc).value, S.ScanAt(b, pc), pc + LengthAt(b.bc, pc))
  {
    A.HeapLengths(b.bc, pc);
    if b.bc[pc] in {TUPLE_B, CLOSURE_B} {
      ScansOne(b, pc);
      LongHeap(b.bc, pc);
    } else {
      HeapPlain(b.bc[pc]);
      if IsAccess(b.bc[pc]) {
        AccessHeap(b.bc, pc);
      } else {
        AllocHeap(b.bc, pc);
      }
      ScansNone(b, pc);
    }
  }

  lemma ArithOps(op: Byte, pc: nat)
    requires IsArithOp(op)
    ensures !S.IsLocal(op) && (S.IsBinary(op) <==> op != NOT_BOOLEAN && op != IS_TAGGED)
    ensures !S.IsBinary(op) ==> S.HasNoOperand(op) && S.ScanNoOperand(op, pc) == S.Plain(pc + 1, 1, 0)
  {
  }

  lemma ArithEffects(op: Byte)
    requires IsArithOp(op)
    ensures DecodeArith(op).Some?
    ensures var ins := DecodeArith(op).value;
      Simple(ins) && Pushes(ins) == 1 && Needs(ins) == Pops(ins) == if op == NOT_BOOLEAN || op == IS_TAGGED then 1 else 2
  {
  }

  lemma ArithKnown(b: S.Body, pc: nat)
    requires pc < |b.bc| && IsArithOp(b.bc[pc]) && S.ScanAt(b, pc).Ok?
    ensures DecodeArith(b.bc[pc]).Some? && Simple(DecodeArith(b.bc[pc]).value)
    ensures Known(DecodeArith(b.bc[pc]).value, S.ScanAt(b, pc), pc + LengthAt(b.bc, pc))
  {
    A.ArithLengths(b.bc, pc);
    ArithOps(b.bc[pc], pc);
    ArithEffects(b.bc[pc]);
    if !S.IsBinary(b.bc[pc]) {
      ScansNone(b, pc);
    }
  }

  /** Pass 1 knows the jump's effect and targets. */
  predicate KnownJump(ins: Instr, r: Result<S.Scan, S.Fault>, after: nat) {
    && EndsBlock(ins) && JumpTarget(ins).Some?
    && r == Ok(S.Branches(Needs(ins), Pops(ins), Ok(if ins.Jump? || ins.JumpBack? then [ins.target] else [ins.target, after])))
  }

  lemma TestNeeds(b: S.Body, pc: nat)
    requires pc < |b.bc| && A.IsJumpOp(b.bc[pc]) && S.IsLeaving(b.bc[pc]) && S.ScanLeaving(b, pc).Ok?
    requires DecodeControl(CodeOf(b), pc).Some? && DecodeControl(CodeOf(b), pc) != Some(Truncated)
    ensures var ins, s := DecodeControl(CodeOf(b), pc).value, S.ScanLeaving(b, pc).value;
      EndsBlock(ins) && !ins.Return? && s.Branches? && s.need == Needs(ins) && s.pops == Pops(ins)
  {
  }

  lemma JumpKnown(b: S.Body, pc: nat)
    requires pc < |b.bc| && A.IsJumpOp(b.bc[pc]) && S.ScanAt(b, pc).Ok?
    ensures DecodeAt(CodeOf(b), pc).Some?
    ensures KnownJump(DecodeAt(CodeOf(b), pc).value, S.ScanAt(b, pc), pc + LengthAt(b.bc, pc))
  {
    A.JumpsAgree(CodeOf(b), b, pc);
    A.OneKind(b.bc[pc]);
    A.DecodedByKind(CodeOf(b), pc);
    A.ScannedJump(b, pc);
    TestNeeds(b, pc);
  }

  // ----- steps and runs -----------------------------------------------------------------------------

  /** The instruction at `pc`, which is neither a call nor a return. */
  predicate SimpleAt(b: S.Body, pc: nat) {
    pc < |b.bc| && DecodeAt(CodeOf(b), pc).Some? && Simple(DecodeAt(CodeOf(b), pc).value)
  }

  lemma SimpleControl(rc: ResolvedCode, pc: nat)
    requires pc < |rc.bytecode| && DecodeControl(rc, pc).Some? && Simple(DecodeControl(rc, pc).value)
    ensures A.IsJumpOp(rc.bytecode[pc])
  {
  }

  /** What pass 1 knows of such an instruction. */
  lemma AllKnown(b: S.Body, pc: nat)
    requires SimpleAt(b, pc) && S.ScanAt(b, pc).Ok?
    ensures KnownAt(DecodeAt(CodeOf(b), pc).value, S.ScanAt(b, pc), pc + LengthAt(b.bc, pc))
  {
    var op := b.bc[pc];
    A.OneKind(op);
    A.DecodedByKind(CodeOf(b), pc);
    SupportedIsLowered(CodeOf(b), pc);
    if IsConstantOp(op) {
      ConstantKnown(b, pc);
      ConstantsPush(CodeOf(b), pc);
    } else if IsControlOp(op) {
      SimpleControl(CodeOf(b), pc);
      JumpKnown(b, pc);
    } else {
      OthersKnown(b, pc, DecodeAt(CodeOf(b), pc).value);
    }
  }

  lemma OthersKnown(b: S.Body, pc: nat, ins: Instr)
    requires pc < |b.bc| && S.ScanAt(b, pc).Ok?
    requires IsLocalOp(b.bc[pc]) || IsStackOp(b.bc[pc]) || IsHeapOp(b.bc[pc]) || IsArithOp(b.bc[pc])
    requires IsLocalOp(b.bc[pc]) ==> DecodeLocal(b.bc, pc) == Some(ins)
    requires IsStackOp(b.bc[pc]) ==> DecodeStack(b.bc, pc) == Some(ins)
    requires IsHeapOp(b.bc[pc]) ==> DecodeHeap(b.bc, pc) == Some(ins)
    requires IsArithOp(b.bc[pc]) ==> DecodeArith(b.bc[pc]) == Some(ins)
    ensures KnownAt(ins, S.ScanAt(b, pc), pc + LengthAt(b.bc, pc))
  {
    if IsLocalOp(b.bc[pc]) {
      LocalKnown(b, pc);
    } else if IsStackOp(b.bc[pc]) {
      StackKnown(b, pc);
    } else if IsHeapOp(b.bc[pc]) {
      HeapKnown(b, pc);
    } else {
      ArithKnown(b, pc);
    }
  }

  predicate KnownAt(ins: Instr, r: Result<S.Scan, S.Fault>, after: nat) {
    (!EndsBlock(ins) && Known(ins, r, after)) || KnownJump(ins, r, after)
  }

  /** The simple instructions of a body and where each goes on, by offset. */
  datatype Table = Table(ins: map<nat, Instr>, after: map<nat, nat>)

  function TableOf(b: S.Body): (t: Table)
    ensures forall pc: nat :: pc in t.ins <==> SimpleAt(b, pc)
    ensures forall pc: nat :: pc in t.ins ==> SimpleAt(b, pc) && Listed(b, pc, t)
  {
    Table(map pc: nat | pc < |b.bc| && SimpleAt(b, pc) :: DecodeAt(CodeOf(b), pc).value,
      map pc: nat | pc < |b.bc| :: pc + LengthAt(b.bc, pc))
  }

  predicate Listed(b: S.Body, pc: nat, t: Table)
    requires SimpleAt(b, pc)
  {
    pc in t.ins && t.ins[pc] == DecodeAt(CodeOf(b), pc).value && pc in t.after && t.after[pc] == pc + LengthAt(b.bc, pc)
  }

  type Executor = (Instr, I.Core) -> Option<I.Effect>

  function Executing(w: World): Executor { (ins, c) => I.Exec(w, ins, c) }

  datatype Point = Point(pc: nat, core: I.Core)

  /** The machine goes from one point to the next by a simple instruction. */
  ghost predicate Steps(t: Table, m: Executor, p: Point, q: Point) {
    && p.pc in t.ins && p.pc in t.after
    && (|| (m(t.ins[p.pc], p.core) == Some(I.Next(q.core)) && q.pc == t.after[p.pc])
        || m(t.ins[p.pc], p.core) == Some(I.JumpTo(q.core, q.pc)))
  }

  /** The machine moves the stack pointer as the table of effects says. */
  ghost predicate Moving(m: Executor) {
    forall ins, c :: Simple(ins) ==> Moved(ins, c, m(ins, c))
  }

  /** Pass 1 knows the effects of the instructions in the table. */
  ghost predicate Matches(t: Table, flow: D.Flow) {
    && D.Complete(flow)
    && forall pc :: pc in t.ins ==>
         && pc < flow.len && pc in t.after && Simple(t.ins[pc])
         && (flow.at[pc].Ok? ==> KnownAt(t.ins[pc], flow.at[pc], t.after[pc]))
  }

  lemma ExecMoves(w: World)
    ensures Moving(Executing(w))
  {
    forall ins, c | Simple(ins) ensures Moved(ins, c, Executing(w)(ins, c)) {
      MovesPointer(w, ins, c);
    }
  }

  lemma BodyMatches(b: S.Body)
    ensures Matches(TableOf(b), D.FlowOf(b))
  {
    var t, flow := TableOf(b), D.FlowOf(b);
    forall pc | pc in t.ins
      ensures pc < flow.len && pc in t.after && Simple(t.ins[pc])
      ensures flow.at[pc].Ok? ==> KnownAt(t.ins[pc], flow.at[pc], t.after[pc])
    {
      assert Listed(b, pc, t);
      ListedKnown(b, pc, t, flow);
    }
  }

  lemma ListedKnown(b: S.Body, pc: nat, t: Table, flow: D.Flow)
    requires SimpleAt(b, pc) && Listed(b, pc, t) && flow == D.FlowOf(b)
    ensures Simple(t.ins[pc]) && (flow.at[pc].Ok? ==> KnownAt(t.ins[pc], flow.at[pc], t.after[pc]))
  {
    AtOffset(b, pc, t, flow);
    if flow.at[pc].Ok? {
      AllKnown(b, pc);
    }
  }

  lemma AtOffset(b: S.Body, pc: nat, t: Table, flow: D.Flow)
    requires SimpleAt(b, pc) && Listed(b, pc, t) && flow == D.FlowOf(b)
    ensures flow.at[pc] == S.ScanAt(b, pc) && Simple(t.ins[pc])
  {
  }

  /** A step of the machine is an edge of the depth scan, depths being measured from the
      stack pointer `base` below the arguments. */
  lemma StepGoes(t: Table, m: Executor, flow: D.Flow, p: Point, q: Point, base: nat)
    requires Moving(m) && Matches(t, flow) && Steps(t, m, p, q) && flow.at[p.pc].Ok? && p.core.sp + Needs(t.ins[p.pc]) <= base
    ensures q.core.sp <= base
    ensures D.Goes(flow, D.Config(p.pc, base - p.core.sp), D.Config(q.pc, base - q.core.sp))
  {
    var ins := t.ins[p.pc];
    assert Moved(ins, p.core, m(ins, p.core));
    if EndsBlock(ins) {
      JumpGoes(flow, p.pc, base - p.core.sp, ins, t.after[p.pc], q.pc);
    } else {
      PlainGoes(flow, p.pc, base - p.core.sp, ins, q.pc);
    }
  }

  lemma PlainGoes(flow: D.Flow, pc: nat, depth: nat, ins: Instr, next: nat)
    requires D.Complete(flow) && pc < flow.len && Known(ins, flow.at[pc], next) && depth >= Needs(ins)
    ensures depth + Pushes(ins) >= Pops(ins)
    ensures D.Goes(flow, D.Config(pc, depth), D.Config(next, depth + Pushes(ins) - Pops(ins)))
  {
    assert D.Edges(flow, pc, depth).value[0] == D.Edge(next, depth + Pushes(ins) - Pops(ins), false);
  }

  lemma JumpGoes(flow: D.Flow, pc: nat, depth: nat, ins: Instr, after: nat, next: nat)
    requires D.Complete(flow) && pc < flow.len && KnownJump(ins, flow.at[pc], after) && depth >= Needs(ins)
    requires JumpTarget(ins) == Some(next) || (next == after && !ins.Jump? && !ins.JumpBack?)
    ensures depth >= Pops(ins) && D.Goes(flow, D.Config(pc, depth), D.Config(next, depth - Pops(ins)))
  {
    var es := D.Edges(flow, pc, depth).value;
    assert es[if JumpTarget(ins) == Some(next) then 0 else 1] == D.Edge(next, depth - Pops(ins), true);
  }

  // ----- the frame ------------------------------------------------------------------------------------

  /** The stack holds at least the recorded number of values above `base`. */
  ghost predicate Framed(flow: D.Flow, reached: D.Reached, targets: map<nat, nat>, p: Point, base: nat) {
    && p.pc < flow.len && p.core.sp <= base
    && D.DepthAt(reached, targets, p.pc).Some? && base - p.core.sp >= D.DepthAt(reached, targets, p.pc).value
  }

  /** An edge out of a settled offset, taken with more values than recorded. */
  lemma FramedEdge(flow: D.Flow, reached: D.Reached, targets: map<nat, nat>, start: nat, args: nat, pc: nat, depth: nat,
                   c: D.Config)
    requires D.Complete(flow) && D.Typing(flow, reached, targets, start, args) && pc < flow.len
    requires D.DepthAt(reached, targets, pc).Some? && depth >= D.DepthAt(reached, targets, pc).value
    requires flow.at[pc].Ok? && !flow.at[pc].value.Collapse? && D.Goes(flow, D.Config(pc, depth), c)
    ensures c.pc < flow.len && D.DepthAt(reached, targets, c.pc).Some? && c.depth >= D.DepthAt(reached, targets, c.pc).value
  {
    var d := D.DepthAt(reached, targets, pc).value;
    assert D.Settled(flow, reached, targets, pc);
    var es, ds := D.Edges(flow, pc, depth).value, D.Edges(flow, pc, d).value;
    var e :| e in es && c == D.Config(e.pc, e.depth);
    var i :| 0 <= i < |es| && es[i] == e;
    assert D.EdgeOk(flow, reached, targets, ds[i]);
  }

  lemma NeedsMet(t: Table, flow: D.Flow, reached: D.Reached, targets: map<nat, nat>, start: nat, args: nat, p: Point, base: nat)
    requires Matches(t, flow) && D.Typing(flow, reached, targets, start, args) && Framed(flow, reached, targets, p, base)
    requires p.pc in t.ins
    ensures flow.at[p.pc].Ok? && !flow.at[p.pc].value.Collapse? && p.core.sp + Needs(t.ins[p.pc]) <= base
  {
    assert D.Settled(flow, reached, targets, p.pc);
  }

  lemma FramedStep(t: Table, m: Executor, flow: D.Flow, reached: D.Reached, targets: map<nat, nat>, start: nat, args: nat,
                   p: Point, q: Point, base: nat)
    requires Moving(m) && Matches(t, flow) && D.Typing(flow, reached, targets, start, args)
    requires Framed(flow, reached, targets, p, base) && Steps(t, m, p, q)
    ensures Framed(flow, reached, targets, q, base)
  {
    NeedsMet(t, flow, reached, targets, start, args, p, base);
    StepGoes(t, m, flow, p, q, base);
    FramedEdge(flow, reached, targets, start, args, p.pc, base - p.core.sp, D.Config(q.pc, base - q.core.sp));
  }

  lemma {:induction false} RunFramed(t: Table, m: Executor, flow: D.Flow, reached: D.Reached, targets: map<nat, nat>, start: nat,
                                     args: nat, run: seq<Point>, base: nat, i: nat)
    requires Moving(m) && Matches(t, flow) && D.Typing(flow, reached, targets, start, args)
    requires i < |run| && run[0].pc == start && run[0].core.sp + args == base
    requires forall k :: 0 <= k < i ==> Steps(t, m, run[k], run[k + 1])
    ensures Framed(flow, reached, targets, run[i], base)
    decreases i
  {
    if i > 0 {
      RunFramed(t, m, flow, reached, targets, start, args, run, base, i - 1);
      assert Steps(t, m, run[i - 1], run[i - 1 + 1]);
      FramedStep(t, m, flow, reached, targets, start, args, run[i - 1], run[i], base);
    }
  }

  lemma UsesFrame(ins: Instr, sp: int, base: int)
    requires Simple(ins) && sp + Needs(ins) <= base
    ensures forall slot :: I.Touches(ins, slot, sp) ==> slot < base || ins.SetStackVal?
  {
    forall slot | I.Touches(ins, slot, sp) && !ins.SetStackVal? ensures slot < base {
      TouchesNeeded(ins, slot, sp);
    }
  }

  /** The interpreter, started on a body that pass 1 accepts with the argument count it
      accepts it under, keeps within its frame as long as it neither calls nor returns: it
      never leaves the code, and no instruction uses a slot below the arguments, except
      that pass 1 does not look at the slot which SET_STACK_VAL_B overwrites. */
  lemma {:induction false} RunStaysInFrame(b: S.Body, w: World, reached: D.Reached, targets: map<nat, nat>, start: nat, args: nat,
                                           run: seq<Point>, base: nat, i: nat)
    requires D.Typing(D.FlowOf(b), reached, targets, start, args)
    requires i < |run| && run[0].pc == start && run[0].core.sp + args == base
    requires forall k :: 0 <= k < i ==> Steps(TableOf(b), Executing(w), run[k], run[k + 1])
    ensures run[i].pc < |b.bc| && run[i].core.sp <= base
    ensures run[i].pc in TableOf(b).ins ==>
      var ins := TableOf(b).ins[run[i].pc];
      forall slot :: I.Touches(ins, slot, run[i].core.sp) ==> slot < base || ins.SetStackVal?
  {
    ExecMoves(w);
    BodyMatches(b);
    RunFramed(TableOf(b), Executing(w), D.FlowOf(b), reached, targets, start, args, run, base, i);
    if run[i].pc in TableOf(b).ins {
      NeedsMet(TableOf(b), D.FlowOf(b), reached, targets, start, args, run[i], base);
      UsesFrame(TableOf(b).ins[run[i].pc], run[i].core.sp, base);
    }
  }
}
