/** What the arithmetic and comparison opcodes compute, in terms of the integers their operands
    stand for: from the opcode byte, through the interpreter's step and through the lowered
    code.  Nothing here is said in terms of the functions the two have in common. */
module Meaning {
  import opened Basics
  import opened Words
  import opened Arith
  import opened Machine
  import opened Instr
  import opened Opcodes
  import opened Bytecode
  import A = Assembler
  import I = Interp
  import R = Region

  // ----- the two machines on two tagged operands ------------------------------------------------

  /** The integer `a` lies below the integer `b`, which is on top. */
  predicate Operands(stack: seq<Word>, sp: nat, a: int, b: int) {
    && Representable(a) && Representable(b) && sp + 1 < |stack|
    && stack[sp] == Tagged(b) && stack[sp + 1] == Tagged(a)
  }

  /** The instruction takes both operands and leaves the word `v`. */
  ghost predicate Leaves(e: Option<I.Effect>, c: I.Core, v: Word) {
    c.sp + 1 < |c.stack| && e == Some(I.Next(c.(sp := c.sp + 1, stack := c.stack[c.sp + 1 := v])))
  }

  ghost predicate Raises(e: Option<I.Effect>, c: I.Core, exn: Exn) {
    e == Some(I.Raise(c.(sp := c.sp + 2), exn))
  }

  ghost predicate LowLeaves(low: Option<R.Low>, m: R.Mem, sp: nat, v: Word) {
    sp + 1 < |m.stack| && low == Some(R.Cont(m.(stack := m.stack[sp + 1 := v]), sp + 1))
  }

  ghost predicate LowRaises(low: Option<R.Low>, m: R.Mem, exn: Exn) {
    low == Some(R.Raised(m.(ctx := m.ctx.(packet := Some(exn)))))
  }

  /** Both machines leave the word `v`. */
  ghost predicate BothLeave(w: World, ins: Instr, c: I.Core, m: R.Mem, v: Word) {
    Leaves(I.Exec(w, ins, c), c, v) && LowLeaves(R.Lower(w, ins, m, c.sp), m, c.sp, v)
  }

  ghost predicate BothRaise(w: World, ins: Instr, c: I.Core, m: R.Mem, exn: Exn) {
    Raises(I.Exec(w, ins, c), c, exn) && LowRaises(R.Lower(w, ins, m, c.sp), m, exn)
  }

  /** Both machines are about to run the opcode at `pc` on the integers `a` and `b`. */
  predicate Ready(rc: ResolvedCode, pc: nat, op: Byte, c: I.Core, m: R.Mem, a: int, b: int) {
    && pc < |rc.bytecode| && rc.bytecode[pc] == op && m.stack == c.stack && Operands(c.stack, c.sp, a, b)
  }

  // ----- comparisons ------------------------------------------------------------------------------

  function Truth(b: bool): Word { if b then Tagged(1) else Tagged(0) }

  /** The instruction at `pc` leaves whether `p` holds. */
  ghost predicate Decides(w: World, rc: ResolvedCode, pc: nat, c: I.Core, m: R.Mem, p: bool) {
    && pc < |rc.bytecode| && DecodeAt(rc, pc).Some?
    && BothLeave(w, DecodeAt(rc, pc).value, c, m, Truth(p))
  }

  lemma DecodedArith(rc: ResolvedCode, pc: nat)
    requires pc < |rc.bytecode| && IsArithOp(rc.bytecode[pc])
    ensures DecodeAt(rc, pc) == DecodeArith(rc.bytecode[pc])
  {
    ArithOnly(rc.bytecode[pc]);
    ConstantsLowered(rc, pc);
    LocalsLowered(rc.bytecode, pc);
    StackLowered(rc.bytecode, pc);
    ControlLowered(rc, pc);
    HeapLowered(rc.bytecode, pc);
    ArithLowered(rc.bytecode[pc]);
  }

  lemma ArithOnly(op: Byte)
    requires IsArithOp(op)
    ensures !IsConstantOp(op) && !IsLocalOp(op) && !IsStackOp(op) && !IsControlOp(op) && !IsHeapOp(op)
  {
  }

  lemma BothCompare(w: World, cmp: Cmp, c: I.Core, m: R.Mem, a: int, b: int)
    requires m.stack == c.stack && Operands(c.stack, c.sp, a, b)
    ensures BothLeave(w, Comparison(cmp), c, m, Truth(Compare(cmp, Tagged(b), Tagged(a))))
  {
  }

  /** Tagging keeps the order of integers, and equal words are equal integers. */
  lemma TaggedOrder(a: int, b: int)
    requires Representable(a) && Representable(b)
    ensures Signed(Tagged(a)) == 2 * a + 1 && Signed(Tagged(b)) == 2 * b + 1
    ensures Tagged(a) == Tagged(b) <==> a == b
  {
    WrapSigned(2 * a + 1);
    WrapSigned(2 * b + 1);
  }

  lemma DecidesAs(w: World, rc: ResolvedCode, pc: nat, cmp: Cmp, c: I.Core, m: R.Mem, a: int, b: int)
    requires pc < |rc.bytecode| && IsArithOp(rc.bytecode[pc]) && DecodeArith(rc.bytecode[pc]) == Some(Comparison(cmp))
    requires m.stack == c.stack && Operands(c.stack, c.sp, a, b)
    ensures Decides(w, rc, pc, c, m, Compare(cmp, Tagged(b), Tagged(a)))
  {
    DecodedArith(rc, pc);
    BothCompare(w, cmp, c, m, a, b);
  }

  /** The four signed comparisons and the equality compare the integers, the lower operand on
      the left. */
  lemma SignedComparisons(w: World, rc: ResolvedCode, pc: nat, op: Byte, c: I.Core, m: R.Mem, a: int, b: int)
    requires Ready(rc, pc, op, c, m, a, b)
    ensures op == EQUAL_WORD ==> Decides(w, rc, pc, c, m, a == b)
    ensures op == LESS_SIGNED ==> Decides(w, rc, pc, c, m, a < b)
    ensures op == LESS_EQ_SIGNED ==> Decides(w, rc, pc, c, m, a <= b)
    ensures op == GREATER_SIGNED ==> Decides(w, rc, pc, c, m, a > b)
    ensures op == GREATER_EQ_SIGNED ==> Decides(w, rc, pc, c, m, a >= b)
  {
    TaggedOrder(a, b);
    if op in {EQUAL_WORD, LESS_SIGNED, LESS_EQ_SIGNED, GREATER_SIGNED, GREATER_EQ_SIGNED} {
      DecidesAs(w, rc, pc, DecodeTest(op).value.cmp, c, m, a, b);
    }
  }

  /** The integer as a number below 2^63, the negative ones above the others. */
  function Unsigned63(a: int): int { if a < 0 then a + HALF else a }

  lemma TaggedUnsigned(a: int)
    requires Representable(a)
    ensures Tagged(a) == 2 * Unsigned63(a) + 1
  {
    WrapSmall(2 * a + 1);
  }

  /** The unsigned comparisons compare the upper 63 bits as numbers. */
  lemma UnsignedComparisons(w: World, rc: ResolvedCode, pc: nat, op: Byte, c: I.Core, m: R.Mem, a: int, b: int)
    requires Ready(rc, pc, op, c, m, a, b)
    ensures op == LESS_UNSIGNED ==> Decides(w, rc, pc, c, m, Unsigned63(a) < Unsigned63(b))
    ensures op == LESS_EQ_UNSIGNED ==> Decides(w, rc, pc, c, m, Unsigned63(a) <= Unsigned63(b))
    ensures op == GREATER_UNSIGNED ==> Decides(w, rc, pc, c, m, Unsigned63(a) > Unsigned63(b))
    ensures op == GREATER_EQ_UNSIGNED ==> Decides(w, rc, pc, c, m, Unsigned63(a) >= Unsigned63(b))
  {
    TaggedUnsigned(a);
    TaggedUnsigned(b);
    if op in {LESS_UNSIGNED, LESS_EQ_UNSIGNED, GREATER_UNSIGNED, GREATER_EQ_UNSIGNED} {
      DecidesAs(w, rc, pc, DecodeTest(op).value.cmp, c, m, a, b);
    }
  }

  // ----- division of integers ---------------------------------------------------------------------

  /** `q` and `r` are quotient and remainder of the division of `a` by `b` that cuts the
      quotient off toward zero. */
  predicate Truncates(a: int, b: int, q: int, r: int) {
    && a == q * b + r && Abs(r) < Abs(b) && (r != 0 ==> (r < 0 <==> a < 0)) && Abs(q * b) <= Abs(a)
  }

  /** There is one such division. */
  lemma TruncatesOnce(a: int, b: int, q: int, r: int, q': int, r': int)
    requires b != 0 && Truncates(a, b, q, r) && Truncates(a, b, q', r')
    ensures q == q' && r == r'
  {
    assert (q - q') * b == r' - r;
    assert Abs(r' - r) < Abs(b);
    if q != q' {
      SmallMultiple(q - q', b);
    }
  }

  lemma SmallMultiple(k: int, b: int)
    requires k != 0 && b != 0
    ensures Abs(k * b) >= Abs(b)
  {
    assert Abs(k * b) == Abs(k) * Abs(b);
    MulAtLeast(Abs(b), Abs(k));
  }

  lemma SignedProduct(a: int, b: int, q: int, p: int)
    requires p == q * Abs(b)
    ensures q * b == if b < 0 then 0 - p else p
    ensures (0 - q) * b == if b < 0 then p else 0 - p
  {
  }

  lemma FromMagnitudes(a: int, b: int, q: int, r: int, p: nat, m: nat)
    requires Abs(a) == p + m && m < Abs(b) && q * b == (if a < 0 then 0 - p else p) && r == a - q * b
    ensures Truncates(a, b, q, r)
  {
  }

  lemma Magnitudes(a: int, b: int) returns (q: nat, m: nat)
    requires b != 0
    ensures Abs(a) == q * Abs(b) + m && m < Abs(b)
    ensures TruncDiv(a, b) == if (a < 0) == (b < 0) then q else 0 - q
    ensures TruncRem(a, b) == a - TruncDiv(a, b) * b
  {
    q, m := DivMod(Abs(a), Abs(b));
  }

  lemma DivMod(n: nat, d: nat) returns (q: nat, m: nat)
    requires d > 0
    ensures q == n / d && m == n % d && n == q * d + m && m < d
  {
    q, m := n / d, n % d;
  }

  lemma TruncDivTruncates(a: int, b: int)
    requires b != 0
    ensures Truncates(a, b, TruncDiv(a, b), TruncRem(a, b))
  {
    var q, m := Magnitudes(a, b);
    var p := q * Abs(b);
    SignedProduct(a, b, q, p);
    FromMagnitudes(a, b, TruncDiv(a, b), TruncRem(a, b), p, m);
  }

  lemma Quotients(op: DivOp, a: int, b: int)
    requires Representable(a) && Representable(b)
    ensures IsTagged(Tagged(a)) && IsTagged(Tagged(b))
    ensures InterpFixedDiv(op, Tagged(b), Tagged(a)) == LowerFixedDiv(op, Tagged(b), Tagged(a)) ==
      if b == 0 then DivZero else Value(Tagged(if op.Quot? then TruncDiv(a, b) else TruncRem(a, b)))
  {
    TaggedRoundTrip(a);
    TaggedRoundTrip(b);
    FixedDivExact(op, Tagged(b), Tagged(a));
  }

  lemma BothDivide(w: World, op: DivOp, c: I.Core, m: R.Mem, a: int, b: int)
    requires m.stack == c.stack && Operands(c.stack, c.sp, a, b)
    ensures b == 0 ==> BothRaise(w, FixedDivide(op), c, m, DivByZero)
    ensures b != 0 ==>
      BothLeave(w, FixedDivide(op), c, m, Tagged(if op.Quot? then TruncDiv(a, b) else TruncRem(a, b)))
  {
    Quotients(op, a, b);
    DivideExec(w, op, c, Tagged(b), Tagged(a));
    DivideLow(w, op, m, c.sp, Tagged(b), Tagged(a));
  }

  lemma DivideExec(w: World, op: DivOp, c: I.Core, x: Word, y: Word)
    requires c.sp + 1 < |c.stack| && c.stack[c.sp] == x && c.stack[c.sp + 1] == y
    ensures I.Exec(w, FixedDivide(op), c) == I.OfOutcome(c.(sp := c.sp + 2), InterpFixedDiv(op, x, y))
  {
  }

  lemma DivideLow(w: World, op: DivOp, m: R.Mem, sp: nat, x: Word, y: Word)
    requires sp + 1 < |m.stack| && m.stack[sp] == x && m.stack[sp + 1] == y && IsTagged(x) && IsTagged(y)
    ensures R.Lower(w, FixedDivide(op), m, sp) == R.OfOutcome(m, sp + 1, LowerFixedDiv(op, x, y))
  {
  }

  /** FIXED_QUOT and FIXED_REM leave the quotient and the remainder of the division that cuts
      off toward zero, and raise DivByZero for a zero divisor. */
  lemma FixedDivision(w: World, rc: ResolvedCode, pc: nat, op: Byte, c: I.Core, m: R.Mem, a: int, b: int, q: int, r: int)
    requires Ready(rc, pc, op, c, m, a, b) && op in {FIXED_QUOT, FIXED_REM}
    ensures DecodeAt(rc, pc).Some?
    ensures b == 0 ==> BothRaise(w, DecodeAt(rc, pc).value, c, m, DivByZero)
    ensures b != 0 && Truncates(a, b, q, r) ==>
      BothLeave(w, DecodeAt(rc, pc).value, c, m, if op == FIXED_QUOT then Tagged(q) else Tagged(r))
  {
    DecodedArith(rc, pc);
    BothDivide(w, if op == FIXED_QUOT then Quot else Rem, c, m, a, b);
    if b != 0 && Truncates(a, b, q, r) {
      TruncDivTruncates(a, b);
      TruncatesOnce(a, b, q, r, TruncDiv(a, b), TruncRem(a, b));
    }
  }

  /** On the words themselves, in the interpreter and in the lowered code: what is left are
      integers `q` and `r` that divide `a` by `b` toward zero.  The one quotient that is no
      tagged integer, of -2^62 by -1, wraps to -2^62. */
  lemma FixedDivTruncates(x: Word, y: Word) returns (q: int, r: int)
    requires IsTagged(x) && IsTagged(y) && Payload(x) != 0
    ensures InterpFixedDiv(Quot, x, y) == Value(Tagged(q)) == LowerFixedDiv(Quot, x, y)
    ensures InterpFixedDiv(Rem, x, y) == Value(Tagged(r)) == LowerFixedDiv(Rem, x, y)
    ensures Representable(q) && Representable(r)
    ensures var a, b := Payload(y), Payload(x);
      if a == MIN_TAGGED && b == -1 then q == MIN_TAGGED && r == 0 else Truncates(a, b, q, r)
  {
    UntagReadsPayload(x);
    UntagReadsPayload(y);
    var a, b := Payload(y), Payload(x);
    FixedDivExact(Quot, x, y);
    FixedDivExact(Rem, x, y);
    q, r := TruncDiv(a, b), TruncRem(a, b);
    TruncDivTruncates(a, b);
    QuotientSmall(a, b, q, r);
    if a == MIN_TAGGED && b == -1 {
      q := MIN_TAGGED;
    }
  }

  lemma QuotientSmall(a: int, b: int, q: int, r: int)
    requires Representable(a) && Representable(b) && b != 0 && Truncates(a, b, q, r)
    ensures Representable(r) && if a == MIN_TAGGED && b == -1 then q == -MIN_TAGGED && r == 0 else Representable(q)
  {
    if Abs(b) == 1 {
      assert q * b == if b == 1 then q else -q;
    } else {
      Doubled(q, b);
    }
  }

  lemma Doubled(q: int, b: int)
    requires Abs(b) >= 2
    ensures 2 * Abs(q) <= Abs(q * b)
  {
    assert Abs(q * b) == Abs(q) * Abs(b);
    if q != 0 {
      MulAtLeast(Abs(q), Abs(b) - 1);
      assert Abs(q) * Abs(b) == Abs(q) * (Abs(b) - 1) + Abs(q);
    }
  }

  // ----- addition, subtraction, multiplication --------------------------------------------------

  lemma BothFixed(w: World, op: FixedOp, c: I.Core, m: R.Mem, a: int, b: int, t: int)
    requires m.stack == c.stack && Operands(c.stack, c.sp, a, b) && t == FixedExact(op, b, a)
    ensures Representable(t) ==> BothLeave(w, Fixed(op), c, m, Tagged(t))
    ensures !Representable(t) ==> BothRaise(w, Fixed(op), c, m, Exn.Overflow)
  {
    FixedOutcome(op, a, b, t);
    FixedExec(w, op, c, Tagged(b), Tagged(a));
    FixedLow(w, op, m, c.sp, Tagged(b), Tagged(a));
  }

  lemma FixedExec(w: World, op: FixedOp, c: I.Core, x: Word, y: Word)
    requires c.sp + 1 < |c.stack| && c.stack[c.sp] == x && c.stack[c.sp + 1] == y
    ensures I.Exec(w, Fixed(op), c) == I.OfOutcome(c.(sp := c.sp + 2), InterpFixed(op, x, y))
  {
  }

  lemma FixedLow(w: World, op: FixedOp, m: R.Mem, sp: nat, x: Word, y: Word)
    requires sp + 1 < |m.stack| && m.stack[sp] == x && m.stack[sp + 1] == y && IsTagged(x) && IsTagged(y)
    ensures R.Lower(w, Fixed(op), m, sp) == R.OfOutcome(m, sp + 1, LowerFixed(op, x, y))
  {
  }

  lemma FixedOutcome(op: FixedOp, a: int, b: int, t: int)
    requires Representable(a) && Representable(b) && t == FixedExact(op, b, a)
    ensures IsTagged(Tagged(a)) && IsTagged(Tagged(b))
    ensures InterpFixed(op, Tagged(b), Tagged(a)) == LowerFixed(op, Tagged(b), Tagged(a)) ==
      if Representable(t) then Value(Tagged(t)) else Outcome.Overflow
  {
    TaggedRoundTrip(a);
    TaggedRoundTrip(b);
    FixedArithExact(op, Tagged(b), Tagged(a));
  }

  /** What an opcode of integer arithmetic computes. */
  function IntegerResult(op: Byte, a: int, b: int): int {
    if op == FIXED_ADD then a + b else if op == FIXED_SUB then a - b else a * b
  }

  /** The integer itself where it can be tagged, and Overflow otherwise. */
  lemma FixedArithmetic(w: World, rc: ResolvedCode, pc: nat, op: Byte, c: I.Core, m: R.Mem, a: int, b: int)
    requires Ready(rc, pc, op, c, m, a, b) && op in {FIXED_ADD, FIXED_SUB, FIXED_MULT}
    ensures DecodeAt(rc, pc).Some?
    ensures var t := IntegerResult(op, a, b);
      if -0x4000_0000_0000_0000 <= t < 0x4000_0000_0000_0000
      then BothLeave(w, DecodeAt(rc, pc).value, c, m, Tagged(t))
      else BothRaise(w, DecodeAt(rc, pc).value, c, m, Exn.Overflow)
  {
    DecodedArith(rc, pc);
    assert b * a == a * b;
    BothFixed(w, DecodeArith(op).value.fop, c, m, a, b, IntegerResult(op, a, b));
  }

  // ----- words ------------------------------------------------------------------------------------

  /** The word with the upper 63 bits `n`, tagged. */
  function Word63(n: int): Word
    requires 0 <= n < HALF
  {
    2 * n + 1
  }

  lemma BothWord(w: World, op: WordOp, c: I.Core, m: R.Mem, a: int, b: int, n: int)
    requires m.stack == c.stack && Operands(c.stack, c.sp, a, b)
    requires 0 <= n < HALF && WordPayload(RegionWord(op, Tagged(b), Tagged(a))) == n
    ensures BothLeave(w, WordArith(op), c, m, Word63(n))
  {
    TaggedRoundTrip(a);
    TaggedRoundTrip(b);
    RegionWordIsInterp(op, Tagged(b), Tagged(a));
    WordKeepsTag(op, Tagged(b), Tagged(a));
    assert RegionWord(op, Tagged(b), Tagged(a)) == Word63(n);
  }

  /** Sums, differences and products modulo 2^63. */
  function RingResult(op: Byte, u: int, v: int): int {
    (if op == WORD_ADD then u + v else if op == WORD_SUB then u - v else u * v) % 0x8000_0000_0000_0000
  }

  lemma WordArithmetic(w: World, rc: ResolvedCode, pc: nat, op: Byte, c: I.Core, m: R.Mem, a: int, b: int)
    requires Ready(rc, pc, op, c, m, a, b) && op in {WORD_ADD, WORD_SUB, WORD_MULT}
    ensures DecodeAt(rc, pc).Some?
    ensures BothLeave(w, DecodeAt(rc, pc).value, c, m, Word63(RingResult(op, Unsigned63(a), Unsigned63(b))))
  {
    DecodedArith(rc, pc);
    RingPayload(op, a, b);
    BothWord(w, DecodeArith(op).value.wop, c, m, a, b, RingResult(op, Unsigned63(a), Unsigned63(b)));
  }

  lemma RingPayload(op: Byte, a: int, b: int)
    requires Representable(a) && Representable(b) && op in {WORD_ADD, WORD_SUB, WORD_MULT}
    ensures DecodeArith(op).Some? && DecodeArith(op).value.WordArith?
    ensures WordPayload(RegionWord(DecodeArith(op).value.wop, Tagged(b), Tagged(a))) ==
      RingResult(op, Unsigned63(a), Unsigned63(b))
  {
    TaggedUnsigned(a);
    TaggedUnsigned(b);
    WordRing(Tagged(b), Tagged(a));
  }

  /** Bit `i` of a number. */
  predicate BitAt(n: nat, i: nat) { (n / Pow2(i)) % 2 == 1 }

  lemma HalfBit(n: nat, i: nat)
    ensures BitAt(n, i + 1) <==> BitAt(n / 2, i)
  {
    assert Pow2(i + 1) == 2 * Pow2(i);
    HalvedFirst(n, Pow2(i), 2 * Pow2(i));
  }

  lemma HalvedFirst(n: nat, p: nat, d: nat)
    requires p > 0 && d == 2 * p
    ensures n / d == (n / 2) / p
  {
    var q, r := DivMod(n, d);
    var m := p * q;
    assert q * d == 2 * m;
    HalfQuotient(n / 2, p, q, r / 2);
  }

  lemma HalfQuotient(h: nat, p: nat, q: nat, r: nat)
    requires p > 0 && h == p * q + r && r < p
    ensures h / p == q
  {
    var q', r' := DivMod(h, p);
    assert p * (q - q') == r' - r;
    if q != q' {
      SmallMultiple(q - q', p);
    }
  }

  /** The conjunction, disjunction and exclusive disjunction of two bits. */
  predicate BitResult(op: BitOp, a: bool, b: bool) {
    match op
    case And => a && b
    case Or => a || b
    case Xor => a != b
  }

  lemma LowBit(n: nat)
    ensures BitAt(n, 0) <==> n % 2 == 1
  {
    assert Pow2(0) == 1;
  }

  lemma {:induction false} BitsSplit(op: BitOp, a: nat, b: nat)
    ensures Bits(op, a, b) / 2 == Bits(op, a / 2, b / 2)
    ensures Bits(op, a, b) % 2 == 1 <==> BitResult(op, a % 2 == 1, b % 2 == 1)
  {
  }

  /** The bit operations go bit by bit. */
  lemma {:induction false} BitsAt(op: BitOp, a: nat, b: nat, i: nat)
    ensures BitAt(Bits(op, a, b), i) <==> BitResult(op, BitAt(a, i), BitAt(b, i))
    decreases i
  {
    var n := Bits(op, a, b);
    BitsSplit(op, a, b);
    if i == 0 {
      LowBit(n);
      LowBit(a);
      LowBit(b);
    } else {
      HalfBit(n, i - 1);
      HalfBit(a, i - 1);
      HalfBit(b, i - 1);
      BitsAt(op, a / 2, b / 2, i - 1);
    }
  }

  /** The bits of `n` are those of `a` and `b`, combined. */
  ghost predicate Bitwise(op: BitOp, n: nat, a: nat, b: nat) {
    forall i: nat :: BitAt(n, i) <==> BitResult(op, BitAt(a, i), BitAt(b, i))
  }

  lemma {:induction false} AllBits(op: BitOp, a: nat, b: nat)
    ensures Bitwise(op, Bits(op, a, b), a, b)
  {
    forall i: nat ensures BitAt(Bits(op, a, b), i) <==> BitResult(op, BitAt(a, i), BitAt(b, i)) {
      BitsAt(op, a, b, i);
    }
  }

  lemma BitPayload(op: BitOp, a: int, b: int) returns (n: nat)
    requires Representable(a) && Representable(b)
    ensures Bitwise(op, n, Unsigned63(a), Unsigned63(b))
    ensures n < HALF && WordPayload(RegionWord(WBit(op), Tagged(b), Tagged(a))) == n
  {
    TaggedUnsigned(a);
    TaggedUnsigned(b);
    WordBits(Tagged(b), Tagged(a));
    n := Bits(op, Unsigned63(a), Unsigned63(b));
    AllBits(op, Unsigned63(a), Unsigned63(b));
  }

  /** WORD_AND, WORD_OR and WORD_XOR leave the word whose bits are those of the operands,
      combined. */
  lemma WordBitwise(w: World, rc: ResolvedCode, pc: nat, op: Byte, c: I.Core, m: R.Mem, a: int, b: int) returns (n: nat)
    requires Ready(rc, pc, op, c, m, a, b) && op in {WORD_AND, WORD_OR, WORD_XOR}
    ensures DecodeAt(rc, pc).Some? && n < HALF && BothLeave(w, DecodeAt(rc, pc).value, c, m, Word63(n))
    ensures Bitwise(if op == WORD_AND then And else if op == WORD_OR then Or else Xor, n, Unsigned63(a), Unsigned63(b))
  {
    DecodedArith(rc, pc);
    var bit := DecodeArith(op).value.wop.bit;
    n := BitPayload(bit, a, b);
    BothWord(w, WBit(bit), c, m, a, b, n);
  }

  /** Shifts by the lower operand's number modulo 64: to the left modulo 2^63, to the right
      without a sign. */
  lemma WordShifts(w: World, rc: ResolvedCode, pc: nat, op: Byte, c: I.Core, m: R.Mem, a: int, b: int)
    requires Ready(rc, pc, op, c, m, a, b) && op in {WORD_SHIFT_LEFT, WORD_SHIFT_R_LOG}
    ensures DecodeAt(rc, pc).Some?
    ensures 0 <= ShiftResult(op, Unsigned63(a), Pow2(Unsigned63(b) % 64)) < HALF
    ensures BothLeave(w, DecodeAt(rc, pc).value, c, m, Word63(ShiftResult(op, Unsigned63(a), Pow2(Unsigned63(b) % 64))))
  {
    DecodedArith(rc, pc);
    ShiftPayload(op, a, b);
    BothWord(w, DecodeArith(op).value.wop, c, m, a, b, ShiftResult(op, Unsigned63(a), Pow2(Unsigned63(b) % 64)));
  }

  function ShiftResult(op: Byte, u: int, p: int): int
    requires p > 0
  {
    if op == WORD_SHIFT_LEFT then (u * p) % 0x8000_0000_0000_0000 else u / p
  }

  lemma ShiftPayload(op: Byte, a: int, b: int)
    requires Representable(a) && Representable(b) && op in {WORD_SHIFT_LEFT, WORD_SHIFT_R_LOG}
    ensures DecodeArith(op).Some? && DecodeArith(op).value.WordArith?
    ensures var n := ShiftResult(op, Unsigned63(a), Pow2(Unsigned63(b) % 64));
      0 <= n < HALF && WordPayload(RegionWord(DecodeArith(op).value.wop, Tagged(b), Tagged(a))) == n
  {
    TaggedUnsigned(a);
    TaggedUnsigned(b);
    WordBits(Tagged(b), Tagged(a));
  }

  lemma BothWordDivide(w: World, op: WordDivOp, c: I.Core, m: R.Mem, a: int, b: int, n: int)
    requires m.stack == c.stack && Operands(c.stack, c.sp, a, b) && Unsigned63(b) != 0
    requires 0 <= n < HALF && n == if op.WDiv? then Unsigned63(a) / Unsigned63(b) else Unsigned63(a) % Unsigned63(b)
    ensures BothLeave(w, WordDivide(op), c, m, Word63(n))
  {
    TaggedUnsigned(a);
    TaggedUnsigned(b);
    WordOutcome(op, Tagged(b), Tagged(a), Unsigned63(b), Unsigned63(a), n);
    WordExec(w, op, c, Tagged(b), Tagged(a));
    WordLow(w, op, m, c.sp, Tagged(b), Tagged(a));
  }

  lemma WordExec(w: World, op: WordDivOp, c: I.Core, x: Word, y: Word)
    requires c.sp + 1 < |c.stack| && c.stack[c.sp] == x && c.stack[c.sp + 1] == y
    ensures I.Exec(w, WordDivide(op), c) == I.OfOutcome(c.(sp := c.sp + 2), InterpWordDiv(op, x, y))
  {
  }

  lemma WordLow(w: World, op: WordDivOp, m: R.Mem, sp: nat, x: Word, y: Word)
    requires sp + 1 < |m.stack| && m.stack[sp] == x && m.stack[sp + 1] == y
    ensures R.Lower(w, WordDivide(op), m, sp) == R.OfOutcome(m, sp + 1, R.LowerWordDiv(op, x, y))
  {
  }

  lemma WordOutcome(op: WordDivOp, x: Word, y: Word, v: Word, u: Word, n: int)
    requires x / 2 == v && y / 2 == u && v != 0 && 0 <= n < HALF && n == if op.WDiv? then u / v else u % v
    ensures InterpWordDiv(op, x, y) == R.LowerWordDiv(op, x, y) == Value(Word63(n))
  {
    SetTagIs(n);
    assert (if op.WDiv? then Quotient(u, v) else Remainder(u, v)) == n;
  }

  lemma SetTagIs(n: Word)
    requires n < HALF
    ensures SetTag(n) == Word63(n)
  {
    SetTagPayload(n);
  }

  lemma BothWordByZero(w: World, op: WordDivOp, c: I.Core, m: R.Mem, a: int)
    requires m.stack == c.stack && Operands(c.stack, c.sp, a, 0)
    ensures BothRaise(w, WordDivide(op), c, m, DivByZero)
  {
    TaggedUnsigned(0);
  }

  /** WORD_DIV and WORD_MOD leave quotient and remainder of the numbers below 2^63. */
  lemma WordDivision(w: World, rc: ResolvedCode, pc: nat, op: Byte, c: I.Core, m: R.Mem, a: int, b: int, q: nat, r: nat)
    requires Ready(rc, pc, op, c, m, a, b) && op in {WORD_DIV, WORD_MOD}
    requires b != 0 ==> Unsigned63(a) == q * Unsigned63(b) + r && r < Unsigned63(b) && q < HALF
    ensures DecodeAt(rc, pc).Some?
    ensures b == 0 ==> BothRaise(w, DecodeAt(rc, pc).value, c, m, DivByZero)
    ensures b != 0 ==> BothLeave(w, DecodeAt(rc, pc).value, c, m, Word63(if op == WORD_DIV then q else r))
  {
    DecodedArith(rc, pc);
    var kind := DecodeArith(op).value.wdop;
    if b == 0 {
      BothWordByZero(w, kind, c, m, a);
    } else {
      DivModIs(Unsigned63(a), Unsigned63(b), q, r);
      BothWordDivide(w, kind, c, m, a, b, if op == WORD_DIV then q else r);
    }
  }

  lemma DivModIs(u: nat, v: nat, q: nat, r: nat)
    requires v > 0 && u == q * v + r && r < v
    ensures u / v == q && u % v == r
  {
    HalfQuotient(u, v, q, r);
    var q', r' := DivMod(u, v);
  }

  // ----- tests and branches -----------------------------------------------------------------------

  /** Both machines jump, or both go on, with the stack pointer `sp`. */
  ghost predicate BothBranch(w: World, ins: Instr, c: I.Core, m: R.Mem, jumps: bool, sp: nat) {
    && JumpTarget(ins).Some?
    && I.Exec(w, ins, c) == Some(if jumps then I.JumpTo(c.(sp := sp), JumpTarget(ins).value) else I.Next(c.(sp := sp)))
    && R.BranchTest(ins, m, c.sp) == Some(if jumps then R.Taken(sp) else R.Fall(sp))
  }

  lemma DecodedJump(rc: ResolvedCode, pc: nat)
    requires pc < |rc.bytecode| && A.IsJumpOp(rc.bytecode[pc])
    ensures DecodeAt(rc, pc) == A.Jumping(rc.bytecode, pc)
  {
    A.OneKind(rc.bytecode[pc]);
    A.DecodedByKind(rc, pc);
    A.JumpDecoded(rc, pc);
  }

  /** JUMP8_FALSE and JUMP16_FALSE jump exactly if the topmost word is the tagged 0, the
      others exactly if it is not. */
  lemma ConditionalJumps(w: World, rc: ResolvedCode, pc: nat, c: I.Core, m: R.Mem)
    requires pc < |rc.bytecode| && rc.bytecode[pc] in {JUMP8_FALSE, JUMP16_FALSE, JUMP8_TRUE, JUMP16_TRUE}
    requires m.stack == c.stack && c.sp < |c.stack|
    ensures DecodeAt(rc, pc).Some?
    ensures DecodeAt(rc, pc) == Some(Truncated)
      || BothBranch(w, DecodeAt(rc, pc).value, c, m,
           (c.stack[c.sp] == Tagged(0)) == (rc.bytecode[pc] in {JUMP8_FALSE, JUMP16_FALSE}), c.sp + 1)
  {
    DecodedJump(rc, pc);
  }

  /** JUMP_TAGGED_LOCAL jumps exactly if the local is tagged, JUMP_NEQ_LOCAL exactly if it is
      not the tagged byte; neither takes anything off the stack. */
  lemma LocalJumps(w: World, rc: ResolvedCode, pc: nat, c: I.Core, m: R.Mem)
    requires pc + 2 < |rc.bytecode| && rc.bytecode[pc] in {JUMP_TAGGED_LOCAL, JUMP_NEQ_LOCAL}
    requires m.stack == c.stack && c.sp + rc.bytecode[pc + 1] < |c.stack|
    ensures DecodeAt(rc, pc).Some?
    ensures DecodeAt(rc, pc) == Some(Truncated)
      || BothBranch(w, DecodeAt(rc, pc).value, c, m,
           if rc.bytecode[pc] == JUMP_TAGGED_LOCAL then c.stack[c.sp + rc.bytecode[pc + 1]] % 2 == 1
           else c.stack[c.sp + rc.bytecode[pc + 1]] != Tagged(rc.bytecode[pc + 2]), c.sp)
  {
    DecodedJump(rc, pc);
    var v := c.stack[c.sp + rc.bytecode[pc + 1]];
    TaggedRoundTrip(rc.bytecode[pc + 2]);
    if IsTagged(v) {
      UntagReadsPayload(v);
    }
  }
}
