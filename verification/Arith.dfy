/** The arithmetic lowerings: FixedInt add, sub, mult, quot and rem with their overflow
    and zero-divisor tests, and the tagged word operations, each beside the arithmetic
    the interpreter performs. */
module Arith {
  import opened Words

  datatype FixedOp = FAdd | FSub | FMul

  /** What a lowered arithmetic instruction leaves: a word for the stack, or a raise. */
  datatype Outcome = Value(w: Word) | Overflow | DivZero

  // ----- FixedInt -------------------------------------------------------------

  /** The integer the interpreter computes in `i128`; `x` was on top, `y` below it. */
  function FixedExact(op: FixedOp, x: int, y: int): int {
    match op
    case FAdd => x + y
    case FSub => y - x
    case FMul => x * y
  }

  function InterpFixed(op: FixedOp, x: Word, y: Word): Outcome {
    var t := FixedExact(op, Payload(x), Payload(y));
    if Representable(t) then Value(Tagged(t)) else Overflow
  }

  function FixedResult(op: FixedOp, ax: Word, ay: Word): Word {
    match op
    case FAdd => IAdd(ax, ay)
    case FSub => ISub(ay, ax)
    case FMul => IMul(ax, ay)
  }

  /** The divisor the multiply guard hands to `sdiv`. */
  function SafeDivisor(ax: Word): Word { if ax == 0 then 1 else ax }

  /** The lowered instruction: a wrapping 64-bit result, tested against the tagged range,
      and for a product also tested by dividing it back. */
  function LowerFixed(op: FixedOp, x: Word, y: Word): Outcome
    requires IsTagged(x) && IsTagged(y)
  {
    var ax, ay := EmitUntag(x), EmitUntag(y);
    var res := FixedResult(op, ax, ay);
    var inRange := MIN_TAGGED <= Signed(res) && Signed(res) <= MAX_TAGGED;
    MulGuardNeverTraps(x, y);
    var noWrap := op != FMul || ax == 0 || SDiv(res, SafeDivisor(ax)) == ay;
    if inRange && noWrap then Value(EmitTag(res)) else Overflow
  }

  /** The product of payloads is never divided by zero, and never `i64::MIN` by -1. */
  lemma MulGuardNeverTraps(x: Word, y: Word)
    requires IsTagged(x) && IsTagged(y)
    ensures !DivTraps(IMul(EmitUntag(x), EmitUntag(y)), SafeDivisor(EmitUntag(x)))
  {
    UntagReadsPayload(x);
    UntagReadsPayload(y);
    var ax, ay := EmitUntag(x), EmitUntag(y);
    if Signed(SafeDivisor(ax)) == -1 {
      assert ax == MODULUS - 1;
      var b := Signed(ay);
      WrapProduct(ax, ay);
      assert Signed(ax) * b == -b;
      WrapSigned(-b);
    }
  }

  /** Wrapping depends only on the signed readings of the operands. */
  lemma WrapProduct(a: Word, b: Word)
    ensures IMul(a, b) == Wrap(Signed(a) * Signed(b))
  {
    var sa, sb := Signed(a), Signed(b);
    var ka, kb := (if a < HALF then 0 else 1), (if b < HALF then 0 else 1);
    calc {
      a * b;
      (sa + ka * MODULUS) * (sb + kb * MODULUS);
      sa * sb + (ka * sb + kb * sa + ka * kb * MODULUS) * MODULUS;
    }
    WrapAddMultiple(sa * sb, ka * sb + kb * sa + ka * kb * MODULUS);
  }

  lemma WrapAddMultiple(n: int, k: int)
    ensures Wrap(n + k * MODULUS) == Wrap(n)
  {
    WrapUnique(n + k * MODULUS, Wrap(n), n / MODULUS + k);
  }

  /** Division with remainder is unique. */
  lemma WrapUnique(n: int, r: Word, q: int)
    requires n == q * MODULUS + r
    ensures Wrap(n) == r
  {
    var q', r' := n / MODULUS, n % MODULUS;
    assert (q - q') * MODULUS == r' - r;
  }

  lemma WrapSignedSum(a: Word, b: Word)
    ensures IAdd(a, b) == Wrap(Signed(a) + Signed(b))
    ensures ISub(a, b) == Wrap(Signed(a) - Signed(b))
  {
    var sa, sb := Signed(a), Signed(b);
    var ka, kb := (if a < HALF then 0 else 1), (if b < HALF then 0 else 1);
    InstructionsWrap(a, b);
    WrapAddMultiple(sa + sb, ka + kb);
    WrapAddMultiple(sa - sb, ka - kb);
  }

  /** Truncating division of an exact product gives the factor back. */
  lemma TruncDivExact(a: int, b: int)
    requires a != 0
    ensures TruncDiv(a * b, a) == b
  {
    var pa, pb := Abs(a), Abs(b);
    assert Abs(a * b) == pa * pb;
    DivOfProduct(pa, pb);
  }

  lemma DivOfProduct(a: nat, b: nat)
    requires a > 0
    ensures (a * b) / a == b
  {
    var q, r := (a * b) / a, (a * b) % a;
    assert a * b == a * q + r;
    assert a * (b - q) == r;
    if b - q >= 1 { MulAtLeast(a, b - q); }
    if b - q <= -1 { MulAtLeast(a, q - b); }
  }

  /** What truncating division leaves over is smaller than the divisor. */
  lemma TruncRemSmall(r: int, a: int)
    requires a != 0
    ensures Abs(r - a * TruncDiv(r, a)) < Abs(a)
  {
    var q, m := Abs(r) / Abs(a), Abs(r) % Abs(a);
    assert Abs(r) == Abs(a) * q + m;
    assert r < 0 ==> a * TruncDiv(r, a) == -(Abs(a) * q);
    assert r >= 0 ==> a * TruncDiv(r, a) == Abs(a) * q;
  }

  /** The guard on the product is exact: the wrapped product is in range and divides back
      to the other factor exactly when the true product is in range. */
  lemma MulGuardExact(ax: Word, ay: Word)
    requires Representable(Signed(ax)) && Representable(Signed(ay))
    requires !DivTraps(IMul(ax, ay), SafeDivisor(ax))
    ensures var res := IMul(ax, ay);
      (Representable(Signed(res)) && (ax == 0 || SDiv(res, SafeDivisor(ax)) == ay))
      <==> Representable(Signed(ax) * Signed(ay))
    ensures Representable(Signed(ax) * Signed(ay)) ==>
      Signed(IMul(ax, ay)) == Signed(ax) * Signed(ay)
  {
    var a, b := Signed(ax), Signed(ay);
    var res := IMul(ax, ay);
    var r := Signed(res);
    WrapProduct(ax, ay);
    if Representable(a * b) {
      WrapSigned(a * b);
      if ax != 0 {
        TruncDivExact(a, b);
      }
    } else if Representable(r) && ax != 0 && SDiv(res, ax) == ay {
      TruncRemSmall(r, a);
      var q := TruncDiv(r, a);
      QuotientBound(r, a);
      WrapSigned(q);
      assert q == b;
      SameResidueClose(a * b, r);
    }
  }

  lemma QuotientBound(r: int, a: int)
    requires Representable(r) && a != 0
    ensures -HALF <= TruncDiv(r, a) < HALF
  {
    var q := Abs(r) / Abs(a);
    assert Abs(a) * q <= Abs(r);
    if q > Abs(r) {
      MulAtLeast(q, Abs(a));
    }
  }

  /** Two integers with the same residue that differ by less than the modulus are equal. */
  lemma SameResidueClose(m: int, r: int)
    requires Wrap(m) == Wrap(r) && Abs(r - m) < MODULUS
    ensures m == r
  {
    var qm, qr := m / MODULUS, r / MODULUS;
    assert r - m == (qr - qm) * MODULUS;
  }

  /** FixedInt arithmetic is exact: on tagged operands the lowering tags the true integer
      result when that lies in [-2^62, 2^62-1], and raises Overflow in every other case. */
  lemma FixedArithExact(op: FixedOp, x: Word, y: Word)
    requires IsTagged(x) && IsTagged(y)
    ensures LowerFixed(op, x, y) == InterpFixed(op, x, y)
  {
    UntagReadsPayload(x);
    UntagReadsPayload(y);
    var ax, ay := EmitUntag(x), EmitUntag(y);
    var t := FixedExact(op, Payload(x), Payload(y));
    var res := FixedResult(op, ax, ay);
    EmitTagIsTagged(res);
    match op {
      case FAdd => WrapSignedSum(ax, ay); WrapSigned(t);
      case FSub => WrapSignedSum(ay, ax); WrapSigned(t);
      case FMul => FixedMulExact(x, y);
    }
  }

  lemma FixedMulExact(x: Word, y: Word)
    requires IsTagged(x) && IsTagged(y)
    ensures LowerFixed(FMul, x, y) == InterpFixed(FMul, x, y)
  {
    UntagReadsPayload(x);
    UntagReadsPayload(y);
    EmitTagIsTagged(FixedResult(FMul, EmitUntag(x), EmitUntag(y)));
    MulGuardNeverTraps(x, y);
    MulGuardExact(EmitUntag(x), EmitUntag(y));
  }

  datatype DivOp = Quot | Rem

  function InterpFixedDiv(op: DivOp, x: Word, y: Word): Outcome {
    var a, b := Payload(y), Payload(x);
    if b == 0 then DivZero
    else Value(Tagged(if op.Quot? then TruncDiv(a, b) else TruncRem(a, b)))
  }

  function LowerFixedDiv(op: DivOp, x: Word, y: Word): Outcome
    requires IsTagged(x) && IsTagged(y)
  {
    var ax, ay := EmitUntag(x), EmitUntag(y);
    if ax == 0 then DivZero
    else
      UntagReadsPayload(y);
      Value(EmitTag(if op.Quot? then SDiv(ay, ax) else SRem(ay, ax)))
  }

  /** Quotient and remainder agree with the interpreter's, and raise exactly on a zero
      divisor.  The quotient of -2^62 by -1 leaves the tagged range and wraps in both. */
  lemma FixedDivExact(op: DivOp, x: Word, y: Word)
    requires IsTagged(x) && IsTagged(y)
    ensures LowerFixedDiv(op, x, y) == InterpFixedDiv(op, x, y)
  {
    UntagReadsPayload(x);
    UntagReadsPayload(y);
    var a, b := Payload(y), Payload(x);
    if b != 0 {
      QuotientBound(a, b);
      TruncRemSmall(a, b);
      WrapSigned(TruncDiv(a, b));
      assert TruncRem(a, b) == a - b * TruncDiv(a, b);
      WrapSigned(TruncRem(a, b));
      EmitTagIsTagged(Wrap(TruncDiv(a, b)));
      EmitTagIsTagged(Wrap(TruncRem(a, b)));
    }
  }

  // ----- tagged words -----------------------------------------------------------

  datatype WordOp = WAdd | WSub | WMul | WBit(bit: BitOp) | WShl | WShrLog

  /** The interpreter's formula, on the raw bits. */
  function InterpWord(op: WordOp, x: Word, y: Word): Word {
    match op
    case WAdd => ISub(IAdd(y, x), 1)
    case WSub => IAdd(ISub(y, x), 1)
    case WMul => SetTag(IMul(x / 2, y / 2))
    case WBit(Xor) => BitWord(Or, BitWord(Xor, y, x), 1)
    case WBit(b) => BitWord(b, y, x)
    case WShl => SetTag(IShl(y / 2, (x / 2) % 64))
    case WShrLog => SetTag(UShr(y / 2, (x / 2) % 64))
  }

  /** `(v << 1) | 1`. */
  function SetTag(v: Word): Word { BitWord(Or, IShl1(v), 1) }

  /** The whole-region lowering: logical shifts throughout, `- 1` and `+ 1` as added
      immediates. */
  function RegionWord(op: WordOp, x: Word, y: Word): Word {
    match op
    case WAdd => IAdd(IAdd(y, x), Wrap(-1))
    case WSub => IAdd(ISub(y, x), 1)
    case WMul => SetTag(IMul(UShr1(x), UShr1(y)))
    case WBit(Xor) => BitWord(Or, BitWord(Xor, y, x), 1)
    case WBit(b) => BitWord(b, y, x)
    case WShl => SetTag(IShl(UShr1(y), UShr1(x) % 64))
    case WShrLog => SetTag(UShr(UShr1(y), UShr1(x) % 64))
  }

  /** The per-function lowering: an arithmetic shift untags the factors of a product and
      the shift amount. */
  function TranslateWord(op: WordOp, x: Word, y: Word): Word {
    match op
    case WAdd => ISub(IAdd(y, x), 1)
    case WSub => IAdd(ISub(y, x), 1)
    case WMul => SetTag(IMul(SShr1(x), SShr1(y)))
    case WBit(Xor) => BitWord(Or, BitWord(Xor, y, x), 1)
    case WBit(b) => BitWord(b, y, x)
    case WShl => SetTag(IShl(UShr1(y), SShr1(x) % 64))
    case WShrLog => SetTag(UShr(UShr1(y), SShr1(x) % 64))
  }

  /** The payload of a tagged word as an element of the integers modulo 2^63. */
  function WordPayload(w: Word): nat { w / 2 }

  function Residue63(n: int): nat { n % HALF }

  lemma SetTagPayload(v: Word)
    ensures SetTag(v) == 2 * (v % HALF) + 1
  {
    var d := IShl1(v);
    assert v % HALF == if v < HALF then v else v - HALF;
    assert d == 2 * (v % HALF);
    BitsWithOne(d);
  }

  /** Or-ing 1 into an even word sets its low bit. */
  lemma {:induction false} BitsWithOne(d: nat)
    ensures Bits(Or, d, 1) == 2 * (d / 2) + 1
  {
    BitsOrZero(d / 2);
  }

  lemma {:induction false} BitsOrZero(a: nat)
    ensures Bits(Or, a, 0) == a
  {
    if a > 0 {
      BitsOrZero(a / 2);
    }
  }

  lemma Residue63Unique(n: int, r: nat, q: int)
    requires n == q * HALF + r && r < HALF
    ensures Residue63(n) == r
  {
    var q', r' := n / HALF, n % HALF;
    assert (q - q') * HALF == r' - r;
  }

  lemma WrapResidue63(n: int)
    ensures Wrap(n) % HALF == Residue63(n)
  {
    var q := n / MODULUS;
    var m := Wrap(n) / HALF;
    Residue63Unique(n, Wrap(n) % HALF, 2 * q + m);
  }

  /** Word add, sub and mult are the ring operations modulo 2^63 on payloads, and every
      word operation keeps the tag. */
  lemma WordRing(x: Word, y: Word)
    requires IsTagged(x) && IsTagged(y)
    ensures WordPayload(RegionWord(WAdd, x, y)) == Residue63(WordPayload(y) + WordPayload(x))
    ensures WordPayload(RegionWord(WSub, x, y)) == Residue63(WordPayload(y) - WordPayload(x))
    ensures WordPayload(RegionWord(WMul, x, y)) == Residue63(WordPayload(y) * WordPayload(x))
  {
    var a, b := WordPayload(x), WordPayload(y);
    assert x == 2 * a + 1 && y == 2 * b + 1;
    SumPayload(a, b);
    ProductPayload(a, b);
  }

  lemma SumPayload(a: nat, b: nat)
    requires a < HALF && b < HALF
    ensures WordPayload(RegionWord(WAdd, 2 * a + 1, 2 * b + 1)) == Residue63(b + a)
    ensures WordPayload(RegionWord(WSub, 2 * a + 1, 2 * b + 1)) == Residue63(b - a)
  {
    WrapAddSub(2 * a + 1, 2 * b + 1);
    WrapSmall(2 * (b + a) + 1);
    WrapSmall(2 * (b - a) + 1);
    Residue63Unique(b + a, if b + a < HALF then b + a else b + a - HALF, if b + a < HALF then 0 else 1);
    Residue63Unique(b - a, if b >= a then b - a else b - a + HALF, if b >= a then 0 else -1);
  }

  lemma ProductPayload(a: nat, b: nat)
    requires a < HALF && b < HALF
    ensures WordPayload(SetTag(IMul(a, b))) == Residue63(b * a)
  {
    SetTagPayload(IMul(a, b));
    WrapResidue63(a * b);
  }

  lemma WrapAddSub(x: Word, y: Word)
    ensures RegionWord(WAdd, x, y) == Wrap(y + x - 1)
    ensures InterpWord(WAdd, x, y) == Wrap(y + x - 1)
    ensures RegionWord(WSub, x, y) == Wrap(y - x + 1)
  {
    WrapSmall(y + x - 1);
    WrapSmall(y - x + 1);
  }

  lemma WrapNested(n: int, k: int)
    ensures Wrap(Wrap(n) + k) == Wrap(n + k)
  {
    WrapAddMultiple(Wrap(n) + k, n / MODULUS);
  }

  /** The bitwise and shift operations act on payloads. */
  lemma WordBits(x: Word, y: Word)
    requires IsTagged(x) && IsTagged(y)
    ensures forall b: BitOp :: WordPayload(RegionWord(WBit(b), x, y)) == Bits(b, WordPayload(y), WordPayload(x))
    ensures WordPayload(RegionWord(WShl, x, y))
      == Residue63(WordPayload(y) * Pow2(WordPayload(x) % 64))
    ensures WordPayload(RegionWord(WShrLog, x, y))
      == WordPayload(y) / Pow2(WordPayload(x) % 64)
  {
    forall b: BitOp
      ensures WordPayload(RegionWord(WBit(b), x, y)) == Bits(b, WordPayload(y), WordPayload(x))
    {
      BitsPayload(b, x, y);
    }
    ShiftPayloads(WordPayload(y), WordPayload(x) % 64);
  }

  lemma {:induction false} ShiftPayloads(v: Word, s: nat)
    requires v < HALF
    ensures WordPayload(SetTag(IShl(v, s))) == Residue63(v * Pow2(s))
    ensures WordPayload(SetTag(UShr(v, s))) == v / Pow2(s)
  {
    var n := v * Pow2(s);
    SetTagPayload(IShl(v, s));
    WrapResidue63(n);
    DivAtMost(v, Pow2(s));
    SmallPayload(UShr(v, s));
  }

  lemma SmallPayload(v: Word)
    requires v < HALF
    ensures WordPayload(SetTag(v)) == v
  {
    SetTagPayload(v);
  }

  lemma {:induction false} BitsPayload(b: BitOp, x: Word, y: Word)
    requires IsTagged(x) && IsTagged(y)
    ensures RegionWord(WBit(b), x, y) == 1 + 2 * Bits(b, WordPayload(y), WordPayload(x))
  {
    assert Bits(b, y, x) == BitOf(b, 1, 1) + 2 * Bits(b, y / 2, x / 2);
    if b.Xor? {
      BitsWithOne(BitWord(b, y, x));
    }
  }

  /** Every word operation on tagged words yields a tagged word. */
  lemma WordKeepsTag(op: WordOp, x: Word, y: Word)
    requires IsTagged(x) && IsTagged(y)
    ensures IsTagged(RegionWord(op, x, y))
  {
    match op {
      case WAdd => SumKeepsTag(x, y);
      case WSub => SumKeepsTag(x, y);
      case WMul => SetTagIsTagged(IMul(UShr1(x), UShr1(y)));
      case WBit(b) => BitsPayload(b, x, y);
      case WShl => SetTagIsTagged(IShl(UShr1(y), UShr1(x) % 64));
      case WShrLog => SetTagIsTagged(UShr(UShr1(y), UShr1(x) % 64));
    }
  }

  lemma SumKeepsTag(x: Word, y: Word)
    requires IsTagged(x) && IsTagged(y)
    ensures IsTagged(RegionWord(WAdd, x, y)) && IsTagged(RegionWord(WSub, x, y))
  {
    WrapAddSub(x, y);
    WrapParity(y + x - 1);
    WrapParity(y - x + 1);
    OddSums(x, y);
  }

  lemma OddSums(x: int, y: int)
    requires x % 2 == 1 && y % 2 == 1
    ensures (y + x - 1) % 2 == 1 && (y - x + 1) % 2 == 1
  {
  }

  lemma SetTagIsTagged(v: Word)
    ensures IsTagged(SetTag(v))
  {
    SetTagPayload(v);
  }

  lemma WrapParity(n: int)
    ensures Wrap(n) % 2 == n % 2
  {
    ParityOfSum(n, n / MODULUS, Wrap(n));
  }

  lemma ParityOfSum(n: int, q: int, r: Word)
    requires n == q * MODULUS + r
    ensures n % 2 == r % 2
  {
    var k := q * HALF;
    assert n == 2 * k + r;
  }

  /** The whole-region lowering computes what the interpreter computes, on any words. */
  lemma RegionWordIsInterp(op: WordOp, x: Word, y: Word)
    ensures RegionWord(op, x, y) == InterpWord(op, x, y)
  {
    WrapAddSub(x, y);
  }

  /** The two independent lowerings give identical words, although one untags with
      logical and the other with arithmetic shifts. */
  lemma LoweringsIdentical(op: WordOp, x: Word, y: Word)
    ensures RegionWord(op, x, y) == TranslateWord(op, x, y)
  {
    match op {
      case WAdd => WrapAddSub(x, y);
      case WSub =>
      case WMul =>
        ShiftsCongruent(x);
        ShiftsCongruent(y);
        ProductsIdentical(UShr1(x), UShr1(y), SShr1(x), SShr1(y));
      case WBit(_) =>
      case WShl => ShiftAmounts(x);
      case WShrLog => ShiftAmounts(x);
    }
  }

  lemma ShiftAmounts(x: Word)
    ensures UShr1(x) % 64 == SShr1(x) % 64
  {
    ShiftsCongruent(x);
    HalfIsMultiple(UShr1(x));
  }

  lemma HalfIsMultiple(a: nat)
    ensures (a + HALF) % 64 == a % 64
  {
  }

  lemma ProductsIdentical(a: Word, b: Word, c: Word, d: Word)
    requires c == a || c == a + HALF
    requires d == b || d == b + HALF
    ensures SetTag(IMul(a, b)) == SetTag(IMul(c, d))
  {
    SetTagPayload(IMul(a, b));
    SetTagPayload(IMul(c, d));
    WrapResidue63(a * b);
    WrapResidue63(c * d);
    ProductCongruent(a, b, c, d);
  }

  /** The two shifts differ only in the top bit. */
  lemma ShiftsCongruent(x: Word)
    ensures SShr1(x) == UShr1(x) || SShr1(x) == UShr1(x) + HALF
  {
  }

  lemma ProductCongruent(a: Word, b: Word, c: Word, d: Word)
    requires c == a || c == a + HALF
    requires d == b || d == b + HALF
    ensures Residue63(a * b) == Residue63(c * d)
  {
    var i, j := (if c == a then 0 else 1), (if d == b then 0 else 1);
    assert c * d == a * b + (i * b + j * a + i * j * HALF) * HALF;
    Residue63Unique(c * d, Residue63(a * b), (a * b) / HALF + i * b + j * a + i * j * HALF);
  }

  /** Unsigned division; the divisor is never zero. */
  function Quotient(a: Word, b: Word): Word
    requires b != 0
  {
    DivAtMost(a, b);
    a / b
  }

  function Remainder(a: Word, b: Word): Word
    requires b != 0
  {
    a % b
  }

  datatype WordDivOp = WDiv | WMod

  function InterpWordDiv(op: WordDivOp, x: Word, y: Word): Outcome {
    if x / 2 == 0 then DivZero
    else Value(SetTag(if op.WDiv? then Quotient(y / 2, x / 2) else Remainder(y / 2, x / 2)))
  }

  // ----- comparisons -------------------------------------------------------------

  datatype Cmp = Eq | LtS | LtU | LeS | LeU | GtS | GtU | GeS | GeU

  /** `y CMP x`: the operand below the top stands on the left. */
  predicate Compare(c: Cmp, x: Word, y: Word) {
    match c
    case Eq => y == x
    case LtS => Signed(y) < Signed(x)
    case LtU => y < x
    case LeS => Signed(y) <= Signed(x)
    case LeU => y <= x
    case GtS => Signed(y) > Signed(x)
    case GtU => y > x
    case GeS => Signed(y) >= Signed(x)
    case GeU => y >= x
  }

  function TagBool(b: bool): Word { if b then 3 else 1 }
}
