/** 64-bit machine words and the integer operations the translators emit.

    A word is the unsigned reading of 64 bits.  Every operation wraps, as the emitted
    `i64` instructions do; `Signed` gives the two's complement reading.  Operations on
    individual bits are defined from the low bit upwards, so that the tag bit of a
    PolyWord (its low bit) and its payload (the rest) are one unfolding apart. */
module Words {

  const MODULUS: int := 0x1_0000_0000_0000_0000
  const HALF: int := 0x8000_0000_0000_0000

  type Word = w: int | 0 <= w < MODULUS

  type Byte = b: int | 0 <= b < 256

  function Wrap(n: int): (w: Word) {
    n % MODULUS
  }

  /** The word read as an `i64`. */
  function Signed(w: Word): (n: int)
    ensures -HALF <= n < HALF && Wrap(n) == w
  {
    if w < HALF then w else w - MODULUS
  }

  // ----- the emitted instructions -----------------------------------------

  function IAdd(a: Word, b: Word): Word { if a + b < MODULUS then a + b else a + b - MODULUS }
  function ISub(a: Word, b: Word): Word { if a >= b then a - b else a - b + MODULUS }
  function IMul(a: Word, b: Word): Word { Wrap(a * b) }
  function IShl1(a: Word): Word { if a < HALF then 2 * a else 2 * a - MODULUS }

  /** Logical and arithmetic shift right by one. */
  function UShr1(a: Word): Word { a / 2 }
  function SShr1(a: Word): Word { if a < HALF then a / 2 else a / 2 + HALF }

  /** Addition, subtraction and doubling wrap, and the arithmetic shift halves the signed
      reading. */
  lemma InstructionsWrap(a: Word, b: Word)
    ensures IAdd(a, b) == Wrap(a + b) && ISub(a, b) == Wrap(a - b) && IShl1(a) == Wrap(2 * a)
    ensures Signed(SShr1(a)) == Signed(a) / 2
  {
  }

  function Pow2(n: nat): (p: nat)
    ensures p >= 1
  {
    if n == 0 then 1 else 2 * Pow2(n - 1)
  }

  function IShl(v: Word, s: nat): Word { Wrap(v * Pow2(s)) }

  function UShr(v: Word, s: nat): Word {
    DivAtMost(v, Pow2(s));
    v / Pow2(s)
  }

  lemma DivAtMost(a: nat, b: nat)
    requires b >= 1
    ensures 0 <= a / b <= a
  {
    var q, r := a / b, a % b;
    assert a == b * q + r;
    if q > a {
      MulAtLeast(q, b);
    }
  }

  lemma MulAtLeast(a: nat, n: int)
    requires n >= 1
    ensures a * n >= a
  {
  }

  datatype BitOp = And | Or | Xor

  function BitOf(op: BitOp, a: int, b: int): int
    requires 0 <= a <= 1 && 0 <= b <= 1
  {
    match op
    case And => a * b
    case Or => if a + b > 0 then 1 else 0
    case Xor => if a == b then 0 else 1
  }

  /** `band`, `bor`, `bxor` over any number of bits, low bit first. */
  function Bits(op: BitOp, a: nat, b: nat): nat
    decreases a + b
  {
    if a == 0 && b == 0 then 0
    else BitOf(op, a % 2, b % 2) + 2 * Bits(op, a / 2, b / 2)
  }

  lemma {:induction false} BitsBound(op: BitOp, a: nat, b: nat, n: nat)
    requires a < Pow2(n) && b < Pow2(n)
    ensures Bits(op, a, b) < Pow2(n)
    decreases n
  {
    if n > 0 {
      BitsBound(op, a / 2, b / 2, n - 1);
    }
  }

  lemma Pow2Is64()
    ensures Pow2(64) == MODULUS
  {
    assert Pow2(8) == 256;
    assert Pow2(16) == 65536;
    assert Pow2(24) == 0x100_0000;
    assert Pow2(32) == 0x1_0000_0000;
    assert Pow2(40) == 0x100_0000_0000;
    assert Pow2(48) == 0x1_0000_0000_0000;
    assert Pow2(56) == 0x100_0000_0000_0000;
  }

  function BitWord(op: BitOp, a: Word, b: Word): (w: Word) {
    Pow2Is64();
    BitsBound(op, a, b, 64);
    Bits(op, a, b)
  }

  /** Signed division truncating toward zero, as `sdiv` and Rust's `/` do. */
  function TruncDiv(a: int, b: int): int
    requires b != 0
  {
    var q := Abs(a) / Abs(b);
    if (a < 0) == (b < 0) then q else -q
  }

  function TruncRem(a: int, b: int): int
    requires b != 0
  {
    a - TruncDiv(a, b) * b
  }

  function Abs(a: int): nat { if a < 0 then -a else a }

  /** `sdiv` and `srem` trap on a zero divisor and on `i64::MIN / -1`. */
  predicate DivTraps(a: Word, b: Word) {
    b == 0 || (Signed(a) == -HALF && Signed(b) == -1)
  }

  function SDiv(a: Word, b: Word): Word
    requires !DivTraps(a, b)
  {
    Wrap(TruncDiv(Signed(a), Signed(b)))
  }

  function SRem(a: Word, b: Word): Word
    requires !DivTraps(a, b)
  {
    Wrap(TruncRem(Signed(a), Signed(b)))
  }

  // ----- PolyWord tagging ---------------------------------------------------

  predicate IsTagged(w: Word) { w % 2 == 1 }

  /** The integer a tagged word stands for: its upper 63 bits, sign-extended. */
  function Payload(w: Word): int { Signed(w) / 2 }

  /** Tagging as the interpreter does it (`PolyWord::tagged`). */
  function Tagged(n: int): Word { Wrap(2 * n + 1) }

  /** Tagging and untagging as the translators emit them. */
  function EmitTag(n: Word): Word { IAdd(IShl1(n), 1) }
  function EmitUntag(t: Word): Word { SShr1(ISub(t, 1)) }

  const MIN_TAGGED: int := -0x4000_0000_0000_0000
  const MAX_TAGGED: int := 0x3fff_ffff_ffff_ffff

  predicate Representable(n: int) { MIN_TAGGED <= n <= MAX_TAGGED }

  lemma WrapSigned(n: int)
    requires -HALF <= n < HALF
    ensures Signed(Wrap(n)) == n
  {
  }

  /** On a tagged word the emitted untagging reads the payload, which always fits. */
  lemma UntagReadsPayload(t: Word)
    requires IsTagged(t)
    ensures Representable(Payload(t))
    ensures Signed(EmitUntag(t)) == Payload(t)
    ensures Tagged(Payload(t)) == t
  {
    var s := Signed(t);
    assert 2 * Payload(t) + 1 == s;
  }

  lemma EmitTagIsTagged(n: Word)
    ensures EmitTag(n) == Tagged(Signed(n))
    ensures IsTagged(EmitTag(n))
  {
    assert EmitTag(n) == 2 * n + 1 - (if n < HALF then 0 else MODULUS);
    WrapSmall(2 * Signed(n) + 1);
  }

  /** Wrapping an integer that is off by at most one modulus. */
  lemma WrapSmall(n: int)
    requires -MODULUS <= n < 2 * MODULUS
    ensures Wrap(n) == if n < 0 then n + MODULUS else if n < MODULUS then n else n - MODULUS
  {
  }

  lemma TaggedRoundTrip(n: int)
    requires Representable(n)
    ensures IsTagged(Tagged(n)) && Payload(Tagged(n)) == n
  {
    WrapSigned(2 * n + 1);
  }

  lemma TaggedIsTagged(n: int)
    ensures IsTagged(Tagged(n))
  {
    var q := (2 * n + 1) / MODULUS;
    assert 2 * n + 1 == q * MODULUS + Tagged(n);
    assert MODULUS == 2 * HALF;
    assert Tagged(n) == 1 + 2 * (n - q * HALF);
  }
}
