/** The binary image format: LEB128 numbers (section 7.6 of DWARF Version 5), zigzag for
    signed ones, tags, and length-prefixed bytes. */
module Bic {
  import opened Basics
  import opened Words
  import opened Images

  datatype BicError = BadMagic | Eof | BadType | BadValue | VarintOverflow | BadLength

  /** What reading a T from the front of the input gives: the T and the rest. */
  type Read<T> = Result<(T, seq<Byte>), BicError>

  // ----- numbers --------------------------------------------------------------------------

  /** Low seven bits first, the top bit of a byte saying that more follow. */
  function Uvarint(v: nat): seq<Byte> {
    if v < 128 then [v] else [v % 128 + 128] + Uvarint(v / 128)
  }

  /** A left shift, one place at a time; bits fall off at the top. */
  function ShiftedLeft(low: Word, shift: nat): Word
    decreases shift
  {
    if shift == 0 then low else ShiftedLeft(IShl1(low), shift - 1)
  }

  /** `acc | (low << shift)`. */
  function OrShifted(acc: Word, low: Word, shift: nat): Word {
    BitWord(Or, acc, ShiftedLeft(low, shift))
  }

  /** Reads on with `acc` already read from the bytes before, `shift` bits in all. */
  function ReadUvarintFrom(s: seq<Byte>, shift: nat, acc: Word): Read<Word> {
    if s == [] then Err(Eof)
    else if shift >= 64 then Err(VarintOverflow)
    else
      var acc1 := OrShifted(acc, s[0] % 128, shift);
      if s[0] < 128 then Ok((acc1, s[1..])) else ReadUvarintFrom(s[1..], shift + 7, acc1)
  }

  function ReadUvarint(s: seq<Byte>): Read<Word> { ReadUvarintFrom(s, 0, 0) }

  /** Zigzag: `(v << 1) ^ (v >> 63)`, the shift being arithmetic. */
  function Zigzag(v: I64): Word {
    BitWord(Xor, IShl1(Wrap(v)), if v < 0 then MODULUS - 1 else 0)
  }

  /** `(w >> 1) ^ -(w & 1)`. */
  function Unzigzag(w: Word): I64 {
    Signed(BitWord(Xor, w / 2, if w % 2 == 1 then MODULUS - 1 else 0))
  }

  lemma {:induction false} XorOnes(a: nat, n: nat)
    requires a < Pow2(n)
    ensures Bits(Xor, a, Pow2(n) - 1) == Pow2(n) - 1 - a
    decreases n
  {
    if n > 0 {
      XorOnes(a / 2, n - 1);
      var ones := Pow2(n) - 1;
      assert ones / 2 == Pow2(n - 1) - 1 && ones % 2 == 1;
    }
  }

  lemma {:induction false} XorNone(a: nat)
    ensures Bits(Xor, a, 0) == a
  {
    if a > 0 {
      XorNone(a / 2);
    }
  }

  lemma XorWithOnes(a: Word)
    ensures BitWord(Xor, a, MODULUS - 1) == MODULUS - 1 - a
  {
    Pow2Is64();
    XorOnes(a, 64);
  }

  lemma DoubledWord(v: I64)
    ensures IShl1(Wrap(v)) == if v < 0 then 2 * v + MODULUS else 2 * v
  {
    WrapOf(v);
  }

  lemma WrapOf(v: I64)
    ensures Wrap(v) == if v < 0 then v + MODULUS else v
  {
  }

  /** Zigzag interleaves the naturals and the negatives. */
  lemma ZigzagIs(v: I64)
    ensures Zigzag(v) == if v < 0 then -2 * v - 1 else 2 * v
  {
    DoubledWord(v);
    if v < 0 {
      XorWithOnes(IShl1(Wrap(v)));
    } else {
      XorNone(IShl1(Wrap(v)));
    }
  }

  lemma UnzigzagIs(w: Word)
    ensures Unzigzag(w) == if w % 2 == 1 then -(w / 2) - 1 else w / 2
  {
    if w % 2 == 1 {
      XorWithOnes(w / 2);
    } else {
      XorNone(w / 2);
    }
  }

  /** Zigzag is a bijection between the signed and the unsigned 64-bit words. */
  lemma ZigzagBijection(v: I64, w: Word)
    ensures Unzigzag(Zigzag(v)) == v && Zigzag(Unzigzag(w)) == w
  {
    ZigzagIs(v);
    UnzigzagIs(Zigzag(v));
    UnzigzagIs(w);
    ZigzagIs(Unzigzag(w));
  }

  /** The number shifted without losing bits. */
  function Scaled(v: nat, shift: nat): nat {
    if shift == 0 then v else 2 * Scaled(v, shift - 1)
  }

  lemma {:induction false} ScaledDoubles(v: nat, shift: nat)
    ensures Scaled(2 * v, shift) == 2 * Scaled(v, shift)
  {
    if shift > 0 {
      ScaledDoubles(v, shift - 1);
    }
  }

  lemma {:induction false} ScaledAdds(a: nat, b: nat, shift: nat)
    ensures Scaled(a + b, shift) == Scaled(a, shift) + Scaled(b, shift)
  {
    if shift > 0 {
      ScaledAdds(a, b, shift - 1);
    }
  }

  /** Seven places more are a factor of 128. */
  lemma {:induction false} ScaledBy7(v: nat, shift: nat)
    ensures Scaled(v, shift + 7) == Scaled(128 * v, shift)
  {
    if shift > 0 {
      ScaledBy7(v, shift - 1);
    } else {
      assert Scaled(v, 1) == 2 * v;
      assert Scaled(v, 3) == 4 * Scaled(v, 1);
      assert Scaled(v, 5) == 4 * Scaled(v, 3);
    }
  }

  lemma {:induction false} ScaledBelow(low: nat, shift: nat, n: nat)
    requires low < Pow2(n)
    ensures Scaled(low, shift) + Pow2(shift) <= Pow2(shift + n)
  {
    if shift > 0 {
      ScaledBelow(low, shift - 1, n);
      assert Pow2(shift + n) == 2 * Pow2(shift - 1 + n);
    }
  }

  lemma {:induction false} ScaledAtLeast(v: nat, shift: nat)
    requires v > 0
    ensures Scaled(v, shift) >= Pow2(shift) && Scaled(v, shift) >= v
  {
    if shift > 0 {
      ScaledAtLeast(v, shift - 1);
    }
  }

  /** A shift that loses no bits. */
  lemma {:induction false} ShiftedIs(low: Word, shift: nat)
    requires Scaled(low, shift) < MODULUS
    ensures ShiftedLeft(low, shift) == Scaled(low, shift)
    decreases shift
  {
    if shift > 0 {
      ScaledDoubles(low, shift - 1);
      if low > 0 {
        ScaledAtLeast(2 * low, shift - 1);
      }
      ShiftedIs(IShl1(low), shift - 1);
    }
  }

  lemma {:induction false} OrDisjoint(a: nat, c: nat, k: nat)
    requires a < Pow2(k)
    ensures Bits(Or, a, Scaled(c, k)) == a + Scaled(c, k)
    decreases k
  {
    if k == 0 {
      OrLeftZero(c);
    } else if !(a == 0 && Scaled(c, k) == 0) {
      OrDisjoint(a / 2, c, k - 1);
    }
  }

  lemma {:induction false} OrLeftZero(c: nat)
    ensures Bits(Or, 0, c) == c
  {
    if c > 0 {
      OrLeftZero(c / 2);
    }
  }

  lemma {:induction false} Pow2Grows(a: nat, b: nat)
    requires a <= b
    ensures Pow2(a) <= Pow2(b)
    decreases b
  {
    if a < b {
      Pow2Grows(a, b - 1);
    }
  }

  lemma {:induction false} ShiftFits(v: nat, shift: nat)
    requires Scaled(v, shift) < MODULUS && (v > 0 || shift == 0)
    ensures shift < 64
  {
    if shift >= 64 {
      Pow2Is64();
      Pow2Grows(64, shift);
      ScaledAtLeast(v, shift);
    }
  }

  /** Seven more bits land above those already read. */
  lemma {:induction false} OrShiftedIs(acc: Word, low: Word, shift: nat)
    requires acc < Pow2(shift) && Scaled(low, shift) < MODULUS
    ensures OrShifted(acc, low, shift) == acc + Scaled(low, shift)
  {
    OrDisjoint(acc, low, shift);
    ShiftedIs(low, shift);
  }

  /** Seven bits moved from `v` to `acc` leave their sum as it was. */
  lemma {:induction false} SevenMore(v: nat, shift: nat, acc: Word)
    requires acc < Pow2(shift) && acc + Scaled(v, shift) < MODULUS
    ensures v < 128 ==> OrShifted(acc, v % 128, shift) == acc + Scaled(v, shift)
    ensures OrShifted(acc, v % 128, shift) < Pow2(shift + 7)
    ensures OrShifted(acc, v % 128, shift) + Scaled(v / 128, shift + 7) == acc + Scaled(v, shift)
  {
    var q, low := v / 128, v % 128;
    assert v == low + 128 * q;
    ScaledAdds(low, 128 * q, shift);
    ScaledBy7(q, shift);
    assert Pow2(7) == 128 by { assert Pow2(4) == 16; }
    ScaledBelow(low, shift, 7);
    OrShiftedIs(acc, low, shift);
  }

  /** Reading on after `shift` bits gives the rest of the number, shifted, on top. */
  lemma {:induction false} UvarintOn(v: nat, shift: nat, acc: Word, t: seq<Byte>)
    requires acc < Pow2(shift) && acc + Scaled(v, shift) < MODULUS && (v > 0 || shift == 0)
    ensures ReadUvarintFrom(Uvarint(v) + t, shift, acc) == Ok((acc + Scaled(v, shift), t))
    decreases v
  {
    ShiftFits(v, shift);
    SevenMore(v, shift, acc);
    UvarintHead(v, t);
    if v >= 128 {
      UvarintOn(v / 128, shift + 7, OrShifted(acc, v % 128, shift), t);
    }
  }

  lemma {:induction false} UvarintHead(v: nat, t: seq<Byte>)
    ensures var s := Uvarint(v) + t;
      && s != [] && s[0] % 128 == v % 128 && (s[0] < 128 <==> v < 128)
      && s[1..] == if v < 128 then t else Uvarint(v / 128) + t
  {
  }

  lemma Pow2Plus7(k: nat)
    ensures Pow2(k + 7) == 128 * Pow2(k)
  {
    assert Pow2(k + 2) == 4 * Pow2(k);
    assert Pow2(k + 4) == 4 * Pow2(k + 2);
    assert Pow2(k + 6) == 4 * Pow2(k + 4);
  }

  /** Decoding a number gives it back, for every unsigned 64-bit number. */
  lemma {:induction false} UvarintRoundTrip(v: Word, t: seq<Byte>)
    ensures ReadUvarint(Uvarint(v) + t) == Ok((v, t))
  {
    assert Pow2(0) == 1;
    UvarintOn(v, 0, 0, t);
  }

  /** A 64-bit number takes at most ten bytes. */
  lemma {:induction false} UvarintLength(v: nat, n: nat)
    requires v < Pow2(7 * n) && n > 0
    ensures 1 <= |Uvarint(v)| <= n
    decreases n
  {
    Pow2Plus7(7 * (n - 1));
    assert Pow2(0) == 1;
    if v >= 128 {
      UvarintLength(v / 128, n - 1);
    }
  }

  lemma {:induction false} UvarintAtMostTen(v: Word)
    ensures |Uvarint(v)| <= 10
  {
    Pow2Is64();
    Pow2Grows(64, 70);
    UvarintLength(v, 10);
  }

  // ----- the format -------------------------------------------------------------------------

  const MAGIC: seq<Byte> := [0x42, 0x49, 0x43, 0x49, 0x4D, 0x47, 0x01]

  const T_ORDINARY: Byte := 0
  const T_CLOSURE: Byte := 1
  const T_LEGACY_CLOSURE: Byte := 2
  const T_STRING: Byte := 3
  const T_BYTES: Byte := 4
  const T_CODE: Byte := 5
  const T_ENTRY_POINT: Byte := 6
  const T_WEAK_REF: Byte := 7
  const V_TAGGED: Byte := 0
  const V_REF: Byte := 1

  function WriteValue(v: Value): seq<Byte> {
    match v
    case Tagged(n) => [V_TAGGED] + Uvarint(Zigzag(n))
    case Ref(id) => [V_REF] + Uvarint(id)
  }

  function WriteEach(vs: seq<Value>): seq<Byte> {
    if vs == [] then [] else WriteValue(vs[0]) + WriteEach(vs[1..])
  }

  function WriteValues(vs: seq<Value>): seq<Byte> { Uvarint(|vs|) + WriteEach(vs) }

  function WriteBytes(b: seq<Byte>): seq<Byte> { Uvarint(|b|) + b }

  function WriteReloc(r: CodeReloc): seq<Byte> { Uvarint(r.offset) + ([r.kind] + Uvarint(r.target)) }

  function WriteRelocs(rs: seq<CodeReloc>): seq<Byte> {
    if rs == [] then [] else WriteReloc(rs[0]) + WriteRelocs(rs[1..])
  }

  function WriteBody(b: ObjectBody): seq<Byte> {
    match b
    case Ordinary(vs) => [T_ORDINARY] + WriteValues(vs)
    case Closure(code, vs) => [T_CLOSURE] + (Uvarint(code) + WriteValues(vs))
    case LegacyClosure(vs) => [T_LEGACY_CLOSURE] + WriteValues(vs)
    case String(bytes) => [T_STRING] + WriteBytes(bytes)
    case Bytes(bytes) => [T_BYTES] + WriteBytes(bytes)
    case Code(code, vs, relocs) =>
      [T_CODE] + (WriteBytes(code) + (WriteValues(vs) + (Uvarint(|relocs|) + WriteRelocs(relocs))))
    case EntryPoint(name) => [T_ENTRY_POINT] + WriteBytes(name)
    case WeakRef => [T_WEAK_REF]
  }

  function WriteObjects(os: seq<Object>): seq<Byte> {
    if os == [] then [] else [os[0].flags] + (WriteBody(os[0].body) + WriteObjects(os[1..]))
  }

  function WordSizeByte(w: WordSize): Byte { if w.Bits32? then 4 else 8 }

  datatype Header = Header(arch: SourceArch, wordSize: WordSize, root: U32, count: Word)

  function WriteHeader(h: Header): seq<Byte> {
    MAGIC + ([ArchByte(h.arch)] + ([WordSizeByte(h.wordSize)] + (Uvarint(h.root) + Uvarint(h.count))))
  }

  function HeaderOf(img: Image): Header
    requires |img.objects| < MODULUS
  {
    Header(img.arch, img.wordSize, img.root, |img.objects|)
  }

  function WriteBic(img: Image): seq<Byte>
    requires |img.objects| < MODULUS
  {
    WriteHeader(HeaderOf(img)) + WriteObjects(img.objects)
  }

  // ----- the reader, as functions on the rest of the input --------------------------------------

  /** How the reader turns bytes that are not UTF-8 into a string: it may do as it likes,
      but leaves valid text alone. */
  type Lossy = seq<Byte> -> seq<Byte>

  ghost predicate KeepsValid(lossy: Lossy) {
    forall b :: ValidUtf8(b) ==> lossy(b) == b
  }

  function ReadByte(s: seq<Byte>): Read<Byte> {
    if s == [] then Err(Eof) else Ok((s[0], s[1..]))
  }

  function ReadU32(s: seq<Byte>): Read<U32> {
    var (v, t) :- ReadUvarint(s);
    if v < 0x1_0000_0000 then Ok((v, t)) else Err(VarintOverflow)
  }

  function ReadBytes(s: seq<Byte>): Read<seq<Byte>> {
    var (n, t) :- ReadUvarint(s);
    if n > |t| then Err(BadLength) else Ok((t[..n], t[n..]))
  }

  function ReadValue(s: seq<Byte>): Read<Value> {
    var (tag, t) :- ReadByte(s);
    if tag == V_TAGGED then
      var (w, u) :- ReadUvarint(t);
      Ok((Tagged(Unzigzag(w)), u))
    else if tag == V_REF then
      var (id, u) :- ReadU32(t);
      Ok((Ref(id), u))
    else Err(BadValue)
  }

  function ReadEach(s: seq<Byte>, n: nat): Read<seq<Value>>
    decreases n
  {
    if n == 0 then Ok(([], s))
    else
      var (v, t) :- ReadValue(s);
      var (vs, u) :- ReadEach(t, n - 1);
      Ok(([v] + vs, u))
  }

  function ReadValues(s: seq<Byte>): Read<seq<Value>> {
    var (n, t) :- ReadUvarint(s);
    ReadEach(t, n)
  }

  function ReadReloc(s: seq<Byte>): Read<CodeReloc> {
    var (offset, t) :- ReadU32(s);
    var (kind, u) :- ReadByte(t);
    var (target, v) :- ReadU32(u);
    Ok((CodeReloc(offset, kind, target), v))
  }

  function ReadRelocs(s: seq<Byte>, n: nat): Read<seq<CodeReloc>>
    decreases n
  {
    if n == 0 then Ok(([], s))
    else
      var (r, t) :- ReadReloc(s);
      var (rs, u) :- ReadRelocs(t, n - 1);
      Ok(([r] + rs, u))
  }

  function ReadCode(s: seq<Byte>): Read<ObjectBody> {
    var (code, t) :- ReadBytes(s);
    var (constants, u) :- ReadValues(t);
    var (n, v) :- ReadUvarint(u);
    var (relocs, x) :- ReadRelocs(v, n);
    Ok((Code(code, constants, relocs), x))
  }

  function ReadClosure(s: seq<Byte>): Read<ObjectBody> {
    var (code, t) :- ReadU32(s);
    var (vs, u) :- ReadValues(t);
    Ok((Closure(code, vs), u))
  }

  function ReadValuesAs(legacy: bool, s: seq<Byte>): Read<ObjectBody> {
    var (vs, u) :- ReadValues(s);
    Ok((if legacy then LegacyClosure(vs) else Ordinary(vs), u))
  }

  function BytesAs(tag: Byte, b: seq<Byte>, lossy: Lossy): ObjectBody {
    if tag == T_STRING then String(b) else if tag == T_BYTES then Bytes(b) else EntryPoint(lossy(b))
  }

  function ReadBytesAs(tag: Byte, s: seq<Byte>, lossy: Lossy): Read<ObjectBody> {
    var (b, u) :- ReadBytes(s);
    Ok((BytesAs(tag, b, lossy), u))
  }

  function ReadBody(s: seq<Byte>, lossy: Lossy): Read<ObjectBody> {
    var (tag, t) :- ReadByte(s);
    if tag == T_ORDINARY || tag == T_LEGACY_CLOSURE then ReadValuesAs(tag == T_LEGACY_CLOSURE, t)
    else if tag == T_CLOSURE then ReadClosure(t)
    else if tag == T_CODE then ReadCode(t)
    else if tag == T_STRING || tag == T_BYTES || tag == T_ENTRY_POINT then ReadBytesAs(tag, t, lossy)
    else if tag == T_WEAK_REF then Ok((WeakRef, t))
    else Err(BadType)
  }

  function ReadObject(s: seq<Byte>, lossy: Lossy): Read<Object> {
    var (flags, t) :- ReadByte(s);
    var (body, u) :- ReadBody(t, lossy);
    Ok((Object(KnownBits(flags), body), u))
  }

  function ReadObjects(s: seq<Byte>, n: nat, lossy: Lossy): Read<seq<Object>>
    decreases n
  {
    if n == 0 then Ok(([], s))
    else
      var (o, t) :- ReadObject(s, lossy);
      var (os, u) :- ReadObjects(t, n - 1, lossy);
      Ok(([o] + os, u))
  }

  /** A constant, byte by byte. */
  function ReadMagic(s: seq<Byte>, magic: seq<Byte>): Read<()>
    decreases |magic|
  {
    if magic == [] then Ok(((), s))
    else
      var (b, t) :- ReadByte(s);
      if b != magic[0] then Err(BadMagic) else ReadMagic(t, magic[1..])
  }

  function ReadHeader(s: seq<Byte>): Read<Header> {
    var (_, t) :- ReadMagic(s, MAGIC);
    var (arch, u) :- ReadByte(t);
    var (size, v) :- ReadByte(u);
    var (root, x) :- ReadU32(v);
    var (n, y) :- ReadUvarint(x);
    Ok((Header(ArchOf(arch), if size == 4 then Bits32 else Bits64, root, n), y))
  }

  function ReadBic(s: seq<Byte>, lossy: Lossy): Read<Image> {
    var (h, t) :- ReadHeader(s);
    var (objects, u) :- ReadObjects(t, h.count, lossy);
    Ok((Image(h.root, h.arch, h.wordSize, objects), u))
  }

  // ----- reading back what was written -----------------------------------------------------------

  lemma Assoc(a: seq<Byte>, b: seq<Byte>, c: seq<Byte>)
    ensures (a + b) + c == a + (b + c)
  {
  }

  lemma Head(b: Byte, t: seq<Byte>)
    ensures ReadByte([b] + t) == Ok((b, t))
  {
    assert ([b] + t)[1..] == t;
  }

  lemma {:induction false} U32RoundTrip(v: U32, t: seq<Byte>)
    ensures ReadU32(Uvarint(v) + t) == Ok((v, t))
  {
    UvarintRoundTrip(v, t);
  }

  lemma BytesRoundTrip(b: seq<Byte>, t: seq<Byte>)
    requires |b| < MODULUS
    ensures ReadBytes(WriteBytes(b) + t) == Ok((b, t))
  {
    Assoc(Uvarint(|b|), b, t);
    UvarintRoundTrip(|b|, b + t);
  }

  lemma ValueRoundTrip(v: Value, t: seq<Byte>)
    ensures ReadValue(WriteValue(v) + t) == Ok((v, t))
  {
    match v {
      case Tagged(n) =>
        Assoc([V_TAGGED], Uvarint(Zigzag(n)), t);
        Head(V_TAGGED, Uvarint(Zigzag(n)) + t);
        UvarintRoundTrip(Zigzag(n), t);
        ZigzagBijection(n, 0);
      case Ref(id) =>
        Assoc([V_REF], Uvarint(id), t);
        Head(V_REF, Uvarint(id) + t);
        U32RoundTrip(id, t);
    }
  }

  lemma {:induction false} EachRoundTrip(vs: seq<Value>, t: seq<Byte>)
    ensures ReadEach(WriteEach(vs) + t, |vs|) == Ok((vs, t))
  {
    if vs == [] {
      assert [] + t == t;
    } else {
      Assoc(WriteValue(vs[0]), WriteEach(vs[1..]), t);
      ValueRoundTrip(vs[0], WriteEach(vs[1..]) + t);
      EachRoundTrip(vs[1..], t);
      assert [vs[0]] + vs[1..] == vs;
    }
  }

  lemma ValuesRoundTrip(vs: seq<Value>, t: seq<Byte>)
    requires |vs| < MODULUS
    ensures ReadValues(WriteValues(vs) + t) == Ok((vs, t))
  {
    Assoc(Uvarint(|vs|), WriteEach(vs), t);
    UvarintRoundTrip(|vs|, WriteEach(vs) + t);
    EachRoundTrip(vs, t);
  }

  lemma RelocRoundTrip(r: CodeReloc, t: seq<Byte>)
    ensures ReadReloc(WriteReloc(r) + t) == Ok((r, t))
  {
    Assoc(Uvarint(r.offset), [r.kind] + Uvarint(r.target), t);
    U32RoundTrip(r.offset, [r.kind] + Uvarint(r.target) + t);
    Assoc([r.kind], Uvarint(r.target), t);
    Head(r.kind, Uvarint(r.target) + t);
    U32RoundTrip(r.target, t);
  }

  lemma {:induction false} RelocsRoundTrip(rs: seq<CodeReloc>, t: seq<Byte>)
    ensures ReadRelocs(WriteRelocs(rs) + t, |rs|) == Ok((rs, t))
  {
    if rs == [] {
      assert [] + t == t;
    } else {
      Assoc(WriteReloc(rs[0]), WriteRelocs(rs[1..]), t);
      RelocRoundTrip(rs[0], WriteRelocs(rs[1..]) + t);
      RelocsRoundTrip(rs[1..], t);
      assert [rs[0]] + rs[1..] == rs;
    }
  }

  lemma {:induction false} CodeRoundTrip(code: seq<Byte>, vs: seq<Value>, relocs: seq<CodeReloc>, t: seq<Byte>)
    requires |code| < MODULUS && |vs| < MODULUS && |relocs| < MODULUS
    ensures ReadCode(WriteBytes(code) + (WriteValues(vs) + (Uvarint(|relocs|) + WriteRelocs(relocs))) + t)
      == Ok((Code(code, vs, relocs), t))
  {
    var c, b, a := Uvarint(|relocs|) + WriteRelocs(relocs), WriteValues(vs), WriteBytes(code);
    Assoc(a, b + c, t);
    BytesRoundTrip(code, b + c + t);
    Assoc(b, c, t);
    ValuesRoundTrip(vs, c + t);
    Assoc(Uvarint(|relocs|), WriteRelocs(relocs), t);
    UvarintRoundTrip(|relocs|, WriteRelocs(relocs) + t);
    RelocsRoundTrip(relocs, t);
  }

  lemma BodyRoundTrip(b: ObjectBody, t: seq<Byte>, lossy: Lossy)
    requires Typed(b) && KeepsValid(lossy)
    ensures ReadBody(WriteBody(b) + t, lossy) == Ok((b, t))
  {
    var w := WriteBody(b);
    var tag, rest := w[0], w[1..];
    assert w == [tag] + rest;
    Assoc([tag], rest, t);
    Head(tag, rest + t);
    match b {
      case Ordinary(vs) => ValuesRoundTrip(vs, t);
      case Closure(code, vs) =>
        Assoc(Uvarint(code), WriteValues(vs), t);
        U32RoundTrip(code, WriteValues(vs) + t);
        ValuesRoundTrip(vs, t);
      case LegacyClosure(vs) => ValuesRoundTrip(vs, t);
      case String(bytes) => BytesRoundTrip(bytes, t);
      case Bytes(bytes) => BytesRoundTrip(bytes, t);
      case Code(code, vs, relocs) => CodeRoundTrip(code, vs, relocs, t);
      case EntryPoint(name) => BytesRoundTrip(name, t);
      case WeakRef => assert rest + t == t;
    }
  }

  lemma ObjectRoundTrip(o: Object, t: seq<Byte>, lossy: Lossy)
    requires Typed(o.body) && KeepsValid(lossy)
    ensures ReadObject([o.flags] + (WriteBody(o.body) + t), lossy) == Ok((o.(flags := KnownBits(o.flags)), t))
  {
    Head(o.flags, WriteBody(o.body) + t);
    BodyRoundTrip(o.body, t, lossy);
  }

  function Normalised(os: seq<Object>): seq<Object> {
    seq(|os|, i requires 0 <= i < |os| => os[i].(flags := KnownBits(os[i].flags)))
  }

  lemma {:induction false} ObjectsRoundTrip(os: seq<Object>, t: seq<Byte>, lossy: Lossy)
    requires KeepsValid(lossy) && forall i :: 0 <= i < |os| ==> Typed(os[i].body)
    ensures ReadObjects(WriteObjects(os) + t, |os|, lossy) == Ok((Normalised(os), t))
    decreases |os|
  {
    if os == [] {
      NoObjects(os, t);
    } else {
      FirstObject(os, t, lossy);
      ObjectsRoundTrip(os[1..], t, lossy);
      NormalisedSplits(os);
      OneMoreObject(WriteObjects(os) + t, |os|, lossy, Normalised(os)[0], WriteObjects(os[1..]) + t);
    }
  }

  lemma {:induction false} NoObjects(os: seq<Object>, t: seq<Byte>)
    requires os == []
    ensures WriteObjects(os) + t == t && Normalised(os) == []
  {
    assert [] + t == t;
  }

  lemma {:induction false} FirstObject(os: seq<Object>, t: seq<Byte>, lossy: Lossy)
    requires KeepsValid(lossy) && os != [] && Typed(os[0].body)
    ensures ReadObject(WriteObjects(os) + t, lossy) == Ok((Normalised(os)[0], WriteObjects(os[1..]) + t))
  {
    ObjectsText(os, t);
    ObjectRoundTrip(os[0], WriteObjects(os[1..]) + t, lossy);
    NormalisedSplits(os);
  }

  lemma {:induction false} ObjectsText(os: seq<Object>, t: seq<Byte>)
    requires os != []
    ensures WriteObjects(os) + t == [os[0].flags] + (WriteBody(os[0].body) + (WriteObjects(os[1..]) + t))
  {
    var rest := WriteObjects(os[1..]);
    Assoc([os[0].flags], WriteBody(os[0].body) + rest, t);
    Assoc(WriteBody(os[0].body), rest, t);
  }

  lemma {:induction false} NormalisedSplits(os: seq<Object>)
    requires os != []
    ensures Normalised(os)[0] == os[0].(flags := KnownBits(os[0].flags))
    ensures Normalised(os) == [Normalised(os)[0]] + Normalised(os[1..])
  {
  }

  lemma {:induction false} OneMoreObject(s: seq<Byte>, n: nat, lossy: Lossy, o: Object, u: seq<Byte>)
    requires n > 0 && ReadObject(s, lossy) == Ok((o, u)) && ReadObjects(u, n - 1, lossy).Ok?
    ensures var (os, rest) := ReadObjects(u, n - 1, lossy).value;
      ReadObjects(s, n, lossy) == Ok(([o] + os, rest))
  {
  }

  lemma {:induction false} MagicRoundTrip(magic: seq<Byte>, t: seq<Byte>)
    ensures ReadMagic(magic + t, magic) == Ok(((), t))
    decreases |magic|
  {
    if magic == [] {
      assert magic + t == t;
    } else {
      assert magic + t == [magic[0]] + (magic[1..] + t);
      Head(magic[0], magic[1..] + t);
      MagicRoundTrip(magic[1..], t);
    }
  }

  lemma HeaderRoundTrip(h: Header, t: seq<Byte>)
    ensures ReadHeader(WriteHeader(h) + t) == Ok((h.(arch := ArchOf(ArchByte(h.arch))), t))
  {
    var d := Uvarint(h.root) + Uvarint(h.count);
    var c := [WordSizeByte(h.wordSize)] + d;
    var b := [ArchByte(h.arch)] + c;
    Assoc(MAGIC, b, t);
    MagicRoundTrip(MAGIC, b + t);
    Assoc([ArchByte(h.arch)], c, t);
    Head(ArchByte(h.arch), c + t);
    Assoc([WordSizeByte(h.wordSize)], d, t);
    Head(WordSizeByte(h.wordSize), d + t);
    Assoc(Uvarint(h.root), Uvarint(h.count), t);
    U32RoundTrip(h.root, Uvarint(h.count) + t);
    UvarintRoundTrip(h.count, t);
  }

  /** What reading makes of an image: unknown flag bits dropped, the architecture made
      canonical. */
  function Carried(img: Image): Image {
    img.(arch := ArchOf(ArchByte(img.arch)), objects := Normalised(img.objects))
  }

  /** Reading what was written gives that, and leaves exactly what follows it. */
  lemma ReadWritten(img: Image, t: seq<Byte>, lossy: Lossy)
    requires TypedImage(img) && KeepsValid(lossy)
    ensures ReadBic(WriteBic(img) + t, lossy) == Ok((Carried(img), t))
  {
    Assoc(WriteHeader(HeaderOf(img)), WriteObjects(img.objects), t);
    HeaderRoundTrip(HeaderOf(img), WriteObjects(img.objects) + t);
    ObjectsRoundTrip(img.objects, t, lossy);
  }

  /** What the format can carry: the architecture is canonical, no flag bit is unknown. */
  predicate Portable(img: Image) {
    CanonicalArch(img.arch) && forall i :: 0 <= i < |img.objects| ==> KnownFlags(img.objects[i].flags)
  }

  /** The binary format round-trips, consuming every byte, exactly for the images it can
      carry. */
  lemma BicRoundTrip(img: Image, lossy: Lossy)
    requires TypedImage(img) && KeepsValid(lossy)
    ensures ReadBic(WriteBic(img), lossy) == Ok((img, [])) <==> Portable(img)
  {
    assert WriteBic(img) + [] == WriteBic(img);
    ReadWritten(img, [], lossy);
    CarriedIsSame(img);
  }

  lemma CarriedIsSame(img: Image)
    ensures Carried(img) == img <==> Portable(img)
  {
    if Portable(img) {
      assert Normalised(img.objects) == img.objects;
    } else if Carried(img) == img {
      forall i | 0 <= i < |img.objects| ensures KnownFlags(img.objects[i].flags) {
        assert Normalised(img.objects)[i] == img.objects[i];
      }
    }
  }

  // ----- truncation ------------------------------------------------------------------------------

  /** What a reader makes of its input it makes of any longer input too. */
  lemma {:induction false} UvarintExtends(s: seq<Byte>, q: seq<Byte>, shift: nat, acc: Word)
    requires ReadUvarintFrom(s, shift, acc).Ok?
    ensures var (v, t) := ReadUvarintFrom(s, shift, acc).value;
      ReadUvarintFrom(s + q, shift, acc) == Ok((v, t + q))
    decreases |s|
  {
    assert (s + q)[1..] == s[1..] + q;
    if s[0] >= 128 {
      UvarintExtends(s[1..], q, shift + 7, OrShifted(acc, s[0] % 128, shift));
    }
  }

  lemma ByteExtends(s: seq<Byte>, q: seq<Byte>)
    requires s != []
    ensures ReadByte(s + q) == Ok((s[0], s[1..] + q))
  {
    assert (s + q)[1..] == s[1..] + q;
  }

  lemma U32Extends(s: seq<Byte>, q: seq<Byte>)
    requires ReadU32(s).Ok?
    ensures ReadU32(s + q) == Ok((ReadU32(s).value.0, ReadU32(s).value.1 + q))
  {
    UvarintExtends(s, q, 0, 0);
  }

  lemma BytesExtends(s: seq<Byte>, q: seq<Byte>)
    requires ReadBytes(s).Ok?
    ensures ReadBytes(s + q) == Ok((ReadBytes(s).value.0, ReadBytes(s).value.1 + q))
  {
    UvarintExtends(s, q, 0, 0);
    var (n, t) := ReadUvarint(s).value;
    assert (t + q)[..n] == t[..n] && (t + q)[n..] == t[n..] + q;
  }

  lemma ValueExtends(s: seq<Byte>, q: seq<Byte>)
    requires ReadValue(s).Ok?
    ensures ReadValue(s + q) == Ok((ReadValue(s).value.0, ReadValue(s).value.1 + q))
  {
    ByteExtends(s, q);
    UvarintExtends(s[1..], q, 0, 0);
  }

  lemma {:induction false} EachExtends(s: seq<Byte>, q: seq<Byte>, n: nat)
    requires ReadEach(s, n).Ok?
    ensures ReadEach(s + q, n) == Ok((ReadEach(s, n).value.0, ReadEach(s, n).value.1 + q))
    decreases n
  {
    if n > 0 {
      ValueExtends(s, q);
      EachExtends(ReadValue(s).value.1, q, n - 1);
    }
  }

  lemma ValuesExtends(s: seq<Byte>, q: seq<Byte>)
    requires ReadValues(s).Ok?
    ensures ReadValues(s + q) == Ok((ReadValues(s).value.0, ReadValues(s).value.1 + q))
  {
    UvarintExtends(s, q, 0, 0);
    var (n, t) := ReadUvarint(s).value;
    EachExtends(t, q, n);
  }

  lemma RelocExtends(s: seq<Byte>, q: seq<Byte>)
    requires ReadReloc(s).Ok?
    ensures ReadReloc(s + q) == Ok((ReadReloc(s).value.0, ReadReloc(s).value.1 + q))
  {
    U32Extends(s, q);
    var t := ReadU32(s).value.1;
    ByteExtends(t, q);
    U32Extends(t[1..], q);
  }

  lemma {:induction false} RelocsExtends(s: seq<Byte>, q: seq<Byte>, n: nat)
    requires ReadRelocs(s, n).Ok?
    ensures ReadRelocs(s + q, n) == Ok((ReadRelocs(s, n).value.0, ReadRelocs(s, n).value.1 + q))
    decreases n
  {
    if n > 0 {
      RelocExtends(s, q);
      RelocsExtends(ReadReloc(s).value.1, q, n - 1);
    }
  }

  lemma CodeExtends(s: seq<Byte>, q: seq<Byte>)
    requires ReadCode(s).Ok?
    ensures ReadCode(s + q) == Ok((ReadCode(s).value.0, ReadCode(s).value.1 + q))
  {
    BytesExtends(s, q);
    var t := ReadBytes(s).value.1;
    ValuesExtends(t, q);
    var u := ReadValues(t).value.1;
    UvarintExtends(u, q, 0, 0);
    var (n, v) := ReadUvarint(u).value;
    RelocsExtends(v, q, n);
  }

  lemma BodyExtends(s: seq<Byte>, q: seq<Byte>, lossy: Lossy)
    requires ReadBody(s, lossy).Ok?
    ensures ReadBody(s + q, lossy) == Ok((ReadBody(s, lossy).value.0, ReadBody(s, lossy).value.1 + q))
  {
    ByteExtends(s, q);
    var tag, t := s[0], s[1..];
    if tag == T_ORDINARY || tag == T_LEGACY_CLOSURE {
      ValuesExtends(t, q);
    } else if tag == T_CLOSURE {
      U32Extends(t, q);
      ValuesExtends(ReadU32(t).value.1, q);
    } else if tag == T_CODE {
      CodeExtends(t, q);
    } else if tag == T_STRING || tag == T_BYTES || tag == T_ENTRY_POINT {
      BytesExtends(t, q);
    }
  }

  lemma ObjectExtends(s: seq<Byte>, q: seq<Byte>, lossy: Lossy)
    requires ReadObject(s, lossy).Ok?
    ensures ReadObject(s + q, lossy) == Ok((ReadObject(s, lossy).value.0, ReadObject(s, lossy).value.1 + q))
  {
    ByteExtends(s, q);
    BodyExtends(s[1..], q, lossy);
  }

  lemma {:induction false} ObjectsExtends(s: seq<Byte>, q: seq<Byte>, n: nat, lossy: Lossy)
    requires ReadObjects(s, n, lossy).Ok?
    ensures ReadObjects(s + q, n, lossy) == Ok((ReadObjects(s, n, lossy).value.0, ReadObjects(s, n, lossy).value.1 + q))
    decreases n
  {
    if n > 0 {
      ObjectExtends(s, q, lossy);
      ObjectsExtends(ReadObject(s, lossy).value.1, q, n - 1, lossy);
    }
  }

  lemma {:induction false} MagicExtends(s: seq<Byte>, q: seq<Byte>, magic: seq<Byte>)
    requires ReadMagic(s, magic).Ok?
    ensures ReadMagic(s + q, magic) == Ok(((), ReadMagic(s, magic).value.1 + q))
    decreases |magic|
  {
    if magic != [] {
      ByteExtends(s, q);
      MagicExtends(s[1..], q, magic[1..]);
    }
  }

  lemma HeaderExtends(s: seq<Byte>, q: seq<Byte>)
    requires ReadHeader(s).Ok?
    ensures ReadHeader(s + q) == Ok((ReadHeader(s).value.0, ReadHeader(s).value.1 + q))
  {
    MagicExtends(s, q, MAGIC);
    var t := ReadMagic(s, MAGIC).value.1;
    ByteExtends(t, q);
    ByteExtends(t[1..], q);
    var v := t[1..][1..];
    U32Extends(v, q);
    UvarintExtends(ReadU32(v).value.1, q, 0, 0);
  }

  lemma BicExtends(s: seq<Byte>, q: seq<Byte>, lossy: Lossy)
    requires ReadBic(s, lossy).Ok?
    ensures ReadBic(s + q, lossy) == Ok((ReadBic(s, lossy).value.0, ReadBic(s, lossy).value.1 + q))
  {
    HeaderExtends(s, q);
    var (h, t) := ReadHeader(s).value;
    ObjectsExtends(t, q, h.count, lossy);
  }

  /** Truncation is always detected: no strict prefix of a written image can be read. */
  lemma TruncationDetected(img: Image, k: nat, lossy: Lossy)
    requires TypedImage(img) && KeepsValid(lossy) && k < |WriteBic(img)|
    ensures ReadBic(WriteBic(img)[..k], lossy).Err?
  {
    var w := WriteBic(img);
    var p, q := w[..k], w[k..];
    assert w == p + q;
    assert w + [] == w;
    ReadWritten(img, [], lossy);
    assert q != [];
    if ReadBic(p, lossy).Ok? {
      BicExtends(p, q, lossy);
    }
  }
}
