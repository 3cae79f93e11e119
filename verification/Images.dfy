/** The object graph that both image formats carry. */
module Images {
  import opened Basics
  import opened Words

  type U32 = n: int | 0 <= n < 0x1_0000_0000
  type I64 = n: int | -HALF <= n < HALF

  datatype SourceArch = Interpreted | X86 | Arm | Other(c: Byte)

  datatype WordSize = Bits32 | Bits64

  datatype Value = Tagged(n: I64) | Ref(id: U32)

  datatype CodeReloc = CodeReloc(offset: U32, kind: Byte, target: U32)

  datatype ObjectBody =
    | Ordinary(values: seq<Value>)
    | Closure(codeAddr: U32, values: seq<Value>)
    | LegacyClosure(values: seq<Value>)
    | String(bytes: seq<Byte>)
    | Bytes(bytes: seq<Byte>)
    | Code(code: seq<Byte>, constants: seq<Value>, relocs: seq<CodeReloc>)
    | EntryPoint(name: seq<Byte>)
    | WeakRef

  /** `flags` is the raw byte; four of its bits have a meaning. */
  datatype Object = Object(flags: Byte, body: ObjectBody)

  datatype Image = Image(root: U32, arch: SourceArch, wordSize: WordSize, objects: seq<Object>)

  // ----- architecture and flags ---------------------------------------------------------

  const CHAR_I: Byte := 0x49
  const CHAR_X: Byte := 0x58
  const CHAR_A: Byte := 0x41

  function ArchByte(a: SourceArch): Byte {
    match a
    case Interpreted => CHAR_I
    case X86 => CHAR_X
    case Arm => CHAR_A
    case Other(c) => c
  }

  function ArchOf(b: Byte): (a: SourceArch)
    ensures CanonicalArch(a) && ArchByte(a) == b
  {
    if b == CHAR_I then Interpreted else if b == CHAR_X then X86 else if b == CHAR_A then Arm else Other(b)
  }

  /** An architecture with a letter of its own is never `Other`. */
  predicate CanonicalArch(a: SourceArch) {
    a.Other? ==> a.c !in {CHAR_I, CHAR_X, CHAR_A}
  }

  const MUTABLE: nat := 0x40
  const WEAK: nat := 0x20
  const NEGATIVE: nat := 0x10
  const NO_OVERWRITE: nat := 0x08

  predicate Has(flags: Byte, bit: nat)
    requires bit > 0
  {
    (flags / bit) % 2 == 1
  }

  function WithBit(on: bool, bit: nat): nat { if on then bit else 0 }

  function FlagByte(m: bool, n: bool, v: bool, w: bool): Byte {
    WithBit(m, MUTABLE) + WithBit(n, NEGATIVE) + WithBit(v, NO_OVERWRITE) + WithBit(w, WEAK)
  }

  /** `from_bits_truncate`: only the four known bits. */
  function KnownBits(flags: Byte): Byte {
    FlagByte(Has(flags, MUTABLE), Has(flags, NEGATIVE), Has(flags, NO_OVERWRITE), Has(flags, WEAK))
  }

  predicate KnownFlags(flags: Byte) { KnownBits(flags) == flags }

  /** A byte made of flags has just those flags. */
  lemma FlagByteHas(m: bool, n: bool, v: bool, w: bool)
    ensures var f := FlagByte(m, n, v, w);
      Has(f, MUTABLE) == m && Has(f, NEGATIVE) == n && Has(f, NO_OVERWRITE) == v && Has(f, WEAK) == w
    ensures KnownFlags(FlagByte(m, n, v, w))
  {
  }

  // ----- UTF-8 (RFC 3629) ---------------------------------------------------------------

  predicate Continuation(b: Byte) { 0x80 <= b <= 0xBF }

  /** The length of the well-formed UTF-8 sequence at the front, 0 if there is none
      (section 4 of RFC 3629). */
  function Utf8Head(s: seq<Byte>): (n: nat)
    ensures n <= |s| && n <= 4
  {
    if s == [] then 0
    else if s[0] < 0x80 then 1
    else if 0xC2 <= s[0] <= 0xDF && |s| >= 2 && Continuation(s[1]) then 2
    else if |s| >= 3 && ThreeBytes(s[0], s[1]) && Continuation(s[2]) then 3
    else if |s| >= 4 && FourBytes(s[0], s[1]) && Continuation(s[2]) && Continuation(s[3]) then 4
    else 0
  }

  predicate ThreeBytes(a: Byte, b: Byte) {
    || (a == 0xE0 && 0xA0 <= b <= 0xBF)
    || ((0xE1 <= a <= 0xEC || 0xEE <= a <= 0xEF) && Continuation(b))
    || (a == 0xED && 0x80 <= b <= 0x9F)
  }

  predicate FourBytes(a: Byte, b: Byte) {
    || (a == 0xF0 && 0x90 <= b <= 0xBF)
    || (0xF1 <= a <= 0xF3 && Continuation(b))
    || (a == 0xF4 && 0x80 <= b <= 0x8F)
  }

  predicate ValidUtf8(s: seq<Byte>)
    decreases |s|
  {
    s == [] || (Utf8Head(s) > 0 && ValidUtf8(s[Utf8Head(s)..]))
  }

  // ----- well-formed images --------------------------------------------------------------

  predicate ValuesBelow(vs: seq<Value>, count: nat) {
    forall i :: 0 <= i < |vs| && vs[i].Ref? ==> vs[i].id < count
  }

  /** Every reference in the object is below `count`. */
  predicate ClosedBody(b: ObjectBody, count: nat) {
    match b
    case Ordinary(vs) => ValuesBelow(vs, count)
    case Closure(code, vs) => code < count && ValuesBelow(vs, count)
    case LegacyClosure(vs) => ValuesBelow(vs, count)
    case Code(_, vs, relocs) =>
      ValuesBelow(vs, count) && forall i :: 0 <= i < |relocs| ==> relocs[i].target < count
    case _ => true
  }

  /** What the types of the implementation give: lengths fit a machine word, and names are
      strings. */
  predicate Typed(b: ObjectBody) {
    match b
    case Ordinary(vs) => |vs| < HALF
    case Closure(_, vs) => |vs| < HALF
    case LegacyClosure(vs) => |vs| < HALF
    case String(bytes) => |bytes| < HALF
    case Bytes(bytes) => |bytes| < HALF
    case Code(code, vs, relocs) => |code| < HALF && |vs| < HALF && |relocs| < HALF
    case EntryPoint(name) => |name| < HALF && ValidUtf8(name)
    case WeakRef => true
  }

  predicate TypedImage(img: Image) {
    |img.objects| < HALF && forall i :: 0 <= i < |img.objects| ==> Typed(img.objects[i].body)
  }
}
