/** The text image format: decimal numbers, hexadecimal bytes, one line per object. */
module Pexport {
  import opened Basics
  import opened Words
  import opened Images

  datatype ParseError = Eof | Expected | BadHeader | UnknownType | BadIndex | BadNumber | BadHex | CountMismatch

  /** What parsing a T from the front of the text gives: the T and the rest. */
  type Parse<T> = Result<(T, seq<Byte>), ParseError>

  const TAB: Byte := 0x09
  const LF: Byte := 0x0A
  const CR: Byte := 0x0D
  const SPACE: Byte := 0x20
  const COMMA: Byte := 0x2C
  const MINUS: Byte := 0x2D
  const ZERO: Byte := 0x30
  const COLON: Byte := 0x3A
  const AT: Byte := 0x40
  const BAR: Byte := 0x7C
  const M: Byte := 0x4D
  const N: Byte := 0x4E
  const V: Byte := 0x56
  const W: Byte := 0x57
  const T_O: Byte := 0x4F
  const T_C: Byte := 0x43
  const T_L: Byte := 0x4C
  const T_S: Byte := 0x53
  const T_B: Byte := 0x42
  const T_F: Byte := 0x46
  const T_E: Byte := 0x45
  const T_K: Byte := 0x4B

  predicate IsDigit(b: Byte) { 0x30 <= b <= 0x39 }
  predicate IsBlank(b: Byte) { b == SPACE || b == TAB }
  predicate IsEol(b: Byte) { b == CR || b == LF }

  // ----- skipping ---------------------------------------------------------------------------

  function Digits(s: seq<Byte>): (n: nat)
    ensures n <= |s|
  {
    if s != [] && IsDigit(s[0]) then 1 + Digits(s[1..]) else 0
  }

  function SkipBlank(s: seq<Byte>): (t: seq<Byte>)
    ensures |t| <= |s|
  {
    if s != [] && IsBlank(s[0]) then SkipBlank(s[1..]) else s
  }

  function SkipEol(s: seq<Byte>): (t: seq<Byte>)
    ensures |t| <= |s|
  {
    if s != [] && IsEol(s[0]) then SkipEol(s[1..]) else s
  }

  function Expect(s: seq<Byte>, b: Byte): Parse<()> {
    if s == [] then Err(Eof) else if s[0] == b then Ok(((), s[1..])) else Err(Expected)
  }

  function ExpectAll(s: seq<Byte>, word: seq<Byte>): Parse<()>
    decreases |word|
  {
    if word == [] then Ok(((), s))
    else
      var (_, t) :- Expect(s, word[0]);
      ExpectAll(t, word[1..])
  }

  // ----- numbers ------------------------------------------------------------------------------

  /** Decimal digits, without leading zeros. */
  function Dec(n: nat): (s: seq<Byte>)
    ensures |s| > 0
  {
    if n < 10 then [ZERO + n] else Dec(n / 10) + [ZERO + n % 10]
  }

  function DecInt(n: int): seq<Byte> { if n < 0 then [MINUS] + Dec(-n) else Dec(n) }

  /** The number that digits stand for. */
  function Decimal(s: seq<Byte>): nat
    requires forall i :: 0 <= i < |s| ==> IsDigit(s[i])
  {
    if s == [] then 0
    else
      assert IsDigit(s[|s| - 1]);
      10 * Decimal(s[..|s| - 1]) + (s[|s| - 1] as int - 0x30)
  }

  lemma {:induction false} DigitsAreDigits(s: seq<Byte>)
    ensures forall i :: 0 <= i < Digits(s) ==> IsDigit(s[i])
    ensures Digits(s) < |s| ==> !IsDigit(s[Digits(s)])
  {
    if s != [] && IsDigit(s[0]) {
      DigitsAreDigits(s[1..]);
    }
  }

  function ReadU64(s: seq<Byte>): Parse<Word> {
    DigitsAreDigits(s);
    var n := Digits(s);
    if n == 0 || Decimal(s[..n]) >= MODULUS then Err(BadNumber) else Ok((Decimal(s[..n]), s[n..]))
  }

  function ReadI64(s: seq<Byte>): Parse<I64> {
    if s == [] then Err(Eof)
    else
      var t := if s[0] == MINUS then s[1..] else s;
      DigitsAreDigits(t);
      var n := Digits(t);
      if n == 0 then Err(BadNumber)
      else
        var v: int := if s[0] == MINUS then 0 - Decimal(t[..n]) else Decimal(t[..n]);
        if -HALF <= v < HALF then Ok((v, t[n..])) else Err(BadNumber)
  }

  /** Text that does not go on with a digit. */
  predicate NoDigit(t: seq<Byte>) { t == [] || !IsDigit(t[0]) }

  lemma {:induction false} DecDigits(n: nat)
    ensures forall i :: 0 <= i < |Dec(n)| ==> IsDigit(Dec(n)[i])
    ensures Decimal(Dec(n)) == n
  {
    if n >= 10 {
      DecDigits(n / 10);
      assert Dec(n)[..|Dec(n)| - 1] == Dec(n / 10);
    } else {
      assert Dec(n)[..0] == [];
    }
  }

  lemma {:induction false} DigitsOf(d: seq<Byte>, t: seq<Byte>)
    requires (forall i :: 0 <= i < |d| ==> IsDigit(d[i])) && NoDigit(t)
    ensures Digits(d + t) == |d|
  {
    if d == [] {
      assert d + t == t;
    } else {
      assert (d + t)[1..] == d[1..] + t;
      DigitsOf(d[1..], t);
    }
  }

  lemma {:induction false} DecSplits(n: nat, t: seq<Byte>)
    requires NoDigit(t)
    ensures Digits(Dec(n) + t) == |Dec(n)|
    ensures (Dec(n) + t)[..|Dec(n)|] == Dec(n) && (Dec(n) + t)[|Dec(n)|..] == t
  {
    DecDigits(n);
    DigitsOf(Dec(n), t);
  }

  lemma {:induction false} U64RoundTrip(v: Word, t: seq<Byte>)
    requires NoDigit(t)
    ensures ReadU64(Dec(v) + t) == Ok((v, t))
  {
    DecSplits(v, t);
    DecDigits(v);
  }

  lemma I64RoundTrip(v: I64, t: seq<Byte>)
    requires NoDigit(t)
    ensures ReadI64(DecInt(v) + t) == Ok((v, t))
  {
    if v < 0 {
      var k: nat := 0 - v as int;
      assert ([MINUS] + Dec(k) + t)[1..] == Dec(k) + t;
      DecSplits(k, t);
      DecDigits(k);
    } else {
      DecSplits(v, t);
      DecDigits(v);
    }
  }

  // ----- hexadecimal ---------------------------------------------------------------------------

  function HexChar(n: nat): Byte
    requires n < 16
  {
    if n < 10 then 0x30 + n else 0x61 + (n - 10)
  }

  function HexDigit(b: Byte): Option<nat> {
    if 0x30 <= b <= 0x39 then Some(b - 0x30)
    else if 0x61 <= b <= 0x66 then Some(b - 0x61 + 10)
    else if 0x41 <= b <= 0x46 then Some(b - 0x41 + 10)
    else None
  }

  function WriteHex(bytes: seq<Byte>): seq<Byte> {
    if bytes == [] then [] else [HexChar(bytes[0] / 16), HexChar(bytes[0] % 16)] + WriteHex(bytes[1..])
  }

  function ReadHex(s: seq<Byte>, n: nat): Parse<seq<Byte>>
    decreases n
  {
    if n == 0 then Ok(([], s))
    else if |s| < 2 then Err(Eof)
    else if HexDigit(s[0]).None? || HexDigit(s[1]).None? then Err(BadHex)
    else
      var (rest, t) :- ReadHex(s[2..], n - 1);
      Ok(([16 * HexDigit(s[0]).value + HexDigit(s[1]).value] + rest, t))
  }

  lemma {:induction false} HexRoundTrip(bytes: seq<Byte>, t: seq<Byte>)
    ensures ReadHex(WriteHex(bytes) + t, |bytes|) == Ok((bytes, t))
  {
    if bytes == [] {
      assert [] + t == t;
    } else {
      var s := WriteHex(bytes) + t;
      assert s[2..] == WriteHex(bytes[1..]) + t;
      HexRoundTrip(bytes[1..], t);
      assert [bytes[0]] + bytes[1..] == bytes;
    }
  }

  // ----- values -----------------------------------------------------------------------------------

  function WriteValue(v: Value): seq<Byte> {
    match v
    case Tagged(n) => DecInt(n)
    case Ref(id) => [AT] + Dec(id)
  }

  /** Comma-separated. */
  function WriteList(vs: seq<Value>): seq<Byte> {
    if vs == [] then []
    else if |vs| == 1 then WriteValue(vs[0])
    else WriteValue(vs[0]) + ([COMMA] + WriteList(vs[1..]))
  }

  /** An object id below the declared count. */
  function ReadId(s: seq<Byte>, count: U32): Parse<U32> {
    var (id, t) :- ReadU64(s);
    if id < count then Ok((id, t)) else Err(BadIndex)
  }

  function ReadValue(s: seq<Byte>, count: U32): Parse<Value> {
    if s == [] then Err(Eof)
    else if s[0] == AT then
      var (id, t) :- ReadId(s[1..], count);
      Ok((Ref(id), t))
    else if s[0] == MINUS || IsDigit(s[0]) then
      var (n, t) :- ReadI64(s);
      Ok((Tagged(n), t))
    else Err(Expected)
  }

  function ReadList(s: seq<Byte>, n: nat, count: U32): Parse<seq<Value>>
    decreases n
  {
    if n == 0 then Ok(([], s))
    else
      var (v, t) :- ReadValue(s, count);
      if n == 1 then Ok(([v], t))
      else
        var (_, u) :- Expect(t, COMMA);
        var (vs, x) :- ReadList(u, n - 1, count);
        Ok(([v] + vs, x))
  }

  lemma Assoc(a: seq<Byte>, b: seq<Byte>, c: seq<Byte>)
    ensures (a + b) + c == a + (b + c)
  {
  }

  lemma ExpectHead(b: Byte, t: seq<Byte>)
    ensures Expect([b] + t, b) == Ok(((), t))
  {
    assert ([b] + t)[1..] == t;
  }

  lemma {:induction false} IdRoundTrip(id: U32, count: U32, t: seq<Byte>)
    requires id < count && NoDigit(t)
    ensures ReadId(Dec(id) + t, count) == Ok((id, t))
  {
    U64RoundTrip(id, t);
  }

  lemma ValueRoundTrip(v: Value, count: U32, t: seq<Byte>)
    requires (v.Ref? ==> v.id < count) && NoDigit(t)
    ensures ReadValue(WriteValue(v) + t, count) == Ok((v, t))
  {
    match v {
      case Tagged(n) =>
        I64RoundTrip(n, t);
        if n >= 0 {
          DecDigits(n);
        }
      case Ref(id) =>
        assert ([AT] + Dec(id) + t)[1..] == Dec(id) + t;
        IdRoundTrip(id, count, t);
    }
  }

  lemma {:induction false} ListRoundTrip(vs: seq<Value>, count: U32, t: seq<Byte>)
    requires ValuesBelow(vs, count) && NoDigit(t)
    ensures ReadList(WriteList(vs) + t, |vs|, count) == Ok((vs, t))
    decreases |vs|
  {
    if vs == [] {
      assert [] + t == t;
    } else if |vs| == 1 {
      ValueRoundTrip(vs[0], count, t);
      assert [vs[0]] == vs;
    } else {
      var rest := WriteList(vs[1..]) + t;
      WriteListSplits(vs, t);
      ValueRoundTrip(vs[0], count, [COMMA] + rest);
      ListRoundTrip(vs[1..], count, t);
      ReadListStep(WriteList(vs) + t, vs[0], rest, |vs|, count);
      assert [vs[0]] + vs[1..] == vs;
    }
  }

  lemma {:induction false} WriteListSplits(vs: seq<Value>, t: seq<Byte>)
    requires |vs| > 1
    ensures WriteList(vs) + t == WriteValue(vs[0]) + ([COMMA] + (WriteList(vs[1..]) + t))
  {
    Assoc(WriteValue(vs[0]), [COMMA] + WriteList(vs[1..]), t);
    Assoc([COMMA], WriteList(vs[1..]), t);
  }

  lemma ReadListStep(s: seq<Byte>, v: Value, rest: seq<Byte>, n: nat, count: U32)
    requires ReadValue(s, count) == Ok((v, [COMMA] + rest)) && n > 1 && ReadList(rest, n - 1, count).Ok?
    ensures ReadList(s, n, count) ==
      Ok(([v] + ReadList(rest, n - 1, count).value.0, ReadList(rest, n - 1, count).value.1))
  {
    ExpectHead(COMMA, rest);
  }

  // ----- object bodies ------------------------------------------------------------------------------

  function WriteReloc(r: CodeReloc): seq<Byte> {
    Dec(r.offset) + ([COMMA] + (Dec(r.kind) + ([COMMA] + ([AT] + (Dec(r.target) + [SPACE])))))
  }

  function WriteRelocs(rs: seq<CodeReloc>): seq<Byte> {
    if rs == [] then [] else WriteReloc(rs[0]) + WriteRelocs(rs[1..])
  }

  /** The captured values of a closure, each after a comma. */
  function WriteTail(vs: seq<Value>): seq<Byte> {
    if vs == [] then [] else [COMMA] + WriteList(vs)
  }

  /** What follows the type letter. */
  function WritePayload(b: ObjectBody): seq<Byte> {
    match b
    case Ordinary(vs) => Dec(|vs|) + ([BAR] + WriteList(vs))
    case Closure(code, vs) => Dec(1 + |vs|) + ([BAR] + ([AT] + (Dec(code) + WriteTail(vs))))
    case LegacyClosure(vs) => Dec(|vs|) + ([BAR] + WriteList(vs))
    case String(bytes) => Dec(|bytes|) + ([BAR] + WriteHex(bytes))
    case Bytes(bytes) => Dec(|bytes|) + ([BAR] + WriteHex(bytes))
    case Code(code, vs, relocs) =>
      Dec(|vs|) + ([COMMA] + (Dec(|code|) + ([BAR] + (WriteHex(code) + ([BAR] + (WriteList(vs) + ([BAR] + WriteRelocs(relocs))))))))
    case EntryPoint(name) => Dec(|name|) + ([BAR] + name)
    case WeakRef => []
  }

  function Letter(b: ObjectBody): Byte {
    match b
    case Ordinary(_) => T_O
    case Closure(_, _) => T_C
    case LegacyClosure(_) => T_L
    case String(_) => T_S
    case Bytes(_) => T_B
    case Code(_, _, _) => T_F
    case EntryPoint(_) => T_E
    case WeakRef => T_K
  }

  /** A count and the bar after it. */
  function ReadCount(s: seq<Byte>): Parse<Word> {
    var (n, t) :- ReadU64(s);
    var (_, u) :- Expect(t, BAR);
    Ok((n, u))
  }

  function ReadWords(legacy: bool, s: seq<Byte>, count: U32): Parse<ObjectBody> {
    var (n, t) :- ReadCount(s);
    var (vs, u) :- ReadList(t, n, count);
    Ok((if legacy then LegacyClosure(vs) else Ordinary(vs), u))
  }

  /** A count of zero is taken for one: there is always a code address. */
  function ReadClosure(s: seq<Byte>, count: U32): Parse<ObjectBody> {
    var (n, t) :- ReadCount(s);
    var (_, u) :- Expect(t, AT);
    var (code, v) :- ReadId(u, count);
    var (vs, x) :- ReadTail(v, n, count);
    Ok((Closure(code, vs), x))
  }

  /** The captured values of a closure of `n` words. */
  function ReadTail(s: seq<Byte>, n: nat, count: U32): Parse<seq<Value>> {
    if n <= 1 then Ok(([], s))
    else
      var (_, t) :- Expect(s, COMMA);
      ReadList(t, n - 1, count)
  }

  function ReadHexBody(isString: bool, s: seq<Byte>): Parse<ObjectBody> {
    var (n, t) :- ReadCount(s);
    var (bytes, u) :- ReadHex(t, n);
    Ok((if isString then String(bytes) else Bytes(bytes), u))
  }

  function ReadReloc(s: seq<Byte>, count: U32): Parse<CodeReloc> {
    var (offset, t) :- ReadU64(s);
    var (_, u) :- Expect(t, COMMA);
    var (kind, v) :- ReadU64(u);
    var (_, x) :- Expect(v, COMMA);
    var (_, y) :- Expect(x, AT);
    var (target, z) :- ReadId(y, count);
    if offset >= 0x1_0000_0000 || kind >= 256 then Err(BadHeader) else Ok((CodeReloc(offset, kind, target), z))
  }

  lemma ReadU64Consumes(s: seq<Byte>)
    requires ReadU64(s).Ok?
    ensures |ReadU64(s).value.1| < |s|
  {
  }

  lemma ReadRelocConsumes(s: seq<Byte>, count: U32)
    requires ReadReloc(s, count).Ok?
    ensures |ReadReloc(s, count).value.1| < |s|
  {
  }

  /** Relocations up to the end of the line, spaces between them. */
  function ReadRelocs(s: seq<Byte>, count: U32): Parse<seq<CodeReloc>>
    decreases |s|
  {
    if s == [] then Err(Eof)
    else if IsEol(s[0]) then Ok(([], s))
    else if s[0] == SPACE then ReadRelocs(s[1..], count)
    else
      match ReadReloc(s, count)
      case Err(e) => Err(e)
      case Ok((r, t)) =>
        ReadRelocConsumes(s, count);
        var (rs, u) :- ReadRelocs(t, count);
        Ok(([r] + rs, u))
  }

  function ReadCode(s: seq<Byte>, count: U32): Parse<ObjectBody> {
    var (nConsts, t) :- ReadU64(s);
    var (_, u) :- Expect(t, COMMA);
    var (nBytes, v) :- ReadCount(u);
    var (code, x) :- ReadHex(v, nBytes);
    var (_, y) :- Expect(x, BAR);
    var (constants, z) :- ReadList(y, nConsts, count);
    var (_, a) :- Expect(z, BAR);
    var (relocs, b) :- ReadRelocs(a, count);
    Ok((Code(code, constants, relocs), b))
  }

  function ReadEntryPoint(s: seq<Byte>): Parse<ObjectBody> {
    var (n, t) :- ReadCount(s);
    ReadName(t, n)
  }

  function ReadName(t: seq<Byte>, n: nat): Parse<ObjectBody> {
    if n > |t| then Err(Eof)
    else if !ValidUtf8(t[..n]) then Err(BadHeader)
    else Ok((EntryPoint(t[..n]), t[n..]))
  }

  /** The payload after the type letter `ty`. */
  function ReadPayload(ty: Byte, s: seq<Byte>, count: U32): Parse<ObjectBody> {
    if ty == T_O || ty == T_L then ReadWords(ty == T_L, s, count)
    else if ty == T_C then ReadClosure(s, count)
    else if ty == T_S || ty == T_B then ReadHexBody(ty == T_S, s)
    else if ty == T_F then ReadCode(s, count)
    else if ty == T_E then ReadEntryPoint(s)
    else if ty == T_K then Ok((WeakRef, s))
    else Err(UnknownType)
  }

  lemma {:induction false} CountRoundTrip(n: Word, t: seq<Byte>)
    ensures ReadCount(Dec(n) + ([BAR] + t)) == Ok((n, t))
  {
    U64RoundTrip(n, [BAR] + t);
    ExpectHead(BAR, t);
  }

  lemma {:induction false} WordsRoundTrip(legacy: bool, vs: seq<Value>, count: U32, t: seq<Byte>)
    requires |vs| < HALF && ValuesBelow(vs, count) && NoDigit(t)
    ensures ReadWords(legacy, Dec(|vs|) + ([BAR] + WriteList(vs)) + t, count)
      == Ok((if legacy then LegacyClosure(vs) else Ordinary(vs), t))
  {
    Assoc(Dec(|vs|), [BAR] + WriteList(vs), t);
    Assoc([BAR], WriteList(vs), t);
    CountRoundTrip(|vs|, WriteList(vs) + t);
    ListRoundTrip(vs, count, t);
  }

  lemma {:induction false} HexBodyRoundTrip(isString: bool, bytes: seq<Byte>, t: seq<Byte>)
    requires |bytes| < HALF
    ensures ReadHexBody(isString, Dec(|bytes|) + ([BAR] + WriteHex(bytes)) + t)
      == Ok((if isString then String(bytes) else Bytes(bytes), t))
  {
    Assoc(Dec(|bytes|), [BAR] + WriteHex(bytes), t);
    Assoc([BAR], WriteHex(bytes), t);
    CountRoundTrip(|bytes|, WriteHex(bytes) + t);
    HexRoundTrip(bytes, t);
  }

  lemma ClosureRoundTrip(code: U32, vs: seq<Value>, count: U32, t: seq<Byte>)
    requires |vs| < HALF && code < count && ValuesBelow(vs, count) && NoDigit(t)
    ensures ReadClosure(WritePayload(Closure(code, vs)) + t, count) == Ok((Closure(code, vs), t))
  {
    var c := Dec(code) + WriteTail(vs);
    Assoc(Dec(1 + |vs|), [BAR] + ([AT] + c), t);
    Assoc([BAR], [AT] + c, t);
    CountRoundTrip(1 + |vs|, [AT] + c + t);
    Assoc([AT], c, t);
    ExpectHead(AT, c + t);
    Assoc(Dec(code), WriteTail(vs), t);
    TailRoundTrip(vs, count, t);
    IdRoundTrip(code, count, WriteTail(vs) + t);
  }

  lemma TailRoundTrip(vs: seq<Value>, count: U32, t: seq<Byte>)
    requires ValuesBelow(vs, count) && NoDigit(t)
    ensures ReadTail(WriteTail(vs) + t, 1 + |vs|, count) == Ok((vs, t)) && NoDigit(WriteTail(vs) + t)
  {
    if vs == [] {
      assert WriteTail(vs) + t == t;
    } else {
      Assoc([COMMA], WriteList(vs), t);
      ExpectHead(COMMA, WriteList(vs) + t);
      ListRoundTrip(vs, count, t);
    }
  }

  lemma RelocRoundTrip(r: CodeReloc, count: U32, t: seq<Byte>)
    requires r.target < count
    ensures ReadReloc(WriteReloc(r) + t, count) == Ok((r, [SPACE] + t))
  {
    var f := Dec(r.target) + [SPACE];
    var e := [AT] + f;
    var d := [COMMA] + e;
    var c := Dec(r.kind) + d;
    var b := [COMMA] + c;
    Assoc(Dec(r.offset), b, t);
    Assoc([COMMA], c, t);
    U64RoundTrip(r.offset, [COMMA] + (c + t));
    ExpectHead(COMMA, c + t);
    Assoc(Dec(r.kind), d, t);
    Assoc([COMMA], e, t);
    U64RoundTrip(r.kind, [COMMA] + (e + t));
    ExpectHead(COMMA, e + t);
    Assoc([AT], f, t);
    ExpectHead(AT, f + t);
    Assoc(Dec(r.target), [SPACE], t);
    IdRoundTrip(r.target, count, [SPACE] + t);
  }

  lemma RelocStarts(r: CodeReloc, t: seq<Byte>)
    ensures var s := WriteReloc(r) + t; s != [] && IsDigit(s[0])
  {
    DecDigits(r.offset);
  }

  lemma {:induction false} AfterReloc(rest: seq<Byte>, count: U32)
    ensures ReadRelocs([SPACE] + rest, count) == ReadRelocs(rest, count)
  {
    assert ([SPACE] + rest)[1..] == rest;
  }

  lemma {:induction false} RelocsRoundTrip(rs: seq<CodeReloc>, count: U32, t: seq<Byte>)
    requires (forall i :: 0 <= i < |rs| ==> rs[i].target < count) && t != [] && IsEol(t[0])
    ensures ReadRelocs(WriteRelocs(rs) + t, count) == Ok((rs, t))
    decreases |rs|
  {
    if rs == [] {
      assert [] + t == t;
    } else {
      var rest := WriteRelocs(rs[1..]) + t;
      Assoc(WriteReloc(rs[0]), WriteRelocs(rs[1..]), t);
      RelocStarts(rs[0], rest);
      RelocRoundTrip(rs[0], count, rest);
      AfterReloc(rest, count);
      RelocsRoundTrip(rs[1..], count, t);
      assert [rs[0]] + rs[1..] == rs;
    }
  }

  lemma CodeRoundTrip(code: seq<Byte>, vs: seq<Value>, relocs: seq<CodeReloc>, count: U32, t: seq<Byte>)
    requires |code| < HALF && |vs| < HALF && ClosedBody(Code(code, vs, relocs), count) && t != [] && IsEol(t[0])
    ensures ReadCode(WritePayload(Code(code, vs, relocs)) + t, count) == Ok((Code(code, vs, relocs), t))
  {
    var g := WriteRelocs(relocs);
    var f := WriteList(vs) + ([BAR] + g);
    var e := WriteHex(code) + ([BAR] + f);
    var d := Dec(|code|) + ([BAR] + e);
    Assoc(Dec(|vs|), [COMMA] + d, t);
    Assoc([COMMA], d, t);
    U64RoundTrip(|vs|, [COMMA] + (d + t));
    ExpectHead(COMMA, d + t);
    Assoc(Dec(|code|), [BAR] + e, t);
    Assoc([BAR], e, t);
    CountRoundTrip(|code|, e + t);
    Assoc(WriteHex(code), [BAR] + f, t);
    Assoc([BAR], f, t);
    HexRoundTrip(code, [BAR] + (f + t));
    ExpectHead(BAR, f + t);
    Assoc(WriteList(vs), [BAR] + g, t);
    Assoc([BAR], g, t);
    ListRoundTrip(vs, count, [BAR] + (g + t));
    ExpectHead(BAR, g + t);
    RelocsRoundTrip(relocs, count, t);
  }

  lemma {:induction false} EntryPointRoundTrip(name: seq<Byte>, t: seq<Byte>)
    requires |name| < HALF && ReadName(name + t, |name|) == Ok((EntryPoint(name), t))
    ensures ReadEntryPoint(Dec(|name|) + ([BAR] + name) + t) == Ok((EntryPoint(name), t))
  {
    Assoc(Dec(|name|), [BAR] + name, t);
    Assoc([BAR], name, t);
    CountRoundTrip(|name|, name + t);
  }

  lemma {:induction false} NameRoundTrip(name: seq<Byte>, t: seq<Byte>)
    requires ValidUtf8(name)
    ensures ReadName(name + t, |name|) == Ok((EntryPoint(name), t))
  {
    var s := name + t;
    assert s[..|name|] == name && s[|name|..] == t;
  }

  lemma {:induction false} NamedRoundTrip(name: seq<Byte>, t: seq<Byte>)
    requires |name| < HALF && ValidUtf8(name)
    ensures ReadEntryPoint(Dec(|name|) + ([BAR] + name) + t) == Ok((EntryPoint(name), t))
  {
    NameRoundTrip(name, t);
    EntryPointRoundTrip(name, t);
  }

  /** A body whose references are below the count, at the end of its line. */
  lemma PayloadRoundTrip(b: ObjectBody, count: U32, t: seq<Byte>)
    requires Typed(b) && ClosedBody(b, count) && t != [] && IsEol(t[0])
    ensures ReadPayload(Letter(b), WritePayload(b) + t, count) == Ok((b, t))
  {
    if b.Ordinary? || b.LegacyClosure? {
      WordsRoundTrip(b.LegacyClosure?, b.values, count, t);
    } else if b.String? || b.Bytes? {
      HexBodyRoundTrip(b.String?, b.bytes, t);
    } else {
      OtherRoundTrip(b, count, t);
    }
  }

  lemma OtherRoundTrip(b: ObjectBody, count: U32, t: seq<Byte>)
    requires b.Closure? || b.Code? || b.EntryPoint? || b.WeakRef?
    requires Typed(b) && ClosedBody(b, count) && t != [] && IsEol(t[0])
    ensures ReadPayload(Letter(b), WritePayload(b) + t, count) == Ok((b, t))
  {
    match b {
      case Closure(code, vs) => ClosureRoundTrip(code, vs, count, t);
      case Code(code, vs, relocs) => CodeRoundTrip(code, vs, relocs, count, t);
      case EntryPoint(name) => NamedRoundTrip(name, t);
      case WeakRef => assert [] + t == t;
    }
  }

  // ----- what is accepted ---------------------------------------------------------------------------

  lemma {:induction false} HexShrinks(s: seq<Byte>, n: nat)
    requires ReadHex(s, n).Ok?
    ensures |ReadHex(s, n).value.0| == n && |ReadHex(s, n).value.1| == |s| - 2 * n
    decreases n
  {
    if n > 0 {
      HexShrinks(s[2..], n - 1);
    }
  }

  lemma ValueFacts(s: seq<Byte>, count: U32)
    requires ReadValue(s, count).Ok?
    ensures |ReadValue(s, count).value.1| < |s|
    ensures ReadValue(s, count).value.0.Ref? ==> ReadValue(s, count).value.0.id < count
  {
  }

  lemma {:induction false} ListFacts(s: seq<Byte>, n: nat, count: U32)
    requires ReadList(s, n, count).Ok?
    ensures var (vs, t) := ReadList(s, n, count).value;
      |vs| == n && ValuesBelow(vs, count) && |t| + n <= |s|
    decreases n
  {
    if n > 0 {
      ValueFacts(s, count);
      if n > 1 {
        ListFacts(ReadValue(s, count).value.1[1..], n - 1, count);
      }
    }
  }

  lemma {:induction false} RelocsFacts(s: seq<Byte>, count: U32)
    requires ReadRelocs(s, count).Ok?
    ensures var (rs, t) := ReadRelocs(s, count).value;
      |rs| + |t| <= |s| && forall i :: 0 <= i < |rs| ==> rs[i].target < count
    decreases |s|
  {
    if !IsEol(s[0]) {
      if s[0] == SPACE {
        RelocsFacts(s[1..], count);
      } else {
        ReadRelocConsumes(s, count);
        RelocsFacts(ReadReloc(s, count).value.1, count);
      }
    }
  }

  /** What an accepted payload guarantees. */
  ghost predicate BodyFacts(r: Parse<ObjectBody>, s: seq<Byte>, count: U32) {
    r.Ok? ==>
      && |r.value.1| <= |s| && ClosedBody(r.value.0, count) && (|s| < HALF ==> Typed(r.value.0))
  }

  lemma WordsFacts(legacy: bool, s: seq<Byte>, count: U32)
    ensures BodyFacts(ReadWords(legacy, s, count), s, count)
  {
    if ReadWords(legacy, s, count).Ok? {
      var (n, t) := ReadCount(s).value;
      ListFacts(t, n, count);
    }
  }

  lemma ClosureFacts(s: seq<Byte>, count: U32)
    ensures BodyFacts(ReadClosure(s, count), s, count)
  {
    if ReadClosure(s, count).Ok? {
      var (n, t) := ReadCount(s).value;
      var v := ReadId(t[1..], count).value.1;
      if n > 1 {
        ListFacts(v[1..], n - 1, count);
      }
    }
  }

  lemma HexBodyFacts(isString: bool, s: seq<Byte>, count: U32)
    ensures BodyFacts(ReadHexBody(isString, s), s, count)
  {
    if ReadHexBody(isString, s).Ok? {
      var (n, t) := ReadCount(s).value;
      HexShrinks(t, n);
    }
  }

  lemma CodeFacts(s: seq<Byte>, count: U32)
    ensures BodyFacts(ReadCode(s, count), s, count)
  {
    if ReadCode(s, count).Ok? {
      var (nConsts, t) := ReadU64(s).value;
      var (nBytes, v) := ReadCount(t[1..]).value;
      HexShrinks(v, nBytes);
      var y := ReadHex(v, nBytes).value.1[1..];
      ListFacts(y, nConsts, count);
      RelocsFacts(ReadList(y, nConsts, count).value.1[1..], count);
    }
  }

  lemma EntryPointFacts(s: seq<Byte>, count: U32)
    ensures BodyFacts(ReadEntryPoint(s), s, count)
  {
    if ReadEntryPoint(s).Ok? {
      var (n, t) := ReadCount(s).value;
      NameFacts(t, n, count);
    }
  }

  lemma NameFacts(t: seq<Byte>, n: nat, count: U32)
    ensures BodyFacts(ReadName(t, n), t, count)
  {
  }

  lemma PayloadFacts(ty: Byte, s: seq<Byte>, count: U32)
    ensures BodyFacts(ReadPayload(ty, s, count), s, count)
  {
    if ty == T_O || ty == T_L {
      WordsFacts(ty == T_L, s, count);
    } else if ty == T_C {
      ClosureFacts(s, count);
    } else if ty == T_S || ty == T_B {
      HexBodyFacts(ty == T_S, s, count);
    } else if ty == T_F {
      CodeFacts(s, count);
    } else if ty == T_E {
      EntryPointFacts(s, count);
    }
  }
}
