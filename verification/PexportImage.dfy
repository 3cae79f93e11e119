/** Whole images as text: header, object lines, and the check that every object is there. */
module PexportImage {
  import opened Basics
  import opened Words
  import opened Images
  import opened Pexport

  // ----- object lines -------------------------------------------------------------------------

  datatype FlagSet = FlagSet(m: bool, n: bool, v: bool, w: bool)

  function FlagsOf(flags: Byte): FlagSet {
    FlagSet(Has(flags, MUTABLE), Has(flags, NEGATIVE), Has(flags, NO_OVERWRITE), Has(flags, WEAK))
  }

  function ByteOf(f: FlagSet): Byte { FlagByte(f.m, f.n, f.v, f.w) }

  function When(on: bool, b: Byte): seq<Byte> { if on then [b] else [] }

  /** The modifier letters, in the order MNVW. */
  function WriteFlags(f: FlagSet): seq<Byte> {
    When(f.m, M) + (When(f.n, N) + (When(f.v, V) + When(f.w, W)))
  }

  /** Modifier letters in any order, any number of times. */
  function ReadFlags(s: seq<Byte>, f: FlagSet): Parse<FlagSet> {
    if s == [] then Err(Eof)
    else if s[0] == M then ReadFlags(s[1..], f.(m := true))
    else if s[0] == N then ReadFlags(s[1..], f.(n := true))
    else if s[0] == V then ReadFlags(s[1..], f.(v := true))
    else if s[0] == W then ReadFlags(s[1..], f.(w := true))
    else Ok((f, s))
  }

  /** The id is printed as a 32-bit number. */
  function WriteObject(id: nat, o: Object): seq<Byte> {
    Dec(id % 0x1_0000_0000) + ([COLON] + WriteDefinition(o))
  }

  /** Flags, type letter, payload, end of line. */
  function WriteDefinition(o: Object): seq<Byte> {
    WriteFlags(FlagsOf(o.flags)) + ([Letter(o.body)] + (WritePayload(o.body) + [LF]))
  }

  /** Flags, type letter and payload, and nothing after them but blanks. */
  function ReadObject(s: seq<Byte>, count: U32): Parse<Object> {
    var (flags, t) :- ReadFlags(s, FlagSet(false, false, false, false));
    if t == [] then Err(Eof)
    else
      var (body, u) :- ReadPayload(t[0], t[1..], count);
      var rest := SkipBlank(u);
      if rest == [] || IsEol(rest[0]) then Ok((Object(ByteOf(flags), body), rest)) else Err(Expected)
  }

  function ReadLine(s: seq<Byte>, count: U32): Parse<(U32, Object)> {
    var (id, t) :- ReadId(s, count);
    var (_, u) :- Expect(t, COLON);
    var (o, v) :- ReadObject(u, count);
    Ok(((id, o), v))
  }

  // ----- the object table ----------------------------------------------------------------------

  type Lines = seq<(U32, Object)>

  lemma {:induction false} FlagsConsume(s: seq<Byte>, f: FlagSet)
    requires ReadFlags(s, f).Ok?
    ensures |ReadFlags(s, f).value.1| <= |s|
  {
    if s[0] in {M, N, V, W} {
      FlagsConsume(s[1..], if s[0] == M then f.(m := true) else if s[0] == N then f.(n := true)
        else if s[0] == V then f.(v := true) else f.(w := true));
    }
  }

  /** An accepted object refers to nothing beyond the count, has known flags only, and is
      no longer than its text. */
  lemma ObjectFacts(s: seq<Byte>, count: U32)
    requires ReadObject(s, count).Ok?
    ensures |ReadObject(s, count).value.1| <= |s|
    ensures var o := ReadObject(s, count).value.0;
      ClosedBody(o.body, count) && KnownFlags(o.flags) && (|s| < HALF ==> Typed(o.body))
  {
    var f0 := FlagSet(false, false, false, false);
    FlagsConsume(s, f0);
    var (f, t) := ReadFlags(s, f0).value;
    FlagByteHas(f.m, f.n, f.v, f.w);
    PayloadFacts(t[0], t[1..], count);
  }

  lemma LineFacts(s: seq<Byte>, count: U32)
    requires ReadLine(s, count).Ok?
    ensures |ReadLine(s, count).value.1| < |s|
    ensures var (id, o) := ReadLine(s, count).value.0;
      id < count && ClosedBody(o.body, count) && KnownFlags(o.flags) && (|s| < HALF ==> Typed(o.body))
  {
    var (id, t) := ReadId(s, count).value;
    ReadU64Consumes(s);
    ObjectFacts(t[1..], count);
  }

  /** Lines until the end of the text, blank lines between them. */
  function ReadLines(s: seq<Byte>, count: U32): Result<Lines, ParseError>
    decreases |s|
  {
    var t := SkipEol(s);
    if t == [] then Ok([])
    else
      match ReadLine(t, count)
      case Err(e) => Err(e)
      case Ok((line, u)) =>
        LineFacts(t, count);
        var rest :- ReadLines(u, count);
        Ok([line] + rest)
  }

  /** The object the last line for `id` defines. */
  function Slot(lines: Lines, id: nat): Option<Object> {
    if lines == [] then None
    else if lines[|lines| - 1].0 == id then Some(lines[|lines| - 1].1)
    else Slot(lines[..|lines| - 1], id)
  }

  /** The line counter saturates at the largest 32-bit number. */
  function Observed(lines: Lines): nat { if |lines| < 0xFFFF_FFFF then |lines| else 0xFFFF_FFFF }

  /** The table, if every slot has been filled. */
  function Collect(lines: Lines, count: nat, from: nat): Result<seq<Object>, ParseError>
    decreases count - from
  {
    if from >= count then Ok([])
    else if Slot(lines, from).None? then Err(BadIndex)
    else
      var rest :- Collect(lines, count, from + 1);
      Ok([Slot(lines, from).value] + rest)
  }

  // ----- the header ------------------------------------------------------------------------------

  datatype Header = Header(count: U32, root: U32, arch: SourceArch, wordSize: WordSize)

  const OBJECTS: seq<Byte> := [0x4F, 0x62, 0x6A, 0x65, 0x63, 0x74, 0x73]
  const ROOT: seq<Byte> := [0x52, 0x6F, 0x6F, 0x74]

  function ReadHeaderNumber(s: seq<Byte>): Parse<U32> {
    var (v, t) :- ReadU64(SkipBlank(s));
    if v >= 0x1_0000_0000 then Err(BadHeader) else Ok((v, t))
  }

  /** Architecture and word size; older images end the line before them. */
  function ReadArch(s: seq<Byte>): Parse<(SourceArch, WordSize)> {
    var t := SkipBlank(s);
    if t == [] then Err(Eof)
    else if IsEol(t[0]) then Ok(((Interpreted, Bits64), t))
    else
      var (w, u) :- ReadU64(SkipBlank(t[1..]));
      if w == 4 then Ok(((ArchOf(t[0]), Bits32), u))
      else if w == 8 then Ok(((ArchOf(t[0]), Bits64), u))
      else Err(BadHeader)
  }

  function ReadHeader(s: seq<Byte>): Parse<Header> {
    var (_, t) :- ExpectAll(s, OBJECTS);
    var (count, u) :- ReadHeaderNumber(t);
    var (_, v) :- ExpectAll(SkipEol(u), ROOT);
    var (root, x) :- ReadHeaderNumber(v);
    var ((arch, size), y) :- ReadArch(x);
    Ok((Header(count, root, arch, size), SkipEol(y)))
  }

  /** `arch_char as char`, printed in UTF-8. */
  function ArchText(a: SourceArch): seq<Byte> {
    var c := ArchByte(a);
    if c < 0x80 then [c] else [0xC0 + c / 64, 0x80 + c % 64]
  }

  function WordSizeDigit(w: WordSize): nat { if w.Bits32? then 4 else 8 }

  function WriteHeader(count: nat, root: U32, arch: SourceArch, wordSize: WordSize): seq<Byte> {
    OBJECTS + ([TAB] + (Dec(count) + ([LF] + (ROOT + ([TAB] + (Dec(root)
      + ([SPACE] + (ArchText(arch) + ([SPACE] + (Dec(WordSizeDigit(wordSize)) + [LF]))))))))))
  }

  function WriteObjects(os: seq<Object>, from: nat): seq<Byte>
    requires from <= |os|
    decreases |os| - from
  {
    if from == |os| then [] else WriteObject(from, os[from]) + WriteObjects(os, from + 1)
  }

  /** `Image::write`. */
  function Write(img: Image): seq<Byte> {
    WriteHeader(|img.objects|, img.root, img.arch, img.wordSize) + WriteObjects(img.objects, 0)
  }

  /** `Image::parse`. */
  function Parsed(s: seq<Byte>): Result<Image, ParseError> {
    var (h, t) :- ReadHeader(s);
    if h.count > |t| then Err(Eof)
    else
      var lines :- ReadLines(t, h.count);
      if Observed(lines) != h.count then Err(CountMismatch)
      else
        var objects :- Collect(lines, h.count, 0);
        Ok(Image(h.root, h.arch, h.wordSize, objects))
  }

  // ----- what the text format can carry --------------------------------------------------------------

  /** The printed character is read back as itself. */
  predicate PlainArch(a: SourceArch) {
    a.Other? ==> a.c < 0x80 && !IsBlank(a.c) && !IsEol(a.c)
  }

  predicate Closed(os: seq<Object>, count: nat) {
    forall i :: 0 <= i < |os| ==> ClosedBody(os[i].body, count)
  }

  predicate AllKnown(os: seq<Object>) {
    forall i :: 0 <= i < |os| ==> KnownFlags(os[i].flags)
  }

  predicate Textual(img: Image) {
    && CanonicalArch(img.arch) && PlainArch(img.arch)
    && |img.objects| < 0x1_0000_0000
    && Closed(img.objects, |img.objects|) && AllKnown(img.objects)
  }

  // ----- reading back one line ------------------------------------------------------------------------

  lemma {:induction false} FlagsRoundTrip(f: FlagSet, b: Byte, t: seq<Byte>)
    requires b !in {M, N, V, W}
    ensures ReadFlags(WriteFlags(f) + ([b] + t), FlagSet(false, false, false, false)) == Ok((f, [b] + t))
  {
    var x := [b] + t;
    var w := When(f.w, W) + x;
    var v := When(f.v, V) + w;
    var n := When(f.n, N) + v;
    Assoc(When(f.m, M), When(f.n, N) + (When(f.v, V) + When(f.w, W)), x);
    Assoc(When(f.n, N), When(f.v, V) + When(f.w, W), x);
    Assoc(When(f.v, V), When(f.w, W), x);
    FlagStep(f.m, M, n, FlagSet(false, false, false, false));
    FlagStep(f.n, N, v, FlagSet(f.m, false, false, false));
    FlagStep(f.v, V, w, FlagSet(f.m, f.n, false, false));
    FlagStep(f.w, W, x, FlagSet(f.m, f.n, f.v, false));
  }

  lemma FlagStep(on: bool, b: Byte, t: seq<Byte>, f: FlagSet)
    requires b in {M, N, V, W}
    ensures ReadFlags(When(on, b) + t, f) ==
      if !on then ReadFlags(t, f)
      else ReadFlags(t, if b == M then f.(m := true) else if b == N then f.(n := true)
        else if b == V then f.(v := true) else f.(w := true))
  {
    if on {
      assert (When(on, b) + t)[1..] == t;
    } else {
      assert When(on, b) + t == t;
    }
  }

  lemma ObjectRoundTrip(o: Object, count: U32, t: seq<Byte>)
    requires Typed(o.body) && ClosedBody(o.body, count)
    ensures ReadObject(WriteDefinition(o) + t, count) == Ok((o.(flags := KnownBits(o.flags)), [LF] + t))
  {
    var p := WritePayload(o.body) + ([LF] + t);
    Assoc(WriteFlags(FlagsOf(o.flags)), [Letter(o.body)] + (WritePayload(o.body) + [LF]), t);
    Assoc([Letter(o.body)], WritePayload(o.body) + [LF], t);
    Assoc(WritePayload(o.body), [LF], t);
    FlagsRoundTrip(FlagsOf(o.flags), Letter(o.body), p);
    assert ([Letter(o.body)] + p)[1..] == p;
    PayloadRoundTrip(o.body, count, [LF] + t);
  }

  /** The line an object is read back from, unknown flag bits gone. */
  function LineOf(id: U32, o: Object): (U32, Object) { (id, o.(flags := KnownBits(o.flags))) }

  lemma LineRoundTrip(id: nat, o: Object, count: U32, t: seq<Byte>)
    requires id < count && Typed(o.body) && ClosedBody(o.body, count)
    ensures ReadLine(WriteObject(id, o) + t, count) == Ok((LineOf(id, o), [LF] + t))
  {
    ObjectRoundTrip(o, count, t);
    LineText(WriteObject(id, o), id, WriteDefinition(o), o.(flags := KnownBits(o.flags)), count, t, [LF] + t);
  }

  lemma {:induction false} LineText(x: seq<Byte>, id: U32, c: seq<Byte>, o: Object, count: U32, t: seq<Byte>, u: seq<Byte>)
    requires x == Dec(id) + ([COLON] + c)
    requires id < count && ReadObject(c + t, count) == Ok((o, u))
    ensures ReadLine(x + t, count) == Ok(((id, o), u))
  {
    Assoc(Dec(id), [COLON] + c, t);
    Assoc([COLON], c, t);
    IdRoundTrip(id, count, [COLON] + (c + t));
    ExpectHead(COLON, c + t);
  }

  // ----- reading back all of them -----------------------------------------------------------------------

  function LinesOf(os: seq<Object>): Lines
    requires |os| < 0x1_0000_0000
  {
    seq(|os|, i requires 0 <= i < |os| => LineOf(i, os[i]))
  }

  /** The text `x` is one line, read as `line` whatever comes after it. */
  ghost predicate ReadAs(x: seq<Byte>, line: (U32, Object), count: U32) {
    x != [] && !IsEol(x[0]) && forall t :: ReadLine(x + t, count) == Ok((line, [LF] + t))
  }

  function Joined(texts: seq<seq<Byte>>): seq<Byte> {
    if texts == [] then [] else texts[0] + Joined(texts[1..])
  }

  lemma {:induction false} LinesStep(s: seq<Byte>, t: seq<Byte>, count: U32, line: (U32, Object), u: seq<Byte>)
    requires SkipEol(s) == t && t != [] && ReadLine(t, count) == Ok((line, u)) && ReadLines(u, count).Ok?
    ensures ReadLines(s, count) == Ok([line] + ReadLines(u, count).value)
  {
  }

  /** A text made of lines is read line by line, after any blank lines. */
  lemma {:induction false} JoinedRead(texts: seq<seq<Byte>>, lines: Lines, count: U32, s: seq<Byte>)
    requires |texts| == |lines| && forall k :: 0 <= k < |texts| ==> ReadAs(texts[k], lines[k], count)
    requires SkipEol(s) == Joined(texts)
    ensures ReadLines(s, count) == Ok(lines)
    decreases |texts|
  {
    if texts == [] {
      NoLines(s, count);
    } else {
      var rest := Joined(texts[1..]);
      assert ReadAs(texts[0], lines[0], count);
      JoinedStarts(texts[1..], lines[1..], count);
      JoinedRead(texts[1..], lines[1..], count, [LF] + rest);
      LinesStep(s, texts[0] + rest, count, lines[0], [LF] + rest);
      assert [lines[0]] + lines[1..] == lines;
    }
  }

  lemma {:induction false} JoinedStarts(texts: seq<seq<Byte>>, lines: Lines, count: U32)
    requires |texts| == |lines| && forall k :: 0 <= k < |texts| ==> ReadAs(texts[k], lines[k], count)
    ensures SkipEol(Joined(texts)) == Joined(texts)
    ensures SkipEol([LF] + Joined(texts)) == Joined(texts)
  {
    var s := Joined(texts);
    if texts != [] {
      assert ReadAs(texts[0], lines[0], count);
    }
    assert ([LF] + s)[1..] == s;
  }

  lemma ObjectLine(id: nat, o: Object, count: U32)
    requires id < count && Typed(o.body) && ClosedBody(o.body, count)
    ensures ReadAs(WriteObject(id, o), LineOf(id, o), count)
  {
    DecDigits(id % 0x1_0000_0000);
    assert IsDigit(WriteObject(id, o)[0]);
    forall t ensures ReadLine(WriteObject(id, o) + t, count) == Ok((LineOf(id, o), [LF] + t)) {
      LineRoundTrip(id, o, count, t);
    }
  }

  function Texts(os: seq<Object>): seq<seq<Byte>> {
    seq(|os|, i requires 0 <= i < |os| => WriteObject(i, os[i]))
  }

  lemma {:induction false} ObjectsAreJoined(os: seq<Object>, from: nat)
    requires from <= |os|
    ensures WriteObjects(os, from) == Joined(Texts(os)[from..])
    decreases |os| - from
  {
    if from < |os| {
      assert Texts(os)[from..][1..] == Texts(os)[from + 1..];
      ObjectsAreJoined(os, from + 1);
    }
  }

  lemma {:induction false} LinesRoundTrip(os: seq<Object>, s: seq<Byte>)
    requires |os| < 0x1_0000_0000 && Closed(os, |os|) && forall i :: 0 <= i < |os| ==> Typed(os[i].body)
    requires SkipEol(s) == WriteObjects(os, 0)
    ensures ReadLines(s, |os|) == Ok(LinesOf(os))
  {
    ObjectsAreJoined(os, 0);
    var texts, lines := Texts(os), LinesOf(os);
    assert texts[0..] == texts;
    forall k | 0 <= k < |texts| ensures ReadAs(texts[k], lines[k], |os|) {
      ObjectLine(k, os[k], |os|);
    }
    JoinedRead(texts, lines, |os|, s);
  }

  lemma {:induction false} NoLines(s: seq<Byte>, count: U32)
    requires SkipEol(s) == []
    ensures ReadLines(s, count) == Ok([])
  {
  }

  /** With one line for each id, the slot holds that line's object. */
  lemma {:induction false} SlotOf(lines: Lines, k: nat)
    requires k < |lines| && forall i :: 0 <= i < |lines| ==> lines[i].0 == i
    ensures Slot(lines, k) == Some(lines[k].1)
    decreases |lines|
  {
    if k < |lines| - 1 {
      SlotOf(lines[..|lines| - 1], k);
    }
  }

  lemma {:induction false} CollectIs(lines: Lines, count: nat, from: nat)
    requires from <= count
    ensures (forall id :: from <= id < count ==> Slot(lines, id).Some?) ==> Collect(lines, count, from).Ok?
    ensures Collect(lines, count, from).Ok? ==>
      && |Collect(lines, count, from).value| == count - from
      && forall i :: 0 <= i < count - from ==> Slot(lines, from + i) == Some(Collect(lines, count, from).value[i])
    decreases count - from
  {
    if from < count {
      CollectIs(lines, count, from + 1);
    }
  }

  lemma {:induction false} TableRoundTrip(os: seq<Object>)
    requires |os| < 0x1_0000_0000 && AllKnown(os)
    ensures Collect(LinesOf(os), |os|, 0) == Ok(os) && Observed(LinesOf(os)) == |os|
  {
    forall id | 0 <= id < |os| ensures Slot(LinesOf(os), id) == Some(os[id]) {
      SlotOf(LinesOf(os), id);
    }
    TableIs(LinesOf(os), os);
  }

  // ----- reading back the header ---------------------------------------------------------------------

  lemma {:induction false} WordRoundTrip(word: seq<Byte>, t: seq<Byte>)
    ensures ExpectAll(word + t, word) == Ok(((), t))
    decreases |word|
  {
    if word == [] {
      assert word + t == t;
    } else {
      assert word + t == [word[0]] + (word[1..] + t);
      ExpectHead(word[0], word[1..] + t);
      WordRoundTrip(word[1..], t);
    }
  }

  /** A number after a tab. */
  lemma {:induction false} NumberRoundTrip(n: nat, t: seq<Byte>)
    requires NoDigit(t)
    ensures n < 0x1_0000_0000 ==> ReadHeaderNumber([TAB] + (Dec(n) + t)) == Ok((n, t))
    ensures n >= 0x1_0000_0000 ==> ReadHeaderNumber([TAB] + (Dec(n) + t)).Err?
  {
    var s := Dec(n) + t;
    DecDigits(n);
    assert s[0] == Dec(n)[0];
    BlankThen(TAB, s);
    DecSplits(n, t);
  }

  /** One blank is skipped before something that is none. */
  lemma {:induction false} BlankThen(b: Byte, s: seq<Byte>)
    requires IsBlank(b) && s != [] && !IsBlank(s[0])
    ensures SkipBlank([b] + s) == s
  {
    assert ([b] + s)[1..] == s;
    assert SkipBlank(s) == s;
  }

  function ArchTail(arch: SourceArch, wordSize: WordSize): seq<Byte> {
    [SPACE] + (ArchText(arch) + ([SPACE] + (Dec(WordSizeDigit(wordSize)) + [LF])))
  }

  lemma ArchRoundTrip(arch: SourceArch, wordSize: WordSize, t: seq<Byte>)
    requires CanonicalArch(arch) && PlainArch(arch)
    ensures ReadArch(ArchTail(arch, wordSize) + t) == Ok(((arch, wordSize), [LF] + t))
  {
    var c, d := ArchByte(arch), Dec(WordSizeDigit(wordSize));
    var e := d + ([LF] + t);
    var f := [c] + ([SPACE] + e);
    assert ArchTail(arch, wordSize) + t == [SPACE] + f;
    BlankThen(SPACE, f);
    assert f[1..] == [SPACE] + e;
    DecDigits(WordSizeDigit(wordSize));
    assert e[0] == d[0];
    BlankThen(SPACE, e);
    U64RoundTrip(WordSizeDigit(wordSize), [LF] + t);
  }

  /** A character outside ASCII is printed as two bytes, which are never read back. */
  lemma ArchBroken(arch: SourceArch, wordSize: WordSize, t: seq<Byte>)
    requires ArchByte(arch) >= 0x80
    ensures ReadArch(ArchTail(arch, wordSize) + t).Err?
  {
    var s := ArchTail(arch, wordSize) + t;
    assert s[0] == SPACE && s[1] == 0xC0 + ArchByte(arch) / 64 && s[2] == 0x80 + ArchByte(arch) % 64;
    assert s[1..][0] == s[1] && s[1..][1..][0] == s[2];
    assert SkipBlank(s) == s[1..];
    assert SkipBlank(s[1..][1..]) == s[1..][1..];
    assert Digits(s[1..][1..]) == 0;
  }

  lemma {:induction false} HeaderSplits(count: nat, root: U32, arch: SourceArch, wordSize: WordSize, t: seq<Byte>)
    ensures WriteHeader(count, root, arch, wordSize) + t
      == OBJECTS + ([TAB] + (Dec(count) + ([LF] + (ROOT + ([TAB] + (Dec(root) + (ArchTail(arch, wordSize) + t)))))))
  {
    var g := ArchTail(arch, wordSize);
    var f := Dec(root) + g;
    var e := [TAB] + f;
    var d := ROOT + e;
    var c := [LF] + d;
    var b := Dec(count) + c;
    Assoc(OBJECTS, [TAB] + b, t);
    Assoc([TAB], b, t);
    Assoc(Dec(count), c, t);
    Assoc([LF], d, t);
    Assoc(ROOT, e, t);
    Assoc([TAB], f, t);
    Assoc(Dec(root), g, t);
  }

  /** Reading a written header comes down to reading its architecture. */
  lemma HeaderRoundTrip(count: nat, root: U32, arch: SourceArch, wordSize: WordSize, t: seq<Byte>)
    ensures count >= 0x1_0000_0000 ==> ReadHeader(WriteHeader(count, root, arch, wordSize) + t).Err?
    ensures count < 0x1_0000_0000 ==>
      var r := ReadArch(ArchTail(arch, wordSize) + t);
      ReadHeader(WriteHeader(count, root, arch, wordSize) + t) ==
        if r.Ok? then Ok((Header(count, root, r.value.0.0, r.value.0.1), SkipEol(r.value.1))) else Err(r.error)
  {
    var g := ArchTail(arch, wordSize) + t;
    var e := [TAB] + (Dec(root) + g);
    var d := [LF] + (ROOT + e);
    HeaderSplits(count, root, arch, wordSize, t);
    WordRoundTrip(OBJECTS, [TAB] + (Dec(count) + d));
    NumberRoundTrip(count, d);
    EolThen(ROOT + e);
    WordRoundTrip(ROOT, e);
    NumberRoundTrip(root, g);
  }

  lemma {:induction false} EolThen(s: seq<Byte>)
    requires s != [] && !IsEol(s[0])
    ensures SkipEol([LF] + s) == s
  {
    assert ([LF] + s)[1..] == s;
    assert SkipEol(s) == s;
  }

  // ----- the round trip ------------------------------------------------------------------------------

  /** Every image the text format can carry is read back as it was. */
  lemma TextualRoundTrip(img: Image)
    requires TypedImage(img) && Textual(img)
    ensures Parsed(Write(img)) == Ok(img)
  {
    var t := WriteObjects(img.objects, 0);
    HeaderRoundTrip(|img.objects|, img.root, img.arch, img.wordSize, t);
    ArchRoundTrip(img.arch, img.wordSize, t);
    TextStarts(img.objects);
    EnoughText(img.objects, 0);
    LinesRoundTrip(img.objects, t);
    TableRoundTrip(img.objects);
  }

  lemma {:induction false} TextStarts(os: seq<Object>)
    ensures SkipEol(WriteObjects(os, 0)) == WriteObjects(os, 0)
    ensures SkipEol([LF] + WriteObjects(os, 0)) == WriteObjects(os, 0)
  {
    var s := WriteObjects(os, 0);
    if os != [] {
      DecDigits(0);
      assert IsDigit(s[0]);
    }
    assert ([LF] + s)[1..] == s;
  }

  lemma {:induction false} EnoughText(os: seq<Object>, from: nat)
    requires from <= |os|
    ensures |WriteObjects(os, from)| >= |os| - from
    decreases |os| - from
  {
    if from < |os| {
      SomeText(from, os[from]);
      EnoughText(os, from + 1);
    }
  }

  lemma SomeText(id: nat, o: Object)
    ensures |WriteObject(id, o)| >= 1
  {
  }

  // ----- what is accepted -------------------------------------------------------------------------------

  lemma {:induction false} LinesFacts(s: seq<Byte>, count: U32)
    requires ReadLines(s, count).Ok?
    ensures forall i :: 0 <= i < |ReadLines(s, count).value| ==>
      var (id, o) := ReadLines(s, count).value[i];
      id < count && ClosedBody(o.body, count) && KnownFlags(o.flags) && (|s| < HALF ==> Typed(o.body))
    decreases |s|
  {
    var t := SkipEol(s);
    if t != [] {
      LineFacts(t, count);
      LinesFacts(ReadLine(t, count).value.1, count);
    }
  }

  lemma {:induction false} SlotIsLine(lines: Lines, id: nat)
    requires Slot(lines, id).Some?
    ensures exists i :: 0 <= i < |lines| && lines[i].0 == id && lines[i].1 == Slot(lines, id).value
    decreases |lines|
  {
    if lines[|lines| - 1].0 != id {
      SlotIsLine(lines[..|lines| - 1], id);
      var i :| 0 <= i < |lines[..|lines| - 1]| && lines[..|lines| - 1][i].0 == id
        && lines[..|lines| - 1][i].1 == Slot(lines, id).value;
      assert lines[i].0 == id;
    }
  }

  lemma ArchAccepted(s: seq<Byte>)
    requires ReadArch(s).Ok?
    ensures var a := ReadArch(s).value.0.0;
      CanonicalArch(a) && !IsBlank(ArchByte(a)) && !IsEol(ArchByte(a))
    ensures |ReadArch(s).value.1| <= |s|
  {
    SkipBlankStops(s);
  }

  lemma {:induction false} SkipBlankStops(s: seq<Byte>)
    ensures SkipBlank(s) == [] || !IsBlank(SkipBlank(s)[0])
  {
    if s != [] && IsBlank(s[0]) {
      SkipBlankStops(s[1..]);
    }
  }

  lemma {:induction false} WordShrinks(s: seq<Byte>, word: seq<Byte>)
    requires ExpectAll(s, word).Ok?
    ensures |ExpectAll(s, word).value.1| <= |s|
    decreases |word|
  {
    if word != [] {
      WordShrinks(s[1..], word[1..]);
    }
  }

  lemma HeaderAccepted(s: seq<Byte>)
    requires ReadHeader(s).Ok?
    ensures var a := ReadHeader(s).value.0.arch;
      CanonicalArch(a) && !IsBlank(ArchByte(a)) && !IsEol(ArchByte(a))
    ensures |ReadHeader(s).value.1| <= |s|
  {
    WordShrinks(s, OBJECTS);
    var t := ExpectAll(s, OBJECTS).value.1;
    var u := ReadHeaderNumber(t).value.1;
    WordShrinks(SkipEol(u), ROOT);
    var v := ExpectAll(SkipEol(u), ROOT).value.1;
    ArchAccepted(ReadHeaderNumber(v).value.1);
  }

  /** Accepted text is closed and complete: every value reference, closure code address and
      relocation target is below the count, every id below the count is defined by some
      line, no flag is unknown and the architecture is canonical. */
  lemma AcceptedIsClosed(s: seq<Byte>)
    requires Parsed(s).Ok?
    ensures var img := Parsed(s).value;
      && |img.objects| < 0x1_0000_0000 && Closed(img.objects, |img.objects|) && AllKnown(img.objects)
      && CanonicalArch(img.arch) && !IsBlank(ArchByte(img.arch)) && !IsEol(ArchByte(img.arch))
      && (|s| < HALF ==> TypedImage(img))
  {
    HeaderAccepted(s);
    var (h, t) := ReadHeader(s).value;
    LinesFacts(t, h.count);
    CollectedFacts(ReadLines(t, h.count).value, h.count, |s| < HALF);
  }

  lemma {:induction false} CollectedFacts(lines: Lines, count: U32, short: bool)
    requires forall i :: 0 <= i < |lines| ==>
      ClosedBody(lines[i].1.body, count) && KnownFlags(lines[i].1.flags) && (short ==> Typed(lines[i].1.body))
    requires Collect(lines, count, 0).Ok?
    ensures var os := Collect(lines, count, 0).value;
      && |os| == count && Closed(os, count) && AllKnown(os)
      && (short ==> forall i :: 0 <= i < |os| ==> Typed(os[i].body))
  {
    CollectIs(lines, count, 0);
    var os := Collect(lines, count, 0).value;
    forall k | 0 <= k < |os|
      ensures ClosedBody(os[k].body, count) && KnownFlags(os[k].flags) && (short ==> Typed(os[k].body))
    {
      assert Slot(lines, 0 + k) == Some(os[k]);
      SlotIsLine(lines, k);
    }
  }

  /** How many lines define an id. */
  function Definitions(lines: Lines, id: nat): nat {
    if lines == [] then 0 else Definitions(lines[..|lines| - 1], id) + if lines[|lines| - 1].0 == id then 1 else 0
  }

  /** All lines are definitions of ids below the count. */
  function Total(lines: Lines, count: nat): nat {
    if count == 0 then 0 else Total(lines, count - 1) + Definitions(lines, count - 1)
  }

  lemma {:induction false} TotalIs(lines: Lines, count: nat)
    requires forall i :: 0 <= i < |lines| ==> lines[i].0 < count
    ensures Total(lines, count) == |lines|
    decreases |lines|
  {
    if lines == [] {
      TotalOfNone(count);
    } else {
      var last := lines[|lines| - 1];
      TotalIs(lines[..|lines| - 1], count);
      TotalDropsLast(lines, count);
    }
  }

  lemma {:induction false} TotalOfNone(count: nat)
    ensures Total([], count) == 0
  {
    if count > 0 {
      TotalOfNone(count - 1);
    }
  }

  lemma {:induction false} TotalDropsLast(lines: Lines, count: nat)
    requires lines != []
    ensures Total(lines, count) == Total(lines[..|lines| - 1], count) + if lines[|lines| - 1].0 < count then 1 else 0
    decreases count
  {
    if count > 0 {
      TotalDropsLast(lines, count - 1);
    }
  }

  lemma {:induction false} DefinedSlot(lines: Lines, id: nat)
    ensures Slot(lines, id).Some? <==> Definitions(lines, id) > 0
    decreases |lines|
  {
    if lines != [] {
      DefinedSlot(lines[..|lines| - 1], id);
    }
  }

  /** If every id is defined and there are as many lines as ids, each is defined once. */
  lemma {:induction false} EachOnce(lines: Lines, count: nat, id: nat)
    requires forall k :: 0 <= k < count ==> Definitions(lines, k) > 0
    requires Total(lines, count) == count && id < count
    ensures Definitions(lines, id) == 1
    decreases count
  {
    AtLeast(lines, count - 1);
    if id < count - 1 {
      EachOnce(lines, count - 1, id);
    }
  }

  lemma {:induction false} AtLeast(lines: Lines, count: nat)
    requires forall k :: 0 <= k < count ==> Definitions(lines, k) > 0
    ensures Total(lines, count) >= count
  {
    if count > 0 {
      AtLeast(lines, count - 1);
    }
  }

  /** Each id below the count is defined by one line. */
  ghost predicate Unambiguous(lines: Lines, count: nat) {
    forall id: nat :: id < count ==> Definitions(lines, id) == 1
  }

  /** In accepted text every id below the count is defined, and each exactly once if and only
      if there are as many lines as the header says.  The count can tell: below the largest
      number that the saturating line counter holds, there always are. */
  lemma DefinedExactlyOnce(s: seq<Byte>)
    requires Parsed(s).Ok?
    ensures var (h, t) := ReadHeader(s).value;
      var lines := ReadLines(t, h.count).value;
      && (forall id: nat :: id < h.count ==> Definitions(lines, id) >= 1)
      && (Unambiguous(lines, h.count) <==> |lines| == h.count)
      && (h.count < 0xFFFF_FFFF ==> |lines| == h.count)
  {
    var (h, t) := ReadHeader(s).value;
    LinesFacts(t, h.count);
    LinesCounted(ReadLines(t, h.count).value, h.count);
  }

  lemma {:induction false} LinesCounted(lines: Lines, count: nat)
    requires (forall i :: 0 <= i < |lines| ==> lines[i].0 < count) && Collect(lines, count, 0).Ok? && Observed(lines) == count
    ensures forall id: nat :: id < count ==> Definitions(lines, id) >= 1
    ensures Unambiguous(lines, count) <==> |lines| == count
    ensures count < 0xFFFF_FFFF ==> |lines| == count
  {
    forall id: nat | id < count ensures Definitions(lines, id) >= 1 {
      CountedOnce(lines, count, id);
    }
    if |lines| == count {
      forall id: nat | id < count ensures Definitions(lines, id) == 1 {
        CountedOnce(lines, count, id);
      }
    } else if Unambiguous(lines, count) {
      OnceEach(lines, count);
      TotalIs(lines, count);
      assert false;
    }
  }

  lemma {:induction false} OnceEach(lines: Lines, count: nat)
    requires Unambiguous(lines, count)
    ensures Total(lines, count) == count
  {
    if count > 0 {
      OnceEach(lines, count - 1);
    }
  }

  lemma {:induction false} CountedOnce(lines: Lines, count: nat, id: nat)
    requires (forall i :: 0 <= i < |lines| ==> lines[i].0 < count) && Collect(lines, count, 0).Ok? && id < count
    ensures Definitions(lines, id) >= 1
    ensures |lines| == count ==> Definitions(lines, id) == 1
  {
    CollectIs(lines, count, 0);
    TotalIs(lines, count);
    forall k | 0 <= k < count ensures Definitions(lines, k) > 0 {
      DefinedSlot(lines, k);
      assert Slot(lines, 0 + k) == Some(Collect(lines, count, 0).value[k]);
    }
    if |lines| == count {
      EachOnce(lines, count, id);
    }
  }

  // ----- a repeated definition -----------------------------------------------------------------------

  lemma {:induction false} JoinedAppend(texts: seq<seq<Byte>>, x: seq<Byte>)
    ensures Joined(texts + [x]) == Joined(texts) + x
    decreases |texts|
  {
    if texts == [] {
      assert Joined([x][1..]) == [] && x + [] == x;
      assert [] + [x] == [x] && [] + x == x;
    } else {
      assert (texts + [x])[1..] == texts[1..] + [x];
      JoinedAppend(texts[1..], x);
    }
  }

  /** The lines of a written image, and one line more. */
  lemma {:induction false} ExtraLine(os: seq<Object>, s: seq<Byte>)
    requires 0 < |os| < 0x1_0000_0000 && Closed(os, |os|) && forall i :: 0 <= i < |os| ==> Typed(os[i].body)
    requires SkipEol(s) == WriteObjects(os, 0) + WriteObject(0, os[0])
    ensures ReadLines(s, |os|) == Ok(LinesOf(os) + [LineOf(0, os[0])])
  {
    ObjectsAreJoined(os, 0);
    var texts, lines := Texts(os) + [WriteObject(0, os[0])], LinesOf(os) + [LineOf(0, os[0])];
    assert Texts(os)[0..] == Texts(os);
    JoinedAppend(Texts(os), WriteObject(0, os[0]));
    forall k | 0 <= k < |texts| ensures ReadAs(texts[k], lines[k], |os|) {
      var id := if k < |os| then k else 0;
      ObjectLine(id, os[id], |os|);
    }
    JoinedRead(texts, lines, |os|, s);
  }

  /** The table is the same with the first line repeated. */
  lemma {:induction false} RepeatedTable(os: seq<Object>)
    requires 0 < |os| < 0x1_0000_0000 && AllKnown(os)
    ensures Collect(LinesOf(os) + [LineOf(0, os[0])], |os|, 0) == Ok(os)
  {
    var lines := LinesOf(os) + [LineOf(0, os[0])];
    forall id | 0 <= id < |os| ensures Slot(lines, id) == Some(os[id]) {
      assert lines[..|lines| - 1] == LinesOf(os);
      SlotOf(LinesOf(os), id);
    }
    TableIs(lines, os);
  }

  lemma {:induction false} TableIs(lines: Lines, os: seq<Object>)
    requires forall id :: 0 <= id < |os| ==> Slot(lines, id) == Some(os[id])
    ensures Collect(lines, |os|, 0) == Ok(os)
  {
    CollectIs(lines, |os|, 0);
    var c := Collect(lines, |os|, 0).value;
    forall k | 0 <= k < |os| ensures c[k] == os[k] {
      assert Slot(lines, 0 + k) == Some(c[k]);
    }
    assert c == os;
  }

  /** With the largest count of all, a repeated definition goes unnoticed: the text of such an
      image with its first line repeated at the end is accepted as the same image. */
  lemma {:induction false} RepeatedDefinition(img: Image)
    requires TypedImage(img) && Textual(img) && |img.objects| == 0xFFFF_FFFF
    ensures var s := Write(img) + WriteObject(0, img.objects[0]);
      && Parsed(s) == Ok(img)
      && ReadHeader(s).value.0.count == 0xFFFF_FFFF
      && Definitions(ReadLines(ReadHeader(s).value.1, 0xFFFF_FFFF).value, 0) == 2
  {
    var os, extra := img.objects, WriteObject(0, img.objects[0]);
    var t := WriteObjects(os, 0) + extra;
    RepeatedHeader(img, extra);
    EnoughText(os, 0);
    ExtraLine(os, t);
    RepeatedTable(os);
    RepeatedCount(os);
  }

  lemma {:induction false} RepeatedHeader(img: Image, extra: seq<Byte>)
    requires CanonicalArch(img.arch) && PlainArch(img.arch) && 0 < |img.objects| < 0x1_0000_0000
    ensures var t := WriteObjects(img.objects, 0) + extra;
      && ReadHeader(Write(img) + extra) == Ok((Header(|img.objects|, img.root, img.arch, img.wordSize), t))
      && SkipEol(t) == t
  {
    var w := WriteObjects(img.objects, 0);
    var t := w + extra;
    Assoc(WriteHeader(|img.objects|, img.root, img.arch, img.wordSize), w, extra);
    HeaderRoundTrip(|img.objects|, img.root, img.arch, img.wordSize, t);
    ArchRoundTrip(img.arch, img.wordSize, t);
    StartsWithDigit(img.objects);
    assert t[0] == w[0];
    EolThen(t);
    assert SkipEol(t) == t;
  }

  lemma {:induction false} StartsWithDigit(os: seq<Object>)
    requires os != []
    ensures WriteObjects(os, 0) != [] && IsDigit(WriteObjects(os, 0)[0])
  {
    DecDigits(0);
  }

  lemma {:induction false} RepeatedCount(os: seq<Object>)
    requires 0 < |os| < 0x1_0000_0000
    ensures Definitions(LinesOf(os) + [LineOf(0, os[0])], 0) == 2
  {
    var lines := LinesOf(os);
    FirstDefined(os, |os|);
    assert (lines + [LineOf(0, os[0])])[..|lines|] == lines && lines[..|os|] == lines;
  }

  /** Among the first lines of a written image, only the first defines id 0. */
  lemma {:induction false} FirstDefined(os: seq<Object>, n: nat)
    requires 0 < n <= |os| < 0x1_0000_0000
    ensures Definitions(LinesOf(os)[..n], 0) == 1
  {
    var lines := LinesOf(os);
    assert lines[..n][..n - 1] == lines[..n - 1];
    if n > 1 {
      FirstDefined(os, n - 1);
    }
  }

  /** The text format round-trips exactly for the images it can carry. */
  lemma PexportRoundTrip(img: Image)
    requires TypedImage(img)
    ensures Parsed(Write(img)) == Ok(img) <==> Textual(img)
  {
    if Textual(img) {
      TextualRoundTrip(img);
    } else if Parsed(Write(img)) == Ok(img) {
      OnlyTextual(img, Write(img));
    }
  }

  lemma OnlyTextual(img: Image, s: seq<Byte>)
    requires s == Write(img) && Parsed(s) == Ok(img)
    ensures Textual(img)
  {
    AcceptedImage(img, s);
    AsciiOnly(img);
  }

  lemma AcceptedImage(img: Image, s: seq<Byte>)
    requires Parsed(s) == Ok(img)
    ensures ReadHeader(s).Ok? && |img.objects| < 0x1_0000_0000 && Closed(img.objects, |img.objects|) && AllKnown(img.objects)
    ensures CanonicalArch(img.arch) && !IsBlank(ArchByte(img.arch)) && !IsEol(ArchByte(img.arch))
  {
    AcceptedIsClosed(s);
  }

  lemma AsciiOnly(img: Image)
    requires |img.objects| < 0x1_0000_0000 && ReadHeader(Write(img)).Ok?
    ensures ArchByte(img.arch) < 0x80
  {
    var t := WriteObjects(img.objects, 0);
    HeaderRoundTrip(|img.objects|, img.root, img.arch, img.wordSize, t);
    if ArchByte(img.arch) >= 0x80 {
      ArchBroken(img.arch, img.wordSize, t);
    }
  }

  /** Whatever lenient input was accepted, printing it and parsing that again gives the
      same image: blank lines, repeated flags, `C0` for `C1`, a header without an
      architecture leave no trace.  The one condition is an ASCII architecture byte. */
  lemma Reprinted(s: seq<Byte>)
    requires |s| < HALF && Parsed(s).Ok?
    ensures Parsed(Write(Parsed(s).value)) == Parsed(s) <==> ArchByte(Parsed(s).value.arch) < 0x80
  {
    AcceptedIsClosed(s);
    PexportRoundTrip(Parsed(s).value);
  }
}
