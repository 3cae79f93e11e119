/** Texts that are not as the printer prints them, and what the parser makes of them: older
    headers, other line ends and blanks, leading zeros, flags in any order, lines in any
    order, upper-case hexadecimal. */
module Lenient {
  import opened Basics
  import opened Words
  import opened Images
  import opened Pexport
  import opened PexportImage

  predicate AllEol(s: seq<Byte>) { forall i :: 0 <= i < |s| ==> s[i] in {0x0D, 0x0A} }
  predicate AllBlank(s: seq<Byte>) { forall i :: 0 <= i < |s| ==> s[i] in {0x20, 0x09} }

  /** Decimal digits for `n`, leading zeros allowed. */
  predicate NumeralOf(d: seq<Byte>, n: nat) {
    d != [] && (forall i :: 0 <= i < |d| ==> 0x30 <= d[i] <= 0x39) && Positional(d) == n
  }

  /** The number that decimal digits stand for, the last one counting units. */
  function Positional(d: seq<Byte>): int {
    if d == [] then 0 else 10 * Positional(d[..|d| - 1]) + (d[|d| - 1] as int - 0x30)
  }

  /** The modifier letters are those of the flags, in any order and number. */
  predicate Modifies(letters: seq<Byte>, flags: Byte) {
    && (forall i :: 0 <= i < |letters| ==> letters[i] in {0x4D, 0x4E, 0x56, 0x57})
    && (0x4D in letters <==> (flags / 0x40) % 2 == 1) && (0x4E in letters <==> (flags / 0x10) % 2 == 1)
    && (0x56 in letters <==> (flags / 0x08) % 2 == 1) && (0x57 in letters <==> (flags / 0x20) % 2 == 1)
    && KnownFlags(flags)
  }

  /** How one object's line is laid out. */
  datatype Line = Line(id: nat, numeral: seq<Byte>, letters: seq<Byte>, trail: seq<Byte>, end: seq<Byte>)

  /** How a whole text is laid out; `legacy` headers do without architecture and word size. */
  datatype Layout = Layout(legacy: bool, count: seq<Byte>, root: seq<Byte>, gap1: seq<Byte>, gap2: seq<Byte>, gap3: seq<Byte>,
                           end1: seq<Byte>, end2: seq<Byte>, lines: seq<Line>)

  predicate LineOk(os: seq<Object>, l: Line) {
    && l.id < |os| && NumeralOf(l.numeral, l.id) && Modifies(l.letters, os[l.id].flags)
    && AllBlank(l.trail) && (os[l.id].body.Code? ==> l.trail == []) && l.end != [] && AllEol(l.end)
  }

  predicate AllLinesOk(os: seq<Object>, lines: seq<Line>) { forall k :: 0 <= k < |lines| ==> LineOk(os, lines[k]) }

  predicate Defines(lines: seq<Line>, id: nat) { exists k :: 0 <= k < |lines| && lines[k].id == id }

  /** There is one line for each object. */
  ghost predicate LayoutOk(img: Image, lay: Layout) {
    && NumeralOf(lay.count, |img.objects|) && NumeralOf(lay.root, img.root)
    && AllBlank(lay.gap1) && AllBlank(lay.gap2) && AllBlank(lay.gap3)
    && AllEol(lay.end1) && AllEol(lay.end2) && lay.end2 != []
    && |lay.lines| == |img.objects| && AllLinesOk(img.objects, lay.lines)
    && (forall id: nat :: id < |img.objects| ==> Defines(lay.lines, id))
    && (if lay.legacy then img.arch == Interpreted && img.wordSize == Bits64 else lay.gap3 == [SPACE])
  }

  function LineText(os: seq<Object>, l: Line): seq<Byte>
    requires l.id < |os|
  {
    l.numeral + ([COLON] + (l.letters + ([Letter(os[l.id].body)] + (WritePayload(os[l.id].body) + (l.trail + l.end)))))
  }

  function LinesText(os: seq<Object>, lines: seq<Line>): seq<Byte>
    requires forall k :: 0 <= k < |lines| ==> lines[k].id < |os|
  {
    if lines == [] then [] else LineText(os, lines[0]) + LinesText(os, lines[1..])
  }

  /** What stands between the root and the end of its line. */
  function Source(img: Image, lay: Layout): seq<Byte> {
    if lay.legacy then lay.gap3
    else lay.gap3 + (ArchText(img.arch) + ([SPACE] + Dec(WordSizeDigit(img.wordSize))))
  }

  function HeaderText(img: Image, lay: Layout, t: seq<Byte>): seq<Byte> {
    OBJECTS + (lay.gap1 + (lay.count + (lay.end1 + (ROOT + (lay.gap2 + (lay.root + (Source(img, lay) + (lay.end2 + t))))))))
  }

  /** The image, laid out. */
  function LaidOut(img: Image, lay: Layout): seq<Byte>
    requires LayoutOk(img, lay)
  {
    HeaderText(img, lay, LinesText(img.objects, lay.lines))
  }

  // ----- pieces of text ---------------------------------------------------------------------------

  lemma {:induction false} PositionalIs(d: seq<Byte>)
    requires forall i :: 0 <= i < |d| ==> IsDigit(d[i])
    ensures Positional(d) == Decimal(d)
  {
    if d != [] {
      PositionalIs(d[..|d| - 1]);
    }
  }

  lemma {:induction false} NumeralRead(d: seq<Byte>, n: Word, t: seq<Byte>)
    requires NumeralOf(d, n) && NoDigit(t)
    ensures ReadU64(d + t) == Ok((n, t))
  {
    PositionalIs(d);
    DigitsOf(d, t);
    assert (d + t)[..|d|] == d && (d + t)[|d|..] == t;
  }

  lemma {:induction false} BlanksSkipped(g: seq<Byte>, t: seq<Byte>)
    requires AllBlank(g) && (t == [] || !IsBlank(t[0]))
    ensures SkipBlank(g + t) == t
  {
    if g == [] {
      assert g + t == t;
    } else {
      assert (g + t)[1..] == g[1..] + t;
      BlanksSkipped(g[1..], t);
    }
  }

  lemma {:induction false} EolsSkipped(e: seq<Byte>, t: seq<Byte>)
    requires AllEol(e)
    ensures SkipEol(e + t) == SkipEol(t)
  {
    if e == [] {
      assert e + t == t;
    } else {
      assert (e + t)[1..] == e[1..] + t;
      EolsSkipped(e[1..], t);
    }
  }

  /** The flags with the letters added. */
  function Added(f: FlagSet, letters: seq<Byte>): FlagSet {
    FlagSet(f.m || M in letters, f.n || N in letters, f.v || V in letters, f.w || W in letters)
  }

  lemma {:induction false} LettersRead(letters: seq<Byte>, b: Byte, t: seq<Byte>, f: FlagSet)
    requires (forall i :: 0 <= i < |letters| ==> letters[i] in {M, N, V, W}) && b !in {M, N, V, W}
    ensures ReadFlags(letters + ([b] + t), f) == Ok((Added(f, letters), [b] + t))
  {
    var s := letters + ([b] + t);
    if letters == [] {
      assert s == [b] + t;
    } else {
      assert s[1..] == letters[1..] + ([b] + t);
      assert letters == [letters[0]] + letters[1..];
      LettersRead(letters[1..], b, t, if s[0] == M then f.(m := true) else if s[0] == N then f.(n := true)
        else if s[0] == V then f.(v := true) else f.(w := true));
    }
  }

  lemma ModifierByte(letters: seq<Byte>, flags: Byte)
    requires Modifies(letters, flags)
    ensures ByteOf(Added(FlagSet(false, false, false, false), letters)) == flags
  {
  }

  /** A payload in its line: blanks may follow, but not after code. */
  lemma PayloadRead(b: ObjectBody, count: U32, t: seq<Byte>)
    requires Typed(b) && ClosedBody(b, count) && t != [] && NoDigit(t) && (b.Code? ==> IsEol(t[0]))
    ensures ReadPayload(Letter(b), WritePayload(b) + t, count) == Ok((b, t))
  {
    if b.Code? {
      PayloadRoundTrip(b, count, t);
    } else if b.Ordinary? || b.LegacyClosure? {
      WordsRoundTrip(b.LegacyClosure?, b.values, count, t);
    } else if b.String? || b.Bytes? {
      HexBodyRoundTrip(b.String?, b.bytes, t);
    } else {
      ShortRead(b, count, t);
    }
  }

  lemma ShortRead(b: ObjectBody, count: U32, t: seq<Byte>)
    requires b.Closure? || b.EntryPoint? || b.WeakRef?
    requires Typed(b) && ClosedBody(b, count) && NoDigit(t)
    ensures ReadPayload(Letter(b), WritePayload(b) + t, count) == Ok((b, t))
  {
    match b {
      case Closure(code, vs) => ClosureRoundTrip(code, vs, count, t);
      case EntryPoint(name) => NamedRoundTrip(name, t);
      case WeakRef => assert [] + t == t;
    }
  }

  // ----- one line -----------------------------------------------------------------------------------

  /** The flags, letter and payload are read, whatever non-digit follows them. */
  lemma {:induction false} DefinitionRead(o: Object, letters: seq<Byte>, count: U32, t: seq<Byte>)
    requires Typed(o.body) && ClosedBody(o.body, count) && Modifies(letters, o.flags)
    requires t != [] && NoDigit(t) && (o.body.Code? ==> IsEol(t[0]))
    ensures ReadObject(letters + ([Letter(o.body)] + (WritePayload(o.body) + t)), count) ==
      if SkipBlank(t) == [] || IsEol(SkipBlank(t)[0]) then Ok((o, SkipBlank(t))) else Err(Expected)
  {
    var p := WritePayload(o.body) + t;
    LettersRead(letters, Letter(o.body), p, FlagSet(false, false, false, false));
    ModifierByte(letters, o.flags);
    assert ([Letter(o.body)] + p)[1..] == p;
    PayloadRead(o.body, count, t);
  }

  lemma LineRead(os: seq<Object>, l: Line, count: U32, rest: seq<Byte>)
    requires LineOk(os, l) && Typed(os[l.id].body) && ClosedBody(os[l.id].body, count) && l.id < count
    ensures ReadLine(LineText(os, l) + rest, count) == Ok(((l.id, os[l.id]), l.end + rest))
  {
    var o, t := os[l.id], l.trail + (l.end + rest);
    var d := l.letters + ([Letter(o.body)] + (WritePayload(o.body) + t));
    LineSplits(os, l, rest);
    NumeralRead(l.numeral, l.id, [COLON] + d);
    ExpectHead(COLON, d);
    BlanksSkipped(l.trail, l.end + rest);
    TrailStarts(l, rest);
    DefinitionRead(o, l.letters, count, t);
  }

  lemma TrailStarts(l: Line, rest: seq<Byte>)
    requires AllBlank(l.trail) && l.end != [] && AllEol(l.end)
    ensures var t := l.trail + (l.end + rest); t != [] && NoDigit(t) && (l.trail == [] ==> IsEol(t[0]))
  {
    var t := l.trail + (l.end + rest);
    assert t[0] == if l.trail == [] then l.end[0] else l.trail[0];
  }

  lemma {:induction false} LineSplits(os: seq<Object>, l: Line, rest: seq<Byte>)
    requires l.id < |os|
    ensures LineText(os, l) + rest == l.numeral + ([COLON] + (l.letters + ([Letter(os[l.id].body)]
      + (WritePayload(os[l.id].body) + (l.trail + (l.end + rest))))))
  {
    var e := l.trail + l.end;
    var d := WritePayload(os[l.id].body) + e;
    var c := [Letter(os[l.id].body)] + d;
    var b := l.letters + c;
    Assoc(l.numeral, [COLON] + b, rest);
    Assoc([COLON], b, rest);
    Assoc(l.letters, c, rest);
    Assoc([Letter(os[l.id].body)], d, rest);
    Assoc(WritePayload(os[l.id].body), e, rest);
    Assoc(l.trail, l.end, rest);
  }

  // ----- all lines ----------------------------------------------------------------------------------

  function ReadAll(os: seq<Object>, lines: seq<Line>): Lines
    requires |os| < 0x1_0000_0000 && forall k :: 0 <= k < |lines| ==> lines[k].id < |os|
  {
    seq(|lines|, k requires 0 <= k < |lines| => (lines[k].id, os[lines[k].id]))
  }

  ghost predicate Carried(os: seq<Object>) {
    |os| < 0x1_0000_0000 && Closed(os, |os|) && forall i :: 0 <= i < |os| ==> Typed(os[i].body)
  }

  lemma {:induction false} LinesStart(os: seq<Object>, lines: seq<Line>)
    requires AllLinesOk(os, lines)
    ensures SkipEol(LinesText(os, lines)) == LinesText(os, lines)
  {
    if lines != [] {
      assert LineOk(os, lines[0]);
      assert LinesText(os, lines)[0] == lines[0].numeral[0];
    }
  }

  lemma {:induction false} LinesRead(os: seq<Object>, lines: seq<Line>, s: seq<Byte>)
    requires Carried(os) && AllLinesOk(os, lines)
    requires SkipEol(s) == LinesText(os, lines)
    ensures ReadLines(s, |os|) == Ok(ReadAll(os, lines))
    decreases |lines|
  {
    if lines == [] {
      NoLines(s, |os|);
      assert ReadAll(os, lines) == [];
    } else {
      var u := lines[0].end + LinesText(os, lines[1..]);
      FirstLine(os, lines);
      LinesRead(os, lines[1..], u);
      ReadAllSplits(os, lines);
      LinesStep(s, LinesText(os, lines), |os|, (lines[0].id, os[lines[0].id]), u);
    }
  }

  lemma {:induction false} ReadAllSplits(os: seq<Object>, lines: seq<Line>)
    requires |os| < 0x1_0000_0000 && lines != [] && AllLinesOk(os, lines)
    ensures ReadAll(os, lines) == [(lines[0].id, os[lines[0].id])] + ReadAll(os, lines[1..])
  {
  }

  lemma {:induction false} FirstLine(os: seq<Object>, lines: seq<Line>)
    requires Carried(os) && lines != [] && AllLinesOk(os, lines)
    ensures var rest := LinesText(os, lines[1..]);
      && LinesText(os, lines) != [] && SkipEol(lines[0].end + rest) == rest
      && ReadLine(LinesText(os, lines), |os|) == Ok(((lines[0].id, os[lines[0].id]), lines[0].end + rest))
  {
    var rest := LinesText(os, lines[1..]);
    assert LineOk(os, lines[0]);
    LineRead(os, lines[0], |os|, rest);
    LinesStart(os, lines[1..]);
    EolsSkipped(lines[0].end, rest);
  }

  lemma {:induction false} LaidTable(os: seq<Object>, lines: seq<Line>)
    requires |os| < 0x1_0000_0000 && |lines| == |os| && forall k :: 0 <= k < |lines| ==> lines[k].id < |os|
    requires forall id: nat :: id < |os| ==> Defines(lines, id)
    ensures Collect(ReadAll(os, lines), |os|, 0) == Ok(os) && Observed(ReadAll(os, lines)) == |os|
  {
    var all := ReadAll(os, lines);
    forall id: nat | id < |os| ensures Slot(all, id) == Some(os[id]) {
      assert Defines(lines, id);
      var k :| 0 <= k < |lines| && lines[k].id == id;
      assert all[k].0 == id;
      SlotFilled(all, k);
      SlotIsLine(all, id);
    }
    TableIs(all, os);
  }

  lemma {:induction false} SlotFilled(lines: Lines, k: nat)
    requires k < |lines|
    ensures Slot(lines, lines[k].0).Some?
    decreases |lines|
  {
    if k < |lines| - 1 {
      SlotFilled(lines[..|lines| - 1], k);
    }
  }

  // ----- the header ---------------------------------------------------------------------------------

  lemma {:induction false} GapNumber(gap: seq<Byte>, d: seq<Byte>, n: U32, t: seq<Byte>)
    requires AllBlank(gap) && NumeralOf(d, n) && NoDigit(t)
    ensures ReadHeaderNumber(gap + (d + t)) == Ok((n, t))
  {
    assert (d + t)[0] == d[0];
    BlanksSkipped(gap, d + t);
    NumeralRead(d, n, t);
  }

  /** The architecture and word size that the end of the root's line stands for. */
  lemma SourceRead(img: Image, lay: Layout, t: seq<Byte>)
    requires LayoutOk(img, lay) && CanonicalArch(img.arch) && PlainArch(img.arch)
    ensures ReadArch(Source(img, lay) + (lay.end2 + t)) == Ok(((img.arch, img.wordSize), lay.end2 + t))
    ensures NoDigit(Source(img, lay) + (lay.end2 + t))
  {
    var e := lay.end2 + t;
    assert e[0] == lay.end2[0];
    if lay.legacy {
      BlanksSkipped(lay.gap3, e);
      assert (lay.gap3 + e)[0] == if lay.gap3 == [] then e[0] else lay.gap3[0];
    } else {
      ModernRead(img.arch, img.wordSize, e);
      var d := [SPACE] + Dec(WordSizeDigit(img.wordSize));
      Assoc([SPACE], ArchText(img.arch) + d, e);
      Assoc(ArchText(img.arch), d, e);
      Assoc([SPACE], Dec(WordSizeDigit(img.wordSize)), e);
    }
  }

  lemma ModernRead(arch: SourceArch, wordSize: WordSize, t: seq<Byte>)
    requires CanonicalArch(arch) && PlainArch(arch) && NoDigit(t)
    ensures ReadArch([SPACE] + (ArchText(arch) + ([SPACE] + (Dec(WordSizeDigit(wordSize)) + t)))) == Ok(((arch, wordSize), t))
  {
    var c, d := ArchByte(arch), Dec(WordSizeDigit(wordSize));
    var e := d + t;
    var f := [c] + ([SPACE] + e);
    BlankThen(SPACE, f);
    assert f[1..] == [SPACE] + e;
    DecDigits(WordSizeDigit(wordSize));
    assert e[0] == d[0];
    BlankThen(SPACE, e);
    U64RoundTrip(WordSizeDigit(wordSize), t);
  }

  lemma {:induction false} HeaderRead(img: Image, lay: Layout, t: seq<Byte>)
    requires LayoutOk(img, lay) && CanonicalArch(img.arch) && PlainArch(img.arch) && |img.objects| < 0x1_0000_0000
    ensures ReadHeader(HeaderText(img, lay, t)) == Ok((Header(|img.objects|, img.root, img.arch, img.wordSize), SkipEol(t)))
  {
    var x := Source(img, lay) + (lay.end2 + t);
    var v := lay.gap2 + (lay.root + x);
    var u := lay.end1 + (ROOT + v);
    SourceRead(img, lay, t);
    WordRoundTrip(OBJECTS, lay.gap1 + (lay.count + u));
    EolStarts(lay.end1, ROOT + v);
    GapNumber(lay.gap1, lay.count, |img.objects|, u);
    EolsSkipped(lay.end1, ROOT + v);
    RootStays(v);
    WordRoundTrip(ROOT, v);
    GapNumber(lay.gap2, lay.root, img.root, x);
    EolsSkipped(lay.end2, t);
  }

  lemma {:induction false} RootStays(v: seq<Byte>)
    ensures SkipEol(ROOT + v) == ROOT + v
  {
  }

  lemma EolStarts(e: seq<Byte>, t: seq<Byte>)
    requires AllEol(e) && NoDigit(t)
    ensures NoDigit(e + t)
  {
    if e == [] {
      assert e + t == t;
    }
  }

  // ----- whole texts --------------------------------------------------------------------------------

  /** However an image is laid out, the text is parsed to it: with the header of an older
      version or a newer one, with line ends of any kind and number, blanks, leading zeros,
      flags and lines in any order. */
  lemma LaidOutRead(img: Image, lay: Layout)
    requires TypedImage(img) && Textual(img) && LayoutOk(img, lay)
    ensures Parsed(LaidOut(img, lay)) == Ok(img)
  {
    var t := LinesText(img.objects, lay.lines);
    HeaderRead(img, lay, t);
    ObjectsRead(img.objects, lay.lines);
    var h := Header(|img.objects|, img.root, img.arch, img.wordSize);
    ParsedFrom(LaidOut(img, lay), h, t, ReadAll(img.objects, lay.lines), img.objects);
  }

  lemma {:induction false} ObjectsRead(os: seq<Object>, lines: seq<Line>)
    requires Carried(os) && |lines| == |os| && AllLinesOk(os, lines) && forall id: nat :: id < |os| ==> Defines(lines, id)
    ensures var t := LinesText(os, lines);
      && SkipEol(t) == t && |t| >= |os| && ReadLines(t, |os|) == Ok(ReadAll(os, lines))
      && Collect(ReadAll(os, lines), |os|, 0) == Ok(os) && Observed(ReadAll(os, lines)) == |os|
  {
    LinesStart(os, lines);
    EnoughLines(os, lines);
    LinesRead(os, lines, LinesText(os, lines));
    LaidTable(os, lines);
  }

  lemma {:induction false} ParsedFrom(s: seq<Byte>, h: Header, t: seq<Byte>, lines: Lines, os: seq<Object>)
    requires ReadHeader(s) == Ok((h, t)) && |t| >= h.count && ReadLines(t, h.count) == Ok(lines)
    requires Observed(lines) == h.count && Collect(lines, h.count, 0) == Ok(os)
    ensures Parsed(s) == Ok(Image(h.root, h.arch, h.wordSize, os))
  {
  }

  lemma {:induction false} EnoughLines(os: seq<Object>, lines: seq<Line>)
    requires AllLinesOk(os, lines)
    ensures |LinesText(os, lines)| >= |lines|
  {
    if lines != [] {
      assert LineOk(os, lines[0]);
      EnoughLines(os, lines[1..]);
    }
  }

  // ----- older headers ------------------------------------------------------------------------------

  function PlainLine(os: seq<Object>, id: nat): Line
    requires id < |os|
  {
    Line(id, Dec(id), WriteFlags(FlagsOf(os[id].flags)), [], [LF])
  }

  function PlainLines(os: seq<Object>): seq<Line> {
    seq(|os|, i requires 0 <= i < |os| => PlainLine(os, i))
  }

  lemma {:induction false} NumeralsPrinted(n: nat)
    ensures NumeralOf(Dec(n), n)
  {
    DecDigits(n);
    PositionalIs(Dec(n));
  }

  lemma FlagsPrinted(flags: Byte)
    requires KnownFlags(flags)
    ensures Modifies(WriteFlags(FlagsOf(flags)), flags)
  {
  }

  lemma {:induction false} PlainText(os: seq<Object>, from: nat)
    requires from <= |os| < 0x1_0000_0000
    ensures LinesText(os, PlainLines(os)[from..]) == WriteObjects(os, from)
    decreases |os| - from
  {
    if from < |os| {
      assert PlainLines(os)[from..][1..] == PlainLines(os)[from + 1..];
      PlainLineText(os, from);
      PlainText(os, from + 1);
    }
  }

  lemma {:induction false} PlainLineText(os: seq<Object>, id: nat)
    requires id < |os| < 0x1_0000_0000
    ensures LineText(os, PlainLine(os, id)) == WriteObject(id, os[id])
  {
    var o, l := os[id], PlainLine(os, id);
    assert l.trail + l.end == [LF];
    assert l.numeral == Dec(id % 0x1_0000_0000);
    Unfolded(l.numeral, l.letters, Letter(o.body), WritePayload(o.body), l.trail + l.end);
  }

  lemma {:induction false} Unfolded(a: seq<Byte>, b: seq<Byte>, c: Byte, d: seq<Byte>, e: seq<Byte>)
    requires e == [LF]
    ensures a + ([COLON] + (b + ([c] + (d + e)))) == a + ([COLON] + (b + ([c] + (d + [LF]))))
  {
  }

  lemma {:induction false} PlainLinesOk(os: seq<Object>)
    requires AllKnown(os)
    ensures AllLinesOk(os, PlainLines(os)) && |PlainLines(os)| == |os|
    ensures forall id: nat :: id < |os| ==> Defines(PlainLines(os), id)
  {
    forall k | 0 <= k < |os| ensures LineOk(os, PlainLines(os)[k]) {
      NumeralsPrinted(k);
      FlagsPrinted(os[k].flags);
    }
    forall id: nat | id < |os| ensures Defines(PlainLines(os), id) {
      assert PlainLines(os)[id].id == id;
    }
  }

  /** The text of an image without architecture and word size. */
  function Abbreviated(img: Image, end: seq<Byte>): seq<Byte> {
    OBJECTS + ([TAB] + (Dec(|img.objects|) + ([LF] + (ROOT + ([TAB] + (Dec(img.root) + (end + WriteObjects(img.objects, 0))))))))
  }

  /** A root's line without architecture and word size stands for the bytecode interpreter
      and 64 bits: the text of such an image is parsed alike with and without them. */
  lemma {:induction false} AbbreviatedRead(img: Image, end: seq<Byte>)
    requires TypedImage(img) && Textual(img) && end != [] && AllEol(end)
    requires img.arch == Interpreted && img.wordSize == Bits64
    ensures Parsed(Abbreviated(img, end)) == Ok(img) == Parsed(Write(img))
  {
    var lay := Layout(true, Dec(|img.objects|), Dec(img.root), [TAB], [TAB], [], [LF], end, PlainLines(img.objects));
    NumeralsPrinted(|img.objects|);
    NumeralsPrinted(img.root);
    PlainLinesOk(img.objects);
    assert LayoutOk(img, lay);
    LaidOutRead(img, lay);
    PlainText(img.objects, 0);
    assert PlainLines(img.objects)[0..] == PlainLines(img.objects);
    assert [] + (end + WriteObjects(img.objects, 0)) == end + WriteObjects(img.objects, 0);
    TextualRoundTrip(img);
  }

  // ----- hexadecimal and closures -------------------------------------------------------------------

  const LOWER: seq<Byte> := [0x30, 0x31, 0x32, 0x33, 0x34, 0x35, 0x36, 0x37, 0x38, 0x39, 0x61, 0x62, 0x63, 0x64, 0x65, 0x66]
  const UPPER: seq<Byte> := [0x30, 0x31, 0x32, 0x33, 0x34, 0x35, 0x36, 0x37, 0x38, 0x39, 0x41, 0x42, 0x43, 0x44, 0x45, 0x46]

  /** The character is the digit `d`, in lower or upper case. */
  predicate HexFor(c: Byte, d: int) { 0 <= d < 16 && (c == LOWER[d] || c == UPPER[d]) }

  /** The i-th byte, its upper half first. */
  predicate HexPair(s: seq<Byte>, bytes: seq<Byte>, i: nat)
    requires |s| == 2 * |bytes| && i < |bytes|
  {
    HexFor(s[2 * i], bytes[i] / 16) && HexFor(s[2 * i + 1], bytes[i] % 16)
  }

  predicate HexOf(s: seq<Byte>, bytes: seq<Byte>) {
    |s| == 2 * |bytes| && forall i :: 0 <= i < |bytes| ==> HexPair(s, bytes, i)
  }

  lemma HexForDigit(c: Byte, d: int)
    requires HexFor(c, d)
    ensures HexDigit(c) == Some(d)
  {
  }

  /** Bytes are read from hexadecimal digits of either case. */
  lemma {:induction false} HexAnyCase(bytes: seq<Byte>, s: seq<Byte>, t: seq<Byte>)
    requires HexOf(s, bytes)
    ensures ReadHex(s + t, |bytes|) == Ok((bytes, t))
  {
    if bytes == [] {
      assert s + t == t;
    } else {
      assert HexPair(s, bytes, 0);
      HexForDigit(s[0], bytes[0] / 16);
      HexForDigit(s[1], bytes[0] % 16);
      HexRest(bytes, s);
      HexAnyCase(bytes[1..], s[2..], t);
      assert (s + t)[2..] == s[2..] + t;
      assert [bytes[0]] + bytes[1..] == bytes;
    }
  }

  lemma {:induction false} HexRest(bytes: seq<Byte>, s: seq<Byte>)
    requires bytes != [] && HexOf(s, bytes)
    ensures HexOf(s[2..], bytes[1..])
  {
    forall i | 0 <= i < |bytes[1..]| ensures HexPair(s[2..], bytes[1..], i) {
      assert HexPair(s, bytes, i + 1);
      assert s[2..][2 * i] == s[2 * (i + 1)] && s[2..][2 * i + 1] == s[2 * (i + 1) + 1];
    }
  }

  /** A closure that is said to have no words still has its code address. */
  lemma {:induction false} ClosureOfNone(code: U32, count: U32, t: seq<Byte>)
    requires code < count && NoDigit(t)
    ensures ReadPayload(0x43, [0x30, 0x7C, 0x40] + (Dec(code) + t), count) == Ok((Closure(code, []), t))
  {
    var s := [0x30, 0x7C, 0x40] + (Dec(code) + t);
    assert Dec(0) == [ZERO];
    assert s == Dec(0) + ([BAR] + ([AT] + (Dec(code) + t)));
    CountRoundTrip(0, [AT] + (Dec(code) + t));
    ExpectHead(AT, Dec(code) + t);
    IdRoundTrip(code, count, t);
  }
}
