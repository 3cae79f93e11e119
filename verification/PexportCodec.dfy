/** The text reader and writer as they run: a cursor that advances through the bytes, a
    table of slots filled line by line, an output that grows.  Each method does what its
    function in `Pexport` or `PexportImage` says. */
module PexportCodec {
  import opened Basics
  import opened Words
  import opened Images
  import opened Pexport
  import opened PexportImage
  import Bic
  import BicCodec

  ghost predicate Follows<T>(r: Result<T, ParseError>, rest: seq<Byte>, spec: Parse<T>) {
    if spec.Ok? then r == Ok(spec.value.0) && rest == spec.value.1 else r == Err(spec.error)
  }

  class Cursor {
    const bytes: seq<Byte>
    var pos: nat

    ghost predicate Valid()
      reads this
    {
      pos <= |bytes|
    }

    function Rest(): seq<Byte>
      requires Valid()
      reads this
    {
      bytes[pos..]
    }

    constructor (input: seq<Byte>)
      ensures Valid() && Rest() == input
    {
      bytes := input;
      pos := 0;
    }

    method Peek() returns (r: Result<Byte, ParseError>)
      requires Valid()
      ensures r == if Rest() == [] then Err(Eof) else Ok(Rest()[0])
    {
      return if pos < |bytes| then Ok(bytes[pos]) else Err(Eof);
    }

    method Bump() returns (r: Result<Byte, ParseError>)
      requires Valid()
      modifies this
      ensures Valid() && old(Valid())
      ensures if old(Rest()) == [] then r == Err(Eof) else r == Ok(old(Rest())[0]) && Rest() == old(Rest())[1..]
    {
      r := Peek();
      if r.Ok? {
        pos := pos + 1;
      }
    }

    method ExpectByte(b: Byte) returns (r: Result<(), ParseError>)
      requires Valid()
      modifies this
      ensures Valid() && Follows(r, Rest(), Expect(old(Rest()), b))
    {
      var got :- Bump();
      return if got == b then Ok(()) else Err(Expected);
    }

    method ExpectWord(word: seq<Byte>) returns (r: Result<(), ParseError>)
      requires Valid()
      modifies this
      ensures Valid() && Follows(r, Rest(), ExpectAll(old(Rest()), word))
    {
      ghost var start := Rest();
      var i := 0;
      assert word[0..] == word;
      while i < |word|
        invariant Valid() && 0 <= i <= |word|
        invariant ExpectAll(start, word) == ExpectAll(Rest(), word[i..])
      {
        assert word[i..][0] == word[i] && word[i..][1..] == word[i + 1..];
        var _ :- ExpectByte(word[i]);
        i := i + 1;
      }
      return Ok(());
    }

    method SkipBlanks()
      requires Valid()
      modifies this
      ensures Valid() && Rest() == SkipBlank(old(Rest()))
    {
      ghost var start := Rest();
      while pos < |bytes| && IsBlank(bytes[pos])
        invariant Valid() && SkipBlank(Rest()) == SkipBlank(start)
        decreases |bytes| - pos
      {
        pos := pos + 1;
      }
    }

    method SkipEols()
      requires Valid()
      modifies this
      ensures Valid() && Rest() == SkipEol(old(Rest()))
    {
      ghost var start := Rest();
      while pos < |bytes| && IsEol(bytes[pos])
        invariant Valid() && SkipEol(Rest()) == SkipEol(start)
        decreases |bytes| - pos
      {
        pos := pos + 1;
      }
    }

    /** Advances over digits and returns the number they stand for. */
    method SkipDigits() returns (n: nat, value: nat)
      requires Valid()
      modifies this
      ensures Valid() && n == Digits(old(Rest())) && Rest() == old(Rest())[n..]
      ensures (forall i :: 0 <= i < n ==> IsDigit(old(Rest())[i])) && value == Decimal(old(Rest())[..n])
    {
      ghost var start := Rest();
      n, value := 0, 0;
      while pos < |bytes| && IsDigit(bytes[pos])
        invariant Valid() && n <= |start| && Rest() == start[n..]
        invariant forall i :: 0 <= i < n ==> IsDigit(start[i])
        invariant Digits(start) == n + Digits(Rest())
        invariant value == Decimal(start[..n])
        decreases |bytes| - pos
      {
        assert start[..n + 1][..n] == start[..n] && start[n] == bytes[pos];
        value := 10 * value + (bytes[pos] as int - 0x30);
        n, pos := n + 1, pos + 1;
      }
    }

    method Number() returns (r: Result<Word, ParseError>)
      requires Valid()
      modifies this
      ensures Valid() && Follows(r, Rest(), ReadU64(old(Rest())))
    {
      var n, value := SkipDigits();
      return if n == 0 || value >= MODULUS then Err(BadNumber) else Ok(value);
    }

    method SignedNumber() returns (r: Result<I64, ParseError>)
      requires Valid()
      modifies this
      ensures Valid() && Follows(r, Rest(), ReadI64(old(Rest())))
    {
      var first :- Peek();
      if first == MINUS {
        pos := pos + 1;
      }
      var n, magnitude := SkipDigits();
      if n == 0 {
        return Err(BadNumber);
      }
      var v: int := if first == MINUS then 0 - magnitude as int else magnitude;
      return if -HALF <= v < HALF then Ok(v) else Err(BadNumber);
    }

    method Id(count: U32) returns (r: Result<U32, ParseError>)
      requires Valid()
      modifies this
      ensures Valid() && Follows(r, Rest(), ReadId(old(Rest()), count))
    {
      var id :- Number();
      return if id < count then Ok(id) else Err(BadIndex);
    }

    method HexBytes(n: nat) returns (r: Result<seq<Byte>, ParseError>)
      requires Valid()
      modifies this
      ensures Valid() && Follows(r, Rest(), ReadHex(old(Rest()), n))
    {
      var out: seq<Byte>, i := [], 0;
      ghost var start := Rest();
      AfterNoBytes(ReadHex(start, n));
      while i < n
        invariant Valid() && 0 <= i <= n
        invariant ReadHex(start, n) == AfterBytes(out, ReadHex(Rest(), n - i))
      {
        ghost var here := Rest();
        var h :- Bump();
        var l :- Bump();
        if HexDigit(h).None? || HexDigit(l).None? {
          return Err(BadHex);
        }
        assert Rest() == here[2..];
        var b := 16 * HexDigit(h).value + HexDigit(l).value;
        AfterOneByte(out, b, ReadHex(Rest(), n - i - 1));
        out := out + [b];
        i := i + 1;
      }
      assert out + [] == out;
      return Ok(out);
    }

    method OneValue(count: U32) returns (r: Result<Value, ParseError>)
      requires Valid()
      modifies this
      ensures Valid() && Follows(r, Rest(), ReadValue(old(Rest()), count))
    {
      var first :- Peek();
      if first == AT {
        pos := pos + 1;
        var id :- Id(count);
        return Ok(Ref(id));
      } else if first == MINUS || IsDigit(first) {
        var n :- SignedNumber();
        return Ok(Tagged(n));
      }
      return Err(Expected);
    }

    /** One value, and the comma after it if more follow. */
    method ListItem(left: nat, count: U32) returns (r: Result<Value, ParseError>)
      requires Valid() && left > 0
      modifies this
      ensures Valid()
      ensures r.Ok? ==> ReadList(old(Rest()), left, count) == AfterValues([r.value], ReadList(Rest(), left - 1, count))
      ensures r.Err? ==> ReadList(old(Rest()), left, count) == Err(r.error)
    {
      var v :- OneValue(count);
      if left > 1 {
        var _ :- ExpectByte(COMMA);
      }
      assert [v] + [] == [v];
      return Ok(v);
    }

    method ValueList(n: nat, count: U32) returns (r: Result<seq<Value>, ParseError>)
      requires Valid()
      modifies this
      ensures Valid() && Follows(r, Rest(), ReadList(old(Rest()), n, count))
    {
      var out: seq<Value>, left := [], n;
      ghost var spec := ReadList(Rest(), n, count);
      AfterNoValues(spec);
      while left > 0
        invariant Valid() && spec == AfterValues(out, ReadList(Rest(), left, count))
      {
        var v :- ListItem(left, count);
        AfterOneValue(out, v, ReadList(Rest(), left - 1, count));
        out := out + [v];
        left := left - 1;
      }
      AllValues(out, Rest(), count);
      return Ok(out);
    }

    method Count() returns (r: Result<Word, ParseError>)
      requires Valid()
      modifies this
      ensures Valid() && Follows(r, Rest(), ReadCount(old(Rest())))
    {
      var n :- Number();
      var _ :- ExpectByte(BAR);
      return Ok(n);
    }

    /** `parse_ordinary` and `parse_legacy_closure`. */
    method WordObject(legacy: bool, count: U32) returns (r: Result<ObjectBody, ParseError>)
      requires Valid()
      modifies this
      ensures Valid() && Follows(r, Rest(), ReadWords(legacy, old(Rest()), count))
    {
      var n :- Count();
      var vs :- ValueList(n, count);
      return Ok(if legacy then LegacyClosure(vs) else Ordinary(vs));
    }

    /** `parse_closure`. */
    method ClosureObject(count: U32) returns (r: Result<ObjectBody, ParseError>)
      requires Valid()
      modifies this
      ensures Valid() && Follows(r, Rest(), ReadClosure(old(Rest()), count))
    {
      var n :- Count();
      var _ :- ExpectByte(AT);
      var code :- Id(count);
      var vs :- Captures(n, count);
      return Ok(Closure(code, vs));
    }

    method Captures(n: nat, count: U32) returns (r: Result<seq<Value>, ParseError>)
      requires Valid()
      modifies this
      ensures Valid() && Follows(r, Rest(), ReadTail(old(Rest()), n, count))
    {
      if n <= 1 {
        return Ok([]);
      }
      var _ :- ExpectByte(COMMA);
      r := ValueList(n - 1, count);
    }

    /** `parse_string` and `parse_bytes`. */
    method HexObject(isString: bool) returns (r: Result<ObjectBody, ParseError>)
      requires Valid()
      modifies this
      ensures Valid() && Follows(r, Rest(), ReadHexBody(isString, old(Rest())))
    {
      var n :- Count();
      var bytes :- HexBytes(n);
      return Ok(if isString then String(bytes) else Bytes(bytes));
    }

    method Relocation(count: U32) returns (r: Result<CodeReloc, ParseError>)
      requires Valid()
      modifies this
      ensures Valid() && Follows(r, Rest(), ReadReloc(old(Rest()), count))
    {
      var offset :- Number();
      var _ :- ExpectByte(COMMA);
      var kind :- Number();
      var _ :- ExpectByte(COMMA);
      var _ :- ExpectByte(AT);
      var target :- Id(count);
      if offset >= 0x1_0000_0000 || kind >= 256 {
        return Err(BadHeader);
      }
      return Ok(CodeReloc(offset, kind, target));
    }

    method Relocations(count: U32) returns (r: Result<seq<CodeReloc>, ParseError>)
      requires Valid()
      modifies this
      ensures Valid() && Follows(r, Rest(), ReadRelocs(old(Rest()), count))
    {
      var out: seq<CodeReloc> := [];
      ghost var start := Rest();
      AfterNoRelocs(ReadRelocs(start, count));
      while true
        invariant Valid() && ReadRelocs(start, count) == AfterRelocs(out, ReadRelocs(Rest(), count))
        decreases |bytes| - pos
      {
        var next :- Peek();
        if IsEol(next) {
          assert out + [] == out;
          return Ok(out);
        } else if next == SPACE {
          pos := pos + 1;
        } else {
          ghost var here := Rest();
          var reloc :- Relocation(count);
          ReadRelocConsumes(here, count);
          AfterOneReloc(out, reloc, ReadRelocs(Rest(), count));
          out := out + [reloc];
        }
      }
    }

    /** `parse_code`. */
    method CodeObject(count: U32) returns (r: Result<ObjectBody, ParseError>)
      requires Valid()
      modifies this
      ensures Valid() && Follows(r, Rest(), ReadCode(old(Rest()), count))
    {
      var nConsts :- Number();
      var _ :- ExpectByte(COMMA);
      var nBytes :- Count();
      var code :- HexBytes(nBytes);
      var _ :- ExpectByte(BAR);
      var constants :- ValueList(nConsts, count);
      var _ :- ExpectByte(BAR);
      var relocs :- Relocations(count);
      return Ok(Code(code, constants, relocs));
    }

    /** `parse_entry_point`. */
    method EntryPointObject() returns (r: Result<ObjectBody, ParseError>)
      requires Valid()
      modifies this
      ensures Valid() && Follows(r, Rest(), ReadEntryPoint(old(Rest())))
    {
      var n :- Count();
      var end := pos + n;
      if end > |bytes| {
        return Err(Eof);
      }
      assert Rest()[..n] == bytes[pos..end] && Rest()[n..] == bytes[end..];
      if !ValidUtf8(bytes[pos..end]) {
        return Err(BadHeader);
      }
      r := Ok(EntryPoint(bytes[pos..end]));
      pos := end;
    }

    method Payload(ty: Byte, count: U32) returns (r: Result<ObjectBody, ParseError>)
      requires Valid()
      modifies this
      ensures Valid() && Follows(r, Rest(), ReadPayload(ty, old(Rest()), count))
    {
      if ty == T_O || ty == T_L {
        r := WordObject(ty == T_L, count);
      } else if ty == T_C {
        r := ClosureObject(count);
      } else if ty == T_S || ty == T_B {
        r := HexObject(ty == T_S);
      } else if ty == T_F {
        r := CodeObject(count);
      } else if ty == T_E {
        r := EntryPointObject();
      } else if ty == T_K {
        r := Ok(WeakRef);
      } else {
        r := Err(UnknownType);
      }
    }

    method Modifiers() returns (r: Result<FlagSet, ParseError>)
      requires Valid()
      modifies this
      ensures Valid() && Follows(r, Rest(), ReadFlags(old(Rest()), FlagSet(false, false, false, false)))
    {
      var f := FlagSet(false, false, false, false);
      ghost var start, f0 := Rest(), f;
      while true
        invariant Valid() && ReadFlags(start, f0) == ReadFlags(Rest(), f)
        decreases |bytes| - pos
      {
        var next :- Peek();
        if next == M {
          f := f.(m := true);
        } else if next == N {
          f := f.(n := true);
        } else if next == V {
          f := f.(v := true);
        } else if next == W {
          f := f.(w := true);
        } else {
          return Ok(f);
        }
        pos := pos + 1;
      }
    }

    method Definition(count: U32) returns (r: Result<Object, ParseError>)
      requires Valid()
      modifies this
      ensures Valid() && Follows(r, Rest(), ReadObject(old(Rest()), count))
    {
      var flags :- Modifiers();
      var ty :- Bump();
      var body :- Payload(ty, count);
      SkipBlanks();
      if pos < |bytes| && !IsEol(bytes[pos]) {
        return Err(Expected);
      }
      return Ok(Object(ByteOf(flags), body));
    }

    /** `parse_object_line`. */
    method Line(count: U32) returns (r: Result<(U32, Object), ParseError>)
      requires Valid()
      modifies this
      ensures Valid() && Follows(r, Rest(), ReadLine(old(Rest()), count))
    {
      var id :- Id(count);
      var _ :- ExpectByte(COLON);
      var o :- Definition(count);
      return Ok((id, o));
    }

    method HeaderNumber() returns (r: Result<U32, ParseError>)
      requires Valid()
      modifies this
      ensures Valid() && Follows(r, Rest(), ReadHeaderNumber(old(Rest())))
    {
      SkipBlanks();
      var v :- Number();
      return if v >= 0x1_0000_0000 then Err(BadHeader) else Ok(v);
    }

    method Architecture() returns (r: Result<(SourceArch, WordSize), ParseError>)
      requires Valid()
      modifies this
      ensures Valid() && Follows(r, Rest(), ReadArch(old(Rest())))
    {
      SkipBlanks();
      var a :- Peek();
      if IsEol(a) {
        return Ok((Interpreted, Bits64));
      }
      pos := pos + 1;
      SkipBlanks();
      var w :- Number();
      if w == 4 {
        return Ok((ArchOf(a), Bits32));
      } else if w == 8 {
        return Ok((ArchOf(a), Bits64));
      }
      return Err(BadHeader);
    }

    /** `parse_header`. */
    method ImageHeader() returns (r: Result<Header, ParseError>)
      requires Valid()
      modifies this
      ensures Valid() && Follows(r, Rest(), ReadHeader(old(Rest())))
    {
      var _ :- ExpectWord(OBJECTS);
      var count :- HeaderNumber();
      SkipEols();
      var _ :- ExpectWord(ROOT);
      var root :- HeaderNumber();
      var arch :- Architecture();
      SkipEols();
      return Ok(Header(count, root, arch.0, arch.1));
    }

    /** The loop over object lines: each definition goes into its slot, and is counted. */
    method Fill(slots: array<Option<Object>>, count: U32) returns (r: Result<nat, ParseError>, ghost lines: Lines)
      requires Valid() && slots.Length == count && forall k :: 0 <= k < count ==> slots[k] == None
      modifies this, slots
      ensures Valid()
      ensures r.Ok? ==> ReadLines(old(Rest()), count) == Ok(lines) && r.value == Observed(lines)
      ensures r.Ok? ==> forall k :: 0 <= k < count ==> slots[k] == Slot(lines, k)
      ensures r.Err? ==> ReadLines(old(Rest()), count) == Err(r.error)
    {
      var observed: nat := 0;
      lines := [];
      ghost var start := Rest();
      AfterNoLines(ReadLines(start, count));
      while true
        invariant Valid() && observed == Observed(lines)
        invariant ReadLines(start, count) == AfterLines(lines, ReadLines(Rest(), count))
        invariant forall k :: 0 <= k < count ==> slots[k] == Slot(lines, k)
        decreases |bytes| - pos
      {
        ghost var before := Rest();
        SkipEols();
        ghost var here := Rest();
        if pos >= |bytes| {
          NoLines(before, count);
          assert lines + [] == lines;
          return Ok(observed), lines;
        }
        var line := Line(count);
        if line.Err? {
          return Err(line.error), lines;
        }
        var (id, o) := line.value;
        LineFacts(here, count);
        AfterOneLine(lines, (id, o), ReadLines(Rest(), count));
        assert (lines + [(id, o)])[..|lines|] == lines;
        slots[id] := Some(o);
        lines := lines + [(id, o)];
        observed := if observed < 0xFFFF_FFFF then observed + 1 else observed;
      }
    }
  }

  /** Every slot's object, if all are filled. */
  method CollectSlots(slots: array<Option<Object>>, ghost lines: Lines) returns (r: Result<seq<Object>, ParseError>)
    requires forall k :: 0 <= k < slots.Length ==> slots[k] == Slot(lines, k)
    ensures r == Collect(lines, slots.Length, 0)
  {
    var out: seq<Object>, i := [], 0;
    AfterNoObjects(Collect(lines, slots.Length, 0));
    while i < slots.Length
      invariant 0 <= i <= slots.Length
      invariant Collect(lines, slots.Length, 0) == AfterObjects(out, Collect(lines, slots.Length, i))
    {
      if slots[i].None? {
        return Err(BadIndex);
      }
      AfterOneObject(out, slots[i].value, Collect(lines, slots.Length, i + 1));
      out := out + [slots[i].value];
      i := i + 1;
    }
    assert out + [] == out;
    return Ok(out);
  }

  /** `Image::parse`. */
  method ParseImage(input: seq<Byte>) returns (r: Result<Image, ParseError>)
    ensures r == Parsed(input)
  {
    var c := new Cursor(input);
    var h :- c.ImageHeader();
    if h.count > |c.bytes| - c.pos {
      return Err(Eof);
    }
    var slots := new Option<Object>[h.count](i => None);
    var observed, lines := c.Fill(slots, h.count);
    if observed.Err? {
      return Err(observed.error);
    }
    if observed.value != h.count {
      return Err(CountMismatch);
    }
    var objects :- CollectSlots(slots, lines);
    return Ok(Image(h.root, h.arch, h.wordSize, objects));
  }

  // ----- lists read so far -----------------------------------------------------------------

  function AfterBytes(done: seq<Byte>, r: Parse<seq<Byte>>): Parse<seq<Byte>> {
    var (xs, t) :- r;
    Ok((done + xs, t))
  }

  lemma AfterNoBytes(r: Parse<seq<Byte>>)
    ensures AfterBytes([], r) == r
  {
    if r.Ok? { assert [] + r.value.0 == r.value.0; }
  }

  lemma AfterOneByte(done: seq<Byte>, b: Byte, r: Parse<seq<Byte>>)
    ensures AfterBytes(done, AfterBytes([b], r)) == AfterBytes(done + [b], r)
  {
    if r.Ok? { assert done + ([b] + r.value.0) == done + [b] + r.value.0; }
  }

  function AfterValues(done: seq<Value>, r: Parse<seq<Value>>): Parse<seq<Value>> {
    var (xs, t) :- r;
    Ok((done + xs, t))
  }

  lemma SomeCaptures(start: seq<Byte>, d: seq<Byte>, l: seq<Byte>)
    ensures start + ([AT] + d) + [COMMA] + l == start + ([AT] + (d + ([COMMA] + l)))
  {
  }

  lemma NoCaptures(d: seq<Byte>)
    ensures [AT] + (d + []) == [AT] + d
  {
  }

  lemma AfterNoValues(r: Parse<seq<Value>>)
    ensures AfterValues([], r) == r
  {
    if r.Ok? { assert [] + r.value.0 == r.value.0; }
  }

  lemma {:induction false} AllValues(done: seq<Value>, s: seq<Byte>, count: U32)
    ensures AfterValues(done, ReadList(s, 0, count)) == Ok((done, s))
  {
    assert done + [] == done;
  }

  lemma AfterOneValue(done: seq<Value>, v: Value, r: Parse<seq<Value>>)
    ensures AfterValues(done, AfterValues([v], r)) == AfterValues(done + [v], r)
  {
    if r.Ok? { assert done + ([v] + r.value.0) == done + [v] + r.value.0; }
  }

  function AfterRelocs(done: seq<CodeReloc>, r: Parse<seq<CodeReloc>>): Parse<seq<CodeReloc>> {
    var (xs, t) :- r;
    Ok((done + xs, t))
  }

  lemma AfterNoRelocs(r: Parse<seq<CodeReloc>>)
    ensures AfterRelocs([], r) == r
  {
    if r.Ok? { assert [] + r.value.0 == r.value.0; }
  }

  lemma AfterOneReloc(done: seq<CodeReloc>, x: CodeReloc, r: Parse<seq<CodeReloc>>)
    ensures AfterRelocs(done, AfterRelocs([x], r)) == AfterRelocs(done + [x], r)
  {
    if r.Ok? { assert done + ([x] + r.value.0) == done + [x] + r.value.0; }
  }

  function AfterLines(done: Lines, r: Result<Lines, ParseError>): Result<Lines, ParseError> {
    var rest :- r;
    Ok(done + rest)
  }

  lemma AfterNoLines(r: Result<Lines, ParseError>)
    ensures AfterLines([], r) == r
  {
    if r.Ok? { assert [] + r.value == r.value; }
  }

  lemma AfterOneLine(done: Lines, line: (U32, Object), r: Result<Lines, ParseError>)
    ensures AfterLines(done, AfterLines([line], r)) == AfterLines(done + [line], r)
  {
    if r.Ok? { assert done + ([line] + r.value) == done + [line] + r.value; }
  }

  function AfterObjects(done: seq<Object>, r: Result<seq<Object>, ParseError>): Result<seq<Object>, ParseError> {
    var rest :- r;
    Ok(done + rest)
  }

  lemma AfterNoObjects(r: Result<seq<Object>, ParseError>)
    ensures AfterObjects([], r) == r
  {
    if r.Ok? { assert [] + r.value == r.value; }
  }

  lemma AfterOneObject(done: seq<Object>, o: Object, r: Result<seq<Object>, ParseError>)
    ensures AfterObjects(done, AfterObjects([o], r)) == AfterObjects(done + [o], r)
  {
    if r.Ok? { assert done + ([o] + r.value) == done + [o] + r.value; }
  }

  // ----- the writer -------------------------------------------------------------------------

  class Printer {
    var out: seq<Byte>

    constructor ()
      ensures out == []
    {
      out := [];
    }

    method Put(bytes: seq<Byte>)
      modifies this
      ensures out == old(out) + bytes
    {
      out := out + bytes;
    }

    /** Values separated by commas. */
    method PutList(vs: seq<Value>)
      modifies this
      ensures out == old(out) + WriteList(vs)
    {
      ghost var start := out;
      var i := 0;
      if vs != [] {
        Put(WriteValue(vs[0]));
        i := 1;
        FirstOfList(vs);
        Assoc(start, WriteValue(vs[0]), WriteTail(vs[1..]));
        while i < |vs|
          invariant 1 <= i <= |vs|
          invariant start + WriteList(vs) == out + WriteTail(vs[i..])
        {
          FirstOfList(vs[i..]);
          assert vs[i..][0] == vs[i] && vs[i..][1..] == vs[i + 1..];
          Assoc(out, [COMMA], WriteValue(vs[i]) + WriteTail(vs[i + 1..]));
          Assoc(out + [COMMA], WriteValue(vs[i]), WriteTail(vs[i + 1..]));
          Put([COMMA]);
          Put(WriteValue(vs[i]));
          i := i + 1;
        }
        assert out + [] == out;
      } else {
        assert start + [] == start;
      }
    }

    method PutHex(bytes: seq<Byte>)
      modifies this
      ensures out == old(out) + WriteHex(bytes)
    {
      ghost var start := out;
      var i := 0;
      assert bytes[0..] == bytes;
      while i < |bytes|
        invariant 0 <= i <= |bytes|
        invariant start + WriteHex(bytes) == out + WriteHex(bytes[i..])
      {
        assert bytes[i..][0] == bytes[i] && bytes[i..][1..] == bytes[i + 1..];
        Assoc(out, [HexChar(bytes[i] / 16), HexChar(bytes[i] % 16)], WriteHex(bytes[i + 1..]));
        Put([HexChar(bytes[i] / 16), HexChar(bytes[i] % 16)]);
        i := i + 1;
      }
      assert out + [] == out;
    }

    method PutRelocs(rs: seq<CodeReloc>)
      modifies this
      ensures out == old(out) + WriteRelocs(rs)
    {
      ghost var start := out;
      var i := 0;
      assert rs[0..] == rs;
      while i < |rs|
        invariant 0 <= i <= |rs|
        invariant start + WriteRelocs(rs) == out + WriteRelocs(rs[i..])
      {
        assert rs[i..][0] == rs[i] && rs[i..][1..] == rs[i + 1..];
        Assoc(out, WriteReloc(rs[i]), WriteRelocs(rs[i + 1..]));
        Put(WriteReloc(rs[i]));
        i := i + 1;
      }
      assert out + [] == out;
    }

    method PutPayload(b: ObjectBody)
      modifies this
      ensures out == old(out) + WritePayload(b)
    {
      ghost var start := out;
      match b {
        case Ordinary(vs) =>
          PutCounted(|vs|);
          PutList(vs);
          CountedText(start, Dec(|vs|), WriteList(vs));
        case Closure(code, vs) =>
          PutCounted(1 + |vs|);
          PutCaptures(code, vs);
          CountedText(start, Dec(1 + |vs|), [AT] + (Dec(code) + WriteTail(vs)));
        case LegacyClosure(vs) =>
          PutCounted(|vs|);
          PutList(vs);
          CountedText(start, Dec(|vs|), WriteList(vs));
        case String(bytes) =>
          PutCounted(|bytes|);
          PutHex(bytes);
          CountedText(start, Dec(|bytes|), WriteHex(bytes));
        case Bytes(bytes) =>
          PutCounted(|bytes|);
          PutHex(bytes);
          CountedText(start, Dec(|bytes|), WriteHex(bytes));
        case Code(code, vs, relocs) =>
          PutCode(code, vs, relocs);
        case EntryPoint(name) =>
          PutCounted(|name|);
          Put(name);
          CountedText(start, Dec(|name|), name);
        case WeakRef =>
          assert start + [] == start;
      }
    }

    method PutCounted(n: nat)
      modifies this
      ensures out == old(out) + (Dec(n) + [BAR])
    {
      Put(Dec(n) + [BAR]);
    }

    method PutCaptures(code: U32, vs: seq<Value>)
      modifies this
      ensures out == old(out) + ([AT] + (Dec(code) + WriteTail(vs)))
    {
      ghost var start := out;
      Put([AT] + Dec(code));
      if vs != [] {
        Put([COMMA]);
        PutList(vs);
        SomeCaptures(start, Dec(code), WriteList(vs));
      } else {
        NoCaptures(Dec(code));
      }
    }

    method PutCode(code: seq<Byte>, vs: seq<Value>, relocs: seq<CodeReloc>)
      modifies this
      ensures out == old(out) + WritePayload(Code(code, vs, relocs))
    {
      ghost var start := out;
      Put(Dec(|vs|) + [COMMA] + (Dec(|code|) + [BAR]));
      PutHex(code);
      Put([BAR]);
      PutList(vs);
      Put([BAR]);
      PutRelocs(relocs);
      CodeText(start, Dec(|vs|), Dec(|code|), WriteHex(code), WriteList(vs), WriteRelocs(relocs));
    }

    /** `write_object`. */
    method PutObject(id: nat, o: Object)
      modifies this
      ensures out == old(out) + WriteObject(id, o)
    {
      ghost var start := out;
      var head := Dec(id % 0x1_0000_0000) + [COLON];
      Put(head);
      var f := FlagsOf(o.flags);
      PutFlags(f);
      Put([Letter(o.body)]);
      PutPayload(o.body);
      Put([LF]);
      ObjectText(start, Dec(id % 0x1_0000_0000), WriteFlags(f), [Letter(o.body)], WritePayload(o.body));
    }

    method PutWhen(on: bool, b: Byte)
      modifies this
      ensures out == old(out) + When(on, b)
    {
      if on {
        Put([b]);
      } else {
        assert out + [] == out;
      }
    }

    /** One letter for each flag that is set. */
    method PutFlags(f: FlagSet)
      modifies this
      ensures out == old(out) + WriteFlags(f)
    {
      ghost var start := out;
      PutWhen(f.m, M);
      PutWhen(f.n, N);
      PutWhen(f.v, V);
      PutWhen(f.w, W);
      assert out == start + When(f.m, M) + When(f.n, N) + When(f.v, V) + When(f.w, W);
    }

    /** `Image::write`. */
    method PutImage(img: Image)
      modifies this
      ensures out == old(out) + Write(img)
    {
      ghost var start := out;
      Put(WriteHeader(|img.objects|, img.root, img.arch, img.wordSize));
      ghost var listed := out;
      var i := 0;
      while i < |img.objects|
        invariant 0 <= i <= |img.objects|
        invariant listed + WriteObjects(img.objects, 0) == out + WriteObjects(img.objects, i)
      {
        Assoc(out, WriteObject(i, img.objects[i]), WriteObjects(img.objects, i + 1));
        PutObject(i, img.objects[i]);
        i := i + 1;
      }
      assert out + [] == out;
      Assoc(start, WriteHeader(|img.objects|, img.root, img.arch, img.wordSize), WriteObjects(img.objects, 0));
    }
  }

  lemma {:induction false} FirstOfList(vs: seq<Value>)
    requires vs != []
    ensures WriteList(vs) == WriteValue(vs[0]) + WriteTail(vs[1..])
  {
    if |vs| == 1 {
      assert WriteValue(vs[0]) + [] == WriteValue(vs[0]);
    }
  }

  lemma CountedText(start: seq<Byte>, a: seq<Byte>, b: seq<Byte>)
    ensures start + (a + [BAR]) + b == start + (a + ([BAR] + b))
  {
  }

  lemma CodeText(start: seq<Byte>, a: seq<Byte>, b: seq<Byte>, c: seq<Byte>, d: seq<Byte>, e: seq<Byte>)
    ensures start + (a + [COMMA] + (b + [BAR])) + c + [BAR] + d + [BAR] + e
      == start + (a + ([COMMA] + (b + ([BAR] + (c + ([BAR] + (d + ([BAR] + e))))))))
  {
  }

  lemma ObjectText(start: seq<Byte>, a: seq<Byte>, f: seq<Byte>, l: seq<Byte>, p: seq<Byte>)
    ensures start + (a + [COLON]) + f + l + p + [LF] == start + (a + ([COLON] + (f + (l + (p + [LF])))))
  {
  }

  // ----- format detection --------------------------------------------------------------------

  datatype AutoError = FromBic(bic: Bic.BicError) | FromText(text: ParseError)

  function Detected(input: seq<Byte>, lossy: Bic.Lossy): Result<Image, AutoError> {
    if Bic.MAGIC <= input then
      match Bic.ReadBic(input, lossy)
      case Ok((img, _)) => Ok(img)
      case Err(e) => Err(FromBic(e))
    else
      match Parsed(input)
      case Ok(img) => Ok(img)
      case Err(e) => Err(FromText(e))
  }

  /** `parse_auto`: the magic prefix decides which reader is used. */
  method ParseAuto(input: seq<Byte>, lossy: Bic.Lossy) returns (r: Result<Image, AutoError>)
    ensures r == Detected(input, lossy)
  {
    if Bic.MAGIC <= input {
      var reader := new BicCodec.Reader(input);
      var image := reader.ReadImage(lossy);
      return match image { case Ok(img) => Ok(img) case Err(e) => Err(FromBic(e)) };
    }
    var image := ParseImage(input);
    return match image { case Ok(img) => Ok(img) case Err(e) => Err(FromText(e)) };
  }

  /** Either form of an image is recognised and read back as the image. */
  lemma AutoReadsBoth(img: Image, lossy: Bic.Lossy)
    requires TypedImage(img) && Bic.KeepsValid(lossy)
    ensures Bic.Portable(img) ==> Detected(Bic.WriteBic(img), lossy) == Ok(img)
    ensures Textual(img) ==> Detected(Write(img), lossy) == Ok(img)
  {
    Bic.BicRoundTrip(img, lossy);
    PexportRoundTrip(img);
    BicHasMagic(img);
    assert Write(img)[0] == OBJECTS[0];
  }

  lemma BicHasMagic(img: Image)
    requires |img.objects| < MODULUS
    ensures Bic.MAGIC <= Bic.WriteBic(img)
  {
  }
}
