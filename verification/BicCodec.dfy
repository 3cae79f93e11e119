/** The binary reader and writer as they run: a position that advances through the input,
    an output that grows, loops over numbers and lists.  Each method does what its function
    in `Bic` says. */
module BicCodec {
  import opened Basics
  import opened Words
  import opened Images
  import opened Bic

  /** A reader method's result and the input it leaves, against the reading function. */
  ghost predicate Follows<T>(r: Result<T, BicError>, rest: seq<Byte>, spec: Read<T>) {
    if spec.Ok? then r == Ok(spec.value.0) && rest == spec.value.1 else r == Err(spec.error)
  }

  class Reader {
    const buf: seq<Byte>
    var pos: nat

    ghost predicate Valid()
      reads this
    {
      pos <= |buf|
    }

    function Rest(): seq<Byte>
      requires Valid()
      reads this
    {
      buf[pos..]
    }

    constructor (bytes: seq<Byte>)
      ensures Valid() && Rest() == bytes
    {
      buf := bytes;
      pos := 0;
    }

    method U8() returns (r: Result<Byte, BicError>)
      requires Valid()
      modifies this
      ensures Valid() && Follows(r, Rest(), ReadByte(old(Rest())))
    {
      if pos >= |buf| {
        return Err(Eof);
      }
      r := Ok(buf[pos]);
      pos := pos + 1;
    }

    method ReadNumber() returns (r: Result<Word, BicError>)
      requires Valid()
      modifies this
      ensures Valid() && Follows(r, Rest(), ReadUvarint(old(Rest())))
    {
      var result: Word, shift: nat := 0, 0;
      ghost var start := Rest();
      while true
        invariant Valid()
        invariant ReadUvarint(start) == ReadUvarintFrom(Rest(), shift, result)
        decreases |buf| - pos
      {
        var byte :- U8();
        if shift >= 64 {
          return Err(VarintOverflow);
        }
        result := OrShifted(result, byte % 128, shift);
        if byte < 128 {
          return Ok(result);
        }
        shift := shift + 7;
      }
    }

    method ReadId() returns (r: Result<U32, BicError>)
      requires Valid()
      modifies this
      ensures Valid() && Follows(r, Rest(), ReadU32(old(Rest())))
    {
      var v :- ReadNumber();
      return if v < 0x1_0000_0000 then Ok(v) else Err(VarintOverflow);
    }

    method ReadSlice() returns (r: Result<seq<Byte>, BicError>)
      requires Valid()
      modifies this
      ensures Valid() && Follows(r, Rest(), ReadBytes(old(Rest())))
    {
      var n :- ReadNumber();
      var end := pos + n;
      if end > |buf| {
        return Err(BadLength);
      }
      assert Rest()[..n] == buf[pos..end] && Rest()[n..] == buf[end..];
      r := Ok(buf[pos..end]);
      pos := end;
    }

    method ReadOne() returns (r: Result<Value, BicError>)
      requires Valid()
      modifies this
      ensures Valid() && Follows(r, Rest(), ReadValue(old(Rest())))
    {
      var tag :- U8();
      if tag == V_TAGGED {
        var w :- ReadNumber();
        return Ok(Tagged(Unzigzag(w)));
      } else if tag == V_REF {
        var id :- ReadId();
        return Ok(Ref(id));
      }
      return Err(BadValue);
    }

    method ReadList() returns (r: Result<seq<Value>, BicError>)
      requires Valid()
      modifies this
      ensures Valid() && Follows(r, Rest(), ReadValues(old(Rest())))
    {
      var n :- ReadNumber();
      var out: seq<Value>, i := [], 0;
      ghost var start := Rest();
      AfterNoValues(ReadEach(start, n));
      while i < n
        invariant Valid() && 0 <= i <= n
        invariant ReadEach(start, n) == AfterValues(out, ReadEach(Rest(), n - i))
      {
        ValuesStep(out, Rest(), n - i);
        var v :- ReadOne();
        out := out + [v];
        i := i + 1;
      }
      AllValues(out, Rest());
      return Ok(out);
    }

    method ReadRelocList() returns (r: Result<seq<CodeReloc>, BicError>)
      requires Valid()
      modifies this
      ensures Valid()
      ensures var spec := ReadUvarint(old(Rest()));
        if spec.Ok? then Follows(r, Rest(), ReadRelocs(spec.value.1, spec.value.0)) else r == Err(spec.error)
    {
      var n :- ReadNumber();
      var out: seq<CodeReloc>, i := [], 0;
      ghost var start := Rest();
      AfterNoRelocs(ReadRelocs(start, n));
      while i < n
        invariant Valid() && 0 <= i <= n
        invariant ReadRelocs(start, n) == AfterRelocs(out, ReadRelocs(Rest(), n - i))
      {
        var offset :- ReadId();
        var kind :- U8();
        var target :- ReadId();
        AfterOneReloc(out, CodeReloc(offset, kind, target), ReadRelocs(Rest(), n - i - 1));
        out := out + [CodeReloc(offset, kind, target)];
        i := i + 1;
      }
      assert out + [] == out;
      return Ok(out);
    }

    /** `read_body`. */
    method ReadObjectBody(lossy: Lossy) returns (r: Result<ObjectBody, BicError>)
      requires Valid()
      modifies this
      ensures Valid() && Follows(r, Rest(), ReadBody(old(Rest()), lossy))
    {
      var tag :- U8();
      if tag == T_ORDINARY || tag == T_LEGACY_CLOSURE {
        var vs :- ReadList();
        return Ok(if tag == T_LEGACY_CLOSURE then LegacyClosure(vs) else Ordinary(vs));
      } else if tag == T_CLOSURE {
        var code :- ReadId();
        var vs :- ReadList();
        return Ok(Closure(code, vs));
      } else if tag == T_CODE {
        var code :- ReadSlice();
        var constants :- ReadList();
        var relocs :- ReadRelocList();
        return Ok(Code(code, constants, relocs));
      } else if tag == T_STRING || tag == T_BYTES || tag == T_ENTRY_POINT {
        var b :- ReadSlice();
        return Ok(BytesAs(tag, b, lossy));
      } else if tag == T_WEAK_REF {
        return Ok(WeakRef);
      }
      return Err(BadType);
    }

    method ReadImageHeader() returns (r: Result<Header, BicError>)
      requires Valid()
      modifies this
      ensures Valid() && Follows(r, Rest(), ReadHeader(old(Rest())))
    {
      var i := 0;
      ghost var start := Rest();
      assert MAGIC[0..] == MAGIC;
      while i < |MAGIC|
        invariant Valid() && 0 <= i <= |MAGIC|
        invariant ReadMagic(start, MAGIC) == ReadMagic(Rest(), MAGIC[i..])
      {
        var b :- U8();
        if b != MAGIC[i] {
          return Err(BadMagic);
        }
        assert MAGIC[i..][1..] == MAGIC[i + 1..];
        i := i + 1;
      }
      var arch :- U8();
      var size :- U8();
      var root :- ReadId();
      var n :- ReadNumber();
      return Ok(Header(ArchOf(arch), if size == 4 then Bits32 else Bits64, root, n));
    }

    method ReadOneObject(lossy: Lossy) returns (r: Result<Object, BicError>)
      requires Valid()
      modifies this
      ensures Valid() && Follows(r, Rest(), ReadObject(old(Rest()), lossy))
    {
      var flags :- U8();
      var body :- ReadObjectBody(lossy);
      return Ok(Object(KnownBits(flags), body));
    }

    /** One object moves from what is left to what is done. */
    method NextObject(ghost done: seq<Object>, ghost left: nat, lossy: Lossy) returns (r: Result<Object, BicError>)
      requires Valid() && left > 0
      modifies this
      ensures Valid()
      ensures r.Ok? ==>
        (AfterObjects(done, ReadObjects(old(Rest()), left, lossy))
          == AfterObjects(done + [r.value], ReadObjects(Rest(), left - 1, lossy)))
      ensures r.Err? ==> ReadObjects(old(Rest()), left, lossy) == Err(r.error)
    {
      ObjectsStep(done, Rest(), left, lossy);
      r := ReadOneObject(lossy);
    }

    method ReadObjectList(n: nat, lossy: Lossy) returns (r: Result<seq<Object>, BicError>)
      requires Valid()
      modifies this
      ensures Valid() && Follows(r, Rest(), ReadObjects(old(Rest()), n, lossy))
    {
      var out: seq<Object>, left := [], n;
      ghost var spec := ReadObjects(Rest(), n, lossy);
      AfterNoObjects(spec);
      while left > 0
        invariant Valid() && spec == AfterObjects(out, ReadObjects(Rest(), left, lossy))
      {
        var o :- NextObject(out, left, lossy);
        out := out + [o];
        left := left - 1;
      }
      AllObjects(out, Rest(), lossy);
      return Ok(out);
    }

    /** `read_bic`. */
    method ReadImage(lossy: Lossy) returns (r: Result<Image, BicError>)
      requires Valid()
      modifies this
      ensures Valid() && Follows(r, Rest(), ReadBic(old(Rest()), lossy))
    {
      var h :- ReadImageHeader();
      var objects :- ReadObjectList(h.count, lossy);
      return Ok(Image(h.root, h.arch, h.wordSize, objects));
    }
  }

  // ----- lists read so far ---------------------------------------------------------------

  function AfterValues(done: seq<Value>, r: Read<seq<Value>>): Read<seq<Value>> {
    var (vs, t) :- r;
    Ok((done + vs, t))
  }

  lemma AfterNoValues(r: Read<seq<Value>>)
    ensures AfterValues([], r) == r
  {
    if r.Ok? { assert [] + r.value.0 == r.value.0; }
  }

  lemma AfterOneValue(done: seq<Value>, v: Value, r: Read<seq<Value>>)
    ensures AfterValues(done, AfterValues([v], r)) == AfterValues(done + [v], r)
  {
    if r.Ok? { assert done + ([v] + r.value.0) == done + [v] + r.value.0; }
  }

  lemma {:induction false} AllValues(done: seq<Value>, s: seq<Byte>)
    ensures AfterValues(done, ReadEach(s, 0)) == Ok((done, s))
  {
    assert done + [] == done;
  }

  lemma ValuesStep(done: seq<Value>, s: seq<Byte>, left: nat)
    requires left > 0
    ensures AfterValues(done, ReadEach(s, left)) ==
      match ReadValue(s)
      case Err(e) => Err(e)
      case Ok((v, u)) => AfterValues(done + [v], ReadEach(u, left - 1))
  {
    if ReadValue(s).Ok? {
      var (v, u) := ReadValue(s).value;
      AfterOneValue(done, v, ReadEach(u, left - 1));
    }
  }

  function AfterRelocs(done: seq<CodeReloc>, r: Read<seq<CodeReloc>>): Read<seq<CodeReloc>> {
    var (rs, t) :- r;
    Ok((done + rs, t))
  }

  lemma AfterNoRelocs(r: Read<seq<CodeReloc>>)
    ensures AfterRelocs([], r) == r
  {
    if r.Ok? { assert [] + r.value.0 == r.value.0; }
  }

  lemma AfterOneReloc(done: seq<CodeReloc>, v: CodeReloc, r: Read<seq<CodeReloc>>)
    ensures AfterRelocs(done, AfterRelocs([v], r)) == AfterRelocs(done + [v], r)
  {
    if r.Ok? { assert done + ([v] + r.value.0) == done + [v] + r.value.0; }
  }

  function AfterObjects(done: seq<Object>, r: Read<seq<Object>>): Read<seq<Object>> {
    var (os, t) :- r;
    Ok((done + os, t))
  }

  lemma AfterNoObjects(r: Read<seq<Object>>)
    ensures AfterObjects([], r) == r
  {
    if r.Ok? { assert [] + r.value.0 == r.value.0; }
  }

  lemma AfterOneObject(done: seq<Object>, v: Object, r: Read<seq<Object>>)
    ensures AfterObjects(done, AfterObjects([v], r)) == AfterObjects(done + [v], r)
  {
    if r.Ok? { assert done + ([v] + r.value.0) == done + [v] + r.value.0; }
  }

  lemma {:induction false} AllObjects(done: seq<Object>, s: seq<Byte>, lossy: Lossy)
    ensures AfterObjects(done, ReadObjects(s, 0, lossy)) == Ok((done, s))
  {
    assert done + [] == done;
  }

  lemma ObjectsStep(done: seq<Object>, s: seq<Byte>, left: nat, lossy: Lossy)
    requires left > 0
    ensures AfterObjects(done, ReadObjects(s, left, lossy)) ==
      match ReadObject(s, lossy)
      case Err(e) => Err(e)
      case Ok((o, u)) => AfterObjects(done + [o], ReadObjects(u, left - 1, lossy))
  {
    if ReadObject(s, lossy).Ok? {
      var (o, u) := ReadObject(s, lossy).value;
      AfterOneObject(done, o, ReadObjects(u, left - 1, lossy));
    }
  }

  // ----- the writer --------------------------------------------------------------------------

  class Writer {
    var out: seq<Byte>

    constructor ()
      ensures out == []
    {
      out := [];
    }

    method Put(bytes: seq<Byte>)
      modifies this
      ensures out == old(out) + bytes
    {
      out := out + bytes;
    }

    method PutNumber(v0: Word)
      modifies this
      ensures out == old(out) + Uvarint(v0)
    {
      var v: nat := v0;
      ghost var start := out;
      assert start + Uvarint(v0) == out + Uvarint(v);
      while v >= 128
        invariant start + Uvarint(v0) == out + Uvarint(v)
        decreases v
      {
        Assoc(out, [v % 128 + 128], Uvarint(v / 128));
        Put([v % 128 + 128]);
        v := v / 128;
      }
      Put([v]);
    }

    method PutValue(v: Value)
      modifies this
      ensures out == old(out) + WriteValue(v)
    {
      ghost var start := out;
      match v {
        case Tagged(n) =>
          Put([V_TAGGED]);
          PutNumber(Zigzag(n));
          Assoc(start, [V_TAGGED], Uvarint(Zigzag(n)));
        case Ref(id) =>
          Put([V_REF]);
          PutNumber(id);
          Assoc(start, [V_REF], Uvarint(id));
      }
    }

    method PutValues(vs: seq<Value>)
      requires |vs| < MODULUS
      modifies this
      ensures out == old(out) + WriteValues(vs)
    {
      ghost var start := out;
      PutNumber(|vs|);
      ghost var listed := out;
      var i := 0;
      assert vs[0..] == vs;
      while i < |vs|
        invariant 0 <= i <= |vs|
        invariant listed + WriteEach(vs) == out + WriteEach(vs[i..])
      {
        assert vs[i..][0] == vs[i] && vs[i..][1..] == vs[i + 1..];
        Assoc(out, WriteValue(vs[i]), WriteEach(vs[i + 1..]));
        PutValue(vs[i]);
        i := i + 1;
      }
      assert out + [] == out;
      Assoc(start, Uvarint(|vs|), WriteEach(vs));
    }

    method PutBytes(b: seq<Byte>)
      requires |b| < MODULUS
      modifies this
      ensures out == old(out) + WriteBytes(b)
    {
      ghost var start := out;
      PutNumber(|b|);
      Put(b);
      Assoc(start, Uvarint(|b|), b);
    }

    method PutRelocs(rs: seq<CodeReloc>)
      requires |rs| < MODULUS
      modifies this
      ensures out == old(out) + (Uvarint(|rs|) + WriteRelocs(rs))
    {
      ghost var start := out;
      PutNumber(|rs|);
      ghost var listed := out;
      var i := 0;
      assert rs[0..] == rs;
      while i < |rs|
        invariant 0 <= i <= |rs|
        invariant listed + WriteRelocs(rs) == out + WriteRelocs(rs[i..])
      {
        assert rs[i..][0] == rs[i] && rs[i..][1..] == rs[i + 1..];
        Assoc(out, WriteReloc(rs[i]), WriteRelocs(rs[i + 1..]));
        PutReloc(rs[i]);
        i := i + 1;
      }
      assert out + [] == out;
      Assoc(start, Uvarint(|rs|), WriteRelocs(rs));
    }

    method PutReloc(r: CodeReloc)
      modifies this
      ensures out == old(out) + WriteReloc(r)
    {
      ghost var start := out;
      PutNumber(r.offset);
      Put([r.kind]);
      PutNumber(r.target);
      Assoc(start + Uvarint(r.offset), [r.kind], Uvarint(r.target));
      Assoc(start, Uvarint(r.offset), [r.kind] + Uvarint(r.target));
    }

    /** `write_body`. */
    method PutBody(b: ObjectBody)
      requires Typed(b)
      modifies this
      ensures out == old(out) + WriteBody(b)
    {
      ghost var start := out;
      match b {
        case Ordinary(vs) =>
          Put([T_ORDINARY]);
          PutValues(vs);
          Assoc(start, [T_ORDINARY], WriteValues(vs));
        case Closure(code, vs) =>
          Put([T_CLOSURE]);
          PutNumber(code);
          PutValues(vs);
          Assoc(start + [T_CLOSURE], Uvarint(code), WriteValues(vs));
          Assoc(start, [T_CLOSURE], Uvarint(code) + WriteValues(vs));
        case LegacyClosure(vs) =>
          Put([T_LEGACY_CLOSURE]);
          PutValues(vs);
          Assoc(start, [T_LEGACY_CLOSURE], WriteValues(vs));
        case String(bytes) =>
          Put([T_STRING]);
          PutBytes(bytes);
          Assoc(start, [T_STRING], WriteBytes(bytes));
        case Bytes(bytes) =>
          Put([T_BYTES]);
          PutBytes(bytes);
          Assoc(start, [T_BYTES], WriteBytes(bytes));
        case Code(code, vs, relocs) =>
          Put([T_CODE]);
          PutCode(code, vs, relocs);
          Assoc(start, [T_CODE], WriteBytes(code) + (WriteValues(vs) + (Uvarint(|relocs|) + WriteRelocs(relocs))));
        case EntryPoint(name) =>
          Put([T_ENTRY_POINT]);
          PutBytes(name);
          Assoc(start, [T_ENTRY_POINT], WriteBytes(name));
        case WeakRef => Put([T_WEAK_REF]);
      }
    }

    method PutCode(code: seq<Byte>, vs: seq<Value>, relocs: seq<CodeReloc>)
      requires |code| < MODULUS && |vs| < MODULUS && |relocs| < MODULUS
      modifies this
      ensures out == old(out) + (WriteBytes(code) + (WriteValues(vs) + (Uvarint(|relocs|) + WriteRelocs(relocs))))
    {
      ghost var start := out;
      PutBytes(code);
      PutValues(vs);
      PutRelocs(relocs);
      ghost var c := Uvarint(|relocs|) + WriteRelocs(relocs);
      Assoc(start + WriteBytes(code), WriteValues(vs), c);
      Assoc(start, WriteBytes(code), WriteValues(vs) + c);
    }

    /** `write_bic`. */
    method PutImage(img: Image)
      requires TypedImage(img)
      modifies this
      ensures out == old(out) + WriteBic(img)
    {
      ghost var start := out;
      PutHeader(HeaderOf(img));
      ghost var listed := out;
      var i := 0;
      assert img.objects[0..] == img.objects;
      while i < |img.objects|
        invariant 0 <= i <= |img.objects|
        invariant listed + WriteObjects(img.objects) == out + WriteObjects(img.objects[i..])
      {
        ghost var o, rest := img.objects[i], WriteObjects(img.objects[i + 1..]);
        assert img.objects[i..][0] == o && img.objects[i..][1..] == img.objects[i + 1..];
        Assoc(out, [o.flags], WriteBody(o.body) + rest);
        Assoc(out + [o.flags], WriteBody(o.body), rest);
        Put([img.objects[i].flags]);
        PutBody(img.objects[i].body);
        i := i + 1;
      }
      assert out + [] == out;
      Assoc(start, WriteHeader(HeaderOf(img)), WriteObjects(img.objects));
    }

    method PutHeader(h: Header)
      modifies this
      ensures out == old(out) + WriteHeader(h)
    {
      ghost var start := out;
      Put(MAGIC);
      Put([ArchByte(h.arch)]);
      Put([WordSizeByte(h.wordSize)]);
      PutNumber(h.root);
      PutNumber(h.count);
      ghost var d := Uvarint(h.root) + Uvarint(h.count);
      Assoc(start + MAGIC + [ArchByte(h.arch)] + [WordSizeByte(h.wordSize)], Uvarint(h.root), Uvarint(h.count));
      Assoc(start + MAGIC + [ArchByte(h.arch)], [WordSizeByte(h.wordSize)], d);
      Assoc(start + MAGIC, [ArchByte(h.arch)], [WordSizeByte(h.wordSize)] + d);
      Assoc(start, MAGIC, [ArchByte(h.arch)] + ([WordSizeByte(h.wordSize)] + d));
    }
  }

  /** Writing an image and reading it again, as the program does it. */
  method WriteThenRead(img: Image, lossy: Lossy) returns (r: Result<Image, BicError>, atEnd: bool)
    requires TypedImage(img) && KeepsValid(lossy)
    ensures r == Ok(Carried(img)) && atEnd
    ensures r == Ok(img) <==> Portable(img)
  {
    var w := new Writer();
    w.PutImage(img);
    var reader := new Reader(w.out);
    r := reader.ReadImage(lossy);
    assert WriteBic(img) + [] == WriteBic(img) && [] + WriteBic(img) == WriteBic(img);
    ReadWritten(img, [], lossy);
    CarriedIsSame(img);
    atEnd := reader.pos == |reader.buf|;
  }
}
