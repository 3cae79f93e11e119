/** Both image formats on samples of every kind of object, byte by byte: the letters, tags and
    separators that a writer and a reader could agree to change together. */
module Formats {
  import opened Basics
  import opened Words
  import opened Images
  import P = Pexport
  import X = PexportImage
  import B = Bic

  /** The bytes of a text in ASCII. */
  function Ascii(s: string): seq<Byte>
    requires forall i :: 0 <= i < |s| ==> s[i] < 128 as char
  {
    seq(|s|, i requires 0 <= i < |s| => s[i] as int)
  }

  // ----- the text format ----------------------------------------------------------------------------

  lemma Decimals()
    ensures P.Dec(0) == Ascii("0") && P.Dec(1) == Ascii("1") && P.Dec(2) == Ascii("2") && P.Dec(3) == Ascii("3")
    ensures P.Dec(4) == Ascii("4") && P.Dec(5) == Ascii("5") && P.Dec(7) == Ascii("7") && P.Dec(8) == Ascii("8")
    ensures P.Dec(9) == Ascii("9") && P.Dec(10) == Ascii("10") && P.Dec(42) == Ascii("42")
  {
    assert P.Dec(42) == P.Dec(4) + [0x32];
    assert P.Dec(10) == P.Dec(1) + [0x30];
  }

  lemma TextHeader()
    ensures X.WriteHeader(2, 1, Interpreted, Bits64) == Ascii("Objects\t2\nRoot\t1 I 8\n")
    ensures X.WriteHeader(3, 0, X86, Bits32) == Ascii("Objects\t3\nRoot\t0 X 4\n")
    ensures X.WriteHeader(3, 0, Arm, Bits64) == Ascii("Objects\t3\nRoot\t0 A 8\n")
  {
    Decimals();
  }

  lemma TextFlags()
    ensures X.WriteFlags(X.FlagsOf(0x40)) == Ascii("M") && X.WriteFlags(X.FlagsOf(0x10)) == Ascii("N")
    ensures X.WriteFlags(X.FlagsOf(0x08)) == Ascii("V") && X.WriteFlags(X.FlagsOf(0x20)) == Ascii("W")
    ensures X.WriteFlags(X.FlagsOf(0x78)) == Ascii("MNVW") && X.WriteFlags(X.FlagsOf(0)) == []
  {
  }

  lemma TextLetters(vs: seq<Value>, b: seq<Byte>, rs: seq<CodeReloc>, id: U32)
    ensures [P.Letter(Ordinary(vs)), P.Letter(Closure(id, vs)), P.Letter(LegacyClosure(vs)), P.Letter(String(b))] == Ascii("OCLS")
    ensures [P.Letter(Bytes(b)), P.Letter(Code(b, vs, rs)), P.Letter(EntryPoint(b)), P.Letter(WeakRef)] == Ascii("BFEK")
  {
  }

  lemma TextValues()
    ensures P.WriteList([Ref(1), Tagged(42)]) == Ascii("@1,42") && P.WriteList([Tagged(9)]) == Ascii("9")
    ensures P.WriteList([Tagged(-7)]) == Ascii("-7") && P.WriteList([Ref(0)]) == Ascii("@0")
  {
    Decimals();
    assert [Ref(1), Tagged(42)][1..] == [Tagged(42)];
    assert P.WriteList([Tagged(42)]) == Ascii("42");
  }

  lemma TextWords()
    ensures P.WritePayload(Ordinary([Ref(1), Tagged(42)])) == Ascii("2|@1,42")
    ensures P.WritePayload(LegacyClosure([Tagged(-7)])) == Ascii("1|-7")
    ensures P.WritePayload(Closure(0, [Tagged(9)])) == Ascii("2|@0,9")
  {
    Decimals();
    TextValues();
  }

  lemma TextHex()
    ensures P.WriteHex([0xAB]) == Ascii("ab") && P.WriteHex([1, 0xAB]) == Ascii("01ab") && P.WriteHex([0xDE]) == Ascii("de")
  {
    assert [1, 0xAB][1..] == [0xAB];
    assert P.WriteHex([0xAB]) == [0x61, 0x62] + P.WriteHex([]);
  }

  lemma TextBytes()
    ensures P.WritePayload(Bytes([1, 0xAB])) == P.WritePayload(String([1, 0xAB])) == Ascii("2|01ab")
    ensures P.WritePayload(EntryPoint([0x50, 0x46])) == Ascii("2|PF") && P.WritePayload(WeakRef) == []
  {
    Decimals();
    TextHex();
  }

  lemma TextReloc()
    ensures P.WriteRelocs([CodeReloc(3, 1, 2)]) == Ascii("3,1,@2 ")
  {
    Decimals();
    assert P.WriteRelocs([CodeReloc(3, 1, 2)]) == P.WriteReloc(CodeReloc(3, 1, 2)) + [];
  }

  lemma TextCode()
    ensures P.WritePayload(Code([0xDE], [Ref(0)], [CodeReloc(3, 1, 2)])) == Ascii("1,1|de|@0|3,1,@2 ")
  {
    Decimals();
    TextHex();
    TextValues();
    TextReloc();
    var one, de, ref, reloc := Ascii("1"), Ascii("de"), Ascii("@0"), Ascii("3,1,@2 ");
    Concatenated(one, de, ref, reloc);
  }

  lemma {:induction false} Concatenated(one: seq<Byte>, de: seq<Byte>, ref: seq<Byte>, reloc: seq<Byte>)
    requires one == [0x31] && de == [0x64, 0x65] && ref == [0x40, 0x30] && reloc == [0x33, 0x2C, 0x31, 0x2C, 0x40, 0x32, 0x20]
    ensures one + ([0x2C] + (one + ([0x7C] + (de + ([0x7C] + (ref + ([0x7C] + reloc))))))) == Ascii("1,1|de|@0|3,1,@2 ")
  {
  }

  lemma TextLine()
    ensures X.WriteObject(10, Object(0x60, WeakRef)) == Ascii("10:MWK\n")
  {
    Decimals();
  }

  // ----- the binary format --------------------------------------------------------------------------

  lemma Numbers()
    ensures B.Uvarint(0) == [0] && B.Uvarint(1) == [1] && B.Uvarint(2) == [2] && B.Uvarint(3) == [3]
    ensures B.Uvarint(13) == [13] && B.Uvarint(84) == [84] && B.Uvarint(300) == [0xAC, 0x02]
    ensures B.Zigzag(42) == 84 && B.Zigzag(-7) == 13
  {
    B.ZigzagIs(42);
    B.ZigzagIs(-7);
    assert B.Uvarint(300) == [0xAC] + B.Uvarint(2);
  }

  lemma BinaryHeader()
    ensures B.WriteHeader(B.Header(Interpreted, Bits64, 1, 300)) == Ascii("BICIMG") + [1, 0x49, 8, 1, 0xAC, 0x02]
    ensures B.WriteHeader(B.Header(X86, Bits32, 0, 3)) == Ascii("BICIMG") + [1, 0x58, 4, 0, 3]
    ensures B.WriteHeader(B.Header(Arm, Bits64, 0, 3)) == Ascii("BICIMG") + [1, 0x41, 8, 0, 3]
  {
    Numbers();
  }

  lemma BinaryWords()
    ensures B.WriteBody(Ordinary([Ref(1), Tagged(42)])) == [0, 2, 1, 1, 0, 84]
    ensures B.WriteBody(Closure(3, [Tagged(-7)])) == [1, 3, 1, 0, 13]
    ensures B.WriteBody(LegacyClosure([Ref(2)])) == [2, 1, 1, 2]
  {
    Numbers();
    assert [Ref(1), Tagged(42)][1..] == [Tagged(42)];
    assert B.WriteEach([Tagged(42)]) == [0, 84] && B.WriteEach([Tagged(-7)]) == [0, 13] && B.WriteEach([Ref(2)]) == [1, 2];
  }

  lemma BinaryBytes()
    ensures B.WriteBody(String([0x4F])) == [3, 1, 0x4F] && B.WriteBody(Bytes([1, 0xAB])) == [4, 2, 1, 0xAB]
    ensures B.WriteBody(EntryPoint([0x50, 0x46])) == [6, 2, 0x50, 0x46] && B.WriteBody(WeakRef) == [7]
    ensures B.WriteObjects([Object(0x28, WeakRef)]) == [0x28, 7]
  {
    Numbers();
  }

  lemma BinaryCode()
    ensures B.WriteBody(Code([0xDE], [Ref(0)], [CodeReloc(3, 1, 2)])) == [5, 1, 0xDE, 1, 1, 0, 1, 3, 1, 2]
  {
    Numbers();
    assert B.WriteEach([Ref(0)]) == [1, 0];
    assert B.WriteRelocs([CodeReloc(3, 1, 2)]) == [3, 1, 2];
  }
}
