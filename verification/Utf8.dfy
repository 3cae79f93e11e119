/** The model's test for valid UTF-8 against the encoding itself (section 3 of RFC 3629): the
    valid byte strings are exactly the encodings of sequences of Unicode scalar values. */
module Utf8 {
  import opened Words
  import opened Images

  /** Code points, surrogates apart. */
  type Scalar = c: int | 0 <= c < 0xD800 || 0xE000 <= c < 0x11_0000

  /** One to four bytes, the payload bits from the top down. */
  function Encode(c: Scalar): seq<Byte> {
    if c < 0x80 then [c]
    else if c < 0x800 then [0xC0 + c / 0x40, 0x80 + c % 0x40]
    else if c < 0x1_0000 then [0xE0 + c / 0x1000, 0x80 + c / 0x40 % 0x40, 0x80 + c % 0x40]
    else [0xF0 + c / 0x4_0000, 0x80 + c / 0x1000 % 0x40, 0x80 + c / 0x40 % 0x40, 0x80 + c % 0x40]
  }

  function EncodeAll(cs: seq<Scalar>): seq<Byte> {
    if cs == [] then [] else Encode(cs[0]) + EncodeAll(cs[1..])
  }

  function Off(s: seq<Byte>, i: nat, base: int): int
    requires i < |s|
  {
    s[i] as int - base
  }

  /** The code point at the front of valid text. */
  function Decode(s: seq<Byte>): int
    requires Utf8Head(s) > 0
  {
    var n := Utf8Head(s);
    if n == 1 then s[0]
    else if n == 2 then Off(s, 0, 0xC0) * 0x40 + Off(s, 1, 0x80)
    else if n == 3 then Off(s, 0, 0xE0) * 0x1000 + Off(s, 1, 0x80) * 0x40 + Off(s, 2, 0x80)
    else Off(s, 0, 0xF0) * 0x4_0000 + Off(s, 1, 0x80) * 0x1000 + Off(s, 2, 0x80) * 0x40 + Off(s, 3, 0x80)
  }

  lemma EncodeHead(c: Scalar, t: seq<Byte>)
    ensures Utf8Head(Encode(c) + t) == |Encode(c)| && (Encode(c) + t)[|Encode(c)|..] == t
  {
    var s := Encode(c) + t;
    assert forall i :: 0 <= i < |Encode(c)| ==> s[i] == Encode(c)[i];
    LeadByte(c);
  }

  /** What the first bytes of a long encoding are. */
  lemma LeadByte(c: Scalar)
    ensures 0x80 <= c < 0x800 ==> 0xC2 <= Encode(c)[0] <= 0xDF
    ensures 0x800 <= c < 0x1_0000 ==> ThreeBytes(Encode(c)[0], Encode(c)[1])
    ensures 0x1_0000 <= c ==> FourBytes(Encode(c)[0], Encode(c)[1])
  {
  }

  lemma Digits(a: int, b: int)
    requires 0 <= b < 0x40
    ensures (a * 0x40 + b) / 0x40 == a && (a * 0x40 + b) % 0x40 == b
  {
  }

  lemma HeadEncodes(s: seq<Byte>)
    requires Utf8Head(s) > 0
    ensures (0 <= Decode(s) < 0xD800 || 0xE000 <= Decode(s) < 0x11_0000) && Encode(Decode(s)) == s[..Utf8Head(s)]
  {
    var n := Utf8Head(s);
    if n == 2 {
      Digits(Off(s, 0, 0xC0), Off(s, 1, 0x80));
    } else if n == 3 {
      var hi := Off(s, 0, 0xE0) * 0x40 + Off(s, 1, 0x80);
      Digits(Off(s, 0, 0xE0), Off(s, 1, 0x80));
      Digits(hi, Off(s, 2, 0x80));
    } else if n == 4 {
      FourEncode(s);
    }
  }

  lemma FourEncode(s: seq<Byte>)
    requires Utf8Head(s) == 4
    ensures 0x1_0000 <= Decode(s) < 0x11_0000 && Encode(Decode(s)) == s[..4]
  {
    var mid := Off(s, 0, 0xF0) * 0x40 + Off(s, 1, 0x80);
    var hi := mid * 0x40 + Off(s, 2, 0x80);
    Digits(Off(s, 0, 0xF0), Off(s, 1, 0x80));
    Digits(mid, Off(s, 2, 0x80));
    Digits(hi, Off(s, 3, 0x80));
    assert Decode(s) == hi * 0x40 + Off(s, 3, 0x80);
  }

  lemma {:induction false} EncodedIsValid(cs: seq<Scalar>)
    ensures ValidUtf8(EncodeAll(cs))
  {
    if cs != [] {
      EncodeHead(cs[0], EncodeAll(cs[1..]));
      EncodedIsValid(cs[1..]);
    }
  }

  lemma {:induction false} ValidIsEncoded(s: seq<Byte>) returns (cs: seq<Scalar>)
    requires ValidUtf8(s)
    ensures EncodeAll(cs) == s
    decreases |s|
  {
    if s == [] {
      cs := [];
    } else {
      var n := Utf8Head(s);
      HeadEncodes(s);
      var rest := ValidIsEncoded(s[n..]);
      cs := [Decode(s)] + rest;
      OneMore(Decode(s), rest, s[..n], s[n..]);
      assert s[..n] + s[n..] == s;
    }
  }

  lemma {:induction false} OneMore(c: Scalar, cs: seq<Scalar>, head: seq<Byte>, tail: seq<Byte>)
    requires Encode(c) == head && EncodeAll(cs) == tail
    ensures EncodeAll([c] + cs) == head + tail
  {
    assert ([c] + cs)[1..] == cs;
  }

  /** Text is valid if and only if it encodes code points. */
  lemma {:induction false} ValidExactly(s: seq<Byte>)
    ensures ValidUtf8(s) <==> exists cs: seq<Scalar> :: EncodeAll(cs) == s
  {
    if ValidUtf8(s) {
      var cs := ValidIsEncoded(s);
    }
    if cs: seq<Scalar> :| EncodeAll(cs) == s {
      EncodedIsValid(cs);
    }
  }
}
