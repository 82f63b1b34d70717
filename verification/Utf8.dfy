/**
 UTF-8 as RFC 3629 defines it: section 3 for the encoding, section 4 for the well-formed byte
 sequences.
 */
module Utf8 {
  import opened Bytes
  import opened OptionType

  type Scalar = c: int | 0 <= c < 0xD800 || 0xE000 <= c <= 0x10FFFF

  predicate IsScalar(c: int) {
    0 <= c < 0xD800 || 0xE000 <= c <= 0x10FFFF
  }

  /** Section 3. */
  function Encode(c: Scalar): (s: Text)
    ensures 1 <= |s| <= 4
  {
    if c < 0x80 then [c]
    else if c < 0x800 then [0xC0 + c / 0x40, 0x80 + c % 0x40]
    else if c < 0x10000 then [0xE0 + c / 0x1000, 0x80 + c / 0x40 % 0x40, 0x80 + c % 0x40]
    else [0xF0 + c / 0x40000, 0x80 + c / 0x1000 % 0x40, 0x80 + c / 0x40 % 0x40, 0x80 + c % 0x40]
  }

  predicate Tail(b: Byte) {
    0x80 <= b <= 0xBF
  }

  /** Section 4: the length of the well-formed sequence that `s` begins with, or 0. */
  function SequenceLength(s: Text): (n: nat)
    ensures n <= |s|
  {
    if |s| >= 1 && s[0] <= 0x7F then 1
    else if |s| >= 2 && 0xC2 <= s[0] <= 0xDF && Tail(s[1]) then 2
    else if |s| >= 3 && Tail(s[1]) && Tail(s[2])
            && (|| (s[0] == 0xE0 && 0xA0 <= s[1])
                || 0xE1 <= s[0] <= 0xEC
                || (s[0] == 0xED && s[1] <= 0x9F)
                || 0xEE <= s[0] <= 0xEF) then 3
    else if |s| >= 4 && Tail(s[1]) && Tail(s[2]) && Tail(s[3])
            && (|| (s[0] == 0xF0 && 0x90 <= s[1])
                || 0xF1 <= s[0] <= 0xF3
                || (s[0] == 0xF4 && s[1] <= 0x8F)) then 4
    else 0
  }

  /** The scalar value of the well-formed sequence that `s` begins with. */
  function Value(s: Text): (c: Scalar)
    requires SequenceLength(s) > 0
    ensures |Encode(c)| == SequenceLength(s)
  {
    var n := SequenceLength(s);
    if n == 1 then s[0]
    else if n == 2 then Pair(s[0] - 0xC0, s[1])
    else if n == 3 then Triple(s[0] - 0xE0, s[1], s[2])
    else Quad(s[0] - 0xF0, s[1], s[2], s[3])
  }

  function Pair(a: int, b: int): int {
    a * 0x40 + (b - 0x80)
  }

  function Triple(a: int, b: int, c: int): int {
    a * 0x1000 + (b - 0x80) * 0x40 + (c - 0x80)
  }

  function Quad(a: int, b: int, c: int, d: int): int {
    a * 0x40000 + (b - 0x80) * 0x1000 + (c - 0x80) * 0x40 + (d - 0x80)
  }

  /** mbstowcs(): the scalar values of a well-formed text; None for any other text. */
  function Decode(s: Text): Option<seq<Scalar>> {
    if s == [] then Some([])
    else
      var n := SequenceLength(s);
      if n == 0 then None
      else
        match Decode(s[n..])
        case None => None
        case Some(cs) => Some([Value(s)] + cs)
  }

  function EncodeAll(cs: seq<Scalar>): Text {
    if cs == [] then [] else Encode(cs[0]) + EncodeAll(cs[1..])
  }

  // ---- Encoding and decoding are inverse ----

  lemma EncodeIsWellFormed(c: Scalar, rest: Text)
    ensures SequenceLength(Encode(c) + rest) == |Encode(c)|
    ensures Value(Encode(c) + rest) == c
  {
    var s := Encode(c) + rest;
    assert forall i :: 0 <= i < |Encode(c)| ==> s[i] == Encode(c)[i];
    if c < 0x80 {
    } else if c < 0x800 {
    } else if c < 0x10000 {
      Digits3(c);
    } else {
      Digits4(c);
    }
  }

  lemma Digits2(c: nat)
    ensures c == c / 0x40 * 0x40 + c % 0x40
    ensures c / 0x1000 == c / 0x40 / 0x40
  {}

  lemma Digits3(c: nat)
    ensures c == c / 0x1000 * 0x1000 + c / 0x40 % 0x40 * 0x40 + c % 0x40
  {
    Digits2(c);
    Digits2(c / 0x40);
  }

  lemma Digits4(c: nat)
    ensures c == c / 0x40000 * 0x40000 + c / 0x1000 % 0x40 * 0x1000 + c / 0x40 % 0x40 * 0x40 + c % 0x40
  {
    var high := c / 0x40;
    Digits3(high);
    assert c == high * 0x40 + c % 0x40;
    assert c / 0x1000 == high / 0x40 && c / 0x40000 == high / 0x1000;
  }

  lemma ReadDigits(high: nat, low: nat)
    requires low < 0x40
    ensures (high * 0x40 + low) / 0x40 == high && (high * 0x40 + low) % 0x40 == low
  {}

  lemma ReadPair(a: nat, b: int)
    requires 0x80 <= b <= 0xBF
    ensures var v := Pair(a, b);
            v / 0x40 == a && 0x80 + v % 0x40 == b
  {
    ReadDigits(a, b - 0x80);
  }

  lemma ReadTriple(a: nat, b: int, c: int)
    requires 0x80 <= b <= 0xBF && 0x80 <= c <= 0xBF
    ensures var v := Triple(a, b, c);
            v / 0x1000 == a && 0x80 + v / 0x40 % 0x40 == b && 0x80 + v % 0x40 == c
  {
    ReadPair(a, b);
    ReadDigits(Pair(a, b), c - 0x80);
    assert Triple(a, b, c) == Pair(a, b) * 0x40 + (c - 0x80);
    assert Triple(a, b, c) / 0x1000 == Triple(a, b, c) / 0x40 / 0x40;
  }

  lemma ReadQuad(a: nat, b: int, c: int, d: int)
    requires 0x80 <= b <= 0xBF && 0x80 <= c <= 0xBF && 0x80 <= d <= 0xBF
    ensures var v := Quad(a, b, c, d);
            && v / 0x40000 == a && 0x80 + v / 0x1000 % 0x40 == b
            && 0x80 + v / 0x40 % 0x40 == c && 0x80 + v % 0x40 == d
  {
    ReadTriple(a, b, c);
    ReadDigits(Triple(a, b, c), d - 0x80);
    var v := Quad(a, b, c, d);
    assert v == Triple(a, b, c) * 0x40 + (d - 0x80);
    assert v / 0x1000 == v / 0x40 / 0x40 && v / 0x40000 == v / 0x40 / 0x1000;
  }

  lemma PairIsEncoded(s: Text)
    requires SequenceLength(s) == 2
    ensures Encode(Value(s)) == s[..2]
  {
    ReadPair(s[0] - 0xC0, s[1]);
  }

  lemma TripleIsEncoded(s: Text)
    requires SequenceLength(s) == 3
    ensures Encode(Value(s)) == s[..3]
  {
    ReadTriple(s[0] - 0xE0, s[1], s[2]);
  }

  lemma QuadIsLarge(s: Text)
    requires SequenceLength(s) == 4
    ensures |s| >= 4 && 0xF0 <= s[0] && Tail(s[1]) && Tail(s[2]) && Tail(s[3])
    ensures Value(s) == Quad(s[0] - 0xF0, s[1], s[2], s[3]) >= 0x10000
  {}

  lemma QuadIsEncoded(s: Text)
    requires SequenceLength(s) == 4
    ensures Encode(Value(s)) == s[..4]
  {
    hide SequenceLength, Value, Quad;
    QuadIsLarge(s);
    ReadQuad(s[0] - 0xF0, s[1], s[2], s[3]);
  }

  lemma ByteIsEncoded(s: Text)
    requires SequenceLength(s) == 1
    ensures Encode(Value(s)) == s[..1]
  {}

  lemma LengthIsUpToFour(s: Text)
    ensures SequenceLength(s) <= 4
  {}

  lemma ValueIsEncoded(s: Text)
    requires SequenceLength(s) > 0
    ensures Encode(Value(s)) == s[..SequenceLength(s)]
  {
    hide Encode, Value, SequenceLength;
    LengthIsUpToFour(s);
    match SequenceLength(s) {
      case 1 => ByteIsEncoded(s);
      case 2 => PairIsEncoded(s);
      case 3 => TripleIsEncoded(s);
      case _ => QuadIsEncoded(s);
    }
  }

  lemma {:induction false} DecodeEncoded(cs: seq<Scalar>)
    ensures Decode(EncodeAll(cs)) == Some(cs)
  {
    if cs != [] {
      hide Encode, SequenceLength, Value;
      var first, rest := Encode(cs[0]), EncodeAll(cs[1..]);
      EncodeIsWellFormed(cs[0], rest);
      assert (first + rest)[|first|..] == rest;
      DecodeEncoded(cs[1..]);
      assert [cs[0]] + cs[1..] == cs;
    }
  }

  lemma DecodeFirst(s: Text)
    requires s != [] && Decode(s).Some?
    ensures var n := SequenceLength(s);
            n > 0 && Decode(s[n..]).Some? && Decode(s).value == [Value(s)] + Decode(s[n..]).value
  {}

  lemma {:induction false} EncodeDecoded(s: Text)
    requires Decode(s).Some?
    ensures EncodeAll(Decode(s).value) == s
  {
    hide *;
    if s == [] {
      NothingDecoded();
    } else {
      DecodeFirst(s);
      ValueIsEncoded(s);
      var n := SequenceLength(s);
      EncodeDecoded(s[n..]);
      EncodeCons(Value(s), Decode(s[n..]).value);
      SplitAt(s, n);
    }
  }

  lemma NothingDecoded()
    ensures Decode([]) == Some([]) && EncodeAll([]) == []
  {}

  lemma SplitAt(s: Text, n: nat)
    requires n <= |s|
    ensures s[..n] + s[n..] == s
  {}

  lemma EncodeCons(c: Scalar, cs: seq<Scalar>)
    ensures EncodeAll([c] + cs) == Encode(c) + EncodeAll(cs)
  {
    assert ([c] + cs)[1..] == cs;
  }

  lemma {:induction false} EncodeConcat(a: seq<Scalar>, b: seq<Scalar>)
    ensures EncodeAll(a + b) == EncodeAll(a) + EncodeAll(b)
  {
    if a == [] {
      assert a + b == b;
    } else {
      assert (a + b)[0] == a[0] && (a + b)[1..] == a[1..] + b;
      EncodeConcat(a[1..], b);
    }
  }

  /** Well-formed texts can be decoded one after the other. */
  lemma DecodeConcat(a: Text, b: Text)
    requires Decode(a).Some? && Decode(b).Some?
    ensures Decode(a + b) == Some(Decode(a).value + Decode(b).value)
  {
    EncodeDecoded(a);
    EncodeDecoded(b);
    EncodeConcat(Decode(a).value, Decode(b).value);
    DecodeEncoded(Decode(a).value + Decode(b).value);
  }

  /** The bytes of anything but ASCII have the high bit set. */
  lemma NonAsciiBytes(c: Scalar)
    ensures c >= 0x80 ==> forall i :: 0 <= i < |Encode(c)| ==> Encode(c)[i] >= 0x80
    ensures c < 0x80 ==> Encode(c) == [c]
  {}

  // ---- The encoding written out ----

  /** The table of section 3: the ranges of the characters, the bits of the bytes. */
  lemma EncodingIsRfc3629(c: Scalar)
    ensures c < 0x80 ==> Encode(c) == [c]
    ensures var s: seq<int> := Encode(c);
            0x80 <= c < 0x800 ==> |s| == 2 && 0xC2 <= s[0] <= 0xDF && c == (s[0] - 0xC0) * 0x40 + (s[1] - 0x80)
    ensures var s: seq<int> := Encode(c);
            0x800 <= c < 0x10000 ==> |s| == 3 && 0xE0 <= s[0] <= 0xEF && c == (s[0] - 0xE0) * 0x1000 + (s[1] - 0x80) * 0x40 + (s[2] - 0x80)
    ensures var s: seq<int> := Encode(c);
            0x10000 <= c ==> |s| == 4 && 0xF0 <= s[0] <= 0xF4 && c == (s[0] - 0xF0) * 0x40000 + (s[1] - 0x80) * 0x1000 + (s[2] - 0x80) * 0x40 + (s[3] - 0x80)
    ensures forall i :: 0 < i < |Encode(c)| ==> 0x80 <= Encode(c)[i] <= 0xBF
  {
    if 0x800 <= c < 0x10000 {
      Digits3(c);
    } else if 0x10000 <= c {
      Digits4(c);
    } else {
      Digits2(c);
    }
  }

  /** Exactly the encodings of scalar values are decoded. */
  lemma DecodedIff(s: Text)
    ensures Decode(s).Some? <==> exists cs: seq<Scalar> :: s == EncodeAll(cs)
  {
    hide Decode, EncodeAll;
    if Decode(s).Some? {
      EncodeDecoded(s);
    }
    forall cs: seq<Scalar> | s == EncodeAll(cs)
      ensures Decode(s).Some?
    {
      DecodeEncoded(cs);
    }
  }
}
