/**
 Print-UTF8's removal of ANSI colouring sequences: from an escape byte up to and including the next
 ASCII letter.  The filter works on bytes, before decoding.
 */
module AnsiFilter {
  import opened Bytes
  import opened OptionType
  import opened Utf8

  const ESC: int := 27

  predicate IsAlpha(b: int) {
    'A' as int <= b <= 'Z' as int || 'a' as int <= b <= 'z' as int
  }

  /** inANSISequence after a byte or, with `b` a scalar value, after a character. */
  predicate Inside(inside: bool, b: int) {
    if inside then !IsAlpha(b) else b == ESC
  }

  /** inANSISequence after a text. */
  predicate InsideAfter(inside: bool, s: seq<int>)
    decreases |s|
  {
    if s == [] then inside else InsideAfter(Inside(inside, s[0]), s[1..])
  }

  function Keep(inside: bool, b: Byte): Text {
    if inside || b == ESC then [] else [b]
  }

  /** The bytes that remain of a text. */
  function Filter(inside: bool, s: Text): Text
    decreases |s|
  {
    if s == [] then [] else Keep(inside, s[0]) + Filter(Inside(inside, s[0]), s[1..])
  }

  /** The characters that remain of a decoded text: the same, with scalar values for bytes. */
  function FilterScalars(inside: bool, cs: seq<Scalar>): seq<Scalar>
    decreases |cs|
  {
    if cs == [] then []
    else (if inside || cs[0] == ESC then [] else [cs[0]]) + FilterScalars(Inside(inside, cs[0]), cs[1..])
  }

  /** The loop of convertToWideStringWithoutANSI(). */
  method RemoveAnsi(s: Text, removeAnsiSequences: bool) returns (buffer: array<Byte>, length: nat)
    ensures fresh(buffer) && buffer.Length == |s| + 1 && length <= |s|
    ensures buffer[..length] == if removeAnsiSequences then Filter(false, s) else s
    ensures buffer[length] == NUL
  {
    buffer := new Byte[|s| + 1];
    var inAnsiSequence, j: nat := false, 0;
    for i := 0 to |s|
      invariant j <= i
      invariant inAnsiSequence == (removeAnsiSequences && InsideAfter(false, s[..i]))
      invariant buffer[..j] == if removeAnsiSequences then Filter(false, s[..i]) else s[..i]
    {
      FilterSnoc(s, i);
      if !inAnsiSequence {
        if s[i] == ESC && removeAnsiSequences {
          inAnsiSequence := true;
        } else {
          buffer[j] := s[i];
          j := j + 1;
          assert buffer[..j] == buffer[..j - 1] + [s[i]];
        }
      } else {
        if IsAlpha(s[i]) {
          inAnsiSequence := false;
        }
      }
    }
    assert s[..|s|] == s;
    buffer[j] := NUL;
    length := j;
  }

  lemma FilterSnoc(s: Text, i: nat)
    requires i < |s|
    ensures var inside := InsideAfter(false, s[..i]);
            && s[..i + 1] == s[..i] + [s[i]]
            && InsideAfter(false, s[..i + 1]) == Inside(inside, s[i])
            && Filter(false, s[..i + 1]) == Filter(false, s[..i]) + Keep(inside, s[i])
  {
    var inside := InsideAfter(false, s[..i]);
    FilterConcat(false, s[..i], [s[i]]);
    assert s[..i + 1] == s[..i] + [s[i]];
    assert InsideAfter(inside, [s[i]]) == Inside(inside, s[i]);
    assert Filter(inside, [s[i]]) == Keep(inside, s[i]) + Filter(Inside(inside, s[i]), []);
  }

  // ---- Properties of the filter ----

  lemma FilterFirst(inside: bool, s: Text)
    requires s != []
    ensures InsideAfter(inside, s) == InsideAfter(Inside(inside, s[0]), s[1..])
    ensures Filter(inside, s) == Keep(inside, s[0]) + Filter(Inside(inside, s[0]), s[1..])
  {}

  lemma {:induction false} FilterConcat(inside: bool, a: Text, b: Text)
    ensures InsideAfter(inside, a + b) == InsideAfter(InsideAfter(inside, a), b)
    ensures Filter(inside, a + b) == Filter(inside, a) + Filter(InsideAfter(inside, a), b)
    decreases |a|
  {
    if a == [] {
      assert a + b == b;
    } else {
      hide Filter, InsideAfter, Inside, Keep;
      assert (a + b)[0] == a[0] && (a + b)[1..] == a[1..] + b;
      FilterFirst(inside, a);
      FilterFirst(inside, a + b);
      FilterConcat(Inside(inside, a[0]), a[1..], b);
    }
  }

  /** Parts that end outside a sequence are filtered one by one. */
  lemma FilterParts(a: Text, b: Text)
    requires !InsideAfter(false, a)
    ensures Filter(false, a + b) == Filter(false, a) + Filter(false, b)
  {
    FilterConcat(false, a, b);
  }

  lemma {:induction false} FilterLeavesNoEsc(inside: bool, s: Text)
    ensures ESC !in Filter(inside, s)
    decreases |s|
  {
    if s != [] {
      FilterLeavesNoEsc(Inside(inside, s[0]), s[1..]);
    }
  }

  lemma {:induction false} FilterWithoutEsc(s: Text)
    requires ESC !in s
    ensures Filter(false, s) == s && !InsideAfter(false, s)
  {
    if s != [] {
      FilterWithoutEsc(s[1..]);
    }
  }

  /** Filtering twice is filtering once. */
  lemma FilterTwice(s: Text)
    ensures Filter(false, Filter(false, s)) == Filter(false, s)
  {
    FilterLeavesNoEsc(false, s);
    FilterWithoutEsc(Filter(false, s));
  }

  /** The filter treats the bytes of a character alike: none of them is an escape or a letter unless it is one byte. */
  lemma {:induction false} FilterHighBytes(inside: bool, s: Text)
    requires forall i :: 0 <= i < |s| ==> s[i] >= 0x80
    ensures Filter(inside, s) == (if inside then [] else s) && InsideAfter(inside, s) == inside
    decreases |s|
  {
    if s != [] {
      FilterHighBytes(inside, s[1..]);
    }
  }

  lemma FilterCharacter(inside: bool, c: Scalar)
    ensures Filter(inside, Encode(c)) == if inside || c == ESC then [] else Encode(c)
    ensures InsideAfter(inside, Encode(c)) == Inside(inside, c)
  {
    NonAsciiBytes(c);
    if c >= 0x80 {
      FilterHighBytes(inside, Encode(c));
    } else {
      assert Filter(inside, [c]) == Keep(inside, c) + Filter(Inside(inside, c), []);
      assert InsideAfter(inside, [c]) == Inside(inside, c);
    }
  }

  lemma {:induction false} FilterEncoded(inside: bool, cs: seq<Scalar>)
    ensures Filter(inside, EncodeAll(cs)) == EncodeAll(FilterScalars(inside, cs))
    decreases |cs|
  {
    if cs != [] {
      hide Encode, Inside;
      FilterCharacter(inside, cs[0]);
      FilterConcat(inside, Encode(cs[0]), EncodeAll(cs[1..]));
      var next := Inside(inside, cs[0]);
      FilterEncoded(next, cs[1..]);
      EncodeConcat(if inside || cs[0] == ESC then [] else [cs[0]], FilterScalars(next, cs[1..]));
      assert EncodeAll([cs[0]]) == Encode(cs[0]) + [];
    }
  }

  /** Filtering the bytes of a well-formed text keeps it well-formed and filters its characters. */
  lemma FilterCommutesWithDecoding(s: Text)
    requires Decode(s).Some?
    ensures Decode(Filter(false, s)) == Some(FilterScalars(false, Decode(s).value))
  {
    var cs := Decode(s).value;
    EncodeDecoded(s);
    FilterEncoded(false, cs);
    DecodeEncoded(FilterScalars(false, cs));
  }

  // ---- Where a sequence ends ----

  /** The bytes that do not end a sequence: all but the ASCII letters. */
  lemma {:induction false} SequenceGoesOn(body: Text)
    requires forall i :: 0 <= i < |body| ==> !(65 <= body[i] <= 90) && !(97 <= body[i] <= 122)
    ensures Filter(true, body) == [] && InsideAfter(true, body)
    decreases |body|
  {
    if body != [] {
      SequenceGoesOn(body[1..]);
    }
  }

  lemma SequenceEnds(body: Text, letter: Byte, behind: Text)
    requires forall i :: 0 <= i < |body| ==> !(65 <= body[i] <= 90) && !(97 <= body[i] <= 122)
    requires 65 <= letter <= 90 || 97 <= letter <= 122
    ensures Filter(true, body + ([letter] + behind)) == Filter(false, behind)
    ensures InsideAfter(true, body + ([letter] + behind)) == InsideAfter(false, behind)
  {
    hide Filter, InsideAfter;
    SequenceGoesOn(body);
    FilterConcat(true, body, [letter] + behind);
    FilterFirst(true, [letter] + behind);
    assert ([letter] + behind)[1..] == behind;
  }

  lemma EscapeBegins(front: Text, rest: Text)
    requires 27 !in front
    ensures Filter(false, front + ([27] + rest)) == front + Filter(true, rest)
    ensures InsideAfter(false, front + ([27] + rest)) == InsideAfter(true, rest)
  {
    hide Filter, InsideAfter;
    FilterWithoutEsc(front);
    FilterConcat(false, front, [27] + rest);
    FilterFirst(false, [27] + rest);
    assert ([27] + rest)[1..] == rest;
  }

  /**
   From an escape byte up to and including the next ASCII letter, A to Z or a to z, nothing is left;
   the text in front of it and what follows is filtered as if it were not there.
   */
  lemma SequenceIsRemoved(front: Text, body: Text, letter: Byte, behind: Text)
    requires 27 !in front
    requires forall i :: 0 <= i < |body| ==> !(65 <= body[i] <= 90) && !(97 <= body[i] <= 122)
    requires 65 <= letter <= 90 || 97 <= letter <= 122
    ensures Filter(false, front + ([27] + body + [letter] + behind)) == front + Filter(false, behind)
    ensures InsideAfter(false, front + ([27] + body + [letter] + behind)) == InsideAfter(false, behind)
  {
    hide Filter, InsideAfter;
    assert [27] + body + [letter] + behind == [27] + (body + ([letter] + behind));
    SequenceEnds(body, letter, behind);
    EscapeBegins(front, body + ([letter] + behind));
  }

  /** A sequence that no letter ends removes the rest of the text. */
  lemma SequenceToTheEnd(front: Text, body: Text)
    requires 27 !in front
    requires forall i :: 0 <= i < |body| ==> !(65 <= body[i] <= 90) && !(97 <= body[i] <= 122)
    ensures Filter(false, front + ([27] + body)) == front && InsideAfter(false, front + ([27] + body))
  {
    hide Filter, InsideAfter;
    EscapeBegins(front, body);
    SequenceGoesOn(body);
  }
}
