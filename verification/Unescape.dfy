/**
 Print-UTF8's decoder of backslash escapes.

 wctomb() is a parameter: a function from code points to the bytes written, empty where wctomb()
 fails.  With `Rfc3629` it is the UTF-8 encoder.  An invalid digit ends the program; the result is
 then None.
 */
module Unescape {
  import opened Bytes
  import opened OptionType
  import opened Utf8
  import Numbers

  const BACKSLASH: Byte := 92
  const MB_LEN := 6

  /** wctomb() in a UTF-8 locale. */
  function Rfc3629(codepoint: nat): Text {
    if IsScalar(codepoint) then Encode(codepoint) else []
  }

  function HexDigit(b: Byte): Option<nat> {
    if '0' as int <= b <= '9' as int then Some(b - '0' as int)
    else if 'a' as int <= b <= 'f' as int then Some(10 + b - 'a' as int)
    else if 'A' as int <= b <= 'F' as int then Some(10 + b - 'A' as int)
    else None
  }

  function OctDigit(b: Byte): Option<nat> {
    if '0' as int <= b <= '7' as int then Some(b - '0' as int) else None
  }

  /** The value of digits, the most significant one first; None if one of them is not a digit. */
  function Number(digits: Text, base: nat, digit: Byte -> Option<nat>): Option<nat> {
    if digits == [] then Some(0)
    else
      var n := |digits| - 1;
      match (Number(digits[..n], base, digit), digit(digits[n]))
      case (Some(high), Some(low)) => Some(high * base + low)
      case _ => None
  }

  function Hex(digits: Text): Option<nat> {
    Number(digits, 16, HexDigit)
  }

  /** What one round of the loop does: the bytes it writes and how many it reads. */
  datatype Step = Step(written: Text, consumed: nat) | Exit

  function NumberStep(value: Option<nat>, bytes: nat -> Text, consumed: nat): Step {
    match value
    case None => Exit
    case Some(v) => Step(bytes(v), consumed)
  }

  function SimpleEscape(b: Byte): Option<Byte> {
    if b == 'n' as int then Some(10)
    else if b == 'r' as int then Some(13)
    else if b == BACKSLASH then Some(BACKSLASH)
    else if b == 'a' as int then Some(7)
    else if b == 'b' as int then Some(8)
    else if b == 'e' as int || b == 'E' as int then Some(27)
    else if b == 'f' as int then Some(12)
    else if b == 't' as int then Some(9)
    else if b == 'v' as int then Some(11)
    else None
  }

  /** How many digits follow the escape letter. */
  function DigitCount(b: Byte): nat {
    if b == 'x' as int then 2
    else if b == '0' as int then 3
    else if b == 'u' as int then 4
    else if b == 'U' as int then 8
    else 0
  }

  function OneByte(value: nat): Text {
    [value % 256]
  }

  function EscapeStep(s: Text, wctomb: nat -> Text): (step: Step)
    requires s != []
    ensures step.Step? ==> 0 < step.consumed <= |s|
  {
    if s[0] != BACKSLASH then Step([s[0]], 1)
    else if |s| == 1 then Step([BACKSLASH], 1)
    else if SimpleEscape(s[1]).Some? then Step([SimpleEscape(s[1]).value], 2)
    else
      var n := DigitCount(s[1]);
      if n == 0 then Step([BACKSLASH, s[1]], 2)
      else if |s| < 2 + n then Step([], 2)
      else
        var digits := s[2..2 + n];
        if n == 2 then NumberStep(Hex(digits), OneByte, 4)
        else if n == 3 then NumberStep(Number(digits, 8, OctDigit), OneByte, 5)
        else NumberStep(Hex(digits), wctomb, 2 + n)
  }

  /** The unescaped text, or None if the program exits. */
  function Unescaped(s: Text, wctomb: nat -> Text): Option<Text>
    decreases |s|
  {
    if s == [] then Some([])
    else
      match EscapeStep(s, wctomb)
      case Exit => None
      case Step(written, consumed) => Prepend(written, Unescaped(s[consumed..], wctomb))
  }

  function Prepend(a: Text, r: Option<Text>): Option<Text> {
    match r
    case None => None
    case Some(b) => Some(a + b)
  }

  /** wctomb() never writes more than MB_CUR_MAX bytes. */
  ghost predicate Bounded(wctomb: nat -> Text) {
    forall codepoint :: |wctomb(codepoint)| <= MB_LEN
  }

  /** No escape is longer when decoded. */
  lemma StepShrinks(s: Text, wctomb: nat -> Text)
    requires s != [] && Bounded(wctomb)
    ensures var step := EscapeStep(s, wctomb);
            step.Step? ==> |step.written| <= step.consumed
  {}

  // ---- The decoder ----

  method Unescape(s: Text, wctomb: nat -> Text) returns (ok: bool, buffer: array<Byte>, length: nat)
    requires Bounded(wctomb)
    ensures fresh(buffer) && buffer.Length == |s| + 1
    ensures ok == Unescaped(s, wctomb).Some?
    ensures ok ==> length <= |s| && Unescaped(s, wctomb) == Some(buffer[..length]) && buffer[length] == NUL
  {
    buffer := new Byte[|s| + 1];
    var i: nat, j: nat := 0, 0;
    ok := true;
    PrependNothing(Unescaped(s, wctomb));
    assert s[0..] == s && buffer[..0] == [];
    while i < |s|
      invariant j <= i <= |s| < buffer.Length
      invariant Unescaped(s, wctomb) == Prepend(buffer[..j], Unescaped(s[i..], wctomb))
    {
      StepShrinks(s[i..], wctomb);
      ghost var before, rest := buffer[..j], s[i..];
      ok, i, j := UnescapeOne(s, wctomb, buffer, i, j);
      if !ok {
        return false, buffer, 0;
      }
      ghost var step := EscapeStep(rest, wctomb);
      assert rest[step.consumed..] == s[i..];
      PrependTwice(before, step.written, Unescaped(s[i..], wctomb));
    }
    buffer[j] := NUL;
    length := j;
    assert buffer[..j] + [] == buffer[..j];
  }

  method StoreBytes(bytes: Text, buffer: array<Byte>, end: nat) returns (j: nat)
    requires end + |bytes| <= buffer.Length
    modifies buffer
    ensures j == end + |bytes| && buffer[..j] == old(buffer[..end]) + bytes
  {
    j := end;
    for k := 0 to |bytes|
      invariant j == end + k
      invariant buffer[..j] == old(buffer[..end]) + bytes[..k]
    {
      buffer[j] := bytes[k];
      j := j + 1;
    }
  }

  /** One round of the loop. */
  method UnescapeOne(s: Text, wctomb: nat -> Text, buffer: array<Byte>, start: nat, end: nat)
    returns (ok: bool, i: nat, j: nat)
    requires Bounded(wctomb)
    requires end <= start < |s| && buffer.Length == |s| + 1
    modifies buffer
    ensures var step := EscapeStep(s[start..], wctomb);
            && ok == step.Step?
            && (ok ==>
                  && i == start + step.consumed && j == end + |step.written| && j <= i <= |s|
                  && buffer[..j] == old(buffer[..end]) + step.written)
  {
    hide Number, HexDigit, OctDigit, SimpleEscape;
    ok, i, j := true, start, end;
    if s[i] != BACKSLASH {
      buffer[j] := s[i];
      j := j + 1;
    } else if i + 1 < |s| {
      i := i + 1;
      var simple, n := SimpleEscape(s[i]), DigitCount(s[i]);
      if simple.Some? {
        buffer[j] := simple.value;
        j := j + 1;
      } else if n == 0 {
        buffer[j] := BACKSLASH;
        buffer[j + 1] := s[i];
        j := j + 2;
      } else if i + n < |s| {
        var digits := s[i + 1..i + 1 + n];
        assert digits == s[start..][2..2 + n];
        var value := if n == 3 then Number(digits, 8, OctDigit) else Hex(digits);
        if value.None? {
          return false, i, j;
        }
        var bytes := if n <= 3 then OneByte(value.value) else wctomb(value.value);
        j := StoreBytes(bytes, buffer, j);
        i := i + n;
      }
    } else {
      buffer[j] := s[i];
      j := j + 1;
    }
    i := i + 1;
  }

  lemma PrependNothing(r: Option<Text>)
    ensures Prepend([], r) == r
  {
    if r.Some? {
      assert [] + r.value == r.value;
    }
  }

  lemma PrependTwice(a: Text, b: Text, r: Option<Text>)
    ensures Prepend(a, Prepend(b, r)) == Prepend(a + b, r)
  {
    if r.Some? {
      assert a + (b + r.value) == a + b + r.value;
    }
  }

  // ---- What the escapes stand for ----

  lemma DecodeFirst(s: Text, wctomb: nat -> Text, length: nat, written: Text)
    requires 0 < length <= |s| && EscapeStep(s, wctomb) == Step(written, length)
    ensures Unescaped(s, wctomb) == Prepend(written, Unescaped(s[length..], wctomb))
  {}

  /** A byte that is not a backslash stands for itself, and so does a backslash at the very end. */
  lemma PlainByte(b: Byte, rest: Text, wctomb: nat -> Text)
    ensures b != 92 ==> Unescaped([b] + rest, wctomb) == Prepend([b], Unescaped(rest, wctomb))
    ensures Unescaped([92], wctomb) == Some([92])
  {
    if b != 92 {
      DecodeFirst([b] + rest, wctomb, 1, [b]);
      assert ([b] + rest)[1..] == rest;
    }
    DecodeFirst([92], wctomb, 1, [92]);
    assert Unescaped([], wctomb) == Some([]) && [92] + [] == [92];
  }

  /** The escapes of a single letter: \a \b \t \n \v \f \r, \e and \E, and the doubled backslash. */
  lemma NamedEscape(letter: Byte, b: Byte, rest: Text, wctomb: nat -> Text)
    requires (letter, b) in {(97, 7), (98, 8), (116, 9), (110, 10), (118, 11), (102, 12), (114, 13), (101, 27), (69, 27), (92, 92)}
    ensures Unescaped([92, letter] + rest, wctomb) == Prepend([b], Unescaped(rest, wctomb))
  {
    DecodeFirst([92, letter] + rest, wctomb, 2, [b]);
    assert ([92, letter] + rest)[2..] == rest;
  }

  /** A backslash in front of anything else that does not begin an escape stays, with what is behind it. */
  lemma UnknownEscape(letter: Byte, rest: Text, wctomb: nat -> Text)
    requires letter !in {97, 98, 116, 110, 118, 102, 114, 101, 69, 92} && letter !in {120, 48, 117, 85}
    ensures Unescaped([92, letter] + rest, wctomb) == Prepend([92, letter], Unescaped(rest, wctomb))
  {
    DecodeFirst([92, letter] + rest, wctomb, 2, [92, letter]);
    assert ([92, letter] + rest)[2..] == rest;
  }

  /** \x, \0, \u and \U with too few bytes behind them disappear; these bytes stay. */
  lemma TruncatedEscape(letter: Byte, rest: Text, wctomb: nat -> Text)
    requires (letter == 120 && |rest| < 2) || (letter == 48 && |rest| < 3) || (letter == 117 && |rest| < 4) || (letter == 85 && |rest| < 8)
    ensures Unescaped([92, letter] + rest, wctomb) == Unescaped(rest, wctomb)
  {
    hide Number, NumberStep, Unescaped, Prepend;
    var s := [92, letter] + rest;
    assert s[0] == 92 && s[1] == letter;
    assert EscapeStep(s, wctomb) == Step([], 2);
    DecodeFirst(s, wctomb, 2, []);
    assert ([92, letter] + rest)[2..] == rest;
    PrependNothing(Unescaped(rest, wctomb));
  }

  /** A hexadecimal digit of either case and its value. */
  predicate HexValue(digit: Byte, value: nat) {
    (48 <= digit <= 57 && value == digit - 48) || (65 <= digit <= 70 && value == digit - 55) || (97 <= digit <= 102 && value == digit - 87)
  }

  lemma NumberSnoc(digits: Text, d: Byte, base: nat, digit: Byte -> Option<nat>)
    ensures Number(digits + [d], base, digit) ==
            if Number(digits, base, digit).None? || digit(d).None? then None
            else Some(Number(digits, base, digit).value * base + digit(d).value)
  {
    assert (digits + [d])[..|digits|] == digits;
  }

  lemma HexDigitIs(d: Byte, v: nat)
    requires HexValue(d, v)
    ensures HexDigit(d) == Some(v)
  {}

  lemma TwoHexDigits(high: Byte, low: Byte, h: nat, l: nat)
    requires HexValue(high, h) && HexValue(low, l)
    ensures Hex([high, low]) == Some(16 * h + l)
  {
    hide HexDigit, HexValue;
    HexDigitIs(high, h);
    HexDigitIs(low, l);
    NumberSnoc([], high, 16, HexDigit);
    NumberSnoc([high], low, 16, HexDigit);
    assert [] + [high] == [high] && [high] + [low] == [high, low];
  }

  /** \x and two hexadecimal digits of either case. */
  lemma HexEscape(high: Byte, low: Byte, h: nat, l: nat, rest: Text, wctomb: nat -> Text)
    requires HexValue(high, h) && HexValue(low, l)
    ensures Unescaped([92, 120, high, low] + rest, wctomb) == Prepend([16 * h + l], Unescaped(rest, wctomb))
  {
    hide Hex;
    var s := [92, 120, high, low] + rest;
    TwoHexDigits(high, low, h, l);
    assert s[2..4] == [high, low] && s[4..] == rest;
    assert (16 * h + l) % 256 == 16 * h + l;
    DecodeFirst(s, wctomb, 4, [16 * h + l]);
  }

  /** \0 and three octal digits; what does not fit into a byte is cut off. */
  lemma OctalEscape(d: Byte, e: Byte, f: Byte, rest: Text, wctomb: nat -> Text)
    requires 48 <= d <= 55 && 48 <= e <= 55 && 48 <= f <= 55
    ensures Unescaped([92, 48, d, e, f] + rest, wctomb) ==
            Prepend([(64 * (d - 48) + 8 * (e - 48) + (f - 48)) % 256], Unescaped(rest, wctomb))
  {
    hide Number;
    var s := [92, 48, d, e, f] + rest;
    ThreeOctalDigits(d, e, f);
    assert s[2..5] == [d, e, f] && s[5..] == rest;
    DecodeFirst(s, wctomb, 5, [(64 * (d - 48) + 8 * (e - 48) + (f - 48)) % 256]);
  }

  lemma ThreeOctalDigits(d: Byte, e: Byte, f: Byte)
    requires 48 <= d <= 55 && 48 <= e <= 55 && 48 <= f <= 55
    ensures Number([d, e, f], 8, OctDigit) == Some(64 * (d - 48) + 8 * (e - 48) + (f - 48))
  {
    NumberSnoc([], d, 8, OctDigit);
    NumberSnoc([d], e, 8, OctDigit);
    NumberSnoc([d, e], f, 8, OctDigit);
    assert [] + [d] == [d] && [d] + [e] == [d, e] && [d, e] + [f] == [d, e, f];
  }

  /** The number that hexadecimal digits of either case stand for, the most significant one first. */
  predicate HexNumber(digits: Text, value: nat) {
    if digits == [] then value == 0
    else
      var n := |digits| - 1;
      HexValue(digits[n], value % 16) && HexNumber(digits[..n], value / 16)
  }

  lemma {:induction false} HexNumberIsRead(digits: Text, value: nat)
    requires HexNumber(digits, value)
    ensures Hex(digits) == Some(value)
  {
    if digits != [] {
      hide HexDigit, HexValue;
      var n := |digits| - 1;
      HexNumberIsRead(digits[..n], value / 16);
      HexDigitIs(digits[n], value % 16);
    }
  }

  lemma BehindDigits(a: Byte, b: Byte, digits: Text, rest: Text)
    ensures var s, n := [a, b] + (digits + rest), |digits|;
            s[2..2 + n] == digits && s[2 + n..] == rest
  {
    assert [a, b] + (digits + rest) == [a, b] + digits + rest;
  }

  /** \u and four, \U and eight hexadecimal digits: what wctomb() writes for the number. */
  lemma UnicodeEscape(digits: Text, value: nat, rest: Text, wctomb: nat -> Text)
    requires HexNumber(digits, value)
    ensures |digits| == 4 ==> Unescaped([92, 117] + (digits + rest), wctomb) == Prepend(wctomb(value), Unescaped(rest, wctomb))
    ensures |digits| == 8 ==> Unescaped([92, 85] + (digits + rest), wctomb) == Prepend(wctomb(value), Unescaped(rest, wctomb))
  {
    hide Hex, HexNumber;
    var n := |digits|;
    HexNumberIsRead(digits, value);
    if n == 4 || n == 8 {
      var s := [92, if n == 4 then 117 else 85] + (digits + rest);
      BehindDigits(s[0], s[1], digits, rest);
      DecodeFirst(s, wctomb, 2 + n, wctomb(value));
    }
  }

  lemma NoDigit(d: Byte)
    ensures !(48 <= d <= 57) && !(65 <= d <= 70) && !(97 <= d <= 102) ==> HexDigit(d) == None
    ensures !(48 <= d <= 55) ==> OctDigit(d) == None
  {}

  lemma {:induction false} NoNumber(digits: Text, base: nat, digit: Byte -> Option<nat>, i: nat)
    requires i < |digits|
    ensures digit(digits[i]).None? ==> Number(digits, base, digit) == None
  {
    var n := |digits| - 1;
    if i < n {
      NoNumber(digits[..n], base, digit, i);
    }
  }

  /** A digit that is none ends the program. */
  lemma InvalidDigit(letter: Byte, digits: Text, i: nat, rest: Text, wctomb: nat -> Text)
    requires (letter == 120 && |digits| == 2) || (letter == 117 && |digits| == 4) || (letter == 85 && |digits| == 8)
             || (letter == 48 && |digits| == 3)
    requires i < |digits|
    requires if letter == 48 then !(48 <= digits[i] <= 55)
             else !(48 <= digits[i] <= 57) && !(65 <= digits[i] <= 70) && !(97 <= digits[i] <= 102)
    ensures Unescaped([92, letter] + (digits + rest), wctomb) == None
  {
    hide Number, OctDigit, HexDigit;
    var s := [92, letter] + (digits + rest);
    BehindDigits(92, letter, digits, rest);
    NoDigit(digits[i]);
    NoNumber(digits, 8, OctDigit, i);
    NoNumber(digits, 16, HexDigit, i);
    assert EscapeStep(s, wctomb) == Exit;
  }

  // ---- Escaping and unescaping are inverse ----

  function HexChar(digit: nat, upper: bool): Byte
    requires digit < 16
  {
    if digit < 10 then 48 + digit else if upper then 55 + digit else 87 + digit
  }

  /** How a byte is escaped. */
  datatype Form = AsItself | ByName(letter: Byte) | AsHex(upperHigh: bool, upperLow: bool) | AsOctal

  /** The letters of the escapes, with the bytes they stand for. */
  const NAMES: set<(Byte, Byte)> :=
    {(97, 7), (98, 8), (116, 9), (110, 10), (118, 11), (102, 12), (114, 13), (101, 27), (69, 27), (92, 92)}

  /** A backslash cannot stand for itself, and only bytes with a name can be escaped by name. */
  predicate CanBe(b: Byte, form: Form) {
    (form.AsItself? ==> b != 92) && (form.ByName? ==> (form.letter, b) in NAMES)
  }

  function EscapeByte(b: Byte, form: Form): Text {
    match form
    case AsItself => [b]
    case ByName(letter) => [92, letter]
    case AsHex(upperHigh, upperLow) => [92, 120, HexChar(b / 16, upperHigh), HexChar(b % 16, upperLow)]
    case AsOctal => [92, 48, 48 + b / 64, 48 + b / 8 % 8, 48 + b % 8]
  }

  function EscapeBytes(t: Text, forms: seq<Form>): Text
    requires |forms| == |t|
  {
    if t == [] then [] else EscapeByte(t[0], forms[0]) + EscapeBytes(t[1..], forms[1..])
  }

  lemma HexCharIs(value: nat, upper: bool)
    requires value < 16
    ensures HexValue(HexChar(value, upper), value)
  {}

  lemma HexFormIsRead(b: Byte, form: Form, rest: Text, wctomb: nat -> Text)
    requires form.AsHex?
    ensures Unescaped(EscapeByte(b, form) + rest, wctomb) == Prepend([b], Unescaped(rest, wctomb))
  {
    hide Unescaped, HexValue, HexChar;
    var high, low := HexChar(b / 16, form.upperHigh), HexChar(b % 16, form.upperLow);
    HexCharIs(b / 16, form.upperHigh);
    HexCharIs(b % 16, form.upperLow);
    HexEscape(high, low, b / 16, b % 16, rest, wctomb);
    assert 16 * (b / 16) + b % 16 == b;
  }

  lemma OctalFormIsRead(b: Byte, form: Form, rest: Text, wctomb: nat -> Text)
    requires form.AsOctal?
    ensures Unescaped(EscapeByte(b, form) + rest, wctomb) == Prepend([b], Unescaped(rest, wctomb))
  {
    hide Unescaped;
    OctalEscape(48 + b / 64, 48 + b / 8 % 8, 48 + b % 8, rest, wctomb);
    OctalDigits(b);
  }

  lemma OctalDigits(b: Byte)
    ensures (64 * (b / 64) + 8 * (b / 8 % 8) + b % 8) % 256 == b
  {
    assert b / 8 / 8 == b / 64;
    assert b / 8 == b / 8 / 8 * 8 + b / 8 % 8 && b == b / 8 * 8 + b % 8;
  }

  lemma EscapeByteIsRead(b: Byte, form: Form, rest: Text, wctomb: nat -> Text)
    requires CanBe(b, form)
    ensures Unescaped(EscapeByte(b, form) + rest, wctomb) == Prepend([b], Unescaped(rest, wctomb))
  {
    hide Unescaped;
    match form {
      case AsItself => PlainByte(b, rest, wctomb);
      case ByName(letter) => NamedEscape(letter, b, rest, wctomb);
      case AsHex(_, _) => HexFormIsRead(b, form, rest, wctomb);
      case AsOctal => OctalFormIsRead(b, form, rest, wctomb);
    }
  }

  /**
   Any mixture of bytes that stand for themselves and bytes that are escaped by name, in hexadecimal
   digits of either case, or in octal digits, is decoded to the bytes it stands for.
   */
  lemma {:induction false} UnescapeInvertsEscape(t: Text, forms: seq<Form>, wctomb: nat -> Text)
    requires |forms| == |t| && forall i :: 0 <= i < |t| ==> CanBe(t[i], forms[i])
    ensures Unescaped(EscapeBytes(t, forms), wctomb) == Some(t)
  {
    if t != [] {
      hide EscapeByte, CanBe;
      EscapeByteIsRead(t[0], forms[0], EscapeBytes(t[1..], forms[1..]), wctomb);
      UnescapeInvertsEscape(t[1..], forms[1..], wctomb);
      assert [t[0]] + t[1..] == t;
    }
  }

  /** `n` hexadecimal digits of a number. */
  function HexDigits(value: nat, n: nat): (digits: Text)
    ensures |digits| == n
  {
    if n == 0 then [] else HexDigits(value / 16, n - 1) + [HexChar(value % 16, false)]
  }

  lemma {:induction false} HexIsRead(value: nat, n: nat)
    requires value < Numbers.Pow(16, n)
    ensures Hex(HexDigits(value, n)) == Some(value)
  {
    if n > 0 {
      var digits := HexDigits(value, n);
      assert digits[..n - 1] == HexDigits(value / 16, n - 1) && digits[n - 1] == HexChar(value % 16, false);
      HexIsRead(value / 16, n - 1);
    }
  }

  /** A scalar value as \uXXXX where it fits and is wanted, and as \UXXXXXXXX otherwise. */
  function EscapeScalar(c: Scalar, short: bool): Text {
    if short && c < 0x10000 then [BACKSLASH, 'u' as int] + HexDigits(c, 4)
    else [BACKSLASH, 'U' as int] + HexDigits(c, 8)
  }

  function EscapeScalars(cs: seq<Scalar>, short: seq<bool>): Text
    requires |short| == |cs|
  {
    if cs == [] then [] else EscapeScalar(cs[0], short[0]) + EscapeScalars(cs[1..], short[1..])
  }

  lemma EscapeScalarIsRead(c: Scalar, short: bool, rest: Text)
    ensures EscapeStep(EscapeScalar(c, short) + rest, Rfc3629) == Step(Encode(c), |EscapeScalar(c, short)|)
  {
    var n := if short && c < 0x10000 then 4 else 8;
    assert Numbers.Pow(16, 4) == 0x10000 && Numbers.Pow(16, 8) == 0x1_0000_0000;
    HexIsRead(c, n);
    var s := EscapeScalar(c, short) + rest;
    assert s[0] == BACKSLASH && s[1] == (if n == 4 then 'u' as int else 'U' as int) && s[2..2 + n] == HexDigits(c, n);
  }

  /** Escaped scalar values become their UTF-8 encoding, which decodes to them again. */
  lemma {:induction false} UnescapeInvertsScalars(cs: seq<Scalar>, short: seq<bool>)
    requires |short| == |cs|
    ensures Unescaped(EscapeScalars(cs, short), Rfc3629) == Some(EncodeAll(cs))
    ensures Decode(EncodeAll(cs)) == Some(cs)
  {
    DecodeEncoded(cs);
    if cs != [] {
      hide EscapeScalar, EscapeStep, Decode;
      var piece, rest := EscapeScalar(cs[0], short[0]), EscapeScalars(cs[1..], short[1..]);
      EscapeScalarIsRead(cs[0], short[0], rest);
      UnescapeInvertsScalars(cs[1..], short[1..]);
      assert (piece + rest)[|piece|..] == rest;
    }
  }
}
