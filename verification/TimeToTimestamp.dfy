/**
 time2unixts: splitting seconds into a timespec, recombining it, and printing the timestamp.

 Seconds are a real number instead of a double, so nothing is said about rounding inside the double
 arithmetic.
 */
module TimeToTimestamp {
  import opened Numbers
  import opened OptionType

  // ---- The seconds placeholder ----

  /** The position of the first %S that is a conversion of its own, not part of %%S. */
  function Placeholder(format: string): Option<nat> {
    if format == "" then None
    else if format[0] != '%' then Shifted(1, Placeholder(format[1..]))
    else if |format| == 1 then None
    else if format[1] == 'S' then Some(0)
    else Shifted(2, Placeholder(format[2..]))
  }

  function Shifted(n: nat, r: Option<nat>): Option<nat> {
    match r
    case None => None
    case Some(p) => Some(n + p)
  }

  method FindSecondsPlaceholder(format: string) returns (r: Option<nat>)
    ensures r == Placeholder(format)
  {
    var ptr: nat := 0;
    assert format[0..] == format;
    while ptr < |format|
      invariant ptr <= |format|
      invariant Placeholder(format) == Shifted(ptr, Placeholder(format[ptr..]))
    {
      if format[ptr] == '%' {
        if ptr + 1 == |format| {
          ptr := ptr + 1;
        } else if format[ptr + 1] == 'S' {
          return Some(ptr);
        } else {
          assert format[ptr..][2..] == format[ptr + 2..];
          ptr := ptr + 2;
        }
      } else {
        assert format[ptr..][1..] == format[ptr + 1..];
        ptr := ptr + 1;
      }
    }
    return None;
  }

  /** A format made of whole conversions and ordinary characters. */
  predicate Complete(format: string) {
    if format == "" then true
    else if format[0] != '%' then Complete(format[1..])
    else |format| > 1 && Complete(format[2..])
  }

  lemma Dropped(s: string, n: nat, p: nat, q: nat)
    requires n <= p <= q <= |s|
    ensures s[n..][p - n..q - n] == s[p..q] && s[..p][n..] == s[n..][..p - n]
  {}

  /** The front part is complete and has no seconds; behind it is the placeholder. */
  lemma {:induction false} PlaceholderSplits(format: string)
    ensures match Placeholder(format)
            case None => true
            case Some(p) =>
              && p + 2 <= |format| && format[p..p + 2] == "%S"
              && Complete(format[..p]) && Placeholder(format[..p]).None?
    decreases |format|
  {
    if format != "" && Placeholder(format).Some? {
      var p := Placeholder(format).value;
      if format[0] != '%' {
        PlaceholderSplits(format[1..]);
        Dropped(format, 1, p, p + 2);
      } else if format[1] != 'S' {
        PlaceholderSplits(format[2..]);
        Dropped(format, 2, p, p + 2);
      }
    }
  }

  /** Any front part of this kind is found again, whatever follows the placeholder. */
  lemma {:induction false} PlaceholderIsFound(front: string, back: string)
    requires Complete(front) && Placeholder(front).None?
    ensures Placeholder(front + "%S" + back) == Some(|front|)
    decreases |front|
  {
    var format := front + "%S" + back;
    if front != "" {
      var n := if front[0] != '%' then 1 else 2;
      assert format[n..] == front[n..] + "%S" + back;
      PlaceholderIsFound(front[n..], back);
    }
  }

  // ---- Seconds and nanoseconds ----

  datatype Timespec = Timespec(sec: int, nsec: int)

  const GIGA: real := 1_000_000_000.0

  /** Splits parsed seconds; carries if the fraction rounds to a whole second. */
  method SplitSeconds(seconds: real) returns (t: Timespec)
    requires seconds >= 0.0
    ensures t == Split(seconds)
  {
    var sec := seconds.Floor;
    var fraction := seconds - sec as real;
    var nanoseconds := (fraction * GIGA + 0.5).Floor;
    if nanoseconds >= NS_PER_S {
      sec := sec + 1;
      nanoseconds := nanoseconds - NS_PER_S;
    }
    t := Timespec(sec, nanoseconds);
    RoundedOnce(seconds);
  }

  /** Seconds rounded to the nearest nanosecond, halves up, as a timespec. */
  function Split(seconds: real): Timespec {
    var ns := (seconds * GIGA + 0.5).Floor;
    Timespec(ns / NS_PER_S, ns % NS_PER_S)
  }

  /** Rounding only the fraction rounds the whole. */
  lemma RoundedOnce(seconds: real)
    ensures var sec := seconds.Floor;
            var rounded := ((seconds - sec as real) * GIGA + 0.5).Floor;
            && 0 <= rounded <= NS_PER_S
            && (seconds * GIGA + 0.5).Floor == sec * NS_PER_S + rounded
  {
    var sec := seconds.Floor;
    var fraction := seconds - sec as real;
    assert 0.0 <= fraction < 1.0;
    assert 0.5 <= fraction * GIGA + 0.5 < GIGA + 0.5;
    var rounded := (fraction * GIGA + 0.5).Floor;
    assert seconds * GIGA + 0.5 == (sec * NS_PER_S) as real + (fraction * GIGA + 0.5) by {
      assert seconds == sec as real + fraction;
      assert (sec as real) * GIGA == (sec * NS_PER_S) as real;
    }
    assert rounded as real <= fraction * GIGA + 0.5 < (rounded + 1) as real;
    assert (sec * NS_PER_S + rounded) as real == (sec * NS_PER_S) as real + rounded as real;
  }

  /**
   Parsing recovers s seconds and n nanoseconds if and only if the parsed number is less than half a
   nanosecond away (or exactly half a nanosecond below), also just below a whole second.
   */
  lemma SplitRecovers(seconds: real, s: nat, n: nat)
    requires n < NS_PER_S
    ensures Split(seconds) == Timespec(s, n) <==>
            (s * NS_PER_S + n) as real - 0.5 <= seconds * GIGA < (s * NS_PER_S + n) as real + 0.5
  {
    var total, ns := s * NS_PER_S + n, (seconds * GIGA + 0.5).Floor;
    assert ns == total <==> total as real <= seconds * GIGA + 0.5 < total as real + 1.0 by {
      if total as real <= seconds * GIGA + 0.5 < total as real + 1.0 {
        assert ns as real <= seconds * GIGA + 0.5 < ns as real + 1.0;
        assert (ns - total) as real < 1.0 && (total - ns) as real < 1.0;
      }
    }
    assert ns == total <==> ns / NS_PER_S == s && ns % NS_PER_S == n;
  }

  /** The timestamp in nanoseconds. */
  function Recombine(t: Timespec): int {
    NS_PER_S * t.sec + t.nsec
  }

  // ---- Printing ----

  const BUFFER_SIZE := 64

  /** The values of a _BitInt(128); those of a long long are among them. */
  predicate Representable(value: int) {
    0 <= value + Pow(2, 127) && value < Pow(2, 127)
  }

  function Abs(value: int): nat {
    if value < 0 then -value else value
  }

  function Prefixed(n: nat, base: nat, withPrefix: bool): string
    requires base == 10 || base == 16
  {
    if withPrefix && base == 16 then "0x" + Digits(n, base) else Digits(n, base)
  }

  /** A sign if it is needed, "0x" if it is wanted, then the digits. */
  function SignedNumeral(value: int, base: nat, withPrefix: bool): string
    requires base == 10 || base == 16
  {
    if value < 0 then "-" + Prefixed(-value, base, withPrefix) else Prefixed(value, base, withPrefix)
  }

  lemma InTurn(value: int, base: nat, withPrefix: bool)
    requires base == 10 || base == 16
    ensures (if value < 0 then "-" else "") + (if withPrefix && base == 16 then "0x" else "") + Digits(Abs(value), base)
         == SignedNumeral(value, base, withPrefix)
  {
    hide Digits;
    assert "-" + "0x" + Digits(Abs(value), base) == "-" + ("0x" + Digits(Abs(value), base));
    assert "-" + "" == "-" && "" + "" == "" && "" + "0x" == "0x" && "" + Digits(Abs(value), base) == Digits(Abs(value), base);
  }

  /** Reading such a numeral. */
  function ReadSigned(text: string, base: nat): int {
    if text != "" && text[0] == '-' then 0 - ReadPrefixed(text[1..], base) else ReadPrefixed(text, base)
  }

  function ReadPrefixed(text: string, base: nat): nat {
    if |text| >= 2 && text[..2] == "0x" then Read(text[2..], base) else Read(text, base)
  }

  /** At most this many more digits for a value below 2^bits, three bits per digit. */
  lemma BitsShrink(value: nat, base: nat, bits: nat)
    requires base == 10 || base == 16
    requires value <= Pow(2, bits)
    ensures bits >= 3 ==> value / base <= Pow(2, bits - 3)
    ensures bits == 1 ==> value / base == 0
  {
    if bits >= 3 {
      assert Pow(2, bits) == 2 * Pow(2, bits - 1) && Pow(2, bits - 1) == 2 * Pow(2, bits - 2);
      assert Pow(2, bits) == 8 * Pow(2, bits - 3);
    } else if bits == 1 {
      assert Pow(2, 1) == 2;
    }
  }

  /** The digits, least significant first, as the loops store them. */
  function Reversed(s: seq<char>): seq<char> {
    if s == [] then [] else [s[|s| - 1]] + Reversed(s[..|s| - 1])
  }

  lemma ReversedSnoc(s: seq<char>, c: char)
    ensures Reversed(s + [c]) == [c] + Reversed(s)
  {
    assert (s + [c])[..|s|] == s;
  }

  /** printBigInteger(): digits are taken from negative values without negating them. */
  method PrintBigInteger(value: int, base: nat, withPrefix: bool) returns (out: string)
    requires base == 10 || base == 16
    requires Representable(value)
    ensures out == SignedNumeral(value, base, withPrefix)
  {
    hide Digits, Pow, Representable, SignedNumeral, Prefixed;
    out := "";
    if value < 0 {
      out := out + "-";
    }
    if withPrefix && base == 16 {
      out := out + "0x";
    }
    var buffer := new char[BUFFER_SIZE];
    var idx := StoreDigits(value, base, buffer);
    assert out == (if value < 0 then "-" else "") + (if withPrefix && base == 16 then "0x" else "");
    InTurn(value, base, withPrefix);
    DoubleReverse(Digits(Abs(value), base));
    out := PrintBackwards(out, buffer, idx);
  }

  /** Prints the buffer from its end. */
  method PrintBackwards(head: string, buffer: array<char>, length: nat) returns (out: string)
    requires length <= buffer.Length
    ensures out == head + Reversed(buffer[..length])
  {
    out := head;
    var idx: nat := length;
    while idx > 0
      invariant idx <= length
      invariant out + Reversed(buffer[..idx]) == head + Reversed(buffer[..length])
    {
      idx := idx - 1;
      assert buffer[..idx + 1] == buffer[..idx] + [buffer[idx]];
      ReversedSnoc(buffer[..idx], buffer[idx]);
      out := out + [buffer[idx]];
    }
    assert buffer[..0] == [] && out + [] == out;
  }

  /** Fills the buffer with the digits, the least significant one first. */
  method StoreDigits(value: int, base: nat, buffer: array<char>) returns (idx: nat)
    requires base == 10 || base == 16
    requires Representable(value) && buffer.Length == BUFFER_SIZE
    modifies buffer
    ensures idx <= 43
    ensures buffer[..idx] == Reversed(Digits(Abs(value), base))
  {
    hide Digits, Reversed, Pow, DigitChar, TruncDiv, TruncMod, Representable;
    AbsFits(value);
    idx := 0;
    var v := value;
    ghost var bits: nat := 127;
    ghost var all := Reversed(Digits(Abs(value), base));
    while true
      invariant bits == 127 - 3 * idx && idx <= 42
      invariant Abs(v) <= Pow(2, bits)
      invariant idx > 0 ==> v != 0
      invariant buffer[..idx] + Reversed(Digits(Abs(v), base)) == all
      decreases Abs(v)
    {
      StoreStep(v, base, bits);
      var remainder := TruncMod(v, base);
      if remainder < 0 {
        remainder := -remainder;
      }
      var digit := DigitChar(remainder);
      ghost var before, rest := buffer[..idx], TruncDiv(v, base);
      OneInFront(before, digit, if rest == 0 then [] else Reversed(Digits(Abs(rest), base)));
      buffer[idx] := digit;
      assert buffer[..idx + 1] == before + [digit];
      idx := idx + 1;
      v := TruncDiv(v, base);
      if v == 0 {
        break;
      }
      bits := bits - 3;
    }
  }

  lemma OneInFront(a: seq<char>, c: char, b: seq<char>)
    ensures a + ([c] + b) == a + [c] + b && (b == [] ==> a + [c] + b == a + [c])
  {}

  lemma AbsFits(value: int)
    requires Representable(value)
    ensures Abs(value) <= Pow(2, 127)
  {}

  /** What one round does to a value of either sign. */
  lemma StoreStep(v: int, base: nat, bits: nat)
    requires base == 10 || base == 16
    requires Abs(v) <= Pow(2, bits)
    ensures var r, q := TruncMod(v, base), TruncDiv(v, base);
            && Abs(r) < base && (v < 0 ==> q <= 0) && (v >= 0 ==> q >= 0) && (v != 0 ==> Abs(q) < Abs(v)) && (v == 0 ==> q == 0)
            && (bits >= 3 ==> Abs(q) <= Pow(2, bits - 3)) && (bits == 1 ==> q == 0)
            && Reversed(Digits(Abs(v), base)) ==
               [DigitChar(Abs(r))] + (if q == 0 then [] else Reversed(Digits(Abs(q), base)))
  {
    hide Pow, Digits, Reversed, DigitChar, TruncDiv, TruncMod;
    TruncOfEitherSign(v, base);
    BitsShrink(Abs(v), base, bits);
    DigitsStep(Abs(v), base);
  }

  lemma TruncOfEitherSign(v: int, base: nat)
    requires base == 10 || base == 16
    ensures Abs(TruncMod(v, base)) == Abs(v) % base && Abs(TruncDiv(v, base)) == Abs(v) / base
    ensures (v < 0 ==> TruncDiv(v, base) <= 0) && (v >= 0 ==> TruncDiv(v, base) >= 0)
  {
    TruncIsExact(v, base);
  }

  /** The last digit of a numeral is the remainder, the others are the quotient's. */
  lemma DigitsStep(n: nat, base: nat)
    requires base == 10 || base == 16
    ensures n / base <= n && (n > 0 ==> n / base < n)
    ensures Reversed(Digits(n, base)) ==
            [DigitChar(n % base)] + (if n / base == 0 then [] else Reversed(Digits(n / base, base)))
  {
    if n < base {
      assert n / base == 0 && n % base == n;
      assert Digits(n, base) == [] + [DigitChar(n)];
      ReversedSnoc([], DigitChar(n));
    } else {
      Quotient(n, base);
      ReversedSnoc(Digits(n / base, base), DigitChar(n % base));
    }
  }

  lemma {:induction false} ReversedCons(c: char, s: seq<char>)
    ensures Reversed([c] + s) == Reversed(s) + [c]
    decreases |s|
  {
    if s == [] {
      assert [c] + s == [c];
    } else {
      var n := |s| - 1;
      assert ([c] + s)[..n + 1] == [c] + s[..n];
      ReversedCons(c, s[..n]);
    }
  }

  lemma {:induction false} DoubleReverse(t: seq<char>)
    ensures Reversed(Reversed(t)) == t
    decreases |t|
  {
    if t != [] {
      var n := |t| - 1;
      DoubleReverse(t[..n]);
      ReversedCons(t[n], Reversed(t[..n]));
      assert t == t[..n] + [t[n]];
    }
  }

  // ---- What is printed can be read back ----

  lemma {:induction false} DigitsAreHex(n: nat, base: nat)
    requires base == 10 || base == 16
    ensures forall c :: c in Digits(n, base) ==> c in "0123456789abcdef"
    decreases n
  {
    if n >= base {
      Quotient(n, base);
      DigitsAreHex(n / base, base);
    }
  }

  lemma PrefixedIsRead(n: nat, base: nat, withPrefix: bool)
    requires base == 10 || base == 16
    ensures var text := Prefixed(n, base, withPrefix);
            text != "" && text[0] != '-' && ReadPrefixed(text, base) == n
  {
    hide Digits, Read;
    var digits := Digits(n, base);
    DigitsAreRead(n, base);
    DigitsAreHex(n, base);
    NotHex(digits);
    if withPrefix && base == 16 {
      var text := "0x" + digits;
      assert text[0] == '0' && text[..2] == "0x" && text[2..] == digits;
    }
  }

  /** Digits alone look neither like a sign nor like a prefix. */
  lemma NotHex(digits: string)
    requires digits != "" && forall c :: c in digits ==> c in "0123456789abcdef"
    ensures digits[0] != '-'
    ensures |digits| >= 2 ==> digits[..2] != "0x"
  {
    assert digits[0] in digits;
    if |digits| >= 2 {
      assert digits[1] in digits;
      assert digits[..2][1] == digits[1];
    }
  }

  /** Every printed number, of either sign, reads back to its value. */
  lemma SignedNumeralIsRead(value: int, base: nat, withPrefix: bool)
    requires base == 10 || base == 16
    ensures ReadSigned(SignedNumeral(value, base, withPrefix), base) == value
  {
    hide Prefixed, ReadPrefixed;
    PrefixedIsRead(Abs(value), base, withPrefix);
    if value < 0 {
      var prefixed := Prefixed(-value, base, withPrefix);
      assert ("-" + prefixed)[0] == '-' && ("-" + prefixed)[1..] == prefixed;
    }
  }

  predicate IsUnit(divideBy: nat) {
    divideBy == 1 || divideBy == 1_000 || divideBy == 1_000_000 || divideBy == NS_PER_S
  }

  /** How many digits the format of the fraction asks for. */
  function FractionWidth(divideBy: nat): nat {
    if divideBy == NS_PER_S then 9 else if divideBy == 1_000_000 then 6 else if divideBy == 1_000 then 3 else 1
  }

  lemma QuotientFits(value: int, divideBy: nat)
    requires divideBy > 0 && Representable(value)
    ensures Representable(TruncDiv(value, divideBy))
  {
    hide Pow, TruncDiv;
    PowPositive(2, 127);
    QuotientIsSmaller(value, divideBy);
  }

  function FloatText(unixTS: int, divideBy: nat): Option<string>
    requires IsUnit(divideBy)
  {
    var r := TruncMod(unixTS, divideBy);
    if r < 0 then None
    else Some(SignedNumeral(TruncDiv(unixTS, divideBy), 10, false) + "."
              + (if divideBy == 1 then Digits(r, 10) else Padded(r, FractionWidth(divideBy))))
  }

  lemma UnitIsPower(divideBy: nat)
    requires IsUnit(divideBy)
    ensures divideBy != 1 ==> Pow(10, FractionWidth(divideBy)) == divideBy
    ensures divideBy == 1 ==> FractionWidth(divideBy) == 1
  {
    assert Pow(10, 3) == 1_000;
    PowAdd(10, 3, 3);
    PowAdd(10, 6, 3);
  }

  /**
   An integer part, a point and a fraction of k digits that read back to exactly unixTS / divideBy in
   units of 10^-k.
   */
  ghost predicate ReadsBack(text: string, unixTS: int, divideBy: nat) {
    exists whole: string, fraction: string ::
      && text == whole + "." + fraction
      && |fraction| == FractionWidth(divideBy)
      && (ReadSigned(whole, 10) * Pow(10, |fraction|) + Read(fraction, 10)) * divideBy == unixTS * Pow(10, |fraction|)
  }

  /** Half a second before the epoch cannot be printed. */
  lemma HalfSecondIsLost()
    ensures FloatText(-500_000_000, NS_PER_S).None?
  {}

  /**
   --float output is defined exactly for timestamps that are not negative or have no fraction.  Then
   it reads back exactly.
   */
  lemma FloatIsExact(unixTS: int, divideBy: nat)
    requires IsUnit(divideBy)
    ensures FloatText(unixTS, divideBy).Some? <==> unixTS >= 0 || unixTS % divideBy == 0
    ensures FloatText(unixTS, divideBy).Some? ==> ReadsBack(FloatText(unixTS, divideBy).value, unixTS, divideBy)
  {
    RemainderSign(unixTS, divideBy);
    if TruncMod(unixTS, divideBy) >= 0 {
      var whole, fraction := FloatParts(unixTS, divideBy);
    }
  }

  lemma RemainderSign(unixTS: int, divideBy: nat)
    requires divideBy > 0
    ensures TruncMod(unixTS, divideBy) < 0 <==> unixTS < 0 && unixTS % divideBy != 0
  {
    TruncIsExact(unixTS, divideBy);
    NegativeRemainder(unixTS, divideBy);
  }

  lemma FractionValue(q: int, r: nat, divideBy: nat, power: nat)
    requires power == divideBy || (divideBy == 1 && r == 0)
    ensures (q * power + r) * divideBy == (q * divideBy + r) * power
  {}

  lemma FloatParts(unixTS: int, divideBy: nat) returns (whole: string, fraction: string)
    requires IsUnit(divideBy) && TruncMod(unixTS, divideBy) >= 0
    ensures FloatText(unixTS, divideBy) == Some(whole + "." + fraction)
    ensures |fraction| == FractionWidth(divideBy)
    ensures (ReadSigned(whole, 10) * Pow(10, |fraction|) + Read(fraction, 10)) * divideBy == unixTS * Pow(10, |fraction|)
  {
    hide Pow, SignedNumeral, ReadSigned, Read, Padded, TruncDiv, TruncMod;
    var q, r := TruncDiv(unixTS, divideBy), TruncMod(unixTS, divideBy);
    TruncIsExact(unixTS, divideBy);
    assert 0 <= r < divideBy;
    whole := SignedNumeral(q, 10, false);
    fraction := if divideBy == 1 then Digits(r, 10) else Padded(r, FractionWidth(divideBy));
    SignedNumeralIsRead(q, 10, false);
    UnitIsPower(divideBy);
    if divideBy == 1 {
      DigitsAreRead(0, 10);
    } else {
      PaddedIsRead(r, FractionWidth(divideBy));
    }
    FractionValue(q, r, divideBy, Pow(10, |fraction|));
  }

  /**
   The output of --float.  The remainder is converted to an unsigned number; C does not define this
   for a negative one, which is None here.
   */
  method PrintFloat(unixTS: int, divideBy: nat) returns (out: Option<string>)
    requires IsUnit(divideBy) && Representable(unixTS)
    ensures out == FloatText(unixTS, divideBy)
    ensures out.Some? <==> unixTS >= 0 || unixTS % divideBy == 0
    ensures out.Some? ==> ReadsBack(out.value, unixTS, divideBy)
  {
    FloatIsExact(unixTS, divideBy);
    hide SignedNumeral, Representable, Digits, Padded, TruncDiv, ReadsBack;
    TruncIsExact(unixTS, divideBy);
    var quotient := TruncDiv(unixTS, divideBy);
    QuotientFits(unixTS, divideBy);
    var text := PrintBigInteger(quotient, 10, false);
    var fractionalUnixTS := unixTS - quotient * divideBy;
    if fractionalUnixTS < 0 {
      return None;
    }
    if divideBy == NS_PER_S {
      text := text + "." + Padded(fractionalUnixTS, 9);
    } else if divideBy == 1_000_000 {
      text := text + "." + Padded(fractionalUnixTS, 6);
    } else if divideBy == 1_000 {
      text := text + "." + Padded(fractionalUnixTS, 3);
    } else {
      text := text + "." + Digits(fractionalUnixTS, 10);
    }
    return Some(text);
  }

  // ---- Formats and numerals written out ----

  /** %S is the placeholder; any other conversion, also %%, is skipped with the character behind the percent sign. */
  lemma PlaceholderWritten(c: char, format: string)
    ensures Placeholder("%S" + format) == Some(0)
    ensures c != '%' ==> Placeholder([c] + format) == Shifted(1, Placeholder(format))
    ensures c != 'S' ==> Placeholder(['%', c] + format) == Shifted(2, Placeholder(format))
    ensures Placeholder("") == None == Placeholder("%")
  {
    assert ([c] + format)[1..] == format && (['%', c] + format)[2..] == format;
  }

  /** Sign and prefix stand in front of the digits; a numeral below the base is one digit. */
  lemma NumeralWritten(n: nat, base: nat, withPrefix: bool)
    requires base == 10 || base == 16
    ensures SignedNumeral(n, 10, withPrefix) == Digits(n, 10) && SignedNumeral(n, 16, false) == Digits(n, 16)
    ensures SignedNumeral(n, 16, true) == "0x" + Digits(n, 16)
    ensures n > 0 ==> SignedNumeral(0 - n, base, withPrefix) == "-" + SignedNumeral(n, base, withPrefix)
    ensures n < 10 ==> Digits(n, base) == ['0' + n as char]
    ensures 10 <= n < 16 ==> Digits(n, 16) == ['a' + (n - 10) as char]
    ensures n >= base ==> Digits(n, base) == Digits(n / base, base) + Digits(n % base, base)
  {}
}
