/**
 unixts2time: reading a Unix timestamp, the timespec it stands for, and how many digits of a second
 are printed.

 A timestamp is a plain decimal number: an integer part that strtoll() has read and the digits
 behind the point, if any.  The doubles that hold the fraction are idealised to exact decimals.
 */
module TimestampToTime {
  import opened Numbers
  import opened TimeToTimestamp

  predicate IsDigits(s: string) {
    forall i :: 0 <= i < |s| ==> '0' <= s[i] <= '9'
  }

  // ---- Units ----

  predicate Within(value: int, bound: nat) {
    0 < value + bound && value < bound
  }

  /** The unit guessed from the size of a number, in nanoseconds. */
  function DetectUnit(value: int): (divideBy: nat)
    ensures IsUnit(divideBy)
  {
    if Within(value, 5_000_000_000) then NS_PER_S
    else if Within(value, 5_000_000_000_000) then 1_000_000
    else if Within(value, 5_000_000_000_000_000) then 1_000
    else 1
  }

  lemma TruncWithin(ts: int, divideBy: nat, bound: nat)
    requires divideBy > 0
    ensures Within(TruncDiv(ts, divideBy), bound) <==> Within(ts, bound * divideBy)
  {
    hide Within, TruncDiv;
    NonNegativeProduct(bound, divideBy);
    WithinAbs(TruncDiv(ts, divideBy), bound);
    WithinAbs(ts, bound * divideBy);
    TruncAbs(ts, divideBy);
    QuotientBelow(Abs(ts), divideBy, bound);
  }

  lemma WithinAbs(value: int, bound: nat)
    ensures Within(value, bound) <==> Abs(value) < bound
  {}

  lemma TruncAbs(ts: int, divideBy: nat)
    requires divideBy > 0
    ensures Abs(TruncDiv(ts, divideBy)) == Abs(ts) / divideBy
  {
    SmallerQuotient(Abs(ts), divideBy);
  }

  /**
   A timestamp printed in any unit is recognised in that unit, in all four of them, exactly if it is
   at least 5 * 10^15 and less than 5 * 10^18 nanoseconds away from the epoch.
   */
  lemma UnitsAreRecognised(ts: int)
    ensures (forall d :: IsUnit(d) ==> DetectUnit(TruncDiv(ts, d)) == d) <==>
            !Within(ts, 5_000_000_000_000_000) && Within(ts, 5_000_000_000_000_000_000)
  {
    hide TruncDiv, Within;
    TruncWithin(ts, NS_PER_S, 5_000_000_000);
    TruncWithin(ts, 1_000_000, 5_000_000_000);
    TruncWithin(ts, 1_000_000, 5_000_000_000_000);
    TruncWithin(ts, 1_000, 5_000_000_000);
    TruncWithin(ts, 1_000, 5_000_000_000_000);
    TruncWithin(ts, 1_000, 5_000_000_000_000_000);
    TruncWithin(ts, 1, 5_000_000_000);
    TruncWithin(ts, 1, 5_000_000_000_000);
    TruncWithin(ts, 1, 5_000_000_000_000_000);
    WithinIsMonotonic(ts);
    assert IsUnit(NS_PER_S) && IsUnit(1_000_000) && IsUnit(1_000) && IsUnit(1);
  }

  lemma WithinIsMonotonic(ts: int)
    ensures Within(ts, 5_000_000_000) ==> Within(ts, 5_000_000_000_000)
    ensures Within(ts, 5_000_000_000_000) ==> Within(ts, 5_000_000_000_000_000)
    ensures Within(ts, 5_000_000_000_000_000) ==> Within(ts, 5_000_000_000_000_000_000)
  {}

  // ---- Reading a timestamp ----

  /** The nanoseconds in the fraction of a unit. */
  function FractionNs(fraction: string, divideBy: nat): nat {
    PowPositive(10, |fraction|);
    Scaled(Read(fraction, 10), divideBy, Pow(10, |fraction|))
  }

  function Scaled(a: nat, b: nat, d: nat): nat
    requires d > 0
  {
    NonNegativeProduct(a, b);
    a * b / d
  }

  /** What the program computes. */
  function Parsed(negative: bool, whole: nat, fraction: string, divideBy: nat): int {
    var unixTS := (if negative then 0 - whole else whole) * divideBy;
    if unixTS >= 0 then unixTS + FractionNs(fraction, divideBy) else unixTS - FractionNs(fraction, divideBy)
  }

  /** What the text says: sign, integer part and fraction, in nanoseconds, cut off towards zero. */
  function Meant(negative: bool, whole: nat, fraction: string, divideBy: nat): int {
    var ns := whole * divideBy + FractionNs(fraction, divideBy);
    if negative then 0 - ns else ns
  }

  /** The sign is lost exactly for numbers like -0.5: nothing before the point, but something behind it. */
  lemma SignIsKeptIff(negative: bool, whole: nat, fraction: string, divideBy: nat)
    requires IsUnit(divideBy)
    ensures Parsed(negative, whole, fraction, divideBy) == Meant(negative, whole, fraction, divideBy) <==>
            !(negative && whole == 0 && FractionNs(fraction, divideBy) != 0)
  {
    if whole > 0 {
      assert whole * divideBy == (whole - 1) * divideBy + divideBy;
      NonNegativeProduct(whole - 1, divideBy);
    }
    assert (0 - whole) * divideBy == -(whole * divideBy);
  }

  /** The program reads -0.5 as 0.5. */
  lemma SignIsLost()
    ensures Parsed(true, 0, "5", NS_PER_S) == 500_000_000 && Meant(true, 0, "5", NS_PER_S) == -500_000_000
  {
    assert Read("5", 10) == 5 && Pow(10, 1) == 10;
  }

  /** `initialDivideBy` is 0 if no unit was given. */
  method ParseTimestamp(negative: bool, whole: nat, fraction: string, initialDivideBy: nat)
    returns (unixTS: int, divideBy: nat, inputFractionalDigits: nat)
    requires initialDivideBy == 0 || IsUnit(initialDivideBy)
    requires IsDigits(fraction)
    ensures divideBy == if initialDivideBy == 0 then DetectUnit(if negative then 0 - whole else whole) else initialDivideBy
    ensures inputFractionalDigits == |fraction|
    ensures unixTS == Parsed(negative, whole, fraction, divideBy)
    ensures unixTS == Meant(negative, whole, fraction, divideBy) <==>
            !(negative && whole == 0 && FractionNs(fraction, divideBy) != 0)
  {
    hide FractionNs, Read;
    unixTS := if negative then 0 - whole else whole;
    divideBy := initialDivideBy;
    if divideBy == 0 {
      if unixTS > -5000000000 && unixTS < 5000000000 {
        divideBy := 1000000000;
      } else if unixTS > -5000000000000 && unixTS < 5000000000000 {
        divideBy := 1000000;
      } else if unixTS > -5000000000000000 && unixTS < 5000000000000000 {
        divideBy := 1000;
      } else {
        divideBy := 1;
      }
    }
    unixTS := unixTS * divideBy;
    inputFractionalDigits := 0;
    while inputFractionalDigits < |fraction| && '0' <= fraction[inputFractionalDigits] <= '9'
      invariant inputFractionalDigits <= |fraction|
    {
      inputFractionalDigits := inputFractionalDigits + 1;
    }
    var additionalNS := FractionNs(fraction, divideBy);
    unixTS := if unixTS >= 0 then unixTS + additionalNS else unixTS - additionalNS;
    SignIsKeptIff(negative, whole, fraction, divideBy);
  }

  // ---- The timespec ----

  method Normalise(unixTS: int) returns (t: Timespec)
    ensures t == Timespec(unixTS / NS_PER_S, unixTS % NS_PER_S)
  {
    TruncIsExact(unixTS, NS_PER_S);
    t := Timespec(TruncDiv(unixTS, NS_PER_S), TruncMod(unixTS, NS_PER_S));
    if unixTS < 0 && t.nsec < 0 {
      t := Timespec(t.sec - 1, NS_PER_S + t.nsec);
    }
    ModIs(unixTS, NS_PER_S, t.sec, t.nsec);
  }

  function Normalised(unixTS: int): Timespec {
    Timespec(unixTS / NS_PER_S, unixTS % NS_PER_S)
  }

  /** unixts2time's normalisation and time2unixts's recombination are inverse to each other. */
  lemma NormaliseAndRecombine(unixTS: int, t: Timespec)
    requires 0 <= t.nsec < NS_PER_S
    ensures Recombine(Normalised(unixTS)) == unixTS
    ensures 0 <= Normalised(unixTS).nsec < NS_PER_S
    ensures Normalised(Recombine(t)) == t
  {
    ModIs(Recombine(t), NS_PER_S, t.sec, t.nsec);
  }

  // ---- Precision ----

  /** The digits behind the point that the unit itself has. */
  function UnitDigits(divideBy: nat): nat {
    if divideBy == 1 then 9 else if divideBy == 1_000 then 6 else if divideBy == 1_000_000 then 3 else 0
  }

  function Precision(divideBy: nat, inputFractionalDigits: nat): (precision: nat)
    ensures precision <= 9
  {
    var sum := UnitDigits(divideBy) + inputFractionalDigits;
    if sum > 9 then 9 else sum
  }

  lemma UnitIsPowerOfTen(divideBy: nat)
    requires IsUnit(divideBy)
    ensures divideBy == Pow(10, 9 - UnitDigits(divideBy))
  {
    assert Pow(10, 3) == 1_000;
    PowAdd(10, 3, 3);
    PowAdd(10, 6, 3);
  }

  lemma GigaIsPowerOfTen()
    ensures Pow(10, 9) == NS_PER_S
  {
    UnitIsPowerOfTen(NS_PER_S);
  }

  /** A fraction that does not go below nanoseconds is a whole number of them. */
  lemma FractionIsExact(fraction: string, divideBy: nat)
    requires IsUnit(divideBy) && UnitDigits(divideBy) + |fraction| <= 9
    ensures FractionNs(fraction, divideBy) == Read(fraction, 10) * Pow(10, 9 - UnitDigits(divideBy) - |fraction|)
  {
    hide Pow, Read, UnitDigits;
    var f, rest := |fraction|, 9 - UnitDigits(divideBy) - |fraction|;
    UnitIsPowerOfTen(divideBy);
    PowAdd(10, rest, f);
    PowPositive(10, f);
    var r, p, d := Read(fraction, 10), Pow(10, rest), Pow(10, f);
    MulAssoc(r, p, d);
    ModIs(r * divideBy, d, r * p, 0);
  }

  /** The timestamp is a whole number of units of the last digit printed. */
  lemma TimestampHasPrecision(negative: bool, whole: nat, fraction: string, divideBy: nat) returns (k: int)
    requires IsUnit(divideBy) && UnitDigits(divideBy) + |fraction| <= 9
    ensures Parsed(negative, whole, fraction, divideBy) == k * Pow(10, 9 - UnitDigits(divideBy) - |fraction|)
  {
    hide Pow, Read, UnitDigits, FractionNs;
    var f, rest := |fraction|, 9 - UnitDigits(divideBy) - |fraction|;
    UnitIsPowerOfTen(divideBy);
    PowAdd(10, f, rest);
    FractionIsExact(fraction, divideBy);
    var signed := if negative then 0 - whole else whole;
    var r, p, d := Read(fraction, 10), Pow(10, rest), Pow(10, f);
    MulAssoc(signed, d, p);
    MulDistributes(signed * d, r, p);
    k := if signed * divideBy >= 0 then signed * d + r else signed * d - r;
  }

  /**
   No digit is lost: the nanoseconds printed with the chosen precision are a multiple of the last
   digit's value, for every unit, sign and number of input digits.
   */
  lemma PrecisionLosesNothing(negative: bool, whole: nat, fraction: string, divideBy: nat)
    requires IsUnit(divideBy)
    ensures Divides(Pow(10, 9 - Precision(divideBy, |fraction|)),
                    Normalised(Parsed(negative, whole, fraction, divideBy)).nsec)
  {
    if UnitDigits(divideBy) + |fraction| >= 9 {
      assert Pow(10, 0) == 1;
    } else {
      hide Pow, Parsed;
      var precision := Precision(divideBy, |fraction|);
      var k := TimestampHasPrecision(negative, whole, fraction, divideBy);
      GigaIsPowerOfTen();
      PowAdd(10, precision, 9 - precision);
      PowPositive(10, precision);
      PowPositive(10, 9 - precision);
      DividesRemainder(Pow(10, 9 - precision), k, Pow(10, precision));
    }
  }

  /** With this precision no digit of any timestamp with so many digits behind the point is lost. */
  ghost predicate LosesNothing(divideBy: nat, inputFractionalDigits: nat, precision: nat)
    requires IsUnit(divideBy)
  {
    precision <= 9 && forall negative: bool, whole: nat, fraction: string :: IsDigits(fraction) && |fraction| == inputFractionalDigits ==>
      Divides(Pow(10, 9 - precision), Normalised(Parsed(negative, whole, fraction, divideBy)).nsec)
  }

  lemma {:induction false} PaddedIsDigits(n: nat, width: nat)
    ensures IsDigits(Padded(n, width))
  {
    if width > 0 {
      PaddedIsDigits(n / 10, width - 1);
    }
  }

  lemma NoFraction(n: nat, divideBy: nat)
    ensures IsDigits(Padded(0, n)) && FractionNs(Padded(0, n), divideBy) == 0
  {
    hide Pow, Padded, IsDigits;
    PowPositive(10, n);
    PaddedIsRead(0, n);
    PaddedIsDigits(0, n);
    ModIs(0, Pow(10, n), 0, 0);
  }

  /** A one at the last digit of `n` that counts, `used` digits behind the point. */
  lemma LastDigit(n: nat, divideBy: nat, used: nat, unit: nat) returns (fraction: string)
    requires 0 < used <= n && divideBy == unit * Pow(10, used)
    ensures IsDigits(fraction) && |fraction| == n && FractionNs(fraction, divideBy) == unit
  {
    hide Pow, Padded, IsDigits;
    var a, d := Pow(10, n - used), Pow(10, used);
    fraction := Padded(a, n);
    PowIncreases(10, n - used, used);
    PaddedIsRead(a, n);
    PaddedIsDigits(a, n);
    PowAdd(10, n - used, used);
    PowPositive(10, n);
    Swapped(a, unit, d);
    ModIs(a * divideBy, Pow(10, n), unit, 0);
  }

  lemma Swapped(a: int, b: int, c: int)
    ensures a * (b * c) == b * (a * c)
  {
    MulAssoc(a, b, c);
    MulAssoc(b, a, c);
  }

  /** Some timestamp has exactly as many nanoseconds as the last digit of the chosen precision stands for. */
  lemma LastDigitIsUsed(divideBy: nat, inputFractionalDigits: nat) returns (whole: nat, fraction: string)
    requires IsUnit(divideBy)
    requires Precision(divideBy, inputFractionalDigits) > 0
    ensures IsDigits(fraction) && |fraction| == inputFractionalDigits
    ensures Parsed(false, whole, fraction, divideBy) == Pow(10, 9 - Precision(divideBy, inputFractionalDigits))
  {
    hide Pow, Read, Padded, IsDigits, FractionNs;
    var precision, n := Precision(divideBy, inputFractionalDigits), inputFractionalDigits;
    var used := precision - UnitDigits(divideBy);
    UnitIsPowerOfTen(divideBy);
    if used == 0 {
      whole, fraction := 1, Padded(0, n);
      NoFraction(n, divideBy);
    } else {
      PowAdd(10, 9 - precision, used);
      whole := 0;
      fraction := LastDigit(n, divideBy, used, Pow(10, 9 - precision));
    }
  }

  /** The precision chosen is the smallest that loses nothing. */
  lemma PrecisionIsExact(divideBy: nat, inputFractionalDigits: nat)
    requires IsUnit(divideBy)
    ensures LosesNothing(divideBy, inputFractionalDigits, Precision(divideBy, inputFractionalDigits))
    ensures forall p: nat :: p < Precision(divideBy, inputFractionalDigits) ==> !LosesNothing(divideBy, inputFractionalDigits, p)
  {
    hide Pow, Parsed, UnitDigits;
    var precision := Precision(divideBy, inputFractionalDigits);
    forall negative: bool, whole: nat, fraction: string | IsDigits(fraction) && |fraction| == inputFractionalDigits
      ensures Divides(Pow(10, 9 - precision), Normalised(Parsed(negative, whole, fraction, divideBy)).nsec)
    {
      PrecisionLosesNothing(negative, whole, fraction, divideBy);
    }
    if precision > 0 {
      var whole, fraction := LastDigitIsUsed(divideBy, inputFractionalDigits);
      forall p: nat | p < precision
        ensures !LosesNothing(divideBy, inputFractionalDigits, p)
      {
        SmallerUnitIsNotDivided(precision, p);
        assert !Divides(Pow(10, 9 - p), Normalised(Parsed(false, whole, fraction, divideBy)).nsec);
      }
    }
  }

  lemma SmallerUnitIsNotDivided(precision: nat, p: nat)
    requires p < precision <= 9
    ensures !Divides(Pow(10, 9 - p), Normalised(Pow(10, 9 - precision)).nsec)
  {
    hide Pow;
    GigaIsPowerOfTen();
    PowIncreases(10, 9 - precision, precision);
    PowIncreases(10, 9 - precision, precision - p);
    PowPositive(10, 9 - precision);
    var n, d := Pow(10, 9 - precision), Pow(10, 9 - p);
    ModIs(n, NS_PER_S, 0, n);
    ModIs(n, d, 0, n);
  }

  method ChoosePrecision(divideBy: nat, inputFractionalDigits: nat) returns (precision: nat)
    ensures precision == Precision(divideBy, inputFractionalDigits)
    ensures IsUnit(divideBy) ==> LosesNothing(divideBy, inputFractionalDigits, precision)
    ensures IsUnit(divideBy) ==> forall p: nat :: p < precision ==> !LosesNothing(divideBy, inputFractionalDigits, p)
  {
    precision := 0;
    if divideBy == 1 {
      precision := 9;
    } else if divideBy == 1000 {
      precision := 6;
    } else if divideBy == 1000000 {
      precision := 3;
    }
    precision := precision + inputFractionalDigits;
    if precision > 9 {
      precision := 9;
    }
    if IsUnit(divideBy) {
      PrecisionIsExact(divideBy, inputFractionalDigits);
    }
  }

  /** What printf() writes behind the point for a fraction of a second: rounded to `precision` digits. */
  function FractionDigits(nsec: nat, precision: nat): string
    requires precision <= 9
  {
    var unit := Pow(10, 9 - precision);
    PowPositive(10, 9 - precision);
    Padded((nsec + unit / 2) / unit, precision)
  }

  lemma RoundedQuotient(n: nat, unit: nat)
    requires Divides(unit, n)
    ensures (n + unit / 2) / unit == n / unit && n / unit * unit == n
  {
    var q := n / unit;
    assert n == q * unit + 0;
    HalfIsSmaller(unit);
    ModIs(n + unit / 2, unit, q, unit / 2);
  }

  /** The digits printed for a second's fraction read back to the nanoseconds. */
  lemma FractionIsReadBack(nsec: nat, precision: nat)
    requires precision <= 9 && nsec < NS_PER_S && Divides(Pow(10, 9 - precision), nsec)
    ensures Read(FractionDigits(nsec, precision), 10) * Pow(10, 9 - precision) == nsec
  {
    hide Pow, Divides, Read, Padded;
    var unit := Pow(10, 9 - precision);
    PowPositive(10, 9 - precision);
    RoundedQuotient(nsec, unit);
    GigaIsPowerOfTen();
    PowAdd(10, precision, 9 - precision);
    QuotientBelow(nsec, unit, Pow(10, precision));
    PaddedIsRead(nsec / unit, precision);
  }

  lemma HalfIsSmaller(n: nat)
    requires n > 0
    ensures n / 2 < n
  {}

  /** Together: the printed digits, as many as were chosen, read back to the nanoseconds of the timestamp. */
  lemma PrintedFractionIsExact(negative: bool, whole: nat, fraction: string, divideBy: nat)
    requires IsUnit(divideBy)
    ensures var precision := Precision(divideBy, |fraction|);
            var nsec := Normalised(Parsed(negative, whole, fraction, divideBy)).nsec;
            Read(FractionDigits(nsec, precision), 10) * Pow(10, 9 - precision) == nsec
  {
    hide Pow, Parsed;
    PrecisionLosesNothing(negative, whole, fraction, divideBy);
    FractionIsReadBack(Normalised(Parsed(negative, whole, fraction, divideBy)).nsec, Precision(divideBy, |fraction|));
  }

  // ---- From one tool to the other ----

  /** `text` is a sign if needed, a numeral without leading zeros, a point and digits. */
  predicate IsDecimal(text: string, negative: bool, whole: nat, fraction: string) {
    text == (if negative then "-" else "") + Digits(whole, 10) + "." + fraction && IsDigits(fraction)
  }

  /** The fraction that --float prints is the remainder again. */
  lemma FractionIsRemainder(r: nat, divideBy: nat)
    requires IsUnit(divideBy) && r < divideBy
    ensures var fraction := if divideBy == 1 then Digits(r, 10) else Padded(r, FractionWidth(divideBy));
            IsDigits(fraction) && FractionNs(fraction, divideBy) == r
  {
    hide Pow, Read, Padded, Digits, IsDigits;
    if divideBy == 1 {
      DigitsAreRead(0, 10);
      DigitsAreDigits(0);
      PowPositive(10, |Digits(0, 10)|);
      ModIs(0, Pow(10, |Digits(0, 10)|), 0, 0);
    } else {
      var width := FractionWidth(divideBy);
      UnitIsPower(divideBy);
      PaddedIsRead(r, width);
      PaddedIsDigits(r, width);
      ModIs(r * divideBy, divideBy, r, 0);
    }
  }

  lemma {:induction false} DigitsAreDigits(n: nat)
    ensures IsDigits(Digits(n, 10))
    decreases n
  {
    if n >= 10 {
      DigitsAreDigits(n / 10);
    }
  }

  /**
   What time2unixts --float prints in a unit is a decimal number that unixts2time, given the unit,
   reads as the same timestamp.  Between 5 * 10^15 and 5 * 10^18 nanoseconds from the epoch it also
   recognises the unit.
   */
  lemma FloatIsReadBack(ts: int, divideBy: nat) returns (negative: bool, whole: nat, fraction: string)
    requires IsUnit(divideBy) && (ts >= 0 || ts % divideBy == 0)
    ensures FloatText(ts, divideBy).Some? && IsDecimal(FloatText(ts, divideBy).value, negative, whole, fraction)
    ensures Parsed(negative, whole, fraction, divideBy) == ts
    ensures !Within(ts, 5_000_000_000_000_000) && Within(ts, 5_000_000_000_000_000_000) ==>
              DetectUnit(if negative then 0 - whole else whole) == divideBy
  {
    hide Pow, Read, Padded, Digits, IsDigits, FractionNs, TruncDiv, TruncMod, DetectUnit, Within;
    var q, r := TruncDiv(ts, divideBy), TruncMod(ts, divideBy);
    RemainderSign(ts, divideBy);
    TruncIsExact(ts, divideBy);
    negative, whole := q < 0, Abs(q);
    fraction := if divideBy == 1 then Digits(r, 10) else Padded(r, FractionWidth(divideBy));
    FractionIsRemainder(r, divideBy);
    if !negative {
      assert "" + Digits(whole, 10) == Digits(whole, 10);
    }
    UnitsAreRecognised(ts);
  }

  // ---- Units and fractions written out ----

  /** Numbers below 5 * 10^9 are seconds, below 5 * 10^12 milliseconds, below 5 * 10^15 microseconds, others nanoseconds. */
  lemma UnitOfNumber(value: int)
    ensures DetectUnit(value) == 1_000_000_000 <==> -5_000_000_000 < value < 5_000_000_000
    ensures DetectUnit(value) == 1_000_000 <==> 5_000_000_000 <= Abs(value) < 5_000_000_000_000
    ensures DetectUnit(value) == 1_000 <==> 5_000_000_000_000 <= Abs(value) < 5_000_000_000_000_000
    ensures DetectUnit(value) == 1 <==> 5_000_000_000_000_000 <= Abs(value)
  {}

  /** The fraction's nanoseconds are cut off, not rounded: the largest number that is not above the fraction of the unit. */
  lemma FractionIsCutOff(fraction: string, divideBy: nat)
    ensures var ns, power := FractionNs(fraction, divideBy), Pow(10, |fraction|);
            ns * power <= Read(fraction, 10) * divideBy < (ns + 1) * power
  {
    hide Read, Pow;
    PowPositive(10, |fraction|);
    var n, power := Read(fraction, 10) * divideBy, Pow(10, |fraction|);
    assert n == n / power * power + n % power;
    MulDistributes(n / power, 1, power);
  }

  /** The integer part in nanoseconds, and the fraction away from zero from there. */
  lemma ParsedWritten(whole: nat, fraction: string, divideBy: nat)
    ensures Parsed(false, whole, fraction, divideBy) == whole * divideBy + FractionNs(fraction, divideBy)
    ensures whole * divideBy > 0 ==>
              Parsed(true, whole, fraction, divideBy) == -(whole * divideBy + FractionNs(fraction, divideBy))
  {
    NonNegativeProduct(whole, divideBy);
    assert (0 - whole) * divideBy == -(whole * divideBy);
  }
}
