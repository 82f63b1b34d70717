/**
 C's integer division, powers, and numerals: what both Unix timestamp tools compute with.
 */
module Numbers {
  const NS_PER_S := 1_000_000_000

  // ---- C's division ----

  /** a / b, truncated towards zero. */
  function TruncDiv(a: int, b: nat): int
    requires b > 0
  {
    if a < 0 then -(-a / b) else a / b
  }

  /** a % b, with the sign of a. */
  function TruncMod(a: int, b: nat): int
    requires b > 0
  {
    a - TruncDiv(a, b) * b
  }

  lemma TruncIsExact(a: int, b: nat)
    requires b > 0
    ensures a == TruncDiv(a, b) * b + TruncMod(a, b)
    ensures a >= 0 ==> 0 <= TruncMod(a, b) < b
    ensures a < 0 ==> 0 < TruncMod(a, b) + b && TruncMod(a, b) <= 0
    ensures a >= 0 ==> TruncDiv(a, b) == a / b && TruncMod(a, b) == a % b
    ensures a < 0 ==> -TruncDiv(a, b) == -a / b && -TruncMod(a, b) == -a % b
  {
    if a < 0 {
      var q, r := -a / b, -a % b;
      assert -a == q * b + r;
      assert -q * b == -(q * b);
    } else {
      assert a == a / b * b + a % b;
    }
  }

  lemma QuotientIsSmaller(value: int, divideBy: nat)
    requires divideBy > 0
    ensures value < 0 ==> value <= TruncDiv(value, divideBy) <= 0
    ensures value >= 0 ==> 0 <= TruncDiv(value, divideBy) <= value
  {
    SmallerQuotient(if value < 0 then -value else value, divideBy);
  }

  lemma SmallerQuotient(n: nat, d: nat)
    requires d > 0
    ensures 0 <= n / d <= n
  {
    var q := n / d;
    assert n == q * d + n % d;
    NonNegativeProduct(q, d - 1);
    assert q * d == q * (d - 1) + q;
  }

  lemma NonNegativeProduct(a: int, b: nat)
    ensures a >= 0 ==> a * b >= 0
    ensures a < 0 ==> a * b <= 0
  {}

  lemma NegativeRemainder(a: int, b: nat)
    requires b > 0
    ensures a < 0 ==> (a % b == 0 <==> -a % b == 0)
  {
    if a < 0 {
      var q, r := -a / b, -a % b;
      assert -a == q * b + r;
      if r == 0 {
        assert a == (-q) * b + 0;
        ModIs(a, b, -q, 0);
      } else {
        assert a == (-q - 1) * b + (b - r);
        ModIs(a, b, -q - 1, b - r);
      }
    }
  }

  lemma ModIs(a: int, b: nat, q: int, r: nat)
    requires r < b && a == q * b + r
    ensures a / b == q && a % b == r
  {
    var d := a / b - q;
    assert a == a / b * b + a % b;
    assert d * b == r - a % b by {
      assert (a / b - q) * b == a / b * b - q * b;
    }
    Multiples(d, b);
  }

  lemma Multiples(d: int, b: nat)
    ensures d >= 1 ==> d * b >= b
    ensures d <= -1 ==> d * b + b <= 0
  {
    if d >= 1 {
      assert d * b == (d - 1) * b + b;
    } else if d <= -1 {
      assert d * b + b == (d + 1) * b;
      assert (-(d + 1)) * b >= 0;
    }
  }

  lemma MulAssoc(a: int, b: int, c: int)
    ensures a * (b * c) == (a * b) * c
  {}

  lemma MulDistributes(a: int, b: int, c: int)
    ensures (a + b) * c == a * c + b * c
    ensures (a - b) * c == a * c - b * c
  {}

  /** A quotient is below a bound if the number is below so many divisors. */
  lemma QuotientBelow(n: nat, d: nat, bound: nat)
    requires d > 0
    ensures n / d < bound <==> n < bound * d
  {
    var q := n / d;
    assert n == q * d + n % d;
    MulDistributes(bound, q + 1, d);
    MulDistributes(q, 1, d);
    MulDistributes(q, bound, d);
    NonNegativeProduct(bound - (q + 1), d);
    NonNegativeProduct(q - bound, d);
  }

  predicate Divides(d: nat, n: int) {
    d > 0 && n % d == 0
  }

  /** A common divisor of a number and a modulus divides the remainder. */
  lemma DividesRemainder(d: nat, k: int, high: nat)
    requires d > 0 && high > 0
    ensures high * d > 0 && Divides(d, (k * d) % (high * d))
  {
    var n, modulus := k * d, high * d;
    NonNegativeProduct(high - 1, d);
    MulDistributes(high - 1, 1, d);
    var q := n / modulus;
    assert n % modulus == n - q * modulus;
    MulAssoc(q, high, d);
    MulDistributes(k, q * high, d);
    ModIs(n % modulus, d, k - q * high, 0);
  }

  // ---- Powers ----

  function Pow(base: nat, n: nat): nat {
    if n == 0 then 1 else base * Pow(base, n - 1)
  }

  lemma {:induction false} PowPositive(base: nat, n: nat)
    requires base > 0
    ensures Pow(base, n) > 0
  {
    if n > 0 {
      PowPositive(base, n - 1);
    }
  }

  lemma {:induction false} PowAdd(base: nat, a: nat, b: nat)
    ensures Pow(base, a + b) == Pow(base, a) * Pow(base, b)
  {
    if a > 0 {
      PowAdd(base, a - 1, b);
      MulAssoc(base, Pow(base, a - 1), Pow(base, b));
    }
  }

  lemma PowIncreases(base: nat, a: nat, b: nat)
    requires base >= 2 && b > 0
    ensures Pow(base, a) < Pow(base, a + b)
    decreases b
  {
    PowPositive(base, a);
    if b > 1 {
      PowIncreases(base, a, b - 1);
    }
    var x := Pow(base, a + b - 1);
    assert base * x >= 2 * x by {
      assert base * x == 2 * x + (base - 2) * x;
    }
  }

  // ---- Numerals ----

  /** Digits 0 to 9, then a to f. */
  function DigitChar(d: nat): char
    requires d < 16
  {
    "0123456789abcdef"[d]
  }

  function DigitValue(c: char): nat {
    if '0' <= c <= '9' then c as int - '0' as int
    else if 'a' <= c <= 'f' then c as int - 'a' as int + 10
    else 0
  }

  lemma DigitIsRead(d: nat)
    requires d < 16
    ensures DigitValue(DigitChar(d)) == d
    ensures DigitChar(d) == '0' <==> d == 0
  {}

  /** The numeral of a number: its digits, the most significant one first. */
  function Digits(n: nat, base: nat): string
    requires base == 10 || base == 16
    decreases n
  {
    if n < base then [DigitChar(n)] else Digits(n / base, base) + [DigitChar(n % base)]
  }

  /** Reading digits. */
  function Read(digits: string, base: nat): nat {
    if digits == "" then 0
    else
      var k := |digits| - 1;
      Read(digits[..k], base) * base + DigitValue(digits[k])
  }

  lemma ReadSnoc(digits: string, c: char, base: nat)
    ensures Read(digits + [c], base) == Read(digits, base) * base + DigitValue(c)
  {
    assert (digits + [c])[..|digits|] == digits;
  }

  /** A numeral reads back to its number and has no leading zero. */
  lemma {:induction false} DigitsAreRead(n: nat, base: nat)
    requires base == 10 || base == 16
    ensures Read(Digits(n, base), base) == n
    ensures |Digits(n, base)| >= 1
    ensures Digits(n, base)[0] == '0' ==> n == 0 && |Digits(n, base)| == 1
    decreases n
  {
    hide DigitChar, DigitValue, Read;
    if n < base {
      DigitIsRead(n);
      ReadSnoc("", DigitChar(n), base);
      ReadNothing(base);
      assert "" + [DigitChar(n)] == [DigitChar(n)];
    } else {
      Quotient(n, base);
      DigitsAreRead(n / base, base);
      DigitIsRead(n % base);
      ReadSnoc(Digits(n / base, base), DigitChar(n % base), base);
    }
  }

  lemma Quotient(n: nat, base: nat)
    requires base == 10 || base == 16
    requires base <= n
    ensures 0 < n / base < n && n == n / base * base + n % base
  {
    if base == 10 {
      assert 0 < n / 10 < n;
    } else {
      assert 0 < n / 16 < n;
    }
  }

  lemma ReadNothing(base: nat)
    ensures Read("", base) == 0
  {}

  /** A number with leading zeros: exactly `width` digits. */
  function Padded(n: nat, width: nat): (s: string)
    ensures |s| == width
  {
    if width == 0 then "" else Padded(n / 10, width - 1) + [DigitChar(n % 10)]
  }

  lemma {:induction false} PaddedIsRead(n: nat, width: nat)
    requires n < Pow(10, width)
    ensures Read(Padded(n, width), 10) == n
  {
    if width > 0 {
      PaddedIsRead(n / 10, width - 1);
      DigitIsRead(n % 10);
      ReadSnoc(Padded(n / 10, width - 1), DigitChar(n % 10), 10);
    }
  }
}
