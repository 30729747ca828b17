/** Integer arithmetic that stands in for the source's doubles and string
    conversions: Math.Round's default round-half-to-even, and Int32.ToString. */
module Numeric {

  /** Math.Round(n / d) with MidpointRounding.ToEven, on the exact rational.
      Dafny's / and % are Euclidean, which for d > 0 is floor division. */
  function RoundHalfEven(n: int, d: int): (k: int)
    requires d > 0
    ensures -d <= 2 * (n - k * d) <= d
    ensures 2 * (n - k * d) == d || 2 * (n - k * d) == -d ==> k % 2 == 0
  {
    var q, r := n / d, n % d;
    assert n == q * d + r;
    if 2 * r < d then q
    else if 2 * r > d then
      assert n - (q + 1) * d == r - d;
      q + 1
    else if q % 2 == 0 then q
    else
      assert n - (q + 1) * d == r - d;
      q + 1
  }

  /** Rounding picks the one integer strictly nearer than half a step. */
  lemma RoundHalfEvenUnique(n: int, d: int, k: int)
    requires d > 0
    requires -d < 2 * (n - k * d) < d
    ensures RoundHalfEven(n, d) == k
  {
    var j := RoundHalfEven(n, d);
    if j < k {
      MulStep(k, j, d);
      assert false;
    } else if j > k {
      MulStep(j, k, d);
      assert false;
    }
  }

  /** On a tie rounding picks the even neighbour. */
  lemma RoundHalfEvenTie(n: int, d: int, k: int)
    requires d > 0
    requires 2 * (n - k * d) == d
    ensures RoundHalfEven(n, d) == (if k % 2 == 0 then k else k + 1)
  {
    var j := RoundHalfEven(n, d);
    if j < k {
      MulStep(k, j, d);
      assert false;
    } else if j > k + 1 {
      MulStep(j, k + 1, d);
      MulStep(k + 1, k, d);
      assert false;
    } else if j == k + 1 {
      assert 2 * (n - j * d) == -d by { MulStep(k + 1, k, d); }
    }
  }

  /** a * d grows by at least d for each step a takes above b. */
  lemma MulStep(a: int, b: int, d: int)
    requires d > 0 && a > b
    ensures a * d >= b * d + d
  {
    var e := a - b - 1;
    assert e >= 0;
    assert e * d >= 0;
    assert a * d == b * d + e * d + d;
  }

  /** Rounding is monotone in the numerator. */
  lemma RoundHalfEvenMonotone(n1: int, n2: int, d: int)
    requires d > 0 && n1 <= n2
    ensures RoundHalfEven(n1, d) <= RoundHalfEven(n2, d)
  {
    var k1, k2 := RoundHalfEven(n1, d), RoundHalfEven(n2, d);
    if k1 > k2 + 1 {
      MulStep(k1, k2 + 1, d);
      MulStep(k2 + 1, k2, d);
      assert false;
    } else if k1 == k2 + 1 {
      // then both are ties, on neighbours k2 and k2 + 1, which cannot both be even
      MulStep(k1, k2, d);
      assert false;
    }
  }

  /** Rounding an exact multiple returns it unchanged. */
  lemma RoundHalfEvenExact(k: int, d: int)
    requires d > 0
    ensures RoundHalfEven(k * d, d) == k
  {
    RoundHalfEvenUnique(k * d, d, k);
  }

  // ---------------------------------------------------------------------------
  // Int32.ToString() with the invariant culture: an optional '-' and the
  // decimal digits without leading zeros.

  function DigitChar(n: nat): (c: char)
    requires n < 10
    ensures '0' <= c <= '9'
  {
    "0123456789"[n]
  }

  function DigitValue(c: char): (n: nat)
    requires '0' <= c <= '9'
    ensures n < 10 && DigitChar(n) == c
  {
    (c as int - '0' as int) as nat
  }

  predicate IsDigits(s: string) {
    forall i :: 0 <= i < |s| ==> '0' <= s[i] <= '9'
  }

  function Digits(n: nat): (s: string)
    ensures |s| > 0 && IsDigits(s)
    ensures |s| > 1 ==> s[0] != '0'
  {
    if n < 10 then [DigitChar(n)] else Digits(n / 10) + [DigitChar(n % 10)]
  }

  function DecimalString(i: int): (s: string)
    ensures |s| > 0
    ensures (s[0] == '-') <==> i < 0
  {
    if i < 0 then "-" + Digits(-i) else Digits(i)
  }

  /** The inverse of DecimalString: a reference reading of decimal text. */
  function ParseDigits(s: string): (n: nat)
    requires IsDigits(s)
  {
    if s == [] then 0 else ParseDigits(s[..|s| - 1]) * 10 + DigitValue(s[|s| - 1])
  }

  function ParseDecimal(s: string): (r: int)
    requires |s| > 0
    requires if s[0] == '-' then IsDigits(s[1..]) else IsDigits(s)
  {
    if s[0] == '-' then -(ParseDigits(s[1..]) as int) else ParseDigits(s)
  }

  lemma {:induction false} DigitsRoundTrip(n: nat)
    ensures ParseDigits(Digits(n)) == n
  {
    if n >= 10 {
      DigitsRoundTrip(n / 10);
      var s := Digits(n);
      assert s[..|s| - 1] == Digits(n / 10);
    }
  }

  /** Rendering an Int32 and reading it back gives the same number. */
  lemma DecimalRoundTrip(i: int)
    ensures var s := DecimalString(i);
            (if s[0] == '-' then IsDigits(s[1..]) else IsDigits(s)) && ParseDecimal(s) == i
  {
    if i < 0 {
      assert DecimalString(i) == "-" + Digits(-i);
      NegatedRoundTrip(-i);
    } else {
      DigitsRoundTrip(i);
    }
  }

  lemma NegatedRoundTrip(n: nat)
    ensures var s := "-" + Digits(n); IsDigits(s[1..]) && ParseDecimal(s) == -(n as int)
  {
    var t := Digits(n);
    var s := "-" + t;
    assert s[0] == '-' && s[1..] == t;
    DigitsRoundTrip(n);
  }

  /** Distinct numbers render as distinct strings, so a numeric correct
      option matches exactly one decimal text. */
  lemma DecimalStringInjective(i: int, j: int)
    requires DecimalString(i) == DecimalString(j)
    ensures i == j
  {
    DecimalRoundTrip(i);
    DecimalRoundTrip(j);
  }
}
