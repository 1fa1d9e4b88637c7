/** Decimal rendering of unsigned integers as `std::to_string` does it (no
    sign, no padding, no leading zeros), its inverse, and the fixed-width
    rendering that section 5.3 of RFC 4226 uses for a 6-digit HOTP value. */
module Decimal {

  predicate IsDigit(c: char)
  {
    '0' <= c <= '9'
  }

  predicate IsDigits(s: string)
  {
    forall i :: 0 <= i < |s| ==> IsDigit(s[i])
  }

  function DigitChar(d: nat): char
    requires d < 10
  {
    ('0' as int + d) as char
  }

  function DigitValue(c: char): nat
    requires IsDigit(c)
  {
    c as int - '0' as int
  }

  /** `std::to_string(n)` for an unsigned `n`. */
  function ToDecimal(n: nat): (r: string)
    ensures |r| >= 1 && IsDigits(r)
    ensures r[0] == '0' ==> n == 0
    decreases n
  {
    if n < 10 then [DigitChar(n)] else ToDecimal(n / 10) + [DigitChar(n % 10)]
  }

  /** The value of a string of decimal digits, most significant first. */
  function ParseDecimal(s: string): nat
    requires IsDigits(s)
  {
    if s == [] then 0 else ParseDecimal(s[..|s| - 1]) * 10 + DigitValue(s[|s| - 1])
  }

  /** Reading back a rendering gives the number rendered. */
  lemma {:induction false} ParseToDecimal(n: nat)
    ensures ParseDecimal(ToDecimal(n)) == n
    decreases n
  {
    if n >= 10 {
      var r := ToDecimal(n);
      var prefix := ToDecimal(n / 10);
      assert r == prefix + [DigitChar(n % 10)];
      assert r[..|r| - 1] == prefix;
      ParseToDecimal(n / 10);
    }
  }

  /** Distinct numbers have distinct renderings. */
  lemma ToDecimalInjective(m: nat, n: nat)
    requires ToDecimal(m) == ToDecimal(n)
    ensures m == n
  {
    ParseToDecimal(m);
    ParseToDecimal(n);
  }

  function Pow10(k: nat): (p: nat)
    ensures p >= 1
  {
    if k == 0 then 1 else 10 * Pow10(k - 1)
  }

  /** A number below 10^k renders in at most k digits. */
  lemma {:induction false} ToDecimalLengthBound(n: nat, k: nat)
    requires k >= 1 && n < Pow10(k)
    ensures |ToDecimal(n)| <= k
    decreases n
  {
    if n >= 10 {
      assert k >= 2;
      assert n / 10 < Pow10(k - 1);
      ToDecimalLengthBound(n / 10, k - 1);
    }
  }

  function Zeros(k: nat): (r: string)
    ensures |r| == k && forall i :: 0 <= i < k ==> r[i] == '0'
  {
    if k == 0 then [] else Zeros(k - 1) + ['0']
  }

  /** The rendering padded on the left with '0' to `width` characters, as
      an authenticator displays a `width`-digit HOTP value. */
  function ZeroPadded(n: nat, width: nat): (r: string)
    ensures IsDigits(r)
    ensures |ToDecimal(n)| <= width ==> |r| == width
    ensures |ToDecimal(n)| > width ==> r == ToDecimal(n)
  {
    var d := ToDecimal(n);
    if |d| >= width then d else Zeros(width - |d|) + d
  }

  lemma DigitsAppend(a: string, b: string)
    requires IsDigits(a) && IsDigits(b)
    ensures IsDigits(a + b)
  {
    forall i | 0 <= i < |a + b| ensures IsDigit((a + b)[i]) {
      if i < |a| { assert (a + b)[i] == a[i]; } else { assert (a + b)[i] == b[i - |a|]; }
    }
  }

  /** A run of zeros has value 0. */
  lemma {:induction false} ParseZeros(k: nat)
    ensures IsDigits(Zeros(k)) && ParseDecimal(Zeros(k)) == 0
  {
    if k > 0 {
      ParseZeros(k - 1);
      assert Zeros(k)[..k - 1] == Zeros(k - 1);
    }
  }

  /** Leading zeros do not change a value. */
  lemma {:induction false} LeadingZerosIgnored(k: nat, b: string)
    requires IsDigits(b)
    ensures IsDigits(Zeros(k) + b) && ParseDecimal(Zeros(k) + b) == ParseDecimal(b)
    decreases |b|
  {
    DigitsAppend(Zeros(k), b);
    if b == [] {
      assert Zeros(k) + b == Zeros(k);
      ParseZeros(k);
    } else {
      var b' := b[..|b| - 1];
      assert (Zeros(k) + b)[..|Zeros(k) + b| - 1] == Zeros(k) + b';
      assert (Zeros(k) + b)[|Zeros(k) + b| - 1] == b[|b| - 1];
      LeadingZerosIgnored(k, b');
    }
  }

  /** The padded rendering still denotes `n`: padding adds only leading
      zeros. */
  lemma ZeroPaddedValue(n: nat, width: nat)
    ensures ParseDecimal(ZeroPadded(n, width)) == n
  {
    var d := ToDecimal(n);
    ParseToDecimal(n);
    if |d| >= width {
      assert ZeroPadded(n, width) == d;
    } else {
      var z := Zeros(width - |d|);
      assert ZeroPadded(n, width) == z + d;
      LeadingZerosIgnored(width - |d|, d);
    }
  }

  /** A 6-digit code whose first digit is 0 (a value below 100000) is never
      rendered the way `std::to_string` renders it. */
  lemma LeadingZeroRenderingsDiffer(n: nat)
    requires n < 100000
    ensures ZeroPadded(n, 6) != ToDecimal(n)
    ensures ZeroPadded(n, 6)[0] == '0'
  {
    assert Pow10(5) == 100000;
    ToDecimalLengthBound(n, 5);
  }
}
