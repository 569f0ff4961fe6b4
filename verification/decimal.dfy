/**
 Decimal rendering of integers as Python's `str(n)` and the format
 specification `0<w>d` produce it, and the reader that takes such text back
 to the number.
 */
module Decimal {

  import opened Options

  predicate IsDigit(c: char) {
    '0' <= c <= '9'
  }

  predicate AllDigits(s: string) {
    forall k :: 0 <= k < |s| ==> IsDigit(s[k])
  }

  function DigitValue(c: char): nat
    requires IsDigit(c)
  {
    c as int - '0' as int
  }

  function DigitChar(d: nat): (c: char)
    requires d < 10
    ensures IsDigit(c) && DigitValue(c) == d
  {
    ('0' as int + d) as char
  }

  function Pow10(k: nat): (p: nat)
    ensures p >= 1
  {
    if k == 0 then 1 else 10 * Pow10(k - 1)
  }

  /** Python's `str(n)` for a non-negative `n`: the shortest decimal numeral. */
  function NatToDecimal(n: nat): string
    decreases n
  {
    if n < 10 then [DigitChar(n)] else NatToDecimal(n / 10) + [DigitChar(n % 10)]
  }

  /** The number a string of decimal digits denotes; leading zeros allowed. */
  function DecimalValue(s: string): nat
    requires AllDigits(s)
  {
    if s == [] then 0 else DecimalValue(s[..|s| - 1]) * 10 + DigitValue(s[|s| - 1])
  }

  function Zeros(n: nat): string {
    if n == 0 then "" else "0" + Zeros(n - 1)
  }

  /** Left-pads a numeral with '0' up to a minimum width, never truncating. */
  function ZeroPad(s: string, width: nat): string {
    if |s| < width then Zeros(width - |s|) + s else s
  }

  /**
   Python's `format(n, "0<width>d")` (and `str(n)` for width 0): the sign,
   then the digits of |n| zero-padded so that sign and digits together fill
   at least `width` characters.
   */
  function FormatInt(n: int, width: nat): string {
    if n < 0 then "-" + ZeroPad(NatToDecimal(-n), if width == 0 then 0 else width - 1)
    else ZeroPad(NatToDecimal(n), width)
  }

  /** Reads an optionally signed decimal numeral back to its integer. */
  function ParseInt(s: string): Option<int> {
    if 2 <= |s| && s[0] == '-' && AllDigits(s[1..]) then Some(-(DecimalValue(s[1..]) as int))
    else if 1 <= |s| && AllDigits(s) then Some(DecimalValue(s))
    else None
  }

  /** `str(n)` is a non-empty string of digits without a leading zero. */
  lemma {:induction false} NatToDecimalShape(n: nat)
    ensures 1 <= |NatToDecimal(n)|
    ensures AllDigits(NatToDecimal(n))
    ensures |NatToDecimal(n)| > 1 ==> NatToDecimal(n)[0] != '0'
    decreases n
  {
    if n >= 10 {
      NatToDecimalShape(n / 10);
      var p := NatToDecimal(n / 10);
      assert NatToDecimal(n) == p + [DigitChar(n % 10)];
      assert NatToDecimal(n)[0] == p[0];
    }
  }

  /** A numeral of `k` digits denotes less than `10^k`. */
  lemma {:induction false} DecimalValueBound(s: string)
    requires AllDigits(s)
    ensures DecimalValue(s) < Pow10(|s|)
  {
    if s != [] {
      DecimalValueBound(s[..|s| - 1]);
    }
  }

  lemma {:induction false} ZerosShape(n: nat)
    ensures |Zeros(n)| == n
    ensures forall k :: 0 <= k < n ==> Zeros(n)[k] == '0'
  {
    if n > 0 {
      ZerosShape(n - 1);
      assert Zeros(n) == "0" + Zeros(n - 1);
    }
  }

  /** Padding reaches the width, keeps the numeral as a suffix and adds only zeros. */
  lemma ZeroPadShape(s: string, width: nat)
    ensures |ZeroPad(s, width)| == if |s| < width then width else |s|
    ensures ZeroPad(s, width)[|ZeroPad(s, width)| - |s|..] == s
    ensures forall k :: 0 <= k < |ZeroPad(s, width)| - |s| ==> ZeroPad(s, width)[k] == '0'
  {
    if |s| < width {
      ZerosShape(width - |s|);
      var z := Zeros(width - |s|);
      assert (z + s)[|z|..] == s;
    }
  }

  lemma Pow10Monotone(i: nat, j: nat)
    requires i <= j
    ensures Pow10(i) <= Pow10(j)
  {
  }

  lemma MulAssoc(x: int, y: int, z: int)
    ensures (x * y) * z == x * (y * z)
  {
  }

  /** Prefixing a numeral with digits appends their value times a power of ten. */
  lemma {:induction false} DecimalValueConcat(a: string, b: string)
    requires AllDigits(a) && AllDigits(b)
    ensures AllDigits(a + b)
    ensures DecimalValue(a + b) == DecimalValue(a) * Pow10(|b|) + DecimalValue(b)
    decreases |b|
  {
    assert AllDigits(a + b) by {
      forall k | 0 <= k < |a + b| ensures IsDigit((a + b)[k]) {
        if k < |a| { assert (a + b)[k] == a[k]; } else { assert (a + b)[k] == b[k - |a|]; }
      }
    }
    if b == [] {
      assert a + b == a;
    } else {
      var b' := b[..|b| - 1];
      assert (a + b)[..|a + b| - 1] == a + b';
      assert (a + b)[|a + b| - 1] == b[|b| - 1];
      DecimalValueConcat(a, b');
      var va, vb', d, p := DecimalValue(a), DecimalValue(b'), DigitValue(b[|b| - 1]), Pow10(|b'|);
      assert DecimalValue(a + b) == (va * p + vb') * 10 + d;
      assert Pow10(|b|) == p * 10;
      assert DecimalValue(b) == vb' * 10 + d;
      MulAssoc(va, p, 10);
    }
  }

  /** `DecimalValue` reads back exactly the number `NatToDecimal` rendered. */
  lemma {:induction false} DecimalRoundTrip(n: nat)
    ensures AllDigits(NatToDecimal(n))
    ensures DecimalValue(NatToDecimal(n)) == n
    decreases n
  {
    NatToDecimalShape(n);
    if n >= 10 {
      NatToDecimalShape(n / 10);
      var p := NatToDecimal(n / 10);
      var r := NatToDecimal(n);
      assert r == p + [DigitChar(n % 10)];
      assert r[..|r| - 1] == p;
      DecimalRoundTrip(n / 10);
    }
  }

  /** Leading zeros do not change the value a numeral denotes. */
  lemma ZeroPadValue(s: string, width: nat)
    requires AllDigits(s)
    ensures AllDigits(ZeroPad(s, width))
    ensures DecimalValue(ZeroPad(s, width)) == DecimalValue(s)
  {
    if |s| < width {
      var z := Zeros(width - |s|);
      ZerosValue(width - |s|);
      DecimalValueConcat(z, s);
      assert DecimalValue(z) == 0;
    }
  }

  lemma {:induction false} ZerosValue(n: nat)
    ensures AllDigits(Zeros(n))
    ensures DecimalValue(Zeros(n)) == 0
  {
    ZerosShape(n);
    if n > 0 {
      ZerosShape(n - 1);
      assert Zeros(n)[..n - 1] == Zeros(n - 1);
      ZerosValue(n - 1);
    }
  }

  /**
   The numeral of `n` fits in `k` characters exactly when `n < 10^k`; so the
   `0<k>d` format of such an `n` is exactly `k` characters wide.
   */
  lemma {:induction false} DecimalLength(n: nat, k: nat)
    requires k >= 1
    ensures |NatToDecimal(n)| <= k <==> n < Pow10(k)
    decreases n
  {
    var r := NatToDecimal(n);
    DecimalRoundTrip(n);
    DecimalValueBound(r);
    if |r| <= k {
      Pow10Monotone(|r|, k);
    }
    if n < Pow10(k) && n >= 10 {
      assert k >= 2;
      DecimalLength(n / 10, k - 1);
      assert |r| == |NatToDecimal(n / 10)| + 1;
    }
  }

  /** Every number the model formats is read back unchanged by `ParseInt`. */
  lemma FormatIntRoundTrip(n: int, width: nat)
    ensures ParseInt(FormatInt(n, width)) == Some(n)
  {
    if n < 0 {
      NegativeRoundTrip(n, width);
    } else {
      FormatIntDigits(n, width);
      var s := FormatInt(n, width);
      NatToDecimalShape(n);
      ZeroPadShape(NatToDecimal(n), width);
      assert s[0] != '-' by { assert IsDigit(s[0]); }
    }
  }

  lemma ParseNegative(body: string)
    requires AllDigits(body) && |body| >= 1
    ensures ParseInt("-" + body) == Some(-(DecimalValue(body) as int))
  {
    var s := "-" + body;
    assert s[1..] == body;
  }

  lemma NegativeRoundTrip(n: int, width: nat)
    requires n < 0
    ensures ParseInt(FormatInt(n, width)) == Some(n)
  {
    var w := if width == 0 then 0 else width - 1;
    var digits := NatToDecimal(-n);
    DecimalRoundTrip(-n);
    ZeroPadValue(digits, w);
    assert |ZeroPad(digits, w)| >= |digits| >= 1 by {
      NatToDecimalShape(-n);
    }
    ParseNegative(ZeroPad(digits, w));
  }

  /** A non-negative number formats to digits only, at least `width` of them, denoting the number. */
  lemma FormatIntDigits(n: nat, width: nat)
    ensures AllDigits(FormatInt(n, width))
    ensures |FormatInt(n, width)| >= width
    ensures DecimalValue(FormatInt(n, width)) == n
  {
    NatToDecimalShape(n);
    ZeroPadShape(NatToDecimal(n), width);
    ZeroPadValue(NatToDecimal(n), width);
    DecimalRoundTrip(n);
  }

  /**
   A non-negative number formats to digits only, at least `width` of them,
   denoting the number: exactly `width` of them when the number is below
   `10^width`, and otherwise no padding at all, so the result is `str(n)`.
   */
  lemma FormatIntNonNegative(n: nat, width: nat)
    ensures AllDigits(FormatInt(n, width))
    ensures |FormatInt(n, width)| >= width
    ensures DecimalValue(FormatInt(n, width)) == n
    ensures n < Pow10(width) && width >= 1 ==> |FormatInt(n, width)| == width
    ensures n >= Pow10(width) ==> FormatInt(n, width) == NatToDecimal(n)
  {
    FormatIntDigits(n, width);
    if width >= 1 {
      DecimalLength(n, width);
    }
  }

  /** A formatted integer holds only digits and a minus sign. */
  lemma FormatIntChars(n: int, width: nat)
    ensures forall k :: 0 <= k < |FormatInt(n, width)| ==>
      IsDigit(FormatInt(n, width)[k]) || FormatInt(n, width)[k] == '-'
  {
    var m := if n < 0 then -n else n;
    var w := if n < 0 then (if width == 0 then 0 else width - 1) else width;
    NatToDecimalShape(m);
    ZeroPadValue(NatToDecimal(m), w);
  }

  /** Quotient and remainder are the only pair with `n == q * d + r` and `0 <= r < d`. */
  lemma DivModUnique(n: int, d: int, q: int, r: int)
    requires d > 0 && n == q * d + r && 0 <= r < d
    ensures n / d == q && n % d == r
  {
    var q', r' := n / d, n % d;
    assert (q - q') * d == r' - r;
    if q > q' {
      MulAtLeast(q - q', d);
    } else if q < q' {
      MulAtLeast(q' - q, d);
    }
  }

  lemma MulAtLeast(k: int, d: int)
    requires k >= 1 && d > 0
    ensures k * d >= d
  {
  }
}
