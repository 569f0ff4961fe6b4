/**
 Hexadecimal numerals, as the `RRGGBB` colour the user types and the
 `&HAABBGGRR` colour literal of the SubStation Alpha (ASS) styles are
 written. Either letter case is accepted, as the ASS readers do.
 */
module Hex {

  predicate IsHexDigit(c: char) {
    '0' <= c <= '9' || 'a' <= c <= 'f' || 'A' <= c <= 'F'
  }

  predicate AllHex(s: string) {
    forall k :: 0 <= k < |s| ==> IsHexDigit(s[k])
  }

  function HexDigitValue(c: char): (v: nat)
    requires IsHexDigit(c)
    ensures v < 16
  {
    if c <= '9' then c as int - '0' as int
    else if c <= 'F' then c as int - 'A' as int + 10
    else c as int - 'a' as int + 10
  }

  function Pow16(k: nat): (p: nat)
    ensures p >= 1
  {
    if k == 0 then 1 else 16 * Pow16(k - 1)
  }

  /** The number a hexadecimal numeral denotes, most significant digit first. */
  function HexValue(s: string): nat
    requires AllHex(s)
  {
    if s == [] then 0 else HexValue(s[..|s| - 1]) * 16 + HexDigitValue(s[|s| - 1])
  }

  /** A numeral of `k` hexadecimal digits denotes less than `16^k`. */
  lemma {:induction false} HexValueBound(s: string)
    requires AllHex(s)
    ensures HexValue(s) < Pow16(|s|)
  {
    if s != [] {
      HexValueBound(s[..|s| - 1]);
    }
  }

  lemma ShiftDigit(va: int, p: int, vb: int, d: int)
    ensures (va * p + vb) * 16 + d == va * (p * 16) + (vb * 16 + d)
  {
  }

  /** Prefixing a numeral with digits adds their value times a power of sixteen. */
  lemma {:induction false} HexValueConcat(a: string, b: string)
    requires AllHex(a) && AllHex(b)
    ensures AllHex(a + b)
    ensures HexValue(a + b) == HexValue(a) * Pow16(|b|) + HexValue(b)
    decreases |b|
  {
    assert AllHex(a + b) by {
      forall k | 0 <= k < |a + b| ensures IsHexDigit((a + b)[k]) {
        if k < |a| { assert (a + b)[k] == a[k]; } else { assert (a + b)[k] == b[k - |a|]; }
      }
    }
    if b == [] {
      assert a + b == a;
    } else {
      var b' := b[..|b| - 1];
      assert (a + b)[..|a + b| - 1] == a + b';
      assert (a + b)[|a + b| - 1] == b[|b| - 1];
      HexValueConcat(a, b');
      ShiftDigit(HexValue(a), Pow16(|b'|), HexValue(b'), HexDigitValue(b[|b| - 1]));
    }
  }

  /** Leading zeros do not change the value. */
  lemma LeadingZeros(s: string)
    requires AllHex(s)
    ensures AllHex("00" + s) && HexValue("00" + s) == HexValue(s)
  {
    assert HexValue("00") == 0 by {
      assert "00"[..1] == "0";
    }
    HexValueConcat("00", s);
  }
}
