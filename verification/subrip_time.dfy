/**
 The timestamp half of the SubRip writer: the inner `fmt` of `write_srt`,
 which splits a seconds value into hours, minutes, seconds and
 milliseconds with Python's `int`, `//` and `%`, and prints them as
 `HH:MM:SS,mmm`. Seconds are exact non-negative reals, the values the
 speech engine produces.
 */
module SubRipTime {

  import opened Options
  import opened Decimal

  /** Python's `x // d` on floats for a positive divisor: the floor of the quotient. */
  function FloorDiv(x: real, d: real): real
    requires d > 0.0
  {
    (x / d).Floor as real
  }

  /** Python's `x % d` on floats for a positive divisor: the remainder takes the divisor's sign. */
  function FloorMod(x: real, d: real): real
    requires d > 0.0
  {
    x - d * FloorDiv(x, d)
  }

  /** Python's `int(x)` on a non-negative float: its whole part. */
  function IntOf(x: real): int
    requires x >= 0.0
  {
    x.Floor
  }

  /** The four integers `fmt` prints. */
  datatype Clock = Clock(hh: int, mm: int, ss: int, ms: int)

  /** The fields `fmt` computes from a non-negative seconds value. */
  function TimeFields(s: real): Clock
    requires s >= 0.0
  {
    Clock(
      hh := IntOf(FloorDiv(s, 3600.0)),
      mm := IntOf(FloorDiv(FloorMod(s, 3600.0), 60.0)),
      ss := IntOf(FloorMod(s, 60.0)),
      ms := IntOf((s - IntOf(s) as real) * 1000.0))
  }

  /** `f"{hh:02d}:{mm:02d}:{ss:02d},{ms:03d}"`. */
  function FormatClock(c: Clock): string {
    FormatInt(c.hh, 2) + ":" + FormatInt(c.mm, 2) + ":" + FormatInt(c.ss, 2) + "," + FormatInt(c.ms, 3)
  }

  /** `fmt(s)`. */
  function FormatTime(s: real): string
    requires s >= 0.0
  {
    FormatClock(TimeFields(s))
  }

  /** The whole seconds a clock shows. */
  function WholeSeconds(c: Clock): int {
    c.hh * 3600 + c.mm * 60 + c.ss
  }

  /** Whether a clock is the canonical reading of a duration. */
  predicate InRange(c: Clock) {
    && 0 <= c.hh
    && 0 <= c.mm <= 59
    && 0 <= c.ss <= 59
    && 0 <= c.ms <= 999
  }

  /**
   Reads `H..H:MM:SS,mmm` back: at least two hour digits, then exactly two
   minute digits, two second digits and three millisecond digits.
   */
  function ParseTime(t: string): Option<Clock> {
    if |t| < 12 then None
    else
      var hours, rest := t[..|t| - 10], t[|t| - 10..];
      if rest[0] == ':' && rest[3] == ':' && rest[6] == ','
         && AllDigits(hours) && AllDigits(rest[1..3]) && AllDigits(rest[4..6]) && AllDigits(rest[7..])
      then Some(Clock(DecimalValue(hours), DecimalValue(rest[1..3]), DecimalValue(rest[4..6]), DecimalValue(rest[7..])))
      else None
  }

  lemma FloorOfShifted(k: int, f: real)
    requires 0.0 <= f < 1.0
    ensures (k as real + f).Floor == k
  {
  }

  /** For a non-negative `x`, flooring `x / d` only depends on the whole part of `x`. */
  lemma FloorDivNonNegative(x: real, d: nat)
    requires x >= 0.0 && d > 0
    ensures (x / d as real).Floor == x.Floor / d
  {
    var n := x.Floor;
    var q, r := n / d, n % d;
    var dr := d as real;
    assert n == q * d + r;
    assert (q * d) as real == q as real * dr;
    assert q as real * dr <= x;
    assert x < (q as real + 1.0) * dr by {
      assert x < n as real + 1.0;
      assert n + 1 <= q * d + d;
      assert ((q + 1) * d) as real == (q as real + 1.0) * dr;
    }
    QuotientBounds(x, dr, q as real);
  }

  lemma QuotientBounds(x: real, d: real, q: real)
    requires d > 0.0 && q * d <= x < (q + 1.0) * d
    ensures q <= x / d < q + 1.0
  {
    assert x / d - q == (x - q * d) / d;
    var p := q + 1.0;
    assert p - x / d == (p * d - x) / d;
  }

  /** The hours field and the remainder Python's `%` leaves behind, for `s >= 0`. */
  lemma HoursAndRemainder(s: real)
    requires s >= 0.0
    ensures TimeFields(s).hh == s.Floor / 3600
    ensures FloorMod(s, 3600.0) == (s.Floor % 3600) as real + (s - s.Floor as real)
  {
    FloorDivNonNegative(s, 3600);
  }

  lemma MinutesField(s: real)
    requires s >= 0.0
    ensures TimeFields(s).mm == (s.Floor % 3600) / 60
  {
    HoursAndRemainder(s);
    var m := FloorMod(s, 3600.0);
    FloorOfShifted(s.Floor % 3600, s - s.Floor as real);
    FloorDivNonNegative(m, 60);
  }

  lemma SecondsField(s: real)
    requires s >= 0.0
    ensures TimeFields(s).ss == s.Floor % 60
  {
    FloorDivNonNegative(s, 60);
    FloorOfShifted(s.Floor % 60, s - s.Floor as real);
  }

  lemma MillisField(s: real)
    requires s >= 0.0
    ensures TimeFields(s).ms == ((s - s.Floor as real) * 1000.0).Floor
    ensures 0 <= TimeFields(s).ms <= 999
  {
  }

  /** Hours, minutes and seconds of `n` recombine to `n`. */
  lemma HmsRecombine(n: nat)
    ensures (n / 3600) * 3600 + ((n % 3600) / 60) * 60 + n % 60 == n
  {
    var q, r := n / 3600, n % 3600;
    var a, b := r / 60, r % 60;
    assert n == (60 * q + a) * 60 + b;
    DivModUnique(n, 60, 60 * q + a, b);
  }

  /**
   For `s >= 0` the clock `fmt` prints is canonical (minutes and seconds
   below 60, milliseconds below 1000) and shows `s` truncated, never
   rounded, to the millisecond: no carry ever moves into a higher field.
   */
  lemma TimeFieldsTruncate(s: real)
    requires s >= 0.0
    ensures InRange(TimeFields(s))
    ensures WholeSeconds(TimeFields(s)) == s.Floor
    ensures var c := TimeFields(s);
      WholeSeconds(c) as real + c.ms as real / 1000.0 <= s < WholeSeconds(c) as real + (c.ms + 1) as real / 1000.0
  {
    HoursAndRemainder(s);
    MinutesField(s);
    SecondsField(s);
    MillisField(s);
    HmsRecombine(s.Floor);
  }

  lemma JoinedChars(h: string, m: string, sec: string, ms: string)
    requires AllDigits(h) && AllDigits(m) && AllDigits(sec) && AllDigits(ms)
    requires |m| == 2 && |sec| == 2 && |ms| == 3
    ensures var t := h + ":" + m + ":" + sec + "," + ms;
      forall k :: 0 <= k < |t| ==> IsDigit(t[k]) || t[k] in ":,"
  {
    var rest := ":" + m + ":" + sec + "," + ms;
    assert h + ":" + m + ":" + sec + "," + ms == h + rest;
    assert rest == [':', m[0], m[1], ':', sec[0], sec[1], ',', ms[0], ms[1], ms[2]];
    var t := h + rest;
    forall k | 0 <= k < |t| ensures IsDigit(t[k]) || t[k] in ":," {
      if k < |h| { assert t[k] == h[k]; } else { assert t[k] == rest[k - |h|]; }
    }
  }

  /** `fmt` only ever prints digits and the two separators. */
  lemma FormatTimeChars(s: real)
    requires s >= 0.0
    ensures forall k :: 0 <= k < |FormatTime(s)| ==>
      IsDigit(FormatTime(s)[k]) || FormatTime(s)[k] in ":,"
  {
    var c := TimeFields(s);
    FormatTimePieces(s);
    JoinedChars(FormatInt(c.hh, 2), FormatInt(c.mm, 2), FormatInt(c.ss, 2), FormatInt(c.ms, 3));
  }

  /** For `s >= 0` the pieces `fmt` joins: hours of two or more digits, then fixed-width fields. */
  lemma FormatTimePieces(s: real)
    requires s >= 0.0
    ensures var c := TimeFields(s);
      && AllDigits(FormatInt(c.hh, 2)) && |FormatInt(c.hh, 2)| >= 2
      && DecimalValue(FormatInt(c.hh, 2)) == c.hh
      && (|FormatInt(c.hh, 2)| == 2 <==> c.hh < 100)
      && (c.hh >= 100 ==> FormatInt(c.hh, 2) == NatToDecimal(c.hh))
      && AllDigits(FormatInt(c.mm, 2)) && |FormatInt(c.mm, 2)| == 2 && DecimalValue(FormatInt(c.mm, 2)) == c.mm
      && AllDigits(FormatInt(c.ss, 2)) && |FormatInt(c.ss, 2)| == 2 && DecimalValue(FormatInt(c.ss, 2)) == c.ss
      && AllDigits(FormatInt(c.ms, 3)) && |FormatInt(c.ms, 3)| == 3 && DecimalValue(FormatInt(c.ms, 3)) == c.ms
  {
    var c := TimeFields(s);
    TimeFieldsTruncate(s);
    assert Pow10(2) == 100 && Pow10(3) == 1000;
    FormatIntNonNegative(c.hh, 2);
    FormatIntNonNegative(c.mm, 2);
    FormatIntNonNegative(c.ss, 2);
    FormatIntNonNegative(c.ms, 3);
    DecimalLength(c.hh, 2);
  }

  /** Any hours numeral joined with fixed-width fields reads back field by field. */
  lemma ParseTimeSplit(h: string, rest: string)
    requires AllDigits(h) && |h| >= 2 && |rest| == 10
    requires rest[0] == ':' && rest[3] == ':' && rest[6] == ','
    requires AllDigits(rest[1..3]) && AllDigits(rest[4..6]) && AllDigits(rest[7..])
    ensures ParseTime(h + rest)
      == Some(Clock(DecimalValue(h), DecimalValue(rest[1..3]), DecimalValue(rest[4..6]), DecimalValue(rest[7..])))
  {
    var t := h + rest;
    assert t[..|t| - 10] == h;
    assert t[|t| - 10..] == rest;
  }

  lemma ParseTimeJoined(h: string, m: string, sec: string, ms: string)
    requires AllDigits(h) && AllDigits(m) && AllDigits(sec) && AllDigits(ms)
    requires |h| >= 2 && |m| == 2 && |sec| == 2 && |ms| == 3
    ensures ParseTime(h + ":" + m + ":" + sec + "," + ms)
      == Some(Clock(DecimalValue(h), DecimalValue(m), DecimalValue(sec), DecimalValue(ms)))
  {
    var rest := ":" + m + ":" + sec + "," + ms;
    assert h + ":" + m + ":" + sec + "," + ms == h + rest;
    assert m == [m[0], m[1]] && sec == [sec[0], sec[1]] && ms == [ms[0], ms[1], ms[2]];
    assert rest == [':', m[0], m[1], ':', sec[0], sec[1], ',', ms[0], ms[1], ms[2]];
    assert rest[1..3] == m && rest[4..6] == sec && rest[7..] == ms;
    ParseTimeSplit(h, rest);
  }

  /**
   For `s >= 0` the text `fmt` prints reads back to exactly the clock it
   was printed from.
   */
  lemma FormatTimeRoundTrip(s: real)
    requires s >= 0.0
    ensures ParseTime(FormatTime(s)) == Some(TimeFields(s))
  {
    var c := TimeFields(s);
    FormatTimePieces(s);
    ParseTimeJoined(FormatInt(c.hh, 2), FormatInt(c.mm, 2), FormatInt(c.ss, 2), FormatInt(c.ms, 3));
  }

  /**
   For `s >= 0`, `fmt` prints at least 12 characters, and exactly 12 (the
   `HH:MM:SS,mmm` of the SubRip format) below 100 hours; from 100 hours on,
   the hour field widens instead of wrapping.
   */
  lemma FormatTimeLength(s: real)
    requires s >= 0.0
    ensures |FormatTime(s)| >= 12
    ensures |FormatTime(s)| == 12 <==> s < 360000.0
  {
    FormatTimePieces(s);
    HoursAndRemainder(s);
  }

  lemma FieldsOfExample()
    ensures TimeFields(3661.25) == Clock(1, 1, 1, 250)
  {
    HoursAndRemainder(3661.25);
    MinutesField(3661.25);
    SecondsField(3661.25);
    MillisField(3661.25);
  }

  lemma ClockOfZero()
    ensures FormatClock(Clock(0, 0, 0, 0)) == "00:00:00,000"
  {
    assert NatToDecimal(0) == "0";
    assert FormatInt(0, 2) == "00" && FormatInt(0, 3) == "000";
    var t := "00" + ":" + "00" + ":" + "00" + "," + "000";
    assert t == "00:00:00,000";
  }

  lemma ClockOfExample()
    ensures FormatClock(Clock(1, 1, 1, 250)) == "01:01:01,250"
  {
    assert NatToDecimal(1) == "1";
    assert NatToDecimal(250) == "250" by {
      assert NatToDecimal(2) == "2";
      assert NatToDecimal(25) == "25";
    }
    assert FormatInt(1, 2) == "01" && FormatInt(250, 3) == "250";
    var t := "01" + ":" + "01" + ":" + "01" + "," + "250";
    assert t == "01:01:01,250";
  }

  /** `fmt(0) == "00:00:00,000"`. */
  lemma FormatTimeZero()
    ensures FormatTime(0.0) == "00:00:00,000"
  {
    assert TimeFields(0.0) == Clock(0, 0, 0, 0);
    ClockOfZero();
  }

  /** `fmt(3661.25) == "01:01:01,250"`: one hour, one minute, one second and a quarter. */
  lemma FormatTimeExample()
    ensures FormatTime(3661.25) == "01:01:01,250"
  {
    FieldsOfExample();
    ClockOfExample();
  }
}
