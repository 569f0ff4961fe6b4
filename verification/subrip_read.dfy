/**
 Reading a cue block back: the number line, the `start --> end` line and
 the text that follows. It inverts `SubRip.Block`: a block
 `write_srt` writes reads back to the cue's number, the clocks `fmt`
 printed for its times, and its text followed by the blank line.
 */
module SubRipRead {

  import opened Options
  import opened Decimal
  import opened Text
  import opened SubRipTime
  import opened SubRip

  /** What the first two lines of a cue block say. */
  datatype Header = Header(index: nat, start: Clock, end: Clock)

  /** Reads the time line `start --> end`. */
  function ReadTimeRange(line: string): Option<(Clock, Clock)> {
    var words := SplitOn(line, ' ');
    if |words| != 3 || words[1] != "-->" then None
    else match (ParseTime(words[0]), ParseTime(words[2]))
      case (Some(a), Some(b)) => Some((a, b))
      case _ => None
  }

  /**
   Reads a cue block: a decimal number line, a time line, and whatever
   text follows them (returned with its line breaks).
   */
  function ReadBlock(block: string): Option<(Header, string)> {
    var lines := SplitOn(block, '\n');
    if |lines| < 3 || lines[0] == [] || !AllDigits(lines[0]) then None
    else match ReadTimeRange(lines[1])
      case Some((a, b)) => Some((Header(DecimalValue(lines[0]), a, b), Join(lines[2..], '\n')))
      case None => None
  }

  lemma NoSpaceInTime(s: Seconds)
    ensures ' ' !in FormatTime(s) && '\n' !in FormatTime(s)
  {
    FormatTimeChars(s);
  }

  /** Two words without spaces around ` --> ` split back into the three words. */
  lemma RangeWords(a: string, b: string)
    requires ' ' !in a && ' ' !in b
    ensures SplitOn(a + " --> " + b, ' ') == [a, "-->", b]
  {
    assert a + " --> " + b == a + [' '] + ("-->" + [' '] + b);
    SplitAfterField(a, ' ', "-->" + [' '] + b);
    assert ' ' !in "-->";
    SplitAfterField("-->", ' ', b);
    SplitWithoutSep(b, ' ');
  }

  /** A time line built from two printed clocks reads back to those clocks. */
  lemma ReadTimeRangeOf(a: string, b: string, ca: Clock, cb: Clock)
    requires ' ' !in a && ' ' !in b
    requires ParseTime(a) == Some(ca) && ParseTime(b) == Some(cb)
    ensures ReadTimeRange(a + " --> " + b) == Some((ca, cb))
    ensures '\n' !in a && '\n' !in b ==> '\n' !in a + " --> " + b
  {
    RangeWords(a, b);
  }

  /** The time line of a cue reads back to the clocks of its start and end. */
  lemma TimeRangeRoundTrip(c: Cue)
    ensures ReadTimeRange(TimeRange(c)) == Some((TimeFields(c.start), TimeFields(c.end)))
    ensures '\n' !in TimeRange(c)
  {
    NoSpaceInTime(c.start);
    NoSpaceInTime(c.end);
    FormatTimeRoundTrip(c.start);
    FormatTimeRoundTrip(c.end);
    ReadTimeRangeOf(FormatTime(c.start), FormatTime(c.end), TimeFields(c.start), TimeFields(c.end));
  }

  /** Two lines without line breaks, then a tail, split into the two lines and the tail's lines. */
  lemma BlockLines(num: string, range: string, tail: string)
    requires '\n' !in num && '\n' !in range
    ensures SplitOn(num + "\n" + range + "\n" + tail, '\n') == [num, range] + SplitOn(tail, '\n')
  {
    assert num + "\n" + range + "\n" + tail == num + ['\n'] + (range + ['\n'] + tail);
    SplitAfterField(num, '\n', range + ['\n'] + tail);
    SplitAfterField(range, '\n', tail);
  }

  /** A number line, a readable time line and a tail read back to the header and the tail. */
  lemma ReadBlockOf(num: string, range: string, text: string, h: Header)
    requires num != [] && AllDigits(num) && DecimalValue(num) == h.index
    requires '\n' !in range && ReadTimeRange(range) == Some((h.start, h.end))
    ensures ReadBlock(num + "\n" + range + "\n" + text + "\n\n") == Some((h, text + "\n\n"))
  {
    var tail := text + "\n\n";
    assert num + "\n" + range + "\n" + text + "\n\n" == num + "\n" + range + "\n" + tail;
    BlockLines(num, range, tail);
    var lines := SplitOn(num + "\n" + range + "\n" + tail, '\n');
    assert lines[2..] == SplitOn(tail, '\n');
    SplitJoin(tail, '\n');
  }

  /**
   A block `write_srt` writes reads back to its cue: the number, the two
   printed clocks, and the cue text followed by the blank line.
   */
  lemma BlockRoundTrip(c: Cue)
    ensures ReadBlock(Block(c)) ==
      Some((Header(c.index, TimeFields(c.start), TimeFields(c.end)), c.text + "\n\n"))
  {
    NatToDecimalShape(c.index);
    DecimalRoundTrip(c.index);
    TimeRangeRoundTrip(c);
    ReadBlockOf(NatToDecimal(c.index), TimeRange(c), c.text,
      Header(c.index, TimeFields(c.start), TimeFields(c.end)));
  }
}
