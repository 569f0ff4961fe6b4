/**
 A worked example of `write_srt`: a blank segment followed by a padded
 one. The blank segment gets no block but uses up number 1, so the only
 cue is number 2, with its text stripped.
 */
module SubRipExample {

  import opened Decimal
  import opened Text
  import opened SubRipTime
  import opened SubRip

  lemma StripExamples()
    ensures Strip("   ") == []
    ensures Strip("  hello  ") == "hello"
  {
    AllSpaceStrip("   ");
    var s := "  hello  ";
    NonEmptyCore(s, 2, 7);
    assert s[2..7] == "hello";
  }

  lemma SmallFormats()
    ensures FormatInt(0, 2) == "00" && FormatInt(0, 3) == "000"
    ensures FormatInt(1, 2) == "01" && FormatInt(2, 2) == "02"
  {
    assert NatToDecimal(0) == "0" && NatToDecimal(1) == "1" && NatToDecimal(2) == "2";
    assert Zeros(1) == "0" && Zeros(2) == "00";
  }

  lemma ClockOfOne()
    ensures FormatClock(Clock(0, 0, 1, 0)) == "00:00:01,000"
  {
    SmallFormats();
    var t := "00" + ":" + "00" + ":" + "01" + "," + "000";
    assert t == "00:00:01,000";
  }

  lemma ClockOfTwoAndAHalf()
    ensures FormatClock(Clock(0, 0, 2, 500)) == "00:00:02,500"
  {
    assert NatToDecimal(0) == "0" && NatToDecimal(2) == "2";
    assert NatToDecimal(500) == "500" by {
      assert NatToDecimal(5) == "5";
      assert NatToDecimal(50) == "50";
    }
    SmallFormats();
    assert FormatInt(500, 3) == "500";
    var t := "00" + ":" + "00" + ":" + "02" + "," + "500";
    assert t == "00:00:02,500";
  }

  /** `fmt(1.0) == "00:00:01,000"` and `fmt(2.5) == "00:00:02,500"`. */
  lemma TimeExamples()
    ensures FormatTime(1.0) == "00:00:01,000"
    ensures FormatTime(2.5) == "00:00:02,500"
  {
    HoursAndRemainder(1.0);
    MinutesField(1.0);
    SecondsField(1.0);
    MillisField(1.0);
    assert TimeFields(1.0) == Clock(0, 0, 1, 0);
    ClockOfOne();
    HoursAndRemainder(2.5);
    MinutesField(2.5);
    SecondsField(2.5);
    MillisField(2.5);
    assert TimeFields(2.5) == Clock(0, 0, 2, 500);
    ClockOfTwoAndAHalf();
  }

  /** The blank first segment gives no cue; the second is cue number 2. */
  lemma TrackExample()
    ensures CueTrack([Segment(0.0, 0.5, "   "), Segment(1.0, 2.5, "  hello  ")])
      == [Cue(2, 1.0, 2.5, "hello")]
  {
    var blank, hello := Segment(0.0, 0.5, "   "), Segment(1.0, 2.5, "  hello  ");
    StripExamples();
    assert [blank] == [] + [blank];
    CueTrackStep([], blank);
    assert [blank, hello] == [blank] + [hello];
    CueTrackStep([blank], hello);
  }

  lemma RangeExample()
    ensures TimeRange(Cue(2, 1.0, 2.5, "hello")) == "00:00:01,000" + " --> " + "00:00:02,500"
  {
    TimeExamples();
  }

  lemma BlockExample()
    ensures Block(Cue(2, 1.0, 2.5, "hello"))
      == "2" + "\n" + ("00:00:01,000" + " --> " + "00:00:02,500") + "\n" + "hello" + "\n\n"
  {
    RangeExample();
    assert NatToDecimal(2) == "2";
  }

  /**
   The file `write_srt` writes for a blank segment followed by
   `"  hello  "` from 1.0 to 2.5 seconds.
   */
  lemma WriteSrtExample()
    ensures Render(CueTrack([Segment(0.0, 0.5, "   "), Segment(1.0, 2.5, "  hello  ")]))
      == "2" + "\n" + ("00:00:01,000" + " --> " + "00:00:02,500") + "\n" + "hello" + "\n\n"
  {
    var c := Cue(2, 1.0, 2.5, "hello");
    TrackExample();
    RenderSnoc([], c);
    assert [] + [c] == [c];
    BlockExample();
  }

  /** With the blank segment last instead, the only cue is number 1. */
  lemma TrackExampleBlankLast()
    ensures CueTrack([Segment(1.0, 2.5, "  hello  "), Segment(3.0, 3.5, "   ")])
      == [Cue(1, 1.0, 2.5, "hello")]
  {
    var hello, blank := Segment(1.0, 2.5, "  hello  "), Segment(3.0, 3.5, "   ");
    StripExamples();
    assert [hello] == [] + [hello];
    CueTrackStep([], hello);
    assert [hello, blank] == [hello] + [blank];
    CueTrackStep([hello], blank);
  }
}
