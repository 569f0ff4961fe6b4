/**
 The SubRip writer `write_srt`: one numbered cue block per segment whose
 stripped text is not empty. The number of a cue is its segment's 1-based
 position among ALL segments, so a blank segment is skipped but still uses
 up its number. The result is the string handed to `f.write`; newline
 translation and encoding happen in the file. The speech engine's times
 are non-negative seconds.
 */
module SubRip {

  import opened Decimal
  import opened Text
  import opened SubRipTime

  /** A time in seconds from the start of the media; the speech engine never produces negative ones. */
  type Seconds = s: real | s >= 0.0

  /** One timed span of recognised speech, as the speech engine returns it. */
  datatype Segment = Segment(start: Seconds, end: Seconds, text: string)

  /** One cue of the subtitle file: its number, its time range and its (stripped) text. */
  datatype Cue = Cue(index: nat, start: Seconds, end: Seconds, text: string)

  /** A segment whose text strips to nothing produces no cue. */
  predicate IsBlank(seg: Segment) {
    Strip(seg.text) == []
  }

  function CueOf(seg: Segment, index: nat): Cue {
    Cue(index, seg.start, seg.end, Strip(seg.text))
  }

  /** How many segments carry text. */
  function NonBlankCount(segments: seq<Segment>): (n: nat)
    ensures n <= |segments|
  {
    if segments == [] then 0
    else NonBlankCount(segments[..|segments| - 1]) + (if IsBlank(segments[|segments| - 1]) then 0 else 1)
  }

  /**
   The cues `write_srt` emits, in input order: one per non-blank segment,
   numbered by the segment's position in the whole input, times copied
   unchanged (neither sorted nor checked), text stripped.
   */
  function CueTrack(segments: seq<Segment>): seq<Cue> {
    if segments == [] then []
    else
      var last := segments[|segments| - 1];
      var prefix := CueTrack(segments[..|segments| - 1]);
      if IsBlank(last) then prefix else prefix + [CueOf(last, |segments|)]
  }

  /** Appending a segment appends its cue, unless it is blank. */
  lemma {:induction false} CueTrackStep(segments: seq<Segment>, seg: Segment)
    ensures CueTrack(segments + [seg]) ==
      CueTrack(segments) + (if IsBlank(seg) then [] else [CueOf(seg, |segments| + 1)])
  {
    assert (segments + [seg])[..|segments|] == segments;
  }

  /** There is one cue per non-blank segment. */
  lemma {:induction false} CueTrackLength(segments: seq<Segment>)
    ensures |CueTrack(segments)| == NonBlankCount(segments)
  {
    if segments != [] {
      CueTrackLength(segments[..|segments| - 1]);
    }
  }

  /**
   Each cue carries the number of a non-blank segment, and that segment's
   times and stripped text.
   */
  lemma {:induction false} CueTrackSources(segments: seq<Segment>)
    ensures forall k :: 0 <= k < |CueTrack(segments)| ==>
      && 1 <= CueTrack(segments)[k].index <= |segments|
      && !IsBlank(segments[CueTrack(segments)[k].index - 1])
      && CueTrack(segments)[k] == CueOf(segments[CueTrack(segments)[k].index - 1], CueTrack(segments)[k].index)
  {
    if segments != [] {
      var init := segments[..|segments| - 1];
      CueTrackSources(init);
      var prefix := CueTrack(init);
      assert forall k :: 0 <= k < |prefix| ==> segments[prefix[k].index - 1] == init[prefix[k].index - 1];
    }
  }

  /** Cue numbers strictly increase through the file. */
  lemma {:induction false} CueTrackIncreasing(segments: seq<Segment>)
    ensures forall k, l :: 0 <= k < l < |CueTrack(segments)| ==> CueTrack(segments)[k].index < CueTrack(segments)[l].index
  {
    if segments != [] {
      var init := segments[..|segments| - 1];
      CueTrackIncreasing(init);
      CueTrackSources(init);
    }
  }

  /** The time line of a cue: `fmt(start) --> fmt(end)`. */
  function TimeRange(c: Cue): string {
    FormatTime(c.start) + " --> " + FormatTime(c.end)
  }

  /** The text `write_srt` writes for one cue: number, time line, text and a blank line. */
  function Block(c: Cue): string {
    NatToDecimal(c.index) + "\n" + TimeRange(c) + "\n" + c.text + "\n\n"
  }

  /** The blocks of a cue track, in order. */
  function Render(cues: seq<Cue>): string {
    if cues == [] then "" else Render(cues[..|cues| - 1]) + Block(cues[|cues| - 1])
  }

  /**
   `write_srt`: walks the segments with their 1-based numbers and writes a
   block for each one whose stripped text is not empty; the result is the
   text of the file.
   */
  method WriteSrt(segments: seq<Segment>) returns (srt: string)
    ensures srt == Render(CueTrack(segments))
  {
    srt := "";
    var i := 0;
    while i < |segments|
      invariant 0 <= i <= |segments|
      invariant srt == Render(CueTrack(segments[..i]))
    {
      var seg := segments[i];
      var text := Strip(seg.text);
      assert segments[..i + 1] == segments[..i] + [seg];
      CueTrackStep(segments[..i], seg);
      if text != [] {
        RenderSnoc(CueTrack(segments[..i]), CueOf(seg, i + 1));
        srt := srt + Block(Cue(i + 1, seg.start, seg.end, text));
      }
      i := i + 1;
    }
    assert segments[..i] == segments;
  }

  /** The file is empty exactly when every segment's text is blank, so also for no segments. */
  lemma {:induction false} EmptyFile(segments: seq<Segment>)
    ensures Render(CueTrack(segments)) == [] <==> forall j :: 0 <= j < |segments| ==> IsBlank(segments[j])
  {
    RenderEmpty(CueTrack(segments));
    CueTrackLength(segments);
    NoCuesMeansAllBlank(segments);
  }

  /** Every block is non-empty, so the file is empty exactly when there are no cues. */
  lemma {:induction false} RenderEmpty(cues: seq<Cue>)
    ensures Render(cues) == [] <==> cues == []
  {
    if cues != [] {
      assert |Block(cues[|cues| - 1])| > 0;
    }
  }

  /** One more cue adds its block at the end. */
  lemma {:induction false} RenderSnoc(cues: seq<Cue>, c: Cue)
    ensures Render(cues + [c]) == Render(cues) + Block(c)
  {
    assert (cues + [c])[..|cues|] == cues;
  }

  /** No segment carries text exactly when none is counted. */
  lemma {:induction false} NoCuesMeansAllBlank(segments: seq<Segment>)
    ensures NonBlankCount(segments) == 0 <==> forall j :: 0 <= j < |segments| ==> IsBlank(segments[j])
  {
    if segments != [] {
      var init := segments[..|segments| - 1];
      NoCuesMeansAllBlank(init);
      assert forall j :: 0 <= j < |init| ==> init[j] == segments[j];
    }
  }

  /**
   Every non-blank segment gets a cue: the one at the position that counts
   the non-blank segments before it, numbered with the segment's own
   1-based position.
   */
  lemma {:induction false} CueTrackComplete(segments: seq<Segment>, j: nat)
    requires j < |segments| && !IsBlank(segments[j])
    ensures NonBlankCount(segments[..j]) < |CueTrack(segments)|
    ensures CueTrack(segments)[NonBlankCount(segments[..j])] == CueOf(segments[j], j + 1)
    decreases |segments|
  {
    var init := segments[..|segments| - 1];
    CueTrackLength(init);
    if j == |segments| - 1 {
      assert segments[..j] == init;
    } else {
      assert init[..j] == segments[..j];
      assert init[j] == segments[j];
      CueTrackComplete(init, j);
    }
  }

  /** A segment has a cue numbered with its position exactly when its text is not blank. */
  lemma CueNumbers(segments: seq<Segment>, j: nat)
    requires j < |segments|
    ensures !IsBlank(segments[j]) <==>
      exists k :: 0 <= k < |CueTrack(segments)| && CueTrack(segments)[k].index == j + 1
  {
    if !IsBlank(segments[j]) {
      CueTrackComplete(segments, j);
      var k := NonBlankCount(segments[..j]);
      assert CueTrack(segments)[k].index == j + 1;
    } else {
      CueTrackSources(segments);
    }
  }
}
