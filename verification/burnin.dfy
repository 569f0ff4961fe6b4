/**
 The pure part of `burn_subs_with_ffmpeg`: the ASS style override built
 from the font size, the `RRGGBB` colour and the position; the escaping of
 the subtitle path for ffmpeg's `subtitles` filter; and the argument vector
 handed to ffmpeg. Running ffmpeg is not modelled: the model ends at the
 argument vector, and readers for the pieces of that vector state what a
 consumer gets back from them.
 */
module BurnIn {

  import opened Options
  import opened Decimal
  import opened Hex
  import opened Text

  // ---------------------------------------------------------------------
  // Colour

  /** Python's `s[lo:hi]` for non-negative bounds: bounds past the end are clamped, never an error. */
  function PySlice(s: string, lo: nat, hi: nat): string {
    if hi <= lo || |s| <= lo then [] else s[lo..if hi < |s| then hi else |s|]
  }

  /** `font_color[4:6] + font_color[2:4] + font_color[0:2]`: the pairs of `RRGGBB` in `BBGGRR` order. */
  function Bgr(colour: string): string {
    PySlice(colour, 4, 6) + PySlice(colour, 2, 4) + PySlice(colour, 0, 2)
  }

  /** A slice holds the characters from `lo` up to `hi` or the end, whichever comes first. */
  lemma PySliceShape(s: string, lo: nat, hi: nat)
    ensures var end := if hi < |s| then hi else |s|;
      |PySlice(s, lo, hi)| == (if end <= lo then 0 else end - lo)
    ensures forall k :: 0 <= k < |PySlice(s, lo, hi)| ==> PySlice(s, lo, hi)[k] == s[lo + k]
  {
  }

  /**
   The colour text is never checked: at most its first six characters are
   used, a shorter text keeps its length, and for exactly six the pairs are
   reversed.
   */
  lemma BgrShape(colour: string)
    ensures |Bgr(colour)| == if |colour| < 6 then |colour| else 6
    ensures |colour| > 6 ==> Bgr(colour) == Bgr(colour[..6])
    ensures |colour| == 6 ==>
      Bgr(colour) == [colour[4], colour[5], colour[2], colour[3], colour[0], colour[1]]
  {
    PySliceShape(colour, 4, 6);
    PySliceShape(colour, 2, 4);
    PySliceShape(colour, 0, 2);
    if |colour| > 6 {
      var six := colour[..6];
      PySliceShape(six, 4, 6);
      PySliceShape(six, 2, 4);
      PySliceShape(six, 0, 2);
      assert PySlice(colour, 4, 6) == PySlice(six, 4, 6);
      assert PySlice(colour, 2, 4) == PySlice(six, 2, 4);
      assert PySlice(colour, 0, 2) == PySlice(six, 0, 2);
    }
  }

  /** Every character of the reordered colour comes from the colour text. */
  lemma BgrFrom(colour: string)
    ensures forall x :: x in Bgr(colour) ==> x in colour
  {
    PySliceShape(colour, 4, 6);
    PySliceShape(colour, 2, 4);
    PySliceShape(colour, 0, 2);
    var a, b, c := PySlice(colour, 4, 6), PySlice(colour, 2, 4), PySlice(colour, 0, 2);
    forall x | x in Bgr(colour) ensures x in colour {
      var k :| 0 <= k < |Bgr(colour)| && Bgr(colour)[k] == x;
      if k < |a| {
        assert x == colour[4 + k];
      } else if k < |a| + |b| {
        assert x == colour[2 + (k - |a|)];
      } else {
        assert x == colour[k - |a| - |b|];
      }
    }
  }

  /** The part of the colour text the reorder reads: its first six characters, or all of a shorter text. */
  function ColourUsed(colour: string): string {
    PySlice(colour, 0, 6)
  }

  /** The reorder depends only on the part of the colour text it reads, and takes its characters from there. */
  lemma BgrUsed(colour: string)
    ensures Bgr(colour) == Bgr(ColourUsed(colour))
    ensures forall x :: x in Bgr(colour) ==> x in ColourUsed(colour)
  {
    BgrShape(colour);
    if |colour| > 6 {
      assert ColourUsed(colour) == colour[..6];
    } else {
      assert ColourUsed(colour) == colour[0..|colour|] == colour;
    }
    BgrFrom(ColourUsed(colour));
  }

  /** Reordering a six-character colour twice gives it back. */
  lemma BgrInvolution(colour: string)
    requires |colour| == 6
    ensures Bgr(Bgr(colour)) == colour
  {
    BgrShape(colour);
    BgrShape(Bgr(colour));
  }

  /** `FF8000` (orange) is written `0080FF`; a short text is reordered as far as it reaches. */
  lemma BgrExamples()
    ensures Bgr("FF8000") == "0080FF"
    ensures Bgr("12345") == "53412"
    ensures Bgr("") == ""
  {
    BgrShape("FF8000");
    assert PySlice("12345", 4, 6) == "5";
    assert PySlice("12345", 2, 4) == "34";
    assert PySlice("12345", 0, 2) == "12";
  }

  /** The three 8-bit channels of a colour. */
  datatype Rgb = Rgb(red: nat, green: nat, blue: nat)

  /** The channels of the number an `RRGGBB` text denotes: red in the high byte. */
  function RgbOf(v: nat): Rgb {
    Rgb(v / 65536 % 256, v / 256 % 256, v % 256)
  }

  /** The channels of an ASS `&HAABBGGRR` colour number: red in the low byte. */
  function AssColourOf(v: nat): Rgb {
    Rgb(v % 256, v / 256 % 256, v / 65536 % 256)
  }

  /** The alpha byte of an ASS colour number; 0 is opaque. */
  function AssAlpha(v: nat): nat {
    v / 16777216
  }

  /** The bytes of `x * 65536 + y * 256 + z`, for bytes `x`, `y` and `z`. */
  lemma Bytes(x: nat, y: nat, z: nat)
    requires x < 256 && y < 256 && z < 256
    ensures var v := x * 65536 + y * 256 + z;
      && v % 256 == z && v / 256 % 256 == y && v / 65536 % 256 == x && v / 16777216 == 0
    ensures RgbOf(x * 65536 + y * 256 + z) == Rgb(x, y, z)
    ensures AssColourOf(x * 65536 + y * 256 + z) == Rgb(z, y, x)
    ensures AssAlpha(x * 65536 + y * 256 + z) == 0
  {
    var v := x * 65536 + y * 256 + z;
    DivModUnique(v, 256, x * 256 + y, z);
    DivModUnique(x * 256 + y, 256, x, y);
    DivModUnique(v, 65536, x, y * 256 + z);
    DivModUnique(x, 256, 0, x);
    DivModUnique(v, 16777216, 0, v);
  }

  /** Swapping the outer bytes turns an `RRGGBB` number into the ASS number of the same colour. */
  lemma SwapBytes(r: nat, g: nat, b: nat, rgb: nat, ass: nat)
    requires r < 256 && g < 256 && b < 256
    requires rgb == r * 65536 + g * 256 + b && ass == b * 65536 + g * 256 + r
    ensures AssColourOf(ass) == RgbOf(rgb) && AssAlpha(ass) == 0
  {
    Bytes(r, g, b);
    Bytes(b, g, r);
  }

  lemma Expand(x: int, y: int, z: int)
    ensures (x * 256 + y) * 256 + z == x * 65536 + y * 256 + z
  {
  }

  /** Three two-digit pairs read as one six-digit numeral. */
  lemma HexOfPairs(a: string, b: string, c: string)
    requires |a| == 2 && |b| == 2 && |c| == 2 && AllHex(a) && AllHex(b) && AllHex(c)
    ensures AllHex(a + b + c)
    ensures HexValue(a + b + c) == HexValue(a) * 65536 + HexValue(b) * 256 + HexValue(c)
  {
    assert Pow16(2) == 256;
    HexValueConcat(a, b);
    HexValueConcat(a + b, c);
    Expand(HexValue(a), HexValue(b), HexValue(c));
  }

  /**
   The colour literal `00BBGGRR` and the numeral `RRGGBB` built from the
   same pairs denote the same opaque colour.
   */
  lemma SwappedPairs(rr: string, gg: string, bb: string)
    requires |rr| == 2 && |gg| == 2 && |bb| == 2 && AllHex(rr) && AllHex(gg) && AllHex(bb)
    ensures AllHex("00" + (bb + gg + rr))
    ensures AssColourOf(HexValue("00" + (bb + gg + rr))) == RgbOf(HexValue(rr + gg + bb))
    ensures AssAlpha(HexValue("00" + (bb + gg + rr))) == 0
  {
    HexOfPairs(rr, gg, bb);
    HexOfPairs(bb, gg, rr);
    LeadingZeros(bb + gg + rr);
    assert Pow16(2) == 256;
    HexValueBound(rr);
    HexValueBound(gg);
    HexValueBound(bb);
    SwapBytes(HexValue(rr), HexValue(gg), HexValue(bb), HexValue(rr + gg + bb), HexValue("00" + (bb + gg + rr)));
  }

  /** For exactly six hex digits, the literal is the opaque colour of the `RRGGBB` given. */
  lemma PrimaryColourSix(colour: string)
    requires |colour| == 6 && AllHex(colour)
    ensures ColourLiteral(Bgr(colour)) == "&H" + ("00" + Bgr(colour)) + "&"
    ensures AllHex("00" + Bgr(colour))
    ensures AssColourOf(HexValue("00" + Bgr(colour))) == RgbOf(HexValue(colour))
    ensures AssAlpha(HexValue("00" + Bgr(colour))) == 0
  {
    var rr, gg, bb := colour[0..2], colour[2..4], colour[4..6];
    BgrPairs(colour);
    SwappedPairs(rr, gg, bb);
    LiteralDigits(Bgr(colour));
  }

  /**
   For a colour text that starts with six hex digits, the literal
   `&H00<bgr>&` is an opaque ASS colour whose red, green and blue are those
   of the `RRGGBB` in those six digits; anything after them is never read.
   */
  lemma PrimaryColourMeaning(colour: string)
    requires |colour| >= 6 && AllHex(colour[..6])
    ensures ColourLiteral(Bgr(colour)) == "&H" + ("00" + Bgr(colour)) + "&"
    ensures AllHex("00" + Bgr(colour))
    ensures AssColourOf(HexValue("00" + Bgr(colour))) == RgbOf(HexValue(colour[..6]))
    ensures AssAlpha(HexValue("00" + Bgr(colour))) == 0
  {
    BgrShape(colour);
    if |colour| == 6 {
      assert colour[..6] == colour;
    }
    PrimaryColourSix(colour[..6]);
  }

  lemma LiteralDigits(bgr: string)
    ensures ColourLiteral(bgr) == "&H" + ("00" + bgr) + "&"
  {
  }

  /** For six characters, the reordered colour is the three pairs in reverse order. */
  lemma BgrPairs(colour: string)
    requires |colour| == 6
    ensures Bgr(colour) == colour[4..6] + colour[2..4] + colour[0..2]
    ensures colour == colour[0..2] + colour[2..4] + colour[4..6]
  {
  }

  // ---------------------------------------------------------------------
  // Alignment

  /** `"2" if position == "bottom" else "8"`: any other position, recognised or not, is the top. */
  function Alignment(position: string): string {
    if position == "bottom" then "2" else "8"
  }

  datatype Vertical = Bottom | Middle | Top
  datatype Horizontal = Left | Centre | Right

  /**
   The ASS numpad alignment codes: 1 to 3 along the bottom, 4 to 6 in the
   middle, 7 to 9 along the top, each row left, centre, right.
   */
  function NumpadPlacement(code: string): Option<(Vertical, Horizontal)> {
    if |code| != 1 || !('1' <= code[0] <= '9') then None
    else
      var n := code[0] as int - '1' as int;
      Some(([Bottom, Middle, Top][n / 3], [Left, Centre, Right][n % 3]))
  }

  /**
   Subtitles go to the bottom centre exactly when the position is
   `"bottom"`, and to the top centre for every other position.
   */
  lemma AlignmentPlacement(position: string)
    ensures NumpadPlacement(Alignment(position)) ==
      Some((if position == "bottom" then Bottom else Top, Centre))
    ensures Alignment(position) == "2" <==> position == "bottom"
  {
  }

  // ---------------------------------------------------------------------
  // The style override

  /** One `Key=Value` override. */
  function Field(key: string, value: string): string {
    key + "=" + value
  }

  /** The ASS colour literal for a `BBGGRR` text: alpha `00` (opaque), then the colour. */
  function ColourLiteral(bgr: string): string {
    "&H00" + bgr + "&"
  }

  /** The `force_style` value: `Fontsize=<n>,PrimaryColour=&H00<bgr>&,Alignment=<a>`. */
  function ForceStyle(fontSize: int, colour: string, position: string): string {
    Field("Fontsize", FormatInt(fontSize, 0)) + ","
      + Field("PrimaryColour", ColourLiteral(Bgr(colour))) + ","
      + Field("Alignment", Alignment(position))
  }

  /** Splits a `Key=Value` override at its first `=`. */
  function KeyValue(field: string): Option<(string, string)> {
    if field == [] then None
    else if field[0] == '=' then Some(([], field[1..]))
    else match KeyValue(field[1..])
      case Some((k, v)) => Some(([field[0]] + k, v))
      case None => None
  }

  function KeyValues(fields: seq<string>): Option<seq<(string, string)>> {
    if fields == [] then Some([])
    else match (KeyValue(fields[0]), KeyValues(fields[1..]))
      case (Some(kv), Some(rest)) => Some([kv] + rest)
      case _ => None
  }

  /** Reads a style override: comma-separated `Key=Value` fields, in order. */
  function ReadStyle(style: string): Option<seq<(string, string)>> {
    KeyValues(SplitOn(style, ','))
  }

  /** A key without `=` followed by `=` and a value splits back into the two. */
  lemma {:induction false} KeyValueOf(key: string, value: string)
    requires '=' !in key
    ensures KeyValue(key + "=" + value) == Some((key, value))
  {
    if key != [] {
      assert (key + "=" + value)[1..] == key[1..] + "=" + value;
      KeyValueOf(key[1..], value);
      assert [key[0]] + key[1..] == key;
    } else {
      assert key + "=" + value == ['='] + value;
    }
  }

  lemma StyleFields(f1: string, f2: string, f3: string)
    requires ',' !in f1 && ',' !in f2 && ',' !in f3
    ensures SplitOn(f1 + [','] + (f2 + [','] + f3), ',') == [f1, f2, f3]
  {
    SplitAfterField(f1, ',', f2 + [','] + f3);
    SplitAfterField(f2, ',', f3);
    SplitWithoutSep(f3, ',');
  }

  lemma KeyValuesOf(f1: string, f2: string, f3: string, kv1: (string, string), kv2: (string, string), kv3: (string, string))
    requires KeyValue(f1) == Some(kv1) && KeyValue(f2) == Some(kv2) && KeyValue(f3) == Some(kv3)
    ensures KeyValues([f1, f2, f3]) == Some([kv1, kv2, kv3])
  {
    var fields := [f1, f2, f3];
    assert [f3][1..] == [] && [kv3] + [] == [kv3];
    assert KeyValues([f3]) == Some([kv3]);
    assert [f2, f3][1..] == [f3] && [kv2] + [kv3] == [kv2, kv3];
    assert KeyValues([f2, f3]) == Some([kv2, kv3]);
    assert fields[1..] == [f2, f3] && [kv1] + [kv2, kv3] == [kv1, kv2, kv3];
  }

  /** Comma-free values in the override text read back key by key. */
  lemma ReadStyleOf(size: string, colourValue: string, align: string)
    requires ',' !in size && ',' !in colourValue && ',' !in align
    ensures ReadStyle(Field("Fontsize", size) + "," + Field("PrimaryColour", colourValue) + "," + Field("Alignment", align))
      == Some([("Fontsize", size), ("PrimaryColour", colourValue), ("Alignment", align)])
  {
    var f1, f2, f3 := Field("Fontsize", size), Field("PrimaryColour", colourValue), Field("Alignment", align);
    assert f1 + "," + f2 + "," + f3 == f1 + [','] + (f2 + [','] + f3);
    assert ',' !in f1 && ',' !in f2 && ',' !in f3;
    StyleFields(f1, f2, f3);
    KeyValueOf("Fontsize", size);
    KeyValueOf("PrimaryColour", colourValue);
    KeyValueOf("Alignment", align);
    KeyValuesOf(f1, f2, f3, ("Fontsize", size), ("PrimaryColour", colourValue), ("Alignment", align));
  }

  /**
   When the colour text has no comma, the override reads back as exactly
   three fields, in order: the font size (which parses back to the number
   given), the colour literal `&H00<bgr>&`, and the alignment code.
   */
  lemma ForceStyleRoundTrip(fontSize: int, colour: string, position: string)
    requires ',' !in ColourUsed(colour)
    ensures ReadStyle(ForceStyle(fontSize, colour, position)) ==
      Some([("Fontsize", FormatInt(fontSize, 0)),
            ("PrimaryColour", ColourLiteral(Bgr(colour))),
            ("Alignment", Alignment(position))])
    ensures ParseInt(FormatInt(fontSize, 0)) == Some(fontSize)
  {
    FormatIntChars(fontSize, 0);
    BgrUsed(colour);
    assert ',' !in ColourLiteral(Bgr(colour));
    ReadStyleOf(FormatInt(fontSize, 0), ColourLiteral(Bgr(colour)), Alignment(position));
    FormatIntRoundTrip(fontSize, 0);
  }

  // ---------------------------------------------------------------------
  // Paths

  /** `path.replace("\\", "/")`: Windows separators become forward slashes. */
  function SlashPath(path: string): string {
    ReplaceChar(path, '\\', "/")
  }

  /** The subtitle path for the filter: slashes first, then `:` to `\:`, then `'` to `\'`. */
  function EscapeSrtPath(path: string): string {
    ReplaceChar(ReplaceChar(SlashPath(path), ':', "\\:"), '\'', "\\'")
  }

  /** The slashed path has the same length, no backslash, and differs only where a backslash was. */
  lemma SlashPathShape(path: string)
    ensures |SlashPath(path)| == |path|
    ensures '\\' !in SlashPath(path)
    ensures forall k :: 0 <= k < |path| ==>
      SlashPath(path)[k] == if path[k] == '\\' then '/' else path[k]
    ensures Count(SlashPath(path), ':') == Count(path, ':')
    ensures Count(SlashPath(path), '\'') == Count(path, '\'')
  {
    ReplaceOneForOne(path, '\\', '/');
    ReplaceRemoves(path, '\\', "/");
    ReplaceKeepsCount(path, '\\', "/", ':');
    ReplaceKeepsCount(path, '\\', "/", '\'');
  }

  /** Escaping adds one backslash per colon and per quote. */
  lemma EscapeLength(path: string)
    ensures |EscapeSrtPath(path)| == |path| + Count(path, ':') + Count(path, '\'')
  {
    var s1 := SlashPath(path);
    var s2 := ReplaceChar(s1, ':', "\\:");
    SlashPathShape(path);
    ReplaceLength(s1, ':', "\\:");
    ReplaceKeepsCount(s1, ':', "\\:", '\'');
    ReplaceLength(s2, '\'', "\\'");
  }

  /** What one character of the path becomes in the escaped path. */
  function EscapeChar(c: char): string {
    if c == '\\' then "/" else if c == ':' then "\\:" else if c == '\'' then "\\'" else [c]
  }

  lemma ReplaceSingle(c: char, target: char, repl: string)
    ensures ReplaceChar([c], target, repl) == if c == target then repl else [c]
  {
    assert [c][1..] == [];
  }

  lemma ReplaceUnit(u: string, target: char, repl: string)
    requires |u| <= 2
    ensures ReplaceChar(u, target, repl) ==
      if u == [] then []
      else if |u| == 1 then (if u[0] == target then repl else u)
      else (if u[0] == target then repl else [u[0]]) + (if u[1] == target then repl else [u[1]])
  {
    if |u| == 2 {
      assert u == [u[0]] + [u[1]];
      ReplaceConcat([u[0]], [u[1]], target, repl);
      ReplaceSingle(u[0], target, repl);
      ReplaceSingle(u[1], target, repl);
    } else if |u| == 1 {
      assert u == [u[0]];
      ReplaceSingle(u[0], target, repl);
    }
  }

  /** The three replacements applied to one character give its escaped unit. */
  lemma EscapeUnit(c: char)
    ensures ReplaceChar(ReplaceChar(if c == '\\' then "/" else [c], ':', "\\:"), '\'', "\\'") == EscapeChar(c)
  {
    var u1 := if c == '\\' then "/" else [c];
    ReplaceUnit(u1, ':', "\\:");
    ReplaceUnit(ReplaceChar(u1, ':', "\\:"), '\'', "\\'");
  }

  /** Escaping works character by character. */
  lemma EscapeCons(path: string)
    requires path != []
    ensures EscapeSrtPath(path) == EscapeChar(path[0]) + EscapeSrtPath(path[1..])
  {
    var c, rest := path[0], path[1..];
    var u1 := if c == '\\' then "/" else [c];
    assert SlashPath(path) == u1 + SlashPath(rest);
    ReplaceConcat(u1, SlashPath(rest), ':', "\\:");
    var u2 := ReplaceChar(u1, ':', "\\:");
    ReplaceConcat(u2, ReplaceChar(SlashPath(rest), ':', "\\:"), '\'', "\\'");
    EscapeUnit(c);
  }

  /**
   The shape of an escaped path: a run of units, each either a backslash
   followed by `:` or `'`, or one character other than a backslash, `:` or `'`.
   */
  predicate EscapedForm(s: string)
    decreases |s|
  {
    s == [] ||
    (|s| >= 2 && s[0] == '\\' && (s[1] == ':' || s[1] == '\'') && EscapedForm(s[2..])) ||
    (s[0] != '\\' && s[0] != ':' && s[0] != '\'' && EscapedForm(s[1..]))
  }

  /** Reads a quoted value up to its closing `'`, undoing backslash escapes; returns it and what follows. */
  function ReadQuoted(s: string): Option<(string, string)>
    decreases |s|
  {
    if s == [] then None
    else if s[0] == '\'' then Some(([], s[1..]))
    else if s[0] == '\\' then
      if |s| < 2 then None
      else match ReadQuoted(s[2..])
        case Some((v, rest)) => Some(([s[1]] + v, rest))
        case None => None
    else match ReadQuoted(s[1..])
      case Some((v, rest)) => Some(([s[0]] + v, rest))
      case None => None
  }

  /** What reading a quoted value gives back for one character of the path. */
  function SlashChar(c: char): char {
    if c == '\\' then '/' else c
  }

  lemma EscapedFormCons(c: char, s: string)
    requires EscapedForm(s)
    ensures EscapedForm(EscapeChar(c) + s)
  {
    var t := EscapeChar(c) + s;
    if |EscapeChar(c)| == 2 {
      assert t[2..] == s;
    } else {
      assert t[1..] == s;
    }
  }

  lemma ReadQuotedCons(c: char, s: string, v: string, tail: string)
    requires ReadQuoted(s) == Some((v, tail))
    ensures ReadQuoted(EscapeChar(c) + s) == Some(([SlashChar(c)] + v, tail))
  {
    var t := EscapeChar(c) + s;
    if |EscapeChar(c)| == 2 {
      assert t[2..] == s;
    } else {
      assert t[1..] == s;
    }
  }

  lemma SlashCons(path: string)
    requires path != []
    ensures SlashPath(path) == [SlashChar(path[0])] + SlashPath(path[1..])
  {
  }

  /** The escaped path has the escaped form described above. */
  lemma {:induction false} EscapeForm(path: string)
    ensures EscapedForm(EscapeSrtPath(path))
    decreases |path|
  {
    if path != [] {
      EscapeCons(path);
      EscapeForm(path[1..]);
      EscapedFormCons(path[0], EscapeSrtPath(path[1..]));
    }
  }

  /**
   Reading the escaped path with `ReadQuoted`, which takes a backslash
   inside quotes as an escape, stops exactly at the quote after it and
   gives back the slashed path. ffmpeg's own quoting takes the characters
   between quotes literally, so for ffmpeg this holds only for paths
   without `'`.
   */
  lemma {:induction false} EscapeRoundTrip(path: string, tail: string)
    ensures ReadQuoted(EscapeSrtPath(path) + "'" + tail) == Some((SlashPath(path), tail))
    decreases |path|
  {
    if path == [] {
      assert EscapeSrtPath(path) == [];
      assert EscapeSrtPath(path) + "'" + tail == ['\''] + tail;
    } else {
      var rest := path[1..];
      EscapeCons(path);
      EscapeRoundTrip(rest, tail);
      assert EscapeSrtPath(path) + "'" + tail == EscapeChar(path[0]) + (EscapeSrtPath(rest) + "'" + tail);
      ReadQuotedCons(path[0], EscapeSrtPath(rest) + "'" + tail, SlashPath(rest), tail);
      SlashCons(path);
    }
  }

  /**
   In an escaped path every backslash is followed by `:` or `'`, and every
   `:` or `'` follows a backslash.
   */
  lemma {:induction false} EscapedFormChars(s: string)
    requires EscapedForm(s)
    ensures forall k :: 0 <= k < |s| && s[k] == '\\' ==> k + 1 < |s| && (s[k + 1] == ':' || s[k + 1] == '\'')
    ensures forall k :: 0 <= k < |s| && (s[k] == ':' || s[k] == '\'') ==> 0 < k && s[k - 1] == '\\'
    decreases |s|
  {
    if s != [] {
      if |s| >= 2 && s[0] == '\\' && (s[1] == ':' || s[1] == '\'') && EscapedForm(s[2..]) {
        EscapedFormChars(s[2..]);
        assert forall k :: 2 <= k < |s| ==> s[k] == s[2..][k - 2];
      } else {
        EscapedFormChars(s[1..]);
        assert forall k :: 1 <= k < |s| ==> s[k] == s[1..][k - 1];
      }
    }
  }

  // ---------------------------------------------------------------------
  // The ffmpeg command

  /** The `-vf` argument: `subtitles='<escaped path>':force_style='<style>'`. */
  function FilterArg(srtFile: string, style: string): string {
    "subtitles='" + EscapeSrtPath(srtFile) + "':force_style='" + style + "'"
  }

  /** The argument vector `burn_subs_with_ffmpeg` hands to ffmpeg, with its default style arguments. */
  function BurnCommand(inVideo: string, srtFile: string, outVideo: string,
                       fontSize: int := 24, colour: string := "FFFFFF", position: string := "bottom"): seq<string>
  {
    ["ffmpeg", "-y", "-i", SlashPath(inVideo), "-vf",
     FilterArg(srtFile, ForceStyle(fontSize, colour, position)),
     "-c:a", "copy", SlashPath(outVideo)]
  }

  /**
   Called without style arguments, `burn_subs_with_ffmpeg` asks for font
   size 24, the opaque white `&H00FFFFFF&` and bottom-centre alignment.
   */
  lemma DefaultStyle(inVideo: string, srtFile: string, outVideo: string)
    ensures BurnCommand(inVideo, srtFile, outVideo)[5] ==
      FilterArg(srtFile, Field("Fontsize", "24") + "," + Field("PrimaryColour", ColourLiteral("FFFFFF")) + "," + Field("Alignment", "2"))
  {
    assert NatToDecimal(2) == "2";
    assert FormatInt(24, 0) == "24";
    BgrShape("FFFFFF");
  }

  /**
   Reads a `subtitles` filter whose file name and style override are both
   quoted values; nothing may follow the style's closing quote.
   */
  function ReadFilter(filter: string): Option<(string, string)> {
    var open := "subtitles='";
    if |filter| < |open| || filter[..|open|] != open then None
    else match ReadQuoted(filter[|open|..])
      case Some((file, rest)) => ReadStyleOption(file, rest)
      case None => None
  }

  /** Reads `:force_style='<style>'` after the file name, up to the end of the filter. */
  function ReadStyleOption(file: string, rest: string): Option<(string, string)> {
    var key := ":force_style='";
    if |rest| < |key| || rest[..|key|] != key then None
    else match ReadQuoted(rest[|key|..])
      case Some((style, after)) => if after == [] then Some((file, style)) else None
      case None => None
  }

  /** A value without quotes or backslashes, written between quotes unescaped, reads back as it is. */
  lemma {:induction false} PlainQuoted(v: string, tail: string)
    requires '\'' !in v && '\\' !in v
    ensures ReadQuoted(v + "'" + tail) == Some((v, tail))
    decreases |v|
  {
    var t := v + "'" + tail;
    if v == [] {
      assert t == ['\''] + tail;
    } else {
      assert t[1..] == v[1..] + "'" + tail;
      PlainQuoted(v[1..], tail);
      assert [v[0]] + v[1..] == v;
    }
  }

  /** Reading the filter comes down to reading the style option after the slashed file name. */
  lemma FilterReadsStyle(srtFile: string, style: string)
    ensures ReadFilter(FilterArg(srtFile, style)) == ReadStyleOption(SlashPath(srtFile), ":force_style='" + style + "'")
  {
    var open, esc, tail := "subtitles='", EscapeSrtPath(srtFile), ":force_style='" + style + "'";
    var f := FilterArg(srtFile, style);
    assert f == open + (esc + "'" + tail);
    assert f[..|open|] == open;
    assert f[|open|..] == esc + "'" + tail;
    EscapeRoundTrip(srtFile, tail);
  }

  /** The style option reads as the style read as a quoted value, which must end the filter. */
  lemma StyleOptionOf(file: string, style: string, v: string, after: string)
    requires ReadQuoted(style + "'") == Some((v, after))
    ensures ReadStyleOption(file, ":force_style='" + style + "'") == if after == [] then Some((file, v)) else None
  {
    var key, rest := ":force_style='", ":force_style='" + style + "'";
    assert rest[..|key|] == key;
    assert rest[|key|..] == style + "'";
  }

  /**
   The filter argument reads back to the slashed subtitle path and the
   style, when the style has no quote or backslash: the style is written
   between quotes unescaped.
   */
  lemma FilterRoundTrip(srtFile: string, style: string)
    requires '\'' !in style && '\\' !in style
    ensures ReadFilter(FilterArg(srtFile, style)) == Some((SlashPath(srtFile), style))
  {
    FilterReadsStyle(srtFile, style);
    assert style + "'" == style + "'" + [];
    PlainQuoted(style, []);
    StyleOptionOf(SlashPath(srtFile), style, style, []);
  }

  /**
   A quote inside the style ends the quoted value early, so the filter no
   longer reads back: the style is not escaped.
   */
  lemma QuoteInStyle(srtFile: string, a: string, b: string)
    requires '\'' !in a && '\\' !in a
    ensures ReadFilter(FilterArg(srtFile, a + "'" + b)) == None
  {
    FilterReadsStyle(srtFile, a + "'" + b);
    assert a + "'" + b + "'" == a + "'" + (b + "'");
    PlainQuoted(a, b + "'");
    StyleOptionOf(SlashPath(srtFile), a + "'" + b, a, b + "'");
  }

  /** The override has no quote or backslash unless the part of the colour text it reads brings one. */
  lemma StyleQuoteFree(fontSize: int, colour: string, position: string)
    requires '\'' !in ColourUsed(colour) && '\\' !in ColourUsed(colour)
    ensures '\'' !in ForceStyle(fontSize, colour, position)
    ensures '\\' !in ForceStyle(fontSize, colour, position)
  {
    FormatIntChars(fontSize, 0);
    BgrUsed(colour);
    var size, bgr, align := FormatInt(fontSize, 0), Bgr(colour), Alignment(position);
    StyleCharsFrom(size, bgr, align, '\'');
    StyleCharsFrom(size, bgr, align, '\\');
  }

  lemma StyleCharsFrom(size: string, bgr: string, align: string, c: char)
    requires c == '\'' || c == '\\'
    requires c !in size && c !in bgr && c !in align
    ensures c !in Field("Fontsize", size) + "," + Field("PrimaryColour", ColourLiteral(bgr)) + "," + Field("Alignment", align)
  {
  }

  /** What an ffmpeg command line asks for, as far as these options go. */
  datatype Job = Job(overwrite: bool, input: string, filter: string, audioCodec: string, output: string)

  /**
   Reads ffmpeg options: `-y` takes no value; `-i`, `-vf` and `-c:a` take
   the next argument; any other argument starting with `-` is unknown; an
   argument that is not an option names the output.
   */
  function ReadOptions(args: seq<string>, job: Job): Option<Job>
    decreases |args|
  {
    if args == [] then Some(job)
    else if args[0] == "-y" then ReadOptions(args[1..], job.(overwrite := true))
    else if args[0] == "-i" || args[0] == "-vf" || args[0] == "-c:a" then
      if |args| < 2 then None
      else
        var v := args[1];
        var next := if args[0] == "-i" then job.(input := v)
                    else if args[0] == "-vf" then job.(filter := v)
                    else job.(audioCodec := v);
        ReadOptions(args[2..], next)
    else if args[0] != [] && args[0][0] == '-' then None
    else ReadOptions(args[1..], job.(output := args[0]))
  }

  /** Reads an `ffmpeg` command line that names an output. */
  function ReadCommand(argv: seq<string>): Option<Job> {
    if argv == [] || argv[0] != "ffmpeg" then None
    else match ReadOptions(argv[1..], Job(false, "", "", "", ""))
      case Some(job) => if job.output == [] then None else Some(job)
      case None => None
  }

  lemma SlashKeepsLead(path: string)
    requires path != [] && path[0] != '-'
    ensures SlashPath(path) != [] && SlashPath(path)[0] != '-'
  {
    SlashPathShape(path);
  }

  /** The fixed argument vector, for any input path, filter and output path. */
  lemma CommandOf(input: string, filter: string, output: string)
    requires output != [] && output[0] != '-'
    ensures ReadCommand(["ffmpeg", "-y", "-i", input, "-vf", filter, "-c:a", "copy", output])
      == Some(Job(true, input, filter, "copy", output))
  {
    var job := Job(true, input, filter, "copy", output);
    var a5 := [output];
    assert a5[1..] == [];
    assert ReadOptions(a5, job.(output := "")) == Some(job);
    var a4 := ["-c:a", "copy", output];
    assert a4[2..] == a5;
    assert ReadOptions(a4, Job(true, input, filter, "", "")) == Some(job);
    var a3 := ["-vf", filter, "-c:a", "copy", output];
    assert a3[2..] == a4;
    assert ReadOptions(a3, Job(true, input, "", "", "")) == Some(job);
    var a2 := ["-i", input, "-vf", filter, "-c:a", "copy", output];
    assert a2[2..] == a3;
    assert ReadOptions(a2, Job(true, "", "", "", "")) == Some(job);
    var a1 := ["-y", "-i", input, "-vf", filter, "-c:a", "copy", output];
    assert a1[1..] == a2;
    assert ReadOptions(a1, Job(false, "", "", "", "")) == Some(job);
    var argv := ["ffmpeg"] + a1;
    assert argv[1..] == a1;
  }

  /**
   The command `burn_subs_with_ffmpeg` runs, for an output path that does
   not look like an option, overwrites the output, reads the slashed input
   path, applies the `subtitles` filter to the slashed subtitle path with the
   style override, copies the audio, and writes the slashed output path.
   */
  lemma BurnCommandRoundTrip(inVideo: string, srtFile: string, outVideo: string,
                             fontSize: int, colour: string, position: string)
    requires outVideo != [] && outVideo[0] != '-'
    ensures ReadCommand(BurnCommand(inVideo, srtFile, outVideo, fontSize, colour, position))
      == Some(Job(true, SlashPath(inVideo), FilterArg(srtFile, ForceStyle(fontSize, colour, position)),
                  "copy", SlashPath(outVideo)))
    ensures '\'' !in ColourUsed(colour) && '\\' !in ColourUsed(colour) ==>
      ReadFilter(FilterArg(srtFile, ForceStyle(fontSize, colour, position)))
        == Some((SlashPath(srtFile), ForceStyle(fontSize, colour, position)))
  {
    SlashKeepsLead(outVideo);
    CommandOf(SlashPath(inVideo), FilterArg(srtFile, ForceStyle(fontSize, colour, position)), SlashPath(outVideo));
    if '\'' !in ColourUsed(colour) && '\\' !in ColourUsed(colour) {
      StyleQuoteFree(fontSize, colour, position);
      FilterRoundTrip(srtFile, ForceStyle(fontSize, colour, position));
    }
  }
}
