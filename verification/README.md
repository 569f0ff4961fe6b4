# Auto-sub text core, modelled in Dafny

The program turns speech into subtitles and burns them into a video. It
has two pure text-producing steps, and this project models both.

- `write_srt` turns the speech engine's timed segments into a SubRip
  (`.srt`) file. Its inner `fmt` prints each time as `HH:MM:SS,mmm`.
- `burn_subs_with_ffmpeg` builds ffmpeg's argument vector. That vector
  holds the SubStation Alpha (ASS) style override made from the font size,
  the `RRGGBB` colour and the position, and the `subtitles` filter with
  the escaped subtitle path.

Modules:

- `Options`: the `Option` type.
- `Decimal`: Python's `str(n)` and `format(n, "0<w>d")`, with a reader that
  takes the text back to the number.
- `Hex`: values of hexadecimal numerals.
- `Text`: Python's `str.isspace`, `strip`, `replace` (one character
  replaced by a string), `count`, and splitting on one character with
  joining as its inverse.
- `SubRipTime`: `fmt`, and a reader for `HH:MM:SS,mmm`.
- `SubRip`: the cue track and `write_srt`.
- `SubRipRead`: the reader that inverts `SubRip.Block`: it reads a cue block back.
- `SubRipExample`: worked examples of `write_srt`.
- `BurnIn`: the colour reorder, the alignment, the style override, the
  path escaping and the argument vector. It also has readers for the
  override, the quoted filter argument and the ffmpeg options.

Seconds are exact non-negative reals. Python's `int(x)` on such a value is
its floor. Python's float `//` and `%` are written out as floor division
and floor remainder.

Cue numbers come from `enumerate(segments, start=1)` over all segments.
So a blank segment is skipped but uses up its number, and the written
numbers can have gaps. `SubRipExample.TrackExample` shows this: a blank
segment and then `"  hello  "` produce one cue numbered 2.
`SubRipExample.TrackExampleBlankLast` shows that the same two segments in
the other order produce cue 1.

## Model

| member | source | states |
|---|---|---|
| `Decimal.FormatInt` | app.py:68 | `format(n, "0<w>d")`: the decimal digits of `n`, a `-` for a negative `n`, zero-padded after the sign to a total width of `w`, the sign included; `str(font_size)` is width 0 |
| `Text.Strip` | app.py:62 | `str.strip()`: drops leading and trailing whitespace, using Python's `isspace` set |
| `Text.ReplaceChar` | app.py:79-81 | `str.replace(c, r)` for a one-character `c`: every occurrence of `c`, left to right, becomes `r` |
| `SubRipTime.TimeFields` | app.py:64-67 | the four integers `fmt` computes: `int(s // 3600)`, `int((s % 3600) // 60)`, `int(s % 60)` and `int((s - int(s)) * 1000)`, with Python's flooring `//` and `%` |
| `SubRipTime.FormatTime` | app.py:63-68 | `fmt(s)`: those four fields printed as `{hh:02d}:{mm:02d}:{ss:02d},{ms:03d}` |
| `SubRip.CueTrack` | app.py:59-69 | the cues the loop writes: one per segment whose stripped text is not empty, numbered by its 1-based position among all segments, times copied |
| `Decimal.NatToDecimal` | app.py:70 | `str(i)` for the cue number: the shortest decimal numeral of `i` |
| `Decimal.DecimalRoundTrip` | app.py:70 | the cue number's numeral is all digits and reads back to the number |
| `SubRip.TimeRange` | app.py:70 | the time line `fmt(start) --> fmt(end)` |
| `SubRip.Block` | app.py:70 | one `f.write`: the number, a line break, the time line, a line break, the text and a blank line |
| `SubRip.Render` | app.py:58-70 | the successive writes of the blocks, in order |
| `BurnIn.PySlice` | app.py:74 | Python's `s[lo:hi]`, with bounds past the end clamped |
| `BurnIn.Bgr` | app.py:74 | `font_color[4:6] + font_color[2:4] + font_color[0:2]` |
| `BurnIn.Alignment` | app.py:75 | `"2"` when the position is `"bottom"`, `"8"` otherwise |
| `BurnIn.ForceStyle` | app.py:76 | `Fontsize=<size>,PrimaryColour=&H00<bgr>&,Alignment=<code>` |
| `BurnIn.EscapeSrtPath` | app.py:79 | the subtitle path with `\` replaced by `/`, then `:` by `\:`, then `'` by `\'` |
| `BurnIn.SlashPath` | app.py:80-81 | the input or output path with `\` replaced by `/` |
| `BurnIn.FilterArg` | app.py:85 | `subtitles='<escaped path>':force_style='<style>'`, with the style not escaped |
| `BurnIn.BurnCommand` | app.py:72-87 | the argument vector `ffmpeg -y -i <in> -vf <filter> -c:a copy <out>` with the slashed paths; the style arguments default to 24, `FFFFFF` and `bottom` |
| `BurnIn.DefaultStyle` | app.py:72-76 | without style arguments the filter asks for `Fontsize=24`, `PrimaryColour=&H00FFFFFF&` and `Alignment=2` |
| `Decimal.FormatIntNonNegative` | app.py:68 | `format(n, "0<w>d")` of a non-negative `n` is all digits, at least `w` long, exactly `w` long when `n < 10^w` and `w >= 1`, and denotes `n`; when `n >= 10^w` it is `str(n)`, with no padding |
| `Decimal.FormatIntRoundTrip` | app.py:76 | the decimal text of any integer, with or without padding and sign, reads back to that integer |
| `Text.StripShape` | app.py:62 | `strip()` never lengthens the text; it gives the empty text exactly when the text is all whitespace; otherwise it starts and ends with non-whitespace |
| `Text.StripIsCore` | app.py:62 | `strip()` is the slice between the leading and the trailing whitespace runs |
| `Text.StripIdempotent` | app.py:62 | stripping twice is stripping once |
| `Text.ReplaceLength` | app.py:79 | `replace(c, r)` changes the length by `(len(r) - 1)` for each occurrence of `c` |
| `Text.ReplaceRemoves` | app.py:79-81 | after `replace(c, r)`, with `c` not in `r`, no `c` is left |
| `SubRipTime.HoursAndRemainder` | app.py:65 | the hour field is the whole seconds divided by 3600, and `s % 3600` keeps the fraction |
| `SubRipTime.MinutesField` | app.py:66 | the minute field is `(whole seconds mod 3600) div 60` |
| `SubRipTime.SecondsField` | app.py:67 | the second field is the whole seconds mod 60 |
| `SubRipTime.MillisField` | app.py:64 | the millisecond field is the floor of the fraction times 1000, between 0 and 999 |
| `SubRipTime.TimeFieldsTruncate` | app.py:64-67 | minutes and seconds are below 60 and milliseconds below 1000; `hh*3600 + mm*60 + ss` is the floor of `s`; the time shown is `s` truncated to the millisecond |
| `SubRipTime.FormatTimePieces` | app.py:68 | the hour field is all digits, at least two of them, exactly two below 100 hours and `str(hh)` from 100 hours on; minutes and seconds are two digits and milliseconds three, each denoting its field |
| `SubRipTime.FormatTimeRoundTrip` | app.py:63-68 | the text `fmt` prints reads back to the four fields it was printed from |
| `SubRipTime.FormatTimeLength` | app.py:68 | `fmt` prints at least 12 characters, and exactly 12 below 100 hours; from 100 hours on the hour field widens |
| `SubRipTime.FormatTimeChars` | app.py:68 | `fmt` prints only digits, `:` and `,` |
| `SubRipTime.FormatTimeZero` | app.py:63-68 | `fmt(0) == "00:00:00,000"` |
| `SubRipTime.FormatTimeExample` | app.py:63-68 | `fmt(3661.25) == "01:01:01,250"` |
| `SubRip.WriteSrt` | app.py:57-70 | the text written is the blocks of the cue track, in order |
| `SubRip.EmptyFile` | app.py:59-70 | the file is empty exactly when every segment's text is blank (so also for no segments) |
| `SubRip.CueTrackLength` | app.py:69 | there is one cue per segment whose stripped text is not empty |
| `SubRip.CueTrackSources` | app.py:59-70 | every cue carries the number of a non-blank segment, that segment's start and end unchanged, and its stripped text |
| `SubRip.CueTrackIncreasing` | app.py:59 | cue numbers strictly increase through the file; times are neither sorted nor checked |
| `SubRip.CueTrackComplete` | app.py:59-70 | each non-blank segment has its cue, at the position that counts the non-blank segments before it |
| `SubRip.CueNumbers` | app.py:59-69 | a segment's position appears as a cue number exactly when its text is not blank |
| `SubRip.RenderEmpty` | app.py:70 | the blocks are empty exactly when there are no cues |
| `SubRip.NoCuesMeansAllBlank` | app.py:62-69 | no cue is counted exactly when every segment is blank |
| `SubRipRead.TimeRangeRoundTrip` | app.py:70 | the `start --> end` line reads back to the fields of both times and holds no line break |
| `SubRipRead.BlockRoundTrip` | app.py:70 | a block reads back to its number, its two times' fields, and its text followed by the blank line |
| `SubRipExample.TimeExamples` | app.py:63-68 | `fmt(1.0) == "00:00:01,000"` and `fmt(2.5) == "00:00:02,500"` |
| `SubRipExample.TrackExample` | app.py:59-69 | a blank segment and then `"  hello  "` give one cue, numbered 2, with text `hello` |
| `SubRipExample.TrackExampleBlankLast` | app.py:59-69 | `"  hello  "` and then a blank segment give one cue, numbered 1 |
| `SubRipExample.WriteSrtExample` | app.py:57-70 | the file for a blank segment and then `"  hello  "` from 1.0 to 2.5 is `2`, the time line `00:00:01,000 --> 00:00:02,500`, `hello`, and a blank line |
| `BurnIn.PySliceShape` | app.py:74 | a slice with a bound past the end is clamped and never fails |
| `BurnIn.BgrShape` | app.py:74 | the colour text is not checked: at most six characters are used, a shorter text keeps its length, and six characters have their pairs reversed |
| `BurnIn.BgrUsed` | app.py:74 | the reorder reads only the first six characters of the colour text, and every character it yields comes from them |
| `BurnIn.BgrInvolution` | app.py:74 | reordering a six-character colour twice gives it back |
| `BurnIn.BgrExamples` | app.py:74 | `FF8000` becomes `0080FF`; `12345` becomes `53412`; the empty text stays empty |
| `BurnIn.PrimaryColourMeaning` | app.py:73-76 | for a colour text starting with six hex digits, `&H00<bgr>&` is an opaque ASS colour with the red, green and blue of the `RRGGBB` in those six; the rest of the text is never read |
| `BurnIn.AlignmentPlacement` | app.py:75 | the ASS numpad code is bottom centre exactly when the position is `"bottom"`, and top centre for every other value |
| `BurnIn.ForceStyleRoundTrip` | app.py:76 | for a colour whose first six characters hold no comma, the override reads back as exactly the fields `Fontsize`, `PrimaryColour`, `Alignment` in that order; the font size parses back to the number given |
| `BurnIn.SlashPathShape` | app.py:79-81 | `replace("\\", "/")` keeps the length, leaves no backslash, changes only backslashes, and keeps the counts of `:` and `'` |
| `BurnIn.EscapeLength` | app.py:79 | the escaped path is longer than the path by its number of `:` plus its number of `'` |
| `BurnIn.EscapeForm` | app.py:79 | the escaped path is a run of units: a backslash before `:` or `'`, or one other character that is not a backslash |
| `BurnIn.EscapedFormChars` | app.py:79 | in that form every backslash is followed by `:` or `'`, and every `:` or `'` follows a backslash |
| `BurnIn.EscapeRoundTrip` | app.py:79 | reading the escaped path as a quoted value in which a backslash escapes the next character stops at the closing quote and gives back the slashed path |
| `BurnIn.FilterRoundTrip` | app.py:85 | for a style without a quote or backslash, the `subtitles='…':force_style='…'` argument reads back, both values as quoted values, to the slashed subtitle path and the style override |
| `BurnIn.QuoteInStyle` | app.py:85 | a style holding a quote ends the quoted value early, so the filter does not read back: the style is written unescaped |
| `BurnIn.BurnCommandRoundTrip` | app.py:83-87 | the argument vector asks ffmpeg to overwrite, to read the slashed input, to apply the filter, to copy the audio, and to write the slashed output; for a colour whose first six characters hold no quote or backslash the filter reads back to the slashed subtitle path and the style override |

## Left out

- Writing the file (app.py:58). The model returns the string handed to
  `f.write`. The file is opened in text mode and UTF-8, so each `\n` is
  written as the platform's line separator (`\r\n` on Windows) and the
  text is encoded; newline translation and encoding belong to the file,
  not to the model.
- Running ffmpeg (app.py:50-55, 88). The model ends at the argument vector.
- Whisper transcription, moviepy audio extraction, the `ctypes` library
  lookup shim, the Qt window, the worker thread and its progress values
  (app.py:8-34, 91-284). These are I/O, third-party code and concurrency.
- The window's fallback to `FFFFFF` for an empty colour box (app.py:261)
  belongs to the window code, which is not modelled.
- Floating point. Times are exact reals, so rounding effects such as
  `1.001` printing 0 milliseconds are not modelled.
- Negative times. `fmt` is defined for `s >= 0` only. A negative time would
  need Python's mix of flooring `//` and `%` with truncating `int()`. The
  speech engine never produces one.
- `SubRip.WriteSrt`: segment times have the type `Seconds`, the non-negative
  reals. The source accepts any float.
- `SubRipTime.FormatTimeRoundTrip`: states its result for `s >= 0` only, for
  the same reason.
- `BurnIn.ForceStyleRoundTrip`: requires no comma in the first six
  characters of the colour, the only ones the reorder reads. The source does
  not check the colour, and a comma there would add style fields.
- `BurnIn.FilterRoundTrip`: requires a style without `'` or `\`. The source
  writes the style between quotes without escaping it, so a colour text
  holding a quote or a backslash breaks the quoted value
  (`BurnIn.QuoteInStyle`).
- `BurnIn.BurnCommandRoundTrip`: the filter half holds only when the first
  six characters of the colour hold no `'` or `\`, for the same reason.
- `BurnIn.PrimaryColourMeaning`: holds only for a colour text that starts
  with six hexadecimal digits. The source does not validate the colour. A
  shorter text, or one with a non-hex character among its first six, gives a
  literal that ASS does not define.
- `BurnIn.BurnCommandRoundTrip`: requires an output path that does not start
  with `-`. ffmpeg would read such a path as an option.
- `BurnIn.EscapeRoundTrip`: its reader `ReadQuoted` takes `\'` inside
  quotes as an escaped quote. ffmpeg does not: between quotes it takes every
  character literally, and a quote cannot be quoted, so the `\'` the source
  writes for a `'` in the subtitle path ends ffmpeg's quoted value. As a
  statement about ffmpeg the round trip therefore holds only for paths
  without `'`. The `:` and `\` cases agree with ffmpeg's two-level reading:
  `\:` survives the quoted filter-graph level and is unescaped at the option
  level, and no backslash is left after slashing. The same applies to the
  path half of `BurnIn.FilterRoundTrip` and `BurnIn.BurnCommandRoundTrip`.
- The option reader is a one-level model of ffmpeg's command-line parsing.
