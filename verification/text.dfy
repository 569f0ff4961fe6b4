/**
 Python `str` operations. The subtitle code itself uses `strip()` (with
 `isspace`) and `replace(c, repl)` for a one-character `c`. `count(c)`
 measures what `replace` changes, and `split(sep)` with `sep.join` as its
 inverse serves the readers that take the written text back apart. The
 functions carry no contracts of their own; what they compute is stated by
 the lemmas below each of them.
 */
module Text {

  /** Python's `str.isspace` on one character. */
  predicate IsSpace(c: char) {
    || '\t' <= c <= '\r'
    || '\U{1C}' <= c <= ' '
    || c == '\U{85}' || c == '\U{A0}' || c == '\U{1680}'
    || '\U{2000}' <= c <= '\U{200A}'
    || c == '\U{2028}' || c == '\U{2029}' || c == '\U{202F}' || c == '\U{205F}' || c == '\U{3000}'
  }

  predicate AllSpace(s: string) {
    forall k :: 0 <= k < |s| ==> IsSpace(s[k])
  }

  /** Python's `s.lstrip()`: drops the leading white space. */
  function StripStart(s: string): string {
    if s == [] || !IsSpace(s[0]) then s else StripStart(s[1..])
  }

  /** Python's `s.rstrip()`: drops the trailing white space. */
  function StripEnd(s: string): string {
    if s == [] || !IsSpace(s[|s| - 1]) then s else StripEnd(s[..|s| - 1])
  }

  /** Python's `s.strip()`. */
  function Strip(s: string): string {
    StripEnd(StripStart(s))
  }

  /** `lstrip` removes exactly the white space before the first other character. */
  lemma {:induction false} StripStartAt(s: string, i: nat)
    requires i <= |s|
    requires forall k :: 0 <= k < i ==> IsSpace(s[k])
    requires i == |s| || !IsSpace(s[i])
    ensures StripStart(s) == s[i..]
    decreases i
  {
    if i > 0 {
      assert s[1..][i - 1..] == s[i..];
      StripStartAt(s[1..], i - 1);
    }
  }

  /** `rstrip` removes exactly the white space after the last other character. */
  lemma {:induction false} StripEndAt(s: string, j: nat)
    requires j <= |s|
    requires forall k :: j <= k < |s| ==> IsSpace(s[k])
    requires j == 0 || !IsSpace(s[j - 1])
    ensures StripEnd(s) == s[..j]
    decreases |s| - j
  {
    if j < |s| {
      assert s[..|s| - 1][..j] == s[..j];
      StripEndAt(s[..|s| - 1], j);
    }
  }

  lemma AllSpaceStrip(s: string)
    requires AllSpace(s)
    ensures Strip(s) == []
  {
    StripStartAt(s, |s|);
    StripEndAt([], 0);
  }

  lemma SliceOfSuffix(s: string, i: nat, j: nat)
    requires i <= j <= |s|
    ensures s[i..][..j - i] == s[i..j]
  {
  }

  lemma FullSlice(s: string)
    ensures s[0..|s|] == s
  {
  }

  lemma NonEmptyCore(s: string, i: nat, j: nat)
    requires i < j <= |s|
    requires forall k :: 0 <= k < i ==> IsSpace(s[k])
    requires forall k :: j <= k < |s| ==> IsSpace(s[k])
    requires !IsSpace(s[i]) && !IsSpace(s[j - 1])
    ensures Strip(s) == s[i..j]
  {
    StripStartAt(s, i);
    var t := s[i..];
    assert forall k :: j - i <= k < |t| ==> IsSpace(t[k]) by {
      forall k | j - i <= k < |t| ensures IsSpace(t[k]) { assert t[k] == s[i + k]; }
    }
    assert t[j - i - 1] == s[j - 1];
    StripEndAt(t, j - i);
    SliceOfSuffix(s, i, j);
  }

  /**
   `strip` keeps exactly the core of `s` between a run of leading and a run
   of trailing white space: the slice that starts and ends with a
   non-space character, or nothing when `s` is all white space.
   */
  lemma StripIsCore(s: string, i: nat, j: nat)
    requires i <= j <= |s|
    requires forall k :: 0 <= k < i ==> IsSpace(s[k])
    requires forall k :: j <= k < |s| ==> IsSpace(s[k])
    requires i == j || (!IsSpace(s[i]) && !IsSpace(s[j - 1]))
    ensures Strip(s) == s[i..j]
  {
    if i == j {
      assert AllSpace(s) by {
        forall k | 0 <= k < |s| ensures IsSpace(s[k]) {
          if k >= i { assert j <= k; }
        }
      }
      AllSpaceStrip(s);
    } else {
      NonEmptyCore(s, i, j);
    }
  }

  /** The index of the first non-space character of `s` at or after `i` (or `|s|`). */
  function FirstNonSpace(s: string, i: nat): (r: nat)
    requires i <= |s|
    ensures i <= r <= |s|
    ensures forall k :: i <= k < r ==> IsSpace(s[k])
    ensures r == |s| || !IsSpace(s[r])
    decreases |s| - i
  {
    if i == |s| || !IsSpace(s[i]) then i else FirstNonSpace(s, i + 1)
  }

  /** One past the last non-space character of `s` before `j` (or `lo` when none is). */
  function LastNonSpace(s: string, lo: nat, j: nat): (r: nat)
    requires lo <= j <= |s|
    ensures lo <= r <= j
    ensures forall k :: r <= k < j ==> IsSpace(s[k])
    ensures r == lo || !IsSpace(s[r - 1])
    decreases j
  {
    if j == lo || !IsSpace(s[j - 1]) then j else LastNonSpace(s, lo, j - 1)
  }

  /**
   What `strip` leaves: a slice of `s` that is empty exactly when `s` is all
   white space, and otherwise starts and ends with a non-space character;
   everything cut away on either side is white space.
   */
  lemma StripShape(s: string)
    ensures |Strip(s)| <= |s|
    ensures Strip(s) == [] <==> AllSpace(s)
    ensures Strip(s) != [] ==> !IsSpace(Strip(s)[0]) && !IsSpace(Strip(s)[|Strip(s)| - 1])
  {
    var i := FirstNonSpace(s, 0);
    var j := LastNonSpace(s, i, |s|);
    assert forall k :: j <= k < |s| ==> IsSpace(s[k]);
    if i < |s| {
      assert i < j;
    }
    StripIsCore(s, i, j);
    if i == j {
      assert i == |s|;
    } else {
      assert !IsSpace(s[i]);
    }
  }

  /** Stripping twice is stripping once. */
  lemma StripIdempotent(s: string)
    ensures Strip(Strip(s)) == Strip(s)
  {
    var r := Strip(s);
    StripShape(s);
    StripIsCore(r, 0, |r|);
    FullSlice(r);
  }

  /** Python's `s.count(c)` for a single character. */
  function Count(s: string, c: char): nat {
    if s == [] then 0 else (if s[0] == c then 1 else 0) + Count(s[1..], c)
  }

  lemma {:induction false} CountConcat(a: string, b: string, c: char)
    ensures Count(a + b, c) == Count(a, c) + Count(b, c)
  {
    if a != [] {
      assert (a + b)[1..] == a[1..] + b;
      CountConcat(a[1..], b, c);
    } else {
      assert a + b == b;
    }
  }

  /** A character occurs in `s` exactly when its count is positive. */
  lemma {:induction false} CountZero(s: string, c: char)
    ensures Count(s, c) == 0 <==> c !in s
  {
    if s != [] {
      CountZero(s[1..], c);
      assert s == [s[0]] + s[1..];
    }
  }

  /** Python's `s.replace(target, repl)` where `target` is a single character. */
  function ReplaceChar(s: string, target: char, repl: string): string {
    if s == [] then [] else (if s[0] == target then repl else [s[0]]) + ReplaceChar(s[1..], target, repl)
  }

  /** Each occurrence of `target` grows or shrinks the text by `|repl| - 1`. */
  lemma {:induction false} ReplaceLength(s: string, target: char, repl: string)
    ensures |ReplaceChar(s, target, repl)| == |s| - Count(s, target) + Count(s, target) * |repl|
  {
    if s != [] {
      ReplaceLength(s[1..], target, repl);
    }
  }

  /** After the replacement `target` survives only inside copies of `repl`. */
  lemma {:induction false} ReplaceRemoves(s: string, target: char, repl: string)
    requires target !in repl
    ensures target !in ReplaceChar(s, target, repl)
  {
    if s != [] {
      ReplaceRemoves(s[1..], target, repl);
    }
  }

  /** Replacing by a single character rewrites `s` position by position. */
  lemma {:induction false} ReplaceOneForOne(s: string, target: char, c: char)
    ensures |ReplaceChar(s, target, [c])| == |s|
    ensures forall k :: 0 <= k < |s| ==>
      ReplaceChar(s, target, [c])[k] == (if s[k] == target then c else s[k])
  {
    if s != [] {
      ReplaceOneForOne(s[1..], target, c);
      var r := ReplaceChar(s, target, [c]);
      forall k | 0 <= k < |s| ensures r[k] == (if s[k] == target then c else s[k]) {
        if k > 0 { assert r[k] == ReplaceChar(s[1..], target, [c])[k - 1]; }
      }
    }
  }

  /** Characters other than `target` and those in `repl` keep their count. */
  lemma {:induction false} ReplaceKeepsCount(s: string, target: char, repl: string, c: char)
    requires c != target && c !in repl
    ensures Count(ReplaceChar(s, target, repl), c) == Count(s, c)
  {
    if s != [] {
      ReplaceKeepsCount(s[1..], target, repl, c);
      var head := if s[0] == target then repl else [s[0]];
      CountConcat(head, ReplaceChar(s[1..], target, repl), c);
      if s[0] == target {
        CountZero(repl, c);
      } else {
        assert head[1..] == [];
      }
    }
  }

  /** `replace` works character by character, so it distributes over concatenation. */
  lemma {:induction false} ReplaceConcat(a: string, b: string, target: char, repl: string)
    ensures ReplaceChar(a + b, target, repl) == ReplaceChar(a, target, repl) + ReplaceChar(b, target, repl)
  {
    if a == [] {
      assert a + b == b;
    } else {
      assert (a + b)[1..] == a[1..] + b;
      ReplaceConcat(a[1..], b, target, repl);
    }
  }

  /** Python's `s.split(sep)` for a one-character separator. */
  function SplitOn(s: string, sep: char): (parts: seq<string>)
    ensures |parts| >= 1
  {
    if s == [] then [""]
    else
      var rest := SplitOn(s[1..], sep);
      if s[0] == sep then [""] + rest else [[s[0]] + rest[0]] + rest[1..]
  }

  /** Python's `sep.join(parts)`. */
  function Join(parts: seq<string>, sep: char): string
    requires |parts| >= 1
  {
    if |parts| == 1 then parts[0] else parts[0] + [sep] + Join(parts[1..], sep)
  }

  /** Joining the pieces of a split gives back the string. */
  lemma {:induction false} SplitJoin(s: string, sep: char)
    ensures Join(SplitOn(s, sep), sep) == s
  {
    if s != [] {
      var tail := s[1..];
      SplitJoin(tail, sep);
      var rest := SplitOn(tail, sep);
      if s[0] == sep {
        JoinCons("", rest, sep);
      } else {
        JoinExtendFirst(s[0], rest, sep);
      }
      assert s == [s[0]] + tail;
    }
  }

  lemma JoinCons(p: string, rest: seq<string>, sep: char)
    requires |rest| >= 1
    ensures Join([p] + rest, sep) == p + [sep] + Join(rest, sep)
  {
    assert ([p] + rest)[1..] == rest;
  }

  lemma JoinExtendFirst(c: char, rest: seq<string>, sep: char)
    requires |rest| >= 1
    ensures Join([[c] + rest[0]] + rest[1..], sep) == [c] + Join(rest, sep)
  {
    var parts := [[c] + rest[0]] + rest[1..];
    if |rest| > 1 {
      assert parts[1..] == rest[1..];
      calc {
        Join(parts, sep);
        ([c] + rest[0]) + [sep] + Join(rest[1..], sep);
        [c] + (rest[0] + [sep] + Join(rest[1..], sep));
        [c] + Join(rest, sep);
      }
    }
  }

  /** A piece without the separator, then the separator, starts a new field. */
  lemma {:induction false} SplitAfterField(a: string, sep: char, b: string)
    requires sep !in a
    ensures SplitOn(a + [sep] + b, sep) == [a] + SplitOn(b, sep)
  {
    if a == [] {
      assert a + [sep] + b == [sep] + b;
      assert ([sep] + b)[1..] == b;
    } else {
      var s := a + [sep] + b;
      assert s[0] == a[0];
      assert s[1..] == a[1..] + [sep] + b;
      SplitAfterField(a[1..], sep, b);
      assert [a[0]] + a[1..] == a;
    }
  }

  /** Text without the separator splits into itself. */
  lemma {:induction false} SplitWithoutSep(a: string, sep: char)
    requires sep !in a
    ensures SplitOn(a, sep) == [a]
  {
    if a != [] {
      SplitWithoutSep(a[1..], sep);
      assert [a[0]] + a[1..] == a;
    }
  }
}
