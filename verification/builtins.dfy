/**
 * The pieces of Python's `str` and `list` behaviour that the core relies on:
 * `isspace` (also the `\s` class of a `str` regex), `splitlines`, `join`,
 * `strip`, `count`, `find`, and "stable sort, then take the first element".
 */
module Builtins {

  import opened Errors

  /** `c.isspace()`; the same characters match `\s` in a `str` regex. */
  predicate IsSpace(c: char) {
    c == ' ' || ('\t' <= c <= '\r') || ('\U{1C}' <= c <= '\U{1F}') || c == '\U{85}' || c == '\U{A0}'
    || c == '\U{1680}' || ('\U{2000}' <= c <= '\U{200A}') || c == '\U{2028}' || c == '\U{2029}'
    || c == '\U{202F}' || c == '\U{205F}' || c == '\U{3000}'
  }

  /** The characters at which `str.splitlines()` ends a line. */
  predicate IsLineBoundary(c: char) {
    c == '\n' || c == '\r' || c == '\U{0B}' || c == '\U{0C}' || ('\U{1C}' <= c <= '\U{1E}')
    || c == '\U{85}' || c == '\U{2028}' || c == '\U{2029}'
  }

  predicate NoBoundary(s: string) {
    forall j :: 0 <= j < |s| ==> !IsLineBoundary(s[j])
  }

  /** Index of the first line boundary in `s`, or `|s|` when there is none. */
  function FirstBoundary(s: string): (i: nat)
    ensures i <= |s|
    ensures NoBoundary(s[..i])
    ensures i < |s| ==> IsLineBoundary(s[i])
  {
    if s == [] then 0
    else if IsLineBoundary(s[0]) then 0
    else
      var k := FirstBoundary(s[1..]);
      assert s[..k + 1] == [s[0]] + s[1..][..k];
      1 + k
  }

  /**
   * `s.splitlines()`: a line ends at every boundary character, `\r\n` ends one
   * line, and a boundary at the very end does not start an empty last line.
   */
  function SplitLines(s: string): (lines: seq<string>)
    ensures forall k :: 0 <= k < |lines| ==> NoBoundary(lines[k])
    ensures s == [] <==> lines == []
    decreases |s|
  {
    if s == [] then []
    else
      var i := FirstBoundary(s);
      if i == |s| then [s]
      else
        var w := if s[i] == '\r' && i + 1 < |s| && s[i + 1] == '\n' then 2 else 1;
        [s[..i]] + SplitLines(s[i + w..])
  }

  /** A prefix free of boundaries lies within the first line. */
  lemma {:induction false} FirstBoundaryPast(s: string, n: nat)
    requires n <= |s| && NoBoundary(s[..n])
    ensures FirstBoundary(s) >= n
    decreases n
  {
    if n > 0 {
      assert s[..n][0] == s[0];
      assert s[1..][..n - 1] == s[..n][1..];
      FirstBoundaryPast(s[1..], n - 1);
    }
  }

  /** A boundary-free prefix followed by a boundary (or the end) is the first line. */
  lemma {:induction false} FirstBoundaryAt(s: string, n: nat)
    requires n <= |s| && NoBoundary(s[..n]) && (n == |s| || IsLineBoundary(s[n]))
    ensures FirstBoundary(s) == n
    decreases n
  {
    if n > 0 {
      assert s[..n][0] == s[0];
      assert s[1..][..n - 1] == s[..n][1..];
      FirstBoundaryAt(s[1..], n - 1);
    }
  }

  /** The first line of a non-empty text runs up to its first boundary. */
  lemma SplitLinesFirst(s: string)
    requires s != []
    ensures |SplitLines(s)| > 0 && SplitLines(s)[0] == s[..FirstBoundary(s)]
  {
  }

  /** `sep.join(parts)`. */
  function Join(sep: string, parts: seq<string>): string {
    if parts == [] then ""
    else if |parts| == 1 then parts[0]
    else parts[0] + sep + Join(sep, parts[1..])
  }

  /**
   * Joining lines with `'\n'` and splitting the result again gives the lines
   * back, provided no line holds a boundary and the last line is not empty
   * (an empty last line would leave a trailing `'\n'`, which `splitlines` drops).
   */
  lemma {:induction false} SplitJoinLines(parts: seq<string>)
    requires forall k :: 0 <= k < |parts| ==> NoBoundary(parts[k])
    requires parts != [] ==> parts[|parts| - 1] != []
    ensures SplitLines(Join("\n", parts)) == parts
    decreases |parts|
  {
    if |parts| == 1 {
      assert NoBoundary(parts[0]);
      assert FirstBoundary(parts[0]) == |parts[0]|;
    } else if |parts| > 1 {
      var rest := Join("\n", parts[1..]);
      var s := parts[0] + "\n" + rest;
      assert Join("\n", parts) == s;
      FirstBoundaryAfterLine(parts[0], rest);
      assert s[..|parts[0]|] == parts[0];
      assert s[|parts[0]| + 1..] == rest;
      SplitJoinLines(parts[1..]);
    }
  }

  lemma FirstBoundaryAfterLine(a: string, b: string)
    requires NoBoundary(a)
    ensures FirstBoundary(a + "\n" + b) == |a|
    decreases |a|
  {
    if a != [] {
      assert (a + "\n" + b)[1..] == a[1..] + "\n" + b;
      FirstBoundaryAfterLine(a[1..], b);
    }
  }

  /** Every line boundary is whitespace to `strip`. */
  lemma BoundaryIsSpace(c: char)
    ensures IsLineBoundary(c) ==> IsSpace(c)
  {
  }

  /** The only line boundaries in `s` are `'\n'`. */
  predicate OnlyNewlineBreaks(s: string) {
    forall i :: 0 <= i < |s| && IsLineBoundary(s[i]) ==> s[i] == '\n'
  }

  /** Joining two non-empty runs of parts puts one separator between their joins. */
  lemma {:induction false} JoinConcat(sep: string, a: seq<string>, b: seq<string>)
    requires |a| > 0 && |b| > 0
    ensures Join(sep, a + b) == Join(sep, a) + sep + Join(sep, b)
    decreases |a|
  {
    assert (a + b)[0] == a[0];
    if |a| == 1 {
      assert (a + b)[1..] == b;
    } else {
      assert (a + b)[1..] == a[1..] + b;
      JoinConcat(sep, a[1..], b);
    }
  }

  /** A join starts with the first character of its first part. */
  lemma JoinHead(sep: string, parts: seq<string>)
    requires |parts| > 0 && |parts[0]| > 0
    ensures |Join(sep, parts)| > 0 && Join(sep, parts)[0] == parts[0][0]
  {
  }

  /** Lines without boundaries, joined with `'\n'`, have no other boundary. */
  lemma {:induction false} JoinOnlyNewlines(lines: seq<string>)
    requires forall k :: 0 <= k < |lines| ==> NoBoundary(lines[k])
    ensures OnlyNewlineBreaks(Join("\n", lines))
    decreases |lines|
  {
    if |lines| > 1 {
      var a := lines[0];
      var rest := Join("\n", lines[1..]);
      var s := a + "\n" + rest;
      JoinOnlyNewlines(lines[1..]);
      assert NoBoundary(a);
      forall i | 0 <= i < |s| && IsLineBoundary(s[i])
        ensures s[i] == '\n'
      {
        if i > |a| {
          assert s[i] == rest[i - |a| - 1];
        }
      }
    } else if |lines| == 1 {
      assert NoBoundary(lines[0]);
    }
  }

  /**
   * Lines joined with `'\n'`, then `'\n'` and more text: `splitlines` gives
   * the lines back, then the lines of the rest.
   */
  lemma {:induction false} SplitLinesAppend(lines: seq<string>, z: string)
    requires |lines| > 0 && forall k :: 0 <= k < |lines| ==> NoBoundary(lines[k])
    ensures SplitLines(Join("\n", lines) + "\n" + z) == lines + SplitLines(z)
    decreases |lines|
  {
    var a := lines[0];
    if |lines| == 1 {
      assert Join("\n", lines) == a && lines == [a];
      SplitLinesCons(a, z);
    } else {
      var rest := Join("\n", lines[1..]) + "\n" + z;
      JoinNewlineCons(lines, z);
      SplitLinesCons(a, rest);
      SplitLinesAppend(lines[1..], z);
      ConsAppend(lines, SplitLines(z));
    }
  }

  /** Joining at least two lines, then `'\n'` and more text, starts with the first line and `'\n'`. */
  lemma JoinNewlineCons(lines: seq<string>, z: string)
    requires |lines| > 1
    ensures Join("\n", lines) + "\n" + z == lines[0] + "\n" + (Join("\n", lines[1..]) + "\n" + z)
  {
  }

  lemma ConsAppend<T>(a: seq<T>, b: seq<T>)
    requires |a| > 0
    ensures a + b == [a[0]] + (a[1..] + b)
  {
    assert a == [a[0]] + a[1..];
  }

  /** A boundary-free line, `'\n'` and more text: `splitlines` gives the line, then the lines of the rest. */
  lemma SplitLinesCons(a: string, rest: string)
    requires NoBoundary(a)
    ensures SplitLines(a + "\n" + rest) == [a] + SplitLines(rest)
  {
    var s := a + "\n" + rest;
    FirstBoundaryAfterLine(a, rest);
    assert s[..|a|] == a;
    assert s[|a| + 1..] == rest;
  }

  lemma AppendAssoc<T>(a: seq<T>, b: seq<T>, c: seq<T>)
    ensures a + (b + c) == (a + b) + c
  {
  }

  /** Text whose only boundaries are `'\n'`, ended with `'\n'`, splits into lines that join back to it. */
  lemma {:induction false} JoinSplitLinesNewline(x: string)
    requires OnlyNewlineBreaks(x)
    ensures Join("\n", SplitLines(x + "\n")) == x
    decreases |x|
  {
    var s := x + "\n";
    var i := FirstBoundary(s);
    assert s[|x|] == '\n';
    if i == |x| {
      assert s[..i] == x;
      assert s[i + 1..] == [];
      assert SplitLines(s) == [x];
    } else {
      assert x[i] == s[i];
      var y := x[i + 1..];
      assert s[..i] == x[..i];
      assert s[i + 1..] == y + "\n";
      assert OnlyNewlineBreaks(y) by {
        forall k | 0 <= k < |y| && IsLineBoundary(y[k])
          ensures y[k] == '\n'
        {
          assert y[k] == x[i + 1 + k];
        }
      }
      JoinSplitLinesNewline(y);
      var ls := SplitLines(y + "\n");
      assert |ls| > 0;
      assert SplitLines(s) == [x[..i]] + ls;
      assert ([x[..i]] + ls)[1..] == ls;
      assert x == x[..i] + "\n" + y;
    }
  }

  /** End of the run of whitespace that starts at `i`. */
  function SpaceRun(s: string, i: nat): (j: nat)
    requires i <= |s|
    ensures i <= j <= |s|
    ensures forall k :: i <= k < j ==> IsSpace(s[k])
    ensures j < |s| ==> !IsSpace(s[j])
    decreases |s| - i
  {
    if i < |s| && IsSpace(s[i]) then SpaceRun(s, i + 1) else i
  }

  /** Start of the run of whitespace that ends `s`. */
  function TrailingSpaceStart(s: string): (j: nat)
    ensures j <= |s|
    ensures forall k :: j <= k < |s| ==> IsSpace(s[k])
    ensures j > 0 ==> !IsSpace(s[j - 1])
  {
    if s != [] && IsSpace(s[|s| - 1]) then TrailingSpaceStart(s[..|s| - 1]) else |s|
  }

  /** `s.lstrip()`. */
  function LStrip(s: string): string {
    s[SpaceRun(s, 0)..]
  }

  /** `s.rstrip()`. */
  function RStrip(s: string): string {
    s[..TrailingSpaceStart(s)]
  }

  /** `s.strip()`: the slice between the leading and the trailing whitespace. */
  function Strip(s: string): (r: string)
    ensures exists i, j ::
              && 0 <= i <= j <= |s| && r == s[i..j]
              && (forall k :: 0 <= k < i ==> IsSpace(s[k]))
              && (forall k :: j <= k < |s| ==> IsSpace(s[k]))
    ensures r == [] || (!IsSpace(r[0]) && !IsSpace(r[|r| - 1]))
  {
    var i := SpaceRun(s, 0);
    var t := s[i..];
    var j := TrailingSpaceStart(t);
    assert t[..j] == s[i..i + j];
    assert j > 0 ==> !IsSpace(t[0]);
    RStrip(LStrip(s))
  }

  /** A string with no whitespace at either end is its own `strip`. */
  lemma StripTrimmed(s: string)
    requires s == [] || (!IsSpace(s[0]) && !IsSpace(s[|s| - 1]))
    ensures Strip(s) == s
  {
    assert SpaceRun(s, 0) == 0;
    assert s[0..] == s;
    assert TrailingSpaceStart(s) == |s|;
  }

  /** Text that does not start with whitespace loses only its trailing whitespace. */
  lemma StripFromStart(s: string)
    requires |s| > 0 && !IsSpace(s[0])
    ensures Strip(s) == s[..TrailingSpaceStart(s)]
  {
    assert SpaceRun(s, 0) == 0;
    assert s[0..] == s;
  }

  /**
   * Text that starts with a prefix `a` ending in a non-space character,
   * followed by nothing or by a `'\n'`, keeps `a` whole under `strip`
   * (when it does not start with whitespace): what is left after `a` is
   * empty or starts with that `'\n'`.
   */
  lemma StripPastPrefix(s: string, a: string) returns (z: string)
    requires a <= s && |a| > 0 && !IsSpace(s[0]) && !IsSpace(a[|a| - 1])
    requires |s| > |a| ==> s[|a|] == '\n'
    ensures Strip(s) + "\n" == a + "\n" + z
  {
    StripFromStart(s);
    var t := TrailingSpaceStart(s);
    assert s[|a| - 1] == a[|a| - 1];
    assert |a| <= t;
    assert s[..|a|] == a;
    if t == |a| {
      z := "";
    } else {
      z := s[|a| + 1..t] + "\n";
      assert s[..t] == s[..|a|] + [s[|a|]] + s[|a| + 1..t];
    }
  }

  /** `strip` returns a slice of its argument. */
  lemma StripSlice(s: string) returns (i: nat, j: nat)
    ensures i <= j <= |s| && Strip(s) == s[i..j]
  {
    i := SpaceRun(s, 0);
    var t := s[i..];
    j := i + TrailingSpaceStart(t);
    assert t[..j - i] == s[i..j];
  }

  /** Leading whitespace does not change what `strip` returns. */
  lemma StripSkipsLeadingSpace(s: string, k: nat)
    requires k <= |s| && forall j :: 0 <= j < k ==> IsSpace(s[j])
    ensures Strip(s[k..]) == Strip(s)
  {
    SpaceRunShift(s, k, 0);
    assert s[k..][SpaceRun(s[k..], 0)..] == s[SpaceRun(s, 0)..];
  }

  lemma SliceOfSlice<T>(s: seq<T>, p: nat, e: nat, a: nat)
    requires p + a <= e <= |s|
    ensures s[p..e][a..] == s[p + a..e]
  {
  }

  lemma SliceInSlice<T>(s: seq<T>, p: nat, e: nat, a: nat, b: nat)
    requires a <= b && p + b <= e <= |s|
    ensures s[p..e][a..b] == s[p + a..p + b]
  {
    var t := s[p..e][a..b];
    var u := s[p + a..p + b];
    assert |t| == |u|;
    forall i | 0 <= i < |t|
      ensures t[i] == u[i]
    {
      assert t[i] == s[p..e][a + i] == s[p + a + i];
    }
  }

  /** Skipping a whitespace run does not change what `strip` gives. */
  lemma StripFromSpaceRun(s: string, i: nat)
    requires i <= |s|
    ensures Strip(s[SpaceRun(s, i)..]) == Strip(s[i..])
  {
    var t := s[i..];
    var k := SpaceRun(s, i) - i;
    forall j | 0 <= j < k
      ensures IsSpace(t[j])
    {
      assert t[j] == s[i + j];
    }
    StripSkipsLeadingSpace(t, k);
    DropDrop(s, i, SpaceRun(s, i));
  }

  lemma DropDrop<T>(s: seq<T>, i: nat, j: nat)
    requires i <= j <= |s|
    ensures s[i..][j - i..] == s[j..]
  {
  }

  lemma {:induction false} SpaceRunShift(s: string, k: nat, i: nat)
    requires i <= k <= |s| && forall j :: 0 <= j < k ==> IsSpace(s[j])
    ensures SpaceRun(s, i) == k + SpaceRun(s[k..], 0)
    decreases k - i
  {
    if i < k {
      SpaceRunShift(s, k, i + 1);
    } else {
      SpaceRunSuffix(s, k, k);
    }
  }

  lemma {:induction false} SpaceRunSuffix(s: string, k: nat, i: nat)
    requires k <= i <= |s|
    ensures SpaceRun(s, i) == k + SpaceRun(s[k..], i - k)
    decreases |s| - i
  {
    if i < |s| && IsSpace(s[i]) {
      SpaceRunSuffix(s, k, i + 1);
    }
  }

  /** Trailing whitespace does not change what `strip` returns. */
  lemma StripDropsTrailingSpace(s: string, c: char)
    requires IsSpace(c)
    ensures Strip(s + [c]) == Strip(s)
  {
    var t := s + [c];
    assert t[..|s|] == s;
    var i := SpaceRun(s, 0);
    if i < |s| {
      SpaceRunPrefix(t, |s|, 0);
      var u := s[i..];
      assert LStrip(s) == u;
      assert LStrip(t) == u + [c];
      RStripDropsTrailingSpace(u, c);
    } else {
      SpaceRunAll(t, 0);
      assert LStrip(s) == [] == LStrip(t);
    }
  }

  lemma RStripDropsTrailingSpace(u: string, c: char)
    requires IsSpace(c)
    ensures RStrip(u + [c]) == RStrip(u)
  {
    var v := u + [c];
    assert v[..|v| - 1] == u;
    assert TrailingSpaceStart(v) == TrailingSpaceStart(u);
    assert v[..TrailingSpaceStart(u)] == u[..TrailingSpaceStart(u)];
  }

  lemma {:induction false} SpaceRunPrefix(s: string, n: nat, i: nat)
    requires i <= n <= |s| && SpaceRun(s[..n], i) < n
    ensures SpaceRun(s[..n], i) == SpaceRun(s, i)
    decreases n - i
  {
    assert s[..n][i] == s[i];
    if IsSpace(s[i]) {
      SpaceRunPrefix(s, n, i + 1);
    }
  }

  /** A whitespace run that ends inside `s[a..e]` is the same run there, shifted by `a`. */
  lemma {:induction false} SpaceRunSlice(s: string, a: nat, e: nat, i: nat)
    requires a <= i <= e <= |s| && SpaceRun(s, i) < e
    ensures SpaceRun(s[a..e], i - a) == SpaceRun(s, i) - a
    decreases e - i
  {
    assert s[a..e][i - a] == s[i];
    if IsSpace(s[i]) {
      SpaceRunSlice(s, a, e, i + 1);
    }
  }

  lemma {:induction false} SpaceRunAll(s: string, i: nat)
    requires i <= |s| && forall k :: i <= k < |s| ==> IsSpace(s[k])
    ensures SpaceRun(s, i) == |s|
    decreases |s| - i
  {
    if i < |s| {
      SpaceRunAll(s, i + 1);
    }
  }

  /** `s.count(c)`. */
  function CountChar(c: char, s: string): nat {
    if s == [] then 0 else (if s[0] == c then 1 else 0) + CountChar(c, s[1..])
  }

  lemma {:induction false} CountCharAppend(c: char, a: string, b: string)
    ensures CountChar(c, a + b) == CountChar(c, a) + CountChar(c, b)
    decreases |a|
  {
    if a != [] {
      assert (a + b)[0] == a[0];
      assert (a + b)[1..] == a[1..] + b;
      CountCharAppend(c, a[1..], b);
    } else {
      assert a + b == b;
    }
  }

  /** A string without line boundaries holds no `'\n'`. */
  lemma {:induction false} CountNewlinesNone(s: string)
    requires NoBoundary(s)
    ensures CountChar('\n', s) == 0
    decreases |s|
  {
    if s != [] {
      assert !IsLineBoundary(s[0]);
      CountNewlinesNone(s[1..]);
    }
  }

  predicate OccursAt(s: string, sub: string, i: nat) {
    i + |sub| <= |s| && s[i..i + |sub|] == sub
  }

  /** `s.find(sub)`, with `None` for -1. */
  function IndexOf(s: string, sub: string): (r: Option<nat>)
    ensures r.Some? ==> OccursAt(s, sub, r.value) && forall j :: 0 <= j < r.value ==> !OccursAt(s, sub, j)
    ensures r.None? ==> forall j :: 0 <= j ==> !OccursAt(s, sub, j)
  {
    IndexOfFrom(s, sub, 0)
  }

  function IndexOfFrom(s: string, sub: string, i: nat): (r: Option<nat>)
    requires forall j :: 0 <= j < i ==> !OccursAt(s, sub, j)
    ensures r.Some? ==> i <= r.value && OccursAt(s, sub, r.value) && forall j :: 0 <= j < r.value ==> !OccursAt(s, sub, j)
    ensures r.None? ==> forall j :: 0 <= j ==> !OccursAt(s, sub, j)
    decreases |s| - i
  {
    if i + |sub| > |s| then None
    else if OccursAt(s, sub, i) then Some(i)
    else IndexOfFrom(s, sub, i + 1)
  }

  /**
   * `xs.sort(key=key)` followed by `xs[0]`: Python's sort is stable, so the
   * element it puts first is the earliest one with the smallest key.
   */
  function FirstMinIndex<T>(xs: seq<T>, key: T -> nat): (i: nat)
    requires |xs| > 0
    ensures i < |xs|
    ensures forall j :: 0 <= j < |xs| ==> key(xs[i]) <= key(xs[j])
    ensures forall j :: 0 <= j < i ==> key(xs[i]) < key(xs[j])
  {
    if |xs| == 1 then 0
    else
      var k := FirstMinIndex(xs[1..], key) + 1;
      if key(xs[0]) <= key(xs[k]) then 0 else k
  }

  /** The first index of `c` in `s`, `None` where there is none. */
  function CharIndex(s: string, c: char): (r: Option<nat>)
    ensures r.Some? ==> r.value < |s| && s[r.value] == c && c !in s[..r.value]
    ensures r.None? ==> c !in s
  {
    if s == [] then None
    else if s[0] == c then Some(0)
    else
      match CharIndex(s[1..], c)
      case None =>
        assert s == [s[0]] + s[1..];
        None
      case Some(k) =>
        assert s[..k + 1] == [s[0]] + s[1..][..k];
        Some(k + 1)
  }

  /** `s.split(c, 1)[0]` (and `s.split(c)[0]`): everything before the first `c`. */
  function Before(s: string, c: char): (r: string)
    ensures r <= s && c !in r
    ensures |r| < |s| ==> s[|r|] == c
    ensures c !in s ==> r == s
  {
    match CharIndex(s, c)
    case None => s
    case Some(i) => s[..i]
  }

  /** `s.split(sep)` for a non-empty separator: the pieces between the occurrences of `sep`. */
  function Split(s: string, sep: string): (parts: seq<string>)
    requires |sep| > 0
    ensures |parts| > 0
    decreases |s|
  {
    match IndexOf(s, sep)
    case None => [s]
    case Some(i) => [s[..i]] + Split(s[i + |sep|..], sep)
  }

  /** Joining the pieces of a split with the same separator gives the text back. */
  lemma {:induction false} JoinSplit(s: string, sep: string)
    requires |sep| > 0
    ensures Join(sep, Split(s, sep)) == s
    decreases |s|
  {
    match IndexOf(s, sep)
    case None =>
    case Some(i) =>
      var rest := s[i + |sep|..];
      JoinSplit(rest, sep);
      assert Split(s, sep)[1..] == Split(rest, sep);
      assert s == s[..i] + sep + rest;
  }

  /**
   * `sep.join(s.split(sep)[1:])` is the text after the first `sep`, or empty
   * where there is none; `s.split(sep)[0]` is the text before it.
   */
  lemma SplitHeadTail(s: string, sep: string)
    requires |sep| > 0
    ensures var parts := Split(s, sep);
            match IndexOf(s, sep)
            case None => parts[0] == s && Join(sep, parts[1..]) == ""
            case Some(i) => parts[0] == s[..i] && Join(sep, parts[1..]) == s[i + |sep|..]
  {
    match IndexOf(s, sep)
    case None =>
    case Some(i) =>
      JoinSplit(s[i + |sep|..], sep);
      assert Split(s, sep)[1..] == Split(s[i + |sep|..], sep);
  }

  // ---------------------------------------------------------------------
  // join
  // ---------------------------------------------------------------------

  /** Where part `i` begins in `Join(sep, parts)`: the earlier parts, each followed by `sep`. */
  function PartStart(sep: string, parts: seq<string>, i: nat): nat
    requires i <= |parts|
  {
    if i == 0 then 0 else PartStart(sep, parts, i - 1) + |parts[i - 1]| + |sep|
  }

  lemma {:induction false} PartStartShift(sep: string, parts: seq<string>, i: nat)
    requires 0 < i <= |parts|
    ensures PartStart(sep, parts, i) == |parts[0]| + |sep| + PartStart(sep, parts[1..], i - 1)
  {
    if i > 1 {
      PartStartShift(sep, parts, i - 1);
      assert parts[1..][i - 2] == parts[i - 1];
    }
  }

  /**
   * `sep.join(parts)` lays the parts out in order, `sep` between neighbours
   * and nothing else: part `i` sits at `PartStart`, followed by `sep` unless
   * it is the last, which ends the string.
   */
  lemma {:induction false} JoinLayout(sep: string, parts: seq<string>, i: nat)
    requires i < |parts|
    ensures var s := Join(sep, parts); var a := PartStart(sep, parts, i); var b := a + |parts[i]|;
            && b <= |s| && s[a..b] == parts[i]
            && (i + 1 < |parts| ==> b + |sep| <= |s| && s[b..b + |sep|] == sep)
            && (i + 1 == |parts| ==> b == |s|)
    decreases |parts|
  {
    if |parts| > 1 {
      var rest := JoinCons(sep, parts);
      if i == 0 {
        JoinLayoutHead(parts[0], sep, rest);
      } else {
        JoinLayout(sep, parts[1..], i - 1);
        PartStartShift(sep, parts, i);
        assert parts[1..][i - 1] == parts[i];
        JoinLayoutLater(parts[0] + sep + rest, |parts[0]| + |sep|, rest,
                        PartStart(sep, parts[1..], i - 1), parts[i], sep, i + 1 < |parts|);
      }
    }
  }

  lemma JoinCons(sep: string, parts: seq<string>) returns (rest: string)
    requires |parts| > 1
    ensures rest == Join(sep, parts[1..]) && Join(sep, parts) == parts[0] + sep + rest
  {
    rest := Join(sep, parts[1..]);
  }

  lemma JoinLayoutHead(part: string, sep: string, rest: string)
    ensures var s := part + sep + rest;
            && s[0..|part|] == part && s[|part|..|part| + |sep|] == sep
            && s[|part| + |sep|..] == rest
  {
  }

  /** A part laid out in the rest of a join keeps its place, shifted by what precedes the rest. */
  lemma JoinLayoutLater(s: string, off: nat, rest: string, a: nat, part: string, sep: string, more: bool)
    requires off <= |s| && s[off..] == rest
    requires a + |part| <= |rest| && rest[a..a + |part|] == part
    requires more ==> a + |part| + |sep| <= |rest| && rest[a + |part|..a + |part| + |sep|] == sep
    ensures off + a + |part| <= |s| && s[off + a..off + a + |part|] == part
    ensures more ==> off + a + |part| + |sep| <= |s| && s[off + a + |part|..off + a + |part| + |sep|] == sep
  {
    SliceOfRest(s, off, a, a + |part|);
    if more {
      SliceOfRest(s, off, a + |part|, a + |part| + |sep|);
    }
  }

  lemma SliceOfRest(s: string, off: nat, a: nat, b: nat)
    requires off + b <= |s| && a <= b
    ensures s[off + a..off + b] == s[off..][a..b]
  {
  }

  // ---------------------------------------------------------------------
  // str(n) and int(s)
  // ---------------------------------------------------------------------

  predicate IsDigit(c: char) { '0' <= c <= '9' }

  predicate AllDigits(s: string) {
    forall i :: 0 <= i < |s| ==> IsDigit(s[i])
  }

  /** `str(n)` for a natural number: its decimal digits, without leading zeros. */
  function NatToString(n: nat): (s: string)
    ensures |s| > 0 && AllDigits(s)
    ensures |s| > 1 ==> s[0] != '0'
  {
    var d := [('0' as int + n % 10) as char];
    if n < 10 then d
    else
      var h := NatToString(n / 10);
      assert (h + d)[0] == h[0];
      h + d
  }

  /** `int(s)` for a string of decimal digits. */
  function ParseNat(s: string): nat
    requires AllDigits(s)
  {
    if s == [] then 0 else 10 * ParseNat(s[..|s| - 1]) + (s[|s| - 1] as int - '0' as int)
  }

  /** `int(str(n)) == n`. */
  lemma {:induction false} ParseNatToString(n: nat)
    ensures ParseNat(NatToString(n)) == n
  {
    var s := NatToString(n);
    if n >= 10 {
      ParseNatToString(n / 10);
      assert s[..|s| - 1] == NatToString(n / 10);
    }
  }

  /** `str(i)` for any integer. */
  function IntToString(i: int): (s: string)
    ensures i >= 0 ==> s == NatToString(i)
    ensures i < 0 ==> s == "-" + NatToString(-i)
  {
    if i >= 0 then NatToString(i) else "-" + NatToString(-i)
  }
}

