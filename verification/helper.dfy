/**
 * lib/common/helper.py, except `find_prop_in_block` (module Scanner):
 * the regex-bounded block extractor `find_block`, `if_index` and `marker`.
 */
module Helper {

  import opened Errors
  import opened Builtins

  /**
   * A line regex as the callers write it: `^text$` matches the whole line,
   * `^text` (the resource pattern, which has no `$`) a line that starts with it.
   */
  datatype Pattern = Whole(text: string) | Head(text: string)

  /** `re.match(pattern, line)` for a line produced by `splitlines` (so without `'\n'`). */
  predicate LineMatches(p: Pattern, line: string) {
    match p
    case Whole(t) => line == t
    case Head(t) => t <= line
  }

  /** The default `end_regex`, `^}$`. */
  const BlockEnd: Pattern := Whole("}")

  /** Where `lines[loc - 1:]` starts, with Python's negative indexing. */
  function AnchorIndex(n: nat, loc: int): int {
    if loc - 1 >= 0 then loc - 1 else n + (loc - 1)
  }

  /** Index of the first line at or after `i` that matches `p`, or `|lines|`. */
  function FirstMatchFrom(lines: seq<string>, p: Pattern, i: nat): (k: nat)
    requires i <= |lines|
    ensures i <= k <= |lines|
    ensures k < |lines| ==> LineMatches(p, lines[k])
    ensures forall j :: i <= j < k ==> !LineMatches(p, lines[j])
    decreases |lines| - i
  {
    if i == |lines| || LineMatches(p, lines[i]) then i else FirstMatchFrom(lines, p, i + 1)
  }

  /**
   * What `find_block(text, loc, start_regex, end_regex)` returns: the lines
   * from the anchor down to the first line matching the end pattern (which
   * may be the anchor line itself), joined by `'\n'`.
   */
  function BlockAt(text: string, loc: int, start: Pattern, end: Pattern): Result<string> {
    var lines := SplitLines(text);
    if lines == [] || loc - 1 >= |lines| then Err(InvalidLoc)
    else
      var a := AnchorIndex(|lines|, loc);
      if a < 0 then Err(LineIndexOutOfRange)
      else if !LineMatches(start, lines[a]) then Err(InvalidStart)
      else
        var k := FirstMatchFrom(lines, end, a);
        if k == |lines| then Err(InvalidEnd) else Ok(Join("\n", lines[a..k + 1]))
  }

  /** The three ValueErrors of `find_block`, and the IndexError of a loc far below 1. */
  lemma BlockAtErrors(text: string, loc: int, start: Pattern, end: Pattern)
    ensures var lines := SplitLines(text); var r := BlockAt(text, loc, start, end);
            (r == Err(InvalidLoc) <==> lines == [] || loc > |lines|)
    ensures var lines := SplitLines(text); var r := BlockAt(text, loc, start, end);
            r == Err(LineIndexOutOfRange) <==> lines != [] && loc <= |lines| && AnchorIndex(|lines|, loc) < 0
    ensures var lines := SplitLines(text); var a := AnchorIndex(|lines|, loc); var r := BlockAt(text, loc, start, end);
            r == Err(InvalidStart) <==> lines != [] && loc <= |lines| && 0 <= a && !LineMatches(start, lines[a])
    ensures var lines := SplitLines(text); var a := AnchorIndex(|lines|, loc); var r := BlockAt(text, loc, start, end);
            r == Err(InvalidEnd) <==>
              && lines != [] && loc <= |lines| && 0 <= a && LineMatches(start, lines[a])
              && forall j :: a <= j < |lines| ==> !LineMatches(end, lines[j])
  {
    var lines := SplitLines(text);
    if lines != [] && loc - 1 < |lines| {
      var a := AnchorIndex(|lines|, loc);
      if a >= 0 && LineMatches(start, lines[a]) {
        var k := FirstMatchFrom(lines, end, a);
        assert k < |lines| ==> LineMatches(end, lines[k]);
      }
    }
  }

  /**
   * A successful `find_block` returns the lines from the anchor (line `loc`)
   * through the first line at or after it that matches the end pattern.
   */
  lemma BlockAtLines(text: string, loc: int, start: Pattern, end: Pattern)
    requires BlockAt(text, loc, start, end).Ok?
    ensures var lines := SplitLines(text); var a := AnchorIndex(|lines|, loc);
            && 0 <= a < |lines|
            && (1 <= loc ==> a == loc - 1)
            && LineMatches(start, lines[a])
            && exists k ::
                 && a <= k < |lines| && LineMatches(end, lines[k])
                 && (forall j :: a <= j < k ==> !LineMatches(end, lines[j]))
                 && BlockAt(text, loc, start, end).value == Join("\n", lines[a..k + 1])
  {
    var lines := SplitLines(text);
    var a := AnchorIndex(|lines|, loc);
    var k := FirstMatchFrom(lines, end, a);
    assert BlockAt(text, loc, start, end).value == Join("\n", lines[a..k + 1]);
  }

  /**
   * Read back with `splitlines`, a block starts with a line matching the start
   * pattern, ends with a line matching the end pattern, and has no earlier end
   * line (for an end pattern, such as `^}$`, that an empty line does not match).
   */
  lemma {:induction false} BlockAtReadsBack(text: string, loc: int, start: Pattern, end: Pattern)
    requires BlockAt(text, loc, start, end).Ok? && !LineMatches(end, "")
    ensures var blockLines := SplitLines(BlockAt(text, loc, start, end).value);
            && |blockLines| > 0
            && LineMatches(start, blockLines[0])
            && LineMatches(end, blockLines[|blockLines| - 1])
            && forall j :: 0 <= j < |blockLines| - 1 ==> !LineMatches(end, blockLines[j])
  {
    var lines, a, k := BlockAtParts(text, loc, start, end);
    assert lines[k] != [];
    SplitJoinSlice(lines, a, k);
    var block := lines[a..k + 1];
    forall j | 0 <= j < |block| - 1
      ensures !LineMatches(end, block[j])
    {
      assert block[j] == lines[a + j];
    }
  }

  /** The pieces a successful `find_block` is made of. */
  lemma BlockAtParts(text: string, loc: int, start: Pattern, end: Pattern) returns (lines: seq<string>, a: nat, k: nat)
    requires BlockAt(text, loc, start, end).Ok?
    ensures lines == SplitLines(text) && a <= k < |lines|
    ensures LineMatches(start, lines[a]) && LineMatches(end, lines[k])
    ensures forall j :: a <= j < k ==> !LineMatches(end, lines[j])
    ensures BlockAt(text, loc, start, end).value == Join("\n", lines[a..k + 1])
  {
    lines := SplitLines(text);
    a := AnchorIndex(|lines|, loc);
    k := FirstMatchFrom(lines, end, a);
  }

  /** A run of `splitlines` lines that ends with a non-empty one reads back unchanged. */
  lemma SplitJoinSlice(lines: seq<string>, a: nat, k: nat)
    requires a <= k < |lines| && lines[k] != []
    requires forall i :: 0 <= i < |lines| ==> NoBoundary(lines[i])
    ensures var block := lines[a..k + 1];
            && SplitLines(Join("\n", block)) == block
            && block[0] == lines[a] && block[|block| - 1] == lines[k]
  {
    var block := lines[a..k + 1];
    assert forall j :: 0 <= j < |block| ==> block[j] == lines[a + j];
    SplitJoinLines(block);
  }

  /** `find_block`: the loop that appends lines until one matches the end pattern. */
  method FindBlock(text: string, loc: int, start: Pattern, end: Pattern) returns (r: Result<string>)
    ensures r == BlockAt(text, loc, start, end)
  {
    var lines := SplitLines(text);
    var idx := loc - 1;
    if lines == [] || idx >= |lines| {
      return Err(InvalidLoc);
    }
    var a := if idx >= 0 then idx else |lines| + idx;
    if a < 0 {
      return Err(LineIndexOutOfRange);
    }
    if !LineMatches(start, lines[a]) {
      return Err(InvalidStart);
    }
    var block: seq<string> := [];
    var inBlock := true;
    var i := a;
    while i < |lines|
      invariant a <= i <= |lines|
      invariant inBlock
      invariant block == lines[a..i]
      invariant forall j :: a <= j < i ==> !LineMatches(end, lines[j])
    {
      assert lines[a..i + 1] == lines[a..i] + [lines[i]];
      block := block + [lines[i]];
      if LineMatches(end, lines[i]) {
        inBlock := false;
        break;
      }
      i := i + 1;
    }
    if inBlock {
      return Err(InvalidEnd);
    }
    BlockAtFound(text, loc, start, end, a, i);
    return Ok(Join("\n", block));
  }

  /** The block ends at the first end line at or after the anchor. */
  lemma BlockAtFound(text: string, loc: int, start: Pattern, end: Pattern, a: nat, k: nat)
    requires var lines := SplitLines(text);
             && lines != [] && loc - 1 < |lines| && a == AnchorIndex(|lines|, loc)
             && a <= k < |lines| && LineMatches(start, lines[a]) && LineMatches(end, lines[k])
             && forall j :: a <= j < k ==> !LineMatches(end, lines[j])
    ensures BlockAt(text, loc, start, end) == Ok(Join("\n", SplitLines(text)[a..k + 1]))
  {
    var lines := SplitLines(text);
    assert k == FirstMatchFrom(lines, end, a);
  }

  /** `if_index`: `lst.index(item)`, or -1 where `index` raises. */
  function IfIndex<T(==)>(lst: seq<T>, item: T): (r: int)
    ensures -1 <= r < |lst|
    ensures r == -1 <==> item !in lst
    ensures r >= 0 ==> lst[r] == item && item !in lst[..r]
  {
    if lst == [] then -1
    else if lst[0] == item then 0
    else
      var k := IfIndex(lst[1..], item);
      if k == -1 then -1
      else
        assert lst[..k + 1] == [lst[0]] + lst[1..][..k];
        k + 1
  }

  /** `marker(kind)`, with the configured marker name passed in. */
  function Marker(name: string, kind: string): (m: string)
    ensures |m| == |name| + |kind| + 10
    ensures m[..5] == "<!-- " && m[|m| - 4..] == " -->"
    ensures m[5..5 + |name|] == name && m[5 + |name|..|m| - 4] == " " + kind
  {
    "<!-- " + name + " " + kind + " -->"
  }

  /**
   * A marker is a line of its own when the name has no line boundary, and
   * it starts with `<` and ends with `>`, neither of them whitespace.
   */
  lemma MarkerNoBoundary(name: string, kind: string)
    requires NoBoundary(name) && NoBoundary(kind)
    ensures var m := Marker(name, kind);
            NoBoundary(m) && !IsSpace(m[0]) && !IsSpace(m[|m| - 1])
  {
    var m := Marker(name, kind);
    forall i | 0 <= i < |m|
      ensures !IsLineBoundary(m[i])
    {
      if 5 <= i < 5 + |name| {
        assert m[i] == m[5..5 + |name|][i - 5];
      } else if 5 + |name| <= i < |m| - 4 {
        assert m[i] == m[5 + |name|..|m| - 4][i - 5 - |name|];
        assert (" " + kind)[i - 5 - |name|] == ' ' || (" " + kind)[i - 5 - |name|] == kind[i - 6 - |name|];
      } else if i < 5 {
        assert m[i] == m[..5][i];
      } else {
        assert m[i] == m[|m| - 4..][i - (|m| - 4)];
      }
    }
    assert m[0] == m[..5][0];
    assert m[|m| - 1] == m[|m| - 4..][3];
  }

  /** The start and end markers never coincide, whatever the configured name. */
  lemma MarkersDiffer(name: string)
    ensures Marker(name, "START") != Marker(name, "END")
  {
    var s := Marker(name, "START");
    var e := Marker(name, "END");
    assert |s| != |e|;
  }
}
