/**
 * lib/formatter.py, the parts that shape the table before it is rendered:
 * the `RE_BR` clean-up of a cell, `_collapse_column`, and the row
 * post-processing of `Formatter._make_table` (empty columns, sort order).
 */
module Formatter {

  import opened Errors
  import opened Builtins
  import opened Helper
  import opened Output

  // ---------------------------------------------------------------------
  // RE_BR = (^(\s*<br/>\s*)+|(\s*<br/>\s*)+$)
  // ---------------------------------------------------------------------

  /** `t` is a run of whitespace characters and `<br/>`s, in any order. */
  predicate BrSpaces(t: string)
    decreases |t|
  {
    t == [] || (IsSpace(t[0]) && BrSpaces(t[1..])) || (Br <= t && BrSpaces(t[|Br|..]))
  }

  /** `(\s*<br/>\s*)+` matches the whole of `t`: such a run with at least one `<br/>`. */
  predicate BrRun(t: string) {
    BrSpaces(t) && !NoBr(t)
  }

  /** Where the run of whitespace and `<br/>`s that starts at `i` ends. */
  function TokenEnd(s: string, i: nat): (j: nat)
    requires i <= |s|
    ensures i <= j <= |s| && BrSpaces(s[i..j])
    ensures j < |s| ==> !IsSpace(s[j]) && !(Br <= s[j..])
    decreases |s| - i
  {
    if i < |s| && IsSpace(s[i]) then
      var j := TokenEnd(s, i + 1);
      assert s[i..j][1..] == s[i + 1..j];
      j
    else if Br <= s[i..] then
      var j := TokenEnd(s, i + |Br|);
      SliceInSlice(s, i, j, 0, |Br|);
      SliceOfSlice(s, i, j, |Br|);
      assert s[i..][..|Br|] == s[i..i + |Br|];
      j
    else i
  }

  /** End of the `^(\s*<br/>\s*)+` match, or 0 where that alternative does not match. */
  function LeadEnd(s: string): (a: nat)
    ensures a <= |s|
  {
    var q := TokenEnd(s, 0);
    if NoBr(s[..q]) then 0 else q
  }

  /**
   * Start of the `(\s*<br/>\s*)+$` match that `re.sub` finds searching from
   * `p` on: the first position whose suffix is such a run, or `|s|` for none.
   */
  function TrailStart(s: string, p: nat): (e: nat)
    requires p <= |s|
    ensures p <= e <= |s|
    ensures e < |s| ==> BrRun(s[e..])
    ensures forall k :: p <= k < e ==> !BrRun(s[k..])
    decreases |s| - p
  {
    if p == |s| then |s| else if BrRun(s[p..]) then p else TrailStart(s, p + 1)
  }

  /** `RE_BR.sub('', s)`: drop the leading match, then the trailing one. */
  function CleanBr(s: string): string {
    var a := LeadEnd(s);
    s[a..TrailStart(s, a)]
  }

  /** What `RE_BR.sub` removes is a whitespace-and-`<br/>` run at the front and one at the back. */
  lemma CleanBrRemoves(s: string) returns (a: nat, e: nat)
    ensures a <= e <= |s| && CleanBr(s) == s[a..e]
    ensures a == 0 || BrRun(s[..a])
    ensures e == |s| || BrRun(s[e..])
  {
    a := LeadEnd(s);
    e := TrailStart(s, a);
  }

  /** Two runs of whitespace and `<br/>`s make one. */
  lemma {:induction false} BrSpacesConcat(x: string, y: string)
    requires BrSpaces(x) && BrSpaces(y)
    ensures BrSpaces(x + y)
    decreases |x|
  {
    if x != [] {
      if IsSpace(x[0]) && BrSpaces(x[1..]) {
        assert (x + y)[1..] == x[1..] + y;
        BrSpacesConcat(x[1..], y);
      } else {
        assert (x + y)[..|Br|] == x[..|Br|];
        assert (x + y)[|Br|..] == x[|Br|..] + y;
        BrSpacesConcat(x[|Br|..], y);
      }
    } else {
      assert x + y == y;
    }
  }

  /** A `<br/>` in the back part is a `<br/>` of the whole. */
  lemma BrInBack(x: string, y: string)
    requires !NoBr(y)
    ensures !NoBr(x + y)
  {
    var i :| 0 <= i < |y| && BrAt(y, i);
    assert (x + y)[|x| + i..|x| + i + |Br|] == y[i..i + |Br|];
    assert BrAt(x + y, |x| + i);
  }

  /** A run that reaches `e`, followed by nothing or by another run, is a run to the end. */
  lemma TrailExtends(s: string, i: nat, e: nat)
    requires i <= e <= |s| && BrRun(s[i..e])
    requires e == |s| || BrRun(s[e..])
    ensures BrRun(s[i..])
  {
    if e < |s| {
      assert s[i..] == s[i..e] + s[e..];
      BrSpacesConcat(s[i..e], s[e..]);
      BrInBack(s[i..e], s[e..]);
    } else {
      assert s[i..] == s[i..e];
    }
  }

  /** The cleaned cell does not end with a run of whitespace and `<br/>`s. */
  lemma CleanBrNoTrailingRun(s: string, k: nat)
    requires k < |CleanBr(s)|
    ensures !BrRun(CleanBr(s)[k..])
  {
    var a := LeadEnd(s);
    var e := TrailStart(s, a);
    assert CleanBr(s)[k..] == s[a + k..e];
    if BrRun(s[a + k..e]) {
      TrailExtends(s, a + k, e);
      assert false;
    }
  }

  /** Whitespace from `i` to `k` and a `<br/>` at `k`: the run from `i` reaches past that `<br/>`. */
  lemma {:induction false} TokenEndPast(s: string, i: nat, k: nat)
    requires i <= k && k + |Br| <= |s| && s[k..k + |Br|] == Br
    requires forall j :: i <= j < k ==> IsSpace(s[j])
    ensures TokenEnd(s, i) >= k + |Br|
    decreases k - i
  {
    if i < k {
      TokenEndPast(s, i + 1, k);
    } else {
      assert s[i..][..|Br|] == Br;
    }
  }

  /** Where nothing was removed at the front, whitespace is not followed by a `<br/>`. */
  lemma NoBrWithoutLead(s: string, w: nat)
    requires LeadEnd(s) == 0 && w + |Br| <= |s|
    requires forall j :: 0 <= j < w ==> IsSpace(s[j])
    ensures s[w..w + |Br|] != Br
  {
    if s[w..w + |Br|] == Br {
      TokenEndPast(s, 0, w);
      var q := TokenEnd(s, 0);
      assert s[..q][w..w + |Br|] == s[w..w + |Br|];
      assert BrAt(s[..q], w);
      assert false;
    }
  }

  /** After the leading match, whitespace is never followed by a `<br/>`. */
  lemma NoBrAfterLead(s: string, w: nat, e: nat)
    requires LeadEnd(s) + w <= e <= |s|
    requires forall j :: LeadEnd(s) <= j < LeadEnd(s) + w ==> IsSpace(s[j])
    ensures !(Br <= s[LeadEnd(s) + w..e])
  {
    var a := LeadEnd(s);
    if a + w + |Br| <= e {
      if a == 0 {
        NoBrWithoutLead(s, w);
      } else {
        assert s[a..][..|Br|] == s[a..a + |Br|];
      }
      assert s[a + w..e][..|Br|] == s[a + w..a + w + |Br|];
    }
  }

  /** The cleaned cell does not start with whitespace and a `<br/>`. */
  lemma CleanBrNoLeadingRun(s: string)
    ensures var r := CleanBr(s); !(Br <= r[SpaceRun(r, 0)..])
  {
    var a := LeadEnd(s);
    var e := TrailStart(s, a);
    var r := CleanBr(s);
    var w := SpaceRun(r, 0);
    assert r[w..] == s[a + w..e];
    forall j | a <= j < a + w
      ensures IsSpace(s[j])
    {
      assert s[j] == r[j - a];
    }
    NoBrAfterLead(s, w, e);
  }

  /** From `i` on, a run of whitespace not followed by a `<br/>` is all the leading match can take. */
  lemma {:induction false} TokenEndSpaces(s: string, i: nat)
    requires i <= |s| && !(Br <= s[SpaceRun(s, i)..])
    ensures TokenEnd(s, i) == SpaceRun(s, i)
    decreases |s| - i
  {
    if i < |s| && IsSpace(s[i]) {
      TokenEndSpaces(s, i + 1);
    }
  }

  /** The characters of a `<br/>` at `i`: a `<` that none of the four after it repeats. */
  lemma BrChars(t: string, i: nat)
    requires BrAt(t, i)
    ensures t[i] == '<' && t[i + 1] == 'b' && t[i + 2] == 'r' && t[i + 3] == '/' && t[i + 4] == '>'
  {
    var w := t[i..i + |Br|];
    assert w == Br;
    assert t[i] == w[0] && t[i + 1] == w[1] && t[i + 2] == w[2] && t[i + 3] == w[3] && t[i + 4] == w[4];
  }

  /** Whitespace holds no `<br/>`. */
  lemma SpacesNoBr(t: string)
    requires forall i :: 0 <= i < |t| ==> IsSpace(t[i])
    ensures NoBr(t)
  {
    forall i: nat | i < |t|
      ensures !BrAt(t, i)
    {
      if BrAt(t, i) {
        BrChars(t, i);
      }
    }
  }

  /** A cell whose leading whitespace is not followed by a `<br/>` loses nothing at the front. */
  lemma LeadEndZero(r: string)
    requires !(Br <= r[SpaceRun(r, 0)..])
    ensures LeadEnd(r) == 0
  {
    TokenEndSpaces(r, 0);
    SpacesNoBr(r[..TokenEnd(r, 0)]);
  }

  /** A cell with neither a leading nor a trailing run comes through the clean-up unchanged. */
  lemma CleanBrKeeps(r: string)
    requires !(Br <= r[SpaceRun(r, 0)..])
    requires forall k :: 0 <= k < |r| ==> !BrRun(r[k..])
    ensures CleanBr(r) == r
  {
    LeadEndZero(r);
    assert TrailStart(r, 0) == |r|;
    assert r[0..|r|] == r;
  }

  /** Cleaning a cell twice is cleaning it once. */
  lemma CleanBrIdempotent(s: string)
    ensures CleanBr(CleanBr(s)) == CleanBr(s)
  {
    var r := CleanBr(s);
    CleanBrNoLeadingRun(s);
    forall k | 0 <= k < |r|
      ensures !BrRun(r[k..])
    {
      CleanBrNoTrailingRun(s, k);
    }
    CleanBrKeeps(r);
  }

  // ---------------------------------------------------------------------
  // _collapse_column
  // ---------------------------------------------------------------------

  const DetailsOpen: string := "<details>"
  const DetailsClose: string := "</details>"

  /** The `<details>` wrapping of a cleaned value longer than the threshold. */
  function Details(elem: string, threshold: int): (r: string)
    ensures |elem| > threshold ==> |r| == |elem| + |DetailsOpen| + |DetailsClose|
                                    && DetailsOpen <= r && r[|DetailsOpen|..|DetailsOpen| + |elem|] == elem
                                    && r[|DetailsOpen| + |elem|..] == DetailsClose
    ensures |elem| <= threshold ==> r == elem
  {
    if |elem| > threshold then
      var r := DetailsOpen + elem + DetailsClose;
      assert r[|DetailsOpen|..|DetailsOpen| + |elem|] == elem;
      assert r[|DetailsOpen| + |elem|..] == DetailsClose;
      r
    else elem
  }

  /** The new text of one cell of a collapsed column. */
  function CollapseCell(cell: string, keepFirstLine: bool, threshold: int): string {
    var elem := CleanBr(cell);
    if keepFirstLine then
      var lines := Split(elem, Br);
      var first := Strip(lines[0]);
      var rest := CleanBr(Strip(Join(Br, lines[1..])));
      first + Br + Details(rest, threshold)
    else Details(elem, threshold)
  }

  /** Without `keep_first_line`: the cleaned cell, wrapped in `<details>` exactly when it is longer than the threshold. */
  lemma CollapsePlain(cell: string, threshold: int)
    ensures var c := CleanBr(cell); var r := CollapseCell(cell, false, threshold);
            && (|c| > threshold ==> r == DetailsOpen + c + DetailsClose)
            && (|c| <= threshold ==> r == c)
  {
  }

  /** The text before the first `<br/>` (all of it if there is none). */
  function BeforeBr(c: string): (u: string)
    ensures NoBr(u)
  {
    match IndexOf(c, Br)
    case None =>
      NoOccurrenceNoBr(c);
      assert c[..|c|] == c;
      c
    case Some(i) =>
      NoOccurrenceNoBr(c, i);
      c[..i]
  }

  /** The first line that `keep_first_line` keeps: the text before the first `<br/>`, stripped. */
  function FirstLine(c: string): string {
    Strip(BeforeBr(c))
  }

  /** The text after the first `<br/>`, stripped and cleaned again (empty if there is none). */
  function LaterLines(c: string): string {
    match IndexOf(c, Br)
    case None => ""
    case Some(i) => CleanBr(Strip(c[i + |Br|..]))
  }

  /** Where `<br/>` does not occur before `n`, the first `n` characters hold none. */
  lemma NoOccurrenceNoBr(c: string, n: nat := |c|)
    requires n <= |c| && forall j :: 0 <= j < n ==> !OccursAt(c, Br, j)
    ensures NoBr(c[..n])
  {
    forall j: nat | j < n
      ensures !BrAt(c[..n], j)
    {
      PrefixBrAt(c, n, j);
    }
  }

  /** A `<br/>` in a prefix is a `<br/>` of the whole. */
  lemma PrefixBrAt(c: string, n: nat, j: nat)
    requires j < n <= |c|
    ensures BrAt(c[..n], j) ==> OccursAt(c, Br, j)
  {
    if j + |Br| <= n {
      assert c[..n][j..j + |Br|] == c[j..j + |Br|];
    }
  }

  /**
   * With `keep_first_line`: the stripped first line, `<br/>`, then the rest,
   * and only the rest is wrapped, exactly when it is longer than the threshold.
   */
  lemma CollapseKeepFirstLine(cell: string, threshold: int)
    ensures var c := CleanBr(cell); var first := FirstLine(c); var rest := LaterLines(c);
            CollapseCell(cell, true, threshold) == first + Br + Details(rest, threshold)
  {
    SplitHeadTail(CleanBr(cell), Br);
  }

  /** A slice of text without `<br/>` has none either. */
  lemma NoBrSlice(u: string, a: nat, b: nat)
    requires a <= b <= |u| && NoBr(u)
    ensures NoBr(u[a..b])
  {
    forall i: nat | i < b - a
      ensures !BrAt(u[a..b], i)
    {
      if BrAt(u[a..b], i) {
        SliceInSlice(u, a, b, i, i + |Br|);
        assert BrAt(u, a + i);
      }
    }
  }

  /** The first line holds no `<br/>` and no surrounding whitespace. */
  lemma FirstLineClean(c: string)
    ensures var first := FirstLine(c);
            NoBr(first) && (first == [] || (!IsSpace(first[0]) && !IsSpace(first[|first| - 1])))
  {
    var u := BeforeBr(c);
    var a, b := StripSlice(u);
    NoBrSlice(u, a, b);
  }

  /** A `<br/>` that would lie within a front part free of them does not occur. */
  lemma NoBrInFront(front: string, back: string, j: nat)
    requires NoBr(front) && j + |Br| <= |front|
    ensures !OccursAt(front + back, Br, j)
  {
    assert (front + back)[j..j + |Br|] == front[j..j + |Br|];
    assert !BrAt(front, j);
  }

  /** The characters of the first line, then a `<br/>`: that `<br/>` is the first one. */
  lemma FirstBrAfter(first: string, tail: string)
    requires NoBr(first)
    ensures IndexOf(first + Br + tail, Br) == Some(|first|)
  {
    var r := first + Br + tail;
    assert r[|first|..|first| + |Br|] == Br;
    assert OccursAt(r, Br, |first|);
    forall j | 0 <= j < |first|
      ensures !OccursAt(r, Br, j)
    {
      if j + |Br| <= |first| {
        assert r == first + (Br + tail);
        NoBrInFront(first, Br + tail, j);
      } else if OccursAt(r, Br, j) {
        BrChars(r, j);
        BrChars(r, |first|);
      }
    }
  }

  /**
   * In a collapsed cell that keeps its first line, the first `<br/>` is the
   * one right after that line: splitting the result again gives the line back.
   */
  lemma CollapsedFirstBr(cell: string, threshold: int)
    ensures var first := FirstLine(CleanBr(cell));
            IndexOf(CollapseCell(cell, true, threshold), Br) == Some(|first|)
  {
    var c := CleanBr(cell);
    CollapseKeepFirstLine(cell, threshold);
    FirstLineClean(c);
    FirstBrAfter(FirstLine(c), Details(LaterLines(c), threshold));
  }

  /** A row with cell `idx` collapsed and every other cell as it was. */
  function CollapsedRow(row: seq<string>, idx: nat, keepFirstLine: bool, threshold: int): (r: seq<string>)
    requires idx < |row|
    ensures |r| == |row| && r[idx] == CollapseCell(row[idx], keepFirstLine, threshold)
    ensures forall k :: 0 <= k < |row| && k != idx ==> r[k] == row[k]
  {
    row[idx := CollapseCell(row[idx], keepFirstLine, threshold)]
  }

  /** The first row from `i` on that is too short to have cell `idx`; `|rows|` when there is none. */
  function FirstShortRow(rows: seq<seq<string>>, idx: nat, i: nat): (n: nat)
    requires i <= |rows|
    ensures i <= n <= |rows|
    ensures forall j :: i <= j < n ==> idx < |rows[j]|
    ensures n < |rows| ==> |rows[n]| <= idx
    decreases |rows| - i
  {
    if i == |rows| || |rows[i]| <= idx then i else FirstShortRow(rows, idx, i + 1)
  }

  /** The table with the data rows before `n` collapsed at `idx` and the others as they were. */
  function CollapsedTable(rows: seq<seq<string>>, idx: nat, keepFirstLine: bool, threshold: int, n: nat)
    : (r: seq<seq<string>>)
    requires 1 <= n <= |rows| && forall j :: 1 <= j < n ==> idx < |rows[j]|
    ensures |r| == |rows| && r[0] == rows[0]
    ensures forall j :: 1 <= j < n ==> r[j] == CollapsedRow(rows[j], idx, keepFirstLine, threshold)
    ensures forall j :: n <= j < |rows| ==> r[j] == rows[j]
  {
    seq(|rows|, j requires 0 <= j < |rows| =>
      if 1 <= j < n then CollapsedRow(rows[j], idx, keepFirstLine, threshold) else rows[j])
  }

  /** Collapsing row `i` extends the collapsed rows by one. */
  lemma CollapseStep(rows: seq<seq<string>>, idx: nat, keepFirstLine: bool, threshold: int, i: nat)
    requires 1 <= i < |rows| && forall j :: 1 <= j <= i ==> idx < |rows[j]|
    ensures CollapsedTable(rows, idx, keepFirstLine, threshold, i)[i := CollapsedRow(rows[i], idx, keepFirstLine, threshold)]
            == CollapsedTable(rows, idx, keepFirstLine, threshold, i + 1)
  {
  }

  /**
   * `_collapse_column(table, column, keep_first_line)`: rewrites cell `idx`
   * of every data row in place, where `idx` is the column's place in the
   * header. A row too short for it raises, with the rows before it already
   * rewritten; a header without the column leaves the table as it is.
   */
  method CollapseColumn(table: array<seq<string>>, column: string, keepFirstLine: bool, threshold: int)
    returns (r: Result<()>)
    requires table.Length > 0
    modifies table
    ensures IfIndex(old(table[0]), column) == -1 ==> r == Ok(()) && table[..] == old(table[..])
    ensures var idx := IfIndex(old(table[0]), column);
            idx >= 0 ==>
              var n := FirstShortRow(old(table[..]), idx, 1);
              && table[..] == CollapsedTable(old(table[..]), idx, keepFirstLine, threshold, n)
              && (r.Err? <==> n < table.Length)
              && (r.Err? ==> r.error == CellIndexOutOfRange)
  {
    var idx := IfIndex(table[0], column);
    if idx == -1 {
      return Ok(());
    }
    ghost var rows := table[..];
    ghost var n := FirstShortRow(rows, idx, 1);
    var i := 1;
    while i < table.Length
      invariant 1 <= i <= n
      invariant table[..] == CollapsedTable(rows, idx, keepFirstLine, threshold, i)
    {
      if |table[i]| <= idx {
        return Err(CellIndexOutOfRange);
      }
      assert table[i] == rows[i];
      CollapseStep(rows, idx, keepFirstLine, threshold, i);
      table[i] := CollapsedRow(table[i], idx, keepFirstLine, threshold);
      i := i + 1;
    }
    r := Ok(());
  }

  // ---------------------------------------------------------------------
  // _make_table: remove_empty_columns
  // ---------------------------------------------------------------------

  /** Every row has as many cells as every other. */
  predicate Rectangular(rows: seq<seq<string>>) {
    forall i, j :: 0 <= i < |rows| && 0 <= j < |rows| ==> |rows[i]| == |rows[j]|
  }

  /** Column `c` has a non-empty cell: `any(column)`. */
  predicate ColumnUsed(rows: seq<seq<string>>, c: nat)
    requires forall i :: 0 <= i < |rows| ==> c < |rows[i]|
  {
    exists i :: 0 <= i < |rows| && rows[i][c] != ""
  }

  /** The columns from `c` on, below `width`, that have a non-empty cell, in order. */
  function UsedColumns(rows: seq<seq<string>>, width: nat, c: nat): (cols: seq<nat>)
    requires c <= width && forall i :: 0 <= i < |rows| ==> width <= |rows[i]|
    ensures forall k :: 0 <= k < |cols| ==> c <= cols[k] < width && ColumnUsed(rows, cols[k])
    ensures forall k, l :: 0 <= k < l < |cols| ==> cols[k] < cols[l]
    ensures forall d :: c <= d < width && d !in cols ==> !ColumnUsed(rows, d)
    decreases width - c
  {
    if c == width then []
    else if ColumnUsed(rows, c) then [c] + UsedColumns(rows, width, c + 1)
    else UsedColumns(rows, width, c + 1)
  }

  /** The rows cut down to the given columns. */
  function Project(rows: seq<seq<string>>, cols: seq<nat>): (r: seq<seq<string>>)
    requires forall i, k :: 0 <= i < |rows| && 0 <= k < |cols| ==> cols[k] < |rows[i]|
    ensures |r| == |rows|
    ensures forall i :: 0 <= i < |r| ==> |r[i]| == |cols| && forall k :: 0 <= k < |cols| ==> r[i][k] == rows[i][cols[k]]
  {
    seq(|rows|, i requires 0 <= i < |rows| => seq(|cols|, k requires 0 <= k < |cols| => rows[i][cols[k]]))
  }

  /**
   * Lines 87-91 of `_make_table`: transpose with `zip(*rows, strict=True)`,
   * keep the columns with a non-empty cell, transpose back. Rows of unequal
   * length raise; when no column is kept, the second `zip` yields no rows at all.
   */
  function RemoveEmptyColumns(rows: seq<seq<string>>): Result<seq<seq<string>>> {
    if !Rectangular(rows) then Err(RowLengthMismatch)
    else if rows == [] then Ok([])
    else
      var cols := UsedColumns(rows, |rows[0]|, 0);
      if cols == [] then Ok([]) else Ok(Project(rows, cols))
  }

  /**
   * What removing empty columns promises: it fails exactly on ragged rows;
   * otherwise every column left has a non-empty cell, every column dropped
   * was empty, the columns left keep their order and their cells, and rows
   * survive exactly when some column does.
   */
  lemma RemoveEmptyColumnsSpec(rows: seq<seq<string>>)
    ensures RemoveEmptyColumns(rows).Err? <==> !Rectangular(rows)
    ensures RemoveEmptyColumns(rows).Err? ==> RemoveEmptyColumns(rows).error == RowLengthMismatch
    ensures Rectangular(rows) && rows != [] ==>
              var out := RemoveEmptyColumns(rows).value;
              var cols := UsedColumns(rows, |rows[0]|, 0);
              && (out == [] <==> forall c :: 0 <= c < |rows[0]| ==> !ColumnUsed(rows, c))
              && (out != [] ==>
                    && |out| == |rows|
                    && (forall i :: 0 <= i < |out| ==> |out[i]| == |cols|)
                    && (forall k :: 0 <= k < |cols| ==> ColumnUsed(out, k))
                    && (forall i, k :: 0 <= i < |out| && 0 <= k < |cols| ==> out[i][k] == rows[i][cols[k]]))
  {
    if Rectangular(rows) && rows != [] {
      var cols := UsedColumns(rows, |rows[0]|, 0);
      var out := RemoveEmptyColumns(rows).value;
      if cols == [] {
        assert forall c :: 0 <= c < |rows[0]| ==> !ColumnUsed(rows, c);
      } else {
        assert ColumnUsed(rows, cols[0]);
        forall k | 0 <= k < |cols|
          ensures ColumnUsed(out, k)
        {
          var i :| 0 <= i < |rows| && rows[i][cols[k]] != "";
          assert out[i][k] != "";
        }
      }
    }
  }

  // ---------------------------------------------------------------------
  // _make_table: sort_order 'alpha-asc'
  // ---------------------------------------------------------------------

  /** Python's `a <= b` on strings: code point by code point, a prefix first. */
  predicate LexLe(a: string, b: string)
    decreases |a|
  {
    a == [] || (b != [] && (a[0] < b[0] || (a[0] == b[0] && LexLe(a[1..], b[1..]))))
  }

  /** Any two strings are ordered one way or the other. */
  lemma {:induction false} LexLeTotal(a: string, b: string)
    ensures LexLe(a, b) || LexLe(b, a)
    decreases |a|
  {
    if a != [] && b != [] && a[0] == b[0] {
      LexLeTotal(a[1..], b[1..]);
    }
  }

  /** The order is transitive. */
  lemma {:induction false} LexLeTrans(a: string, b: string, c: string)
    requires LexLe(a, b) && LexLe(b, c)
    ensures LexLe(a, c)
    decreases |a|
  {
    if a != [] && a[0] == b[0] && b[0] == c[0] {
      LexLeTrans(a[1..], b[1..], c[1..]);
    }
  }

  /** Strings ordered both ways are equal. */
  lemma {:induction false} LexLeAntisymmetric(a: string, b: string)
    requires LexLe(a, b) && LexLe(b, a)
    ensures a == b
    decreases |a|
  {
    if a != [] {
      LexLeAntisymmetric(a[1..], b[1..]);
      assert a == [a[0]] + a[1..] && b == [b[0]] + b[1..];
    }
  }

  /** Every row has a first cell to sort by. */
  predicate AllKeyed(rows: seq<seq<string>>) {
    forall i :: 0 <= i < |rows| ==> rows[i] != []
  }

  /** `rows.sort(key=lambda x: x[0])` has run: the first cells are in order. */
  predicate SortedByFirst(rows: seq<seq<string>>)
    requires AllKeyed(rows)
  {
    forall i, j :: 0 <= i < j < |rows| ==> LexLe(rows[i][0], rows[j][0])
  }

  /** The first `n` rows are in order of their first cells. */
  predicate SortedPrefix(rows: seq<seq<string>>, n: nat)
    requires AllKeyed(rows) && n <= |rows|
  {
    forall p, q :: 0 <= p < q < n ==> LexLe(rows[p][0], rows[q][0])
  }

  /**
   * `rows.sort(key=lambda x: x[0])` on the list in place. The key of every
   * row is taken before any comparison, so an empty row raises with the list
   * untouched; otherwise the rows end up ordered by first cell, as a
   * rearrangement of the rows there were.
   */
  method SortRows(a: array<seq<string>>) returns (r: Result<()>)
    modifies a
    ensures r.Err? <==> !AllKeyed(old(a[..]))
    ensures r.Err? ==> r.error == EmptySortKey && a[..] == old(a[..])
    ensures r.Ok? ==> AllKeyed(a[..]) && SortedByFirst(a[..]) && multiset(a[..]) == multiset(old(a[..]))
  {
    var k := 0;
    while k < a.Length
      invariant 0 <= k <= a.Length
      invariant forall m :: 0 <= m < k ==> a[m] != []
    {
      if a[k] == [] {
        return Err(EmptySortKey);
      }
      k := k + 1;
    }
    var i := 0;
    while i < a.Length
      invariant 0 <= i <= a.Length
      invariant AllKeyed(a[..]) && multiset(a[..]) == multiset(old(a[..]))
      invariant SortedPrefix(a[..], i)
    {
      InsertRow(a, i);
      i := i + 1;
    }
    r := Ok(());
  }

  /** One step of the insertion sort: row `i` moves down into the sorted rows before it. */
  method InsertRow(a: array<seq<string>>, i: nat)
    requires i < a.Length && AllKeyed(a[..]) && SortedPrefix(a[..], i)
    modifies a
    ensures AllKeyed(a[..]) && SortedPrefix(a[..], i + 1)
    ensures multiset(a[..]) == multiset(old(a[..]))
  {
    var j := i;
    while j > 0 && !LexLe(a[j - 1][0], a[j][0])
      invariant 0 <= j <= i
      invariant AllKeyed(a[..]) && Inserting(a[..], j, i)
      invariant multiset(a[..]) == multiset(old(a[..]))
    {
      SwapStep(a[..], j, i);
      a[j - 1], a[j] := a[j], a[j - 1];
      j := j - 1;
    }
    InsertDone(a[..], j, i);
  }

  /**
   * Row `j` is on its way down: the rows up to `i` other than it are in
   * order, and it is no greater than any row after it.
   */
  predicate Inserting(s: seq<seq<string>>, j: nat, i: nat)
    requires AllKeyed(s) && j <= i < |s|
  {
    && (forall p, q :: 0 <= p < q <= i && p != j && q != j ==> LexLe(s[p][0], s[q][0]))
    && (forall q :: j < q <= i ==> LexLe(s[j][0], s[q][0]))
  }

  /** Swapping the row on its way down with a greater one before it keeps it on its way. */
  lemma SwapStep(s: seq<seq<string>>, j: nat, i: nat)
    requires AllKeyed(s) && 0 < j <= i < |s| && Inserting(s, j, i) && !LexLe(s[j - 1][0], s[j][0])
    ensures var t := s[j - 1 := s[j]][j := s[j - 1]];
            AllKeyed(t) && Inserting(t, j - 1, i) && multiset(t) == multiset(s)
  {
    LexLeTotal(s[j - 1][0], s[j][0]);
  }

  /** The row on its way down that is no less than the one before it has arrived. */
  lemma InsertDone(s: seq<seq<string>>, j: nat, i: nat)
    requires AllKeyed(s) && j <= i < |s| && Inserting(s, j, i)
    requires j > 0 ==> LexLe(s[j - 1][0], s[j][0])
    ensures SortedPrefix(s, i + 1)
  {
    forall p | 0 <= p < j
      ensures LexLe(s[p][0], s[j][0])
    {
      if p < j - 1 {
        LexLeTrans(s[p][0], s[j - 1][0], s[j][0]);
      }
    }
  }

  // ---------------------------------------------------------------------
  // _make_table, lines 87-94
  // ---------------------------------------------------------------------

  /**
   * The post-processing of the data rows in `_make_table`: drop the empty
   * columns when `remove_empty_columns` is set, then sort by first cell
   * when the sort order is `'alpha-asc'`. The header row is not involved.
   */
  method ArrangeRows(rows: seq<seq<string>>, removeEmptyColumns: bool, sortOrder: string)
    returns (r: Result<seq<seq<string>>>)
    ensures var kept := if removeEmptyColumns then RemoveEmptyColumns(rows) else Ok(rows);
            && (kept.Err? ==> r == kept)
            && (kept.Ok? && sortOrder != "alpha-asc" ==> r == kept)
            && (kept.Ok? && sortOrder == "alpha-asc" ==>
                  && (r.Err? <==> !AllKeyed(kept.value))
                  && (r.Err? ==> r.error == EmptySortKey)
                  && (r.Ok? ==> AllKeyed(r.value) && SortedByFirst(r.value)
                                && multiset(r.value) == multiset(kept.value)))
  {
    var current := rows;
    if removeEmptyColumns {
      var kept := RemoveEmptyColumns(rows);
      if kept.Err? {
        return Err(kept.error);
      }
      current := kept.value;
    }
    if sortOrder == "alpha-asc" {
      var a := new seq<string>[|current|](i requires 0 <= i < |current| => current[i]);
      assert a[..] == current;
      var sorted := SortRows(a);
      if sorted.Err? {
        return Err(sorted.error);
      }
      current := a[..];
    }
    return Ok(current);
  }
}
