/**
 * lib/models/input.py: the parsed HCL items and how each one is located in
 * the raw `.tf` text. `find` turns start-pattern matches into 1-based line
 * numbers and cuts a block at each; `HclLocal.find` picks one `locals`
 * block out of several by the indentation of the local's assignment.
 */
module Input {

  import opened Errors
  import opened Builtins
  import opened Helper
  import opened Scanner

  // ---------------------------------------------------------------------
  // Parsed items
  // ---------------------------------------------------------------------

  datatype Validation = Validation(condition: string, errorMessage: string)

  /** A variable's `default`: absent (the `NoDefault` marker), `null`, or a value. */
  datatype DefaultValue = NoDefault | Null | Given(value: string)

  datatype VariableFields = VariableFields(
    typ: string, description: string, default: DefaultValue, validation: seq<Validation>)

  datatype OutputFields = OutputFields(
    value: Option<string>, description: string, precondition: seq<Validation>, postcondition: seq<Validation>)

  /** `HclVariableFields.required`: the variable has no default at all (a `null` default is still a default). */
  function Required(f: VariableFields): (r: bool)
    ensures r <==> !(f.default.Null? || f.default.Given?)
  {
    f.default.NoDefault?
  }

  /** A root model: the parsed dict from names to items, in insertion order. */
  datatype RootModel<T> = RootModel(entries: seq<(string, T)>)

  function Keys<T>(m: RootModel<T>): set<string> {
    set i | 0 <= i < |m.entries| :: m.entries[i].0
  }

  /** `validate_root`: a single-element model must hold exactly one entry. */
  function ValidateRoot<T>(m: RootModel<T>): (r: Result<RootModel<T>>)
    ensures r.Ok? <==> |m.entries| == 1
    ensures r.Ok? ==> r.value == m
    ensures r.Err? ==> r.error == NotSingleElement
  {
    if |m.entries| != 1 then Err(NotSingleElement) else Ok(m)
  }

  /** `name`: the first key (`next(iter(...))`); the validator makes it the only one. */
  function Name<T>(m: RootModel<T>): string
    requires |m.entries| > 0
  {
    m.entries[0].0
  }

  /** A model that passed validation has exactly one key, and `name` is it. */
  lemma ValidatedName<T>(m: RootModel<T>)
    requires ValidateRoot(m).Ok?
    ensures Keys(m) == {Name(m)}
  {
    assert m.entries[0].0 in Keys(m);
  }

  /** `HclOutput.is_validation`: outputs named `validate_...` or `validation_...`. */
  function IsValidation(name: string): (r: bool)
    ensures r <==> (|name| >= 9 && name[..9] == "validate_") || (|name| >= 11 && name[..11] == "validation_")
  {
    "validate_" <= name || "validation_" <= name
  }

  // ---------------------------------------------------------------------
  // Start patterns
  // ---------------------------------------------------------------------

  /** A pattern that matches within one line: non-empty and free of line boundaries. */
  predicate SingleLine(t: string) {
    |t| > 0 && NoBoundary(t)
  }

  lemma IdentifierSingleLine(name: string)
    requires IsIdentifier(name)
    ensures NoBoundary(name)
  {
    forall i | 0 <= i < |name|
      ensures !IsLineBoundary(name[i])
    {
      assert IsWordChar(name[i]) || name[i] == '-';
    }
  }

  /**
   * `^{keyword} "{name}" {$`: the start pattern of a variable (keyword
   * `variable`) or of an output (keyword `output`).
   */
  function BlockPattern(keyword: string, name: string): (p: Pattern)
    requires IsIdentifier(keyword) && IsIdentifier(name)
    ensures p.Whole? && SingleLine(p.text) && keyword <= p.text
  {
    IdentifierSingleLine(keyword);
    IdentifierSingleLine(name);
    Whole(keyword + " \"" + name + "\" {")
  }

  const VariableKeyword: string := "variable"
  const OutputKeyword: string := "output"

  /** `^locals {$` */
  const LocalsPattern: Pattern := Whole("locals {")

  /** `^resource "{type}" "{identifier}" {`, without `$`: the line only has to start with it. */
  function ResourcePattern(typ: string, identifier: string): (p: Pattern)
    requires IsIdentifier(typ) && IsIdentifier(identifier)
    ensures p.Head? && SingleLine(p.text)
  {
    IdentifierSingleLine(typ);
    IdentifierSingleLine(identifier);
    Head("resource \"" + typ + "\" \"" + identifier + "\" {")
  }

  /**
   * The pattern matches the file text at `q` under re.MULTILINE: `^` at a
   * line start, the text itself, and for `$` a newline or the end right after.
   */
  predicate PatternAt(text: string, p: Pattern, q: nat) {
    && AtLineStart(text, q) && OccursAt(text, p.text, q)
    && (p.Whole? ==> q + |p.text| == |text| || text[q + |p.text|] == '\n')
  }

  /** Start offsets of `re.finditer(start_regex, file_content, re.MULTILINE)` from `q` on. */
  function StartMatchesFrom(text: string, p: Pattern, q: nat): (ms: seq<nat>)
    requires SingleLine(p.text) && q <= |text|
    ensures forall i :: 0 <= i < |ms| ==> q <= ms[i] < |text| && PatternAt(text, p, ms[i])
    ensures forall i, j :: 0 <= i < j < |ms| ==> ms[i] < ms[j]
    decreases |text| - q
  {
    if q == |text| then []
    else if PatternAt(text, p, q) then [q] + StartMatchesFrom(text, p, q + |p.text|)
    else StartMatchesFrom(text, p, q + 1)
  }

  /**
   * No match is lost to the jump past a match: a single-line pattern cannot
   * match again before its own end, since no line starts inside it.
   */
  lemma {:induction false} StartMatchesComplete(text: string, p: Pattern, q: nat, k: nat)
    requires SingleLine(p.text) && q <= k < |text| && PatternAt(text, p, k)
    ensures k in StartMatchesFrom(text, p, q)
    decreases |text| - q
  {
    if PatternAt(text, p, q) {
      var rest := StartMatchesFrom(text, p, q + |p.text|);
      assert StartMatchesFrom(text, p, q) == [q] + rest;
      if k != q {
        if k < q + |p.text| {
          NoLineStartInside(text, p.text, q, k);
          assert false;
        }
        StartMatchesComplete(text, p, q + |p.text|, k);
      }
    } else {
      assert StartMatchesFrom(text, p, q) == StartMatchesFrom(text, p, q + 1);
      StartMatchesComplete(text, p, q + 1, k);
    }
  }

  /** No line starts strictly inside an occurrence of a text without line boundaries. */
  lemma NoLineStartInside(text: string, t: string, q: nat, k: nat)
    requires OccursAt(text, t, q) && NoBoundary(t) && q < k < q + |t|
    ensures !AtLineStart(text, k)
  {
    assert text[k - 1] == text[q..q + |t|][k - 1 - q];
  }

  /** The 1-based line of offset `q`: `file_content.count('\n', 0, q) + 1`. */
  function LineOf(text: string, q: nat): (loc: int)
    requires q <= |text|
    ensures loc >= 1
  {
    CountChar('\n', text[..q]) + 1
  }

  // ---------------------------------------------------------------------
  // find
  // ---------------------------------------------------------------------

  /**
   * `find_blocks` (imported by input.py but missing from helper.py): taken
   * to be `find_block` at each loc in turn, the first failure propagating.
   */
  function BlocksAt(text: string, locs: seq<int>, start: Pattern, end: Pattern): (r: Result<seq<string>>)
    ensures r.Ok? ==> |r.value| == |locs|
  {
    if locs == [] then Ok([])
    else
      match BlocksAt(text, locs[..|locs| - 1], start, end)
      case Err(e) => Err(e)
      case Ok(bs) =>
        match BlockAt(text, locs[|locs| - 1], start, end)
        case Err(e) => Err(e)
        case Ok(b) => Ok(bs + [b])
  }

  lemma BlocksAtSnoc(text: string, locs: seq<int>, i: nat, start: Pattern, end: Pattern)
    requires i < |locs|
    ensures BlocksAt(text, locs[..i + 1], start, end) ==
              match BlocksAt(text, locs[..i], start, end)
              case Err(e) => Err(e)
              case Ok(bs) =>
                match BlockAt(text, locs[i], start, end)
                case Err(e) => Err(e)
                case Ok(b) => Ok(bs + [b])
  {
    assert locs[..i + 1][..i] == locs[..i];
  }

  /** Every block is `find_block` at its loc. */
  lemma {:induction false} BlocksAtOk(text: string, locs: seq<int>, start: Pattern, end: Pattern, i: nat)
    requires BlocksAt(text, locs, start, end).Ok? && i < |locs|
    ensures BlockAt(text, locs[i], start, end) == Ok(BlocksAt(text, locs, start, end).value[i])
    decreases |locs|
  {
    var n := |locs| - 1;
    var init := locs[..n];
    if i < n {
      BlocksAtOk(text, init, start, end, i);
      assert init[i] == locs[i];
      assert BlocksAt(text, locs, start, end).value[i] == BlocksAt(text, init, start, end).value[i];
    }
  }

  /** A failure is that of the first loc whose block fails. */
  lemma {:induction false} BlocksAtErr(text: string, locs: seq<int>, start: Pattern, end: Pattern) returns (i: nat)
    requires BlocksAt(text, locs, start, end).Err?
    ensures i < |locs| && BlockAt(text, locs[i], start, end) == Err(BlocksAt(text, locs, start, end).error)
    ensures forall j :: 0 <= j < i ==> BlockAt(text, locs[j], start, end).Ok?
    decreases |locs|
  {
    var n := |locs| - 1;
    var init := locs[..n];
    if BlocksAt(text, init, start, end).Err? {
      i := BlocksAtErr(text, init, start, end);
      assert init[i] == locs[i];
      forall j | 0 <= j < i
        ensures BlockAt(text, locs[j], start, end).Ok?
      {
        assert init[j] == locs[j];
      }
    } else {
      i := n;
      forall j | 0 <= j < i
        ensures BlockAt(text, locs[j], start, end).Ok?
      {
        BlocksAtOk(text, init, start, end, j);
        assert init[j] == locs[j];
      }
    }
  }

  /** Without a failing loc, there is no failure. */
  lemma {:induction false} BlocksAtAllOk(text: string, locs: seq<int>, start: Pattern, end: Pattern)
    requires forall i :: 0 <= i < |locs| ==> BlockAt(text, locs[i], start, end).Ok?
    ensures BlocksAt(text, locs, start, end).Ok?
    decreases |locs|
  {
    if locs != [] {
      var init := locs[..|locs| - 1];
      BlocksAtAllOk(text, init, start, end);
    }
  }

  /** Once a block fails, later locs do not matter. */
  lemma {:induction false} BlocksAtErrPersists(text: string, locs: seq<int>, n: nat, start: Pattern, end: Pattern)
    requires n <= |locs| && BlocksAt(text, locs[..n], start, end).Err?
    ensures BlocksAt(text, locs, start, end) == BlocksAt(text, locs[..n], start, end)
    decreases |locs| - n
  {
    if n < |locs| {
      assert locs[..n + 1][..n] == locs[..n];
      BlocksAtErrPersists(text, locs, n + 1, start, end);
    } else {
      assert locs[..n] == locs;
    }
  }

  /** `zip(xs, ys, strict=False)`. */
  function Zip<A, B>(xs: seq<A>, ys: seq<B>): (r: seq<(A, B)>)
    ensures |r| == if |xs| <= |ys| then |xs| else |ys|
    ensures forall i :: 0 <= i < |r| ==> r[i] == (xs[i], ys[i])
  {
    if xs == [] || ys == [] then [] else [(xs[0], ys[0])] + Zip(xs[1..], ys[1..])
  }

  function LinesOf(text: string, ms: seq<nat>): (locs: seq<int>)
    requires forall i :: 0 <= i < |ms| ==> ms[i] <= |text|
    ensures |locs| == |ms| && forall i :: 0 <= i < |ms| ==> locs[i] == LineOf(text, ms[i])
  {
    seq(|ms|, i requires 0 <= i < |ms| => LineOf(text, ms[i]))
  }

  /** What `SingleElementRootModel.find(file_content, start_regex)` returns: (loc, block) pairs. */
  function FindSpec(text: string, start: Pattern, end: Pattern): Result<seq<(int, string)>>
    requires SingleLine(start.text)
  {
    var ms := StartMatchesFrom(text, start, 0);
    if ms == [] then Err(NotFound)
    else
      var locs := LinesOf(text, ms);
      match BlocksAt(text, locs, start, end)
      case Err(e) => Err(e)
      case Ok(blocks) => Ok(Zip(locs, blocks))
  }

  /** `SingleElementRootModel.find`: collect the locs, then cut a block at each. */
  method Find(text: string, start: Pattern, end: Pattern) returns (r: Result<seq<(int, string)>>)
    requires SingleLine(start.text)
    ensures r == FindSpec(text, start, end)
  {
    var patterns := StartMatchesFrom(text, start, 0);
    var locs: seq<int> := [];
    for i := 0 to |patterns|
      invariant locs == LinesOf(text, patterns[..i])
    {
      locs := locs + [CountChar('\n', text[..patterns[i]]) + 1];
    }
    assert patterns[..|patterns|] == patterns;
    if locs == [] {
      return Err(NotFound);
    }
    var blocks := FindBlocks(text, locs, start, end);
    if blocks.Err? {
      return Err(blocks.error);
    }
    return Ok(Zip(locs, blocks.value));
  }

  /** `find_blocks`: `find_block` at each loc in turn. */
  method FindBlocks(text: string, locs: seq<int>, start: Pattern, end: Pattern) returns (r: Result<seq<string>>)
    ensures r == BlocksAt(text, locs, start, end)
  {
    var blocks: seq<string> := [];
    for i := 0 to |locs|
      invariant BlocksAt(text, locs[..i], start, end) == Ok(blocks)
    {
      var b := FindBlock(text, locs[i], start, end);
      BlocksAtSnoc(text, locs, i, start, end);
      if b.Err? {
        BlocksAtErrPersists(text, locs, i + 1, start, end);
        return Err(b.error);
      }
      blocks := blocks + [b.value];
    }
    assert locs[..|locs|] == locs;
    return Ok(blocks);
  }

  // ---------------------------------------------------------------------
  // What find reports
  // ---------------------------------------------------------------------

  /** `text[..b]` holds at least one more `'\n'` than `text[..a]` when a newline lies in between. */
  lemma NewlineBetween(text: string, a: nat, b: nat)
    requires a < b <= |text| && text[b - 1] == '\n'
    ensures CountChar('\n', text[..a]) < CountChar('\n', text[..b])
  {
    assert text[..b] == text[..a] + text[a..b - 1] + [text[b - 1]];
    CountCharAppend('\n', text[..a] + text[a..b - 1], [text[b - 1]]);
    CountCharAppend('\n', text[..a], text[a..b - 1]);
  }

  /** `find`'s pairs are its locs zipped with its blocks, one per start-pattern match. */
  lemma FindShape(text: string, start: Pattern, end: Pattern)
    requires SingleLine(start.text) && FindSpec(text, start, end).Ok?
    ensures var ms := StartMatchesFrom(text, start, 0); var locs := LinesOf(text, ms);
            && ms != [] && BlocksAt(text, locs, start, end).Ok?
            && FindSpec(text, start, end).value == Zip(locs, BlocksAt(text, locs, start, end).value)
  {
  }

  /** Match offsets in increasing order lie on strictly increasing lines. */
  lemma LinesIncrease(text: string, start: Pattern)
    requires SingleLine(start.text)
    ensures var ms := StartMatchesFrom(text, start, 0); var locs := LinesOf(text, ms);
            forall i, j :: 0 <= i < j < |locs| ==> locs[i] < locs[j]
  {
    var ms := StartMatchesFrom(text, start, 0);
    forall i, j | 0 <= i < j < |ms|
      ensures LineOf(text, ms[i]) < LineOf(text, ms[j])
    {
      LaterMatchLaterLine(text, start, ms[i], ms[j]);
    }
  }

  /** A match that starts after another starts on a later line. */
  lemma LaterMatchLaterLine(text: string, start: Pattern, a: nat, b: nat)
    requires a < b < |text| && PatternAt(text, start, b)
    ensures LineOf(text, a) < LineOf(text, b)
  {
    NewlineBetween(text, a, b);
  }

  /**
   * One pair per start-pattern match, in textual order: the loc is one more
   * than the number of newlines before the match, and the locs strictly
   * increase (each match is on a line of its own).
   */
  lemma FindLocs(text: string, start: Pattern, end: Pattern)
    requires SingleLine(start.text) && FindSpec(text, start, end).Ok?
    ensures var ms := StartMatchesFrom(text, start, 0); var pairs := FindSpec(text, start, end).value;
            && |pairs| == |ms| > 0
            && (forall i :: 0 <= i < |pairs| ==> pairs[i].0 == LineOf(text, ms[i]))
            && (forall i, j :: 0 <= i < j < |pairs| ==> pairs[i].0 < pairs[j].0)
  {
    FindShape(text, start, end);
    LinesIncrease(text, start);
  }

  /** Each block `find` reports is what `find_block` cuts at the pair's loc. */
  lemma FindPairBlocks(text: string, start: Pattern, end: Pattern)
    requires SingleLine(start.text) && FindSpec(text, start, end).Ok?
    ensures var pairs := FindSpec(text, start, end).value;
            forall i :: 0 <= i < |pairs| ==> BlockAt(text, pairs[i].0, start, end) == Ok(pairs[i].1)
  {
    var ms := StartMatchesFrom(text, start, 0);
    var locs := LinesOf(text, ms);
    var pairs := FindSpec(text, start, end).value;
    forall i | 0 <= i < |pairs|
      ensures BlockAt(text, pairs[i].0, start, end) == Ok(pairs[i].1)
    {
      BlocksAtOk(text, locs, start, end, i);
    }
  }

  /**
   * Read back line by line, each block `find` reports opens with a line the
   * start pattern matches and closes with the first line the end pattern matches.
   */
  lemma FindBlocksReadBack(text: string, start: Pattern, end: Pattern, i: nat)
    requires SingleLine(start.text) && FindSpec(text, start, end).Ok? && !LineMatches(end, "")
    requires i < |FindSpec(text, start, end).value|
    ensures var blockLines := SplitLines(FindSpec(text, start, end).value[i].1);
            && |blockLines| > 0
            && LineMatches(start, blockLines[0])
            && LineMatches(end, blockLines[|blockLines| - 1])
            && forall j :: 0 <= j < |blockLines| - 1 ==> !LineMatches(end, blockLines[j])
  {
    var pair := FindSpec(text, start, end).value[i];
    FindPairBlocks(text, start, end);
    assert BlockAt(text, pair.0, start, end) == Ok(pair.1);
    BlockAtReadsBack(text, pair.0, start, end);
  }

  /** `find` fails only with its own ValueError or one of `find_block`'s errors. */
  lemma FindErrors(text: string, start: Pattern, end: Pattern)
    requires SingleLine(start.text)
    ensures var r := FindSpec(text, start, end);
            r.Err? ==> r.error in {NotFound, InvalidLoc, LineIndexOutOfRange, InvalidStart, InvalidEnd}
  {
    var ms := StartMatchesFrom(text, start, 0);
    if ms != [] {
      var locs := LinesOf(text, ms);
      if BlocksAt(text, locs, start, end).Err? {
        var i := BlocksAtErr(text, locs, start, end);
      }
    }
  }

  /** `find` fails with "not found" exactly when the start pattern matches nowhere. */
  lemma FindNotFound(text: string, start: Pattern, end: Pattern)
    requires SingleLine(start.text)
    ensures FindSpec(text, start, end) == Err(NotFound) <==> forall k :: 0 <= k < |text| ==> !PatternAt(text, start, k)
  {
    var ms := StartMatchesFrom(text, start, 0);
    if ms == [] {
      forall k | 0 <= k < |text|
        ensures !PatternAt(text, start, k)
      {
        if PatternAt(text, start, k) {
          StartMatchesComplete(text, start, 0, k);
        }
      }
    } else {
      assert PatternAt(text, start, ms[0]);
      var locs := LinesOf(text, ms);
      if BlocksAt(text, locs, start, end).Err? {
        var i := BlocksAtErr(text, locs, start, end);
        BlockAtErrors(text, locs[i], start, end);
      }
    }
  }

  /** Every line boundary in the text is a `'\n'` (no `\r`, form feed, ...). */
  predicate NewlinesOnly(text: string)
    decreases |text|
  {
    text == [] || ((IsLineBoundary(text[0]) ==> text[0] == '\n') && NewlinesOnly(text[1..]))
  }

  lemma {:induction false} NewlinesOnlyAt(text: string, i: nat)
    requires NewlinesOnly(text) && i < |text| && IsLineBoundary(text[i])
    ensures text[i] == '\n'
    decreases i
  {
    if i > 0 {
      assert text[1..][i - 1] == text[i];
      NewlinesOnlyAt(text[1..], i - 1);
    }
  }

  lemma {:induction false} NewlinesOnlySuffix(text: string, a: nat)
    requires NewlinesOnly(text) && a <= |text|
    ensures NewlinesOnly(text[a..])
    decreases a
  {
    if a > 0 {
      assert text[1..][a - 1..] == text[a..];
      NewlinesOnlySuffix(text[1..], a - 1);
    }
  }

  /**
   * With `'\n'` as the only line boundary, line number `count('\n') + 1`
   * of a line start is, in `splitlines()`, the line that starts there.
   */
  lemma {:induction false} SplitLinesAt(text: string, p: nat)
    requires NewlinesOnly(text) && p < |text| && AtLineStart(text, p)
    ensures CountChar('\n', text[..p]) < |SplitLines(text)|
    ensures SplitLines(text)[CountChar('\n', text[..p])] == text[p..p + FirstBoundary(text[p..])]
    decreases |text|, 2
  {
    if p == 0 {
      assert text[..0] == [] && text[0..] == text;
      SplitLinesFirst(text);
    } else {
      SplitLinesAtLater(text, p);
    }
  }

  lemma {:induction false} SplitLinesAtLater(text: string, p: nat)
    requires NewlinesOnly(text) && 0 < p < |text| && AtLineStart(text, p)
    ensures CountChar('\n', text[..p]) < |SplitLines(text)|
    ensures SplitLines(text)[CountChar('\n', text[..p])] == text[p..p + FirstBoundary(text[p..])]
    decreases |text|, 1
  {
    var first, others, k := LaterLineParts(text, p);
    LineAfterFirst(SplitLines(text), first, others, k, text[p..p + FirstBoundary(text[p..])]);
  }

  /** The pieces of a later line: the first line, the lines after it, and the line's place among those. */
  lemma {:induction false} LaterLineParts(text: string, p: nat) returns (first: string, others: seq<string>, k: nat)
    requires NewlinesOnly(text) && 0 < p < |text| && AtLineStart(text, p)
    ensures SplitLines(text) == [first] + others
    ensures k < |others| && others[k] == text[p..p + FirstBoundary(text[p..])]
    ensures CountChar('\n', text[..p]) == k + 1
    decreases |text|, 0
  {
    var i, rest := FirstLineEnd(text, p);
    var q := p - i - 1;
    NewlinesAfterFirstLine(text, p, i, rest, q);
    SplitLinesAt(rest, q);
    SameLineAfter(text, p, rest, q);
    first, others, k := text[..i], SplitLines(rest), CountChar('\n', rest[..q]);
  }

  /** The line starting at `p` is the line starting at `q` in the suffix `rest` that holds it. */
  lemma SameLineAfter(text: string, p: nat, rest: string, q: nat)
    requires q <= p < |text| && |rest| == |text| - (p - q) && rest == text[p - q..]
    ensures rest[q..q + FirstBoundary(rest[q..])] == text[p..p + FirstBoundary(text[p..])]
  {
    assert rest[q..] == text[p..];
    SameLineSlice(rest, q, text, p);
  }

  lemma SuffixSlices(s: string, a: nat, q: nat, b: nat)
    requires a + q + b <= |s|
    ensures s[a..][q..] == s[a + q..] && s[a..][q..q + b] == s[a + q..a + q + b]
  {
  }

  lemma SameLineSlice(x: string, q: nat, y: string, p: nat)
    requires q <= |x| && p <= |y| && x[q..] == y[p..]
    ensures x[q..q + FirstBoundary(x[q..])] == y[p..p + FirstBoundary(y[p..])]
  {
    var b := FirstBoundary(x[q..]);
    assert x[q..q + b] == x[q..][..b];
    assert y[p..p + b] == y[p..][..b];
  }

  lemma LineAfterFirst(lines: seq<string>, first: string, others: seq<string>, k: nat, line: string)
    requires lines == [first] + others && k < |others| && others[k] == line
    ensures k + 1 < |lines| && lines[k + 1] == line
  {
  }

  /** The first line ends, at a `'\n'`, no later than the newline before a later line start. */
  lemma FirstLineEnd(text: string, p: nat) returns (i: nat, rest: string)
    requires NewlinesOnly(text) && 0 < p < |text| && AtLineStart(text, p)
    ensures i == FirstBoundary(text) && i < p && text[i] == '\n' && rest == text[i + 1..]
    ensures SplitLines(text) == [text[..i]] + SplitLines(rest)
  {
    i := FirstBoundary(text);
    rest := text[i + 1..];
    if i > p - 1 {
      assert false;
    }
    NewlinesOnlyAt(text, i);
  }

  /** Past the first line, newline counts and line starts carry over to the rest of the text. */
  lemma NewlinesAfterFirstLine(text: string, p: nat, i: nat, rest: string, q: nat)
    requires NewlinesOnly(text) && i < p < |text| && AtLineStart(text, p)
    requires i == FirstBoundary(text) && text[i] == '\n'
    requires rest == text[i + 1..] && q == p - i - 1
    ensures NewlinesOnly(rest) && AtLineStart(rest, q) && q < |rest|
    ensures CountChar('\n', text[..p]) == 1 + CountChar('\n', rest[..q])
  {
    assert text[..p] == text[..i] + [text[i]] + rest[..q];
    CountCharAppend('\n', text[..i] + [text[i]], rest[..q]);
    CountCharAppend('\n', text[..i], [text[i]]);
    CountNewlinesNone(text[..i]);
    NewlinesOnlySuffix(text, i + 1);
    assert q == 0 || rest[q - 1] == text[p - 1];
  }

  /** The line a start-pattern match sits on, found by the loc `find` computes, passes the start check. */
  lemma AnchorLineMatches(text: string, start: Pattern, p: nat)
    requires NewlinesOnly(text) && SingleLine(start.text) && p < |text| && PatternAt(text, start, p)
    ensures var lines := SplitLines(text); var loc := LineOf(text, p);
            loc - 1 < |lines| && LineMatches(start, lines[loc - 1])
  {
    SplitLinesAt(text, p);
    StartLineMatches(text, start, p);
  }

  /** The line that starts at a match of the pattern is matched by it. */
  lemma StartLineMatches(text: string, start: Pattern, p: nat)
    requires SingleLine(start.text) && p < |text| && PatternAt(text, start, p)
    ensures LineMatches(start, text[p..p + FirstBoundary(text[p..])])
  {
    var rest := text[p..];
    assert rest[0..|start.text|] == text[p..p + |start.text|];
    PatternFirstLine(rest, start);
    assert text[p..p + FirstBoundary(rest)] == rest[..FirstBoundary(rest)];
  }

  /** A text that opens with a pattern match has a first line that the pattern matches. */
  lemma PatternFirstLine(rest: string, start: Pattern)
    requires SingleLine(start.text) && OccursAt(rest, start.text, 0)
    requires start.Whole? ==> |start.text| == |rest| || rest[|start.text|] == '\n'
    ensures LineMatches(start, rest[..FirstBoundary(rest)])
  {
    var t := start.text;
    assert rest[..|t|] == rest[0..|t|] == t;
    FirstBoundaryPast(rest, |t|);
    if start.Whole? {
      FirstBoundaryAt(rest, |t|);
    } else {
      assert rest[..FirstBoundary(rest)][..|t|] == t;
    }
  }

  /**
   * In a text whose only line boundaries are newlines, `find` never trips
   * over its own anchors: it succeeds, finds nothing, or finds no end line.
   */
  lemma FindAnchorsHold(text: string, start: Pattern, end: Pattern)
    requires NewlinesOnly(text) && SingleLine(start.text)
    ensures var r := FindSpec(text, start, end); r.Ok? || r.error in {NotFound, InvalidEnd}
  {
    var ms := StartMatchesFrom(text, start, 0);
    if ms != [] {
      var locs := LinesOf(text, ms);
      if BlocksAt(text, locs, start, end).Err? {
        var i := BlocksAtErr(text, locs, start, end);
        assert PatternAt(text, start, ms[i]) && locs[i] == LineOf(text, ms[i]);
        AnchorBlockError(text, start, end, ms[i]);
      }
    }
  }

  /** `find_block` at the loc of a start-pattern match can only fail for want of an end line. */
  lemma AnchorBlockError(text: string, start: Pattern, end: Pattern, p: nat)
    requires NewlinesOnly(text) && SingleLine(start.text) && p < |text| && PatternAt(text, start, p)
    ensures var r := BlockAt(text, LineOf(text, p), start, end); r.Ok? || r.error == InvalidEnd
  {
    AnchorLineMatches(text, start, p);
    BlockAtErrors(text, LineOf(text, p), start, end);
  }

  // ---------------------------------------------------------------------
  // HclLocal.find
  // ---------------------------------------------------------------------

  lemma LocalsSingleLine()
    ensures LocalsPattern.Whole? && SingleLine(LocalsPattern.text)
  {
    var t := LocalsPattern.text;
    forall i | 0 <= i < |t|
      ensures !IsLineBoundary(t[i])
    {
      assert t[i] in "locals {";
    }
  }

  /**
   * One `locals` block assigning the local: the local's line, which of the
   * blocks `find` returned it comes from, and the assignment's indentation.
   */
  datatype Candidate = Candidate(line: int, source: nat, indent: nat)

  function CandidateIndent(c: Candidate): nat { c.indent }

  /**
   * What block `i`, the pair `(loc, block)`, contributes: nothing when
   * `^\s*name\s*=` does not match in the block (the `continue`); otherwise the
   * match the stable sort puts first, on line `loc` plus the newlines before it.
   */
  function CandidateOf(pair: (int, string), i: nat, name: string): (c: Option<Candidate>)
    requires IsIdentifier(name)
    ensures c.Some? ==> c.value.source == i
  {
    match ChosenMatch(pair.1, name)
    case None => None
    case Some(m) => Some(Candidate(pair.0 + CountChar('\n', pair.1[..m.start]), i, m.indent))
  }

  lemma CandidateOfMatch(pair: (int, string), i: nat, m: PropMatch, name: string)
    requires IsIdentifier(name) && ChosenMatch(pair.1, name) == Some(m)
    ensures CandidateOf(pair, i, name) == Some(Candidate(pair.0 + CountChar('\n', pair.1[..m.start]), i, m.indent))
  {
  }

  /** `loc_matches` after the loop over `pairs`, in the order of the blocks. */
  function Candidates(pairs: seq<(int, string)>, name: string): (cs: seq<Candidate>)
    requires IsIdentifier(name)
    ensures |cs| <= |pairs|
    ensures forall k :: 0 <= k < |cs| ==> cs[k].source < |pairs|
    ensures forall k, l :: 0 <= k < l < |cs| ==> cs[k].source < cs[l].source
  {
    if pairs == [] then []
    else
      var n := |pairs| - 1;
      var init := Candidates(pairs[..n], name);
      match CandidateOf(pairs[n], n, name)
      case None => init
      case Some(c) => init + [c]
  }

  lemma CandidatesSnoc(pairs: seq<(int, string)>, i: nat, name: string)
    requires IsIdentifier(name) && i < |pairs|
    ensures CandidateOf(pairs[i], i, name).None? ==> Candidates(pairs[..i + 1], name) == Candidates(pairs[..i], name)
    ensures CandidateOf(pairs[i], i, name).Some? ==>
              Candidates(pairs[..i + 1], name) == Candidates(pairs[..i], name) + [CandidateOf(pairs[i], i, name).value]
  {
    assert pairs[..i + 1][..i] == pairs[..i];
  }

  /** Each candidate comes from the block it names. */
  lemma {:induction false} CandidateSound(pairs: seq<(int, string)>, name: string, k: nat)
    requires IsIdentifier(name) && k < |Candidates(pairs, name)|
    ensures var c := Candidates(pairs, name)[k]; CandidateOf(pairs[c.source], c.source, name) == Some(c)
    decreases |pairs|
  {
    var n := |pairs| - 1;
    var init := pairs[..n];
    var prev := Candidates(init, name);
    if k < |prev| {
      CandidateSound(init, name, k);
      var c := prev[k];
      assert Candidates(pairs, name)[k] == c;
      assert init[c.source] == pairs[c.source];
    }
  }

  /** Every block in which the local is assigned contributes its candidate, at index `l`. */
  lemma {:induction false} CandidateComplete(pairs: seq<(int, string)>, name: string, i: nat) returns (l: nat)
    requires IsIdentifier(name) && i < |pairs| && CandidateOf(pairs[i], i, name).Some?
    ensures l < |Candidates(pairs, name)| && Candidates(pairs, name)[l] == CandidateOf(pairs[i], i, name).value
    decreases |pairs|
  {
    var n := |pairs| - 1;
    var init := pairs[..n];
    if i < n {
      assert init[i] == pairs[i];
      l := CandidateComplete(init, name, i);
      CandidatesGrow(pairs, name);
    } else {
      CandidatesLast(pairs, name);
      l := |Candidates(pairs, name)| - 1;
    }
  }

  /** The candidates of all but the last block come first. */
  lemma CandidatesGrow(pairs: seq<(int, string)>, name: string)
    requires IsIdentifier(name) && pairs != []
    ensures Candidates(pairs[..|pairs| - 1], name) <= Candidates(pairs, name)
  {
  }

  /** The last block, where it has a candidate, contributes the last one. */
  lemma CandidatesLast(pairs: seq<(int, string)>, name: string)
    requires IsIdentifier(name) && pairs != [] && CandidateOf(pairs[|pairs| - 1], |pairs| - 1, name).Some?
    ensures var cs := Candidates(pairs, name);
            cs != [] && cs[|cs| - 1] == CandidateOf(pairs[|pairs| - 1], |pairs| - 1, name).value
  {
  }

  /**
   * What `HclLocal.find` makes of the `(loc, block)` pairs: the least
   * indented assignment, the earliest block among equals (the sort is stable).
   */
  function LocalChoice(pairs: seq<(int, string)>, name: string): Result<seq<(int, string)>>
    requires IsIdentifier(name)
  {
    var cs := Candidates(pairs, name);
    if cs == [] then Err(NotFound)
    else
      var c := cs[FirstMinIndex(cs, CandidateIndent)];
      Ok([(c.line, pairs[c.source].1)])
  }

  /** `HclLocal.find` raises exactly when no block assigns the local. */
  lemma LocalChoiceNotFound(pairs: seq<(int, string)>, name: string)
    requires IsIdentifier(name)
    ensures LocalChoice(pairs, name).Err? ==> LocalChoice(pairs, name).error == NotFound
    ensures LocalChoice(pairs, name).Err? <==> forall i :: 0 <= i < |pairs| ==> CandidateOf(pairs[i], i, name).None?
  {
    var cs := Candidates(pairs, name);
    if cs == [] {
      forall i | 0 <= i < |pairs|
        ensures CandidateOf(pairs[i], i, name).None?
      {
        if CandidateOf(pairs[i], i, name).Some? {
          var l := CandidateComplete(pairs, name, i);
          assert false;
        }
      }
    } else {
      CandidateSound(pairs, name, 0);
    }
  }

  /**
   * Otherwise it returns one pair, from a block `i` that assigns the local:
   * the local's line and that block. No block assigns it with less indentation,
   * and every earlier block that assigns it does so with more.
   */
  lemma LocalChoiceBest(pairs: seq<(int, string)>, name: string) returns (i: nat)
    requires IsIdentifier(name) && LocalChoice(pairs, name).Ok?
    ensures i < |pairs| && CandidateOf(pairs[i], i, name).Some?
    ensures LocalChoice(pairs, name) == Ok([(CandidateOf(pairs[i], i, name).value.line, pairs[i].1)])
    ensures forall j :: 0 <= j < |pairs| && CandidateOf(pairs[j], j, name).Some? ==>
              CandidateOf(pairs[i], i, name).value.indent <= CandidateOf(pairs[j], j, name).value.indent
    ensures forall j :: 0 <= j < i && CandidateOf(pairs[j], j, name).Some? ==>
              CandidateOf(pairs[i], i, name).value.indent < CandidateOf(pairs[j], j, name).value.indent
  {
    var cs := Candidates(pairs, name);
    var k := FirstMinIndex(cs, CandidateIndent);
    i := cs[k].source;
    CandidateSound(pairs, name, k);
    forall j | 0 <= j < |pairs| && CandidateOf(pairs[j], j, name).Some?
      ensures cs[k].indent <= CandidateOf(pairs[j], j, name).value.indent
      ensures j < i ==> cs[k].indent < CandidateOf(pairs[j], j, name).value.indent
    {
      FirstMinBeats(pairs, name, j);
    }
  }

  /** The candidate the sort puts first against the candidate of block `j`. */
  lemma FirstMinBeats(pairs: seq<(int, string)>, name: string, j: nat)
    requires IsIdentifier(name) && j < |pairs| && CandidateOf(pairs[j], j, name).Some?
    ensures var cs := Candidates(pairs, name); var c := CandidateOf(pairs[j], j, name).value;
            && cs != []
            && var best := cs[FirstMinIndex(cs, CandidateIndent)];
            && best.indent <= c.indent
            && (j < best.source ==> best.indent < c.indent)
  {
    var cs := Candidates(pairs, name);
    var c := CandidateOf(pairs[j], j, name).value;
    var l := CandidateComplete(pairs, name, j);
    var k := FirstMinIndex(cs, CandidateIndent);
    assert CandidateIndent(cs[k]) <= CandidateIndent(cs[l]);
    if j < cs[k].source {
      assert cs[l].source == j;
      SourceOrder(cs, l, k);
      assert CandidateIndent(cs[k]) < CandidateIndent(cs[l]);
    }
  }

  /** Among candidates in block order, an earlier block means an earlier candidate. */
  lemma SourceOrder(cs: seq<Candidate>, l: nat, k: nat)
    requires l < |cs| && k < |cs| && cs[l].source < cs[k].source
    requires forall a, b :: 0 <= a < b < |cs| ==> cs[a].source < cs[b].source
    ensures l < k
  {
  }

  /** What `HclLocal.find` returns. */
  function LocalFindSpec(text: string, name: string): Result<seq<(int, string)>>
    requires IsIdentifier(name)
  {
    LocalsSingleLine();
    match FindSpec(text, LocalsPattern, BlockEnd)
    case Err(e) => Err(e)
    case Ok(pairs) => LocalChoice(pairs, name)
  }

  /** `HclLocal.find`: the blocks of `locals`, then the choice among them. */
  method LocalFind(text: string, name: string) returns (r: Result<seq<(int, string)>>)
    requires IsIdentifier(name)
    ensures r == LocalFindSpec(text, name)
  {
    LocalsSingleLine();
    var found := Find(text, LocalsPattern, BlockEnd);
    if found.Err? {
      return Err(found.error);
    }
    r := ChooseLocal(found.value, name);
  }

  /** The loop of `HclLocal.find` over the pairs, then the sort by indentation. */
  method ChooseLocal(pairs: seq<(int, string)>, name: string) returns (r: Result<seq<(int, string)>>)
    requires IsIdentifier(name)
    ensures r == LocalChoice(pairs, name)
  {
    var candidates: seq<Candidate> := [];
    for i := 0 to |pairs|
      invariant candidates == Candidates(pairs[..i], name)
    {
      CandidatesSnoc(pairs, i, name);
      var loc := pairs[i].0;
      var block := pairs[i].1;
      var m := ChosenMatch(block, name);
      if m.None? {
        assert CandidateOf(pairs[i], i, name).None?;
        continue;
      }
      var prevLines := CountChar('\n', block[..m.value.start]);
      CandidateOfMatch(pairs[i], i, m.value, name);
      var cand := Candidate(loc + prevLines, i, m.value.indent);
      assert CandidateOf(pairs[i], i, name).value == cand;
      candidates := candidates + [cand];
    }
    assert pairs[..|pairs|] == pairs;
    if candidates == [] {
      return Err(NotFound);
    }
    var c := candidates[FirstMinIndex(candidates, CandidateIndent)];
    return Ok([(c.line, pairs[c.source].1)]);
  }

  // ---------------------------------------------------------------------
  // HclResource.find
  // ---------------------------------------------------------------------

  /**
   * What `HclResource.find` returns for a validated model `{type: {identifier: ...}}`:
   * `next(iter(...))` on an inner model without keys raises StopIteration;
   * otherwise `find` with the resource pattern of the type and the identifier.
   */
  function ResourceFindSpec<T>(text: string, m: RootModel<RootModel<T>>): Result<seq<(int, string)>>
    requires ValidateRoot(m).Ok? && IsIdentifier(Name(m))
    requires m.entries[0].1.entries != [] ==> IsIdentifier(Name(m.entries[0].1))
  {
    var inner := m.entries[0].1;
    if inner.entries == [] then Err(NoIdentifier)
    else FindSpec(text, ResourcePattern(Name(m), Name(inner)), BlockEnd)
  }

  /** `HclResource.find`: build the start pattern, then defer to `find`. */
  method ResourceFind<T>(text: string, m: RootModel<RootModel<T>>) returns (r: Result<seq<(int, string)>>)
    requires ValidateRoot(m).Ok? && IsIdentifier(Name(m))
    requires m.entries[0].1.entries != [] ==> IsIdentifier(Name(m.entries[0].1))
    ensures r == ResourceFindSpec(text, m)
  {
    var inner := m.entries[0].1;
    if inner.entries == [] {
      return Err(NoIdentifier);
    }
    var identifier := inner.entries[0].0;
    r := Find(text, ResourcePattern(m.entries[0].0, identifier), BlockEnd);
  }

  /**
   * A resource found has no StopIteration to fear, and each of its blocks
   * opens with a line that starts `resource "type" "identifier" {` and closes
   * with the first `}` line after it.
   */
  lemma ResourceBlocks<T>(text: string, m: RootModel<RootModel<T>>, i: nat)
    requires ValidateRoot(m).Ok? && IsIdentifier(Name(m))
    requires m.entries[0].1.entries != [] ==> IsIdentifier(Name(m.entries[0].1))
    requires ResourceFindSpec(text, m).Ok? && i < |ResourceFindSpec(text, m).value|
    ensures m.entries[0].1.entries != []
    ensures var head := "resource \"" + Name(m) + "\" \"" + Name(m.entries[0].1) + "\" {";
            var blockLines := SplitLines(ResourceFindSpec(text, m).value[i].1);
            && |blockLines| > 0 && head <= blockLines[0] && blockLines[|blockLines| - 1] == "}"
            && forall j :: 0 <= j < |blockLines| - 1 ==> blockLines[j] != "}"
  {
    var start := ResourcePattern(Name(m), Name(m.entries[0].1));
    FindBlocksReadBack(text, start, BlockEnd, i);
  }

  /** A resource whose inner model has no identifier raises StopIteration, whatever the file. */
  lemma ResourceNoIdentifier<T>(text: string, m: RootModel<RootModel<T>>)
    requires ValidateRoot(m).Ok? && IsIdentifier(Name(m))
    requires m.entries[0].1.entries != [] ==> IsIdentifier(Name(m.entries[0].1))
    ensures ResourceFindSpec(text, m) == Err(NoIdentifier) <==> m.entries[0].1.entries == []
  {
    var inner := m.entries[0].1;
    if inner.entries != [] {
      var start := ResourcePattern(Name(m), Name(inner));
      FindErrors(text, start, BlockEnd);
    }
  }
}
