/**
 * lib/writer.py without its file, console and git I/O: which targets are
 * the standard streams, how the generated documentation is spliced between
 * the two marker lines of the target, and the content `write` settles on.
 */
module Writer {

  import opened Errors
  import opened Builtins
  import opened Helper

  // ---------------------------------------------------------------------
  // Standard-stream targets
  // ---------------------------------------------------------------------

  const StdoutTargets: seq<string> := ["-", "stdout", "/dev/stdout", "/dev/fd/1", "/proc/self/fd/1"]
  const StderrTargets: seq<string> := ["stderr", "/dev/stderr", "/dev/fd/2", "/proc/self/fd/2"]

  /** `_is_stdout_target`. */
  predicate IsStdoutTarget(target: string) {
    target in StdoutTargets
  }

  /** `_is_stderr_target`. */
  predicate IsStderrTarget(target: string) {
    target in StderrTargets
  }

  /**
   * No target is taken for both streams, and every target taken for a stream
   * is a stream name or a device path under `/dev/` or `/proc/`.
   */
  lemma TargetsDisjoint(target: string)
    ensures !(IsStdoutTarget(target) && IsStderrTarget(target))
    ensures IsStdoutTarget(target) || IsStderrTarget(target) ==>
              target in {"-", "stdout", "stderr"} || "/dev/" <= target || "/proc/" <= target
  {
  }

  // ---------------------------------------------------------------------
  // _insert_marked_block
  // ---------------------------------------------------------------------

  /**
   * `_insert_marked_block(content, docs)`, with the configured marker name
   * and insert position passed in.
   */
  function InsertMarkedBlock(content: seq<string>, docs: string, name: string, position: string): Result<seq<string>> {
    var startMarker := Marker(name, "START");
    var endMarker := Marker(name, "END");
    var start := IfIndex(content, startMarker);
    var end := IfIndex(content, endMarker);
    if start == -1 && end == -1 then
      if position == "bottom" then Ok(content + [startMarker] + SplitLines(docs) + [endMarker])
      else Err(InvalidInsertPosition)
    else if start == -1 || end == -1 || start > end then Err(InvalidMarkerPositions)
    else Ok(content[..start + 1] + SplitLines(docs) + content[end..])
  }

  /** The two ValueErrors, each exactly where the source raises it. */
  lemma InsertErrors(content: seq<string>, docs: string, name: string, position: string)
    ensures var s := Marker(name, "START"); var e := Marker(name, "END");
            InsertMarkedBlock(content, docs, name, position) == Err(InvalidInsertPosition) <==>
              s !in content && e !in content && position != "bottom"
    ensures var s := Marker(name, "START"); var e := Marker(name, "END");
            InsertMarkedBlock(content, docs, name, position) == Err(InvalidMarkerPositions) <==>
              || (s in content && e !in content)
              || (s !in content && e in content)
              || (s in content && e in content && IfIndex(content, s) > IfIndex(content, e))
    ensures var r := InsertMarkedBlock(content, docs, name, position);
            r.Err? ==> r.error in {InvalidInsertPosition, InvalidMarkerPositions}
  {
  }

  /** With neither marker present, the documentation goes at the bottom, between fresh markers. */
  lemma InsertAtBottom(content: seq<string>, docs: string, name: string)
    requires Marker(name, "START") !in content && Marker(name, "END") !in content
    ensures InsertMarkedBlock(content, docs, name, "bottom") ==
              Ok(content + [Marker(name, "START")] + SplitLines(docs) + [Marker(name, "END")])
  {
  }

  /**
   * With both markers present in order, everything up to and including the
   * first start marker and everything from the first end marker on is kept;
   * only the lines strictly between become the documentation's lines.
   */
  lemma InsertBetweenMarkers(content: seq<string>, docs: string, name: string, position: string)
    requires var s := IfIndex(content, Marker(name, "START")); var e := IfIndex(content, Marker(name, "END"));
             0 <= s <= e
    ensures var s := IfIndex(content, Marker(name, "START")); var e := IfIndex(content, Marker(name, "END"));
            var r := InsertMarkedBlock(content, docs, name, position); var d := SplitLines(docs);
            && r.Ok? && |r.value| == s + 1 + |d| + (|content| - e)
            && r.value[..s + 1] == content[..s + 1]
            && r.value[s + 1..s + 1 + |d|] == d
            && r.value[s + 1 + |d|..] == content[e..]
  {
    var s := IfIndex(content, Marker(name, "START"));
    var e := IfIndex(content, Marker(name, "END"));
    var d := SplitLines(docs);
    var v := content[..s + 1] + d + content[e..];
    assert v[..s + 1] == content[..s + 1];
    assert v[s + 1..s + 1 + |d|] == d;
    assert v[s + 1 + |d|..] == content[e..];
  }

  /** None of the documentation's lines is a marker line. */
  predicate NoMarkerLines(docs: string, name: string) {
    Marker(name, "START") !in SplitLines(docs) && Marker(name, "END") !in SplitLines(docs)
  }

  /**
   * Inserting the same documentation into the result again changes nothing,
   * provided the documentation has no marker line of its own: the second
   * call finds the markers the first one left and puts back what is between.
   */
  lemma InsertIdempotent(content: seq<string>, docs: string, name: string, position: string)
    requires NoMarkerLines(docs, name)
    requires InsertMarkedBlock(content, docs, name, position).Ok?
    ensures var r := InsertMarkedBlock(content, docs, name, position).value;
            InsertMarkedBlock(r, docs, name, position) == Ok(r)
  {
    var sm := Marker(name, "START");
    var em := Marker(name, "END");
    MarkersDiffer(name);
    var d := SplitLines(docs);
    var s := IfIndex(content, sm);
    var e := IfIndex(content, em);
    if s == -1 {
      var r := content + [sm] + d + [em];
      assert InsertMarkedBlock(content, docs, name, position) == Ok(r);
      MarkersAt(r, content + [sm], d, [em], sm, em);
      ReinsertSame(r, content + [sm], d, [em], docs, name, position);
    } else {
      var r := content[..s + 1] + d + content[e..];
      assert InsertMarkedBlock(content, docs, name, position) == Ok(r);
      BetweenSeams(content, sm, em, s, e);
      MarkersAt(r, content[..s + 1], d, content[e..], sm, em);
      ReinsertSame(r, content[..s + 1], d, content[e..], docs, name, position);
    }
  }

  /** Inserting into lines whose first markers sit at the seams puts the same lines back. */
  lemma ReinsertSame(r: seq<string>, front: seq<string>, d: seq<string>, back: seq<string>,
                     docs: string, name: string, position: string)
    requires d == SplitLines(docs) && r == front + d + back && |front| > 0
    requires IfIndex(r, Marker(name, "START")) == |front| - 1
    requires IfIndex(r, Marker(name, "END")) == |front| + |d|
    requires r[..|front|] == front && r[|front| + |d|..] == back
    ensures InsertMarkedBlock(r, docs, name, position) == Ok(r)
  {
  }

  /** In content with both markers in order, the seams of the insertion are at the markers. */
  lemma BetweenSeams(content: seq<string>, sm: string, em: string, s: int, e: int)
    requires sm != em && s == IfIndex(content, sm) && e == IfIndex(content, em) && 0 <= s <= e
    ensures var front := content[..s + 1]; var back := content[e..];
            && |front| > 0 && front[|front| - 1] == sm && sm !in front[..|front| - 1] && em !in front
            && |back| > 0 && back[0] == em
  {
    assert content[s] != content[e];
    assert content[..s + 1][..s] == content[..s];
    NotInPrefix(content, em, s + 1, e);
  }

  /** A marker absent up to `e` is absent up to any earlier index. */
  lemma NotInPrefix(content: seq<string>, m: string, s: nat, e: nat)
    requires s <= e <= |content| && m !in content[..e]
    ensures m !in content[..s]
  {
    assert content[..s] == content[..e][..s];
  }

  /**
   * Lines laid out as `front + d + back`, where `front` ends with the first
   * start marker, `back` starts with the end marker, and neither `front`
   * nor `d` holds an end marker: the first markers sit at the seams.
   */
  lemma MarkersAt(r: seq<string>, front: seq<string>, d: seq<string>, back: seq<string>, sm: string, em: string)
    requires r == front + d + back && sm != em
    requires |front| > 0 && front[|front| - 1] == sm && sm !in front[..|front| - 1] && em !in front
    requires sm !in d && em !in d
    requires |back| > 0 && back[0] == em
    ensures IfIndex(r, sm) == |front| - 1
    ensures IfIndex(r, em) == |front| + |d|
    ensures r[..|front|] == front && r[|front| + |d|..] == back
  {
    var n := |front| - 1;
    assert r[..n] == front[..n];
    assert r[n] == sm;
    var k := |front| + |d|;
    assert r[..k] == front + d;
    assert r[k] == em;
    IfIndexAt(r, sm, n);
    IfIndexAt(r, em, k);
  }

  /** `lst.index(item)` is `i` when `lst[i]` is the first `item`. */
  lemma IfIndexAt<T>(lst: seq<T>, item: T, i: nat)
    requires i < |lst| && lst[i] == item && item !in lst[..i]
    ensures IfIndex(lst, item) == i
  {
    var j := IfIndex(lst, item);
    assert j >= 0;
    forall k | 0 <= k < i
      ensures lst[k] != item
    {
      assert lst[..i][k] == lst[k];
    }
    forall k | 0 <= k < j
      ensures lst[k] != item
    {
      assert lst[..j][k] == lst[k];
    }
  }

  // ---------------------------------------------------------------------
  // Writer.write, without the file
  // ---------------------------------------------------------------------

  /** `'\n'.join(lines).strip() + '\n'`. */
  function UpdatedContent(lines: seq<string>): (u: string)
    ensures u == Strip(Join("\n", lines)) + "\n"
    ensures |u| > 0 && u[|u| - 1] == '\n'
    ensures |u| > 1 ==> !IsSpace(u[|u| - 2]) && !IsSpace(u[0])
  {
    var body := Strip(Join("\n", lines));
    assert |body| > 0 ==> (body + "\n")[|body| - 1] == body[|body| - 1] && (body + "\n")[0] == body[0];
    body + "\n"
  }

  /**
   * Splitting the updated content into lines and settling on it again gives
   * the same content: it is already stripped and its only breaks are `'\n'`.
   */
  lemma UpdatedContentStable(lines: seq<string>)
    requires forall k :: 0 <= k < |lines| ==> NoBoundary(lines[k])
    ensures UpdatedContent(SplitLines(UpdatedContent(lines))) == UpdatedContent(lines)
  {
    var j := Join("\n", lines);
    var x := Strip(j);
    JoinOnlyNewlines(lines);
    var a, b := StripSlice(j);
    assert OnlyNewlineBreaks(x) by {
      forall k | 0 <= k < |x| && IsLineBoundary(x[k])
        ensures x[k] == '\n'
      {
        assert x[k] == j[a + k];
      }
    }
    JoinSplitLinesNewline(x);
    StripTrimmed(x);
  }

  /**
   * Where the joined lines start with a non-space character and the end
   * marker ends with one, stripping cannot reach into `front + d + [em]`:
   * the updated content splits into those lines, then whatever followed.
   */
  lemma UpdatedLines(r: seq<string>, front: seq<string>, d: seq<string>, back: seq<string>, em: string)
    returns (tail: seq<string>)
    requires r == front + d + back && |front| > 0 && |back| > 0 && back[0] == em
    requires forall k :: 0 <= k < |r| ==> NoBoundary(r[k])
    requires |r[0]| > 0 && !IsSpace(r[0][0])
    requires |em| > 0 && !IsSpace(em[|em| - 1])
    ensures SplitLines(UpdatedContent(r)) == front + d + [em] + tail
  {
    var ls := front + d + [em];
    var j := Join("\n", r);
    var a := Join("\n", ls);
    forall k | 0 <= k < |ls|
      ensures NoBoundary(ls[k])
    {
      assert ls[k] == r[k];
    }
    JoinConcat("\n", front + d, [em]);
    assert a[|a| - 1] == em[|em| - 1];
    if |back| == 1 {
      assert r == ls;
    } else {
      assert r == ls + back[1..];
      JoinConcat("\n", ls, back[1..]);
    }
    assert a <= j && (|j| > |a| ==> j[|a|] == '\n');
    JoinHead("\n", r);
    var z := StripPastPrefix(j, a);
    SplitLinesAppend(ls, z);
    tail := SplitLines(z);
  }

  /** Text that does not start with whitespace has a first line that does not either. */
  lemma FirstLineNotSpace(text: string)
    requires text != [] && !IsSpace(text[0])
    ensures var ls := SplitLines(text); |ls| > 0 && |ls[0]| > 0 && ls[0][0] == text[0]
  {
    SplitLinesFirst(text);
    BoundaryIsSpace(text[0]);
    assert FirstBoundary(text) > 0;
  }

  /** Lines put together from boundary-free lines are boundary-free. */
  lemma LinesWithoutBoundary(r: seq<string>, front: seq<string>, d: seq<string>, back: seq<string>)
    requires r == front + d + back
    requires forall k :: 0 <= k < |front| ==> NoBoundary(front[k])
    requires forall k :: 0 <= k < |d| ==> NoBoundary(d[k])
    requires forall k :: 0 <= k < |back| ==> NoBoundary(back[k])
    ensures forall k :: 0 <= k < |r| ==> NoBoundary(r[k])
  {
    forall k | 0 <= k < |r|
      ensures NoBoundary(r[k])
    {
      if k < |front| {
        assert r[k] == front[k];
      } else if k < |front| + |d| {
        assert r[k] == d[k - |front|];
      } else {
        assert r[k] == back[k - |front| - |d|];
      }
    }
  }

  /**
   * A successful insertion lays its result out as `front + d + back`: `front`
   * ends with the first start marker and holds no end marker, `d` is the
   * documentation's lines and `back` starts with the end marker. Every other
   * line of `front` and `back` is a line of the content, and `front` starts
   * with the content's first line, or with the start marker when there is none.
   */
  lemma InsertSeams(content: seq<string>, docs: string, name: string, position: string)
    returns (front: seq<string>, back: seq<string>)
    requires InsertMarkedBlock(content, docs, name, position).Ok?
    ensures InsertMarkedBlock(content, docs, name, position).value == front + SplitLines(docs) + back
    ensures |front| > 0 && front[|front| - 1] == Marker(name, "START")
    ensures Marker(name, "START") !in front[..|front| - 1] && Marker(name, "END") !in front
    ensures |back| > 0 && back[0] == Marker(name, "END")
    ensures forall k :: 0 <= k < |front| ==> front[k] == Marker(name, "START") || front[k] in content
    ensures forall k :: 0 <= k < |back| ==> back[k] == Marker(name, "END") || back[k] in content
    ensures front[0] == if content == [] then Marker(name, "START") else content[0]
  {
    var sm := Marker(name, "START");
    var em := Marker(name, "END");
    MarkersDiffer(name);
    var s := IfIndex(content, sm);
    var e := IfIndex(content, em);
    if s == -1 {
      front, back := content + [sm], [em];
      assert front[..|front| - 1] == content;
    } else {
      front, back := content[..s + 1], content[e..];
      BetweenSeams(content, sm, em, s, e);
    }
  }

  /**
   * The lines of a successful insertion into a target's lines hold no line
   * boundary, and the first starts with the target's first character, or
   * with the start marker when the target is empty.
   */
  lemma InsertedLinesClean(fileText: string, docs: string, name: string, front: seq<string>, back: seq<string>)
    requires NoBoundary(name)
    requires fileText == [] || !IsSpace(fileText[0])
    requires |front| > 0 && |back| > 0
    requires forall k :: 0 <= k < |front| ==> front[k] == Marker(name, "START") || front[k] in SplitLines(fileText)
    requires forall k :: 0 <= k < |back| ==> back[k] == Marker(name, "END") || back[k] in SplitLines(fileText)
    requires front[0] == if SplitLines(fileText) == [] then Marker(name, "START") else SplitLines(fileText)[0]
    ensures var r := front + SplitLines(docs) + back;
            forall k :: 0 <= k < |r| ==> NoBoundary(r[k])
    ensures |front[0]| > 0 && !IsSpace(front[0][0])
  {
    var content := SplitLines(fileText);
    assert NoBoundary("START") && NoBoundary("END");
    MarkerNoBoundary(name, "START");
    MarkerNoBoundary(name, "END");
    LinesWithoutBoundary(front + SplitLines(docs) + back, front, SplitLines(docs), back);
    if content != [] {
      FirstLineNotSpace(fileText);
    }
  }

  /**
   * Writing the same documentation again onto the content a write settled
   * on finds nothing to change, so `changed` comes back false. The target
   * must not start with whitespace: `strip` could otherwise turn an
   * indented marker-like line above the markers into a marker.
   */
  lemma WriteTwiceUnchanged(fileText: string, docs: string, name: string, position: string)
    requires NoMarkerLines(docs, name) && NoBoundary(name)
    requires fileText == [] || !IsSpace(fileText[0])
    requires InsertMarkedBlock(SplitLines(fileText), docs, name, position).Ok?
    ensures var u := UpdatedContent(InsertMarkedBlock(SplitLines(fileText), docs, name, position).value);
            var again := InsertMarkedBlock(SplitLines(u), docs, name, position);
            again.Ok? && UpdatedContent(again.value) == u
  {
    var r := InsertMarkedBlock(SplitLines(fileText), docs, name, position).value;
    var front, back := InsertSeams(SplitLines(fileText), docs, name, position);
    InsertedLinesClean(fileText, docs, name, front, back);
    assert r[0] == front[0];
    ReinsertUpdated(r, front, SplitLines(docs), back, docs, name, position);
    UpdatedContentStable(r);
  }

  /**
   * Lines laid out as an insertion lays them out, boundary-free and not
   * starting with whitespace: inserting the same documentation into the
   * lines of their updated content puts those lines back unchanged.
   */
  lemma ReinsertUpdated(r: seq<string>, front: seq<string>, d: seq<string>, back: seq<string>,
                        docs: string, name: string, position: string)
    requires d == SplitLines(docs) && NoMarkerLines(docs, name) && NoBoundary(name)
    requires r == front + d + back
    requires |front| > 0 && front[|front| - 1] == Marker(name, "START")
    requires Marker(name, "START") !in front[..|front| - 1] && Marker(name, "END") !in front
    requires |back| > 0 && back[0] == Marker(name, "END")
    requires forall k :: 0 <= k < |r| ==> NoBoundary(r[k])
    requires |r[0]| > 0 && !IsSpace(r[0][0])
    ensures var lines := SplitLines(UpdatedContent(r));
            InsertMarkedBlock(lines, docs, name, position) == Ok(lines)
  {
    var sm := Marker(name, "START");
    var em := Marker(name, "END");
    assert NoBoundary("END");
    MarkerNoBoundary(name, "END");
    MarkersDiffer(name);
    var tail := UpdatedLines(r, front, d, back, em);
    var lines := SplitLines(UpdatedContent(r));
    AppendAssoc(front + d, [em], tail);
    assert sm !in d && em !in d;
    MarkersAt(lines, front, d, [em] + tail, sm, em);
    ReinsertSame(lines, front, d, [em] + tail, docs, name, position);
  }

  /**
   * The state `Writer.write` keeps: the generated documentation, and, once
   * it has run, the original and updated content and whether they differ.
   */
  class DocWriter {
    var generatedDoc: string
    var originalContent: Option<string>
    var updatedContent: Option<string>
    var changed: bool

    /** `Writer.__init__` for a target file that exists (no stream, no file creation). */
    constructor (content: string)
      ensures generatedDoc == content && updatedContent == None && originalContent == None && !changed
    {
      generatedDoc := content;
      originalContent := None;
      updatedContent := None;
      changed := false;
    }

    /**
     * `Writer.write` given the target's text: splice the documentation in,
     * settle on the updated content and record whether it differs. An
     * insertion error propagates with only the original content recorded.
     */
    method Write(fileText: string, name: string, position: string) returns (r: Result<()>)
      modifies this
      ensures generatedDoc == old(generatedDoc) && originalContent == Some(fileText)
      ensures var ins := InsertMarkedBlock(SplitLines(fileText), generatedDoc, name, position);
              && (r.Err? <==> ins.Err?)
              && (ins.Err? ==> r.error == ins.error && updatedContent == old(updatedContent) && changed == old(changed))
              && (ins.Ok? ==> updatedContent == Some(UpdatedContent(ins.value))
                              && (changed <==> fileText != UpdatedContent(ins.value)))
    {
      originalContent := Some(fileText);
      var lines := SplitLines(fileText);
      var updatedLines := InsertMarkedBlock(lines, generatedDoc, name, position);
      if updatedLines.Err? {
        return Err(updatedLines.error);
      }
      var updated := UpdatedContent(updatedLines.value);
      updatedContent := Some(updated);
      changed := fileText != updated;
      return Ok(());
    }
  }
}
