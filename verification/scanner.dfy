/**
 * `find_prop_in_block` from lib/common/helper.py: recover the raw source text
 * of `prop = ...` inside a block, with a character-level state machine over a
 * bracket stack, a quote flag, a heredoc flag and terminator name, a
 * line-ended flag and an escape flag.
 *
 * `Step` is one turn of the source's `while` loop and `Run` the loop as a
 * whole; `PropValue` is the whole function. The method `FindPropInBlock` is
 * the loop as the source writes it, with mutable locals, proved to compute
 * `PropValue`. The quirks of the source are kept (see `Step`).
 */
module Scanner {

  import opened Errors
  import opened Builtins

  /** `\w` (ASCII letters, digits and `_`). */
  predicate IsWordChar(c: char) {
    ('a' <= c <= 'z') || ('A' <= c <= 'Z') || ('0' <= c <= '9') || c == '_'
  }

  predicate IsWord(s: string) {
    forall i :: 0 <= i < |s| ==> IsWordChar(s[i])
  }

  /**
   * An HCL identifier, as the names interpolated into the regexes are: the
   * property names `type`, `default`, `value`, a local's or a block's name.
   * Non-empty, no whitespace and no regex metacharacter, so an interpolated
   * pattern matches the name literally.
   */
  predicate IsIdentifier(name: string) {
    |name| > 0 && forall i :: 0 <= i < |name| ==> IsWordChar(name[i]) || name[i] == '-'
  }

  // ---------------------------------------------------------------------
  // The `^\s*prop\s*=` matches (re.MULTILINE)
  // ---------------------------------------------------------------------

  /** `start` and `end` of a match, and its indentation `len(g) - len(g.lstrip())`. */
  datatype PropMatch = PropMatch(start: nat, indent: nat, end: nat)

  /** `^` under re.MULTILINE: the start of the text or just after a `'\n'`. */
  predicate AtLineStart(text: string, p: nat) {
    p == 0 || (p <= |text| && text[p - 1] == '\n')
  }

  /**
   * `^\s*prop\s*=` tried at `p`. `\s*` is greedy and a name starts with a
   * non-space character, so backtracking never finds another match: the
   * whitespace runs are maximal. They may cross newlines.
   */
  function MatchPropAt(text: string, prop: string, p: nat): (r: Option<PropMatch>)
    requires IsIdentifier(prop) && p <= |text|
    ensures r.Some? ==> r.value.start == p && p + r.value.indent + |prop| < r.value.end <= |text|
  {
    if !AtLineStart(text, p) then None
    else
      var w := SpaceRun(text, p);
      if prop <= text[w..] then
        var v := SpaceRun(text, w + |prop|);
        if v < |text| && text[v] == '=' then Some(PropMatch(p, w - p, v + 1)) else None
      else None
  }

  /**
   * A match is the start of a line, a run of whitespace (possibly spanning
   * lines), the name, more whitespace and `=`.
   */
  lemma MatchPropShape(text: string, prop: string, p: nat)
    requires IsIdentifier(prop) && p <= |text| && MatchPropAt(text, prop, p).Some?
    ensures var m := MatchPropAt(text, prop, p).value;
            && AtLineStart(text, p)
            && (forall k :: p <= k < p + m.indent ==> IsSpace(text[k]))
            && text[p + m.indent..p + m.indent + |prop|] == prop
            && (forall k :: p + m.indent + |prop| <= k < m.end - 1 ==> IsSpace(text[k]))
            && text[m.end - 1] == '='
  {
  }

  /** `re.finditer(...)` from `p` on: left to right, each search resuming where the last match ended. */
  function PropMatchesFrom(text: string, prop: string, p: nat): (ms: seq<PropMatch>)
    requires IsIdentifier(prop) && p <= |text|
    ensures forall i :: 0 <= i < |ms| ==> p <= ms[i].start < ms[i].end <= |text|
    ensures forall i, j :: 0 <= i < j < |ms| ==> ms[i].end <= ms[j].start
    decreases |text| - p
  {
    if p == |text| then []
    else
      match MatchPropAt(text, prop, p)
      case Some(m) => [m] + PropMatchesFrom(text, prop, m.end)
      case None => PropMatchesFrom(text, prop, p + 1)
  }

  /** Every reported match is a match of `^\s*prop\s*=` at its start. */
  lemma {:induction false} PropMatchesFromSound(text: string, prop: string, p: nat, i: nat)
    requires IsIdentifier(prop) && p <= |text| && i < |PropMatchesFrom(text, prop, p)|
    ensures var m := PropMatchesFrom(text, prop, p)[i]; MatchPropAt(text, prop, m.start) == Some(m)
    decreases |text| - p
  {
    var r := MatchPropAt(text, prop, p);
    if r.Some? {
      if i > 0 {
        PropMatchesFromSound(text, prop, r.value.end, i - 1);
      }
    } else {
      PropMatchesFromSound(text, prop, p + 1, i);
    }
  }

  /** No match is skipped: nothing between `p` and the first reported match (or the end) matches. */
  lemma {:induction false} PropMatchesFromFirst(text: string, prop: string, p: nat, q: nat)
    requires IsIdentifier(prop) && p <= q <= |text|
    requires var ms := PropMatchesFrom(text, prop, p); ms == [] || q < ms[0].start
    ensures MatchPropAt(text, prop, q).None?
    decreases |text| - p
  {
    if p < |text| && MatchPropAt(text, prop, p).None? && p < q {
      PropMatchesFromFirst(text, prop, p + 1, q);
    }
  }

  function IndentOf(m: PropMatch): nat { m.indent }

  /**
   * The match the scan starts from: with several matches the source sorts
   * them by indentation (stably) and takes the first, so the earliest of the
   * least indented; `None` where `matches[0]` raises.
   */
  function ChosenMatch(text: string, prop: string): (r: Option<PropMatch>)
    requires IsIdentifier(prop)
    ensures r.None? <==> PropMatchesFrom(text, prop, 0) == []
    ensures r.Some? ==> r.value.start < |text|
  {
    var ms := PropMatchesFrom(text, prop, 0);
    if ms == [] then None else Some(ms[FirstMinIndex(ms, IndentOf)])
  }

  /** The chosen match is a match of `^\s*prop\s*=` at its start. */
  lemma ChosenMatchSound(text: string, prop: string)
    requires IsIdentifier(prop) && ChosenMatch(text, prop).Some?
    ensures var m := ChosenMatch(text, prop).value; MatchPropAt(text, prop, m.start) == Some(m)
  {
    var ms := PropMatchesFrom(text, prop, 0);
    PropMatchesFromSound(text, prop, 0, FirstMinIndex(ms, IndentOf));
  }

  /** The chosen match is one of the matches, the least indented, and the earliest of those. */
  lemma ChosenMatchLeast(text: string, prop: string)
    requires IsIdentifier(prop) && ChosenMatch(text, prop).Some?
    ensures var ms := PropMatchesFrom(text, prop, 0); var m := ChosenMatch(text, prop).value;
            && m in ms
            && (forall j :: 0 <= j < |ms| ==> m.indent <= ms[j].indent)
            && (forall j :: 0 <= j < |ms| && ms[j].indent == m.indent ==> m.start <= ms[j].start)
  {
    var ms := PropMatchesFrom(text, prop, 0);
    var i := FirstMinIndex(ms, IndentOf);
    assert ChosenMatch(text, prop).value == ms[i];
    forall j | 0 <= j < |ms|
      ensures ms[i].indent <= ms[j].indent
      ensures ms[j].indent == ms[i].indent ==> ms[i].start <= ms[j].start
    {
      assert IndentOf(ms[i]) <= IndentOf(ms[j]);
      assert j < i ==> IndentOf(ms[i]) < IndentOf(ms[j]);
      assert i < j ==> ms[i].end <= ms[j].start;
    }
  }

  // ---------------------------------------------------------------------
  // The scan state machine
  // ---------------------------------------------------------------------

  /** The loop's locals; `heredocName` is `""` where the source has `None`. */
  datatype ScanState = ScanState(
    idx: nat,
    ret: string,
    stack: seq<char>,
    lineEnded: bool,
    inQuoted: bool,
    inHeredoc: bool,
    isEscaped: bool,
    heredocName: string)

  function Initial(start: nat): ScanState {
    ScanState(start, "", [], false, false, false, false, "")
  }

  predicate IsOpener(c: char) { c == '{' || c == '[' || c == '(' }

  predicate IsCloser(c: char) { c == '}' || c == ']' || c == ')' }

  /** `BRACKETS[c]`. */
  function OpenerOf(c: char): char
    requires IsCloser(c)
  {
    if c == '}' then '{' else if c == ']' then '[' else '('
  }

  /** What every reachable state satisfies: only openers are stacked, and terminators are words. */
  ghost predicate Valid(s: ScanState) {
    (forall i :: 0 <= i < |s.stack| ==> IsOpener(s.stack[i])) && IsWord(s.heredocName)
  }

  /** A heredoc opener as `re.match(r'<<-?(\w+)', ...)` finds it: its length and its name. */
  datatype HeredocOpen = HeredocOpen(width: nat, name: string)

  function WordRun(s: string, i: nat): (j: nat)
    requires i <= |s|
    ensures i <= j <= |s| && IsWord(s[i..j])
    decreases |s| - i
  {
    if i < |s| && IsWordChar(s[i]) then
      var j := WordRun(s, i + 1);
      assert s[i..j] == [s[i]] + s[i + 1..j];
      j
    else i
  }

  /** `re.match(RE_HEREDOC, text[i:])`: `<<`, an optional `-`, then a maximal run of word characters. */
  function HeredocAt(text: string, i: nat): (r: Option<HeredocOpen>)
    requires i <= |text|
    ensures r.Some? ==>
              && 3 <= r.value.width && i + r.value.width <= |text| && |r.value.name| > 0 && IsWord(r.value.name)
              && text[i..i + 2] == "<<"
              && r.value.width - |r.value.name| in {2, 3}
  {
    if i + 2 <= |text| && text[i] == '<' && text[i + 1] == '<' then
      var j := if i + 2 < |text| && text[i + 2] == '-' then i + 3 else i + 2;
      var k := WordRun(text, j);
      if j < k then Some(HeredocOpen(k - i, text[j..k])) else None
    else None
  }

  /** `text[i - 1]`, which for `i == 0` is the last character, as in Python. */
  function PrevChar(text: string, i: nat): char
    requires 0 < |text| && i < |text|
  {
    if i == 0 then text[|text| - 1] else text[i - 1]
  }

  /** The guard of the heredoc-closing branch. */
  predicate ClosesHeredoc(text: string, s: ScanState)
    requires s.idx < |text|
  {
    && s.inHeredoc && !s.inQuoted && s.heredocName != ""
    && s.heredocName + "\n" <= text[s.idx..]
    && PrevChar(text, s.idx) == '\n'
  }

  /** The guard of the heredoc-opening branch. */
  predicate OpensHeredoc(text: string, s: ScanState)
    requires s.idx < |text|
  {
    text[s.idx] == '<' && !(s.inQuoted || s.inHeredoc) && HeredocAt(text, s.idx).Some?
  }

  /** One turn of the loop: carry on, stop (`break`), or raise. */
  datatype Outcome = Next(state: ScanState) | Halt(state: ScanState) | Raise(error: Error)

  /**
   * One turn of the `while idx < len(text)` loop on the character at `idx`,
   * branch for branch as the source has it. Kept as written:
   *  - a heredoc opener appends `<` and then `<<-NAME`, and the character
   *    after the name is skipped;
   *  - closing a heredoc appends only the terminator's first character;
   *  - closers inside a heredoc are not guarded, and a closer with nothing
   *    open fails on `bracket_stack[-1]` (an IndexError).
   */
  function Step(text: string, s: ScanState): (r: Outcome)
    requires s.idx < |text| && Valid(s)
    ensures r.Next? ==> r.state.idx > s.idx && Valid(r.state)
    ensures r.Halt? ==> Valid(r.state)
  {
    var c := text[s.idx];
    var ret := s.ret + [c];
    var adv := s.(idx := s.idx + 1, ret := ret, isEscaped := c == '\\' && !s.isEscaped);
    if c == '"' && !s.inHeredoc && !s.isEscaped then
      Next(adv.(inQuoted := !s.inQuoted))
    else if c == '<' && !(s.inQuoted || s.inHeredoc) && HeredocAt(text, s.idx).Some? then
      var h := HeredocAt(text, s.idx).value;
      Next(adv.(idx := s.idx + h.width + 1, ret := ret + "<<-" + h.name, inHeredoc := true, heredocName := h.name))
    else if s.inHeredoc && !s.inQuoted && s.heredocName != "" && s.heredocName + "\n" <= text[s.idx..]
            && PrevChar(text, s.idx) == '\n' then
      var i1 := s.idx + |s.heredocName|;
      assert text[i1] == (s.heredocName + "\n")[|s.heredocName|];
      var i2 := if text[i1] == '\n' then i1 + 1 else i1;
      if s.lineEnded then Halt(s.(idx := i2, ret := ret, inHeredoc := false))
      else Next(adv.(idx := i2 + 1, inHeredoc := false))
    else if IsOpener(c) && !s.inQuoted && !s.inHeredoc then
      Next(adv.(stack := s.stack + [c]))
    else if IsCloser(c) && !s.inQuoted && s.stack == [] then
      Raise(EmptyBracketStack)
    else if IsCloser(c) && !s.inQuoted && OpenerOf(c) == s.stack[|s.stack| - 1] then
      var popped := s.stack[..|s.stack| - 1];
      if s.lineEnded && popped == [] then Halt(s.(ret := ret, stack := popped))
      else Next(adv.(stack := popped))
    else if IsCloser(c) && !s.inQuoted then
      Raise(UnmatchedBrackets)
    else if c == '\n' then
      if !(s.inQuoted || s.inHeredoc) && s.stack == [] then Halt(s.(ret := ret, lineEnded := true))
      else Next(adv.(lineEnded := true))
    else
      Next(adv)
  }

  /** The rules of one turn, as the branches of the loop state them. */
  lemma StepRules(text: string, s: ScanState)
    requires s.idx < |text| && Valid(s)
    // `"` toggles the quote flag unless a heredoc is open or it is escaped
    ensures var r := Step(text, s);
            !r.Raise? ==> (r.state.inQuoted <==> (s.inQuoted != (text[s.idx] == '"' && !s.inHeredoc && !s.isEscaped)))
    // the escape flag: this character is an unescaped backslash (so `\\` pairs cancel)
    ensures var r := Step(text, s);
            r.Next? ==> (r.state.isEscaped <==> text[s.idx] == '\\' && !s.isEscaped)
    // any newline ends the line, and nothing else does
    ensures var r := Step(text, s);
            !r.Raise? ==> (r.state.lineEnded <==> s.lineEnded || text[s.idx] == '\n')
    // the bracket stack: openers push outside quotes and heredocs ...
    ensures var r := Step(text, s);
            (IsOpener(text[s.idx]) && !s.inQuoted && !s.inHeredoc) ==> r.Next? && r.state.stack == s.stack + [text[s.idx]]
    // ... a closer outside quotes pops its own opener, and fails otherwise
    ensures var r := Step(text, s);
            (IsCloser(text[s.idx]) && !s.inQuoted && s.stack == []) ==> r == Raise(EmptyBracketStack)
    ensures var r := Step(text, s); var c := text[s.idx];
            (IsCloser(c) && !s.inQuoted && s.stack != [] && OpenerOf(c) != s.stack[|s.stack| - 1])
              ==> r == Raise(UnmatchedBrackets)
    ensures var r := Step(text, s); var c := text[s.idx];
            (IsCloser(c) && !s.inQuoted && s.stack != [] && OpenerOf(c) == s.stack[|s.stack| - 1])
              ==> !r.Raise? && r.state.stack == s.stack[..|s.stack| - 1]
    ensures var r := Step(text, s);
            r.Raise? ==> IsCloser(text[s.idx]) && !s.inQuoted
    // ... and nothing else touches it
    ensures var r := Step(text, s); var c := text[s.idx];
            (!r.Raise? && !(IsOpener(c) && !s.inQuoted && !s.inHeredoc) && !(IsCloser(c) && !s.inQuoted))
              ==> r.state.stack == s.stack
    // the loop stops on: a bare newline at depth 0, a closer that empties the
    // stack after a newline, or a heredoc terminator after a newline
    ensures var r := Step(text, s); var c := text[s.idx];
            r.Halt? <==>
              || (c == '\n' && !s.inQuoted && !s.inHeredoc && s.stack == [])
              || (IsCloser(c) && !s.inQuoted && |s.stack| == 1 && OpenerOf(c) == s.stack[0] && s.lineEnded)
              || (ClosesHeredoc(text, s) && s.lineEnded)
    // the collected text grows by the character read, except at a heredoc opener
    ensures var r := Step(text, s);
            (!r.Raise? && !OpensHeredoc(text, s)) ==> r.state.ret == s.ret + [text[s.idx]]
    ensures var r := Step(text, s);
            OpensHeredoc(text, s) ==>
              var h := HeredocAt(text, s.idx).value;
              && r.Next? && r.state.inHeredoc && r.state.heredocName == h.name
              && r.state.ret == s.ret + "<" + "<<-" + h.name
              && r.state.idx == s.idx + h.width + 1
    // at a terminator only its first character is kept and the rest of its line is skipped
    ensures var r := Step(text, s);
            ClosesHeredoc(text, s) ==>
              && !r.Raise? && !r.state.inHeredoc
              && r.state.idx == s.idx + |s.heredocName| + (if r.Halt? then 1 else 2)
  {
    if ClosesHeredoc(text, s) {
      assert text[s.idx] == s.heredocName[0];
      assert IsWordChar(text[s.idx]);
    }
  }

  /** The whole loop from state `s`: the state it stops in, or the error it raises. */
  function Run(text: string, s: ScanState): Result<ScanState>
    requires Valid(s)
    decreases |text| - s.idx
  {
    if s.idx >= |text| then Ok(s)
    else
      match Step(text, s)
      case Next(t) => Run(text, t)
      case Halt(t) => Ok(t)
      case Raise(e) => Err(e)
  }

  lemma RunNext(text: string, s: ScanState, t: ScanState)
    requires Valid(s) && s.idx < |text| && Step(text, s) == Next(t)
    ensures Run(text, s) == Run(text, t)
  {
  }

  /** An ordinary character: no newline, quote, bracket or heredoc opener. */
  predicate Plain(text: string, i: nat)
    requires i < |text|
  {
    text[i] != '\n' && text[i] != '"' && !IsOpener(text[i]) && !IsCloser(text[i]) && HeredocAt(text, i).None?
  }

  /** The escape flag after reading `t` from flag `e`. */
  function EscapeAfter(e: bool, t: string): bool
    decreases |t|
  {
    if t == [] then e else EscapeAfter(t[0] == '\\' && !e, t[1..])
  }

  /**
   * Outside quotes and heredocs, a stretch of ordinary characters is copied
   * to the collected text and changes nothing else but the escape flag.
   */
  lemma {:induction false} RunPlain(text: string, s: ScanState, o: nat)
    requires Valid(s) && s.idx <= o <= |text| && !s.inQuoted && !s.inHeredoc
    requires forall i :: s.idx <= i < o ==> Plain(text, i)
    ensures Run(text, s) == Run(text, s.(idx := o, ret := s.ret + text[s.idx..o],
                                         isEscaped := EscapeAfter(s.isEscaped, text[s.idx..o])))
    decreases o - s.idx
  {
    if s.idx < o {
      var c := text[s.idx];
      assert Plain(text, s.idx);
      var t := s.(idx := s.idx + 1, ret := s.ret + [c], isEscaped := c == '\\' && !s.isEscaped);
      StepPlain(text, s);
      RunNext(text, s, t);
      RunPlain(text, t, o);
      PlainSliceHead(text, s.idx, o, s.ret, s.isEscaped);
    } else {
      assert s.ret + text[s.idx..o] == s.ret;
    }
  }

  /** Copying `text[i..o]` is copying `text[i]`, then `text[i + 1..o]`. */
  lemma PlainSliceHead(text: string, i: nat, o: nat, ret: string, esc: bool)
    requires i < o <= |text|
    ensures ret + text[i..o] == (ret + [text[i]]) + text[i + 1..o]
    ensures EscapeAfter(esc, text[i..o]) == EscapeAfter(text[i] == '\\' && !esc, text[i + 1..o])
  {
    SliceHeadTail(text, i, o);
  }

  /** One ordinary character outside quotes and heredocs is copied and only moves the escape flag. */
  lemma StepPlain(text: string, s: ScanState)
    requires Valid(s) && s.idx < |text| && !s.inQuoted && !s.inHeredoc && Plain(text, s.idx)
    ensures var c := text[s.idx];
            Step(text, s) == Next(s.(idx := s.idx + 1, ret := s.ret + [c], isEscaped := c == '\\' && !s.isEscaped))
  {
  }

  /** The guard of the quote branch. */
  predicate TogglesQuote(text: string, s: ScanState)
    requires s.idx < |text|
  {
    text[s.idx] == '"' && !s.inHeredoc && !s.isEscaped
  }

  // One lemma per branch of `Step`, each under the guards of the branches before it.

  lemma StepQuote(text: string, s: ScanState)
    requires s.idx < |text| && Valid(s) && TogglesQuote(text, s)
    ensures var c := text[s.idx];
            Step(text, s) == Next(ScanState(s.idx + 1, s.ret + [c], s.stack, s.lineEnded, !s.inQuoted, s.inHeredoc, c == '\\' && !s.isEscaped, s.heredocName))
  {
  }

  lemma StepHeredocOpen(text: string, s: ScanState)
    requires s.idx < |text| && Valid(s) && !TogglesQuote(text, s) && OpensHeredoc(text, s)
    ensures var c := text[s.idx]; var h := HeredocAt(text, s.idx).value;
            Step(text, s) == Next(ScanState(s.idx + h.width + 1, s.ret + [c] + "<<-" + h.name, s.stack, s.lineEnded, s.inQuoted, true,
                                            c == '\\' && !s.isEscaped, h.name))
  {
  }

  lemma StepHeredocClose(text: string, s: ScanState)
    requires s.idx < |text| && Valid(s) && !TogglesQuote(text, s) && !OpensHeredoc(text, s) && ClosesHeredoc(text, s)
    ensures var i1 := s.idx + |s.heredocName|;
            && i1 < |text|
            && var i2 := if text[i1] == '\n' then i1 + 1 else i1;
               var c := text[s.idx];
               Step(text, s) == if s.lineEnded then Halt(ScanState(i2, s.ret + [c], s.stack, s.lineEnded, s.inQuoted, false, s.isEscaped, s.heredocName))
                                else Next(ScanState(i2 + 1, s.ret + [c], s.stack, s.lineEnded, s.inQuoted, false, c == '\\' && !s.isEscaped, s.heredocName))
  {
  }

  /** Neither quote nor heredoc: the branches on brackets and newlines. */
  predicate Unquoted(text: string, s: ScanState)
    requires s.idx < |text|
  {
    !TogglesQuote(text, s) && !OpensHeredoc(text, s) && !ClosesHeredoc(text, s)
  }

  lemma StepOpener(text: string, s: ScanState)
    requires s.idx < |text| && Valid(s) && Unquoted(text, s) && IsOpener(text[s.idx]) && !s.inQuoted && !s.inHeredoc
    ensures var c := text[s.idx];
            Step(text, s) == Next(ScanState(s.idx + 1, s.ret + [c], s.stack + [c], s.lineEnded, s.inQuoted, s.inHeredoc, c == '\\' && !s.isEscaped, s.heredocName))
  {
  }

  lemma StepCloser(text: string, s: ScanState)
    requires s.idx < |text| && Valid(s) && Unquoted(text, s) && IsCloser(text[s.idx]) && !s.inQuoted
    ensures s.stack == [] ==> Step(text, s) == Raise(EmptyBracketStack)
    ensures s.stack != [] && OpenerOf(text[s.idx]) != s.stack[|s.stack| - 1] ==> Step(text, s) == Raise(UnmatchedBrackets)
    ensures s.stack != [] && OpenerOf(text[s.idx]) == s.stack[|s.stack| - 1] ==>
              var c := text[s.idx]; var popped := s.stack[..|s.stack| - 1];
              Step(text, s) == if s.lineEnded && popped == [] then Halt(ScanState(s.idx, s.ret + [c], popped, s.lineEnded, s.inQuoted, s.inHeredoc, s.isEscaped, s.heredocName))
                               else Next(ScanState(s.idx + 1, s.ret + [c], popped, s.lineEnded, s.inQuoted, s.inHeredoc, c == '\\' && !s.isEscaped, s.heredocName))
  {
  }

  lemma StepNewline(text: string, s: ScanState)
    requires s.idx < |text| && Valid(s) && Unquoted(text, s) && text[s.idx] == '\n'
    ensures Step(text, s) == if !(s.inQuoted || s.inHeredoc) && s.stack == [] then Halt(ScanState(s.idx, s.ret + ['\n'], s.stack, true, s.inQuoted, s.inHeredoc, s.isEscaped, s.heredocName))
                             else Next(ScanState(s.idx + 1, s.ret + ['\n'], s.stack, true, s.inQuoted, s.inHeredoc, false, s.heredocName))
  {
  }

  lemma StepOther(text: string, s: ScanState)
    requires s.idx < |text| && Valid(s) && Unquoted(text, s) && text[s.idx] != '\n'
    requires !(IsOpener(text[s.idx]) && !s.inQuoted && !s.inHeredoc) && !(IsCloser(text[s.idx]) && !s.inQuoted)
    ensures var c := text[s.idx];
            Step(text, s) == Next(ScanState(s.idx + 1, s.ret + [c], s.stack, s.lineEnded, s.inQuoted, s.inHeredoc, c == '\\' && !s.isEscaped, s.heredocName))
  {
  }

  /**
   * An open bracket stays open if no closer follows: the scan ends without
   * an error and with a non-empty stack.
   */
  lemma {:induction false} OpenStackSurvives(text: string, s: ScanState)
    requires Valid(s) && s.stack != []
    requires forall i :: s.idx <= i < |text| ==> !IsCloser(text[i])
    ensures Run(text, s).Ok? && Run(text, s).value.stack != []
    decreases |text| - s.idx
  {
    if s.idx < |text| {
      StepRules(text, s);
      match Step(text, s)
      case Next(t) =>
        OpenStackSurvives(text, t);
      case Halt(t) =>
      case Raise(e) =>
    }
  }

  /** `re.sub(rf'^\s*{prop}\s*=\s*', '', ret, count=1)`: drop the assignment prefix if `ret` starts with one. */
  function StripAssignment(ret: string, prop: string): string
    requires IsIdentifier(prop)
  {
    match MatchPropAt(ret, prop, 0)
    case Some(m) => ret[SpaceRun(ret, m.end)..]
    case None => ret
  }

  /** The result of `find_prop_in_block(text, prop)`. */
  function PropValue(text: string, prop: string): Result<string>
    requires IsIdentifier(prop)
  {
    match ChosenMatch(text, prop)
    case None => Err(NoPropMatch)
    case Some(m) =>
      match Run(text, Initial(m.start))
      case Err(e) => Err(e)
      case Ok(f) => if f.stack != [] then Err(UnmatchedBrackets) else Ok(Strip(StripAssignment(f.ret, prop)))
  }

  /**
   * `find_prop_in_block`: pick the starting match, run the scan loop, then
   * reject open brackets and cut the assignment prefix.
   */
  method FindPropInBlock(text: string, prop: string) returns (r: Result<string>)
    requires IsIdentifier(prop)
    ensures r == PropValue(text, prop)
  {
    var matches := PropMatchesFrom(text, prop, 0);
    if matches == [] {
      return Err(NoPropMatch);
    }
    var start := matches[FirstMinIndex(matches, IndentOf)].start;
    var scanned := ScanFrom(text, start);
    match scanned
    case Err(e) =>
      return Err(e);
    case Ok(f) =>
      if f.stack != [] {
        return Err(UnmatchedBrackets);
      }
      return Ok(Strip(StripAssignment(f.ret, prop)));
  }

  /** The source's `while idx < len(text)` loop, from `start`; one turn of it is `Turn`. */
  method ScanFrom(text: string, start: nat) returns (r: Result<ScanState>)
    ensures r == Run(text, Initial(start))
  {
    var s := Initial(start);
    while s.idx < |text|
      invariant Valid(s) && Run(text, s) == Run(text, Initial(start))
      decreases |text| - s.idx
    {
      var o := Turn(text, s);
      match o
      case Next(t) =>
        RunNext(text, s, t);
        s := t;
      case Halt(t) =>
        RunHalt(text, s, t);
        return Ok(t);
      case Raise(e) =>
        return Err(e);
    }
    return Ok(s);
  }

  /**
   * The body of the loop on the source's mutable locals, which start out as
   * the fields of `s`: `Next` where it goes round again, `Halt` at a `break`,
   * `Raise` at a `raise` or a failing `bracket_stack[-1]`.
   */
  method Turn(text: string, s: ScanState) returns (o: Outcome)
    requires s.idx < |text| && Valid(s)
    ensures o == Step(text, s)
  {
    var idx, ret, stack, lineEnded := s.idx, s.ret, s.stack, s.lineEnded;
    var inQuoted, inHeredoc, isEscaped, heredocName := s.inQuoted, s.inHeredoc, s.isEscaped, s.heredocName;
    var c := text[idx];
    ret := ret + [c];
    if c == '"' && !inHeredoc && !isEscaped {
      StepQuote(text, s);
      inQuoted := !inQuoted;
    } else if c == '<' && !(inQuoted || inHeredoc) && HeredocAt(text, idx).Some? {
      StepHeredocOpen(text, s);
      var h := HeredocAt(text, idx).value;
      inHeredoc := true;
      heredocName := h.name;
      idx := idx + h.width;
      ret := ret + "<<-" + heredocName;
    } else if inHeredoc && !inQuoted && heredocName != "" && heredocName + "\n" <= text[idx..]
              && PrevChar(text, idx) == '\n' {
      StepHeredocClose(text, s);
      inHeredoc := false;
      idx := idx + |heredocName|;
      if text[idx] == '\n' {
        idx := idx + 1;
      }
      if lineEnded {
        return Halt(ScanState(idx, ret, stack, lineEnded, inQuoted, inHeredoc, isEscaped, heredocName));
      }
    } else if IsOpener(c) && !inQuoted && !inHeredoc {
      StepOpener(text, s);
      stack := stack + [c];
    } else if IsCloser(c) && !inQuoted && stack == [] {
      StepCloser(text, s);
      return Raise(EmptyBracketStack);
    } else if IsCloser(c) && !inQuoted && OpenerOf(c) == stack[|stack| - 1] {
      StepCloser(text, s);
      stack := stack[..|stack| - 1];
      if lineEnded && stack == [] {
        return Halt(ScanState(idx, ret, stack, lineEnded, inQuoted, inHeredoc, isEscaped, heredocName));
      }
    } else if IsCloser(c) && !inQuoted {
      StepCloser(text, s);
      return Raise(UnmatchedBrackets);
    } else if c == '\n' {
      StepNewline(text, s);
      lineEnded := true;
      if !(inQuoted || inHeredoc) && stack == [] {
        return Halt(ScanState(idx, ret, stack, lineEnded, inQuoted, inHeredoc, isEscaped, heredocName));
      }
    } else {
      StepOther(text, s);
    }
    idx := idx + 1;
    isEscaped := c == '\\' && !isEscaped;
    return Next(ScanState(idx, ret, stack, lineEnded, inQuoted, inHeredoc, isEscaped, heredocName));
  }

  // ---------------------------------------------------------------------
  // What the scan returns
  // ---------------------------------------------------------------------

  /** A match read again inside a slice that starts with it is the same match. */
  lemma MatchPropSlice(text: string, prop: string, p: nat, e: nat)
    requires IsIdentifier(prop) && p <= |text| && MatchPropAt(text, prop, p).Some?
    requires MatchPropAt(text, prop, p).value.end <= e <= |text|
    ensures var m := MatchPropAt(text, prop, p).value;
            MatchPropAt(text[p..e], prop, 0) == Some(PropMatch(0, m.indent, m.end - p))
  {
    var w, v := MatchPropParts(text, prop, p);
    SlicedMatch(text, prop, p, e, w, v);
  }

  lemma SlicedMatch(text: string, prop: string, p: nat, e: nat, w: nat, v: nat)
    requires IsIdentifier(prop) && p <= w && w + |prop| <= v < e <= |text|
    requires w == SpaceRun(text, p) && text[w..w + |prop|] == prop
    requires v == SpaceRun(text, w + |prop|) && text[v] == '='
    ensures MatchPropAt(text[p..e], prop, 0) == Some(PropMatch(0, w - p, v - p + 1))
  {
    SlicedRuns(text, prop, p, e, w, v);
    MatchPropIntro(text[p..e], prop, 0, w - p, v - p);
  }

  /** The whitespace runs and the name of a match, seen from a slice that starts at the match. */
  lemma SlicedRuns(text: string, prop: string, p: nat, e: nat, w: nat, v: nat)
    requires p <= w && w + |prop| <= v < e <= |text|
    requires w == SpaceRun(text, p) && text[w..w + |prop|] == prop
    requires v == SpaceRun(text, w + |prop|) && text[v] == '='
    ensures var r := text[p..e];
            && SpaceRun(r, 0) == w - p && r[w - p..w - p + |prop|] == prop
            && SpaceRun(r, w - p + |prop|) == v - p && r[v - p] == '='
  {
    var r := text[p..e];
    SpaceRunSlice(text, p, e, p);
    SliceInSlice(text, p, e, w - p, w - p + |prop|);
    assert p + (w - p) == w && p + (w - p + |prop|) == w + |prop|;
    SpaceRunSlice(text, p, e, w + |prop|);
  }

  /** The two whitespace runs of a match. */
  lemma MatchPropParts(text: string, prop: string, p: nat) returns (w: nat, v: nat)
    requires IsIdentifier(prop) && p <= |text| && MatchPropAt(text, prop, p).Some?
    ensures w == SpaceRun(text, p) && w + |prop| <= |text| && text[w..w + |prop|] == prop
    ensures v == SpaceRun(text, w + |prop|) && v < |text| && text[v] == '='
    ensures MatchPropAt(text, prop, p).value == PropMatch(p, w - p, v + 1)
  {
    w := SpaceRun(text, p);
    v := SpaceRun(text, w + |prop|);
  }

  lemma MatchPropIntro(text: string, prop: string, p: nat, w: nat, v: nat)
    requires IsIdentifier(prop) && p <= |text| && AtLineStart(text, p)
    requires w == SpaceRun(text, p) && w + |prop| <= |text| && text[w..w + |prop|] == prop
    requires v == SpaceRun(text, w + |prop|) && v < |text| && text[v] == '='
    ensures MatchPropAt(text, prop, p) == Some(PropMatch(p, w - p, v + 1))
  {
    assert prop <= text[w..];
  }

  /** The loop itself only ever fails on a closer. */
  lemma {:induction false} RunErrors(text: string, s: ScanState)
    requires Valid(s)
    ensures Run(text, s).Err? ==> Run(text, s).error in {EmptyBracketStack, UnmatchedBrackets}
    decreases |text| - s.idx
  {
    if s.idx < |text| {
      match Step(text, s)
      case Next(t) =>
        RunErrors(text, t);
      case Halt(t) =>
      case Raise(e) =>
        StepRules(text, s);
    }
  }

  /** `matches[0]` fails exactly when there is no line-start `prop =` at all. */
  lemma PropValueNoMatch(text: string, prop: string)
    requires IsIdentifier(prop)
    ensures PropValue(text, prop) == Err(NoPropMatch) <==> PropMatchesFrom(text, prop, 0) == []
  {
    var c := ChosenMatch(text, prop);
    if c.Some? {
      RunErrors(text, Initial(c.value.start));
    }
  }

  /** Cutting the assignment prefix off a text that starts with a match leaves what follows the `=`, up to whitespace. */
  lemma StripAssignmentOfMatch(text: string, prop: string, p: nat, e: nat)
    requires IsIdentifier(prop) && p <= |text| && MatchPropAt(text, prop, p).Some?
    requires MatchPropAt(text, prop, p).value.end <= e <= |text|
    ensures Strip(StripAssignment(text[p..e], prop)) == Strip(text[MatchPropAt(text, prop, p).value.end..e])
  {
    var m := MatchPropAt(text, prop, p).value;
    var ret := text[p..e];
    var a := m.end - p;
    MatchPropSlice(text, prop, p, e);
    StripAssignmentAtStart(ret, prop, m.indent, a);
    SliceOfSlice(text, p, e, a);
    assert p + a == m.end;
    assert ret[a..] == text[m.end..e];
  }

  lemma StripAssignmentAtStart(ret: string, prop: string, indent: nat, a: nat)
    requires IsIdentifier(prop) && MatchPropAt(ret, prop, 0) == Some(PropMatch(0, indent, a))
    ensures Strip(StripAssignment(ret, prop)) == Strip(ret[a..])
  {
    assert StripAssignment(ret, prop) == ret[SpaceRun(ret, a)..];
    StripFromSpaceRun(ret, a);
  }

  /** From a match whose line holds only ordinary characters, the scan stops at that line's end. */
  lemma RunSingleLine(text: string, p: nat, j: nat)
    requires p <= j <= |text| && (j < |text| ==> text[j] == '\n')
    requires forall i :: p <= i < j ==> Plain(text, i)
    ensures Run(text, Initial(p)).Ok?
    ensures var f := Run(text, Initial(p)).value;
            f.stack == [] && f.ret == text[p..if j < |text| then j + 1 else j]
  {
    RunFromLineStart(text, p, j);
    var sj := PlainState(text, p, j);
    if j < |text| {
      SliceExtend(text, p, j);
      RunLineEnd(text, sj);
    } else {
      RunAtEnd(text, sj);
    }
  }

  /** The state after copying the ordinary characters `text[p..j]` from the initial state. */
  function PlainState(text: string, p: nat, j: nat): ScanState
    requires p <= j <= |text|
  {
    ScanState(j, text[p..j], [], false, false, false, EscapeAfter(false, text[p..j]), "")
  }

  lemma RunFromLineStart(text: string, p: nat, j: nat)
    requires p <= j <= |text| && forall i :: p <= i < j ==> Plain(text, i)
    ensures Run(text, Initial(p)) == Run(text, PlainState(text, p, j))
  {
    var s0 := Initial(p);
    RunPlain(text, s0, j);
    assert s0.ret + text[p..j] == text[p..j];
  }

  /** A newline at depth 0 outside quotes and heredocs ends the scan with that newline. */
  lemma RunLineEnd(text: string, s: ScanState)
    requires Valid(s) && s.idx < |text| && text[s.idx] == '\n' && !s.inQuoted && !s.inHeredoc && s.stack == []
    ensures Run(text, s) == Ok(s.(ret := s.ret + ['\n'], lineEnded := true))
  {
    StepNewlineHalts(text, s);
    RunHalt(text, s, s.(ret := s.ret + ['\n'], lineEnded := true));
  }

  lemma SliceHeadTail(s: string, a: nat, e: nat)
    requires a < e <= |s|
    ensures s[a..e] == [s[a]] + s[a + 1..e]
    ensures s[a..e][0] == s[a] && s[a..e][1..] == s[a + 1..e]
  {
  }

  lemma SliceExtend(s: string, a: nat, j: nat)
    requires a <= j < |s|
    ensures s[a..j + 1] == s[a..j] + [s[j]]
  {
  }

  lemma SliceToEnd(s: string, a: nat)
    requires a <= |s|
    ensures s[a..|s|] == s[a..]
  {
  }

  /** A scan that ends with every bracket closed gives its collected text, assignment cut and stripped. */
  lemma PropValueOfRun(text: string, prop: string, f: ScanState)
    requires IsIdentifier(prop) && ChosenMatch(text, prop).Some?
    requires Run(text, Initial(ChosenMatch(text, prop).value.start)) == Ok(f) && f.stack == []
    ensures PropValue(text, prop) == Ok(Strip(StripAssignment(f.ret, prop)))
  {
  }

  /** A newline at depth 0 outside quotes and heredocs stops the scan, the newline included. */
  lemma StepNewlineHalts(text: string, s: ScanState)
    requires Valid(s) && s.idx < |text| && text[s.idx] == '\n' && !s.inQuoted && !s.inHeredoc && s.stack == []
    ensures Step(text, s) == Halt(s.(ret := s.ret + ['\n'], lineEnded := true))
  {
  }

  lemma RunHalt(text: string, s: ScanState, t: ScanState)
    requires Valid(s) && s.idx < |text| && Step(text, s) == Halt(t)
    ensures Run(text, s) == Ok(t)
  {
  }

  lemma RunAtEnd(text: string, s: ScanState)
    requires Valid(s) && s.idx >= |text|
    ensures Run(text, s) == Ok(s)
  {
  }

  /**
   * A value on the property's own line, made of ordinary characters, is
   * returned as that rest of the line after `=`, stripped.
   */
  lemma SingleLineValue(text: string, prop: string, j: nat)
    requires IsIdentifier(prop) && ChosenMatch(text, prop).Some?
    requires var m := ChosenMatch(text, prop).value;
             && m.end <= j <= |text| && (j < |text| ==> text[j] == '\n')
             && forall i :: m.start <= i < j ==> Plain(text, i)
    ensures PropValue(text, prop) == Ok(Strip(text[ChosenMatch(text, prop).value.end..j]))
  {
    var m := ChosenMatch(text, prop).value;
    RunSingleLine(text, m.start, j);
    var e := if j < |text| then j + 1 else j;
    PropValueOfRun(text, prop, Run(text, Initial(m.start)).value);
    ChosenMatchSound(text, prop);
    StripAssignmentOfMatch(text, prop, m.start, e);
    if j < |text| {
      SliceExtend(text, m.end, j);
      StripDropsTrailingSpace(text[m.end..j], '\n');
    }
  }

  /**
   * The blank-line quirk: `\s*` lets a match start on an empty line before
   * the property, the scan then stops at once on that line's newline, and
   * the value comes back empty.
   */
  lemma BlankLineBeforeProp(text: string, prop: string)
    requires IsIdentifier(prop) && ChosenMatch(text, prop).Some?
    requires var m := ChosenMatch(text, prop).value; m.start < |text| && text[m.start] == '\n'
    ensures PropValue(text, prop) == Ok("")
  {
    var m := ChosenMatch(text, prop).value;
    var s0 := Initial(m.start);
    RunLineEnd(text, s0);
    var f := s0.(ret := s0.ret + ['\n'], lineEnded := true);
    assert f.ret == "\n";
    PropValueOfRun(text, prop, f);
    LoneNewlineValue(prop);
  }

  lemma LoneNewlineValue(prop: string)
    requires IsIdentifier(prop)
    ensures Strip(StripAssignment("\n", prop)) == ""
  {
    assert MatchPropAt("\n", prop, 0).None?;
    assert SpaceRun("\n", 0) == 1;
  }

  /**
   * An opener on the property's line that nothing closes later: the scan
   * runs off the end with the bracket still open, and the call fails.
   */
  lemma OpenBracketNeverClosed(text: string, prop: string, o: nat)
    requires IsIdentifier(prop) && ChosenMatch(text, prop).Some?
    requires var m := ChosenMatch(text, prop).value;
             && m.start <= o < |text| && IsOpener(text[o])
             && (forall i :: m.start <= i < o ==> Plain(text, i))
             && (forall i :: o < i < |text| ==> !IsCloser(text[i]))
    ensures PropValue(text, prop) == Err(UnmatchedBrackets)
  {
    var m := ChosenMatch(text, prop).value;
    var s0 := Initial(m.start);
    RunPlain(text, s0, o);
    var so := s0.(idx := o, ret := s0.ret + text[m.start..o], isEscaped := EscapeAfter(false, text[m.start..o]));
    StepRules(text, so);
    var t := Step(text, so).state;
    RunNext(text, so, t);
    OpenStackSurvives(text, t);
  }

  // ---------------------------------------------------------------------
  // Scans that cross no heredoc opener
  // ---------------------------------------------------------------------

  /** No heredoc opener `<<NAME` starts anywhere from `p` on. */
  predicate NoHeredocFrom(text: string, p: nat) {
    forall i :: p <= i < |text| ==> HeredocAt(text, i).None?
  }

  /** Where a scan that collected `text[..e]` stopped: the end of the text, a newline or a closer. */
  predicate StopsAt(text: string, e: nat) {
    e <= |text| && (e == |text| || (0 < e && (text[e - 1] == '\n' || IsCloser(text[e - 1]))))
  }

  /**
   * Outside a heredoc, with no opener at `idx`, a turn appends exactly the
   * character read, and only a newline or a closer stops or fails it.
   */
  lemma StepCopies(text: string, s: ScanState)
    requires s.idx < |text| && Valid(s) && !s.inHeredoc && HeredocAt(text, s.idx).None?
    ensures var r := Step(text, s); var c := text[s.idx];
            && (r.Next? ==> r.state.idx == s.idx + 1 && r.state.ret == s.ret + [c] && !r.state.inHeredoc)
            && (r.Halt? ==> r.state.ret == s.ret + [c] && (c == '\n' || IsCloser(c)))
            && (r.Raise? ==> IsCloser(c))
  {
  }

  /**
   * From a state that has collected `text[p..idx]` outside a heredoc, with no
   * heredoc opener ahead, a scan that ends in `f` has collected a slice
   * `text[p..e]` ending where it stopped; `e` reaches at least `q` when no
   * newline or closer comes before `q`.
   */
  lemma {:induction false} RunCopies(text: string, s: ScanState, p: nat, q: nat, f: ScanState) returns (e: nat)
    requires Valid(s) && p <= s.idx <= |text| && !s.inHeredoc && s.ret == text[p..s.idx]
    requires NoHeredocFrom(text, s.idx)
    requires q <= |text| && forall i :: s.idx <= i < q ==> text[i] != '\n' && !IsCloser(text[i])
    requires Run(text, s) == Ok(f)
    ensures p <= e && q <= e <= |text| && f.ret == text[p..e] && StopsAt(text, e)
    decreases |text| - s.idx
  {
    if s.idx < |text| {
      StepCopies(text, s);
      SliceExtend(text, p, s.idx);
      match Step(text, s)
      case Next(t) =>
        RunNext(text, s, t);
        e := RunCopies(text, t, p, q, f);
      case Halt(t) =>
        RunHalt(text, s, t);
        e := s.idx + 1;
      case Raise(_) =>
        assert false;
    } else {
      e := s.idx;
    }
  }

  /** The characters of a match of `^\s*prop\s*=` are whitespace, the name and `=`: none is a closer. */
  lemma MatchHasNoCloser(text: string, prop: string, p: nat)
    requires IsIdentifier(prop) && p <= |text| && MatchPropAt(text, prop, p).Some?
    ensures forall i :: p <= i < MatchPropAt(text, prop, p).value.end ==> !IsCloser(text[i])
  {
    var w, v := MatchPropParts(text, prop, p);
    forall i | p <= i < v + 1
      ensures !IsCloser(text[i])
    {
      if w <= i < w + |prop| {
        assert text[i] == text[w..w + |prop|][i - w];
      }
    }
  }

  /**
   * The scan from a match, with no heredoc opener ahead, collects the slice
   * from its start position through its stop character.
   */
  lemma ScanFromMatch(text: string, p: nat, f: ScanState) returns (e: nat)
    requires p <= |text| && NoHeredocFrom(text, p)
    requires Run(text, Initial(p)) == Ok(f)
    ensures p <= e <= |text| && f.ret == text[p..e] && StopsAt(text, e)
  {
    var s0 := Initial(p);
    assert s0.ret == text[p..p];
    e := RunCopies(text, s0, p, p, f);
  }

  /** Unless the match itself holds a newline, the scan gets past the `=`. */
  lemma ScanPastMatch(text: string, prop: string, m: PropMatch, f: ScanState)
    requires IsIdentifier(prop) && m.start <= |text| && MatchPropAt(text, prop, m.start) == Some(m)
    requires NoHeredocFrom(text, m.start)
    requires Run(text, Initial(m.start)) == Ok(f)
    requires forall i :: m.start <= i < m.end ==> text[i] != '\n'
    ensures m.end <= m.start + |f.ret|
  {
    var s0 := Initial(m.start);
    MatchHasNoCloser(text, prop, m.start);
    assert s0.ret == text[m.start..m.start];
    var e := RunCopies(text, s0, m.start, m.end, f);
  }

  /** A scan that fails, or ends with a bracket open, makes the call fail the same way. */
  lemma PropValueOfFailedRun(text: string, prop: string, m: PropMatch)
    requires IsIdentifier(prop) && ChosenMatch(text, prop) == Some(m)
    ensures var r := Run(text, Initial(m.start));
            && (r.Err? ==> PropValue(text, prop) == Err(r.error))
            && (r.Ok? && r.value.stack != [] ==> PropValue(text, prop) == Err(UnmatchedBrackets))
  {
  }

  /**
   * With no heredoc opener from the match on, the scan collects exactly the
   * slice of the block from the match start through the character it stops
   * at (a newline, a closer, or the end of the text), whatever quotes,
   * escapes, brackets and lines it crosses. The value is then that slice
   * after the `=`, stripped. The slice reaches past the `=` unless a newline
   * inside the match stops the scan first.
   */
  lemma ValueWithoutHeredoc(text: string, prop: string, m: PropMatch, f: ScanState) returns (e: nat)
    requires IsIdentifier(prop) && ChosenMatch(text, prop) == Some(m)
    requires NoHeredocFrom(text, m.start)
    requires Run(text, Initial(m.start)) == Ok(f)
    ensures m.start <= e <= |text| && f.ret == text[m.start..e] && StopsAt(text, e)
    ensures (forall i :: m.start <= i < m.end ==> text[i] != '\n') ==> m.end <= e
    ensures f.stack != [] ==> PropValue(text, prop) == Err(UnmatchedBrackets)
    ensures f.stack == [] && m.end <= e ==> PropValue(text, prop) == Ok(Strip(text[m.end..e]))
  {
    ChosenMatchSound(text, prop);
    e := ScanFromMatch(text, m.start, f);
    if forall i :: m.start <= i < m.end ==> text[i] != '\n' {
      ScanPastMatch(text, prop, m, f);
    }
    if f.stack != [] {
      PropValueOfFailedRun(text, prop, m);
    } else if m.end <= e {
      PropValueOfSlice(text, prop, m, f, e);
    }
  }

  /** A balanced scan that copied the slice up to `e`, past the `=`, gives that slice after the `=`, stripped. */
  lemma PropValueOfSlice(text: string, prop: string, m: PropMatch, f: ScanState, e: nat)
    requires IsIdentifier(prop) && ChosenMatch(text, prop) == Some(m)
    requires Run(text, Initial(m.start)) == Ok(f) && f.stack == []
    requires m.end <= e <= |text| && f.ret == text[m.start..e]
    ensures PropValue(text, prop) == Ok(Strip(text[m.end..e]))
  {
    ChosenMatchSound(text, prop);
    PropValueOfRun(text, prop, f);
    StripAssignmentOfMatch(text, prop, m.start, e);
  }

  /** Outside a heredoc, with no opener ahead, a character that is no bracket leaves the stack alone and raises nothing. */
  lemma StepNoBracket(text: string, s: ScanState)
    requires s.idx < |text| && Valid(s) && !s.inHeredoc && HeredocAt(text, s.idx).None?
    requires !IsOpener(text[s.idx]) && !IsCloser(text[s.idx])
    ensures var r := Step(text, s);
            && !r.Raise? && r.state.stack == s.stack
            && (r.Next? ==> r.state.idx == s.idx + 1 && !r.state.inHeredoc)
  {
  }

  /**
   * With no heredoc opener and no bracket from `idx` on, a scan at depth 0
   * never fails and ends at depth 0.
   */
  lemma {:induction false} RunWithoutBrackets(text: string, s: ScanState)
    requires Valid(s) && s.idx <= |text| && s.stack == [] && !s.inHeredoc && NoHeredocFrom(text, s.idx)
    requires forall i :: s.idx <= i < |text| ==> !IsOpener(text[i]) && !IsCloser(text[i])
    ensures Run(text, s).Ok? && Run(text, s).value.stack == []
    decreases |text| - s.idx
  {
    if s.idx < |text| {
      StepNoBracket(text, s);
      match Step(text, s)
      case Next(t) =>
        RunNext(text, s, t);
        RunWithoutBrackets(text, t);
      case Halt(t) =>
        RunHalt(text, s, t);
    }
  }

  /** Where nothing matches from `p` on, the search reports nothing. */
  lemma {:induction false} NoMatchesFrom(text: string, prop: string, p: nat)
    requires IsIdentifier(prop) && p <= |text|
    requires forall q :: p <= q < |text| ==> MatchPropAt(text, prop, q).None?
    ensures PropMatchesFrom(text, prop, p) == []
    decreases |text| - p
  {
    if p < |text| {
      NoMatchesFrom(text, prop, p + 1);
    }
  }

  /** A match at the start of the block with no other match after it is the match the scan starts from. */
  lemma FirstOnlyMatch(text: string, prop: string, m: PropMatch)
    requires IsIdentifier(prop) && MatchPropAt(text, prop, 0) == Some(m)
    requires forall q :: m.end <= q < |text| ==> MatchPropAt(text, prop, q).None?
    ensures ChosenMatch(text, prop) == Some(m)
  {
    NoMatchesFrom(text, prop, m.end);
    assert PropMatchesFrom(text, prop, 0) == [m];
    assert FirstMinIndex([m], IndentOf) == 0;
  }

  /** `key = "a\"b"` on a line of its own. */
  const EscapedQuoteLine := "x = \"a\\\"b\""

  lemma EscapedQuoteMatch()
    ensures ChosenMatch(EscapedQuoteLine, "x") == Some(PropMatch(0, 0, 3))
  {
    var text := EscapedQuoteLine;
    assert SpaceRun(text, 0) == 0 && text[0..1] == "x";
    assert SpaceRun(text, 1) == 2 && text[2] == '=';
    MatchPropIntro(text, "x", 0, 0, 2);
    forall q | 3 <= q < |text|
      ensures MatchPropAt(text, "x", q).None?
    {
      assert !AtLineStart(text, q);
    }
    FirstOnlyMatch(text, "x", PropMatch(0, 0, 3));
  }

  lemma EscapedQuoteChars()
    ensures NoHeredocFrom(EscapedQuoteLine, 0)
    ensures forall i :: 0 <= i < |EscapedQuoteLine| ==>
              !IsOpener(EscapedQuoteLine[i]) && !IsCloser(EscapedQuoteLine[i]) && EscapedQuoteLine[i] != '\n'
  {
  }

  /**
   * A value that runs to the end of the block with no bracket, no newline
   * and no heredoc opener, whatever quotes and escapes it holds, is the rest
   * of the block after `=`, stripped.
   */
  lemma ValueToEnd(text: string, prop: string, m: PropMatch)
    requires IsIdentifier(prop) && ChosenMatch(text, prop) == Some(m)
    requires NoHeredocFrom(text, m.start)
    requires forall i :: m.start <= i < |text| ==> !IsOpener(text[i]) && !IsCloser(text[i]) && text[i] != '\n'
    ensures m.end <= |text| && PropValue(text, prop) == Ok(Strip(text[m.end..]))
  {
    ChosenMatchSound(text, prop);
    assert m.start < m.end <= |text|;
    var f := ScanToEnd(text, m.start);
    PropValueOfSlice(text, prop, m, f, |text|);
    SliceToEnd(text, m.end);
  }

  /** With no bracket, newline or heredoc opener from `p` on, the scan copies the rest of the block. */
  lemma ScanToEnd(text: string, p: nat) returns (f: ScanState)
    requires p <= |text| && NoHeredocFrom(text, p)
    requires forall i :: p <= i < |text| ==> !IsOpener(text[i]) && !IsCloser(text[i]) && text[i] != '\n'
    ensures Run(text, Initial(p)) == Ok(f) && f.stack == [] && f.ret == text[p..|text|]
  {
    RunWithoutBrackets(text, Initial(p));
    f := Run(text, Initial(p)).value;
    assert text[p..p] == "";
    var e := RunCopies(text, Initial(p), p, |text|, f);
  }

  lemma EscapedQuoteStrip()
    ensures Strip(EscapedQuoteLine[3..]) == "\"a\\\"b\""
  {
    var t := EscapedQuoteLine[3..];
    assert IsSpace(t[0]);
    StripSkipsLeadingSpace(t, 1);
    assert t[1..] == "\"a\\\"b\"";
    StripTrimmed(t[1..]);
  }

  /**
   * The escaped quote does not end the string: the value comes back whole,
   * quotes and backslash included.
   */
  lemma EscapedQuoteValue()
    ensures PropValue(EscapedQuoteLine, "x") == Ok("\"a\\\"b\"")
  {
    EscapedQuoteMatch();
    EscapedQuoteChars();
    ValueToEnd(EscapedQuoteLine, "x", PropMatch(0, 0, 3));
    EscapedQuoteStrip();
  }

  /** A bracketed value over three lines: `t = [`, `  1`, `]`. */
  const BracketBlock := "t = [\n  1\n]"

  lemma BracketBlockMatch()
    ensures ChosenMatch(BracketBlock, "t") == Some(PropMatch(0, 0, 3))
  {
    var text := BracketBlock;
    assert SpaceRun(text, 0) == 0 && text[0..1] == "t";
    assert SpaceRun(text, 1) == 2 && text[2] == '=';
    MatchPropIntro(text, "t", 0, 0, 2);
    forall q | 3 <= q < |text|
      ensures MatchPropAt(text, "t", q).None?
    {
      if q == 6 {
        assert SpaceRun(text, 6) == 8 && text[8] != 't';
      } else if q != 10 {
        assert !AtLineStart(text, q);
      }
    }
    FirstOnlyMatch(text, "t", PropMatch(0, 0, 3));
  }

  /**
   * The scan of `BracketBlock` after `k` characters: `[` is open from index
   * 5 on and the line has ended from index 6 on.
   */
  function BracketScan(k: nat): ScanState
    requires k <= |BracketBlock|
  {
    ScanState(k, BracketBlock[..k], if 4 < k then "[" else "", 5 < k, false, false, false, "")
  }

  lemma BracketStepPlain(k: nat)
    requires k < 4 || 6 <= k < 9
    ensures Step(BracketBlock, BracketScan(k)) == Next(BracketScan(k + 1))
  {
    var text := BracketBlock;
    assert text[k] != '\\' && Plain(text, k);
    StepPlain(text, BracketScan(k));
    assert text[..k] + [text[k]] == text[..k + 1];
  }

  lemma BracketStepOpen()
    ensures Step(BracketBlock, BracketScan(4)) == Next(BracketScan(5))
  {
    var text := BracketBlock;
    StepOpener(text, BracketScan(4));
    assert text[..4] + [text[4]] == text[..5];
  }

  lemma BracketStepNewline(k: nat)
    requires k == 5 || k == 9
    ensures Step(BracketBlock, BracketScan(k)) == Next(BracketScan(k + 1))
  {
    var text := BracketBlock;
    StepNewline(text, BracketScan(k));
    assert text[..k] + ['\n'] == text[..k + 1];
  }

  lemma BracketStepClose()
    ensures Step(BracketBlock, BracketScan(10)) == Halt(ScanState(10, BracketBlock, [], true, false, false, false, ""))
  {
    var text := BracketBlock;
    StepCloser(text, BracketScan(10));
    assert text[..10] + [text[10]] == text;
  }

  /**
   * The scan pushes `[`, carries on over both newlines because a bracket is
   * open, and stops on the `]` that empties the stack after a newline.
   */
  lemma {:induction false} BracketBlockRun(k: nat)
    requires k <= 10
    ensures Run(BracketBlock, BracketScan(k)) == Ok(ScanState(10, BracketBlock, [], true, false, false, false, ""))
    decreases 10 - k
  {
    var text := BracketBlock;
    if k == 10 {
      BracketStepClose();
      RunHalt(text, BracketScan(10), ScanState(10, text, [], true, false, false, false, ""));
    } else {
      if k == 4 {
        BracketStepOpen();
      } else if k == 5 || k == 9 {
        BracketStepNewline(k);
      } else {
        BracketStepPlain(k);
      }
      RunNext(text, BracketScan(k), BracketScan(k + 1));
      BracketBlockRun(k + 1);
    }
  }

  lemma BracketBlockNoHeredoc()
    ensures NoHeredocFrom(BracketBlock, 0)
  {
  }

  lemma BracketStrip()
    ensures Strip(BracketBlock[3..]) == "[\n  1\n]"
  {
    var t := BracketBlock[3..];
    assert IsSpace(t[0]);
    StripSkipsLeadingSpace(t, 1);
    assert t[1..] == "[\n  1\n]";
    StripTrimmed(t[1..]);
  }

  /**
   * A bracketed value spread over three lines comes back whole, from `[`
   * through the `]` that closes it.
   */
  lemma BracketBlockValue()
    ensures PropValue(BracketBlock, "t") == Ok("[\n  1\n]")
  {
    var text := BracketBlock;
    var m := PropMatch(0, 0, 3);
    var f := ScanState(10, text, [], true, false, false, false, "");
    BracketBlockMatch();
    BracketBlockRun(0);
    assert BracketScan(0) == Initial(0);
    BracketBlockNoHeredoc();
    var e := ValueWithoutHeredoc(text, "t", m, f);
    assert e == |text| && text[3..e] == text[3..];
    BracketStrip();
  }

}
