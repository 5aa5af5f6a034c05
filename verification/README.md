# tofu-docs core, modelled in Dafny

tofu-docs writes Markdown tables that document an OpenTofu/Terraform
module: its variables, outputs, locals and resources. The HCL parser it uses
drops the original formatting of types, defaults and values. So the tool
goes back to the raw `.tf` text to recover them, in three steps:

1. Find the line where an item's block starts (`SingleElementRootModel.find`).
2. Cut the block from that line down to the first line reading `}` (`find_block`).
3. Scan the block character by character for the right-hand side of
   `prop = ...` (`find_prop_in_block`). The scanner tracks brackets, quotes,
   heredocs, escapes and line ends.

For a local, one `locals` block out of several is chosen by the indentation
of the assignment (`HclLocal.find`). The row models wrap the scanned text in
table cells. The formatter shapes the finished table:

- it collapses long cells into `<details>`;
- it drops empty columns;
- it sorts the rows.

The writer splices the rendered table between two marker lines of the
target file.

The Dafny modules follow the program:

| module | models |
|---|---|
| `Errors` | every exception the core raises, as one closed set of error values |
| `Builtins` | the Python `str` behaviour the core depends on: `isspace`, `splitlines`, `join`, `strip`, `split`, `count`, `find`, `str(int)`, and "stable sort, then take the first" |
| `Helper` | `find_block`, `if_index` and `marker` from `lib/common/helper.py` |
| `Scanner` | `find_prop_in_block` from `lib/common/helper.py` |
| `Input` | the models in `lib/models/input.py`: `validate_root`, `name`, `find`, `HclLocal.find`, `HclResource.find`, `required` and `is_validation` |
| `Output` | the row-model registry and the cell builders in `lib/models/output.py` |
| `Writer` | `lib/writer.py`: the target predicates, `_insert_marked_block`, and the content and state settled on by `Writer.write` |
| `Formatter` | `_collapse_column` and the row post-processing of `Formatter._make_table` from `lib/formatter.py` |

Code that works on values is written as functions and lemmas. The source's
loops are methods, each proved equal to a specification function:

- `Helper.FindBlock`;
- `Scanner.FindPropInBlock`, with one loop turn in `Scanner.Turn`;
- `Input.Find`, `Input.FindBlocks`, `Input.ChooseLocal`.

State that the source updates in place is modelled imperatively:

- The registry dictionary is the class `Output.Registry`.
- The fields `Writer.write` sets live in the class `Writer.DocWriter`.
- The table is an `array` of rows. `_collapse_column` rewrites it in place,
  and the row sort is an in-place insertion sort over it.

Regular expressions become explicit predicates:

- `^...$` is a whole-line pattern and `^...` a line-prefix pattern (`Helper.Pattern`).
- `^\s*prop\s*=` under `re.MULTILINE` is matched exactly (`Scanner.MatchPropAt`). It has greedy `\s` runs that may cross newlines, `^` only at the text start or after `'\n'`, and `finditer`'s non-overlapping left-to-right order.
- The `<br/>` clean-up pattern of the formatter becomes `Formatter.CleanBr`.

## Model

| member | source | states |
|---|---|---|
| Helper.BlockAtErrors | lib/common/helper.py:13-31 | `find_block` fails with each of its errors exactly when its condition holds: no lines or loc past the last line; an anchor index below `-len(lines)`; the anchor line failing the start pattern; no line from the anchor on matching the end pattern |
| Helper.BlockAtLines | lib/common/helper.py:14-32 | on success the block is the lines from the anchor (`loc - 1` for `loc >= 1`) to the first line at or after it that matches the end pattern, joined by `'\n'`; the anchor line itself may be that line |
| Helper.BlockAtReadsBack | lib/common/helper.py:21-32 | splitting a found block into lines again gives a first line matching the start pattern, a last line matching the end pattern, and no earlier line matching the end pattern |
| Helper.FindBlock | lib/common/helper.py:11-32 | the imperative loop that appends lines until the end pattern matches returns exactly the specification `BlockAt`, errors included |
| Helper.IfIndex | lib/common/helper.py:122-127 | -1 exactly when the item is absent; otherwise the index of its first occurrence |
| Helper.Marker | lib/common/helper.py:117-119 | the marker is `<!-- `, the marker name, a space, the kind, ` -->` |
| Helper.MarkersDiffer | lib/common/helper.py:117-119 | the START and END markers of one name are different lines |
| Scanner.MatchPropShape | lib/common/helper.py:49 | a match of `^\s*prop\s*=` at `p` is a line start, a whitespace run, the name, a whitespace run and `=`, with its indentation the length of the first run |
| Scanner.PropMatchesFromSound | lib/common/helper.py:49 | every match that `finditer` reports is a match of the pattern at its start offset |
| Scanner.PropMatchesFromFirst | lib/common/helper.py:49 | no match is skipped: before the first reported match there is none |
| Scanner.ChosenMatchSound | lib/common/helper.py:49-55 | the match the scan starts from is a real match; there is none exactly when `finditer` finds nothing |
| Scanner.ChosenMatchLeast | lib/common/helper.py:50-55 | the chosen match has the least indentation of all matches, and every earlier match is indented strictly more (stable sort) |
| Scanner.Step | lib/common/helper.py:67-110 | one turn of the loop moves forward or stops, and keeps the stack made of openers and the heredoc name made of word characters |
| Scanner.StepRules | lib/common/helper.py:67-110 | `"` toggles quoting unless in a heredoc or escaped; the escape flag is "unescaped backslash", so `\\` pairs cancel; any newline sets line-ended; outside quotes and heredocs openers push; outside quotes a matching closer pops, a mismatching closer raises, and a closer on an empty stack fails; nothing else touches the stack; the loop stops exactly on a bare newline at depth 0, a closer emptying the stack after a newline, or a heredoc terminator after a newline; the collected text grows by the character read, with the opener and terminator quirks |
| Scanner.StepPlain | lib/common/helper.py:67-110 | an ordinary character outside quotes and heredocs is appended and only moves the index and the escape flag |
| Scanner.StepQuote | lib/common/helper.py:76-77 | an unescaped `"` outside a heredoc flips the quote flag and nothing else |
| Scanner.StepHeredocOpen | lib/common/helper.py:78-82 | at `<<NAME` or `<<-NAME` outside text, `<` and then `<<-NAME` are appended, the heredoc opens, and the index skips the opener and one more character |
| Scanner.StepHeredocClose | lib/common/helper.py:83-95 | at a terminator that starts a line, the heredoc closes, only its first character is kept, and the index skips the terminator and its newline; the scan stops there if a newline was seen, and otherwise also skips the next character |
| Scanner.StepOpener | lib/common/helper.py:96-97 | an opener outside quotes and heredocs is pushed |
| Scanner.StepCloser | lib/common/helper.py:98-104 | a closer outside quotes fails on an empty stack, raises on a mismatch, and otherwise pops, stopping when the stack empties after a newline |
| Scanner.StepNewline | lib/common/helper.py:105-108 | a newline sets line-ended and stops the scan outside text at depth 0 |
| Scanner.StepOther | lib/common/helper.py:67-110 | any other character is appended with no other effect than the index and escape flag |
| Scanner.OpenStackSurvives | lib/common/helper.py:96-113 | with an opener on the stack and no closer left in the text, the scan ends with a non-empty stack |
| Scanner.RunErrors | lib/common/helper.py:98-104 | a scan fails only with the empty-stack or unmatched-bracket error |
| Scanner.FindPropInBlock | lib/common/helper.py:47-114 | the imperative scanner returns exactly the specification `PropValue`, errors included |
| Scanner.ScanFrom | lib/common/helper.py:56-110 | the `while` loop from a start offset computes exactly the specification run `Run`: the state it stops in or the error it raises |
| Scanner.Turn | lib/common/helper.py:68-110 | the loop body computes exactly `Step` |
| Scanner.PropValueNoMatch | lib/common/helper.py:49-55 | the call fails at `matches[0]` exactly when the property pattern matches nowhere |
| Scanner.RunSingleLine | lib/common/helper.py:67-109 | with no quote, heredoc or bracket before the line end, the collected text is exactly the slice from the match start through the newline |
| Scanner.SingleLineValue | lib/common/helper.py:67-114 | a plain value on the property's own line comes back as the rest of the line after `=`, stripped |
| Scanner.RunCopies | lib/common/helper.py:67-110 | outside a heredoc, with no heredoc opener ahead, the collected text is always an exact slice of the block; it reaches at least to the first newline or closer, and ends at the end of the block or right after a newline or closer |
| Scanner.ValueWithoutHeredoc | lib/common/helper.py:67-114 | for any value with no heredoc opener from the match on (quotes, escapes, brackets and line ends included), the scan stops at the end of the block or right after a newline or closer; with brackets left open the call fails with unmatched brackets, and otherwise the value is the block from the end of `prop =` to where the scan stopped, stripped |
| Scanner.RunWithoutBrackets | lib/common/helper.py:96-113 | with no bracket and no heredoc opener ahead, the scan never fails and ends with an empty stack |
| Scanner.ValueToEnd | lib/common/helper.py:67-114 | with no bracket, newline or heredoc opener from the match on, the value is the rest of the block after `prop =`, stripped, whatever quotes and escapes it holds |
| Scanner.EscapedQuoteValue | lib/common/helper.py:76-110 | in `x = "a\"b"` the escaped quote does not end the string, and the value is `"a\"b"`, quotes and backslash included |
| Scanner.BracketBlockValue | lib/common/helper.py:96-114 | a bracketed value over three lines (`t = [`, `  1`, `]`) comes back whole, from `[` through the closing `]` |
| Scanner.BlankLineBeforeProp | lib/common/helper.py:105-108 | the blank-line quirk: a match starting on an empty line stops the scan at once and the value is empty |
| Scanner.OpenBracketNeverClosed | lib/common/helper.py:111-113 | an opener on the property's line that nothing later closes makes the call fail with unmatched brackets |
| Input.Required | lib/models/input.py:36-40 | a variable is required exactly when it has no default of its own |
| Input.ValidateRoot | lib/models/input.py:117-123 | validation succeeds exactly for one entry and returns the model unchanged; otherwise it fails |
| Input.ValidatedName | lib/models/input.py:111-123 | for a validated model, `name` is its only key |
| Input.IsValidation | lib/models/input.py:153-157 | true exactly when the name starts with `validate_` or `validation_` |
| Input.BlockPattern | lib/models/input.py:142-151 | the start pattern of a variable (keyword `variable`) and of an output (keyword `output`) is one whole line that starts with its keyword |
| Input.ResourcePattern | lib/models/input.py:198-205 | the start pattern of a resource is a one-line prefix (the regex has no `$`) |
| Input.StartMatchesFrom | lib/models/input.py:128 | every reported match is at a line start, in order and non-overlapping |
| Input.StartMatchesComplete | lib/models/input.py:128 | every line-start occurrence of the start pattern is reported |
| Input.LineOf | lib/models/input.py:132 | a loc is at least 1 |
| Input.BlocksAtOk | lib/models/input.py:138 | when `find_blocks` succeeds, block `i` is `find_block` at loc `i` |
| Input.BlocksAtErr | lib/models/input.py:138 | when it fails, the error is the first failing `find_block`'s, and every loc before it succeeded |
| Input.Find | lib/models/input.py:125-139 | the imperative loop over the matches computes exactly the specification `FindSpec` |
| Input.FindBlocks | lib/models/input.py:138 | the loop over the locs computes exactly `BlocksAt`, the first failure included |
| Input.FindShape | lib/models/input.py:128-139 | on success there is at least one match, every block was found, and the result pairs locs with blocks positionally |
| Input.LinesIncrease | lib/models/input.py:128-134 | the locs strictly increase |
| Input.FindLocs | lib/models/input.py:128-139 | one pair per match, in textual order, with loc one more than the newlines before the match |
| Input.FindPairBlocks | lib/models/input.py:138-139 | each pair's block is `find_block` at that pair's loc |
| Input.FindBlocksReadBack | lib/models/input.py:138-139 | each block starts with a line matching the start pattern and ends with its first line matching the end pattern |
| Input.FindErrors | lib/models/input.py:135-139 | `find` fails only with not-found or a `find_block` error |
| Input.FindNotFound | lib/models/input.py:135-137 | `find` reports not-found exactly when the start pattern occurs nowhere at a line start |
| Input.FindAnchorsHold | lib/models/input.py:128-139 | in text with only `'\n'` line breaks, every anchor passes the start check, so only not-found or a missing end line can fail |
| Input.AnchorBlockError | lib/models/input.py:132-138 | the loc computed for a match points at a line that passes the start check |
| Input.CandidateOf | lib/models/input.py:177-189 | a block's candidate, when it has one, is tagged with that block |
| Input.Candidates | lib/models/input.py:176-189 | the candidates come from distinct blocks, in block order |
| Input.CandidateSound | lib/models/input.py:177-189 | each candidate is what its own block contributes |
| Input.CandidateComplete | lib/models/input.py:177-189 | every block that has a match contributes its candidate; blocks without a match are skipped |
| Input.LocalChoiceNotFound | lib/models/input.py:191-193 | the choice fails, with not-found, exactly when no block has the name |
| Input.LocalChoiceBest | lib/models/input.py:187-195 | the result is one pair: the line of the least-indented candidate (anchor loc plus the newlines before the match) and its block; earlier blocks on ties |
| Input.SourceOrder | lib/models/input.py:194 | candidates in source order have indices in that order, which the stable sort keeps |
| Input.LocalFind | lib/models/input.py:173-195 | the imperative `HclLocal.find` computes exactly the specification |
| Input.ChooseLocal | lib/models/input.py:176-195 | the candidate loop and the choice compute exactly `LocalChoice` |
| Input.ResourceFind | lib/models/input.py:201-205 | the resource search computes exactly its specification, with a no-identifier error for an empty inner model |
| Input.ResourceBlocks | lib/models/input.py:201-205 | each found block starts with `resource "TYPE" "ID" {` and runs to its first line `}` |
| Input.ResourceNoIdentifier | lib/models/input.py:203 | the no-identifier error happens exactly when the inner model has no entry |
| Output.Lookup | lib/models/output.py:153-160 | the lookup succeeds exactly for a registered kind and returns its row model; otherwise it fails with no-output-model |
| Output.LookupAfterRegister | lib/models/output.py:34 | after registering, the lookup returns the new entry for that kind; re-registering overwrites it; all other kinds are unchanged |
| Output.Registry.constructor | lib/models/output.py:24 | the registry starts empty |
| Output.Registry.Register | lib/models/output.py:29-38 | registering sets one entry and changes no other lookup |
| Output.Registry.GetOutputModel | lib/models/output.py:153-160 | over the registry's current map, the lookup succeeds exactly for a registered kind and returns its entry; otherwise it fails with no-output-model |
| Output.Registry.RegisterRows | lib/models/output.py:63-122 | after the four decorators run, each item kind maps to its own row model |
| Output.ReplaceNewlines | lib/models/output.py:97 | no newline remains, and each newline grows the text by four characters |
| Output.RestoreReplace | lib/models/output.py:97 | for text without a `<br/>` of its own, turning `<br/>` back into newlines recovers the text |
| Output.PreCell | lib/models/output.py:96-97 | the cell is one line between `<pre>` and `</pre>` |
| Output.PreCellReadsBack | lib/models/output.py:96-97 | the scanned text can be read back from the cell |
| Output.ScannedCell | lib/models/output.py:92-97 | the type cell (and the value cell at lib/models/output.py:133-136) fails exactly when the scanner fails, and otherwise holds the scanned text as a `<pre>` cell |
| Output.DefaultCellCases | lib/models/output.py:105-112 | a required variable reads `**required**` whatever its block holds; any other variable gets the scanned default or the scanner's error |
| Output.ErrorMessages | lib/models/output.py:150 | one message per postcondition, in order |
| Output.PostconditionLayout | lib/models/output.py:144-150 | the cell lays out every error message in order, separated by `, ` and nothing else |
| Output.PostconditionEmpty | lib/models/output.py:148-149 | no postconditions give an empty cell |
| Output.ProviderCell | lib/models/output.py:69-73 | the provider is the longest `_`-free prefix of the name, and the whole name if it has no `_` |
| Output.Documentation | lib/models/output.py:75-80 | the link fails exactly when the name cut at its first `.` has no `_` |
| Output.DocumentationParts | lib/models/output.py:77-80 | on success the link is the registry URL of lib/const.py for the parts before and after the first `_` of the name cut at its first `.`; the provider part equals the provider cell |
| Output.NameCellParts | lib/models/output.py:55-60 | the name cell is `[name](/path#L<loc>)`; its link text is the name, and the anchor after `#L` reads back as the loc |
| Writer.TargetsDisjoint | lib/writer.py:18-25 | no target is taken for both stdout and stderr, and every stream target is a stream name (`-`, `stdout`, `stderr`) or a path under `/dev/` or `/proc/` |
| Writer.InsertErrors | lib/writer.py:36-44 | the invalid-position error happens exactly when neither marker is present and the position is not `bottom`; the invalid-markers error happens exactly when only one marker is present or the start marker follows the end marker |
| Writer.InsertAtBottom | lib/writer.py:36-40 | with no markers, the result is the content, the start marker, the doc lines and the end marker |
| Writer.InsertBetweenMarkers | lib/writer.py:46 | with both markers in order, the lines through the first start marker and from the first end marker on are kept, and only the lines between are replaced by the doc lines |
| Writer.InsertIdempotent | lib/writer.py:46 | inserting the same docs into the result again gives the same lines, when the docs hold no marker line |
| Writer.UpdatedContent | lib/writer.py:111 | the updated content is the lines joined by `'\n'`, stripped, plus one `'\n'`; so it ends with exactly one `'\n'`, with no whitespace at its start or before that newline |
| Writer.UpdatedContentStable | lib/writer.py:104-111 | splitting an updated content into lines and settling on those lines again gives the same content |
| Writer.InsertSeams | lib/writer.py:28-46 | a successful insertion is `front + doc lines + back`: `front` ends with the first start marker and holds no end marker, `back` starts with the end marker, and every other line of both is a line of the content |
| Writer.WriteTwiceUnchanged | lib/writer.py:101-113 | writing the same documentation onto the content a write settled on succeeds and settles on the same content, so `changed` is false the second time (for targets that do not start with whitespace and a marker name without line breaks) |
| Writer.DocWriter.constructor | lib/writer.py:62-66 | a writer starts with its documentation and nothing written |
| Writer.DocWriter.Write | lib/writer.py:101-117 | records the original text; on an insertion error, fails with it and leaves the rest unchanged; otherwise stores the updated content, and `changed` holds exactly when it differs from the original |
| Formatter.CleanBrRemoves | lib/formatter.py:32 | the cleaned cell is a slice of the cell; only leading and trailing whitespace-and-`<br/>` runs are removed |
| Formatter.CleanBrNoTrailingRun | lib/formatter.py:32 | no run of whitespace and `<br/>` is left at the end of a cleaned cell |
| Formatter.CleanBrNoLeadingRun | lib/formatter.py:32 | no `<br/>` is left at the start of a cleaned cell after leading whitespace |
| Formatter.CleanBrKeeps | lib/formatter.py:32 | a cell with no leading or trailing run is left as it is |
| Formatter.CleanBrIdempotent | lib/formatter.py:32-38 | cleaning twice is cleaning once |
| Formatter.Details | lib/formatter.py:39-40 | an element longer than the threshold becomes `<details>`, the element and `</details>`, with nothing else; any other element is left as it is |
| Formatter.CollapsePlain | lib/formatter.py:39-41 | without `keep_first_line`, the cell becomes the cleaned cell, wrapped exactly when it is longer than the threshold |
| Formatter.CollapseKeepFirstLine | lib/formatter.py:32-41 | with `keep_first_line`, the cell becomes the stripped first line, `<br/>`, and the rest (stripped and cleaned), with only the rest ever wrapped |
| Formatter.FirstLineClean | lib/formatter.py:35-36 | the kept first line has no `<br/>` and no surrounding whitespace |
| Formatter.CollapsedFirstBr | lib/formatter.py:34-41 | the first `<br/>` of a collapsed cell sits right after the kept first line |
| Formatter.CollapsedRow | lib/formatter.py:31-41 | only cell `idx` of the row changes, to its collapsed form |
| Formatter.CollapsedTable | lib/formatter.py:29-41 | the header is untouched; the rows processed so far are collapsed and the rest are unchanged |
| Formatter.CollapseColumn | lib/formatter.py:26-41 | a missing column leaves the table unchanged; otherwise, up to the first row too short for the column, every data row has only that column collapsed and the header is kept; a short row fails with an index error and leaves the rows before it collapsed |
| Formatter.UsedColumns | lib/formatter.py:88-89 | the columns kept are exactly the used ones, in order |
| Formatter.RemoveEmptyColumnsSpec | lib/formatter.py:87-91 | fails exactly on rows of different lengths; otherwise every surviving column has a non-empty cell, every dropped column was empty, the columns keep their order and cells, and the rows vanish exactly when no column is used |
| Formatter.LexLeTotal | lib/formatter.py:94 | the string order compares any two keys |
| Formatter.LexLeTrans | lib/formatter.py:94 | the string order is transitive |
| Formatter.LexLeAntisymmetric | lib/formatter.py:94 | the string order is antisymmetric |
| Formatter.SortRows | lib/formatter.py:93-94 | an empty row makes the sort fail before anything moves; otherwise the rows end up ordered by their first cell, and they are a permutation of the input |
| Formatter.InsertRow | lib/formatter.py:94 | one insertion step extends the sorted prefix by one row and keeps the rows a permutation |
| Formatter.ArrangeRows | lib/formatter.py:87-94 | empty-column removal and then, for `alpha-asc`, the sort, with each step's error passed on |
| Builtins.SplitJoinLines | lib/common/helper.py:32 | splitting lines joined by `'\n'` gives the lines back, for lines without a line break and a non-empty last line |
| Builtins.JoinSplit | lib/formatter.py:35-37 | joining the parts of a split with the separator gives back the text |
| Builtins.ParseNatToString | lib/models/output.py:60 | the decimal digits of a loc read back as the loc |

## Left out

- File, console and git I/O are not modelled. This covers `Writer.__init__`'s stream and file handling, the reads and writes in `Writer.write`, `diff` and `git_add`, file reading and `hcl2.loads`, globbing, and the entry script. `Writer.DocWriter.Write` takes the target's text as a parameter.
- The settings singleton and config loading are not modelled. The marker name, insert position, collapse threshold, `remove_empty_columns` and `sort_order` are plain parameters.
- Logging calls are omitted.
- `tabulate` rendering, its regex clean-up (lib/formatter.py:116-136) and pydantic's validation machinery are left out.
- lib/common/formatter.py is not part of this model, so `format_description` and `format_validation` and the description, validation and precondition cells built from them are left out.
- lib/hcl_file.py and lib/hcl_module.py only wire the parser and the scanner together and are not modelled.
- `find_blocks` and `indent` are imported by lib/models/input.py:15 but not defined in lib/common/helper.py. The model assumes two things:
  - `find_blocks` is `find_block` applied to each loc in turn, and the first failure propagates (`Input.BlocksAt`).
  - `indent` is the length of the leading whitespace, as at lib/common/helper.py:54.
- `Path.relative_to` is not modelled; the relative path is a parameter of `Output.NameCell`.
- Regular expressions are replaced by explicit predicates:
  - `\w` is taken as ASCII letters, digits and `_`.
  - Interpolated names are restricted to letters, digits, `_` and `-` (`Scanner.IsIdentifier`), so they match literally.
  - Every `splitlines` boundary is modelled, but the anchor lemmas assume `'\n'`-only text (see `Input.FindAnchorsHold`).
- Input.CandidateOf: a candidate refers to its block by position instead of carrying the block text. `Input.LocalChoiceBest` reads the block back from that position.
- Input.FindAnchorsHold: stated only for text whose line breaks are all `'\n'`. With other `splitlines` boundaries counting `'\n'` and `splitlines` disagree on line numbers, so a loc may point at a different line. `Input.AnchorBlockError` has the same restriction.
- Formatter.SortRows: `list.sort` is stable, but stability is not stated; only order and permutation are.
- Formatter.CollapseColumn: rows are values inside the table array. Aliasing between rows of the Python list of lists is not modelled.
- Writer.DocWriter.constructor: the original content starts as `None` here, while the source leaves the attribute unset until `write` runs.
- Writer.TargetsDisjoint: states disjointness and the shape of a stream target, not the membership lists themselves, which `Writer.IsStdoutTarget` and `Writer.IsStderrTarget` spell out.
- Writer.WriteTwiceUnchanged: stated only for targets that do not start with whitespace and marker names without line breaks. `strip` can turn an indented marker-like line into a marker: for the target ` <!-- M START -->` and position `bottom`, the first write yields two start-marker lines, and a second write replaces everything between the first of them and the end marker.
- Scanner quirks are modelled as written, not repaired:
  - `<<-NAME` is appended after the opener's `<`, and the character after the name is skipped.
  - Only the first character of a heredoc terminator is kept.
  - Closers inside a heredoc are not guarded.
  - A blank line before the property becomes the match start, and the value is empty.
- Formatter.RemoveEmptyColumnsSpec: states the behaviour as written. When no column is used, `zip(*[])` yields no rows at all, so every row vanishes.
