/**
 * lib/models/output.py: the row models that turn a parsed item into table
 * cells, and the registry that maps an input model to its row model.
 */
module Output {

  import opened Errors
  import opened Builtins
  import opened Scanner
  import opened Input

  // ---------------------------------------------------------------------
  // The registry
  // ---------------------------------------------------------------------

  /** The parsed item types the registry is keyed by (`ParsedHclItem[...]`). */
  datatype ItemKind = ResourceItem | LocalItem | VariableItem | OutputItem

  /** The row models registered for them. */
  datatype RowModel = ResourceRow | LocalRow | VariableRow | OutputRow

  /** `get_output_model` on a given registry content. */
  function Lookup(models: map<ItemKind, RowModel>, input: ItemKind): (r: Result<RowModel>)
    ensures r.Ok? <==> input in models
    ensures r.Ok? ==> r.value == models[input]
    ensures r.Err? ==> r.error == NoOutputModel
  {
    if input in models then Ok(models[input]) else Err(NoOutputModel)
  }

  /** Registering overwrites the entry for that input model and leaves every other lookup alone. */
  lemma LookupAfterRegister(models: map<ItemKind, RowModel>, input: ItemKind, output: RowModel, k: ItemKind)
    ensures Lookup(models[input := output], k) == if k == input then Ok(output) else Lookup(models, k)
  {
  }

  /** The module-level `_registry` dict, which `register_model` writes into. */
  class Registry {
    var models: map<ItemKind, RowModel>

    /** The registry starts empty. */
    constructor ()
      ensures models == map[]
    {
      models := map[];
    }

    /** `register_model(input)(output)`: `_registry[input] = output`. */
    method Register(input: ItemKind, output: RowModel)
      modifies this
      ensures models == old(models)[input := output]
      ensures GetOutputModel(input) == Ok(output)
      ensures forall k :: k != input ==> GetOutputModel(k) == old(GetOutputModel(k))
    {
      models := models[input := output];
    }

    /** `get_output_model`: the registered row model, or ValueError. */
    function GetOutputModel(input: ItemKind): (r: Result<RowModel>)
      reads this
      ensures r.Ok? <==> input in models
      ensures r.Ok? ==> r.value == models[input]
      ensures r.Err? ==> r.error == NoOutputModel
    {
      Lookup(models, input)
    }

    /** The four `@register_model` decorations of output.py, in the order they run. */
    method RegisterRows()
      modifies this
      ensures GetOutputModel(ResourceItem) == Ok(ResourceRow)
      ensures GetOutputModel(LocalItem) == Ok(LocalRow)
      ensures GetOutputModel(VariableItem) == Ok(VariableRow)
      ensures GetOutputModel(OutputItem) == Ok(OutputRow)
    {
      Register(ResourceItem, ResourceRow);
      Register(LocalItem, LocalRow);
      Register(VariableItem, VariableRow);
      Register(OutputItem, OutputRow);
    }
  }

  // ---------------------------------------------------------------------
  // Cells built from scanned source text
  // ---------------------------------------------------------------------

  const Br: string := "<br/>"

  /** `s.replace('\n', '<br/>')`. */
  function ReplaceNewlines(s: string): (r: string)
    ensures '\n' !in r
    ensures |r| == |s| + 4 * CountChar('\n', s)
  {
    if s == [] then ""
    else (if s[0] == '\n' then Br else [s[0]]) + ReplaceNewlines(s[1..])
  }

  /** Turn each `<br/>` back into a newline, scanning left to right. */
  function RestoreNewlines(s: string): string
  {
    if s == [] then ""
    else if Br <= s then "\n" + RestoreNewlines(s[|Br|..])
    else [s[0]] + RestoreNewlines(s[1..])
  }

  /** A `<br/>` starts at `i` in `s`. */
  predicate BrAt(s: string, i: nat) {
    i + |Br| <= |s| && s[i..i + |Br|] == Br
  }

  /** `s` holds no `<br/>` of its own. */
  predicate NoBr(s: string) {
    forall i: nat :: i < |s| ==> !BrAt(s, i)
  }

  /** A prefix that has neither `<` nor a newline comes through the replacement unchanged. */
  lemma {:induction false} ReplacedPrefix(t: string, w: string)
    requires '<' !in w && '\n' !in w && w <= ReplaceNewlines(t)
    ensures w <= t
  {
    if w != [] {
      assert ReplaceNewlines(t)[0] == w[0];
      assert t != [] && t[0] != '\n';
      assert ReplaceNewlines(t) == [t[0]] + ReplaceNewlines(t[1..]);
      ReplacedPrefix(t[1..], w[1..]);
    }
  }

  /** Replacing the newlines can be undone, for text with no `<br/>` of its own. */
  lemma {:induction false} RestoreReplace(s: string)
    requires NoBr(s)
    ensures RestoreNewlines(ReplaceNewlines(s)) == s
  {
    if s != [] {
      var rest := ReplaceNewlines(s[1..]);
      NoBrTail(s);
      RestoreReplace(s[1..]);
      if s[0] == '\n' {
        assert (Br + rest)[|Br|..] == rest;
      } else {
        var r := [s[0]] + rest;
        if Br <= r {
          BrAfterHead(s[0], rest);
          ReplacedPrefix(s[1..], "br/>");
          BrAtHead(s);
          assert false;
        }
        assert r[1..] == rest;
      }
    }
  }

  lemma BrAfterHead(x: char, rest: string)
    requires Br <= [x] + rest
    ensures x == '<' && "br/>" <= rest
  {
    var r := [x] + rest;
    assert r[..5] == Br;
    assert x == r[0] == Br[0] == '<';
    assert rest[..4] == r[1..5] == Br[1..5] == "br/>";
  }

  lemma BrAtHead(s: string)
    requires s != [] && s[0] == '<' && "br/>" <= s[1..]
    ensures BrAt(s, 0)
  {
    assert s[0..|Br|] == [s[0]] + s[1..][..4];
  }

  lemma NoBrTail(s: string)
    requires s != [] && NoBr(s)
    ensures NoBr(s[1..])
  {
    forall i: nat | i < |s[1..]|
      ensures !BrAt(s[1..], i)
    {
      if i + |Br| <= |s| - 1 {
        assert s[1..][i..i + |Br|] == s[i + 1..i + 1 + |Br|];
        assert !BrAt(s, i + 1);
      }
    }
  }

  /** `'<pre>' + text.replace('\n', '<br/>') + '</pre>'`. */
  function PreCell(text: string): (cell: string)
    ensures '\n' !in cell
    ensures |cell| >= 11 && cell[..5] == "<pre>" && cell[|cell| - 6..] == "</pre>"
  {
    var cell := "<pre>" + ReplaceNewlines(text) + "</pre>";
    assert cell[..5] == "<pre>" && cell[|cell| - 6..] == "</pre>";
    cell
  }

  /** Text with no `<br/>` of its own comes back out of its cell. */
  lemma PreCellReadsBack(text: string)
    requires NoBr(text)
    ensures var cell := PreCell(text); RestoreNewlines(cell[5..|cell| - 6]) == text
  {
    var cell := PreCell(text);
    assert cell[5..|cell| - 6] == ReplaceNewlines(text);
    RestoreReplace(text);
  }

  /** A property's scanned text in a block, as a `<pre>` cell; scanner errors propagate. */
  function ScannedCell(block: string, prop: string): (r: Result<string>)
    requires IsIdentifier(prop)
    ensures r.Err? <==> PropValue(block, prop).Err?
    ensures r.Err? ==> r.error == PropValue(block, prop).error
    ensures r.Ok? ==> r.value == PreCell(PropValue(block, prop).value)
  {
    match PropValue(block, prop)
    case Err(e) => Err(e)
    case Ok(v) => Ok(PreCell(v))
  }

  /** `VariableRow.type`. */
  function TypeCell(block: string): Result<string> {
    ScannedCell(block, "type")
  }

  /** `VariableRow.default`. */
  function DefaultCell(fields: VariableFields, block: string): Result<string> {
    if Required(fields) then Ok("**required**") else ScannedCell(block, "default")
  }

  /**
   * A required variable reads `**required**` whatever its block holds (the
   * scanner is not run, so it cannot fail); any other variable gets the
   * scanned `default` as a `<pre>` cell, or the scanner's error.
   */
  lemma DefaultCellCases(fields: VariableFields, block: string, other: string)
    ensures Required(fields) ==> DefaultCell(fields, block) == DefaultCell(fields, other) == Ok("**required**")
    ensures !Required(fields) ==>
              match PropValue(block, "default")
              case Err(e) => DefaultCell(fields, block) == Err(e)
              case Ok(v) => DefaultCell(fields, block) == Ok(PreCell(v))
  {
  }

  /** `OutputRow.value`. */
  function ValueCell(block: string): Result<string> {
    ScannedCell(block, "value")
  }

  // ---------------------------------------------------------------------
  // Cells built from the parsed fields
  // ---------------------------------------------------------------------

  function ErrorMessages(vs: seq<Validation>): (ms: seq<string>)
    ensures |ms| == |vs| && forall i :: 0 <= i < |vs| ==> ms[i] == vs[i].errorMessage
  {
    seq(|vs|, i requires 0 <= i < |vs| => vs[i].errorMessage)
  }

  /** `OutputRow.postcondition`: the error messages joined by `', '`, or `''` when there are none. */
  function PostconditionCell(post: seq<Validation>): string {
    if post == [] then "" else Join(", ", ErrorMessages(post))
  }

  /**
   * The postcondition cell lays out every error message in order, `', '`
   * between neighbours and nothing else.
   */
  lemma PostconditionLayout(post: seq<Validation>, i: nat)
    requires i < |post|
    ensures var cell := PostconditionCell(post); var ms := ErrorMessages(post);
            var a := PartStart(", ", ms, i); var b := a + |ms[i]|;
            && ms[i] == post[i].errorMessage
            && b <= |cell| && cell[a..b] == ms[i]
            && (i + 1 < |ms| ==> b + 2 <= |cell| && cell[b..b + 2] == ", ")
            && (i + 1 == |ms| ==> b == |cell|)
  {
    var ms := ErrorMessages(post);
    assert PostconditionCell(post) == Join(", ", ms);
    JoinLayout(", ", ms, i);
  }

  /** No postconditions, no text. */
  lemma PostconditionEmpty()
    ensures PostconditionCell([]) == ""
  {
  }

  /** `ResourceRow.provider`: `name.split('_', 1)[0]`, the part before the first `_`. */
  function ProviderCell(name: string): (r: string)
    ensures r <= name && '_' !in r
    ensures |r| < |name| ==> name[|r|] == '_'
    ensures '_' !in name ==> r == name
  {
    Before(name, '_')
  }

  /** `TERRAFORM_URL.format(provider=provider, name=name)` (lib/const.py). */
  function TerraformUrl(provider: string, name: string): string {
    "[" + name + "](https://registry.terraform.io/providers/hashicorp/" + provider + "/latest/docs/resources/" + name + ")"
  }

  /**
   * `ResourceRow.documentation`: cut the name at its first `.`, split that
   * at its first `_`; without a `_` the two-name unpacking fails.
   */
  function Documentation(name: string): (r: Result<string>)
    ensures r.Err? <==> '_' !in Before(name, '.')
    ensures r.Err? ==> r.error == NotEnoughValuesToUnpack
  {
    var head := Before(name, '.');
    match CharIndex(head, '_')
    case None => Err(NotEnoughValuesToUnpack)
    case Some(i) => Ok(TerraformUrl(head[..i], head[i + 1..]))
  }

  /**
   * A documentation link is made of a provider and a name that, joined by
   * `_`, give back the resource name up to its first `.`; the provider holds
   * no `_` and is the provider cell of the same row.
   */
  lemma DocumentationParts(name: string) returns (provider: string, rest: string)
    requires Documentation(name).Ok?
    ensures Documentation(name) == Ok(TerraformUrl(provider, rest))
    ensures provider + "_" + rest == Before(name, '.')
    ensures '_' !in provider && '.' !in provider + "_" + rest
    ensures provider == ProviderCell(name)
  {
    var head := Before(name, '.');
    var i := CharIndex(head, '_').value;
    provider, rest := head[..i], head[i + 1..];
    assert head == provider + "_" + rest;
    assert head <= name;
    assert name[..i] == provider && name[i] == '_';
    FirstCharAt(name, '_', i);
  }

  /** A character's first occurrence is where it is found with nothing like it before. */
  lemma FirstCharAt(s: string, c: char, i: nat)
    requires i < |s| && s[i] == c && c !in s[..i]
    ensures Before(s, c) == s[..i]
  {
    var j := CharIndex(s, c).value;
    NotBefore(s, c, i);
    NotBefore(s, c, j);
  }

  lemma NotBefore(s: string, c: char, i: nat)
    requires i <= |s| && c !in s[..i]
    ensures forall k :: 0 <= k < i ==> s[k] != c
  {
    forall k | 0 <= k < i
      ensures s[k] != c
    {
      assert s[..i][k] == s[k];
    }
  }

  /** `ItemRow.name`: `[name](/relative_path#L<loc>)`, with the path relative to the module root given. */
  function NameCell(name: string, relativePath: string, loc: int): string {
    "[" + name + "](/" + relativePath + "#L" + IntToString(loc) + ")"
  }

  /** The link text is the item's name and the anchor after `#L` reads back as the loc. */
  lemma NameCellParts(name: string, relativePath: string, loc: nat)
    ensures var cell := NameCell(name, relativePath, loc); var digits := NatToString(loc);
            && cell == "[" + name + "](/" + relativePath + "#L" + digits + ")"
            && cell[1..1 + |name|] == name
            && cell[|cell| - 1 - |digits|..|cell| - 1] == digits
            && cell[|cell| - 3 - |digits|..|cell| - 1 - |digits|] == "#L"
            && ParseNat(digits) == loc
  {
    var digits := NatToString(loc);
    var cell := NameCell(name, relativePath, loc);
    var front := "[" + name + "](/" + relativePath;
    assert cell == front + "#L" + digits + ")";
    assert cell[|cell| - 1 - |digits|..|cell| - 1] == digits;
    assert cell[|cell| - 3 - |digits|..|cell| - 1 - |digits|] == "#L";
    ParseNatToString(loc);
  }
}
