/** The block of lines Nodal keeps in a repository's `info/exclude`: the table they come from,
    adding what is missing, and taking them out again. */
module Exclude {
  import opened Wrappers
  import opened Text
  import opened Lines

  // The table.

  datatype Kind = Activation | Marker | Memory | Pointer | ClaudeSettings

  datatype Taken = Whole | Nothing | PointerLine | NodalHooks

  datatype Hidden = Always | WhenNodalMadeIt

  datatype Row = Row(path: string, kind: Kind, exclude: string, hidden: Hidden, removed: Taken, own: bool)

  const WRITTEN := [
    Row(".nodal/env", Activation, "/.nodal/", Always, Whole, true),
    Row(".envrc", Activation, "/.envrc", Always, Whole, true),
    Row(".nodal/manifest.toml", Activation, "/.nodal/", Always, Whole, true),
    Row(".nodal/id", Marker, "/.nodal/", Always, Nothing, true),
    Row("WORKUNIT.md", Memory, "/WORKUNIT.md", Always, Whole, true),
    Row("CLAUDE.md", Pointer, "/CLAUDE.md", WhenNodalMadeIt, PointerLine, false),
    Row("AGENTS.md", Pointer, "/AGENTS.md", WhenNodalMadeIt, PointerLine, false),
    Row(".claude/settings.json", ClaudeSettings, "/.claude/settings.json", WhenNodalMadeIt, NodalHooks, true)
  ]

  const MARKER := "# nodal"

  /** Whether a line is one the table names. */
  predicate InTable(line: string) {
    exists i :: 0 <= i < |WRITTEN| && WRITTEN[i].exclude == line
  }

  /** The marker, or a line of the table. */
  predicate IsNodals(line: string) {
    line == MARKER || InTable(line)
  }

  /** The lines of the rows hidden this way, each named once. */
  method LinesOf(hidden: Hidden) returns (found: seq<string>)
    ensures Distinct(found)
    ensures forall line :: line in found <==> exists i :: 0 <= i < |WRITTEN| && WRITTEN[i].hidden == hidden && WRITTEN[i].exclude == line
  {
    found := [];
    for n := 0 to |WRITTEN|
      invariant Distinct(found)
      invariant forall line ::
        line in found <==> exists i :: 0 <= i < n && WRITTEN[i].hidden == hidden && WRITTEN[i].exclude == line
    {
      if WRITTEN[n].hidden == hidden && WRITTEN[n].exclude !in found {
        found := found + [WRITTEN[n].exclude];
      }
    }
  }

  predicate Distinct(lines: seq<string>) {
    forall i, j :: 0 <= i < j < |lines| ==> lines[i] != lines[j]
  }

  // Adding.

  function Trimmed(lines: seq<string>): seq<string> {
    seq(|lines|, i requires 0 <= i < |lines| => TrimEnd(lines[i]))
  }

  predicate Has(text: string, line: string) {
    line in Trimmed(Lines.Lines(text))
  }

  function Missing(text: string, lines: seq<string>): seq<string> {
    if lines == [] then []
    else (if Has(text, lines[0]) then [] else [lines[0]]) + Missing(text, lines[1..])
  }

  /** The text with its last line ended. */
  function Closed(text: string): string {
    if text != "" && text[|text| - 1] != '\n' then text + "\n" else text
  }

  function Excluding(text: string, lines: seq<string>): string {
    var adding := Missing(text, lines);
    if adding == [] then text
    else Closed(text) + Ended((if Has(text, MARKER) then [] else [MARKER]) + adding)
  }

  lemma ExcludingIs(text: string, lines: seq<string>)
    requires Missing(text, lines) != []
    ensures Excluding(text, lines)
         == Closed(text) + Ended((if Has(text, MARKER) then [] else [MARKER]) + Missing(text, lines))
  {
  }

  /** The text with its last line ended, the marker if it has none, and the lines. */
  method Append(existing: string, adding: seq<string>) returns (text: string)
    ensures text == Closed(existing) + Ended((if Has(existing, MARKER) then [] else [MARKER]) + adding)
  {
    hide Has;
    text := existing;
    if text != "" && text[|text| - 1] != '\n' {
      text := text + "\n";
    }
    ghost var closed := text;
    ghost var marked := if Has(existing, MARKER) then [] else [MARKER];
    if !Has(existing, MARKER) {
      text := text + (MARKER + "\n");
      assert Ended([MARKER]) == MARKER + "\n" + "";
    }
    assert text == closed + Ended(marked);
    hide Ended, Closed;
    assert marked + adding[..0] == marked;
    for i := 0 to |adding|
      invariant text == closed + Ended(marked + adding[..i])
    {
      hide Ended;
      assert marked + adding[..i + 1] == marked + adding[..i] + [adding[i]];
      EndedWithOneMore(marked + adding[..i], adding[i]);
      Regrouped(closed, Ended(marked + adding[..i]), adding[i] + "\n");
      text := text + (adding[i] + "\n");
    }
    assert adding[..|adding|] == adding;
  }

  // Taking out.

  function Others(lines: seq<string>): seq<string> {
    if lines == [] then []
    else (if IsNodals(TrimEnd(lines[0])) then [] else [lines[0]]) + Others(lines[1..])
  }

  function Unhiding(text: string): string {
    var kept := Others(Lines.Lines(text));
    if |kept| == |Lines.Lines(text)| then text
    else
      var joined := Join(kept, "\n");
      if joined == "" then "" else joined + "\n"
  }

  /** The file `info/exclude`, which may not be there yet. */
  class InfoExclude {
    var file: Option<string>

    constructor (file: Option<string>)
      ensures this.file == file
    {
      this.file := file;
    }

    method Add(lines: seq<string>) returns (added: seq<string>)
      modifies this
      ensures added == Missing(old(file).GetOr(""), lines)
      ensures file == if added == [] then old(file) else Some(Excluding(old(file).GetOr(""), lines))
    {
      var existing := file.GetOr("");
      added := Missing(existing, lines);
      if added == [] {
        return;
      }
      var text := Append(existing, added);
      file := Some(text);
      ExcludingIs(existing, lines);
    }

    method TakeOut() returns (changed: bool)
      modifies this
      ensures old(file).None? ==> !changed && file == None
      ensures old(file).Some? ==> file == Some(Unhiding(old(file).value))
      ensures changed <==> old(file).Some? && |Others(Lines.Lines(old(file).value))| != |Lines.Lines(old(file).value)|
    {
      if file.None? {
        return false;
      }
      var lines := Lines.Lines(file.value);
      var kept := Others(lines);
      if |kept| == |lines| {
        return false;
      }
      var text := Join(kept, "\n");
      if text != "" {
        text := text + "\n";
      }
      file := Some(text);
      changed := true;
    }
  }
}
