/** The `export` lines, and a shell reading them by sections 2.2.1 and 2.2.2 of the POSIX.1-2017 shell. */
module Export {
  import opened Wrappers
  import opened Lines
  import opened Dotenv

  // Rendering.

  /** Every single quote closed, escaped and opened again. */
  function Requoted(value: string): string {
    if value == "" then "" else (if value[0] == '\'' then "'\\''" else [value[0]]) + Requoted(value[1..])
  }

  function ExportLine(p: Pair): string {
    "export " + p.name + "='" + Requoted(p.value) + "'\n"
  }

  function ExportLines(pairs: seq<Pair>): string {
    if pairs == [] then "" else ExportLine(pairs[0]) + ExportLines(pairs[1..])
  }

  method RenderExport(pairs: seq<Pair>) returns (text: string)
    ensures text == ExportLines(pairs)
  {
    text := "";
    for i := 0 to |pairs|
      invariant text + ExportLines(pairs[i..]) == ExportLines(pairs)
    {
      ghost var was := text;
      assert pairs[i..][1..] == pairs[i + 1..];
      text := text + ("export " + pairs[i].name + "='" + Requoted(pairs[i].value) + "'\n");
      Regrouped(was, ExportLine(pairs[i]), ExportLines(pairs[i + 1..]));
    }
    assert pairs[|pairs|..] == [];
  }

  // The shell's reading.

  /** The characters that quoting exists for, where they stand unquoted and end no word. */
  predicate IsSpecial(c: char) {
    c in "|&;<>()$`\"*?[#~%"
  }

  datatype Word = Word(value: string, rest: string)

  /** A word up to an unquoted blank or newline. A backslash keeps the character after it, and
      before a newline continues the line; inside single quotes every character is itself.
      None where a quote stays open or anything else would be interpreted. */
  function ReadWord(s: string): (w: Option<Word>)
    ensures w.Some? ==> |w.value.rest| <= |s|
    decreases s
  {
    if s == "" || s[0] in " \t\n" then Some(Word("", s))
    else if s[0] == '\'' then ReadQuoted(s[1..])
    else if s[0] == '\\' then
      if |s| == 1 then None
      else if s[1] == '\n' then ReadWord(s[2..])
      else Then([s[1]], ReadWord(s[2..]))
    else if IsSpecial(s[0]) then None
    else Then([s[0]], ReadWord(s[1..]))
  }

  function ReadQuoted(s: string): (w: Option<Word>)
    ensures w.Some? ==> |w.value.rest| <= |s|
    decreases s
  {
    if s == "" then None
    else if s[0] == '\'' then ReadWord(s[1..])
    else Then([s[0]], ReadQuoted(s[1..]))
  }

  function Then(read: string, w: Option<Word>): Option<Word> {
    if w.None? then None else Some(Word(read + w.value.value, w.value.rest))
  }

  const EXPORT := "export "

  /** A script of nothing but `export NAME=word` commands, and the assignments it makes. */
  function ReadScript(s: string): Option<seq<(string, string)>>
    decreases |s|
  {
    if s == "" then Some([])
    else if !(EXPORT <= s) then None
    else
      var command := s[|EXPORT|..];
      var i := EqualsAt(command);
      if i == |command| then None
      else
        match ReadWord(command[i + 1..])
        case None => None
        case Some(w) =>
          if w.rest == "" || w.rest[0] != '\n' then None
          else
            match ReadScript(w.rest[1..])
            case None => None
            case Some(rest) => Some([(command[..i], w.value)] + rest)
  }

  function EqualsAt(s: string): (i: nat)
    ensures i <= |s|
  {
    if s == "" || s[0] == '=' then 0 else 1 + EqualsAt(s[1..])
  }

  // The round trip.

  /** A value goes through the quotes whole, whatever is in it. */
  lemma {:induction false} QuotedIsRead(value: string, rest: string)
    requires rest != "" && rest[0] == '\n'
    ensures ReadQuoted(Requoted(value) + "'" + rest) == Some(Word(value, rest))
  {
    var s := Requoted(value) + "'" + rest;
    if value == "" {
      assert s == "'" + rest;
      assert s[1..] == rest;
    } else {
      var tail := Requoted(value[1..]) + "'" + rest;
      QuotedIsRead(value[1..], rest);
      hide Requoted;
      if value[0] == '\'' {
        assert s == "'\\''" + tail by { RequotedStep(value, rest); }
        QuoteInQuotes(tail);
      } else {
        assert s == [value[0]] + tail by { RequotedStep(value, rest); }
        assert s[1..] == tail;
      }
      assert value == [value[0]] + value[1..];
    }
  }

  lemma RequotedStep(value: string, rest: string)
    requires value != ""
    ensures Requoted(value) + "'" + rest
         == (if value[0] == '\'' then "'\\''" else [value[0]]) + (Requoted(value[1..]) + "'" + rest)
  {
  }

  lemma QuoteInQuotes(tail: string)
    ensures ReadQuoted("'\\''" + tail) == Then("'", ReadQuoted(tail))
  {
    var s := "'\\''" + tail;
    var escaped, quoted := "\\''" + tail, "'" + tail;
    assert s[1..] == escaped && escaped[2..] == quoted && quoted[1..] == tail;
    assert ReadWord(quoted) == ReadQuoted(tail);
    assert escaped[1] == '\'';
    assert ReadWord(escaped) == Then("'", ReadWord(quoted));
    assert ReadQuoted(s) == ReadWord(escaped);
  }

  lemma {:induction false} NameIsRead(name: string, rest: string)
    requires '=' !in name
    ensures EqualsAt(name + "=" + rest) == |name|
  {
    var s := name + "=" + rest;
    if name != "" {
      NameIsRead(name[1..], rest);
      assert s[1..] == name[1..] + "=" + rest;
    }
  }

  function Both(p: Pair): (string, string) { (p.name, p.value) }

  function Assigned(pairs: seq<Pair>): seq<(string, string)> {
    if pairs == [] then [] else [Both(pairs[0])] + Assigned(pairs[1..])
  }

  lemma Parts(name: string, r: string, more: string)
    ensures ("export " + name + "='" + r + "'\n") + more == EXPORT + (name + "=" + ("'" + (r + "'" + ("\n" + more))))
  {
    assert "='" == "=" + "'" && "'\n" == "'" + "\n";
    var end := r + "'" + ("\n" + more);
    assert (r + "'\n") + more == end;
    assert ("'" + r + "'\n") + more == "'" + end;
    assert (name + "='" + r + "'\n") + more == name + "=" + ("'" + end);
  }

  lemma LineIsRead(p: Pair, more: string)
    ensures
      var s := ExportLine(p) + more;
      && EXPORT <= s
      && EqualsAt(s[|EXPORT|..]) == |p.name| < |s[|EXPORT|..]|
      && s[|EXPORT|..][..|p.name|] == p.name
      && ReadWord(s[|EXPORT|..][|p.name| + 1..]) == Some(Word(p.value, "\n" + more))
  {
    var s := ExportLine(p) + more;
    var quoted := Requoted(p.value) + "'" + ("\n" + more);
    var after := "'" + quoted;
    var command := p.name + "=" + after;
    QuotedIsRead(p.value, "\n" + more);
    hide Requoted, ReadQuoted;
    Parts(p.name, Requoted(p.value), more);
    assert s[|EXPORT|..] == command;
    assert forall c :: c in p.name ==> IsNameChar(c);
    NameIsRead(p.name, after);
    assert command[..|p.name|] == p.name && command[|p.name| + 1..] == after;
    assert after[1..] == quoted;
    assert ReadWord(after) == ReadQuoted(quoted);
  }

  /** A shell that reads the lines assigns every name its value, whatever the values hold. */
  lemma {:induction false} ShellReadsTheSame(pairs: seq<Pair>)
    ensures ReadScript(ExportLines(pairs)) == Some(Assigned(pairs))
  {
    if pairs != [] {
      var more := ExportLines(pairs[1..]);
      ShellReadsTheSame(pairs[1..]);
      LineIsRead(pairs[0], more);
      hide ExportLine, ReadWord, ReadQuoted, EqualsAt;
      assert ExportLines(pairs) == ExportLine(pairs[0]) + more;
      assert ("\n" + more)[1..] == more;
    }
  }
}
