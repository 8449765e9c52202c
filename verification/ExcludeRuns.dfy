/** What any sequence of additions to `info/exclude` leaves, and when taking the lines out again
    gives back the file there was. */
module ExcludeRuns {
  import opened Text
  import opened Lines
  import opened Exclude

  // The lines of a text and of what is appended to it.

  ghost predicate IsClosed(text: string) {
    text == "" || text[|text| - 1] == '\n'
  }

  lemma LineMore(line: string, rest: string, more: string)
    requires '\n' !in line
    requires Lines.Lines(rest + more) == Lines.Lines(rest) + Lines.Lines(more)
    ensures Lines.Lines(line + "\n" + rest + more) == Lines.Lines(line + "\n" + rest) + Lines.Lines(more)
  {
    FirstOfLines(line, rest);
    FirstOfLines(line, rest + more);
    Regrouped(line + "\n", rest, more);
    Regrouped([WithoutReturn(line)], Lines.Lines(rest), Lines.Lines(more));
    hide Lines.Lines, WithoutReturn;
  }

  lemma {:induction false} LinesOfBoth(text: string, more: string)
    requires IsClosed(text)
    ensures Lines.Lines(text + more) == Lines.Lines(text) + Lines.Lines(more)
    decreases |text|
  {
    if text == "" {
      assert text + more == more;
    } else {
      hide Lines.Lines;
      assert text[|text| - 1] in text;
      var line, rest := LineThenRest(text);
      assert IsClosed(rest) by {
        assert rest != "" ==> rest[|rest| - 1] == text[|text| - 1];
      }
      LinesOfBoth(rest, more);
      LineMore(line, rest, more);
    }
  }

  lemma TrimEndOfReturn(line: string)
    ensures TrimEnd(WithoutReturn(line)) == TrimEnd(line)
  {
  }

  /** Ending the last line changes no line but for a trailing return. */
  lemma {:induction false} ClosingKeepsLines(text: string)
    ensures Trimmed(Lines.Lines(Closed(text))) == Trimmed(Lines.Lines(text))
    decreases |text|
  {
    if !IsClosed(text) {
      if '\n' in text {
        var line, rest := LineThenRest(text);
        assert rest != "" && text[|text| - 1] == rest[|rest| - 1];
        ClosingKeepsLines(rest);
        FirstOfLines(line, rest);
        FirstOfLines(line, rest + "\n");
        hide Lines.Lines, Trimmed, WithoutReturn;
        Regrouped(line + "\n", rest, "\n");
        assert Closed(text) == line + "\n" + Closed(rest);
        TrimmedStep(WithoutReturn(line), Lines.Lines(Closed(rest)), Lines.Lines(rest));
      } else {
        FirstOfLines(text, "");
        OnlyLine(text);
        TrimEndOfReturn(text);
        assert Closed(text) == text + "\n" + "";
      }
    }
  }

  lemma TrimmedStep(line: string, a: seq<string>, b: seq<string>)
    requires Trimmed(a) == Trimmed(b)
    ensures Trimmed([line] + a) == Trimmed([line] + b)
  {
    assert Trimmed([line] + a) == [TrimEnd(line)] + Trimmed(a);
    assert Trimmed([line] + b) == [TrimEnd(line)] + Trimmed(b);
  }

  // Nodal's lines.

  /** A line as it is written: one line, with nothing to trim. */
  ghost predicate IsPlain(line: string) {
    IsLine(line) && TrimEnd(line) == line && |line| > 1
  }

  ghost predicate IsPrintable(line: string) {
    && |line| > 1
    && (forall i :: 0 <= i < |line| ==> ' ' <= line[i] <= '~')
    && line[|line| - 1] != ' '
  }

  lemma PrintableIsPlain(line: string)
    requires IsPrintable(line)
    ensures IsPlain(line)
  {
  }

  lemma RowsArePrintable(i: nat)
    requires i < |WRITTEN|
    ensures IsPrintable(WRITTEN[i].exclude) && WRITTEN[i].exclude[0] == '/'
  {
    var line := WRITTEN[i].exclude;
    if i == 0 || i == 2 || i == 3 {
      assert line == "/.nodal/";
    } else if i == 1 {
      assert line == "/.envrc";
    } else if i == 4 {
      assert line == "/WORKUNIT.md";
    } else if i == 5 {
      assert line == "/CLAUDE.md";
    } else if i == 6 {
      assert line == "/AGENTS.md";
    } else {
      assert line == "/.claude/settings.json";
    }
  }

  lemma NodalsLinesArePlain(line: string)
    requires IsNodals(line)
    ensures IsPlain(line)
    ensures InTable(line) ==> line != MARKER
  {
    assert IsPrintable(MARKER);
    PrintableIsPlain(MARKER);
    if InTable(line) {
      var i :| 0 <= i < |WRITTEN| && WRITTEN[i].exclude == line;
      RowsArePrintable(i);
      PrintableIsPlain(line);
    }
  }

  // The block.

  /** A call adds lines of the table, each named once. */
  ghost predicate IsCall(lines: seq<string>) {
    Distinct(lines) && forall l :: l in lines ==> InTable(l)
  }

  function MarkerFor(text: string): seq<string> {
    if Has(text, MARKER) then [] else [MARKER]
  }

  /** The text with Nodal's block at its end, and nothing when there is nothing in it. */
  function WithBlock(text: string, added: seq<string>): string {
    if added == [] then text else Closed(text) + Ended(MarkerFor(text) + added)
  }

  /** Lines of the table, each once, none that the text has already. */
  ghost predicate IsBlock(text: string, added: seq<string>) {
    IsCall(added) && forall l :: l in added ==> !Has(text, l)
  }

  lemma BlockLines(text: string, lines: seq<string>)
    requires forall l :: l in lines ==> IsNodals(l)
    ensures Lines.Lines(Closed(text) + Ended(lines)) == Lines.Lines(Closed(text)) + lines
    ensures IsClosed(Closed(text) + Ended(lines))
  {
    forall l | l in lines
      ensures IsLine(l)
    {
      NodalsLinesArePlain(l);
    }
    LinesOfEnded(lines, "");
    assert Ended(lines) + "" == Ended(lines);
    assert Lines.Lines("") == [];
    assert lines + [] == lines;
    LinesOfBoth(Closed(text), Ended(lines));
    EndedIsClosed(lines);
  }

  lemma {:induction false} EndedIsClosed(lines: seq<string>)
    ensures IsClosed(Ended(lines))
  {
    if lines != [] {
      EndedIsClosed(lines[1..]);
    }
  }

  lemma MarkerForIsNodals(text: string, added: seq<string>)
    requires forall l :: l in added ==> InTable(l)
    ensures forall l :: l in MarkerFor(text) + added ==> IsNodals(l)
  {
  }

  /** What the text has once the block is on it. */
  lemma BlockHas(text: string, added: seq<string>, line: string)
    requires forall l :: l in added ==> InTable(l)
    ensures Has(WithBlock(text, added), line) <==> Has(text, line) || (added != [] && line in MarkerFor(text) + added)
  {
    if added != [] {
      var more := MarkerFor(text) + added;
      MarkerForIsNodals(text, added);
      BlockLines(text, more);
      ClosingKeepsLines(text);
      NothingToTrim(more);
      hide Lines.Lines, Ended, IsNodals, InTable, TrimEnd, Closed;
      TrimmedOfBoth(Lines.Lines(Closed(text)), more);
    }
  }

  lemma TrimmedOfBoth(a: seq<string>, b: seq<string>)
    ensures Trimmed(a + b) == Trimmed(a) + Trimmed(b)
  {
    hide TrimEnd;
  }

  lemma NothingToTrim(lines: seq<string>)
    requires forall l :: l in lines ==> IsNodals(l)
    ensures Trimmed(lines) == lines
  {
    hide IsNodals;
    forall i | 0 <= i < |lines|
      ensures Trimmed(lines)[i] == lines[i]
    {
      NodalsLinesArePlain(lines[i]);
    }
  }

  lemma {:induction false} MissingIs(text: string, lines: seq<string>)
    requires Distinct(lines)
    ensures forall l :: l in Missing(text, lines) <==> l in lines && !Has(text, l)
    ensures Distinct(Missing(text, lines))
  {
    if lines != [] {
      var rest := lines[1..];
      assert lines == [lines[0]] + rest;
      assert Distinct(rest) && lines[0] !in rest;
      MissingIs(text, rest);
    }
  }

  /** What a call finds missing once the block is there. */
  lemma MissingIsNew(text: string, added: seq<string>, lines: seq<string>)
    requires IsBlock(text, added) && IsCall(lines)
    ensures
      var more := Missing(WithBlock(text, added), lines);
      && IsBlock(text, added + more)
      && forall l :: l in more <==> l in lines && !Has(text, l) && l !in added
  {
    var now := WithBlock(text, added);
    MissingIs(now, lines);
    hide Has, Missing, InTable, WithBlock, MarkerFor;
    forall l | l in lines
      ensures Has(now, l) <==> Has(text, l) || l in added
    {
      TableLineIsHeld(text, added, l);
    }
    DistinctBoth(added, Missing(now, lines));
    hide Distinct;
  }

  lemma DistinctBoth(a: seq<string>, b: seq<string>)
    requires Distinct(a) && Distinct(b) && forall l :: l in b ==> l !in a
    ensures Distinct(a + b)
  {
    forall i, j | 0 <= i < j < |a + b|
      ensures (a + b)[i] != (a + b)[j]
    {
      if i < |a| <= j {
        assert b[j - |a|] in b;
      }
    }
  }

  lemma TableLineIsHeld(text: string, added: seq<string>, line: string)
    requires IsBlock(text, added) && InTable(line)
    ensures Has(WithBlock(text, added), line) <==> Has(text, line) || line in added
  {
    BlockHas(text, added, line);
    NodalsLinesArePlain(line);
    hide Has, InTable, IsPlain, WithBlock;
  }

  /** One more call: the block grows by what is new, under the same marker. */
  lemma ExcludingGrowsTheBlock(text: string, added: seq<string>, lines: seq<string>)
    requires IsBlock(text, added) && IsCall(lines)
    ensures
      var more := Missing(WithBlock(text, added), lines);
      Excluding(WithBlock(text, added), lines) == WithBlock(text, added + more)
  {
    var now := WithBlock(text, added);
    var more := Missing(now, lines);
    BlockHas(text, added, MARKER);
    NoneBefore(added);
    NoneBefore(more);
    if more != [] && added != [] {
      BlockGrows(text, added, more);
    }
    hide Has, Missing, InTable, Ended, IsBlock, Closed;
  }

  lemma NoneBefore<T>(s: seq<T>)
    ensures [] + s == s && s + [] == s
  {
  }

  lemma BlockGrows(text: string, added: seq<string>, more: seq<string>)
    requires added != [] && more != [] && forall l :: l in added ==> InTable(l)
    ensures Closed(WithBlock(text, added)) == WithBlock(text, added)
    ensures WithBlock(text, added) + Ended([] + more) == WithBlock(text, added + more)
  {
    var block := MarkerFor(text) + added;
    MarkerForIsNodals(text, added);
    BlockLines(text, block);
    EndedJoins(block, more);
    Regrouped(MarkerFor(text), added, more);
    Regrouped(Closed(text), Ended(block), Ended(more));
    NoneBefore(more);
    hide Has, InTable, Ended, MarkerFor, Lines.Lines, IsNodals;
  }

  // Any sequence of calls.

  function AfterCalls(text: string, calls: seq<seq<string>>): string
    decreases calls
  {
    if calls == [] then text else AfterCalls(Excluding(text, calls[0]), calls[1..])
  }

  /** The lines any sequence of calls has added, in the order they came. */
  function AddedBy(text: string, added: seq<string>, calls: seq<seq<string>>): seq<string>
    decreases calls
  {
    if calls == [] then added
    else AddedBy(text, added + Missing(WithBlock(text, added), calls[0]), calls[1..])
  }

  lemma {:induction false} CallsGrowTheBlock(text: string, added: seq<string>, calls: seq<seq<string>>)
    requires IsBlock(text, added) && forall c :: c in calls ==> IsCall(c)
    ensures AfterCalls(WithBlock(text, added), calls) == WithBlock(text, AddedBy(text, added, calls))
    ensures IsBlock(text, AddedBy(text, added, calls))
    ensures forall l :: l in AddedBy(text, added, calls) <==> l in added || (!Has(text, l) && exists c :: c in calls && l in c)
    decreases calls
  {
    hide Has, WithBlock, Missing, IsBlock, Excluding, IsCall;
    if calls != [] {
      var more := Missing(WithBlock(text, added), calls[0]);
      assert calls[0] in calls && calls == [calls[0]] + calls[1..];
      MissingIsNew(text, added, calls[0]);
      ExcludingGrowsTheBlock(text, added, calls[0]);
      CallsGrowTheBlock(text, added + more, calls[1..]);
    }
  }

  /** Whatever is asked for, in whatever order and however often, the file ends as it was with one
      block after it: the marker once, and each missing line of the table that was asked for once. */
  lemma OneBlockWhateverIsAsked(text: string, calls: seq<seq<string>>)
    requires forall c :: c in calls ==> IsCall(c)
    ensures
      var added := AddedBy(text, [], calls);
      && AfterCalls(text, calls) == WithBlock(text, added)
      && Distinct(added)
      && (forall l :: l in added <==> !Has(text, l) && exists c :: c in calls && l in c)
  {
    CallsGrowTheBlock(text, [], calls);
  }

  /** Asking again for what was asked adds nothing. */
  lemma RepeatsAddNothing(text: string, calls: seq<seq<string>>, again: seq<string>)
    requires forall c :: c in calls ==> IsCall(c)
    requires IsCall(again) && forall l :: l in again ==> exists c :: c in calls && l in c
    ensures Missing(AfterCalls(text, calls), again) == []
    ensures Excluding(AfterCalls(text, calls), again) == AfterCalls(text, calls)
  {
    hide Has, WithBlock, Missing;
    CallsGrowTheBlock(text, [], calls);
    assert WithBlock(text, []) == text by { NoBlock(text); }
    var added := AddedBy(text, [], calls);
    MissingIsNew(text, added, again);
    SomethingIn(Missing(WithBlock(text, added), again));
  }

  lemma SomethingIn(lines: seq<string>)
    ensures lines == [] || exists l :: l in lines
  {
    assert lines != [] ==> lines[0] in lines;
  }

  lemma NoBlock(text: string)
    ensures WithBlock(text, []) == text
  {
  }

  // Taking the lines out.

  ghost predicate HasNodals(text: string) {
    exists l :: l in Lines.Lines(text) && IsNodals(TrimEnd(l))
  }

  ghost predicate HasReturns(text: string) {
    exists i :: 0 <= i < |text| - 1 && text[i] == '\r' && text[i + 1] == '\n'
  }

  /** Read as lines and written again, a text comes back exactly when its last line is ended
      and no line ends in a return; otherwise it is not longer. */
  lemma {:induction false} LinesComeBackExactly(text: string)
    requires IsClosed(text)
    ensures |Ended(Lines.Lines(text))| <= |text|
    ensures Ended(Lines.Lines(text)) == text <==> !HasReturns(text)
    decreases |text|
  {
    if text != "" {
      assert text[|text| - 1] in text;
      var line, rest := LineThenRest(text);
      assert IsClosed(rest) by {
        assert rest != "" ==> rest[|rest| - 1] == text[|text| - 1];
      }
      LinesComeBackExactly(rest);
      FirstOfLines(line, rest);
      LineComesBack(line, rest);
    }
  }

  lemma LineComesBack(line: string, rest: string)
    requires '\n' !in line
    requires |Ended(Lines.Lines(rest))| <= |rest|
    requires Ended(Lines.Lines(rest)) == rest <==> !HasReturns(rest)
    ensures
      var text := line + "\n" + rest;
      var written := Ended([WithoutReturn(line)] + Lines.Lines(rest));
      && |written| <= |text|
      && (written == text <==> !HasReturns(text))
  {
    var text := line + "\n" + rest;
    var first, others := WithoutReturn(line), Ended(Lines.Lines(rest));
    assert Ended([first] + Lines.Lines(rest)) == first + "\n" + others;
    hide Lines.Lines, Ended;
    if first != line {
      assert text[|line| - 1] == '\r' && text[|line|] == '\n';
      assert HasReturns(text);
    } else {
      ReturnsInBoth(line, rest);
      if first + "\n" + others == text {
        assert text[|line| + 1..] == rest && (first + "\n" + others)[|line| + 1..] == others;
      }
    }
  }

  lemma ReturnsInBoth(line: string, rest: string)
    requires IsLine(line)
    ensures HasReturns(line + "\n" + rest) <==> HasReturns(rest)
  {
    var text := line + "\n" + rest;
    if HasReturns(rest) {
      var i :| 0 <= i < |rest| - 1 && rest[i] == '\r' && rest[i + 1] == '\n';
      assert text[|line| + 1 + i] == '\r' && text[|line| + 1 + i + 1] == '\n';
    }
    if HasReturns(text) {
      var i :| 0 <= i < |text| - 1 && text[i] == '\r' && text[i + 1] == '\n';
      assert forall k :: 0 <= k < |line| ==> text[k] == line[k] && line[k] in line;
      assert i > |line|;
      assert rest[i - |line| - 1] == '\r' && rest[i - |line|] == '\n';
    }
  }

  /** What is written back for the lines kept: a lone blank line is not. */
  function Rejoined(kept: seq<string>): string {
    if kept == [""] then "" else Ended(kept)
  }

  lemma {:induction false} JoiningEnds(kept: seq<string>)
    requires kept != []
    ensures Join(kept, "\n") + "\n" == Ended(kept)
    ensures Join(kept, "\n") == "" <==> kept == [""]
  {
    if |kept| == 1 {
      assert kept == [kept[0]];
      assert Ended(kept[1..]) == "";
    } else {
      JoiningEnds(kept[1..]);
    }
  }

  lemma UnhidingIs(text: string)
    requires |Others(Lines.Lines(text))| < |Lines.Lines(text)|
    ensures Unhiding(text) == Rejoined(Others(Lines.Lines(text)))
  {
    var kept := Others(Lines.Lines(text));
    if kept != [] {
      JoiningEnds(kept);
    }
  }

  lemma {:induction false} OthersOf(a: seq<string>, b: seq<string>)
    requires forall l :: l in b ==> IsNodals(TrimEnd(l))
    ensures Others(a + b) == Others(a)
    ensures |Others(a)| <= |a|
  {
    hide IsNodals, TrimEnd;
    if a != [] {
      OthersOf(a[1..], b);
      assert (a + b)[1..] == a[1..] + b;
    } else if b != [] {
      assert a + b == b;
      assert b[0] in b;
      OthersOf([], b[1..]);
      assert [] + b[1..] == b[1..];
    }
  }

  /** Dropping Nodal's lines shortens a text by two or more, and drops nothing else. */
  lemma {:induction false} OthersAreShorter(lines: seq<string>)
    ensures (forall l :: l in lines ==> !IsNodals(TrimEnd(l))) ==> Others(lines) == lines
    ensures (exists l :: l in lines && IsNodals(TrimEnd(l))) ==> |Ended(Others(lines))| + 2 <= |Ended(lines)|
    ensures |Ended(Others(lines))| <= |Ended(lines)|
  {
    if lines != [] {
      hide IsNodals, TrimEnd;
      var line, rest := lines[0], lines[1..];
      OthersAreShorter(rest);
      assert lines == [line] + rest;
      if IsNodals(TrimEnd(line)) {
        NodalsLinesArePlain(TrimEnd(line));
        TrimEndIsShorter(line);
        assert Others(lines) == Others(rest) by { NoneBefore(Others(rest)); }
      } else {
        assert Others(lines) == [line] + Others(rest);
        EndedJoins([line], Others(rest));
        EndedJoins([line], rest);
      }
    }
  }

  lemma {:induction false} TrimEndIsShorter(s: string)
    ensures |TrimEnd(s)| <= |s|
  {
    if s != "" {
      TrimEndIsShorter(s[..|s| - 1]);
    }
  }

  lemma BlockIsTakenOut(text: string, added: seq<string>)
    requires IsBlock(text, added) && added != []
    ensures Unhiding(WithBlock(text, added)) == Rejoined(Others(Lines.Lines(Closed(text))))
  {
    var own, block := Lines.Lines(Closed(text)), MarkerFor(text) + added;
    MarkerForIsNodals(text, added);
    BlockLines(text, block);
    NothingToTrim(block);
    hide Has, IsNodals, InTable, TrimEnd, Lines.Lines, Ended, Others;
    forall l | l in block
      ensures IsNodals(TrimEnd(l))
    {
      var i :| 0 <= i < |block| && block[i] == l;
      assert Trimmed(block)[i] == l;
    }
    OthersOf(own, block);
    UnhidingIs(WithBlock(text, added));
  }

  /** Taking the block out gives back the very text there was, exactly when that text holds no
      line of Nodal's own and is either empty or ends its last line, returns none, and is more
      than one blank line. */
  lemma TakingOutRestoresExactly(text: string, added: seq<string>)
    requires IsBlock(text, added) && added != []
    ensures Unhiding(WithBlock(text, added)) == text
       <==> !HasNodals(text) && IsClosed(text) && !HasReturns(text) && text != "\n"
  {
    hide IsNodals, TrimEnd, Unhiding, Others, IsBlock, Lines.Lines, Ended, WithBlock, HasReturns;
    BlockIsTakenOut(text, added);
    var own := Lines.Lines(Closed(text));
    OthersAreShorter(own);
    LinesComeBackExactly(Closed(text));
    EndedIsClosed(Others(own));
    BlankLine();
  }

  lemma BlankLine()
    ensures Lines.Lines("\n") == [""] && Ended([""]) == "\n"
  {
    FirstOfLines("", "");
    assert "" + "\n" + "" == "\n";
    assert Ended([""][1..]) == "";
  }
}
