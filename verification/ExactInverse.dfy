/** A settings file that had the hooks added and then removed is byte for byte the file it was,
    except where an empty `hooks` object stood as if this program had written it. */
module ExactInverse {
  import opened Wrappers
  import opened Text
  import opened Json
  import opened Strip
  import opened Scanner
  import opened Settings
  import opened Markers
  import opened HookText
  import opened SettingsRoundTrip

  // What a splice does not disturb.

  lemma {:induction false} OpeningIsLater(text: string, key: string, i: nat, st: State)
    requires i <= |text| && OpeningFrom(text, key, i, st).Some?
    ensures OpeningFrom(text, key, i, st).value > i
    decreases |text| - i
  {
    if i < |text| && Next(st, text[..i], text[i], key).Some? {
      OpeningIsLater(text, key, i + 1, Next(st, text[..i], text[i], key).value);
    }
  }

  /** The scan has read no further than the brace it answers with. */
  lemma {:induction false} OpeningOfPrefix(text: string, key: string, i: nat, st: State, at: nat, x: string)
    requires i <= |text| && OpeningFrom(text, key, i, st) == Some(at)
    ensures i < at <= |text| && OpeningFrom(text[..at] + x, key, i, st) == Some(at)
    decreases |text| - i
  {
    OpeningIsLater(text, key, i, st);
    var other := text[..at] + x;
    assert other[i] == text[i] && other[..i] == text[..i];
    if Next(st, text[..i], text[i], key).Some? {
      OpeningOfPrefix(text, key, i + 1, Next(st, text[..i], text[i], key).value, at, x);
    }
  }

  lemma FirstBraceIs(text: string, k: nat)
    requires 0 < k <= |text| && text[k - 1] == '{' && '{' !in text[..k - 1]
    ensures OpeningBrace(text) == Some(k)
  {
    var at := OpeningBrace(text);
    assert text[k - 1] in text;
    var v := at.value;
    forall i | 0 <= i < k - 1 ensures text[i] != '{' {
      assert text[..k - 1][i] == text[i];
    }
    forall i | 0 <= i < v - 1 ensures text[i] != '{' {
      assert text[..v - 1][i] == text[i];
    }
  }

  lemma BraceOfObject(f: File)
    requires ValidFile(f)
    ensures OpeningBrace(ShowFile(f)) == Some(|f.lead| + 1)
  {
    hide ShowMembers;
    var text := ShowFile(f);
    ShowFileSplit(f);
    assert text[|f.lead|] == '{';
    assert text[..|f.lead|] == f.lead;
    FirstBraceIs(text, |f.lead| + 1);
  }

  /** The top-level brace comes before the container's. */
  lemma BraceBeforeContainer(text: string, key: string)
    requires IsObject(text)
    ensures OpeningBrace(text).Some?
    ensures Opening(text, key).Some? ==> OpeningBrace(text).value < Opening(text, key).value
  {
    hide OpeningFrom, OccursAt, Show, ShowMembers;
    var f := LayoutOf(text);
    BraceOfObject(f);
    ShowFileSplit(f);
    StandsWhole(text);
    var rest := ShowMembers(f.members) + (f.blank + (['}'] + f.trail));
    StandsSplit(text, 0, f.lead, ['{'] + rest);
    SkipBlank(text, key, 0, START, f.lead);
    EnterBracket(text, key, |f.lead|, START, '{', rest);
    SameTwice(text, key, 0, START, |f.lead|, START, |f.lead| + 1, TOP);
    SameAnswer(text, key, 0, START, |f.lead| + 1, TOP);
    if Opening(text, key).Some? {
      OpeningIsLater(text, key, |f.lead| + 1, TOP);
    }
  }

  // The indentation is found again.

  /** Put back where it was measured, the region's own first line says the indentation. */
  lemma IndentFoundAgain(b: string, indent: string, rest: string, fallback: string)
    requires AllSpaces(indent) && indent != "" && AllSpaces(fallback)
    requires rest != "" && rest[0] != ' '
    ensures IndentAt(b + ("\n" + indent + rest), |b|, fallback) == indent
  {
    var text := b + ("\n" + indent + rest);
    assert text[|b|..] == "\n" + indent + rest;
    assert ("\n" + indent + rest)[1..] == indent + rest;
    SpacesOfFirstLine(indent + rest);
    SpacesThenText(indent, rest);
  }

  lemma {:induction false} AfterNewlineKeeps(s: string, x: string)
    requires AfterNewline(s).Some?
    ensures AfterNewline(s + x) == Some(AfterNewline(s).value + x)
  {
    assert s[0] == '\n' ==> (s + x)[1..] == s[1..] + x;
    if s[0] != '\n' {
      assert (s + x)[1..] == s[1..] + x;
      AfterNewlineKeeps(s[1..], x);
    }
  }

  lemma {:induction false} AfterNewlineHolds(u: string, w: string)
    requires '"' in w
    ensures AfterNewline(u + ("\n" + w)).Some? && '"' in AfterNewline(u + ("\n" + w)).value
  {
    var s := u + ("\n" + w);
    if u == "" {
      assert s == "\n" + w && s[1..] == w;
    } else {
      assert s[1..] == u[1..] + ("\n" + w);
      if u[0] != '\n' {
        AfterNewlineHolds(u[1..], w);
      } else {
        assert s[1..] == (u[1..] + "\n") + w;
      }
    }
  }

  lemma {:induction false} LeadingSpacesKeeps(s: string, x: string)
    requires '"' in s
    ensures LeadingSpaces(s + x) == LeadingSpaces(s)
  {
    assert (s + x)[1..] == s[1..] + x;
    if s[0] == ' ' {
      LeadingSpacesKeeps(s[1..], x);
    }
  }

  /** Text far enough after a place does not change the indentation there. */
  lemma IndentIsStable(b: string, at: nat, x: string, y: string, fallback: string)
    requires at <= |b| && AllSpaces(fallback)
    requires AfterNewline(b[at..]).Some? && '"' in AfterNewline(b[at..]).value
    ensures IndentAt(b + x, at, fallback) == IndentAt(b + y, at, fallback)
  {
    var line := AfterNewline(b[at..]).value;
    assert (b + x)[at..] == b[at..] + x && (b + y)[at..] == b[at..] + y;
    AfterNewlineKeeps(b[at..], x);
    AfterNewlineKeeps(b[at..], y);
    SpacesOfFirstLine(line + x);
    SpacesOfFirstLine(line + y);
    LeadingSpacesKeeps(line, x);
    LeadingSpacesKeeps(line, y);
  }

  // The two places a region goes.

  /** The one layout the removal cannot tell from its own work: the container's opening line
      and closing brace stand as this program writes them, around nothing. */
  predicate LooksWritten(text: string, brace: nat, at: nat)
    requires at <= |text|
  {
    var one := IndentAt(text, brace, ONE_LEVEL);
    && IndentAt(text, at, TWO_LEVELS) == one + STEP
    && EndsWith(text[..at], WholeHead(one))
    && (StartsWith(text[at..], one + "},") || StartsWith(text[at..], one + "}\n"))
  }

  lemma NoMarkerInParts(text: string, at: nat)
    requires at <= |text| && !Contains(text, MARKER)
    ensures Count(text[..at]) == 0 && Count(text[at..]) == 0
  {
    CountIsContains(text);
    CountAtLeast(text[..at], text[at..]);
    assert text[..at] + text[at..] == text;
  }

  /** The widest regions looked for in an installed file are the one it was installed with,
      under either ending. */
  lemma WholeCandidates(text: string, brace: nat, members: seq<string>, ends: Ends)
    requires OpeningBrace(text) == Some(brace)
    ensures var indent := IndentAt(text, brace, ONE_LEVEL);
      var candidates := Candidates(InsertAt(text, brace, Whole(HOOKS, members, indent, ends)), HOOKS, members);
      && |candidates| >= 2
      && candidates[0] == Whole(HOOKS, members, indent, Comma)
      && candidates[1] == Whole(HOOKS, members, indent, Newline)
  {
    hide Join, Opening, OpeningBrace, Indented, Inside;
    var b, a := text[..brace], text[brace..];
    var indent := IndentAt(text, brace, ONE_LEVEL);
    var region := Whole(HOOKS, members, indent, ends);
    var installed := b + region + a;
    assert installed[..brace - 1] == text[..brace - 1] && installed[brace - 1] == text[brace - 1];
    FirstBraceIs(installed, brace);
    WholeStartsLine(members, indent, ends, a);
    hide Whole;
    var rest :| region + a == "\n" + indent + rest && rest != "" && rest[0] == '"';
    assert installed == b + ("\n" + indent + rest);
    IndentFoundAgain(b, indent, rest, ONE_LEVEL);
  }

  /** A file with no container: the whole member goes in and comes out. */
  lemma WholeComesOut(text: string, brace: nat, members: seq<string>, ends: Ends)
    requires OpeningBrace(text) == Some(brace) && !Contains(text, MARKER)
    requires members != [] && IsBody(Join(members, ",\n"))
    ensures var region := Whole(HOOKS, members, IndentAt(text, brace, ONE_LEVEL), ends);
      Cut(InsertAt(text, brace, region), HOOKS, members) == Some(text)
  {
    hide Join, IsBody, Count, OpeningBrace, IndentAt, Whole, Candidates, Contains, RemoveFirst;
    var b, a := text[..brace], text[brace..];
    var indent := IndentAt(text, brace, ONE_LEVEL);
    var region := Whole(HOOKS, members, indent, ends);
    var installed := InsertAt(text, brace, region);
    assert text == b + a;
    NoMarkerInParts(text, brace);
    WholeCandidates(text, brace, members, ends);
    ContainsBetween(b, region, a);
    WholeOnce(b, a, members, indent, ends, Comma);
    WholeOnce(b, a, members, indent, ends, Newline);
    FirstOfTwo(installed, Candidates(installed, HOOKS, members), region);
    RemoveInserted(b, region, a);
  }

  lemma WholeLength(members: seq<string>, indent: string, one: Ends, other: Ends)
    ensures |Whole(HOOKS, members, indent, one)| == |Whole(HOOKS, members, indent, other)|
  {
    hide Join, Indented;
  }

  lemma WholeStartsLine(members: seq<string>, indent: string, ends: Ends, a: string)
    ensures exists rest :: Whole(HOOKS, members, indent, ends) + a == "\n" + indent + rest && rest != "" && rest[0] == '"'
  {
    hide Join, Indented;
    var body := Join(Indented(members, indent + STEP), ",\n");
    var rest := "\"" + HOOKS + "\": {\n" + body + "\n" + indent + "}" + EndsText(ends) + a;
    assert Whole(HOOKS, members, indent, ends) + a == "\n" + indent + rest;
  }

  /** Whichever of the two endings the whole region was put in with, the one with that
      ending stands only there and the other stands nowhere. */
  lemma WholeOnce(b: string, a: string, members: seq<string>, indent: string, ends: Ends, other: Ends)
    requires members != [] && IsBody(Join(members, ",\n")) && AllSpaces(indent)
    requires Count(b) == 0 && Count(a) == 0
    ensures var text := b + Whole(HOOKS, members, indent, ends) + a;
      && (other != ends ==> !Contains(text, Whole(HOOKS, members, indent, other)))
      && (other == ends ==> forall i, j :: text == i + Whole(HOOKS, members, indent, other) + j ==> i == b && j == a)
  {
    hide Join, IsBody, Count, Reindent, FromMarker, IsRegion, Whole;
    var r, c := Whole(HOOKS, members, indent, ends), Whole(HOOKS, members, indent, other);
    WholeIsRegion(members, indent, ends);
    WholeIsRegion(members, indent, other);
    WholeEnds(members, indent, ends);
    WholeLength(members, indent, ends, other);
    var text := b + r + a;
    forall i, j | text == i + c + j ensures i == b && j == a && other == ends {
      OnlyWhereItWasPut(b, r, a, i, c, j, Join(members, ",\n"), indent + STEP, WholeTail(indent, ends), WholeTail(indent, other));
      TailsDiffer(indent, ends, other);
    }
    if Contains(text, c) {
      var k: nat :| OccursAt(text, c, k);
      assert text == text[..k] + c + text[k + |c|..];
    }
  }

  lemma TailsDiffer(indent: string, ends: Ends, other: Ends)
    ensures WholeTail(indent, ends) == WholeTail(indent, other) ==> ends == other
  {
    var x, y := WholeTail(indent, ends), WholeTail(indent, other);
    assert x[|x| - 1] == EndsText(ends)[0] && y[|y| - 1] == EndsText(other)[0];
  }

  lemma InsideOnce(b: string, a: string, members: seq<string>, indent: string, ends: Ends, other: Ends)
    requires members != [] && IsBody(Join(members, ",\n")) && AllSpaces(indent)
    requires Count(b) == 0 && Count(a) == 0
    ensures var text := b + Inside(members, indent, ends) + a;
      && (other != ends ==> !Contains(text, Inside(members, indent, other)))
      && (other == ends ==> forall i, j :: text == i + Inside(members, indent, other) + j ==> i == b && j == a)
  {
    hide Join, IsBody, Count, Reindent, FromMarker, IsRegion;
    var r, c := Inside(members, indent, ends), Inside(members, indent, other);
    InsideIsRegion(members, indent, ends);
    InsideIsRegion(members, indent, other);
    InsideEnds(members, indent, ends);
    assert |r| == |c|;
    hide Inside;
    var text, j := b + r + a, Join(members, ",\n");
    forall x, y | text == x + c + y ensures x == b && y == a && other == ends {
      OnlyWhereItWasPut(b, r, a, x, c, y, j, indent, InsideTail(ends), InsideTail(other));
    }
    NotContained(text, c);
  }

  /** What stands in a text splits it. */
  lemma NotContained(text: string, c: string)
    ensures Contains(text, c) ==> exists x, y :: text == x + c + y
  {
    if Contains(text, c) {
      var k: nat :| OccursAt(text, c, k);
      assert text == text[..k] + c + text[k + |c|..];
    }
  }

  lemma FirstOfTwo(text: string, candidates: seq<string>, region: string)
    requires |candidates| >= 2
    requires Contains(text, region) && region in candidates[..2]
    requires candidates[0] == region || !Contains(text, candidates[0])
    ensures FirstHeld(text, candidates) == Some(region)
  {
    if Find(text, candidates[0]).None? {
      assert candidates[1] == region;
    }
  }

  // Into a container the file has.

  lemma InsideStartsLine(members: seq<string>, indent: string, ends: Ends, a: string)
    requires members != [] && IsBody(Join(members, ",\n"))
    ensures exists rest :: Inside(members, indent, ends) + a == "\n" + indent + rest && rest != "" && rest[0] == '"'
  {
    hide Join, LinesFull, Count, FromMarker;
    var j := Join(members, ",\n");
    InsideParts(members, indent, ends);
    var body := Reindent(j, indent);
    assert body[0] == '"';
    var rest := body + InsideTail(ends) + a;
    assert ("\n" + indent) + body + InsideTail(ends) + a == "\n" + indent + rest;
  }

  /** The regions looked for in a file whose container was added to. */
  lemma InsideCandidates(text: string, brace: nat, at: nat, members: seq<string>, ends: Ends)
    requires OpeningBrace(text) == Some(brace) && Opening(text, HOOKS) == Some(at) && brace < at
    requires members != [] && IsBody(Join(members, ",\n"))
    ensures var two := IndentAt(text, at, TWO_LEVELS);
      var installed := InsertAt(text, at, Inside(members, two, ends));
      var one := IndentAt(installed, brace, ONE_LEVEL);
      Candidates(installed, HOOKS, members)
      == [Whole(HOOKS, members, one, Comma), Whole(HOOKS, members, one, Newline),
          Inside(members, two, Comma), Inside(members, two, Newline)]
  {
    hide Join, OpeningBrace, Indented, Whole, OpeningFrom, IsBody;
    var b, a := text[..at], text[at..];
    var two := IndentAt(text, at, TWO_LEVELS);
    var region := Inside(members, two, ends);
    var installed := InsertAt(text, at, region);
    assert installed[..brace - 1] == text[..brace - 1] && installed[brace - 1] == text[brace - 1];
    FirstBraceIs(installed, brace);
    OpeningOfPrefix(text, HOOKS, 0, START, at, region + a);
    assert installed == b + (region + a);
    InsideStartsLine(members, two, ends, a);
    hide Inside;
    var rest :| region + a == "\n" + two + rest && rest != "" && rest[0] == '"';
    IndentFoundAgain(b, two, rest, TWO_LEVELS);
  }

  /** The top-level brace stands before the line that opens the container. */
  lemma BraceBeforeHead(b: string, brace: nat, before: string, one: string)
    requires 0 < brace < |b| && b[brace - 1] == '{'
    requires AllSpaces(one) && b == before + WholeHead(one)
    ensures brace <= |before|
  {
    var head := WholeHead(one);
    var front := "\n" + one + "\"hooks\": ";
    assert head == front + "{";
    SpacesHaveNoLetter(one);
    forall i | 0 <= i < |front| ensures head[i] != '{' {
      assert head[i] == front[i] && front[i] in front;
    }
    assert forall k :: |before| <= k < |b| ==> b[k] == head[k - |before|];
  }

  lemma HeadSaysIndent(b: string, brace: nat, before: string, one: string, x: string, y: string)
    requires 0 < brace < |b| && b[brace - 1] == '{'
    requires AllSpaces(one) && b == before + WholeHead(one)
    ensures IndentAt(b + x, brace, ONE_LEVEL) == IndentAt(b + y, brace, ONE_LEVEL)
  {
    BraceBeforeHead(b, brace, before, one);
    var w := one + "\"hooks\": {";
    assert w[|one|] == '"';
    var u := before[brace..];
    assert WholeHead(one) == "\n" + w;
    assert b[brace..] == u + ("\n" + w);
    AfterNewlineHolds(u, w);
    IndentIsStable(b, brace, x, y, ONE_LEVEL);
  }

  /** A wider region found in a file whose container was added to says the container was
      empty and looked written. */
  lemma WiderMeansLooksWritten(text: string, brace: nat, at: nat, members: seq<string>, ends: Ends, other: Ends)
    requires 0 < brace < at <= |text| && text[brace - 1] == '{' && !Contains(text, MARKER)
    requires members != [] && IsBody(Join(members, ",\n"))
    requires var installed := InsertAt(text, at, Inside(members, IndentAt(text, at, TWO_LEVELS), ends));
      Contains(installed, Whole(HOOKS, members, IndentAt(installed, brace, ONE_LEVEL), other))
    ensures ends == Newline && LooksWritten(text, brace, at)
  {
    var b, a := text[..at], text[at..];
    var two := IndentAt(text, at, TWO_LEVELS);
    var r := Inside(members, two, ends);
    var installed := InsertAt(text, at, r);
    var one := IndentAt(installed, brace, ONE_LEVEL);
    hide Join, IsBody, Inside, Whole, Count, WholeHead, LooksWritten, IndentAt, Contains;
    NoMarkerInParts(text, at);
    var before, after := Around(installed, Whole(HOOKS, members, one, other));
    WiderOnlyWhereItFits(b, a, before, after, members, two, one, ends, other);
    IndentOutside(text, brace, at, before, one, r);
    ItLooksWritten(text, brace, at, before, one, other, after);
  }

  lemma Around(text: string, pattern: string) returns (before: string, after: string)
    requires Contains(text, pattern)
    ensures text == before + pattern + after
  {
    var k: nat :| OccursAt(text, pattern, k);
    before, after := text[..k], text[k + |pattern|..];
  }

  /** What is put in after the container's opening line does not change the indentation
      found at the top. */
  lemma IndentOutside(text: string, brace: nat, at: nat, before: string, one: string, r: string)
    requires 0 < brace < at <= |text| && text[brace - 1] == '{'
    requires AllSpaces(one) && text[..at] == before + WholeHead(one)
    ensures IndentAt(InsertAt(text, at, r), brace, ONE_LEVEL) == IndentAt(text, brace, ONE_LEVEL)
  {
    hide IndentAt, WholeHead;
    var b, a := text[..at], text[at..];
    assert InsertAt(text, at, r) == b + (r + a) && text == b + a;
    assert b[brace - 1] == '{';
    HeadSaysIndent(b, brace, before, one, r + a, a);
  }

  lemma ItLooksWritten(text: string, brace: nat, at: nat, before: string, one: string, ends: Ends, after: string)
    requires at <= |text| && IndentAt(text, brace, ONE_LEVEL) == one && IndentAt(text, at, TWO_LEVELS) == one + STEP
    requires text[..at] == before + WholeHead(one)
    requires text[at..] == one + "}" + EndsText(ends) + after
    ensures LooksWritten(text, brace, at)
  {
    hide IndentAt, WholeHead;
    assert one + "}" + EndsText(ends) == one + ("}" + EndsText(ends));
    StartsWithOwn(one + "}" + EndsText(ends), after);
    EndsAfter(before, WholeHead(one));
  }

  lemma StartsWithOwn(p: string, rest: string)
    ensures StartsWith(p + rest, p)
  {
  }

  /** A container that does not look written: its members go in and come out. */
  lemma InsideComesOut(text: string, brace: nat, at: nat, members: seq<string>, ends: Ends)
    requires OpeningBrace(text) == Some(brace) && Opening(text, HOOKS) == Some(at) && brace < at
    requires !Contains(text, MARKER)
    requires members != [] && IsBody(Join(members, ",\n"))
    requires !(ends == Newline && LooksWritten(text, brace, at))
    ensures var region := Inside(members, IndentAt(text, at, TWO_LEVELS), ends);
      Cut(InsertAt(text, at, region), HOOKS, members) == Some(text)
  {
    hide Join, IsBody, Count, IndentAt, Whole, Inside, Candidates, Contains, RemoveFirst, LooksWritten, Opening;
    var b, a := text[..at], text[at..];
    var two := IndentAt(text, at, TWO_LEVELS);
    var region := Inside(members, two, ends);
    var installed := InsertAt(text, at, region);
    var one := IndentAt(installed, brace, ONE_LEVEL);
    assert text == b + a;
    NoMarkerInParts(text, at);
    InsideCandidates(text, brace, at, members, ends);
    var candidates := Candidates(installed, HOOKS, members);
    ContainsBetween(b, region, a);
    InsideOnce(b, a, members, two, ends, Comma);
    InsideOnce(b, a, members, two, ends, Newline);
    if Contains(installed, Whole(HOOKS, members, one, Comma)) {
      WiderMeansLooksWritten(text, brace, at, members, ends, Comma);
    }
    if Contains(installed, Whole(HOOKS, members, one, Newline)) {
      WiderMeansLooksWritten(text, brace, at, members, ends, Newline);
    }
    LastTwo(installed, candidates, region);
    RemoveInserted(b, region, a);
  }

  lemma LastTwo(text: string, candidates: seq<string>, region: string)
    requires |candidates| == 4 && Contains(text, region)
    requires !Contains(text, candidates[0]) && !Contains(text, candidates[1])
    requires region == candidates[2] || (region == candidates[3] && !Contains(text, candidates[2]))
    ensures FirstHeld(text, candidates) == Some(region)
  {
    HeldOrNot(text, candidates[0]);
    HeldOrNot(text, candidates[1]);
    HeldOrNot(text, candidates[2]);
    HeldOrNot(text, candidates[3]);
    hide Find;
    assert candidates[1..][1..] == candidates[2..] && candidates[2..][1..] == candidates[3..];
    assert FirstHeld(text, candidates[3..]) == if Find(text, candidates[3]).Some? then Some(candidates[3]) else FirstHeld(text, candidates[3..][1..]);
    assert FirstHeld(text, candidates[2..]) == Some(region);
    assert FirstHeld(text, candidates[1..]) == Some(region);
  }

  lemma HeldOrNot(text: string, pattern: string)
    ensures Find(text, pattern).Some? <==> Contains(text, pattern)
  {
    if Find(text, pattern).Some? {
      assert OccursAt(text, pattern, Find(text, pattern).value);
    }
  }

  /** A container that looks written is taken for the whole region, and goes with it. */
  lemma LooksWrittenIsLost(text: string, brace: nat, at: nat, members: seq<string>)
    requires OpeningBrace(text) == Some(brace) && Opening(text, HOOKS) == Some(at) && brace < at
    requires members != [] && IsBody(Join(members, ",\n"))
    requires LooksWritten(text, brace, at)
    ensures var left := Cut(InsertAt(text, at, Inside(members, IndentAt(text, at, TWO_LEVELS), Newline)), HOOKS, members);
      left.Some? && |left.value| < |text|
  {
    hide Join, IsBody, Candidates, Contains, RemoveFirst, Opening, IndentAt, Inside, Whole, WholeHead, StartsWith, EndsWith;
    var one := IndentAt(text, brace, ONE_LEVEL);
    var two := IndentAt(text, at, TWO_LEVELS);
    var r := Inside(members, two, Newline);
    var installed := InsertAt(text, at, r);
    var ends := WholeStandsThere(text, brace, at, members);
    InsideCandidates(text, brace, at, members, Newline);
    FirstIsWide(installed, Candidates(installed, HOOKS, members), members, one, two, ends);
    WholeLength(members, one, Comma, Newline);
    WiderIsLonger(members, one, Comma);
    RemovalShortens(installed, Whole(HOOKS, members, one, Comma));
    RemovalShortens(installed, Whole(HOOKS, members, one, Newline));
  }

  /** Around the members put in it, the container is the whole region, indented alike. */
  lemma WholeStandsThere(text: string, brace: nat, at: nat, members: seq<string>) returns (ends: Ends)
    requires 0 < brace < at <= |text| && text[brace - 1] == '{'
    requires LooksWritten(text, brace, at)
    ensures var one := IndentAt(text, brace, ONE_LEVEL);
      var installed := InsertAt(text, at, Inside(members, IndentAt(text, at, TWO_LEVELS), Newline));
      IndentAt(installed, brace, ONE_LEVEL) == one && Contains(installed, Whole(HOOKS, members, one, ends))
  {
    hide IndentAt, Inside, Whole, WholeHead;
    var b, a := text[..at], text[at..];
    var one := IndentAt(text, brace, ONE_LEVEL);
    var r := Inside(members, one + STEP, Newline);
    assert text == b + a && InsertAt(text, at, r) == b + (r + a);
    var before := b[..|b| - |WholeHead(one)|];
    assert b == before + WholeHead(one);
    IndentOutside(text, brace, at, before, one, r);
    ends := if StartsWith(a, one + "},") then Comma else Newline;
    var close := one + "}" + EndsText(ends);
    assert close == one + "}," || close == one + "}\n";
    var after := a[|close|..];
    assert a == close + after;
    WholeIsHeadInsideClose(members, one, ends);
    RegroupWhole(before, WholeHead(one), r, close, after);
    ContainsBetween(before, Whole(HOOKS, members, one, ends), after);
  }

  lemma RegroupWhole(before: string, head: string, r: string, close: string, after: string)
    ensures (before + head) + (r + (close + after)) == before + (head + r + close) + after
  {
  }

  /** A whole region is its opening line, the members as they stand inside, and its close. */
  lemma WholeIsHeadInsideClose(members: seq<string>, one: string, ends: Ends)
    ensures Whole(HOOKS, members, one, ends)
      == WholeHead(one) + Inside(members, one + STEP, Newline) + (one + "}" + EndsText(ends))
  {
    hide Join, Indented;
    var body := Join(Indented(members, one + STEP), ",\n");
    var close := one + "}" + EndsText(ends);
    assert "\n" + one + "\"" + HOOKS + "\": {\n" == WholeHead(one) + "\n";
    assert WholeHead(one) + "\n" + body + "\n" + one + "}" + EndsText(ends) == WholeHead(one) + ("\n" + body + "\n") + close;
  }

  lemma WiderIsLonger(members: seq<string>, one: string, ends: Ends)
    ensures |Whole(HOOKS, members, one, ends)| > |Inside(members, one + STEP, Newline)|
  {
    hide Inside, Whole;
    WholeIsHeadInsideClose(members, one, ends);
  }

  lemma FirstIsWide(text: string, candidates: seq<string>, members: seq<string>, one: string, two: string, ends: Ends)
    requires |candidates| == 4
    requires candidates[0] == Whole(HOOKS, members, one, Comma) && candidates[1] == Whole(HOOKS, members, one, Newline)
    requires Contains(text, Whole(HOOKS, members, one, ends))
    ensures FirstHeld(text, candidates) == Some(Whole(HOOKS, members, one, Comma))
      || FirstHeld(text, candidates) == Some(Whole(HOOKS, members, one, Newline))
    ensures FirstHeld(text, candidates).Some? && Contains(text, FirstHeld(text, candidates).value)
  {
    hide Whole, Contains;
    HeldOrNot(text, candidates[0]);
    HeldOrNot(text, candidates[1]);
    hide Find;
    assert FirstHeld(text, candidates[1..]) == if Find(text, candidates[1]).Some? then Some(candidates[1]) else FirstHeld(text, candidates[1..][1..]);
  }

  lemma RemovalShortens(text: string, region: string)
    ensures Contains(text, region) ==> |RemoveFirst(text, region)| == |text| - |region|
  {
  }

  // The promise.

  function HeldIn(document: Map): nat {
    match Get(document, HOOKS) case Some(Object(held)) => |held| case _ => 0
  }

  /** The exception, as a caller could see it before adding: an empty `hooks` object whose
      opening line and closing brace stand as this program writes them. */
  ghost predicate EmptyAndLooksWritten(text: string)
    requires Parse(text).Some?
  {
    && Opening(text, HOOKS).Some? && OpeningBrace(text).Some?
    && HeldIn(Parse(text).value) == 0
    && LooksWritten(text, OpeningBrace(text).value, Opening(text, HOOKS).value)
  }

  ghost predicate Installable(text: string, hooks: seq<Hook>) {
    && Parse(text).Some?
    && hooks != [] && (forall h :: h in hooks ==> WellMade(h))
    && !Contains(text, MARKER) && !HoldsMarker(Parse(text).value)
  }

  function Installed(text: string, document: Map, hooks: seq<Hook>): string {
    Splice(text, document, HOOKS, MembersText(hooks))
  }

  lemma RegionHoldsMarker(members: seq<string>, indent: string, ends: Ends, wide: bool)
    requires members != [] && IsBody(Join(members, ",\n")) && AllSpaces(indent)
    ensures Count(if wide then Whole(HOOKS, members, indent, ends) else Inside(members, indent, ends)) > 0
  {
    hide Join, Whole, Inside, LinesFull;
    if wide {
      WholeIsRegion(members, indent, ends);
    } else {
      InsideIsRegion(members, indent, ends);
    }
  }

  lemma MarkerSpreads(text: string, region: string)
    requires Contains(text, region) && Count(region) > 0
    ensures Contains(text, MARKER)
  {
    CountIsContains(region);
    var i: nat :| OccursAt(text, region, i);
    var k: nat :| OccursAt(region, MARKER, k);
    SliceOfSlice(text, i, i + |region|, k, k + |MARKER|);
    assert OccursAt(text, MARKER, i + k);
  }

  lemma SliceOfSlice(s: string, from: nat, to: nat, a: nat, b: nat)
    requires from <= to <= |s| && a <= b <= to - from
    ensures s[from..to][a..b] == s[from + a..from + b]
  {
    var l, r := s[from..to][a..b], s[from + a..from + b];
    assert |l| == |r| && forall i :: 0 <= i < |l| ==> l[i] == r[i];
  }

  lemma {:induction false} NoneHeld(text: string, regions: seq<string>)
    requires !Contains(text, MARKER) && forall r :: r in regions ==> Count(r) > 0
    ensures FirstHeld(text, regions) == None
  {
    hide Count, Find, Contains;
    if regions != [] {
      assert regions[0] in regions && forall r :: r in regions[1..] ==> r in regions;
      HeldOrNot(text, regions[0]);
      if Contains(text, regions[0]) {
        MarkerSpreads(text, regions[0]);
      }
      NoneHeld(text, regions[1..]);
    }
  }

  /** A file without the marker holds nothing to take out. */
  lemma NothingToRemove(text: string, hooks: seq<Hook>)
    requires Installable(text, hooks)
    ensures Remove(text, hooks) == None
  {
    hide Join, Candidates, Find, IsBody, Count, Contains, Parse, HoldsMarker, MembersText, WellMade;
    var members := MembersText(hooks);
    MembersBody(hooks);
    MembersThere(hooks);
    var candidates := Candidates(text, HOOKS, members);
    CandidatesHoldMarker(text, members);
    NoneHeld(text, candidates);
  }

  lemma CandidatesHoldMarker(text: string, members: seq<string>)
    requires members != [] && IsBody(Join(members, ",\n"))
    ensures forall r :: r in Candidates(text, HOOKS, members) ==> Count(r) > 0
  {
    hide Join, Whole, Inside, IsBody, Count, OpeningBrace, Opening, IndentAt;
    var one := IndentAt(text, OpeningBrace(text).GetOr(0), ONE_LEVEL);
    var two := IndentAt(text, Opening(text, HOOKS).GetOr(0), TWO_LEVELS);
    RegionHoldsMarker(members, one, Comma, true);
    RegionHoldsMarker(members, one, Newline, true);
    RegionHoldsMarker(members, two, Comma, false);
    RegionHoldsMarker(members, two, Newline, false);
  }

  lemma MembersThere(hooks: seq<Hook>)
    requires hooks != []
    ensures MembersText(hooks) != []
  {
    hide MemberText;
  }

  lemma NotBlank(text: string)
    requires !Blank(text) && Parse(text).Some?
    ensures IsObject(text)
  {
  }

  /** What the splice does to a file that is there. */
  lemma SpliceInto(text: string, document: Map, members: seq<string>)
    requires !Blank(text) && OpeningBrace(text).Some?
    ensures Splice(text, document, HOOKS, members) == match Opening(text, HOOKS)
      case Some(at) => InsertAt(text, at, Inside(members, IndentAt(text, at, TWO_LEVELS), EndsOf(HeldIn(document))))
      case None =>
        InsertAt(text, OpeningBrace(text).value,
          Whole(HOOKS, members, IndentAt(text, OpeningBrace(text).value, ONE_LEVEL), EndsOf(|document|)))
  {
    hide Inside, Whole, Opening, OpeningBrace, IndentAt;
    match Opening(text, HOOKS)
    case Some(at) =>
      var region := Inside(members, IndentAt(text, at, TWO_LEVELS), EndsOf(HeldIn(document)));
      assert InsertAt(text, at, region) + "" == InsertAt(text, at, region);
    case None =>
      var at := OpeningBrace(text).value;
      var region := Whole(HOOKS, members, IndentAt(text, at, ONE_LEVEL), EndsOf(|document|));
      assert InsertAt(text, at, region) + "" == InsertAt(text, at, region);
  }

  /** Taking out what was just spliced into a file. */
  lemma CutUndoesSplice(text: string, hooks: seq<Hook>)
    requires Installable(text, hooks) && !Blank(text)
    ensures var left := Cut(Installed(text, Parse(text).value, hooks), HOOKS, MembersText(hooks));
      left.Some? && (left.value == text <==> !EmptyAndLooksWritten(text))
  {
    hide Join, Whole, Inside, IsBody, Count, Contains, Parse, HoldsMarker, MembersText, WellMade, Cut, OpeningBrace, Opening, IndentAt, LooksWritten, Splice, InsertAt;
    var members := MembersText(hooks);
    var document := Parse(text).value;
    MembersBody(hooks);
    MembersThere(hooks);
    NotBlank(text);
    BraceBeforeContainer(text, HOOKS);
    SpliceInto(text, document, members);
    var brace := OpeningBrace(text).value;
    match Opening(text, HOOKS)
    case None =>
      WholeComesOut(text, brace, members, EndsOf(|document|));
    case Some(at) =>
      if EmptyAndLooksWritten(text) {
        LooksWrittenIsLost(text, brace, at, members);
      } else {
        InsideComesOut(text, brace, at, members, EndsOf(HeldIn(document)));
      }
  }

  /** The round trip, exactly: for every file that reads as a JSON object and nowhere holds
      the marker, installing writes something, and removing what was installed gives back
      the same bytes if and only if the file did not hold an empty `hooks` object standing
      as this program writes one. */
  lemma RoundTripExactly(text: string, hooks: seq<Hook>)
    requires Installable(text, hooks) && !Blank(text)
    ensures Add(text, hooks) == Success(Some(Installed(text, Parse(text).value, hooks)))
    ensures Remove(Installed(text, Parse(text).value, hooks), hooks) == Some(text) <==> !EmptyAndLooksWritten(text)
  {
    hide Splice, Cut, Candidates, Parse, HoldsHooks, EmptyAndLooksWritten, WellMade, HoldsMarker, MembersText;
    NothingToRemove(text, hooks);
    CutUndoesSplice(text, hooks);
    SpliceHoldsMarker(text, hooks);
  }

  /** What was installed is not what was there. */
  lemma SpliceHoldsMarker(text: string, hooks: seq<Hook>)
    requires Installable(text, hooks) && !Blank(text)
    ensures Installed(text, Parse(text).value, hooks) != text
  {
    hide Join, Whole, Inside, IsBody, Count, Contains, Parse, HoldsMarker, MembersText, WellMade, OpeningBrace, Opening, IndentAt, Splice;
    var members := MembersText(hooks);
    var document := Parse(text).value;
    NotBlank(text);
    BraceBeforeContainer(text, HOOKS);
    SpliceInto(text, document, members);
    forall indent, ends ensures Inside(members, indent, ends) != "" && Whole(HOOKS, members, indent, ends) != "" {
      RegionsAreText(members, indent, ends);
    }
  }

  lemma RegionsAreText(members: seq<string>, indent: string, ends: Ends)
    ensures Inside(members, indent, ends) != "" && Whole(HOOKS, members, indent, ends) != ""
  {
    hide Join, Indented;
  }

  /** Installing twice is installing once. */
  lemma SecondAddAnswersNone(text: string, hooks: seq<Hook>)
    requires Installable(text, hooks) && !Blank(text) && !EmptyAndLooksWritten(text)
    ensures Add(Installed(text, Parse(text).value, hooks), hooks) == Success(None)
  {
    hide Splice, Remove, Parse, EmptyAndLooksWritten, WellMade, HoldsMarker, Contains, MembersText;
    RoundTripExactly(text, hooks);
  }

  /** Where there was no file, or only whitespace, the removal leaves an empty document,
      which the caller deletes. */
  lemma NoFileComesBackEmpty(text: string, hooks: seq<Hook>)
    requires Blank(text) && hooks != [] && (forall h :: h in hooks ==> WellMade(h))
    ensures Remove(Installed(text, [], hooks), hooks) == Some("{}\n")
  {
    hide Join, Whole, IsBody, Count, Contains, WellMade, MembersText, IndentAt, Inside;
    var members := MembersText(hooks);
    MembersBody(hooks);
    MembersThere(hooks);
    var empty := "{}\n";
    assert empty[1 - 1] == '{' && empty[..1 - 1] == "";
    FirstBraceIs(empty, 1);
    FirstBraceIs("{", 1);
    NoMarkerInBraces(empty);
    WholeComesOut(empty, 1, members, Newline);
    assert Opening("{", HOOKS) == None by { NoContainerInBrace(); }
    assert IndentAt("{", 1, ONE_LEVEL) == IndentAt(empty, 1, ONE_LEVEL) == ONE_LEVEL by { BracesSayNothing(); }
    var region := Whole(HOOKS, members, ONE_LEVEL, Newline);
    assert InsertAt("{", 1, region) + "}\n" == InsertAt(empty, 1, region) by {
      assert "{"[..1] == "{" && "{"[1..] == "" && empty[..1] == "{" && empty[1..] == "}\n";
    }
  }

  lemma NoContainerInBrace()
    ensures Opening("{", HOOKS) == None
  {
    assert Next(START, "{"[..0], '{', HOOKS) == Some(TOP);
    assert OpeningFrom("{", HOOKS, 1, TOP) == None;
  }

  lemma BracesSayNothing()
    ensures IndentAt("{", 1, ONE_LEVEL) == ONE_LEVEL && IndentAt("{}\n", 1, ONE_LEVEL) == ONE_LEVEL
  {
    assert "{"[1..] == "" && "{}\n"[1..] == "}\n" && "}\n"[1..] == "\n" && "\n"[1..] == "";
  }

  lemma NoMarkerInBraces(s: string)
    requires s == "{}\n"
    ensures !Contains(s, MARKER)
  {
    NoLetterNoMarker(s);
    CountIsContains(s);
  }
}
