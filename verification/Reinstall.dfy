/** Installing over no file, installing twice, and the one layout for which taking out is not exact:
    what is lost there, what a second install then does, and two files that show it. Whatever the
    file, a second install is decided by what the removal would leave. */
module Reinstall {
  import opened Wrappers
  import opened Text
  import opened Json
  import opened JsonReading
  import opened Strip
  import opened Scanner
  import opened StringTracking
  import opened Settings
  import opened Markers
  import opened HookText
  import opened SettingsRoundTrip
  import opened ExactInverse

  // No file yet.

  lemma BlankHasNoBrace(text: string)
    requires Blank(text)
    ensures OpeningBrace(text).None?
  {
    assert !IsSpace('{');
    assert forall i :: 0 <= i < |text| ==> text[i] != '{';
  }

  lemma {:induction false} BlankOpensNothing(text: string, key: string, i: nat)
    requires i <= |text| && Blank(text)
    ensures OpeningFrom(text, key, i, START) == None
    decreases |text| - i
  {
    if i < |text| {
      assert IsSpace(text[i]);
      BlankOpensNothing(text, key, i + 1);
    }
  }

  lemma BracesAreAFile()
    ensures Parse("{}\n") == Some([])
  {
    var f := File("", [], "", "\n");
    assert ShowFile(f) == "{}\n";
    ReadingIsTheMeaning(f);
  }

  lemma NothingInABlankFile(text: string, hooks: seq<Hook>)
    requires Blank(text)
    ensures Remove(text, hooks) == None && Parse(text) == Some([])
  {
    hide Whole, Inside;
    BlankHasNoBrace(text);
    BlankOpensNothing(text, HOOKS, 0);
    assert Candidates(text, HOOKS, MembersText(hooks)) == [];
    assert Events([]) == [];
  }

  lemma SpliceIntoBlank(text: string, members: seq<string>)
    requires Blank(text)
    ensures Splice(text, [], HOOKS, members) == InsertAt("{}\n", 1, Whole(HOOKS, members, ONE_LEVEL, Newline))
    ensures Splice("{}\n", [], HOOKS, members) == InsertAt("{}\n", 1, Whole(HOOKS, members, ONE_LEVEL, Newline))
  {
    hide Whole, IndentAt, OpeningBrace, Opening;
    var empty := "{}\n";
    NoContainerInBrace();
    NoContainerInBraces();
    BracesSayNothing();
    assert "{"[1 - 1] == '{' && "{"[..0] == "" && empty[1 - 1] == '{' && empty[..0] == "";
    FirstBraceIs("{", 1);
    FirstBraceIs(empty, 1);
    assert empty[0] == '{' && !IsSpace(empty[0]) && !Blank(empty);
    var region := Whole(HOOKS, members, ONE_LEVEL, Newline);
    assert InsertAt("{", 1, region) + "}\n" == InsertAt(empty, 1, region) by {
      assert "{"[..1] == "{" && "{"[1..] == "" && empty[..1] == "{" && empty[1..] == "}\n";
    }
    assert InsertAt(empty, 1, region) + "" == InsertAt(empty, 1, region);
  }

  lemma NoContainerInBraces()
    ensures Opening("{}\n", HOOKS) == None
  {
    var f := File("", [], "", "\n");
    assert ShowFile(f) == "{}\n";
    OpeningIsFirstTable(f, HOOKS);
  }

  /** Where there is no file, or only whitespace, installing writes one; installing again finds it as
      it is; and taking out leaves an empty document. */
  lemma InstallOverNothing(text: string, hooks: seq<Hook>)
    requires Blank(text) && hooks != [] && (forall h :: h in hooks ==> WellMade(h))
    ensures
      var installed := Installed(text, [], hooks);
      && Add(text, hooks) == Success(Some(installed))
      && Add(installed, hooks) == Success(None)
      && Remove(installed, hooks) == Some("{}\n")
  {
    hide Whole, Splice, Remove, Parse, WellMade, MembersText;
    var members := MembersText(hooks);
    NothingInABlankFile(text, hooks);
    NoFileComesBackEmpty(text, hooks);
    SpliceIntoBlank(text, members);
    BracesAreAFile();
    var region := Whole(HOOKS, members, ONE_LEVEL, Newline);
    var installed := InsertAt("{}\n", 1, region);
    assert installed[0] == '{' && !IsSpace('{');
    assert installed != text;
  }

  // What goes with an empty container that looks written.

  /** The file without the container's member and the one character after it. */
  function LeftOf(text: string, brace: nat, at: nat): string
    requires at <= |text| && LooksWritten(text, brace, at)
  {
    var one := IndentAt(text, brace, ONE_LEVEL);
    text[..at - |WholeHead(one)|] + text[at + |one| + 2..]
  }

  /** How the container's closing line ends. */
  function CloseOf(text: string, brace: nat, at: nat): Ends
    requires at <= |text| && LooksWritten(text, brace, at)
  {
    if StartsWith(text[at..], IndentAt(text, brace, ONE_LEVEL) + "},") then Comma else Newline
  }

  /** The file around its container, written with the members put in. */
  lemma AroundTheContainer(text: string, brace: nat, at: nat, members: seq<string>) returns (before: string, after: string)
    requires 0 < brace < at <= |text| && text[brace - 1] == '{' && LooksWritten(text, brace, at)
    ensures
      var one := IndentAt(text, brace, ONE_LEVEL);
      var ends := CloseOf(text, brace, at);
      && text[..at] == before + WholeHead(one) && text[at..] == one + "}" + EndsText(ends) + after
      && before == text[..at - |WholeHead(one)|] && after == text[at + |one| + 2..]
      && LeftOf(text, brace, at) == before + after
      && InsertAt(text, at, Inside(members, IndentAt(text, at, TWO_LEVELS), Newline))
         == before + Whole(HOOKS, members, one, ends) + after
      && IndentAt(before + Whole(HOOKS, members, one, ends) + after, brace, ONE_LEVEL) == one
      && brace <= |before|
  {
    hide IndentAt, Inside, Whole, WholeHead, InsertAt;
    var b, a := text[..at], text[at..];
    var one := IndentAt(text, brace, ONE_LEVEL);
    var ends := CloseOf(text, brace, at);
    var r := Inside(members, one + STEP, Newline);
    before, after := SplitAround(text, at, WholeHead(one), one);
    assert CloseOf(text, brace, at) == if StartsWith(a, one + "},") then Comma else Newline;
    IndentOutside(text, brace, at, before, one, r);
    WholeIsHeadInsideClose(members, one, ends);
    WholeAround(text, at, before, WholeHead(one), r, one + "}" + EndsText(ends), after);
    BraceBeforeHead(b, brace, before, one);
  }

  lemma SplitAround(text: string, at: nat, head: string, one: string) returns (before: string, after: string)
    requires at <= |text| && EndsWith(text[..at], head)
    requires StartsWith(text[at..], one + "},") || StartsWith(text[at..], one + "}\n")
    ensures |head| <= at && at + |one| + 2 <= |text|
    ensures text[..at] == before + head && before == text[..at - |head|] && after == text[at + |one| + 2..]
    ensures
      var ends := if StartsWith(text[at..], one + "},") then Comma else Newline;
      text[at..] == one + "}" + EndsText(ends) + after
  {
    var b, a := text[..at], text[at..];
    before := b[..|b| - |head|];
    assert before == text[..at - |head|] && b == before + head;
    var ends := if StartsWith(a, one + "},") then Comma else Newline;
    var close := one + "}" + EndsText(ends);
    assert close == one + "}," || close == one + "}\n";
    after := a[|close|..];
    assert after == text[at + |one| + 2..];
    assert a == close + after;
  }

  lemma WholeAround(text: string, at: nat, before: string, head: string, r: string, close: string, after: string)
    requires at <= |text| && text[..at] == before + head && text[at..] == close + after
    ensures InsertAt(text, at, r) == before + (head + r + close) + after
  {
    assert (before + head) + r + (close + after) == (before + head) + (r + (close + after));
    RegroupWhole(before, head, r, close, after);
  }

  /** The excepted layout, exactly: what the removal takes is the container with everything around
      the members that this program would have written around them. */
  lemma WhatIsLost(text: string, hooks: seq<Hook>)
    requires Installable(text, hooks) && !Blank(text) && EmptyAndLooksWritten(text)
    ensures
      var (brace, at) := (OpeningBrace(text).value, Opening(text, HOOKS).value);
      && 0 < brace < at && text[brace - 1] == '{'
      && Remove(Installed(text, Parse(text).value, hooks), hooks) == Some(LeftOf(text, brace, at))
  {
    hide Join, IsBody, Candidates, Contains, RemoveFirst, Opening, OpeningBrace, IndentAt, Inside, Whole, WholeHead;
    hide LooksWritten, LeftOf, CloseOf, Parse, HoldsMarker, WellMade, MembersText, Splice, Count;
    var members := MembersText(hooks);
    MembersBody(hooks);
    MembersThere(hooks);
    NotBlank(text);
    BraceBeforeContainer(text, HOOKS);
    SpliceInto(text, Parse(text).value, members);
    var (brace, at) := (OpeningBrace(text).value, Opening(text, HOOKS).value);
    var (one, ends) := (IndentAt(text, brace, ONE_LEVEL), CloseOf(text, brace, at));
    var before, after := AroundTheContainer(text, brace, at, members);
    var installed := before + Whole(HOOKS, members, one, ends) + after;
    assert Installed(text, Parse(text).value, hooks) == installed;
    NoMarkerOutside(text, at, before, WholeHead(one), one + "}" + EndsText(ends), after);
    WholeOnce(before, after, members, one, ends, Comma);
    WholeOnce(before, after, members, one, ends, Newline);
    ContainsBetween(before, Whole(HOOKS, members, one, ends), after);
    InsideCandidates(text, brace, at, members, Newline);
    var candidates := Candidates(installed, HOOKS, members);
    assert candidates[0] == Whole(HOOKS, members, one, Comma) && candidates[1] == Whole(HOOKS, members, one, Newline);
    assert candidates[if ends == Comma then 0 else 1] in candidates[..2];
    FirstOfTwo(installed, candidates, Whole(HOOKS, members, one, ends));
    RemoveInserted(before, Whole(HOOKS, members, one, ends), after);
  }

  lemma NoMarkerOutside(text: string, at: nat, before: string, head: string, close: string, after: string)
    requires at <= |text| && !Contains(text, MARKER)
    requires text[..at] == before + head && text[at..] == close + after
    ensures Count(before) == 0 && Count(after) == 0
  {
    NoMarkerInParts(text, at);
    CountAtLeast(before, head);
    CountAtLeast(close, after);
  }

  // A second install.

  lemma {:induction false} ReindentGrows(s: string, one: string, two: string)
    requires |one| <= |two|
    ensures |Reindent(s, one)| <= |Reindent(s, two)|
  {
    if s != "" {
      ReindentGrows(s[1..], one, two);
    }
  }

  lemma WholeGrows(members: seq<string>, one: string, two: string, ends: Ends, other: Ends)
    requires members != [] && |one| < |two|
    ensures |Whole(HOOKS, members, one, ends)| < |Whole(HOOKS, members, two, other)|
  {
    hide Join, Whole, Reindent;
    WholeParts(members, one, ends);
    WholeParts(members, two, other);
    ReindentGrows(Join(members, ",\n"), one + STEP, two + STEP);
  }

  /** What is left once the container went takes the region back in the same place, written alike. */
  ghost predicate TakesItBack(text: string, brace: nat, at: nat)
    requires at <= |text| && LooksWritten(text, brace, at)
  {
    var (left, one) := (LeftOf(text, brace, at), IndentAt(text, brace, ONE_LEVEL));
    && Parse(left).Some? && Opening(left, HOOKS).None?
    && at == brace + |WholeHead(one)|
    && IndentAt(left, brace, ONE_LEVEL) == one
    && EndsOf(|Parse(left).value|) == CloseOf(text, brace, at)
  }

  /** The region put into a file is the region at another place only if it is that place. */
  lemma WholeThereExactly(before: string, after: string, brace: nat, members: seq<string>, one: string, two: string, ends: Ends, other: Ends)
    requires brace <= |before| && members != [] && IsBody(Join(members, ",\n")) && AllSpaces(one) && AllSpaces(two)
    requires Count(before) == 0 && Count(after) == 0
    ensures InsertAt(before + after, brace, Whole(HOOKS, members, two, other)) == before + Whole(HOOKS, members, one, ends) + after
      <==> brace == |before| && two == one && other == ends
  {
    hide Join, IsBody, Whole, Count;
    var left := before + after;
    var (x, y) := (left[..brace], left[brace..]);
    var (r, c) := (Whole(HOOKS, members, two, other), Whole(HOOKS, members, one, ends));
    if brace == |before| {
      assert x == before && y == after;
    }
    if InsertAt(left, brace, r) == before + c + after {
      assert |r| == |c|;
      if |one| < |two| {
        WholeGrows(members, one, two, ends, other);
      } else if |two| < |one| {
        WholeGrows(members, two, one, other, ends);
      } else {
        SpacesBySize(one, two);
        SplitsAsItWasPut(before, after, x, y, members, one, ends, other);
        assert |x| == brace;
      }
    }
  }

  lemma SplitsAsItWasPut(before: string, after: string, x: string, y: string, members: seq<string>, one: string, ends: Ends, other: Ends)
    requires members != [] && IsBody(Join(members, ",\n")) && AllSpaces(one)
    requires Count(before) == 0 && Count(after) == 0
    requires x + Whole(HOOKS, members, one, other) + y == before + Whole(HOOKS, members, one, ends) + after
    ensures other == ends && x == before
  {
    hide Join, IsBody, Whole, Count;
    var text := before + Whole(HOOKS, members, one, ends) + after;
    WholeOnce(before, after, members, one, ends, other);
    assert text == x + Whole(HOOKS, members, one, other) + y;
    ContainsBetween(x, Whole(HOOKS, members, one, other), y);
  }

  /** A region begins and ends where no marker can reach across. */
  lemma RegionCounts(b: string, r: string, a: string, j: string, indent: string, tail: string)
    requires IsRegion(r, j, indent, tail) && (r[|r| - 1] == ',' || r[|r| - 1] == '\n')
    ensures Count(b + r + a) == Count(b) + Count(j) + Count(a)
  {
    hide Count, FromMarker, Reindent;
    ApartCharacters();
    assert b + r + a == b + (r + a);
    CountApart(b, r + a);
    EndsApart(r, a);
  }

  /** Nor is it the same members put into another container. */
  lemma InsideIsNotWhole(before: string, after: string, place: nat, members: seq<string>, one: string, two: string, ends: Ends, other: Ends)
    requires place <= |before + after| && members != [] && IsBody(Join(members, ",\n")) && AllSpaces(one) && AllSpaces(two)
    requires Count(before) == 0 && Count(after) == 0
    ensures InsertAt(before + after, place, Inside(members, two, other)) != before + Whole(HOOKS, members, one, ends) + after
  {
    hide Join, IsBody, Whole, Inside, Count, IsRegion;
    var left := before + after;
    var (b, a) := (left[..place], left[place..]);
    if InsertAt(left, place, Inside(members, two, other)) == before + Whole(HOOKS, members, one, ends) + after {
      InsideIsRegion(members, two, other);
      InsideEnds(members, two, other);
      WholeIsRegion(members, one, ends);
      WholeEnds(members, one, ends);
      RegionCounts(b, Inside(members, two, other), a, Join(members, ",\n"), two, InsideTail(other));
      RegionCounts(before, Whole(HOOKS, members, one, ends), after, Join(members, ",\n"), one + STEP, WholeTail(one, ends));
      WiderOnlyWhereItFits(b, a, before, after, members, two, one, other, ends);
    }
  }

  lemma SecondAddOfTheException(text: string, hooks: seq<Hook>)
    requires Installable(text, hooks) && !Blank(text) && EmptyAndLooksWritten(text)
    requires
      var (brace, at) := (OpeningBrace(text).value, Opening(text, HOOKS).value);
      && 0 < brace < at && text[brace - 1] == '{'
      && Remove(Installed(text, Parse(text).value, hooks), hooks) == Some(LeftOf(text, brace, at))
    ensures Add(Installed(text, Parse(text).value, hooks), hooks) == Success(None)
      <==> TakesItBack(text, OpeningBrace(text).value, Opening(text, HOOKS).value)
  {
    hide Join, IsBody, Candidates, Contains, Opening, OpeningBrace, IndentAt, Inside, Whole, WholeHead, Remove;
    hide LooksWritten, LeftOf, CloseOf, Parse, HoldsMarker, WellMade, MembersText, Splice, Count;
    var members := MembersText(hooks);
    MembersBody(hooks);
    MembersThere(hooks);
    SpliceInto(text, Parse(text).value, members);
    var (brace, at) := (OpeningBrace(text).value, Opening(text, HOOKS).value);
    var (one, ends) := (IndentAt(text, brace, ONE_LEVEL), CloseOf(text, brace, at));
    var before, after := AroundTheContainer(text, brace, at, members);
    NoMarkerOutside(text, at, before, WholeHead(one), one + "}" + EndsText(ends), after);
    var left := before + after;
    BraceOfLeft(text, left, brace, at, before);
    if Parse(left).Some? {
      var document := Parse(left).value;
      SpliceInto(left, document, members);
      match Opening(left, HOOKS)
      case Some(place) =>
        InsideIsNotWhole(before, after, place, members, one, IndentAt(left, place, TWO_LEVELS), ends, EndsOf(HeldIn(document)));
      case None =>
        WholeThereExactly(before, after, brace, members, one, IndentAt(left, brace, ONE_LEVEL), ends, EndsOf(|document|));
    }
  }

  lemma BraceOfLeft(text: string, left: string, brace: nat, at: nat, before: string)
    requires OpeningBrace(text) == Some(brace) && brace <= |before| <= at <= |text|
    requires before == text[..|before|] && |before| <= |left| && before == left[..|before|]
    ensures OpeningBrace(left) == Some(brace) && !Blank(left)
  {
    assert left[..brace - 1] == before[..brace - 1] == text[..brace - 1];
    assert left[brace - 1] == before[brace - 1] == text[brace - 1] == '{';
    FirstBraceIs(left, brace);
    assert !IsSpace('{');
  }

  /** Installing twice is installing once exactly when the file was not the excepted one, or what is
      left of it takes the region back as it was. */
  lemma SecondAddExactly(text: string, hooks: seq<Hook>)
    requires Installable(text, hooks) && !Blank(text)
    ensures EmptyAndLooksWritten(text) ==>
      0 < OpeningBrace(text).value < Opening(text, HOOKS).value <= |text|
    ensures Add(Installed(text, Parse(text).value, hooks), hooks) == Success(None)
      <==> (EmptyAndLooksWritten(text) ==> TakesItBack(text, OpeningBrace(text).value, Opening(text, HOOKS).value))
  {
    if !EmptyAndLooksWritten(text) {
      SecondAddAnswersNone(text, hooks);
    } else {
      WhatIsLost(text, hooks);
      SecondAddOfTheException(text, hooks);
    }
  }

  // It happens.

  const ONE_NUMBER := Member("\n  ", "a", "", " ", Scalar("1"), "")
  const EMPTY_HOOKS := Member("\n  ", "hooks", "", " ", Table([], "  "), "\n")

  /** A file that holds an empty `hooks` object on one line, after nothing or after one number. */
  function Excepted(front: seq<Member>): File {
    File("", front + [EMPTY_HOOKS], "", "")
  }

  function BeforeHooks(front: seq<Member>): string {
    if front == [] then "{" else "{" + ShowMember(front[0]) + ","
  }

  lemma TextOfHooks()
    ensures ShowMember(EMPTY_HOOKS) == WholeHead("  ") + "  }\n"
    ensures |ShowKey(EMPTY_HOOKS)| == |WholeHead("  ")| - 1
  {
    var v := Show(EMPTY_HOOKS.value);
    assert v == "{" + "  }" by {
      assert "{" + "" + "  " + "}" == "{" + "  }";
    }
    var key := ShowKey(EMPTY_HOOKS);
    assert key == "\n  \"hooks\": ";
    assert key + "{" == WholeHead("  ");
    hide Show, ShowKey, WholeHead;
    JoinAt(key, "{", "  }", "\n");
    assert "  }" + "\n" == "  }\n";
  }

  lemma JoinAt(a: string, b: string, c: string, d: string)
    ensures a + (b + c) + d == (a + b) + (c + d)
  {
  }

  lemma TextOfNumber()
    ensures ShowMember(ONE_NUMBER) == "\n  \"a\": 1"
  {
    assert Show(ONE_NUMBER.value) == "1";
    assert ShowKey(ONE_NUMBER) == "\n  \"a\": ";
  }

  lemma NamesOfTwo()
    ensures ValidMember(EMPTY_HOOKS) && ValidMember(ONE_NUMBER) && TameMember(EMPTY_HOOKS) && TameMember(ONE_NUMBER)
    ensures Unescape(EMPTY_HOOKS.key) == Some("hooks") && Unescape(ONE_NUMBER.key) == Some("a")
  {
    OneIsANumber();
    WithoutEscapes("hooks");
    WithoutEscapes("a");
    hide Unescape, RawString, Harmless, IsNumber;
    PlainlyNamed(EMPTY_HOOKS);
    PlainlyNamed(ONE_NUMBER);
  }

  lemma PlainlyNamed(m: Member)
    requires m.key in {"hooks", "a"} && Valid(m.value) && Tame(m.value)
    requires JsonBlank(m.before) && JsonBlank(m.afterKey) && JsonBlank(m.beforeValue) && JsonBlank(m.after)
    ensures ValidMember(m) && TameMember(m)
  {
    WithoutEscapes(m.key);
    PlainStringIsHarmless(m.key);
    hide Unescape, RawString, Harmless, Valid, Tame;
  }

  lemma ExceptedIsValid(front: seq<Member>)
    requires front == [] || front == [ONE_NUMBER]
    ensures ValidFile(Excepted(front)) && Tame(Table(Excepted(front).members, ""))
    ensures forall m :: m in Excepted(front).members ==> '"' !in m.key
  {
    NamesOfTwo();
    hide ValidMember, TameMember;
  }

  lemma ExceptedMeans(front: seq<Member>)
    requires front == [] || front == [ONE_NUMBER]
    ensures MeaningOfMembers(Excepted(front).members)
      == (if front == [] then [] else [Entry("a", Number("1"))]) + [Entry("hooks", Object([]))]
  {
    NamesOfTwo();
    var members := Excepted(front).members;
    var number := [Entry("a", Number("1"))];
    hide Put, Unescape;
    if front == [] {
      assert members == [EMPTY_HOOKS];
      OnlyMeans(EMPTY_HOOKS, "hooks", Object([]));
    } else {
      assert members == [ONE_NUMBER, EMPTY_HOOKS] && members[..1] == [ONE_NUMBER];
      OnlyMeans(ONE_NUMBER, "a", Number("1"));
      PutLast(number, "hooks", Object([]));
      assert MeaningOfMembers(members) == Put(number, "hooks", Object([]));
    }
  }

  lemma ExceptedShows(front: seq<Member>)
    requires front == [] || front == [ONE_NUMBER]
    ensures ShowFile(Excepted(front)) == BeforeHooks(front) + WholeHead("  ") + "  }\n" + "}"
  {
    TextOfHooks();
    hide ShowMember, WholeHead;
    var members := Excepted(front).members;
    var inner := ShowMembers(members);
    assert ShowMembers([EMPTY_HOOKS]) == ShowMember(EMPTY_HOOKS);
    if front == [] {
      assert members == [EMPTY_HOOKS];
    } else {
      assert members == [ONE_NUMBER, EMPTY_HOOKS] && members[1..] == [EMPTY_HOOKS];
      assert inner == ShowMember(members[0]) + "," + ShowMembers(members[1..]);
    }
    assert inner == if front == [] then ShowMember(EMPTY_HOOKS) else ShowMember(front[0]) + "," + ShowMember(EMPTY_HOOKS);
    assert Show(Table(members, "")) == "{" + inner + "" + "}";
    assert ShowFile(Excepted(front)) == "" + Show(Table(members, "")) + "";
    hide Show, ShowFile, ShowMembers;
    Braced(inner, if front == [] then "" else ShowMember(front[0]) + ",", WholeHead("  "), "  }\n");
  }

  lemma Braced(inner: string, first: string, head: string, close: string)
    requires inner == first + (head + close)
    ensures "" + ("{" + inner + "" + "}") + "" == ("{" + first) + head + close + "}"
  {
  }

  lemma OneIsANumber()
    ensures IsNumber("1")
  {
    assert "1" == "" + "1" + "" + "" && Digits("1") && IsExponent("");
  }

  lemma OnlyMeans(m: Member, key: string, v: Value)
    requires Unescape(m.key) == Some(key) && Meaning(m.value) == v
    ensures MeaningOfMembers([m]) == [Entry(key, v)]
  {
    assert [m][..0] == [];
    assert MeaningOfMembers([]) == [];
  }

  lemma PutLast(m: Map, key: string, v: Value)
    requires m == [Entry("a", Number("1"))] && key == "hooks"
    ensures Put(m, key, v) == m + [Entry(key, v)]
  {
    assert m[1..] == [];
  }

  lemma ExceptedHasNoMarker(front: seq<Member>)
    requires front == [] || front == [ONE_NUMBER]
    ensures 'n' !in ShowFile(Excepted(front))
  {
    ExceptedShows(front);
    TextOfNumber();
    hide ShowFile, ShowMember;
    assert 'n' !in BeforeHooks(front) && 'n' !in WholeHead("  ");
  }

  lemma ExceptedIsInstallable(front: seq<Member>, hooks: seq<Hook>)
    requires front == [] || front == [ONE_NUMBER]
    requires hooks != [] && forall h :: h in hooks ==> WellMade(h)
    ensures Installable(ShowFile(Excepted(front)), hooks) && !Blank(ShowFile(Excepted(front)))
    ensures HeldIn(Parse(ShowFile(Excepted(front))).value) == 0
  {
    var (f, text) := (Excepted(front), ShowFile(Excepted(front)));
    ExceptedIsValid(front);
    ExceptedMeans(front);
    ReadingIsTheMeaning(f);
    LayoutIsNotBlank(f);
    ExceptedHasNoMarker(front);
    NoLetterNoMarker(text);
    CountIsContains(text);
    HoldsNoHook(front, MeaningOfMembers(f.members));
    hide WellMade, ShowFile, MeaningOfMembers, Parse, ValidFile, Excepted;
  }

  lemma HoldsNoHook(front: seq<Member>, document: Map)
    requires document == (if front == [] then [] else [Entry("a", Number("1"))]) + [Entry("hooks", Object([]))]
    ensures !HoldsMarker(document) && HeldIn(document) == 0
  {
    if front == [] {
      assert document == [Entry("hooks", Object([]))];
    } else {
      assert document[0] == Entry("a", Number("1")) && document[1..] == [Entry("hooks", Object([]))];
    }
    assert Get(document, HOOKS) == Some(Object([]));
  }

  // Where such a file's container opens, and that it looks written.

  lemma ExceptedOpens(front: seq<Member>)
    requires front == [] || front == [ONE_NUMBER]
    ensures Opening(ShowFile(Excepted(front)), HOOKS) == Some(|BeforeHooks(front) + WholeHead("  ")|)
    ensures OpeningBrace(ShowFile(Excepted(front))) == Some(1)
  {
    var f := Excepted(front);
    ExceptedIsValid(front);
    BraceOfObject(f);
    OpeningFindsTheKey(f, HOOKS);
    TextOfHooks();
    hide ShowMember, ShowFile, Opening, ShowKey, WholeHead, OpeningBrace, ValidFile, Tame;
    if front == [] {
      assert f.members == [EMPTY_HOOKS];
    } else {
      assert f.members == [ONE_NUMBER, EMPTY_HOOKS] && f.members[1..] == [EMPTY_HOOKS];
      assert FirstNamedTable(f.members[1..], HOOKS) == Some(|ShowKey(EMPTY_HOOKS)| + 1);
    }
  }

  lemma ExceptedLooksWritten(front: seq<Member>)
    requires front == [] || front == [ONE_NUMBER]
    ensures
      var (text, at) := (ShowFile(Excepted(front)), |BeforeHooks(front) + WholeHead("  ")|);
      && at <= |text| && LooksWritten(text, 1, at)
      && IndentAt(text, 1, ONE_LEVEL) == "  " && LeftOf(text, 1, at) == BeforeHooks(front) + "}"
      && CloseOf(text, 1, at) == Newline
  {
    ExceptedShows(front);
    var (text, before, head) := (ShowFile(Excepted(front)), BeforeHooks(front), WholeHead("  "));
    IndentOfExcepted(front, text);
    hide ShowFile, ShowMember, Excepted, BeforeHooks, WholeHead, IndentAt;
    WrittenAround(text, before, head);
  }

  lemma WrittenAround(text: string, before: string, head: string)
    requires text == before + head + "  }\n" + "}" && head == WholeHead("  ")
    requires IndentAt(text, 1, ONE_LEVEL) == "  "
    ensures
      var at := |before + head|;
      at <= |text| && LooksWritten(text, 1, at) && LeftOf(text, 1, at) == before + "}" && CloseOf(text, 1, at) == Newline
  {
    hide IndentAt, WholeHead;
    var (at, tail) := (|before + head|, "  }\n" + "}");
    assert text == (before + head) + tail;
    assert text[..at] == before + head && text[at..] == tail;
    IndentInExcepted(text, at);
    assert "  " + STEP == TWO_LEVELS;
    assert tail[..4] == "  }\n" == "  " + "}\n" && tail[4..] == "}";
    assert tail[2] == '}' && tail[3] == '\n';
    assert EndsWith(before + head, head);
    assert text[..at - |head|] == before && text[at + 4..] == tail[4..];
  }

  lemma IndentInExcepted(text: string, at: nat)
    requires at <= |text| && text[at..] == "  }\n" + "}"
    ensures IndentAt(text, at, TWO_LEVELS) == TWO_LEVELS
  {
    var t := "  }\n" + "}";
    assert t[0] == ' ' && t[1] == ' ' && t[2] == '}' && t[3] == '\n' && t[4..] == "}";
    assert t[1..][1..] == t[2..] && t[2..][1..] == t[3..] && t[3..][1..] == t[4..];
    assert AfterNewline(t[3..]) == Some(t[4..]);
    assert AfterNewline(t[2..]) == Some(t[4..]);
    assert AfterNewline(t[1..]) == Some(t[4..]);
    assert FirstLine("}") == "}";
  }

  lemma IndentOfExcepted(front: seq<Member>, text: string)
    requires front == [] || front == [ONE_NUMBER]
    requires text == BeforeHooks(front) + WholeHead("  ") + "  }\n" + "}"
    ensures IndentAt(text, 1, ONE_LEVEL) == "  "
  {
    hide *;
    var tail := "  }\n" + "}";
    HeadAsLines();
    BeforeAsText(front);
    if front == [] {
      IndentAfterBrace(text, "\"hooks\": {", "", tail);
    } else {
      IndentAfterBrace(text, "\"a\": 1", "," + WholeHead("  "), tail);
    }
  }

  lemma HeadAsLines()
    ensures WholeHead("  ") == "\n" + "  " + "\"hooks\": {"
  {
  }

  lemma BeforeAsText(front: seq<Member>)
    requires front == [] || front == [ONE_NUMBER]
    ensures BeforeHooks(front) == if front == [] then "{" else "{" + ("\n" + "  " + "\"a\": 1") + ","
  {
    TextOfNumber();
    hide ShowMember;
    assert "\n  \"a\": 1" == "\n" + "  " + "\"a\": 1";
  }

  lemma IndentAfterBrace(text: string, name: string, more: string, tail: string)
    requires name != "" && name[0] == '"'
    requires text == "{" + ("\n" + "  " + name) + more + tail
    ensures IndentAt(text, 1, ONE_LEVEL) == "  "
  {
    hide IndentAt;
    var rest := name + more + tail;
    assert text == "{" + ("\n" + "  " + rest);
    assert rest[0] == name[0];
    IndentFoundAgain("{", "  ", rest, ONE_LEVEL);
  }

  lemma ExceptedIs(front: seq<Member>, hooks: seq<Hook>)
    requires front == [] || front == [ONE_NUMBER]
    requires hooks != [] && forall h :: h in hooks ==> WellMade(h)
    ensures
      var text := ShowFile(Excepted(front));
      && Installable(text, hooks) && !Blank(text) && EmptyAndLooksWritten(text)
      && Remove(Installed(text, Parse(text).value, hooks), hooks) == Some(BeforeHooks(front) + "}")
  {
    ExceptedIsInstallable(front, hooks);
    ExceptedOpens(front);
    ExceptedLooksWritten(front);
    hide ShowFile, Excepted, BeforeHooks, Parse, LooksWritten, LeftOf, WellMade, Opening, OpeningBrace, Remove, Installed, HoldsMarker;
    WhatIsLost(ShowFile(Excepted(front)), hooks);
  }

  lemma EmptyBraces()
    ensures Parse("{}") == Some([]) && Opening("{}", HOOKS).None? && IndentAt("{}", 1, ONE_LEVEL) == ONE_LEVEL
  {
    var f := File("", [], "", "");
    assert ShowFile(f) == "{}";
    ReadingIsTheMeaning(f);
    OpeningIsFirstTable(f, HOOKS);
    assert "{}"[1..] == "}" && "}"[1..] == "";
  }

  lemma TakenBack(text: string)
    requires text == ShowFile(Excepted([]))
    ensures OpeningBrace(text) == Some(1) && Opening(text, HOOKS).Some?
    ensures Opening(text, HOOKS).value <= |text| && LooksWritten(text, 1, Opening(text, HOOKS).value)
    ensures TakesItBack(text, 1, Opening(text, HOOKS).value)
  {
    ExceptedOpens([]);
    ExceptedLooksWritten([]);
    EmptyBraces();
    hide ShowFile, Excepted, Parse, LooksWritten, LeftOf, Opening, OpeningBrace, IndentAt, WholeHead, CloseOf;
    assert BeforeHooks([]) + "}" == "{}";
    assert |BeforeHooks([]) + WholeHead("  ")| == 1 + |WholeHead("  ")|;
  }

  /** The excepted layout happens: an empty `hooks` object on a line of its own comes back as no object
      at all. Installing again finds nothing to do. */
  lemma EmptyHooksAreLost(text: string, hooks: seq<Hook>)
    requires text == "{\n  \"hooks\": {  }\n}" && hooks != [] && forall h :: h in hooks ==> WellMade(h)
    ensures Installable(text, hooks) && !Blank(text) && EmptyAndLooksWritten(text)
    ensures Remove(Installed(text, Parse(text).value, hooks), hooks) == Some("{}")
    ensures Add(Installed(text, Parse(text).value, hooks), hooks) == Success(None)
  {
    hide *;
    FirstExceptedText(text);
    ExceptedIs([], hooks);
    TakenBack(text);
    SecondAddExactly(text, hooks);
  }

  lemma FirstLiterals()
    ensures "{" + "\n  \"hooks\": {  }\n}" == "{\n  \"hooks\": {  }\n}" && "{" + "}" == "{}"
  {
  }

  lemma BeforeNothing()
    ensures BeforeHooks([]) == "{"
  {
  }

  lemma FirstExceptedText(text: string)
    requires text == "{\n  \"hooks\": {  }\n}"
    ensures text == ShowFile(Excepted([])) && BeforeHooks([]) + "}" == "{}"
  {
    hide *;
    ExceptedShows([]);
    FirstLiterals();
    BeforeNothing();
    TextOfException(text, "{");
  }

  lemma TextOfException(text: string, before: string)
    requires text == before + "\n  \"hooks\": {  }\n}"
    ensures text == before + WholeHead("  ") + "  }\n" + "}"
  {
    assert WholeHead("  ") == "\n  \"hooks\": {";
    assert "\n  \"hooks\": {" + "  }\n" + "}" == "\n  \"hooks\": {  }\n}";
    hide WholeHead;
  }

  /** No layout of an object ends in a comma and a brace. */
  lemma CommaThenBrace(text: string)
    requires text == "{\n  \"a\": 1,}"
    ensures Parse(text).None?
  {
    if IsObject(text) {
      var f := LayoutOf(text);
      NotThisText(f, text);
    }
    assert text[0] == '{' && !IsSpace('{');
  }

  lemma NotThisText(f: File, text: string)
    requires ValidFile(f) && text == "{\n  \"a\": 1,}"
    ensures ShowFile(f) != text
  {
    hide *;
    ThatText(text);
    PartsOf(f);
    var table := Table(f.members, f.blank);
    if ShowFile(f) == text {
      ValueStarts(table);
      Opened(table, f.trail);
      StartsPlain(Show(table), f.trail, f.lead, text);
      SpaceEnds(f.lead, "", Show(table) + f.trail, text);
      SameAfter('{', MembersOn(f.members, f.blank, f.trail), MemberOn(ONE_NUMBER, ",}"));
      NotTheseMembers(f.members, f.blank, f.trail);
    }
  }

  lemma PartsOf(f: File)
    requires ValidFile(f)
    ensures JsonBlank(f.lead) && JsonBlank("") && Valid(Table(f.members, f.blank)) && GoodMembers(f.members, f.blank)
    ensures f.members != [] ==> f.blank == ""
    ensures ShowFile(f) == f.lead + (Show(Table(f.members, f.blank)) + f.trail)
  {
    hide Show, ValidMember;
  }

  lemma StartsPlain(shown: string, trail: string, lead: string, text: string)
    requires shown != "" && !JsonSpace(shown[0]) && text != "" && text[0] == '{'
    ensures !JsonSpace((shown + trail)[0]) && !JsonSpace(text[0]) && shown + trail != "" && "" + text == text
  {
  }

  lemma ThatText(text: string)
    requires text == "{\n  \"a\": 1,}"
    ensures text == ['{'] + MemberOn(ONE_NUMBER, ",}") && text[0] == '{'
  {
    TextOfNumber();
    OneMemberOn(ONE_NUMBER, ",}");
    assert text == ['{'] + ("\n  \"a\": 1" + ",}");
    hide ShowMember;
  }

  lemma NotTheseMembers(members: seq<Member>, blank: string, x: string)
    requires GoodMembers(members, blank)
    ensures MembersOn(members, blank, x) != MemberOn(ONE_NUMBER, ",}")
  {
    if MembersOn(members, blank, x) == MemberOn(ONE_NUMBER, ",}") {
      NamesOfTwo();
      if members == [] {
        SpaceEnds(blank, ONE_NUMBER.before, "}" + x, MemberOn(ONE_NUMBER, ",}")[3..]);
      } else {
        var rest := if |members| == 1 then "}" + x else "," + MembersOn(members[1..], blank, x);
        hide Show;
        OneMember(members[0], ONE_NUMBER, rest, ",}");
      }
    }
  }

  lemma SecondExceptedText(text: string)
    requires text == "{\n  \"a\": 1,\n  \"hooks\": {  }\n}"
    ensures text == ShowFile(Excepted([ONE_NUMBER])) && BeforeHooks([ONE_NUMBER]) + "}" == "{\n  \"a\": 1,}"
  {
    hide *;
    TextOfNumber();
    ExceptedShows([ONE_NUMBER]);
    Literals();
    BeforeOne();
    TextOfException(text, "{\n  \"a\": 1,");
  }

  lemma BeforeOne()
    ensures BeforeHooks([ONE_NUMBER]) == "{" + ShowMember(ONE_NUMBER) + ","
  {
    hide ShowMember;
  }

  lemma Literals()
    ensures "{" + "\n  \"a\": 1" + "," == "{\n  \"a\": 1,"
    ensures "{\n  \"a\": 1," + "\n  \"hooks\": {  }\n}" == "{\n  \"a\": 1,\n  \"hooks\": {  }\n}"
    ensures "{\n  \"a\": 1," + "}" == "{\n  \"a\": 1,}"
  {
  }

  /** And worse: after another member, what is left is no JSON, and installing again is refused. */
  lemma SecondAddIsRefused(text: string, hooks: seq<Hook>)
    requires text == "{\n  \"a\": 1,\n  \"hooks\": {  }\n}" && hooks != [] && forall h :: h in hooks ==> WellMade(h)
    ensures Installable(text, hooks) && !Blank(text) && EmptyAndLooksWritten(text)
    ensures Remove(Installed(text, Parse(text).value, hooks), hooks) == Some("{\n  \"a\": 1,}")
    ensures Add(Installed(text, Parse(text).value, hooks), hooks) == Failure(NotAnObject)
  {
    hide Parse, Remove, Installed, Installable, EmptyAndLooksWritten, Excepted, ShowFile, BeforeHooks, WellMade, Splice, Blank;
    SecondExceptedText(text);
    ExceptedIs([ONE_NUMBER], hooks);
    CommaThenBrace("{\n  \"a\": 1,}");
  }
}
