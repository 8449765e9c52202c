/** Putting the hooks' region into a settings file and taking it out again: where the region is
    found afterwards, and the one layout of an empty `hooks` object for which that goes wrong.
    A region is known by what stands from its first marker on. */
module SettingsRoundTrip {
  import opened Text
  import opened Strip
  import opened Settings
  import opened Markers
  import opened HookText

  // Regions by their first marker.

  /** What stands in a region after the members: the ending, or the closing brace and it. */
  function InsideTail(ends: Ends): string {
    EndsText(ends)
  }

  function WholeTail(indent: string, ends: Ends): string {
    "\n" + indent + "}" + EndsText(ends)
  }

  lemma {:induction false} JoinIndented(members: seq<string>, indent: string)
    requires members != []
    ensures Join(Indented(members, indent), ",\n") == indent + Reindent(Join(members, ",\n"), indent)
  {
    hide Reindent;
    if |members| == 1 {
      assert Indented(members, indent) == [indent + Reindent(members[0], indent)];
    } else {
      var rest := members[1..];
      JoinIndented(rest, indent);
      IndentedLength(rest, indent);
      var all, j := Indented(members, indent), Join(rest, ",\n");
      assert all[0] == indent + Reindent(members[0], indent) && all[1..] == Indented(rest, indent);
      assert Join(all, ",\n") == all[0] + ",\n" + Join(all[1..], ",\n");
      assert Join(members, ",\n") == members[0] + ",\n" + j;
      hide Join, Indented;
      JoinedMoves(members[0], j, indent);
    }
  }

  lemma JoinedMoves(first: string, j: string, indent: string)
    ensures indent + Reindent(first + ",\n" + j, indent)
         == indent + Reindent(first, indent) + ",\n" + (indent + Reindent(j, indent))
  {
    hide Reindent;
    assert first + ",\n" + j == first + (",\n" + j);
    ReindentBoth(first, ",\n" + j, indent);
    ReindentComma(j, indent);
    var x, y := Reindent(first, indent), Reindent(j, indent);
    assert x + (",\n" + indent + y) == x + ",\n" + (indent + y);
  }

  lemma {:induction false} IndentedLength(members: seq<string>, indent: string)
    ensures |Indented(members, indent)| == |members|
  {
    if members != [] {
      IndentedLength(members[1..], indent);
    }
  }

  lemma ReindentStep(text: string, indent: string)
    requires text != ""
    ensures Reindent(text, indent) == (if text[0] == '\n' then "\n" + indent else [text[0]]) + Reindent(text[1..], indent)
  {
  }

  lemma ReindentComma(j: string, indent: string)
    ensures Reindent(",\n" + j, indent) == ",\n" + indent + Reindent(j, indent)
  {
    hide Reindent;
    var s, tail, moved, rest := ",\n" + j, "\n" + j, "\n" + indent, Reindent(j, indent);
    ReindentStep(s, indent);
    ReindentStep(tail, indent);
    assert s[1..] == tail && s[0] == ',' && tail[1..] == j;
    assert Reindent(s, indent) == [','] + (moved + rest);
    assert [','] + moved == ",\n" + indent;
    assert [','] + (moved + rest) == [','] + moved + rest;
  }

  /** A region is a head without markers, the members moved right, and a tail. */
  lemma InsideParts(members: seq<string>, indent: string, ends: Ends)
    requires members != []
    ensures Inside(members, indent, ends)
      == ("\n" + indent) + Reindent(Join(members, ",\n"), indent) + InsideTail(ends)
  {
    hide Join, Reindent, Indented;
    JoinIndented(members, indent);
    var body := Reindent(Join(members, ",\n"), indent);
    assert "\n" + (indent + body) == ("\n" + indent) + body;
  }

  function WholeHead(indent: string): string {
    "\n" + indent + "\"hooks\": {"
  }

  lemma WholeParts(members: seq<string>, indent: string, ends: Ends)
    requires members != []
    ensures Whole(HOOKS, members, indent, ends)
      == (WholeHead(indent) + ("\n" + (indent + STEP))) + Reindent(Join(members, ",\n"), indent + STEP) + WholeTail(indent, ends)
  {
    hide Join, Reindent, Indented;
    JoinIndented(members, indent + STEP);
    var inner := indent + STEP;
    var body := Reindent(Join(members, ",\n"), inner);
    var tail := EndsText(ends);
    assert "\n" + indent + "\"" + HOOKS + "\": {\n" == WholeHead(indent) + "\n";
    assert WholeHead(indent) + "\n" + (inner + body) == (WholeHead(indent) + ("\n" + inner)) + body;
    var left := (WholeHead(indent) + ("\n" + inner)) + body;
    assert left + "\n" + indent + "}" + tail == left + ("\n" + indent + "}" + tail);
  }

  /** A text that is a region: it begins a line, holds as many markers as the members, and
      reads on from the first as `shifted` members and a tail do. */
  ghost predicate IsRegion(c: string, j: string, indent: string, tail: string) {
    && c != "" && c[0] == '\n'
    && Count(c) == Count(j)
    && FromMarker(c) == Reindent(FromMarker(j), indent) + tail
  }

  lemma RegionOf(head: string, j: string, indent: string, tail: string)
    requires IsBody(j) && AllSpaces(indent)
    requires head != "" && head[0] == '\n' && 'n' !in head
    requires 'n' !in tail && (tail == "" || Apart(tail[0]))
    ensures IsRegion(head + Reindent(j, indent) + tail, j, indent, tail)
  {
    hide LinesFull;
    var body := Reindent(j, indent);
    assert body[0] == j[0] == '"';
    ApartCharacters();
    ReindentKeepsMarkers(j, indent);
    NoLetterNoMarker(head);
    NoLetterNoMarker(tail);
    CountApart(head, body);
    CountApart(head + body, tail);
    FromMarkerSkips(head, body);
    FromMarkerKeeps(head + body, tail);
  }

  lemma SpacesHaveNoLetter(spaces: string)
    requires AllSpaces(spaces)
    ensures 'n' !in spaces && '{' !in spaces && '"' !in spaces
  {
  }

  lemma InsideIsRegion(members: seq<string>, indent: string, ends: Ends)
    requires members != [] && IsBody(Join(members, ",\n")) && AllSpaces(indent)
    ensures IsRegion(Inside(members, indent, ends), Join(members, ",\n"), indent, InsideTail(ends))
  {
    hide Join, IsBody, Inside, IsRegion;
    InsideParts(members, indent, ends);
    SpacesHaveNoLetter(indent);
    ApartCharacters();
    RegionOf("\n" + indent, Join(members, ",\n"), indent, InsideTail(ends));
  }

  lemma WholeIsRegion(members: seq<string>, indent: string, ends: Ends)
    requires members != [] && IsBody(Join(members, ",\n")) && AllSpaces(indent)
    ensures IsRegion(Whole(HOOKS, members, indent, ends), Join(members, ",\n"), indent + STEP, WholeTail(indent, ends))
  {
    hide Join, IsBody, Whole, IsRegion;
    WholeParts(members, indent, ends);
    SpacesHaveNoLetter(indent);
    ApartCharacters();
    assert 'n' !in WholeHead(indent) + ("\n" + (indent + STEP));
    assert WholeTail(indent, ends)[0] == '\n';
    RegionOf(WholeHead(indent) + ("\n" + (indent + STEP)), Join(members, ",\n"), indent + STEP, WholeTail(indent, ends));
  }

  /** A text without the marker, with a region put in it: every marker is the region's, so
      any region found in it reads on alike from its first marker. */
  lemma FoundRegionReadsAlike(b: string, r: string, a: string, before: string, c: string, after: string,
                              j: string, indent: string, tail: string, indent': string, tail': string)
    requires Count(b) == 0 && Count(a) == 0 && Count(j) > 0
    requires IsRegion(r, j, indent, tail) && IsRegion(c, j, indent', tail')
    requires r[|r| - 1] == ',' || r[|r| - 1] == '\n'
    requires b + r + a == before + c + after
    ensures Reindent(FromMarker(j), indent) + tail + a == Reindent(FromMarker(j), indent') + tail' + after
  {
    hide Count, FromMarker, Reindent;
    ApartCharacters();
    var text := b + r + a;
    assert text == b + (r + a);
    assert text == before + (c + after);
    CountApart(b, r + a);
    EndsApart(r, a);
    CountAtLeast(before, c + after);
    CountAtLeast(c, after);
    assert Count(before) == 0;
    FromMarkerSkips(b, r + a);
    FromMarkerSkips(before, c + after);
    FromMarkerKeeps(r, a);
    FromMarkerKeeps(c, after);
  }

  /** The last character of a region keeps its markers apart from what follows it. */
  lemma EndsApart(r: string, a: string)
    requires r != "" && Apart(r[|r| - 1])
    ensures Count(r + a) == Count(r) + Count(a)
  {
    var front, last := r[..|r| - 1], r[|r| - 1..];
    assert r == front + last && r + a == front + (last + a);
    assert last[0] == r[|r| - 1];
    CountApart(front, last + a);
    CountApart(front, last);
    assert (last + a)[1..] == a && last[1..] == "";
    StartsWithHead(last + a, MARKER);
    StartsWithHead(last, MARKER);
    assert MARKER[0] in MARKER;
  }

  // Two members' texts moved right differently part at the first line.

  lemma {:induction false} SpacesAdd(spaces: string, s: string)
    requires AllSpaces(spaces)
    ensures LeadingSpaces(spaces + s) == spaces + LeadingSpaces(s)
  {
    if spaces == "" {
      assert spaces + s == s;
    } else {
      assert (spaces + s)[1..] == spaces[1..] + s;
      SpacesAdd(spaces[1..], s);
      assert [' '] + (spaces[1..] + LeadingSpaces(s)) == spaces + LeadingSpaces(s);
    }
  }

  lemma {:induction false} FullLineKeepsSpaces(s: string, indent: string, z: string)
    requires StartsFull(s)
    ensures LeadingSpaces(Reindent(s, indent) + z) == LeadingSpaces(s)
  {
    var r := Reindent(s, indent) + z;
    assert r[0] == s[0];
    if s[0] == ' ' {
      assert r[1..] == Reindent(s[1..], indent) + z;
      FullLineKeepsSpaces(s[1..], indent, z);
    }
  }

  /** Members moved right and followed by text: if two such texts agree, what follows them
      agrees, and they were moved alike where there is a line to move. */
  lemma {:induction false} MovedAlike(t: string, one: string, two: string, x: string, y: string)
    requires LinesFull(t) && AllSpaces(one) && AllSpaces(two)
    requires Reindent(t, one) + x == Reindent(t, two) + y
    ensures x == y && ('\n' in t ==> one == two)
  {
    if t == "" {
      assert Reindent(t, one) + x == x && Reindent(t, two) + y == y;
    } else {
      var rest := t[1..];
      var r1, r2 := Reindent(rest, one) + x, Reindent(rest, two) + y;
      if t[0] == '\n' {
        var l, r := Reindent(t, one) + x, Reindent(t, two) + y;
        assert l == ['\n'] + (one + r1);
        assert r == ['\n'] + (two + r2);
        assert one + r1 == l[1..] == r[1..] == two + r2;
        SpacesAdd(one, r1);
        SpacesAdd(two, r2);
        FullLineKeepsSpaces(rest, one, x);
        FullLineKeepsSpaces(rest, two, y);
        assert |one| == |two|;
        SpacesBySize(one, two);
        assert r1 == (one + r1)[|one|..] == r2;
      } else {
        assert r1 == (Reindent(t, one) + x)[1..] == (Reindent(t, two) + y)[1..] == r2;
      }
      MovedAlike(rest, one, two, x, y);
      assert t == [t[0]] + rest;
    }
  }

  lemma {:induction false} FromMarkerIsFull(s: string)
    requires LinesFull(s)
    ensures LinesFull(FromMarker(s))
  {
    if s != "" && !StartsWith(s, MARKER) {
      FromMarkerIsFull(s[1..]);
    }
  }

  // Finding the region again.

  /** The same region, or the same with the other ending: it stands nowhere but where it
      was put, and with the other ending it stands nowhere. */
  lemma OnlyWhereItWasPut(b: string, r: string, a: string, before: string, c: string, after: string,
                          j: string, indent: string, tail: string, tail': string)
    requires IsBody(j) && Count(b) == 0 && Count(a) == 0
    requires IsRegion(r, j, indent, tail) && IsRegion(c, j, indent, tail') && |r| == |c| && |tail| == |tail'|
    requires r[|r| - 1] == ',' || r[|r| - 1] == '\n'
    requires b + r + a == before + c + after
    ensures tail == tail' && before == b && after == a
  {
    FoundRegionReadsAlike(b, r, a, before, c, after, j, indent, tail, indent, tail');
    hide *;
    SameEnds(Reindent(FromMarker(j), indent), tail, a, tail', after);
    SameStarts(b, r, a, before, c, after);
  }

  lemma SameEnds(t: string, tail: string, a: string, tail': string, after: string)
    requires t + tail + a == t + tail' + after && |tail| == |tail'|
    ensures tail == tail' && a == after
  {
    assert t + tail + a == t + (tail + a) && t + tail' + after == t + (tail' + after);
    assert tail + a == (t + (tail + a))[|t|..] == (t + (tail' + after))[|t|..] == tail' + after;
    assert tail == (tail + a)[..|tail|] == (tail' + after)[..|tail|] == tail';
    assert a == (tail + a)[|tail|..] == (tail' + after)[|tail|..] == after;
  }

  lemma SameStarts(b: string, r: string, a: string, before: string, c: string, after: string)
    requires b + r + a == before + c + after && |r| == |c| && a == after
    ensures before == b
  {
    var text := b + r + a;
    assert |before| == |b|;
    assert b == text[..|b|] == (before + c + after)[..|b|] == before;
  }

  /** A whole container found where only its inside was put: the object was empty, and it
      stood there as this program would have written it. */
  lemma WiderOnlyWhereItFits(b: string, a: string, before: string, after: string, members: seq<string>,
                             two: string, one: string, ends: Ends, ends': Ends)
    requires members != [] && IsBody(Join(members, ",\n")) && AllSpaces(one) && AllSpaces(two)
    requires Count(b) == 0 && Count(a) == 0
    requires b + Inside(members, two, ends) + a == before + Whole(HOOKS, members, one, ends') + after
    ensures ends == Newline && two == one + STEP
    ensures a == one + "}" + EndsText(ends') + after
    ensures b == before + WholeHead(one)
  {
    hide Join, IsBody, Inside, Whole, LinesFull, FromMarker, Count, Reindent;
    var j := Join(members, ",\n");
    var r, c := Inside(members, two, ends), Whole(HOOKS, members, one, ends');
    InsideIsRegion(members, two, ends);
    WholeIsRegion(members, one, ends');
    InsideEnds(members, two, ends);
    BodyFacts(j);
    FoundRegionReadsAlike(b, r, a, before, c, after, j, two, InsideTail(ends), one + STEP, WholeTail(one, ends'));
    FromMarkerIsFull(j);
    TailsAlike(FromMarker(j), two, one, ends, ends', a, after);
    InsideParts(members, two, Newline);
    WholeParts(members, one, ends');
    SameBefore(b, before, "\n" + two, Reindent(j, two), WholeHead(one), a, WholeTail(one, ends'), after);
  }

  lemma TailsAlike(t: string, two: string, one: string, ends: Ends, ends': Ends, a: string, after: string)
    requires LinesFull(t) && '\n' in t && AllSpaces(one) && AllSpaces(two)
    requires Reindent(t, two) + InsideTail(ends) + a == Reindent(t, one + STEP) + WholeTail(one, ends') + after
    ensures ends == Newline && two == one + STEP
    ensures a == one + "}" + EndsText(ends') + after
    ensures "\n" + a == WholeTail(one, ends') + after
  {
    hide LinesFull, Reindent;
    var x, y := Reindent(t, two), Reindent(t, one + STEP);
    assert x + InsideTail(ends) + a == x + (InsideTail(ends) + a);
    assert y + WholeTail(one, ends') + after == y + (WholeTail(one, ends') + after);
    MovedAlike(t, two, one + STEP, InsideTail(ends) + a, WholeTail(one, ends') + after);
    TailsOnly(one, ends, ends', a, after);
  }

  lemma TailsOnly(one: string, ends: Ends, ends': Ends, a: string, after: string)
    requires InsideTail(ends) + a == WholeTail(one, ends') + after
    ensures ends == Newline
    ensures a == one + "}" + EndsText(ends') + after
    ensures "\n" + a == WholeTail(one, ends') + after
  {
    var rest := one + "}" + EndsText(ends') + after;
    assert WholeTail(one, ends') + after == "\n" + rest;
    assert (EndsText(ends) + a)[0] == '\n';
    assert ends == Newline;
    assert a == ("\n" + a)[1..] == ("\n" + rest)[1..] == rest;
  }

  lemma BodyFacts(j: string)
    requires IsBody(j)
    ensures LinesFull(j) && Count(j) > 0 && '\n' in FromMarker(j)
  {
  }

  lemma InsideEnds(members: seq<string>, indent: string, ends: Ends)
    ensures var r := Inside(members, indent, ends); r[|r| - 1] == ',' || r[|r| - 1] == '\n'
  {
  }

  lemma WholeEnds(members: seq<string>, indent: string, ends: Ends)
    ensures var r := Whole(HOOKS, members, indent, ends); r[|r| - 1] == ',' || r[|r| - 1] == '\n'
  {
    hide Join;
  }

  lemma SameBefore(b: string, before: string, line: string, body: string, head: string, a: string, tail: string, after: string)
    requires "\n" + a == tail + after
    requires b + (line + body + "\n") + a == before + ((head + line) + body + tail) + after
    ensures b == before + head
  {
    var end := line + body + ("\n" + a);
    var left, right := b + end, (before + head) + end;
    assert b + (line + body + "\n") + a == left;
    assert before + ((head + line) + body + tail) + after == (before + head) + (line + body + (tail + after));
    assert left == right;
    assert |b| == |before + head|;
    assert b == left[..|b|] == right[..|b|] == before + head;
  }
}
