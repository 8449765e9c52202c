/** Where the marker stands in a text. A settings file that does not hold the marker holds it,
    once this program's region is in it, exactly where the region does. Nothing of it can
    lie across either end. */
module Markers {
  import opened Text
  import opened Strip
  import opened Settings

  predicate StartsWith(s: string, p: string) {
    |p| <= |s| && s[..|p|] == p
  }

  lemma StartsWithHead(s: string, p: string)
    requires p != ""
    ensures StartsWith(s, p) ==> s != "" && s[0] == p[0]
  {
    if StartsWith(s, p) {
      assert s[..|p|][0] == s[0];
    }
  }

  /** How many times the marker stands in a text. */
  function Count(s: string): nat {
    if s == "" then 0 else (if StartsWith(s, MARKER) then 1 else 0) + Count(s[1..])
  }

  /** The text from its first marker on. */
  function FromMarker(s: string): string {
    if s == "" || StartsWith(s, MARKER) then s else FromMarker(s[1..])
  }

  lemma {:induction false} CountIsContains(s: string)
    ensures Count(s) > 0 <==> Contains(s, MARKER)
  {
    MarkerIs();
    if s != "" {
      CountIsContains(s[1..]);
      ContainsFromTheNext(s, MARKER);
    }
    hide MARKER;
  }

  /** A pattern stands in a text at its start or after it. */
  lemma ContainsFromTheNext(s: string, p: string)
    requires s != "" && p != ""
    ensures Contains(s, p) <==> StartsWith(s, p) || Contains(s[1..], p)
  {
    if StartsWith(s, p) {
      assert OccursAt(s, p, 0);
    }
    if i: nat :| OccursAt(s[1..], p, i) {
      assert s[1..][i..i + |p|] == s[i + 1..i + 1 + |p|];
      assert OccursAt(s, p, i + 1);
    }
    if i: nat :| OccursAt(s, p, i) {
      if i > 0 {
        assert s[1..][i - 1..i - 1 + |p|] == s[i..i + |p|];
        assert OccursAt(s[1..], p, i - 1);
      }
    }
  }

  /** Characters the marker does not have. */
  predicate Apart(c: char) {
    c !in MARKER
  }

  lemma ApartCharacters()
    ensures Apart('\n') && Apart(',') && Apart('"') && Apart('}')
  {
  }

  /** No marker stands across the join of two texts when a character it does not have
      stands at the join. */
  lemma NotAcross(a: string, b: string)
    requires b == "" || Apart(b[0])
    ensures a != "" ==> (StartsWith(a + b, MARKER) <==> StartsWith(a, MARKER))
  {
    if a != "" && b != "" && |a| < |MARKER| {
      assert (a + b)[|a|] == b[0];
      assert MARKER[|a|] in MARKER;
      assert b[0] != MARKER[|a|];
    }
    if |a| >= |MARKER| {
      assert (a + b)[..|MARKER|] == a[..|MARKER|];
    }
    assert b == "" ==> a + b == a;
  }

  lemma {:induction false} CountApart(a: string, b: string)
    requires b == "" || Apart(b[0])
    ensures Count(a + b) == Count(a) + Count(b)
  {
    if a == "" {
      assert a + b == b;
    } else {
      NotAcross(a, b);
      assert (a + b)[1..] == a[1..] + b;
      CountApart(a[1..], b);
    }
  }

  lemma {:induction false} CountAtLeast(a: string, b: string)
    ensures Count(a + b) >= Count(a) + Count(b)
  {
    if a == "" {
      assert a + b == b;
    } else {
      assert (a + b)[1..] == a[1..] + b;
      CountAtLeast(a[1..], b);
      if StartsWith(a, MARKER) {
        assert (a + b)[..|MARKER|] == a[..|MARKER|];
      }
    }
  }

  /** The first marker of a text that begins with one without markers. */
  lemma {:induction false} FromMarkerSkips(a: string, b: string)
    requires Count(a) == 0 && (b == "" || Apart(b[0]))
    ensures FromMarker(a + b) == FromMarker(b)
  {
    if a == "" {
      assert a + b == b;
    } else {
      NotAcross(a, b);
      assert (a + b)[1..] == a[1..] + b;
      FromMarkerSkips(a[1..], b);
    }
  }

  /** What follows a text with a marker does not move its first marker. */
  lemma {:induction false} FromMarkerKeeps(a: string, b: string)
    requires Count(a) > 0
    ensures FromMarker(a + b) == FromMarker(a) + b
  {
    if StartsWith(a, MARKER) {
      assert (a + b)[..|MARKER|] == a[..|MARKER|];
    } else {
      assert (a + b)[1..] == a[1..] + b;
      FromMarkerKeeps(a[1..], b);
      EarlierMarker(a, b);
    }
  }

  /** A text that holds a marker and does not begin with one is not made to begin with one
      by what follows it. */
  lemma EarlierMarker(a: string, b: string)
    requires Count(a) > 0
    ensures StartsWith(a + b, MARKER) <==> StartsWith(a, MARKER)
  {
    CountIsContains(a);
    var i: nat :| OccursAt(a, MARKER, i);
    assert |a| >= |MARKER|;
    assert (a + b)[..|MARKER|] == a[..|MARKER|];
  }

  lemma {:induction false} NoLetterNoMarker(s: string)
    requires 'n' !in s
    ensures Count(s) == 0
  {
    if s != "" {
      assert s[0] in s && MARKER[0] == 'n';
      StartsWithHead(s, MARKER);
      assert forall c :: c in s[1..] ==> c in s;
      NoLetterNoMarker(s[1..]);
    }
  }

  /** A text is suffixed by what stands from its first marker. */
  lemma {:induction false} FromMarkerIsSuffix(s: string)
    ensures |FromMarker(s)| <= |s| && FromMarker(s) == s[|s| - |FromMarker(s)|..]
  {
    if s != "" && !StartsWith(s, MARKER) {
      FromMarkerIsSuffix(s[1..]);
    }
  }

  // Moving lines to the right moves no marker.

  lemma {:induction false} ReindentBoth(a: string, b: string, indent: string)
    ensures Reindent(a + b, indent) == Reindent(a, indent) + Reindent(b, indent)
  {
    if a == "" {
      assert a + b == b;
    } else {
      assert (a + b)[1..] == a[1..] + b;
      ReindentBoth(a[1..], b, indent);
    }
  }

  lemma {:induction false} ReindentOneLine(s: string, indent: string)
    requires '\n' !in s
    ensures Reindent(s, indent) == s
  {
    if s != "" {
      assert s[0] in s && forall c :: c in s[1..] ==> c in s;
      ReindentOneLine(s[1..], indent);
      assert s == [s[0]] + s[1..];
    }
  }

  lemma {:induction false} ReindentKeepsStart(s: string, indent: string, p: string)
    requires '\n' !in p
    ensures StartsWith(Reindent(s, indent), p) <==> StartsWith(s, p)
    decreases |p|
  {
    if p != "" && s != "" {
      var r := Reindent(s, indent);
      if s[0] == '\n' {
        assert r[0] == '\n';
        assert p[0] in p;
        StartsWithHead(r, p);
        StartsWithHead(s, p);
      } else {
        assert r[1..] == Reindent(s[1..], indent) && r[0] == s[0];
        assert forall c :: c in p[1..] ==> c in p;
        ReindentKeepsStart(s[1..], indent, p[1..]);
        StartsOneOn(r, p);
        StartsOneOn(s, p);
      }
    }
  }

  lemma StartsOneOn(s: string, p: string)
    requires s != "" && p != ""
    ensures StartsWith(s, p) <==> s[0] == p[0] && StartsWith(s[1..], p[1..])
  {
    if StartsWith(s, p) {
      assert s[1..][..|p| - 1] == s[..|p|][1..];
      assert s[0] == s[..|p|][0];
    }
    if s[0] == p[0] && StartsWith(s[1..], p[1..]) {
      assert s[..|p|] == [s[0]] + s[1..][..|p| - 1];
    }
  }

  lemma {:induction false} ReindentKeepsMarkers(s: string, indent: string)
    requires AllSpaces(indent)
    ensures Count(Reindent(s, indent)) == Count(s)
    ensures Count(s) > 0 ==> FromMarker(Reindent(s, indent)) == Reindent(FromMarker(s), indent)
  {
    if s != "" {
      var rest := Reindent(s[1..], indent);
      var r := Reindent(s, indent);
      ReindentKeepsMarkers(s[1..], indent);
      ReindentKeepsStart(s, indent, MARKER);
      if s[0] == '\n' {
        assert r == ("\n" + indent) + rest;
        SpacesHoldNoMarker("\n" + indent, rest);
      } else {
        assert r[1..] == rest;
      }
    }
  }

  lemma {:induction false} SpacesHoldNoMarker(spaces: string, rest: string)
    requires forall i :: 0 <= i < |spaces| ==> spaces[i] == ' ' || spaces[i] == '\n'
    ensures Count(spaces + rest) == Count(rest)
    ensures FromMarker(spaces + rest) == FromMarker(rest)
  {
    if spaces == "" {
      assert spaces + rest == rest;
    } else {
      var all := spaces + rest;
      assert all[1..] == spaces[1..] + rest;
      assert MARKER[0] == 'n' && all[0] != 'n';
      StartsWithHead(all, MARKER);
      SpacesHoldNoMarker(spaces[1..], rest);
    }
  }
}
