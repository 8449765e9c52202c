/** How much of a corpus is a copy of some other part of it: windows of six lines counted over
    all files, and the lines any repeated window covers. */
module Duplication {
  import opened Text
  import opened Lines

  const WINDOW: nat := 6

  const MIN_CHARS: nat := 72

  // Normalising.

  /** What `str.split` splits at. */
  predicate IsGap(c: char) {
    IsSpace(c) || 0x1C as char <= c <= 0x1F as char
  }

  function FirstWord(s: string): (w: string)
    ensures |w| <= |s|
    ensures forall c :: c in w ==> !IsGap(c)
  {
    if s == "" || IsGap(s[0]) then "" else [s[0]] + FirstWord(s[1..])
  }

  function Words(s: string): (ws: seq<string>)
    ensures forall w :: w in ws ==> w != "" && forall c :: c in w ==> !IsGap(c)
    decreases |s|
  {
    if s == "" then []
    else if IsGap(s[0]) then Words(s[1..])
    else
      var w := FirstWord(s);
      [w] + Words(s[|w|..])
  }

  function Collapsed(line: string): string { Join(Words(line), " ") }

  predicate IsDropped(collapsed: string) {
    collapsed == "" || "//" <= collapsed
  }

  function Normalised(lines: seq<string>): seq<string> {
    if lines == [] then []
    else (if IsDropped(Collapsed(lines[0])) then [] else [Collapsed(lines[0])]) + Normalised(lines[1..])
  }

  method Normalise(lines: seq<string>) returns (kept: seq<string>)
    ensures kept == Normalised(lines) && IsFile(kept)
  {
    NormalisedIsAFile(lines);
    hide *;
    kept := [];
    NoneNormalised();
    for i := 0 to |lines|
      invariant kept + Normalised(lines[i..]) == Normalised(lines)
    {
      NextNormalised(lines, i);
      var collapsed := Collapsed(lines[i]);
      if !IsDropped(collapsed) {
        kept := kept + [collapsed];
      }
    }
    assert lines[|lines|..] == [];
  }

  lemma NoneNormalised()
    ensures Normalised([]) == []
  {
  }

  lemma NextNormalised(lines: seq<string>, i: nat)
    requires i < |lines|
    ensures Normalised(lines[i..])
      == (if IsDropped(Collapsed(lines[i])) then [] else [Collapsed(lines[i])]) + Normalised(lines[i + 1..])
  {
    hide IsDropped, Collapsed;
    assert lines[i..][0] == lines[i] && lines[i..][1..] == lines[i + 1..];
  }

  // What collapsing keeps: the words of a line, and nothing of what stands between them.

  ghost predicate AllGaps(s: string) {
    forall c :: c in s ==> IsGap(c)
  }

  lemma {:induction false} GapsInFront(gap: string, b: string)
    requires AllGaps(gap)
    ensures Words(gap + b) == Words(b)
  {
    if gap == "" {
      assert gap + b == b;
    } else {
      assert gap[0] in gap && forall c :: c in gap[1..] ==> c in gap;
      GapsInFront(gap[1..], b);
      assert (gap + b)[1..] == gap[1..] + b;
    }
  }

  lemma {:induction false} FirstWordBefore(a: string, x: string)
    requires x == "" || IsGap(x[0])
    ensures FirstWord(a + x) == FirstWord(a)
  {
    if a == "" {
      assert a + x == x;
    } else if !IsGap(a[0]) {
      assert (a + x)[1..] == a[1..] + x;
      FirstWordBefore(a[1..], x);
    }
  }

  lemma {:induction false} WordsOfBoth(a: string, x: string)
    requires x == "" || IsGap(x[0])
    ensures Words(a + x) == Words(a) + Words(x)
    decreases |a|
  {
    if a == "" {
      assert a + x == x;
    } else if IsGap(a[0]) {
      assert (a + x)[1..] == a[1..] + x;
      WordsOfBoth(a[1..], x);
    } else {
      FirstWordBefore(a, x);
      var w := FirstWord(a);
      assert (a + x)[|w|..] == a[|w|..] + x;
      WordsOfBoth(a[|w|..], x);
      assert [w] + (Words(a[|w|..]) + Words(x)) == [w] + Words(a[|w|..]) + Words(x);
    }
  }

  ghost predicate AreWords(ws: seq<string>) {
    forall w :: w in ws ==> w != "" && forall c :: c in w ==> !IsGap(c)
  }

  lemma {:induction false} OneWord(w: string)
    requires w != "" && forall c :: c in w ==> !IsGap(c)
    ensures Words(w) == [w]
  {
    WholeWord(w);
    assert w[0] in w && w[|w|..] == "";
  }

  lemma {:induction false} WholeWord(w: string)
    requires forall c :: c in w ==> !IsGap(c)
    ensures FirstWord(w) == w
  {
    if w != "" {
      assert w[0] in w && forall c :: c in w[1..] ==> c in w;
      WholeWord(w[1..]);
      assert w == [w[0]] + w[1..];
    }
  }

  /** Words joined and split again are the words. */
  lemma {:induction false} JoinedComeBack(ws: seq<string>)
    requires AreWords(ws)
    ensures Words(Join(ws, " ")) == ws
  {
    if ws != [] {
      assert ws[0] in ws && forall w :: w in ws[1..] ==> w in ws;
      OneWord(ws[0]);
      if |ws| > 1 {
        JoinedComeBack(ws[1..]);
        var rest := Join(ws[1..], " ");
        assert Join(ws, " ") == ws[0] + (" " + rest);
        WordsOfBoth(ws[0], " " + rest);
        GapsInFront(" ", rest);
        assert ws == [ws[0]] + ws[1..];
      }
    }
  }

  /** Two lines are collapsed to one text exactly when they are of the same words. */
  lemma CollapsedExactly(line: string, other: string)
    ensures Collapsed(line) == Collapsed(other) <==> Words(line) == Words(other)
  {
    JoinedComeBack(Words(line));
    JoinedComeBack(Words(other));
  }

  /** How much stands between two words does not count, nor anything in front of the first or behind
      the last. */
  lemma GapsDoNotCount(a: string, gap: string, b: string)
    requires AllGaps(gap)
    ensures gap != "" ==> Collapsed(a + gap + b) == Collapsed(a + " " + b)
    ensures Collapsed(gap + b) == Collapsed(b) && Collapsed(a + gap) == Collapsed(a)
  {
    GapsInFront(gap, b);
    GapsBehind(a, gap);
    if gap != "" {
      GapsBetween(a, gap, b);
    }
    hide Words, AllGaps;
  }

  lemma GapsBehind(a: string, gap: string)
    requires AllGaps(gap)
    ensures Words(a + gap) == Words(a)
  {
    GapsInFront(gap, "");
    if gap == "" {
      assert a + gap == a;
    } else {
      assert gap + "" == gap && gap[0] in gap;
      WordsOfBoth(a, gap);
      hide Words;
      assert Words(a) + [] == Words(a);
    }
  }

  lemma GapsBetween(a: string, gap: string, b: string)
    requires AllGaps(gap) && gap != ""
    ensures Words(a + gap + b) == Words(a + " " + b) == Words(a) + Words(b)
  {
    assert gap[0] in gap;
    GapsInFront(gap, b);
    GapsInFront(" ", b);
    WordsOfBoth(a, gap + b);
    WordsOfBoth(a, " " + b);
    hide Words;
    assert a + gap + b == a + (gap + b) && a + " " + b == a + (" " + b);
  }

  /** A line is dropped exactly when nothing but gaps stands in it, or in front of two slashes. */
  lemma DroppedExactly(line: string)
    ensures IsDropped(Collapsed(line)) <==>
      exists i :: 0 <= i <= |line| && AllGaps(line[..i]) && (i == |line| || "//" <= line[i..])
  {
    if i :| 0 <= i <= |line| && AllGaps(line[..i]) && (i == |line| || "//" <= line[i..]) {
      GapsInFront(line[..i], line[i..]);
      assert line == line[..i] + line[i..];
      DroppedWithoutGaps(line[i..]);
    }
    if IsDropped(Collapsed(line)) {
      var i := Indentation(line);
      GapsInFront(line[..i], line[i..]);
      assert line == line[..i] + line[i..];
      DroppedWithoutGaps(line[i..]);
    }
  }

  function Indentation(line: string): (i: nat)
    ensures i <= |line| && AllGaps(line[..i]) && (i < |line| ==> !IsGap(line[i]))
  {
    if line == "" || !IsGap(line[0]) then 0 else
      var rest := Indentation(line[1..]);
      assert line[..rest + 1] == [line[0]] + line[1..][..rest];
      1 + rest
  }

  lemma DroppedWithoutGaps(line: string)
    requires line == "" || !IsGap(line[0])
    ensures IsDropped(Collapsed(line)) <==> line == "" || "//" <= line
  {
    if line != "" {
      var w := FirstWord(line);
      var more := Words(line[|w|..]);
      assert Words(line) == [w] + more && w != "" && w[0] == line[0];
      FirstWordIs(line);
      var c := Collapsed(line);
      assert c == if more == [] then w else w + " " + Join(more, " ") by {
        assert ([w] + more)[1..] == more;
      }
      hide Words, Collapsed, FirstWord;
      if "//" <= line {
        assert line[0] == '/' && line[1] == '/';
      }
      assert c != "" && c[0] == w[0];
      assert |w| >= 2 ==> c[1] == w[1];
      assert |w| == 1 && |c| >= 2 ==> c[1] == ' ';
      assert "//" <= c <==> |c| >= 2 && c[0] == '/' && c[1] == '/';
    }
  }

  lemma {:induction false} FirstWordIs(s: string)
    ensures FirstWord(s) <= s && (|FirstWord(s)| < |s| ==> IsGap(s[|FirstWord(s)|]))
  {
    if s != "" && !IsGap(s[0]) {
      FirstWordIs(s[1..]);
    }
  }

  /** Adding or removing a blank line or a comment changes nothing that is measured. */
  lemma {:induction false} CommentsDoNotCount(a: seq<string>, line: string, b: seq<string>)
    requires IsDropped(Collapsed(line))
    ensures Normalised(a + [line] + b) == Normalised(a + b)
  {
    hide IsDropped, Collapsed;
    if a == [] {
      assert (a + [line] + b)[1..] == b && a + b == b;
    } else {
      assert (a + [line] + b)[1..] == a[1..] + [line] + b;
      assert (a + b)[1..] == a[1..] + b;
      CommentsDoNotCount(a[1..], line, b);
    }
  }

  lemma {:induction false} JoinedWordsAreOneLine(words: seq<string>)
    requires forall w :: w in words ==> '\n' !in w
    ensures '\n' !in Join(words, " ")
  {
    if |words| == 1 {
      assert words[0] in words;
    } else if words != [] {
      assert words[0] in words;
      JoinedWordsAreOneLine(words[1..]);
    }
  }

  /** A file as it is measured: lines that hold no newline. */
  ghost predicate IsFile(lines: seq<string>) {
    forall l :: l in lines ==> '\n' !in l
  }

  lemma {:induction false} NormalisedIsAFile(lines: seq<string>)
    ensures IsFile(Normalised(lines))
  {
    if lines != [] {
      NormalisedIsAFile(lines[1..]);
      JoinedWordsAreOneLine(Words(lines[0]));
    }
  }

  // Windows.

  type Window = seq<string>

  function Chars(lines: seq<string>): nat {
    if lines == [] then 0 else |lines[0]| + Chars(lines[1..])
  }

  predicate IsWindow(lines: seq<string>, start: nat) {
    start + WINDOW <= |lines| && Chars(lines[start..start + WINDOW]) >= MIN_CHARS
  }

  function WindowAt(lines: seq<string>, start: nat): Window
    requires start + WINDOW <= |lines|
  {
    lines[start..start + WINDOW]
  }

  type Corpus = seq<seq<string>>

  /** Where a file holds a window, among the starts before `end`. */
  function StartsOf(lines: seq<string>, w: Window, end: nat): set<nat> {
    set start: nat | start < end && IsWindow(lines, start) && WindowAt(lines, start) == w
  }

  function CountIn(lines: seq<string>, w: Window): nat {
    |StartsOf(lines, w, |lines|)|
  }

  /** How often a window occurs in a corpus, at whatever places. */
  function Occurrences(corpus: Corpus, w: Window): nat {
    if corpus == [] then 0 else CountIn(corpus[0], w) + Occurrences(corpus[1..], w)
  }

  /** A line some repeated window covers. */
  predicate IsDuplicated(corpus: Corpus, lines: seq<string>, k: nat) {
    exists start: nat :: start <= k < start + WINDOW && IsWindow(lines, start) && Occurrences(corpus, WindowAt(lines, start)) > 1
  }

  function DuplicatedIn(corpus: Corpus, lines: seq<string>): set<nat> {
    set k: nat | k < |lines| && IsDuplicated(corpus, lines, k)
  }

  function DuplicatedOf(corpus: Corpus, files: Corpus): nat {
    if files == [] then 0 else |DuplicatedIn(corpus, files[0])| + DuplicatedOf(corpus, files[1..])
  }

  function TotalOf(files: Corpus): nat {
    if files == [] then 0 else |files[0]| + TotalOf(files[1..])
  }

  // Digests of windows.

  function WindowText(w: Window): string { Join(w, "\n") }

  function WindowsOf(corpus: Corpus): set<Window> {
    set f: nat, start: nat | f < |corpus| && start < |corpus[f]| && IsWindow(corpus[f], start) :: WindowAt(corpus[f], start)
  }

  /** The digest tells the windows of the corpus apart. */
  ghost predicate TellsApart(digest: string -> string, corpus: Corpus) {
    forall v, w :: v in WindowsOf(corpus) && w in WindowsOf(corpus) && digest(WindowText(v)) == digest(WindowText(w))
      ==> WindowText(v) == WindowText(w)
  }

  lemma {:induction false} TextsAreExact(v: Window, w: Window)
    requires |v| == |w| && IsFile(v) && IsFile(w)
    requires WindowText(v) == WindowText(w)
    ensures v == w
  {
    if |v| == 1 {
      assert v == [v[0]] && w == [w[0]];
    } else if |v| > 1 {
      assert v[0] in v && w[0] in w;
      var x, y := WindowText(v[1..]), WindowText(w[1..]);
      assert WindowText(v) == v[0] + "\n" + x && WindowText(w) == w[0] + "\n" + y;
      NewlineEnds(v[0], x);
      NewlineEnds(w[0], y);
      assert v[0] == WindowText(v)[..|v[0]|] && w[0] == WindowText(w)[..|w[0]|];
      assert x == WindowText(v)[|v[0]| + 1..] && y == WindowText(w)[|w[0]| + 1..];
      TextsAreExact(v[1..], w[1..]);
      assert v == [v[0]] + v[1..] && w == [w[0]] + w[1..];
    }
  }

  lemma WindowsAreToldApart(digest: string -> string, corpus: Corpus, v: Window, w: Window)
    requires TellsApart(digest, corpus) && forall f :: f in corpus ==> IsFile(f)
    requires v in WindowsOf(corpus) && w in WindowsOf(corpus)
    ensures digest(WindowText(v)) == digest(WindowText(w)) <==> v == w
  {
    var f: nat, i: nat :| 0 <= f < |corpus| && 0 <= i < |corpus[f]| && IsWindow(corpus[f], i) && v == WindowAt(corpus[f], i);
    var g: nat, j: nat :| 0 <= g < |corpus| && 0 <= j < |corpus[g]| && IsWindow(corpus[g], j) && w == WindowAt(corpus[g], j);
    assert corpus[f] in corpus && corpus[g] in corpus;
    if digest(WindowText(v)) == digest(WindowText(w)) {
      TextsAreExact(v, w);
    }
  }

  // Measuring.

  /** How often each digest was met. */
  type Seen = map<string, nat>

  function SeenAt(seen: Seen, d: string): nat {
    if d in seen then seen[d] else 0
  }

  function LastStart(lines: seq<string>): (n: nat)
    ensures forall start: nat :: IsWindow(lines, start) ==> start < n
    ensures n <= |lines|
  {
    if |lines| >= WINDOW then |lines| - WINDOW + 1 else 0
  }

  lemma StartsOfNext(lines: seq<string>, w: Window, start: nat)
    ensures StartsOf(lines, w, start + 1)
         == StartsOf(lines, w, start) + (if IsWindow(lines, start) && WindowAt(lines, start) == w then {start} else {})
    ensures |StartsOf(lines, w, start + 1)|
         == |StartsOf(lines, w, start)| + (if IsWindow(lines, start) && WindowAt(lines, start) == w then 1 else 0)
  {
    assert start !in StartsOf(lines, w, start);
  }

  lemma StartsOfAll(lines: seq<string>, w: Window)
    ensures StartsOf(lines, w, LastStart(lines)) == StartsOf(lines, w, |lines|)
    ensures StartsOf(lines, w, 0) == {}
  {
  }

  /** What `seen` must say of every window of the corpus. */
  ghost predicate Counts(digest: string -> string, corpus: Corpus, seen: Seen, count: Window -> int) {
    forall w :: w in WindowsOf(corpus) ==> SeenAt(seen, digest(WindowText(w))) == count(w)
  }

  function CountSoFar(before: Corpus, lines: seq<string>, end: nat): Window -> int {
    (w: Window) => Occurrences(before, w) + |StartsOf(lines, w, end)|
  }

  function CountOfAll(corpus: Corpus): Window -> int {
    (w: Window) => Occurrences(corpus, w)
  }

  lemma OneMoreCounts(digest: string -> string, corpus: Corpus, f: nat, start: nat, seen: Seen)
    requires forall file :: file in corpus ==> IsFile(file)
    requires TellsApart(digest, corpus) && f < |corpus|
    requires Counts(digest, corpus, seen, CountSoFar(corpus[..f], corpus[f], start))
    ensures
      var next := if IsWindow(corpus[f], start)
        then var d := digest(WindowText(WindowAt(corpus[f], start))); seen[d := SeenAt(seen, d) + 1] else seen;
      Counts(digest, corpus, next, CountSoFar(corpus[..f], corpus[f], start + 1))
  {
    var lines := corpus[f];
    forall w | w in WindowsOf(corpus)
      ensures
        var next := if IsWindow(lines, start)
          then var d := digest(WindowText(WindowAt(lines, start))); seen[d := SeenAt(seen, d) + 1] else seen;
        SeenAt(next, digest(WindowText(w))) == CountSoFar(corpus[..f], lines, start + 1)(w)
    {
      StartsOfNext(lines, w, start);
      assert SeenAt(seen, digest(WindowText(w))) == CountSoFar(corpus[..f], lines, start)(w);
      if IsWindow(lines, start) {
        WindowsAreToldApart(digest, corpus, WindowAt(lines, start), w);
      }
    }
  }

  method CountWindows(digest: string -> string, ghost corpus: Corpus, lines: seq<string>, ghost f: nat, seen: Seen)
    returns (next: Seen)
    requires forall file :: file in corpus ==> IsFile(file)
    requires TellsApart(digest, corpus) && f < |corpus| && lines == corpus[f]
    requires Counts(digest, corpus, seen, CountSoFar(corpus[..f], lines, 0))
    ensures Counts(digest, corpus, next, CountSoFar(corpus[..f], lines, LastStart(lines)))
  {
    next := seen;
    for start := 0 to LastStart(lines)
      invariant Counts(digest, corpus, next, CountSoFar(corpus[..f], lines, start))
    {
      OneMoreCounts(digest, corpus, f, start, next);
      hide Counts, CountSoFar;
      if IsWindow(lines, start) {
        var d := digest(WindowText(WindowAt(lines, start)));
        next := next[d := SeenAt(next, d) + 1];
      }
    }
  }

  lemma {:induction false} OccurrencesWithOneMore(files: Corpus, lines: seq<string>, w: Window)
    ensures Occurrences(files + [lines], w) == Occurrences(files, w) + CountIn(lines, w)
  {
    hide CountIn;
    if files == [] {
      assert files + [lines] == [lines] && [lines][1..] == [];
    } else {
      assert (files + [lines])[1..] == files[1..] + [lines];
      OccurrencesWithOneMore(files[1..], lines, w);
    }
  }

  lemma NextFileCounts(digest: string -> string, corpus: Corpus, f: nat, seen: Seen)
    requires f < |corpus|
    requires Counts(digest, corpus, seen, CountSoFar(corpus[..f], corpus[f], LastStart(corpus[f])))
    ensures Counts(digest, corpus, seen, CountOfAll(corpus[..f + 1]))
  {
    forall w | w in WindowsOf(corpus)
      ensures CountSoFar(corpus[..f], corpus[f], LastStart(corpus[f]))(w) == CountOfAll(corpus[..f + 1])(w)
    {
      StartsOfAll(corpus[f], w);
      OccurrencesWithOneMore(corpus[..f], corpus[f], w);
      assert corpus[..f + 1] == corpus[..f] + [corpus[f]];
    }
  }

  lemma FileStartsCounting(digest: string -> string, corpus: Corpus, f: nat, seen: Seen)
    requires f < |corpus|
    requires Counts(digest, corpus, seen, CountOfAll(corpus[..f]))
    ensures Counts(digest, corpus, seen, CountSoFar(corpus[..f], corpus[f], 0))
  {
    forall w | w in WindowsOf(corpus)
      ensures CountSoFar(corpus[..f], corpus[f], 0)(w) == CountOfAll(corpus[..f])(w)
    {
      StartsOfAll(corpus[f], w);
    }
  }

  /** The lines of one file that a repeated window covers, marked. */
  method Mark(digest: string -> string, ghost corpus: Corpus, lines: seq<string>, ghost f: nat, seen: Seen)
    returns (marked: array<bool>)
    requires f < |corpus| && lines == corpus[f]
    requires Counts(digest, corpus, seen, CountOfAll(corpus))
    ensures fresh(marked) && marked.Length == |lines|
    ensures forall k: nat :: k < |lines| ==> (marked[k] <==> IsMarked(corpus, lines, k, LastStart(lines)))
  {
    marked := new bool[|lines|](_ => false);
    for start := 0 to LastStart(lines)
      invariant forall k: nat :: k < |lines| ==> (marked[k] <==> IsMarked(corpus, lines, k, start))
    {
      if IsWindow(lines, start) {
        var w := WindowAt(lines, start);
        assert w in WindowsOf(corpus);
        if SeenAt(seen, digest(WindowText(w))) > 1 {
          for index := start to start + WINDOW
            invariant forall k: nat :: k < |lines| ==>
              (marked[k] <==> IsMarked(corpus, lines, k, start) || start <= k < index)
          {
            marked[index] := true;
          }
        }
      }
      forall k: nat | k < |lines|
        ensures marked[k] <==> IsMarked(corpus, lines, k, start + 1)
      {
        MarkedNext(corpus, lines, k, start);
      }
    }
  }

  method CountTrue(marked: array<bool>) returns (count: nat)
    ensures count == |set k: nat | k < marked.Length && marked[k]|
  {
    count := 0;
    for i := 0 to marked.Length
      invariant count == |set k: nat | k < i && marked[k]|
    {
      ghost var soFar := set k: nat | k < i && marked[k];
      assert (set k: nat | k < i + 1 && marked[k]) == if marked[i] then soFar + {i} else soFar;
      assert i !in soFar;
      if marked[i] {
        count := count + 1;
      }
    }
  }

  method CountMarked(digest: string -> string, ghost corpus: Corpus, lines: seq<string>, ghost f: nat, seen: Seen)
    returns (count: nat)
    requires f < |corpus| && lines == corpus[f]
    requires Counts(digest, corpus, seen, CountOfAll(corpus))
    ensures count == |DuplicatedIn(corpus, lines)|
  {
    var marked := Mark(digest, corpus, lines, f, seen);
    forall k: nat | k < |lines|
      ensures marked[k] <==> IsDuplicated(corpus, lines, k)
    {
      MarkedAtLast(corpus, lines, k);
    }
    hide IsDuplicated;
    count := CountTrue(marked);
    assert DuplicatedIn(corpus, lines) == set k: nat | k < marked.Length && marked[k];
  }

  /** Covered by a repeated window that starts before `end`. */
  ghost predicate IsMarked(corpus: Corpus, lines: seq<string>, k: nat, end: nat) {
    exists start: nat :: start < end && start <= k < start + WINDOW && IsWindow(lines, start)
      && Occurrences(corpus, WindowAt(lines, start)) > 1
  }

  lemma MarkedNext(corpus: Corpus, lines: seq<string>, k: nat, start: nat)
    ensures IsMarked(corpus, lines, k, start + 1)
       <==> IsMarked(corpus, lines, k, start)
            || (start <= k < start + WINDOW && IsWindow(lines, start) && Occurrences(corpus, WindowAt(lines, start)) > 1)
  {
  }

  lemma MarkedAtLast(corpus: Corpus, lines: seq<string>, k: nat)
    ensures IsMarked(corpus, lines, k, LastStart(lines)) <==> IsDuplicated(corpus, lines, k)
  {
  }

  /** The two counts: lines some repeated window covers, and lines. */
  method Measure(digest: string -> string, corpus: Corpus) returns (duplicated: nat, total: nat)
    requires forall file :: file in corpus ==> IsFile(file)
    requires TellsApart(digest, corpus)
    ensures duplicated == DuplicatedOf(corpus, corpus)
    ensures total == TotalOf(corpus) && duplicated <= total
  {
    var seen: Seen := map[];
    assert corpus[..0] == [];
    for f := 0 to |corpus|
      invariant Counts(digest, corpus, seen, CountOfAll(corpus[..f]))
    {
      FileStartsCounting(digest, corpus, f, seen);
      seen := CountWindows(digest, corpus, corpus[f], f, seen);
      NextFileCounts(digest, corpus, f, seen);
    }
    assert corpus[..|corpus|] == corpus;
    duplicated, total := 0, 0;
    for f := 0 to |corpus|
      invariant duplicated + DuplicatedOf(corpus, corpus[f..]) == DuplicatedOf(corpus, corpus)
      invariant total + TotalOf(corpus[f..]) == TotalOf(corpus)
    {
      assert corpus[f..][1..] == corpus[f + 1..];
      var count := CountMarked(digest, corpus, corpus[f], f, seen);
      hide DuplicatedIn, Counts;
      duplicated := duplicated + count;
      total := total + |corpus[f]|;
    }
    assert corpus[|corpus|..] == [];
    DuplicatedWithinTotal(corpus, corpus);
  }

  // What the counts mean.

  /** The window stands in file `f` at line `i`. */
  ghost predicate StandsAt(corpus: Corpus, w: Window, f: nat, i: nat) {
    f < |corpus| && i in StartsOf(corpus[f], w, |corpus[f]|)
  }

  ghost predicate OccursTwice(corpus: Corpus, w: Window) {
    exists f: nat, i: nat, g: nat, j: nat :: StandsAt(corpus, w, f, i) && StandsAt(corpus, w, g, j) && (f != g || i != j)
  }

  ghost predicate OccursOnce(corpus: Corpus, w: Window) {
    exists f: nat, i: nat :: StandsAt(corpus, w, f, i)
  }

  lemma Members(s: set<nat>)
    ensures |s| > 0 <==> exists i :: i in s
    ensures |s| > 1 <==> exists i, j :: i in s && j in s && i != j
  {
    if i :| i in s {
      var rest := s - {i};
      assert s == rest + {i};
      if j :| j in rest {
        assert j in s && i in s && j != i;
        assert |rest| > 0;
      } else {
        assert rest == {};
        assert forall a :: a in s ==> a == i;
      }
    } else {
      assert s == {};
    }
  }

  lemma {:induction false} OccurrencesAreOnce(corpus: Corpus, w: Window)
    ensures Occurrences(corpus, w) > 0 <==> OccursOnce(corpus, w)
  {
    hide StartsOf;
    if corpus != [] {
      var rest := corpus[1..];
      OccurrencesAreOnce(rest, w);
      Members(StartsOf(corpus[0], w, |corpus[0]|));
      if i :| i in StartsOf(corpus[0], w, |corpus[0]|) {
        assert StandsAt(corpus, w, 0, i);
      }
      if f: nat, i: nat :| StandsAt(rest, w, f, i) {
        assert StandsAt(corpus, w, f + 1, i);
      }
      if OccursOnce(corpus, w) {
        var f: nat, i: nat :| StandsAt(corpus, w, f, i);
        assert f > 0 ==> StandsAt(rest, w, f - 1, i);
      }
    }
  }

  ghost predicate TwiceInOne(first: seq<string>, w: Window) {
    exists i, j :: i in StartsOf(first, w, |first|) && j in StartsOf(first, w, |first|) && i != j
  }

  ghost predicate OnceInOne(first: seq<string>, w: Window) {
    exists i :: i in StartsOf(first, w, |first|)
  }

  lemma TwiceComesFrom(first: seq<string>, rest: Corpus, w: Window)
    requires OccursTwice([first] + rest, w)
    ensures TwiceInOne(first, w) || (OnceInOne(first, w) && OccursOnce(rest, w)) || OccursTwice(rest, w)
  {
    hide StartsOf;
    var corpus := [first] + rest;
    var f: nat, i: nat, g: nat, j: nat :| StandsAt(corpus, w, f, i) && StandsAt(corpus, w, g, j) && (f != g || i != j);
    assert f > 0 ==> StandsAt(rest, w, f - 1, i);
    assert g > 0 ==> StandsAt(rest, w, g - 1, j);
  }

  lemma TwiceGoesTo(first: seq<string>, rest: Corpus, w: Window)
    requires TwiceInOne(first, w) || (OnceInOne(first, w) && OccursOnce(rest, w)) || OccursTwice(rest, w)
    ensures OccursTwice([first] + rest, w)
  {
    hide StartsOf;
    var corpus := [first] + rest;
    if TwiceInOne(first, w) {
      var i, j :| i in StartsOf(first, w, |first|) && j in StartsOf(first, w, |first|) && i != j;
      assert StandsAt(corpus, w, 0, i) && StandsAt(corpus, w, 0, j);
    } else if OnceInOne(first, w) && OccursOnce(rest, w) {
      var i :| i in StartsOf(first, w, |first|);
      var g: nat, j: nat :| StandsAt(rest, w, g, j);
      assert StandsAt(corpus, w, 0, i) && StandsAt(corpus, w, g + 1, j);
    } else {
      var f: nat, i: nat, g: nat, j: nat :| StandsAt(rest, w, f, i) && StandsAt(rest, w, g, j) && (f != g || i != j);
      assert StandsAt(corpus, w, f + 1, i) && StandsAt(corpus, w, g + 1, j);
    }
  }

  /** A window counts as repeated exactly when two different places hold it, in one file or two. */
  lemma {:induction false} RepeatedAtTwoPlaces(corpus: Corpus, w: Window)
    ensures Occurrences(corpus, w) > 1 <==> OccursTwice(corpus, w)
  {
    if corpus != [] {
      var first, rest := corpus[0], corpus[1..];
      assert corpus == [first] + rest;
      RepeatedAtTwoPlaces(rest, w);
      OccurrencesAreOnce(rest, w);
      if OccursTwice(corpus, w) {
        TwiceComesFrom(first, rest, w);
      } else if TwiceInOne(first, w) || (OnceInOne(first, w) && OccursOnce(rest, w)) || OccursTwice(rest, w) {
        TwiceGoesTo(first, rest, w);
      }
      Members(StartsOf(first, w, |first|));
      hide StartsOf, OccursTwice, OccursOnce;
    }
  }

  /** These six lines stand in a file from this one on. */
  ghost predicate SixAt(corpus: Corpus, f: nat, start: nat, six: seq<string>) {
    f < |corpus| && start + 6 <= |corpus[f]| && corpus[f][start..start + 6] == six
  }

  /** Six lines with seventy-two characters between them. */
  predicate IsSix(six: seq<string>) {
    |six| == 6 && |six[0]| + |six[1]| + |six[2]| + |six[3]| + |six[4]| + |six[5]| >= 72
  }

  lemma CharsOfSix(six: seq<string>)
    requires |six| == 6
    ensures Chars(six) == |six[0]| + |six[1]| + |six[2]| + |six[3]| + |six[4]| + |six[5]|
  {
    assert six[1..][1..] == six[2..] && six[2..][1..] == six[3..] && six[3..][1..] == six[4..] && six[4..][1..] == six[5..];
    assert six[5..][1..] == [];
    assert Chars(six[5..]) == |six[5]| && Chars(six[4..]) == |six[4]| + Chars(six[5..]);
    assert Chars(six[3..]) == |six[3]| + Chars(six[4..]) && Chars(six[2..]) == |six[2]| + Chars(six[3..]);
    assert Chars(six[1..]) == |six[1]| + Chars(six[2..]);
  }

  lemma StandsExactly(corpus: Corpus, six: seq<string>, f: nat, start: nat)
    ensures StandsAt(corpus, six, f, start) <==> SixAt(corpus, f, start, six) && IsSix(six)
  {
    if SixAt(corpus, f, start, six) {
      CharsOfSix(six);
    }
    if StandsAt(corpus, six, f, start) {
      CharsOfSix(six);
    }
    hide Chars;
  }

  /** The places a line is counted for: some six lines, long enough, that cover it stand at another place too. */
  ghost predicate IsCopied(corpus: Corpus, f: nat, k: nat) {
    exists start: nat, six :: start <= k < start + 6 && SixAt(corpus, f, start, six) && IsSix(six) && StandElsewhere(corpus, f, start, six)
  }

  ghost predicate StandElsewhere(corpus: Corpus, f: nat, start: nat, six: seq<string>) {
    exists g: nat, a: nat :: (g != f || a != start) && SixAt(corpus, g, a, six)
  }

  lemma ElsewhereExactly(corpus: Corpus, f: nat, start: nat, six: seq<string>)
    requires SixAt(corpus, f, start, six) && IsSix(six)
    ensures Occurrences(corpus, six) > 1 <==> StandElsewhere(corpus, f, start, six)
  {
    RepeatedAtTwoPlaces(corpus, six);
    hide SixAt, IsSix, StandsAt, Occurrences;
    forall g: nat, a: nat
      ensures StandsAt(corpus, six, g, a) <==> SixAt(corpus, g, a, six) && IsSix(six)
    {
      StandsExactly(corpus, six, g, a);
    }
  }

  /** Which lines of a file are duplicated: exactly those. */
  lemma DuplicatedExactly(corpus: Corpus, f: nat, k: nat)
    requires f < |corpus|
    ensures k in DuplicatedIn(corpus, corpus[f]) <==> k < |corpus[f]| && IsCopied(corpus, f, k)
  {
    hide Occurrences, Chars, StandElsewhere;
    var lines := corpus[f];
    if k in DuplicatedIn(corpus, lines) {
      var start: nat :| start <= k < start + WINDOW && IsWindow(lines, start) && Occurrences(corpus, WindowAt(lines, start)) > 1;
      StandsExactly(corpus, WindowAt(lines, start), f, start);
      ElsewhereExactly(corpus, f, start, WindowAt(lines, start));
    }
    if k < |lines| && IsCopied(corpus, f, k) {
      var start: nat, six :| start <= k < start + 6 && SixAt(corpus, f, start, six) && IsSix(six) && StandElsewhere(corpus, f, start, six);
      StandsExactly(corpus, six, f, start);
      ElsewhereExactly(corpus, f, start, six);
      assert IsWindow(lines, start) && WindowAt(lines, start) == six;
    }
  }

  // The order of files.

  lemma {:induction false} OccurrencesWithout(corpus: Corpus, at: nat, w: Window)
    requires at < |corpus|
    ensures Occurrences(corpus, w) == CountIn(corpus[at], w) + Occurrences(corpus[..at] + corpus[at + 1..], w)
  {
    hide CountIn;
    if at == 0 {
      assert corpus[..0] + corpus[1..] == corpus[1..];
    } else {
      OccurrencesWithout(corpus[1..], at - 1, w);
      assert (corpus[..at] + corpus[at + 1..])[1..] == corpus[1..][..at - 1] + corpus[1..][at..];
    }
  }

  lemma Without(a: Corpus, b: Corpus, at: nat)
    requires a != [] && multiset(a) == multiset(b)
    requires at < |b| && b[at] == a[0]
    ensures multiset(a[1..]) == multiset(b[..at] + b[at + 1..])
  {
    assert a == [a[0]] + a[1..];
    assert b == b[..at] + [b[at]] + b[at + 1..];
    assert multiset(a) == multiset{a[0]} + multiset(a[1..]);
    assert multiset(b) == multiset{b[at]} + multiset(b[..at] + b[at + 1..]);
    assert multiset(a[1..]) == multiset(a) - multiset{a[0]};
    assert multiset(b[..at] + b[at + 1..]) == multiset(b) - multiset{b[at]};
  }

  lemma {:induction false} OccurrencesAreUnordered(a: Corpus, b: Corpus, w: Window)
    requires multiset(a) == multiset(b)
    ensures Occurrences(a, w) == Occurrences(b, w)
    decreases |a|
  {
    if a == [] {
      assert |b| == |multiset(b)| == |multiset(a)| == 0;
    } else {
      assert a[0] in multiset(b);
      var at :| 0 <= at < |b| && b[at] == a[0];
      Without(a, b, at);
      OccurrencesAreUnordered(a[1..], b[..at] + b[at + 1..], w);
      OccurrencesWithout(b, at, w);
    }
  }

  lemma {:induction false} DuplicatedWithout(corpus: Corpus, files: Corpus, at: nat)
    requires at < |files|
    ensures DuplicatedOf(corpus, files) == |DuplicatedIn(corpus, files[at])| + DuplicatedOf(corpus, files[..at] + files[at + 1..])
    ensures TotalOf(files) == |files[at]| + TotalOf(files[..at] + files[at + 1..])
  {
    hide DuplicatedIn;
    if at == 0 {
      assert files[..0] + files[1..] == files[1..];
    } else {
      DuplicatedWithout(corpus, files[1..], at - 1);
      assert (files[..at] + files[at + 1..])[1..] == files[1..][..at - 1] + files[1..][at..];
    }
  }

  lemma {:induction false} DuplicatedIsUnordered(corpus: Corpus, other: Corpus, a: Corpus, b: Corpus)
    requires forall w :: Occurrences(corpus, w) == Occurrences(other, w)
    requires multiset(a) == multiset(b)
    ensures DuplicatedOf(corpus, a) == DuplicatedOf(other, b)
    ensures TotalOf(a) == TotalOf(b)
    decreases |a|
  {
    if a == [] {
      assert |b| == |multiset(b)| == |multiset(a)| == 0;
    } else {
      assert a[0] in multiset(b);
      var at :| 0 <= at < |b| && b[at] == a[0];
      Without(a, b, at);
      DuplicatedIsUnordered(corpus, other, a[1..], b[..at] + b[at + 1..]);
      DuplicatedWithout(other, b, at);
      assert DuplicatedIn(corpus, a[0]) == DuplicatedIn(other, a[0]);
    }
  }

  /** Neither count depends on the order the files are read in. */
  lemma FileOrderDoesNotMatter(a: Corpus, b: Corpus)
    requires multiset(a) == multiset(b)
    ensures DuplicatedOf(a, a) == DuplicatedOf(b, b)
    ensures TotalOf(a) == TotalOf(b)
  {
    forall w
      ensures Occurrences(a, w) == Occurrences(b, w)
    {
      OccurrencesAreUnordered(a, b, w);
    }
    DuplicatedIsUnordered(a, b, a, b);
  }

  /** Nothing is counted that is not there. */
  lemma {:induction false} DuplicatedWithinTotal(corpus: Corpus, files: Corpus)
    ensures DuplicatedOf(corpus, files) <= TotalOf(files)
  {
    if files != [] {
      DuplicatedWithinTotal(corpus, files[1..]);
      UpTo(|files[0]|, DuplicatedIn(corpus, files[0]));
    }
  }

  lemma {:induction false} UpTo(n: nat, s: set<nat>)
    requires forall k :: k in s ==> 0 <= k < n
    ensures |s| <= n
  {
    if n > 0 {
      UpTo(n - 1, s - {n - 1});
      assert s <= (s - {n - 1}) + {n - 1};
      assert s == (s - {n - 1}) || s == (s - {n - 1}) + {n - 1};
    } else {
      assert s == {};
    }
  }
}
