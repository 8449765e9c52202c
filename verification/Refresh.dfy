/** Keeping a home's copy of a checkout's refs as new as the checkout: a stamp of the refs read
    without starting a process, and a fetch when the home has not recorded that stamp. */
module Refresh {
  import opened Wrappers
  import opened Text

  // Stamps.

  datatype Stamp = Stamp(newest: nat, entries: nat, readable: bool)

  const UNREADABLE := Stamp(0, 0, false)

  /** The line a home records, compared as text. */
  function Line(s: Stamp): string {
    Decimal(s.newest) + " " + Decimal(s.entries) + "\n"
  }

  lemma SplitAtSpace(a: string, b: string, c: string, d: string)
    requires ' ' !in a && ' ' !in c
    requires a + " " + b == c + " " + d
    ensures a == c && b == d
  {
    var s := a + " " + b;
    assert s[|a|] == ' ' && forall i :: 0 <= i < |a| ==> s[i] == a[i];
    assert s[|c|] == ' ' && forall i :: 0 <= i < |c| ==> s[i] == c[i];
    assert |a| == |c|;
    assert a == s[..|a|] && b == s[|a| + 1..];
    assert c == s[..|c|] && d == s[|c| + 1..];
  }

  /** Two stamps write one line exactly when they are the same reading. */
  lemma LineIsExact(a: Stamp, b: Stamp)
    ensures Line(a) == Line(b) <==> a.newest == b.newest && a.entries == b.entries
  {
    if Line(a) == Line(b) {
      var x, y := Decimal(a.entries) + "\n", Decimal(b.entries) + "\n";
      assert Line(a) == Decimal(a.newest) + " " + x && Line(b) == Decimal(b.newest) + " " + y;
      SplitAtSpace(Decimal(a.newest), x, Decimal(b.newest), y);
      assert x[..|x| - 1] == Decimal(a.entries) && y[..|y| - 1] == Decimal(b.entries);
      DecimalIsExact(a.newest, b.newest);
      DecimalIsExact(a.entries, b.entries);
    }
  }

  // Reading a checkout's refs.

  /** What `stat` finds at a path. A time before the epoch, or none, is not a time here, and a
      directory that cannot be listed has nothing in it. */
  datatype Entry =
    | Gone
    | Plain(modified: Option<nat>)
    | Directory(modified: Option<nat>, children: seq<Entry>)

  datatype GitDir = GitDir(head: Entry, packed: Entry, refs: Entry)

  function Times(e: Entry): set<nat> {
    match e
    case Gone => {}
    case Plain(modified) => Time(modified)
    case Directory(modified, children) => Time(modified) + TimesIn(children)
  }

  function TimesIn(es: seq<Entry>): set<nat> {
    if es == [] then {} else Times(es[0]) + TimesIn(es[1..])
  }

  function Time(modified: Option<nat>): set<nat> {
    if modified.Some? then {modified.value} else {}
  }

  /** How many paths answered, directories among them. */
  function Answering(e: Entry): nat {
    match e
    case Gone => 0
    case Plain(_) => 1
    case Directory(_, children) => 1 + AnsweringIn(children)
  }

  function AnsweringIn(es: seq<Entry>): nat {
    if es == [] then 0 else Answering(es[0]) + AnsweringIn(es[1..])
  }

  /** `newest` is the latest of `times` and `from`. */
  ghost predicate IsLatest(newest: nat, from: nat, times: set<nat>) {
    && newest >= from
    && (forall t :: t in times ==> t <= newest)
    && (newest == from || newest in times)
  }

  /** What a reading of a checkout must say. */
  ghost predicate Reads(s: Stamp, checkout: Option<GitDir>) {
    match checkout
    case None => s == UNREADABLE
    case Some(dir) =>
      && s.readable
      && IsLatest(s.newest, 0, Times(dir.head) + Times(dir.packed) + Times(dir.refs))
      && s.entries == Answering(dir.head) + Answering(dir.packed) + Answering(dir.refs)
  }

  class Reading {
    var newest: nat
    var entries: nat

    constructor ()
      ensures newest == 0 && entries == 0
    {
      newest, entries := 0, 0;
    }

    /** One path that answered, with its modification time if it has one. */
    method See(modified: Option<nat>)
      modifies this
      ensures IsLatest(newest, old(newest), Time(modified))
      ensures entries == old(entries) + 1
    {
      entries := entries + 1;
      if modified.Some? && modified.value > newest {
        newest := modified.value;
      }
    }

    /** A path and everything under it. */
    method Walk(e: Entry)
      modifies this
      ensures IsLatest(newest, old(newest), Times(e))
      ensures entries == old(entries) + Answering(e)
      decreases e
    {
      if e.Gone? {
        return;
      }
      See(e.modified);
      if e.Directory? {
        label Seen:
        var children := e.children;
        ghost var times: set<nat> := {};
        for i := 0 to |children|
          invariant times + TimesIn(children[i..]) == TimesIn(children)
          invariant IsLatest(newest, old@Seen(newest), times)
          invariant entries + AnsweringIn(children[i..]) == old@Seen(entries) + AnsweringIn(children)
        {
          Walk(children[i]);
          assert children[i..][1..] == children[i + 1..];
          times := times + Times(children[i]);
        }
      }
    }
  }

  /** Read the refs of the checkout whose Git directory this is, if it has one. */
  method TakeStamp(checkout: Option<GitDir>) returns (s: Stamp)
    ensures Reads(s, checkout)
  {
    if checkout.None? {
      return UNREADABLE;
    }
    var reading := new Reading();
    reading.Walk(checkout.value.head);
    reading.Walk(checkout.value.packed);
    reading.Walk(checkout.value.refs);
    s := Stamp(reading.newest, reading.entries, true);
  }

  /** There is one reading of a checkout; and a checkout that has since been written at a later
      time, or has more or fewer paths, reads otherwise. */
  lemma ReadingsDiffer(before: Option<GitDir>, after: Option<GitDir>, a: Stamp, b: Stamp)
    requires Reads(a, before) && Reads(b, after)
    ensures before == after ==> a == b
    ensures
      before.Some? && after.Some? ==>
        var (x, y) := (before.value, after.value);
        (|| (exists t :: t in Times(y.head) + Times(y.packed) + Times(y.refs) && t > a.newest)
         || Answering(y.head) + Answering(y.packed) + Answering(y.refs)
            != Answering(x.head) + Answering(x.packed) + Answering(x.refs))
        ==> Line(a) != Line(b)
  {
    LineIsExact(a, b);
  }

  // Refreshing a home.

  /** A checkout's own reading of its remote, and its own branches: all a home mirrors. */
  datatype Refs = Refs(origin: map<string, nat>, heads: map<string, nat>)

  /** A home: whether it has a Git directory, its mirror, and its stamp file. */
  datatype State = State(gitDir: bool, mirror: Refs, file: Option<string>)

  predicate Matches(home: State, s: Stamp) {
    home.gitDir && s.readable && home.file == Some(Line(s))
  }

  function Recorded(home: State, s: Stamp): State {
    if home.gitDir && s.readable then home.(file := Some(Line(s))) else home
  }

  /** What a write of the stamp that was cut short leaves: nothing new, or the line's first characters. */
  function CutShort(home: State, s: Stamp, left: Option<nat>): State {
    if home.gitDir && left.Some? && left.value < |Line(s)| then home.(file := Some(Line(s)[..left.value])) else home
  }

  /** How a fetch by path went, and how the write of the stamp after it did. */
  datatype Written = Whole | Failed(left: Option<nat>)

  datatype Luck = Luck(fetches: bool, writes: Written)

  /** A home brought up to a stamp: fetched unless the stamp is recorded already, and recorded only
      after a fetch that worked. */
  function Ensured(home: State, checkout: Refs, s: Stamp, luck: Luck): (State, bool) {
    if !s.readable || Matches(home, s) then (home, true)
    else if !luck.fetches then (home, false)
    else
      var fetched := home.(mirror := checkout);
      match luck.writes
      case Whole => (Recorded(fetched, s), true)
      case Failed(left) => (CutShort(fetched, s, left), !home.gitDir)
  }

  /** What holds a stamp once one was recorded: that reading and no other. A home without a Git
      directory, and a stamp that could not be read, hold nothing. */
  lemma HeldExactly(home: State, s: Stamp, t: Stamp)
    requires s.readable
    ensures Matches(Recorded(home, s), t) <==> home.gitDir && t == s
    ensures forall left: nat :: !Matches(CutShort(home, s, Some(left)), t) || Matches(home, t)
  {
    LineIsExact(s, t);
    forall left: nat | left < |Line(s)|
      ensures Line(s)[..left] != Line(t)
    {
      CutLineIsNoLine(s, left, t);
    }
  }

  /** A stamp that holds, or one that could not be read, costs no fetch; otherwise the home mirrors the checkout or
      the refresh failed and the home is as it was. And once it succeeded, the same stamp costs no second. */
  lemma RefreshedOnce(home: State, checkout: Refs, s: Stamp, luck: Luck, later: Refs, again: Luck)
    ensures
      var (one, ok) := Ensured(home, checkout, s, luck);
      && (!s.readable || Matches(home, s) ==> one == home && ok)
      && (s.readable && !Matches(home, s) ==> if luck.fetches then one.mirror == checkout else one == home && !ok)
      && (s.readable && home.gitDir && ok ==> Ensured(one, later, s, again) == (one, true))
  {
    if s.readable {
      HeldExactly(home.(mirror := checkout), s, s);
    }
  }

  lemma CutLineIsNoLine(s: Stamp, left: nat, t: Stamp)
    requires left < |Line(s)|
    ensures Line(s)[..left] != Line(t)
  {
    var digits := Decimal(s.newest) + " " + Decimal(s.entries);
    assert Line(s) == digits + "\n";
    assert forall i :: 0 <= i < |digits| ==> digits[i] != '\n';
    assert Line(t)[|Line(t)| - 1] == '\n';
  }

  class Home {
    var gitDir: bool
    var mirror: Refs
    var file: Option<string>

    ghost function Now(): State
      reads this
    {
      State(gitDir, mirror, file)
    }

    constructor (s: State)
      ensures Now() == s
    {
      gitDir, mirror, file := s.gitDir, s.mirror, s.file;
    }

    method Holds(s: Stamp) returns (r: bool)
      ensures r <==> Matches(Now(), s)
    {
      if !gitDir {
        return false;
      }
      r := s.readable && file == Some(Line(s));
    }

    method Record(s: Stamp, written: Written) returns (ok: bool)
      modifies this`file
      ensures written.Whole? ==> ok && Now() == Recorded(old(Now()), s)
      ensures written.Failed? && s.readable ==> ok == !gitDir && Now() == CutShort(old(Now()), s, written.left)
    {
      if !gitDir || !s.readable {
        return true;
      }
      match written
      case Whole =>
        file := Some(Line(s));
        return true;
      case Failed(left) =>
        if left.Some? && left.value < |Line(s)| {
          file := Some(Line(s)[..left.value]);
        }
        return false;
    }

    method Ensure(checkout: Refs, s: Stamp, luck: Luck) returns (ok: bool)
      modifies this
      ensures (Now(), ok) == Ensured(old(Now()), checkout, s, luck)
    {
      if !s.readable {
        return true;
      }
      var held := Holds(s);
      if held {
        return true;
      }
      if !luck.fetches {
        return false;
      }
      mirror := checkout;
      ok := Record(s, luck.writes);
    }
  }
}
