/** What the figures of a group say: of which clones, and of which of their commits. */
module GroupFigures {
  import opened Wrappers
  import opened Text
  import opened CommitGraph
  import opened Unique
  import opened UniqueCounts
  import opened Origin
  import opened Sorting
  import opened Lexicographic
  import opened Machine

  // Totals as sizes of sets.

  lemma {:induction false} TotalOfFront<T>(front: seq<T>, last: T, f: T -> nat)
    ensures Total(front + [last], f) == Total(front, f) + f(last)
  {
    if front == [] {
      assert [] + [last] == [last] && [last][1..] == [];
    } else {
      assert (front + [last])[1..] == front[1..] + [last];
      TotalOfFront(front[1..], last, f);
    }
  }

  /** The places of the rows that are so. */
  function Those<T(!new)>(rows: seq<T>, p: T -> bool): set<nat> {
    set i: nat | i < |rows| && p(rows[i])
  }

  lemma {:induction false} TotalOfThose<T(!new)>(rows: seq<T>, f: T -> nat, p: T -> bool)
    requires forall r :: f(r) == if p(r) then 1 else 0
    ensures Total(rows, f) == |Those(rows, p)|
  {
    if rows == [] {
      assert Those(rows, p) == {};
    } else {
      var n := |rows| - 1;
      var (front, last) := (rows[..n], rows[n]);
      TotalOfThose(front, f, p);
      TotalOfFront(front, last, f);
      assert rows == front + [last];
      assert Those(rows, p) == Those(front, p) + if p(last) then {n} else {};
    }
  }

  /** Each member of each set, with the place of the set. */
  function Pairs(sets: seq<set<Oid>>): set<(nat, Oid)> {
    set i: nat, c | i < |sets| && c in sets[i] :: (i, c)
  }

  lemma PairsOfFront(front: seq<set<Oid>>, last: set<Oid>)
    ensures |Pairs(front + [last])| == |Pairs(front)| + |last|
  {
    var n := |front|;
    TaggedAreAsMany(n, last);
    assert Pairs(front + [last]) == Pairs(front) + Tagged(n, last);
  }

  function Tagged(n: nat, s: set<Oid>): set<(nat, Oid)> {
    set c | c in s :: (n, c)
  }

  lemma {:induction false} TaggedAreAsMany(n: nat, s: set<Oid>)
    ensures |Tagged(n, s)| == |s|
  {
    if s == {} {
      assert Tagged(n, s) == {};
    } else {
      var x :| x in s;
      TaggedAreAsMany(n, s - {x});
      assert (n, x) !in Tagged(n, s - {x});
      assert Tagged(n, s) == Tagged(n, s - {x}) + {(n, x)};
    }
  }

  lemma {:induction false} TotalOfPairs<T>(rows: seq<T>, f: T -> nat, sets: seq<set<Oid>>)
    requires |rows| == |sets| && forall i :: 0 <= i < |rows| ==> f(rows[i]) == |sets[i]|
    ensures Total(rows, f) == |Pairs(sets)|
  {
    if rows == [] {
      assert Pairs(sets) == {};
    } else {
      var n := |rows| - 1;
      TotalOfPairs(rows[..n], f, sets[..n]);
      TotalOfFront(rows[..n], rows[n], f);
      PairsOfFront(sets[..n], sets[n]);
      assert rows == rows[..n] + [rows[n]] && sets == sets[..n] + [sets[n]];
    }
  }

  // What is counted of one clone.

  /** The commits of `HEAD` behind no trusted tip, of a clone that somebody vouches for. */
  ghost function OffRemote(h: History, subjects: seq<Subject>, i: nat): set<Oid>
    requires i < |subjects|
  {
    if Vouched(subjects, i) then NotBehind(h, subjects[i], TrustedTips(h, subjects, i)) else {}
  }

  /** Those behind no tip of another clone either. */
  ghost function OnlyHere(h: History, subjects: seq<Subject>, i: nat): set<Oid>
    requires i < |subjects|
  {
    NotBehind(h, subjects[i], HeldByOthersOf(subjects, i) + if Vouched(subjects, i) then TrustedTips(h, subjects, i) else {})
  }

  /** What could not be settled for a clone: it could not be read, or Git did not answer, or nobody vouches for
      its refs and some commit is nowhere else. */
  ghost predicate Unsettled(h: History, subjects: seq<Subject>, i: nat)
    requires i < |subjects|
  {
    var (reading, failing) := (subjects[i].reading, subjects[i].store.failing);
    || reading.unreadable.Some?
    || (reading.head.Some? &&
          if Vouched(subjects, i)
          then OutsideTrusted in failing || (OutsideAnywhere in failing && OffRemote(h, subjects, i) != {})
          else OutsideElsewhere in failing || OnlyHere(h, subjects, i) != {})
  }

  /** Nobody vouches for the clone's refs, and every commit is somewhere else. */
  ghost predicate Unwitnessable(h: History, subjects: seq<Subject>, i: nat)
    requires i < |subjects|
  {
    !Unsettled(h, subjects, i) && subjects[i].reading.head.Some? && !Vouched(subjects, i)
  }

  /** What the proof of one clone says, in these terms. */
  lemma ProofIs(h: History, subjects: seq<Subject>, i: nat)
    requires i < |subjects|
    ensures
      var proof := ProofOf(h, subjects, i);
      && (proof.unchecked.Some? <==> Unsettled(h, subjects, i))
      && (Unsettled(h, subjects, i) ==> proof.offRemote.None? && proof.onlyCopy.None?)
      && (!Unsettled(h, subjects, i) ==>
            && proof.onlyCopy == Some(|OnlyHere(h, subjects, i)|)
            && proof.offRemote == if Unwitnessable(h, subjects, i) then None else Some(|OffRemote(h, subjects, i)|))
  {
    hide ProofOf, TrustedTips, HeldByOthersOf, Vouched, BehindOne, View;
    var subject := subjects[i];
    if subject.reading.unreadable.Some? || subject.reading.head.None? {
      NothingToCount(h, subjects, i);
      if subject.reading.head.None? {
        assert OffRemote(h, subjects, i) == {} && OnlyHere(h, subjects, i) == {};
      }
    } else if Vouched(subjects, i) {
      VouchedCounts(h, subjects, i);
      assert HeldByOthersOf(subjects, i) + TrustedTips(h, subjects, i) == TrustedTips(h, subjects, i) + HeldByOthersOf(subjects, i);
    } else {
      UnvouchedCounts(h, subjects, i);
      assert HeldByOthersOf(subjects, i) + {} == HeldByOthersOf(subjects, i);
    }
  }

  // What a group says.

  lemma LargerFirst(clones: seq<Clone>)
    ensures |SortBy(clones, LARGER_CLONE)| == |clones| && multiset(SortBy(clones, LARGER_CLONE)) == multiset(clones)
    ensures Sorted(SortBy(clones, LARGER_CLONE), LARGER_CLONE)
  {
    TextIsTotalOrder();
    hide TEXT_ORDER, SortBy;
    forall a, b
      ensures LARGER_CLONE(a, b) || LARGER_CLONE(b, a)
    {
      assert TEXT_ORDER(a.row.path, b.row.path) || TEXT_ORDER(b.row.path, a.row.path);
    }
    forall a, b, c | LARGER_CLONE(a, b) && LARGER_CLONE(b, c)
      ensures LARGER_CLONE(a, c)
    {
      var (x, y, z) := (a.row.path, b.row.path, c.row.path);
      assert TEXT_ORDER(x, y) && TEXT_ORDER(y, z) ==> TEXT_ORDER(x, z);
    }
    SortSorts(clones, LARGER_CLONE);
    SortPermutes(clones, LARGER_CLONE);
    assert |multiset(SortBy(clones, LARGER_CLONE))| == |multiset(clones)|;
  }

  /** A group's clones stand largest first, those of one size by their paths, and each row has its own
      clone's figures and is otherwise as it was. */
  lemma RowsOfGroup(h: History, name: string, clones: seq<Clone>, i: nat)
    requires i < |clones|
    ensures
      var ordered := SortBy(clones, LARGER_CLONE);
      && multiset(ordered) == multiset(clones) && |ordered| == |clones|
      && var (subjects, rows) := (Subjects(ordered), GroupOf(h, name, clones).repositories);
      && |rows| == |clones| && |subjects| == |clones|
      && var (row, was, proof) := (rows[i], ordered[i].row, ProofOf(h, subjects, i));
      && row.unpushed == proof.offRemote && row.onlyCopy == proof.onlyCopy
      && row.unchecked == proof.unchecked && row.witnesses == proof.witnesses
      && row.path == was.path && row.origin == was.origin && row.dirty == was.dirty
      && row.bytes == was.bytes && row.repeated == was.repeated && row.partial == was.partial
      && forall j :: i < j < |clones| ==>
          row.bytes > rows[j].bytes || (row.bytes == rows[j].bytes && TEXT_ORDER(row.path, rows[j].path))
  {
    LargerFirst(clones);
    hide ProofOf, TEXT_ORDER, SortBy;
    var ordered := SortBy(clones, LARGER_CLONE);
    assert GroupOf(h, name, clones).repositories == JudgedRows(h, ordered);
    forall j | i < j < |clones|
      ensures LARGER_CLONE(ordered[i], ordered[j])
    {
    }
  }

  /** What each clone adds to a figure, where it is settled. */
  ghost function Settled(h: History, subjects: seq<Subject>, only: bool): seq<set<Oid>> {
    seq(|subjects|, i requires 0 <= i < |subjects| =>
      if Unsettled(h, subjects, i) then {} else if only then OnlyHere(h, subjects, i) else OffRemote(h, subjects, i))
  }

  /** The figures of a group: unpushed and unique are the commits of its clones behind no trusted tip, and behind
      no tip of another clone besides, each counted once for every clone that has it; unchecked are the
      clones that could not be settled, unwitnessed those nobody vouches for, dirty those with changes. */
  lemma GroupSays(h: History, name: string, clones: seq<Clone>)
    ensures
      var ordered := SortBy(clones, LARGER_CLONE);
      var (subjects, g) := (Subjects(ordered), GroupOf(h, name, clones));
      && g.name == name && g.clones == |clones| == |subjects|
      && g.unpushed == |Pairs(Settled(h, subjects, false))|
      && g.uniqueCommits == |Pairs(Settled(h, subjects, true))|
      && g.uniqueClones == |set i: nat | i < |subjects| && !Unsettled(h, subjects, i) && OnlyHere(h, subjects, i) != {}|
      && g.unchecked == |set i: nat | i < |subjects| && Unsettled(h, subjects, i)|
      && g.unwitnessed == |set i: nat | i < |subjects| && Unwitnessable(h, subjects, i)|
      && g.dirty == |set i: nat | i < |ordered| && ordered[i].row.dirty > 0|
  {
    LargerFirst(clones);
    var ordered := SortBy(clones, LARGER_CLONE);
    var (subjects, g) := (Subjects(ordered), GroupOf(h, name, clones));
    hide ProofOf, SortBy, OffRemote, OnlyHere, Unsettled, Unwitnessable;
    var rows := JudgedRows(h, ordered);
    assert g == Totals(name, rows) && |rows| == |subjects|;
    forall i | 0 <= i < |rows|
      ensures rows[i] == Judged(ordered[i].row, ProofOf(h, subjects, i))
    {
    }
    hide JudgedRows;
    CountsOfGroup(h, name, rows, subjects);
    CommitsOfGroup(h, name, rows, subjects);
    DirtyOfGroup(name, rows, ordered);
  }

  lemma RowIs(h: History, rows: seq<CloneRow>, subjects: seq<Subject>, i: nat)
    requires i < |rows| == |subjects|
    requires rows[i].unpushed == ProofOf(h, subjects, i).offRemote && rows[i].onlyCopy == ProofOf(h, subjects, i).onlyCopy
    requires rows[i].unchecked == ProofOf(h, subjects, i).unchecked
    ensures rows[i].unchecked.Some? <==> Unsettled(h, subjects, i)
    ensures rows[i].unpushed.None? && rows[i].unchecked.None? <==> Unwitnessable(h, subjects, i)
    ensures rows[i].onlyCopy.GetOr(0) == if Unsettled(h, subjects, i) then 0 else |OnlyHere(h, subjects, i)|
    ensures rows[i].unpushed.GetOr(0) == if Unsettled(h, subjects, i) then 0 else |OffRemote(h, subjects, i)|
  {
    ProofIs(h, subjects, i);
    hide ProofOf, OnlyHere, Unsettled;
  }

  lemma CountsOfGroup(h: History, name: string, rows: seq<CloneRow>, subjects: seq<Subject>)
    requires |rows| == |subjects|
    requires forall i :: 0 <= i < |rows| ==>
      && rows[i].unpushed == ProofOf(h, subjects, i).offRemote && rows[i].onlyCopy == ProofOf(h, subjects, i).onlyCopy
      && rows[i].unchecked == ProofOf(h, subjects, i).unchecked
    ensures
      var g := Totals(name, rows);
      && g.uniqueClones == |set i: nat | i < |subjects| && !Unsettled(h, subjects, i) && OnlyHere(h, subjects, i) != {}|
      && g.unchecked == |set i: nat | i < |subjects| && Unsettled(h, subjects, i)|
      && g.unwitnessed == |set i: nat | i < |subjects| && Unwitnessable(h, subjects, i)|
  {
    hide ProofOf, OnlyHere, OffRemote, Unsettled, Unwitnessable, Total;
    var g := Totals(name, rows);
    var unique := (r: CloneRow) => r.onlyCopy.GetOr(0) > 0;
    var unchecked := (r: CloneRow) => r.unchecked.Some?;
    var unwitnessed := (r: CloneRow) => r.unpushed.None? && r.unchecked.None?;
    TotalOfThose(rows, (r: CloneRow) => Count(r.onlyCopy.GetOr(0) > 0), unique);
    TotalOfThose(rows, (r: CloneRow) => Count(r.unchecked.Some?), unchecked);
    TotalOfThose(rows, (r: CloneRow) => Count(r.unpushed.None? && r.unchecked.None?), unwitnessed);
    forall i | 0 <= i < |rows|
      ensures unchecked(rows[i]) <==> Unsettled(h, subjects, i)
      ensures unwitnessed(rows[i]) <==> Unwitnessable(h, subjects, i)
      ensures unique(rows[i]) <==> !Unsettled(h, subjects, i) && OnlyHere(h, subjects, i) != {}
    {
      RowIs(h, rows, subjects, i);
      assert |OnlyHere(h, subjects, i)| == 0 <==> OnlyHere(h, subjects, i) == {};
    }
    assert Those(rows, unique) == set i: nat | i < |subjects| && !Unsettled(h, subjects, i) && OnlyHere(h, subjects, i) != {};
    assert Those(rows, unchecked) == set i: nat | i < |subjects| && Unsettled(h, subjects, i);
    assert Those(rows, unwitnessed) == set i: nat | i < |subjects| && Unwitnessable(h, subjects, i);
  }

  lemma CommitsOfGroup(h: History, name: string, rows: seq<CloneRow>, subjects: seq<Subject>)
    requires |rows| == |subjects|
    requires forall i :: 0 <= i < |rows| ==>
      && rows[i].unpushed == ProofOf(h, subjects, i).offRemote && rows[i].onlyCopy == ProofOf(h, subjects, i).onlyCopy
      && rows[i].unchecked == ProofOf(h, subjects, i).unchecked
    ensures Totals(name, rows).unpushed == |Pairs(Settled(h, subjects, false))|
    ensures Totals(name, rows).uniqueCommits == |Pairs(Settled(h, subjects, true))|
  {
    hide ProofOf, OnlyHere, OffRemote, Unsettled, Unwitnessable, Total, Pairs;
    var (unpushed, only) := ((r: CloneRow) => r.unpushed.GetOr(0), (r: CloneRow) => r.onlyCopy.GetOr(0));
    forall i | 0 <= i < |rows|
      ensures unpushed(rows[i]) == |Settled(h, subjects, false)[i]|
      ensures only(rows[i]) == |Settled(h, subjects, true)[i]|
    {
      RowIs(h, rows, subjects, i);
    }
    TotalOfPairs(rows, unpushed, Settled(h, subjects, false));
    TotalOfPairs(rows, only, Settled(h, subjects, true));
    assert Totals(name, rows).unpushed == Total(rows, unpushed) && Totals(name, rows).uniqueCommits == Total(rows, only);
  }

  lemma DirtyOfGroup(name: string, rows: seq<CloneRow>, ordered: seq<Clone>)
    requires |rows| == |ordered| && forall i :: 0 <= i < |rows| ==> rows[i].dirty == ordered[i].row.dirty
    ensures Totals(name, rows).dirty == |set i: nat | i < |ordered| && ordered[i].row.dirty > 0|
  {
    hide Total;
    var dirty := (r: CloneRow) => r.dirty > 0;
    TotalOfThose(rows, (r: CloneRow) => Count(r.dirty > 0), dirty);
    assert Those(rows, dirty) == set i: nat | i < |ordered| && ordered[i].row.dirty > 0;
    assert Totals(name, rows).dirty == Total(rows, (r: CloneRow) => Count(r.dirty > 0));
  }

  // Which clones are of one group.

  /** Two clones of a remote are of one group exactly when host, but for its case, and path are one, however either
      recorded them. */
  lemma OneGroupExactly(a: CloneRow, host: string, path: string, b: CloneRow, host': string, path': string)
    requires a.origin.Some? && IsRemote(host, path) && (IsUrl(a.origin.value, host, path) || IsScp(a.origin.value, host, path))
    requires b.origin.Some? && IsRemote(host', path') && (IsUrl(b.origin.value, host', path') || IsScp(b.origin.value, host', path'))
    ensures KeyOf(a) == KeyOf(b) <==> Lowered(host) == Lowered(host') && path == path'
  {
    hide IsRemote, IsUrl, IsScp, Normalize;
    OneNameExactly(a.origin.value, host, path, b.origin.value, host', path');
  }

  /** A clone without a remote is of a group with every clone made from its folder. */
  lemma FolderSharesItsGroup(a: CloneRow, b: CloneRow)
    requires a.origin.None? && IsFolder(a.path) && b.origin == Some(a.path)
    ensures KeyOf(a) == KeyOf(b)
  {
    FolderIsItsName(a.path);
  }
}
