/** The machine survey: every clone found, grouped by remote, with the figures and the
    verdict a person reads before deleting a group. */
module Machine {
  import opened Wrappers
  import Ascending
  import opened CommitGraph
  import opened Unique
  import opened UniqueSafety
  import opened Origin
  import opened Sorting
  import opened Lexicographic

  datatype CloneRow = CloneRow(
    path: string,
    origin: Option<string>,
    unpushed: Option<nat>,
    onlyCopy: Option<nat>,
    unchecked: Option<Why>,
    witnesses: seq<string>,
    dirty: nat,
    bytes: nat,
    repeated: nat,
    partial: bool)

  /** One clone of a group: its row, and what the proof is made from. */
  datatype Clone = Clone(row: CloneRow, subject: Subject)

  datatype Group = Group(
    name: string,
    clones: nat,
    unpushed: nat,
    unwitnessed: nat,
    dirty: nat,
    bytes: nat,
    nothingUnique: bool,
    uniqueClones: nat,
    uniqueCommits: nat,
    unchecked: nat,
    repositories: seq<CloneRow>)

  /** The grouping key: the name of the remote, or the clone's own path. */
  function KeyOf(row: CloneRow): string {
    match row.origin case Some(url) => Normalize(url) case None => row.path
  }

  /** Largest first, then by path. */
  const LARGER_CLONE: (Clone, Clone) -> bool := (a: Clone, b: Clone) =>
    a.row.bytes > b.row.bytes || (a.row.bytes == b.row.bytes && TEXT_ORDER(a.row.path, b.row.path))

  const LARGER_GROUP: (Group, Group) -> bool := (a: Group, b: Group) =>
    a.bytes > b.bytes || (a.bytes == b.bytes && TEXT_ORDER(a.name, b.name))

  function Total<T>(rows: seq<T>, f: T -> nat): nat {
    if rows == [] then 0 else f(rows[0]) + Total(rows[1..], f)
  }

  function SaturatingSub(a: nat, b: nat): nat {
    if a < b then 0 else a - b
  }

  function Count(b: bool): nat {
    if b then 1 else 0
  }

  function DistinctBytes(rows: seq<CloneRow>): nat {
    SaturatingSub(Total(rows, (r: CloneRow) => r.bytes), Total(rows, (r: CloneRow) => r.repeated))
  }

  /** The rows of one group folded into the line the table prints. */
  function Totals(name: string, rows: seq<CloneRow>): Group {
    var unchecked := Total(rows, (r: CloneRow) => Count(r.unchecked.Some?));
    var dirty := Total(rows, (r: CloneRow) => Count(r.dirty > 0));
    var uniqueCommits := Total(rows, (r: CloneRow) => r.onlyCopy.GetOr(0));
    Group(
      name,
      |rows|,
      Total(rows, (r: CloneRow) => r.unpushed.GetOr(0)),
      Total(rows, (r: CloneRow) => Count(r.unpushed.None? && r.unchecked.None?)),
      dirty,
      DistinctBytes(rows),
      unchecked == 0 && uniqueCommits == 0 && dirty == 0,
      Total(rows, (r: CloneRow) => Count(r.onlyCopy.GetOr(0) > 0)),
      uniqueCommits,
      unchecked,
      rows)
  }

  lemma {:induction false} TotalIsZero<T>(rows: seq<T>, f: T -> nat)
    ensures Total(rows, f) == 0 <==> forall r :: r in rows ==> f(r) == 0
  {
    if rows != [] {
      TotalIsZero(rows[1..], f);
      assert rows[0] in rows;
      assert forall r :: r in rows <==> r == rows[0] || r in rows[1..];
    }
  }

  /** What the closing word of a group says of every row of it. */
  lemma NothingUniqueOfRows(name: string, rows: seq<CloneRow>)
    ensures Totals(name, rows).nothingUnique
      <==> forall r :: r in rows ==> r.unchecked.None? && r.onlyCopy.GetOr(0) == 0 && r.dirty == 0
  {
    var unchecked := (r: CloneRow) => Count(r.unchecked.Some?);
    var dirty := (r: CloneRow) => Count(r.dirty > 0);
    var only := (r: CloneRow) => r.onlyCopy.GetOr(0);
    TotalIsZero(rows, unchecked);
    TotalIsZero(rows, dirty);
    TotalIsZero(rows, only);
    assert Totals(name, rows).nothingUnique
      <==> Total(rows, unchecked) == 0 && Total(rows, only) == 0 && Total(rows, dirty) == 0;
    if forall r :: r in rows ==> unchecked(r) == 0 && only(r) == 0 && dirty(r) == 0 {
      forall r | r in rows ensures r.unchecked.None? && r.onlyCopy.GetOr(0) == 0 && r.dirty == 0 {
        assert unchecked(r) == 0 && only(r) == 0 && dirty(r) == 0;
      }
    }
  }

  // One group.

  function Subjects(clones: seq<Clone>): seq<Subject> {
    seq(|clones|, i requires 0 <= i < |clones| => clones[i].subject)
  }

  function Judged(row: CloneRow, proof: Proved): CloneRow {
    row.(unpushed := proof.offRemote, onlyCopy := proof.onlyCopy, unchecked := proof.unchecked, witnesses := proof.witnesses)
  }

  ghost function JudgedRows(h: History, clones: seq<Clone>): seq<CloneRow> {
    seq(|clones|, i requires 0 <= i < |clones| => Judged(clones[i].row, ProofOf(h, Subjects(clones), i)))
  }

  ghost function GroupOf(h: History, name: string, clones: seq<Clone>): Group {
    Totals(name, JudgedRows(h, SortBy(clones, LARGER_CLONE)))
  }

  /** Sort the clones of one remote, prove what each is the only copy of, and fold them. */
  method MakeGroup(h: History, name: string, clones: seq<Clone>) returns (g: Group)
    ensures g == GroupOf(h, name, clones)
  {
    hide ProofOf;
    var ordered := SortBy(clones, LARGER_CLONE);
    var proofs := Prove(h, Subjects(ordered));
    var rows := [];
    for i := 0 to |ordered|
      invariant |rows| == i
      invariant forall k :: 0 <= k < i ==> rows[k] == JudgedRows(h, ordered)[k]
    {
      rows := rows + [Judged(ordered[i].row, proofs[i])];
    }
    assert rows == JudgedRows(h, ordered);
    g := Totals(name, rows);
  }

  /** A clone with no reason against it has a count. */
  lemma CheckedHasCount(h: History, subject: Subject, trusted: Trusted, elsewhere: seq<Oid>)
    ensures One(h, subject, trusted, elsewhere).unchecked.None? ==> One(h, subject, trusted, elsewhere).onlyCopy.Some?
  {
  }

  ghost predicate LostNowhere(h: History, subjects: seq<Subject>, index: nat) requires index < |subjects| {
    forall c :: c in OwnHistory(h, subjects[index]) ==>
      HasSecondCopy(h, subjects, index, c) || SeenOnRemote(h, Freshest(subjects, index), c)
  }

  /** The closing word of a group is a promise about each clone of it, deleted alone: its
      working tree holds nothing uncommitted, and every commit of its HEAD survives. */
  lemma NothingUniqueIsSafe(h: History, name: string, clones: seq<Clone>, i: nat)
    requires forall c :: c in clones ==> Sound(h, c.subject)
    requires GroupOf(h, name, clones).nothingUnique
    requires i < |SortBy(clones, LARGER_CLONE)|
    ensures multiset(SortBy(clones, LARGER_CLONE)) == multiset(clones)
    ensures SortBy(clones, LARGER_CLONE)[i].row.dirty == 0
    ensures LostNowhere(h, Subjects(SortBy(clones, LARGER_CLONE)), i)
  {
    hide ProofOf, SortBy, Totals;
    var ordered := SortBy(clones, LARGER_CLONE);
    SortPermutes(clones, LARGER_CLONE);
    var subjects := Subjects(ordered);
    var rows := JudgedRows(h, ordered);
    NothingUniqueOfRows(name, rows);
    assert rows[i] in rows;
    assert rows[i] == Judged(ordered[i].row, ProofOf(h, subjects, i));
    ZeroForThisClone(h, subjects, i);
    forall s | s in subjects ensures Sound(h, s) {
      var k :| 0 <= k < |subjects| && subjects[k] == s;
      assert ordered[k] in multiset(clones);
    }
    SafeAlone(h, subjects, i);
  }

  lemma SafeAlone(h: History, subjects: seq<Subject>, i: nat)
    requires i < |subjects| && forall s :: s in subjects ==> Sound(h, s)
    requires ProofOf(h, subjects, i).onlyCopy == Some(0)
    ensures LostNowhere(h, subjects, i)
  {
    hide ProofOf;
    forall c | c in OwnHistory(h, subjects[i])
      ensures HasSecondCopy(h, subjects, i, c) || SeenOnRemote(h, Freshest(subjects, i), c)
    {
      DeletionSafety(h, subjects, i, c);
    }
  }

  lemma ZeroForThisClone(h: History, subjects: seq<Subject>, i: nat)
    requires i < |subjects|
    requires ProofOf(h, subjects, i).unchecked.None? && ProofOf(h, subjects, i).onlyCopy.GetOr(0) == 0
    ensures ProofOf(h, subjects, i).onlyCopy == Some(0)
  {
    hide Ancestors, CountOutside;
    CheckedHasCount(h, subjects[i], BelievedOf(h, subjects[i], Freshest(subjects, i)), Ascending.InOrder(HeldByOthersOf(subjects, i)));
  }
}
