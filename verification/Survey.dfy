/** The whole survey: clones sized with one record of shared files, grouped by remote, and
    the figure every group reports. No byte is counted twice and none is left out. */
module Survey {
  import opened Wrappers
  import opened CommitGraph
  import opened Unique
  import opened Inspect
  import opened Sorting
  import opened Lexicographic
  import opened Machine

  /** Where reading a clone went wrong, if it did. A clone that fails after it was sized is
      left out of the report with its files already recorded as seen. */
  datatype Failure = Never | BeforeSizing | AfterSizing

  /** A directory the walk took for a clone, and what reading it would answer. */
  datatype Repository = Repository(
    path: string,
    origin: Option<string>,
    dirty: nat,
    listing: Listing,
    ignored: seq<Path>,
    reading: CloneReading,
    store: Store,
    failure: Failure)

  /** The bytes a row adds that no row before it had. */
  function Fresh(row: CloneRow): nat {
    SaturatingSub(row.bytes, row.repeated)
  }

  const FRESH_ROW: CloneRow -> nat := (row: CloneRow) => Fresh(row)
  const FRESH_CLONE: Clone -> nat := (clone: Clone) => Fresh(clone.row)
  const GROUP_BYTES: Group -> nat := (g: Group) => g.bytes

  /** Files met with one link, and files met with more: what the survey looked at. */
  function SinglesMet(repositories: seq<Repository>): nat {
    if repositories == [] then 0 else
      var last := repositories[|repositories| - 1];
      SinglesMet(repositories[..|repositories| - 1])
      + if last.failure.BeforeSizing? then 0 else SumIn(last.listing, [], SINGLE_LEN)
  }

  function InodesMet(repositories: seq<Repository>): set<Inode> {
    if repositories == [] then {} else
      var last := repositories[|repositories| - 1];
      InodesMet(repositories[..|repositories| - 1])
      + if last.failure.BeforeSizing? then {} else InodesIn(last.listing)
  }

  lemma {:induction false} SizeOfTogether(a: set<Inode>, b: set<Inode>, size: map<Inode, nat>)
    requires a !! b && a + b <= size.Keys
    ensures SizeOf(a + b, size) == SizeOf(a, size) + SizeOf(b, size)
    decreases b
  {
    if b == {} {
      assert a + b == a;
    } else {
      var i :| i in b;
      var rest := b - {i};
      SizeOfTogether(a, rest, size);
      assert a + b == (a + rest) + {i} && b == rest + {i};
      SizeOfOneMore(a + rest, i, size);
      SizeOfOneMore(rest, i, size);
    }
  }

  lemma {:induction false} TotalOfBoth<T>(a: seq<T>, b: seq<T>, f: T -> nat)
    ensures Total(a + b, f) == Total(a, f) + Total(b, f)
  {
    if a == [] {
      assert a + b == b;
    } else {
      assert (a + b)[1..] == a[1..] + b;
      TotalOfBoth(a[1..], b, f);
    }
  }

  lemma {:induction false} TotalInserted<T>(x: T, s: seq<T>, leq: (T, T) -> bool, f: T -> nat)
    ensures Total(Insert(x, s, leq), f) == f(x) + Total(s, f)
  {
    if s != [] && !leq(x, s[0]) {
      TotalInserted(x, s[1..], leq, f);
    }
  }

  lemma {:induction false} TotalSorted<T>(s: seq<T>, leq: (T, T) -> bool, f: T -> nat)
    ensures Total(SortBy(s, leq), f) == Total(s, f)
  {
    if s != [] {
      TotalSorted(s[1..], leq, f);
      TotalInserted(s[0], SortBy(s[1..], leq), leq, f);
    }
  }

  /** What a row must satisfy for the subtraction never to saturate. */
  predicate WithinBytes(row: CloneRow) {
    row.repeated <= row.bytes
  }

  lemma {:induction false} DistinctIsFresh(rows: seq<CloneRow>)
    requires forall r :: r in rows ==> WithinBytes(r)
    ensures Total(rows, (r: CloneRow) => r.repeated) <= Total(rows, (r: CloneRow) => r.bytes)
    ensures DistinctBytes(rows) == Total(rows, FRESH_ROW)
  {
    if rows != [] {
      DistinctIsFresh(rows[1..]);
      assert WithinBytes(rows[0]);
    }
  }

  lemma {:induction false} TotalByPlace<S, T>(a: seq<S>, b: seq<T>, f: S -> nat, g: T -> nat)
    requires |a| == |b| && forall i :: 0 <= i < |a| ==> f(a[i]) == g(b[i])
    ensures Total(a, f) == Total(b, g)
  {
    if a != [] {
      TotalByPlace(a[1..], b[1..], f, g);
    }
  }

  /** A group's figure is what its clones add, in whatever order it lists them. */
  lemma GroupHoldsFreshBytes(h: History, name: string, clones: seq<Clone>)
    requires forall c :: c in clones ==> WithinBytes(c.row)
    ensures GroupOf(h, name, clones).bytes == Total(clones, FRESH_CLONE)
    ensures forall r :: r in GroupOf(h, name, clones).repositories ==> WithinBytes(r)
  {
    hide ProofOf, SortBy;
    var ordered := SortBy(clones, LARGER_CLONE);
    SortPermutes(clones, LARGER_CLONE);
    TotalSorted(clones, LARGER_CLONE, FRESH_CLONE);
    var rows := JudgedRows(h, ordered);
    forall i | 0 <= i < |ordered| ensures WithinBytes(rows[i]) && FRESH_CLONE(ordered[i]) == FRESH_ROW(rows[i]) {
      assert ordered[i] in multiset(clones);
      assert WithinBytes(ordered[i].row);
    }
    TotalByPlace(ordered, rows, FRESH_CLONE, FRESH_ROW);
    DistinctIsFresh(rows);
  }

  // Grouping.

  ghost function SumOver(grouped: map<string, seq<Clone>>): nat {
    if grouped.Keys == {} then 0 else
      var k :| k in grouped;
      Total(grouped[k], FRESH_CLONE) + SumOver(grouped - {k})
  }

  lemma {:induction false} SumOverWithout(grouped: map<string, seq<Clone>>, k: string)
    requires k in grouped
    ensures SumOver(grouped) == Total(grouped[k], FRESH_CLONE) + SumOver(grouped - {k})
    decreases grouped.Keys
  {
    var j :| j in grouped && SumOver(grouped) == Total(grouped[j], FRESH_CLONE) + SumOver(grouped - {j});
    if j != k {
      assert (grouped - {j}).Keys == grouped.Keys - {j};
      SumOverWithout(grouped - {j}, k);
      assert (grouped - {k}).Keys == grouped.Keys - {k};
      SumOverWithout(grouped - {k}, j);
      assert grouped - {j} - {k} == grouped - {k} - {j};
    }
  }

  lemma SumOverWith(grouped: map<string, seq<Clone>>, k: string, clone: Clone)
    ensures var had := if k in grouped then grouped[k] else [];
      SumOver(grouped[k := had + [clone]]) == SumOver(grouped) + FRESH_CLONE(clone)
  {
    var had := if k in grouped then grouped[k] else [];
    var after := grouped[k := had + [clone]];
    SumOverWithout(after, k);
    TotalOfBoth(had, [clone], FRESH_CLONE);
    if k in grouped {
      SumOverWithout(grouped, k);
      assert after - {k} == grouped - {k};
    } else {
      assert after - {k} == grouped;
    }
  }

  function Keys(clones: seq<Clone>): set<string> {
    set c | c in clones :: KeyOf(c.row)
  }

  /** The clones of one remote, in the order they came. */
  function ByKey(clones: seq<Clone>, key: string): seq<Clone> {
    if clones == [] then [] else
      var last := clones[|clones| - 1];
      ByKey(clones[..|clones| - 1], key) + if KeyOf(last.row) == key then [last] else []
  }

  lemma {:induction false} ByKeyKeepsThose(clones: seq<Clone>, key: string, c: Clone)
    ensures c in ByKey(clones, key) <==> c in clones && KeyOf(c.row) == key
  {
    if clones != [] {
      var front := clones[..|clones| - 1];
      ByKeyKeepsThose(front, key, c);
      assert clones == front + [clones[|clones| - 1]];
    }
  }

  ghost predicate GroupedBy(grouped: map<string, seq<Clone>>, clones: seq<Clone>) {
    && grouped.Keys == Keys(clones)
    && forall k :: k in grouped ==> grouped[k] == ByKey(clones, k)
  }

  lemma GroupOneMore(grouped: map<string, seq<Clone>>, clones: seq<Clone>, clone: Clone)
    requires GroupedBy(grouped, clones)
    ensures var key := KeyOf(clone.row);
      GroupedBy(grouped[key := (if key in grouped then grouped[key] else []) + [clone]], clones + [clone])
  {
    var all := clones + [clone];
    var key := KeyOf(clone.row);
    KeysOneMore(clones, clone);
    if key !in grouped {
      NoneByKey(clones, key);
    }
    forall k
      ensures ByKey(all, k) == ByKey(clones, k) + if k == key then [clone] else []
    {
      ByKeyOneMore(clones, clone, k);
    }
    hide KeyOf, ByKey, Keys;
  }

  lemma KeysOneMore(clones: seq<Clone>, clone: Clone)
    ensures Keys(clones + [clone]) == Keys(clones) + {KeyOf(clone.row)}
  {
    hide KeyOf;
    assert forall c :: c in clones + [clone] <==> c in clones || c == clone;
  }

  lemma ByKeyOneMore(clones: seq<Clone>, clone: Clone, key: string)
    ensures ByKey(clones + [clone], key) == ByKey(clones, key) + if KeyOf(clone.row) == key then [clone] else []
  {
    hide KeyOf;
    var all := clones + [clone];
    assert all[..|all| - 1] == clones;
  }

  lemma NoneByKey(clones: seq<Clone>, key: string)
    requires key !in Keys(clones)
    ensures ByKey(clones, key) == []
  {
    hide KeyOf;
    if ByKey(clones, key) != [] {
      var c := ByKey(clones, key)[0];
      ByKeyKeepsThose(clones, key, c);
    }
  }

  lemma NothingGrouped()
    ensures GroupedBy(map[], []) && SumOver(map[]) == Total([], FRESH_CLONE) == 0
  {
  }

  /** Clones under the key of their remote, in the order they came. */
  method Collect(clones: seq<Clone>) returns (grouped: map<string, seq<Clone>>)
    ensures GroupedBy(grouped, clones)
    ensures SumOver(grouped) == Total(clones, FRESH_CLONE)
  {
    grouped := map[];
    NothingGrouped();
    assert clones[..0] == [];
    hide GroupedBy, SumOver, Total, ByKey;
    for i := 0 to |clones|
      invariant GroupedBy(grouped, clones[..i])
      invariant SumOver(grouped) == Total(clones[..i], FRESH_CLONE)
    {
      hide KeyOf;
      var key := KeyOf(clones[i].row);
      SumOverWith(grouped, key, clones[i]);
      assert clones[..i + 1] == clones[..i] + [clones[i]];
      TotalOfBoth(clones[..i], [clones[i]], FRESH_CLONE);
      GroupOneMore(grouped, clones[..i], clones[i]);
      grouped := grouped[key := (if key in grouped then grouped[key] else []) + [clones[i]]];
    }
    assert clones[..|clones|] == clones;
  }

  /** A group of the report is the whole group of one remote. */
  ghost predicate IsGroupOf(h: History, clones: seq<Clone>, g: Group) {
    g.name in Keys(clones) && g == GroupOf(h, g.name, ByKey(clones, g.name))
  }

  lemma OneRemote(h: History, clones: seq<Clone>, key: string)
    requires forall c :: c in clones ==> WithinBytes(c.row)
    requires key in Keys(clones)
    ensures IsGroupOf(h, clones, GroupOf(h, key, ByKey(clones, key))) && GroupOf(h, key, ByKey(clones, key)).name == key
    ensures GroupOf(h, key, ByKey(clones, key)).bytes == Total(ByKey(clones, key), FRESH_CLONE)
    ensures forall r :: r in GroupOf(h, key, ByKey(clones, key)).repositories ==> WithinBytes(r)
  {
    hide Total, ProofOf, SortBy;
    forall c | c in ByKey(clones, key) ensures WithinBytes(c.row) {
      ByKeyKeepsThose(clones, key, c);
    }
    GroupHoldsFreshBytes(h, key, ByKey(clones, key));
  }

  lemma LargerGroupOrders()
    ensures Connected(LARGER_GROUP) && Transitive(LARGER_GROUP)
  {
    TextIsTotalOrder();
    forall a, b, c | LARGER_GROUP(a, b) && LARGER_GROUP(b, c) ensures LARGER_GROUP(a, c) {
      assert TEXT_ORDER(a.name, b.name) && TEXT_ORDER(b.name, c.name) ==> TEXT_ORDER(a.name, c.name);
    }
    forall a, b ensures LARGER_GROUP(a, b) || LARGER_GROUP(b, a) {
      assert TEXT_ORDER(a.name, b.name) || TEXT_ORDER(b.name, a.name);
    }
  }

  /** One group for each remote, none left out and none twice, largest first. */
  method Groups(h: History, clones: seq<Clone>) returns (groups: seq<Group>)
    requires forall c :: c in clones ==> WithinBytes(c.row)
    ensures forall g :: g in groups ==> IsGroupOf(h, clones, g)
    ensures forall key :: key in Keys(clones) ==> exists g :: g in groups && g.name == key
    ensures |groups| == |Keys(clones)|
    ensures Sorted(groups, LARGER_GROUP)
    ensures Total(groups, GROUP_BYTES) == Total(clones, FRESH_CLONE)
    ensures forall g, r :: g in groups && r in g.repositories ==> WithinBytes(r)
  {
    hide Total, SumOver, GroupOf, SortBy, ByKey, IsGroupOf, WithinBytes, Keys, Sorted, ProofOf;
    var grouped := Collect(clones);
    groups := [];
    NoneYet();
    var waiting := grouped;
    while waiting.Keys != {}
      invariant waiting.Keys <= Keys(clones) && forall k :: k in waiting ==> waiting[k] == ByKey(clones, k)
      invariant forall g :: g in groups ==> IsGroupOf(h, clones, g)
      invariant forall k :: k in Keys(clones) && k !in waiting ==> exists g :: g in groups && g.name == k
      invariant |groups| + |waiting.Keys| == |Keys(clones)|
      invariant Total(groups, GROUP_BYTES) + SumOver(waiting) == Total(clones, FRESH_CLONE)
      invariant forall g, r :: g in groups && r in g.repositories ==> WithinBytes(r)
      decreases waiting.Keys
    {
      var key :| key in waiting;
      OneRemote(h, clones, key);
      SumOverWithout(waiting, key);
      var g := MakeGroup(h, key, waiting[key]);
      TotalOfBoth(groups, [g], GROUP_BYTES);
      TotalOfOne(g);
      assert (waiting - {key}).Keys == waiting.Keys - {key};
      KeepsNames(groups, g);
      groups := groups + [g];
      waiting := waiting - {key};
    }
    NothingWaits(waiting);
    TotalSorted(groups, LARGER_GROUP, GROUP_BYTES);
    groups := InOrderOfSize(groups);
  }

  lemma KeepsNames(groups: seq<Group>, g: Group)
    ensures forall x :: x in groups + [g] <==> x in groups || x == g
  {
  }

  method InOrderOfSize(groups: seq<Group>) returns (r: seq<Group>)
    ensures r == SortBy(groups, LARGER_GROUP) && Sorted(r, LARGER_GROUP)
    ensures |r| == |groups| && forall g :: g in r <==> g in groups
  {
    r := SortBy(groups, LARGER_GROUP);
    LargerGroupOrders();
    SortSorts(groups, LARGER_GROUP);
    SortPermutes(groups, LARGER_GROUP);
    assert |r| == |multiset(r)| == |multiset(groups)| == |groups|;
    forall g ensures g in r <==> g in groups {
      assert g in r <==> g in multiset(r);
      assert g in groups <==> g in multiset(groups);
    }
  }

  lemma NoneYet()
    ensures Total<Group>([], GROUP_BYTES) == 0
  {
  }

  lemma TotalOfOne(g: Group)
    ensures Total([g], GROUP_BYTES) == g.bytes
  {
  }

  lemma NothingWaits(waiting: map<string, seq<Clone>>)
    requires waiting.Keys == {}
    ensures SumOver(waiting) == 0
  {
  }

  // The survey.

  /** The bytes of a clone no clone before it had, `seen` being the shared files met so far. */
  ghost function FirstMet(r: Repository, seen: set<Inode>, size: map<Inode, nat>): nat {
    SumIn(r.listing, [], SINGLE_LEN) + SizeOf((InodesIn(r.listing) - seen) * size.Keys, size)
  }

  /** The row of a clone: its own bytes, and those of them another clone was counted for. */
  ghost function RowOf(r: Repository, seen: set<Inode>, size: map<Inode, nat>): CloneRow {
    var bytes := SumIn(r.listing, [], LEN);
    CloneRow(r.path, r.origin, None, None, None, [], r.dirty, bytes, SaturatingSub(bytes, FirstMet(r, seen, size)),
             !ReadableIn(r.listing))
  }

  /** The clones a survey shows: those that did not fail, in the order they were found. */
  ghost function ShownOf(repositories: seq<Repository>, size: map<Inode, nat>): seq<Clone> {
    if repositories == [] then [] else
      var (front, last) := (repositories[..|repositories| - 1], repositories[|repositories| - 1]);
      ShownOf(front, size)
      + if last.failure != Never then [] else
          [Clone(RowOf(last, InodesMet(front), size), Subject(last.path, last.reading, last.store))]
  }

  function SkippedOf(repositories: seq<Repository>): seq<string> {
    if repositories == [] then [] else
      var last := repositories[|repositories| - 1];
      SkippedOf(repositories[..|repositories| - 1]) + if last.failure != Never then [last.path] else []
  }

  /** The bytes first met in clones that failed after they were sized. */
  ghost function LostBytes(repositories: seq<Repository>, size: map<Inode, nat>): nat {
    if repositories == [] then 0 else
      var (front, last) := (repositories[..|repositories| - 1], repositories[|repositories| - 1]);
      LostBytes(front, size) + if last.failure == AfterSizing then FirstMet(last, InodesMet(front), size) else 0
  }

  ghost predicate AllSized(repositories: seq<Repository>, size: map<Inode, nat>) {
    forall r :: r in repositories ==> OneSizeEach(r.listing, size)
  }

  lemma {:induction false} InodesAreSized(l: Listing, size: map<Inode, nat>)
    requires OneSizeEach(l, size)
    ensures InodesIn(l) <= size.Keys
    decreases l
  {
    if l.Open? {
      InodesOfAreSized(l.entries, size);
    }
  }

  lemma {:induction false} InodesOfAreSized(entries: seq<Entry>, size: map<Inode, nat>)
    requires OneSizeEachOf(entries, size)
    ensures InodesOf(entries) <= size.Keys
    decreases entries
  {
    if entries != [] {
      InodesOfAreSized(entries[1..], size);
      if entries[0].Folder? {
        InodesAreSized(entries[0].inside, size);
      }
    }
  }

  /** Size one clone: its row is the one defined for it, and what it adds is what nobody before it had. */
  method SizeOne(repository: Repository, links: Links, ghost size: map<Inode, nat>) returns (row: CloneRow)
    requires OneSizeEach(repository.listing, size)
    modifies links
    ensures links.seen == old(links.seen) + InodesIn(repository.listing)
    ensures row == RowOf(repository, old(links.seen), size)
    ensures FirstMet(repository, old(links.seen), size) <= row.bytes
  {
    hide OneSizeEach, SumIn, InodesIn, SizeOf, ReadableIn;
    InodesAreSized(repository.listing, size);
    var m := Measure(repository.listing, repository.ignored, links, size);
    assert links.seen - old(links.seen) == (InodesIn(repository.listing) - old(links.seen)) * size.Keys;
    row := CloneRow(repository.path, repository.origin, None, None, None, [], repository.dirty, m.bytes, m.repeated,
                    !m.complete);
  }

  lemma OneMoreMet(repositories: seq<Repository>, i: nat, size: map<Inode, nat>)
    requires i < |repositories|
    ensures var (front, all, r) := (repositories[..i], repositories[..i + 1], repositories[i]);
      && InodesMet(all) == InodesMet(front) + (if r.failure.BeforeSizing? then {} else InodesIn(r.listing))
      && SkippedOf(all) == SkippedOf(front) + (if r.failure != Never then [r.path] else [])
      && ShownOf(all, size) == ShownOf(front, size)
         + if r.failure != Never then [] else
             [Clone(RowOf(r, InodesMet(front), size), Subject(r.path, r.reading, r.store))]
  {
    hide SumIn, InodesIn, RowOf;
    assert repositories[..i + 1][..i] == repositories[..i];
  }

  lemma WithinAsItIs(r: Repository, seen: set<Inode>, size: map<Inode, nat>)
    requires FirstMet(r, seen, size) <= SumIn(r.listing, [], LEN)
    ensures WithinBytes(RowOf(r, seen, size)) && Fresh(RowOf(r, seen, size)) == FirstMet(r, seen, size)
  {
  }

  /** The row of a clone names it as it was read, has its bytes, those of them that no clone before it had, and no
      figure yet of what is unique; and is partial exactly when some of its files could not be read. */
  lemma RowSays(r: Repository, seen: set<Inode>, size: map<Inode, nat>)
    requires FirstMet(r, seen, size) <= SumIn(r.listing, [], LEN)
    ensures
      var row := RowOf(r, seen, size);
      && row.path == r.path && row.origin == r.origin && row.dirty == r.dirty
      && row.bytes == SumIn(r.listing, [], LEN) && row.bytes - row.repeated == FirstMet(r, seen, size)
      && (row.partial <==> !ReadableIn(r.listing))
      && row.unpushed == row.onlyCopy == None && row.unchecked == None && row.witnesses == []
  {
    hide FirstMet, SumIn;
  }

  /** No clone is first to hold more than it holds. */
  ghost predicate FiguresHold(repositories: seq<Repository>, size: map<Inode, nat>) {
    forall i :: 0 <= i < |repositories| && !repositories[i].failure.BeforeSizing? ==>
      FirstMet(repositories[i], InodesMet(repositories[..i]), size) <= SumIn(repositories[i].listing, [], LEN)
  }

  /** Size every clone with one record of shared files. */
  method Inspected(repositories: seq<Repository>, ghost size: map<Inode, nat>)
    returns (clones: seq<Clone>, skipped: seq<string>)
    requires AllSized(repositories, size)
    ensures clones == ShownOf(repositories, size) && skipped == SkippedOf(repositories)
    ensures FiguresHold(repositories, size)
  {
    var links := new Links();
    clones, skipped := [], [];
    assert repositories[..0] == [];
    hide OneSizeEach, SumIn, InodesIn, SizeOf, InodesMet, RowOf, ShownOf, SkippedOf, FirstMet, FiguresHold;
    NothingMet(size);
    for i := 0 to |repositories|
      invariant fresh(links) && links.seen == InodesMet(repositories[..i])
      invariant clones == ShownOf(repositories[..i], size) && skipped == SkippedOf(repositories[..i])
      invariant FiguresHold(repositories[..i], size)
    {
      var repository := repositories[i];
      OneMoreMet(repositories, i, size);
      if repository.failure == BeforeSizing {
        skipped := skipped + [repository.path];
        FiguresOfOneMore(repositories, i, size);
        continue;
      }
      var row := SizeOne(repository, links, size);
      RowBytes(repository, InodesMet(repositories[..i]), size);
      FiguresOfOneMore(repositories, i, size);
      if repository.failure == AfterSizing {
        skipped := skipped + [repository.path];
      } else {
        clones := clones + [Clone(row, Subject(repository.path, repository.reading, repository.store))];
      }
    }
    assert repositories[..|repositories|] == repositories;
  }

  lemma RowBytes(r: Repository, seen: set<Inode>, size: map<Inode, nat>)
    ensures RowOf(r, seen, size).bytes == SumIn(r.listing, [], LEN)
  {
  }

  lemma NothingMet(size: map<Inode, nat>)
    ensures InodesMet([]) == {} && ShownOf([], size) == [] && SkippedOf([]) == [] && FiguresHold([], size)
  {
  }

  lemma FiguresOfOneMore(repositories: seq<Repository>, i: nat, size: map<Inode, nat>)
    requires i < |repositories| && FiguresHold(repositories[..i], size)
    requires !repositories[i].failure.BeforeSizing? ==>
      FirstMet(repositories[i], InodesMet(repositories[..i]), size) <= SumIn(repositories[i].listing, [], LEN)
    ensures FiguresHold(repositories[..i + 1], size)
  {
    hide FirstMet, SumIn, InodesMet;
    var (front, all) := (repositories[..i], repositories[..i + 1]);
    forall j | 0 <= j < |all| && !all[j].failure.BeforeSizing?
      ensures FirstMet(all[j], InodesMet(all[..j]), size) <= SumIn(all[j].listing, [], LEN)
    {
      assert all[..j] == if j < i then front[..j] else front;
    }
  }

  /** One more clone adds to the rows that are shown, or to what is lost, what it is first to hold. */
  lemma ShownOneMore(repositories: seq<Repository>, size: map<Inode, nat>)
    requires repositories != []
    requires
      var (n, front) := (|repositories| - 1, repositories[..|repositories| - 1]);
      !repositories[n].failure.BeforeSizing? ==>
        FirstMet(repositories[n], InodesMet(front), size) <= SumIn(repositories[n].listing, [], LEN)
    ensures
      var (n, front) := (|repositories| - 1, repositories[..|repositories| - 1]);
      && Total(ShownOf(repositories, size), FRESH_CLONE) + LostBytes(repositories, size)
         == Total(ShownOf(front, size), FRESH_CLONE) + LostBytes(front, size)
            + (if repositories[n].failure.BeforeSizing? then 0 else FirstMet(repositories[n], InodesMet(front), size))
      && (forall c :: c in ShownOf(repositories, size) ==> c in ShownOf(front, size) || WithinBytes(c.row))
  {
    hide FirstMet, SumIn, RowOf, InodesMet, WithinBytes;
    var (n, front) := (|repositories| - 1, repositories[..|repositories| - 1]);
    var (last, seen) := (repositories[n], InodesMet(front));
    if last.failure == Never {
      WithinAsItIs(last, seen, size);
      var clone := Clone(RowOf(last, seen, size), Subject(last.path, last.reading, last.store));
      assert ShownOf(repositories, size) == ShownOf(front, size) + [clone];
      TotalOfBoth(ShownOf(front, size), [clone], FRESH_CLONE);
      assert Total([clone], FRESH_CLONE) == FirstMet(last, seen, size);
    } else {
      assert ShownOf(repositories, size) == ShownOf(front, size);
    }
  }

  /** What the rows of the shown clones add, with what was first met in clones that failed after they
      were sized, is every distinct file met, once. */
  lemma {:induction false} NothingElseIsLost(repositories: seq<Repository>, size: map<Inode, nat>)
    requires AllSized(repositories, size) && FiguresHold(repositories, size)
    ensures InodesMet(repositories) <= size.Keys
    ensures Total(ShownOf(repositories, size), FRESH_CLONE) + LostBytes(repositories, size)
      == SinglesMet(repositories) + SizeOf(InodesMet(repositories), size)
    ensures forall c :: c in ShownOf(repositories, size) ==> WithinBytes(c.row)
  {
    hide FirstMet, SumIn, RowOf, WithinBytes, OneSizeEach;
    if repositories != [] {
      hide FiguresHold, InodesIn, SizeOf;
      var front := repositories[..|repositories| - 1];
      FiguresOfFront(repositories, size);
      InodesAreSized(repositories[|repositories| - 1].listing, size);
      hide *;
      NothingElseIsLost(front, size);
      MetOneMore(repositories, size);
      ShownOneMore(repositories, size);
    }
  }

  /** The files of one more clone: those it is first to hold. */
  lemma MetOneMore(repositories: seq<Repository>, size: map<Inode, nat>)
    requires repositories != []
    requires
      var (n, front) := (|repositories| - 1, repositories[..|repositories| - 1]);
      InodesMet(front) <= size.Keys && InodesIn(repositories[n].listing) <= size.Keys
    ensures InodesMet(repositories) <= size.Keys
    ensures
      var (n, front) := (|repositories| - 1, repositories[..|repositories| - 1]);
      SinglesMet(repositories) + SizeOf(InodesMet(repositories), size)
      == SinglesMet(front) + SizeOf(InodesMet(front), size)
         + if repositories[n].failure.BeforeSizing? then 0 else FirstMet(repositories[n], InodesMet(front), size)
  {
    hide SumIn, InodesIn, SizeOf;
    var (n, front) := (|repositories| - 1, repositories[..|repositories| - 1]);
    var last := repositories[n];
    var seen, more := InodesMet(front), (InodesIn(last.listing) - InodesMet(front)) * size.Keys;
    if last.failure.BeforeSizing? {
      assert InodesMet(repositories) == seen;
    } else {
      assert InodesMet(repositories) == seen + more;
      SizeOfTogether(seen, more, size);
    }
  }

  lemma FiguresOfFront(repositories: seq<Repository>, size: map<Inode, nat>)
    requires repositories != [] && AllSized(repositories, size) && FiguresHold(repositories, size)
    ensures
      var (n, front) := (|repositories| - 1, repositories[..|repositories| - 1]);
      && AllSized(front, size) && FiguresHold(front, size)
      && (!repositories[n].failure.BeforeSizing? ==>
            FirstMet(repositories[n], InodesMet(front), size) <= SumIn(repositories[n].listing, [], LEN))
  {
    hide FirstMet, OneSizeEach, SumIn, InodesMet;
    var front := repositories[..|repositories| - 1];
    forall i | 0 <= i < |front| && !front[i].failure.BeforeSizing?
      ensures FirstMet(front[i], InodesMet(front[..i]), size) <= SumIn(front[i].listing, [], LEN)
    {
      assert front[..i] == repositories[..i];
    }
  }

  /** Nothing is lost exactly when every clone that failed after it was sized was first to hold no byte. */
  lemma {:induction false} NothingIsLostExactly(repositories: seq<Repository>, size: map<Inode, nat>)
    ensures LostBytes(repositories, size) == 0 <==>
      forall i :: 0 <= i < |repositories| && repositories[i].failure == AfterSizing ==>
        FirstMet(repositories[i], InodesMet(repositories[..i]), size) == 0
  {
    hide FirstMet, InodesMet;
    if repositories != [] {
      var n := |repositories| - 1;
      var front := repositories[..n];
      NothingIsLostExactly(front, size);
      assert forall i :: 0 <= i < n ==> front[i] == repositories[i] && front[..i] == repositories[..i];
      assert LostBytes(repositories, size) == LostBytes(front, size)
        + if repositories[n].failure == AfterSizing then FirstMet(repositories[n], InodesMet(front), size) else 0;
    }
  }

  /** Groups in their order stand largest first, those of one size by their names. */
  lemma LargestGroupFirst(groups: seq<Group>)
    ensures Sorted(groups, LARGER_GROUP) <==>
      forall i, j :: 0 <= i < j < |groups| ==>
        || groups[i].bytes > groups[j].bytes
        || (groups[i].bytes == groups[j].bytes && TEXT_ORDER(groups[i].name, groups[j].name))
  {
    hide TEXT_ORDER;
  }

  /** Over a whole survey, the figures of the groups add up to the sizes of the distinct files met,
      less those first met in clones that failed after they were sized; so to all of them exactly
      when those clones were first to hold nothing. */
  method SurveyMachine(h: History, repositories: seq<Repository>, ghost size: map<Inode, nat>)
    returns (groups: seq<Group>, skipped: seq<string>)
    requires AllSized(repositories, size)
    ensures InodesMet(repositories) <= size.Keys
    ensures Total(groups, GROUP_BYTES) + LostBytes(repositories, size)
      == SinglesMet(repositories) + SizeOf(InodesMet(repositories), size)
    ensures Total(groups, GROUP_BYTES) == SinglesMet(repositories) + SizeOf(InodesMet(repositories), size)
      <==> forall i :: 0 <= i < |repositories| && repositories[i].failure == AfterSizing ==>
             FirstMet(repositories[i], InodesMet(repositories[..i]), size) == 0
    ensures forall g, r :: g in groups && r in g.repositories ==> WithinBytes(r)
    ensures forall g :: g in groups ==> IsGroupOf(h, ShownOf(repositories, size), g)
    ensures |groups| == |Keys(ShownOf(repositories, size))| && skipped == SkippedOf(repositories)
    ensures forall i, j :: 0 <= i < j < |groups| ==>
      || groups[i].bytes > groups[j].bytes
      || (groups[i].bytes == groups[j].bytes && TEXT_ORDER(groups[i].name, groups[j].name))
  {
    hide OneSizeEach, Total, SinglesMet, SizeOf, InodesMet, FirstMet, ShownOf, LostBytes, IsGroupOf;
    var clones;
    clones, skipped := Inspected(repositories, size);
    NothingElseIsLost(repositories, size);
    NothingIsLostExactly(repositories, size);
    groups := Groups(h, clones);
    LargestGroupFirst(groups);
  }

  /** It happens: two clones share a file and the first fails after it was sized. The second is shown
      with the file's bytes as counted elsewhere, and no group has them. */
  lemma SharedFileIsLost(first: Repository, second: Repository, size: map<Inode, nat>)
    requires first.listing == second.listing == Open([File("pack", Metadata(5, 1, 2, 2))])
    requires first.failure == AfterSizing && second.failure == Never && size == map[(1, 2) := 5]
    ensures AllSized([first, second], size)
    ensures LostBytes([first, second], size) == 5
    ensures
      var shown := ShownOf([first, second], size);
      |shown| == 1 && shown[0].row.bytes == 5 == shown[0].row.repeated && Total(shown, FRESH_CLONE) == 0
  {
    var both := [first, second];
    var entries := [File("pack", Metadata(5, 1, 2, 2))];
    assert both[..1] == [first] && [first][..0] == [] && entries[1..] == [];
    assert InodesOf(entries) == {(1, 2)} && InodesIn(first.listing) == {(1, 2)};
    assert InodesMet([first]) == InodesMet([]) + {(1, 2)} == {(1, 2)};
    SizeOfOneMore({}, (1, 2), size);
    assert {} + {(1, 2)} == {(1, 2)} == ({(1, 2)} - {}) * size.Keys;
    assert ({(1, 2)} - {(1, 2)}) * size.Keys == {};
    assert FirstMet(first, {}, size) == 5 && FirstMet(second, {(1, 2)}, size) == 0;
    assert LostBytes([first], size) == 5;
    assert ShownOf([first], size) == [];
    assert OneSizeEachOf(entries, size);
  }
}
