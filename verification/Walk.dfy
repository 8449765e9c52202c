/** A bounded walk for repositories under some roots: what it enters, what it takes for a
    repository, and what it leaves alone. */
module Walk {
  import opened Wrappers
  import opened Sorting
  import opened Lexicographic
  import opened Text

  type Path = seq<string>

  datatype Sign = Directory | Worktree

  /** A directory as the walk reads it: its device, whether it can be listed, and its entries. */
  datatype Node =
    | Folder(device: nat, readable: bool, entries: seq<Entry>)
    | NoFolder

  /** An entry of a listing. One named `.git` is a sign of a repository or of nothing; a link, a
      file and a path that is gone are no folder. */
  datatype Entry =
    | DotGit(sign: Option<Sign>)
    | Unread
    | Child(name: string, node: Node)

  datatype Mount = Mount(at: Path, fstype: string)

  datatype Repository = Repository(path: Path, sign: Sign)

  /** What one walk is given: how deep, what to avoid, and the mounts, longest path first. */
  datatype Setting = Setting(bound: nat, avoid: seq<Path>, mounts: seq<Mount>)

  datatype Root = Root(path: Path, node: Node)

  const REMOTE := [
    "nfs", "nfs4", "cifs", "smb", "smb3", "9p", "afs", "ceph", "fuse.sshfs", "fuse.rclone", "fuse.davfs"
  ]

  predicate Avoided(s: Setting, path: Path) {
    exists i :: 0 <= i < |s.avoid| && s.avoid[i] <= path
  }

  function TypeAt(mounts: seq<Mount>, path: Path): Option<string> {
    if mounts == [] then None
    else if mounts[0].at <= path then Some(mounts[0].fstype)
    else TypeAt(mounts[1..], path)
  }

  /** Whether a filesystem type is not local disk. */
  predicate IsRemoteType(fstype: string) {
    var lower := Lowered(fstype);
    lower in REMOTE || "nfs" <= lower || Find(lower, "sshfs").Some? || Find(lower, "rclone").Some?
  }

  predicate IsRemote(s: Setting, path: Path) {
    var fstype := TypeAt(s.mounts, path);
    fstype.Some? && IsRemoteType(fstype.value)
  }

  /** Where the walk turns back at a child directory. */
  predicate TurnsBack(s: Setting, path: Path, device: nat, parent: nat) {
    Avoided(s, path) || (device != parent && IsRemote(s, path))
  }

  function SignIn(entries: seq<Entry>): Option<Sign> {
    if entries == [] then None
    else if entries[0].DotGit? && entries[0].sign.Some? then entries[0].sign
    else SignIn(entries[1..])
  }

  // What the walk finds, followed down the tree.

  function Below(s: Setting, path: Path, node: Node, depth: nat): set<Repository>
    decreases node, 0
  {
    if node.NoFolder? || !node.readable then {}
    else
      match SignIn(node.entries)
      case Some(sign) => {Repository(path, sign)}
      case None => if depth >= s.bound then {} else BelowEach(s, path, node.device, node.entries, depth)
  }

  function BelowEach(s: Setting, path: Path, device: nat, entries: seq<Entry>, depth: nat): set<Repository>
    decreases entries
  {
    if entries == [] then {}
    else BelowEntry(s, path, device, entries[0], depth) + BelowEach(s, path, device, entries[1..], depth)
  }

  function BelowEntry(s: Setting, path: Path, device: nat, entry: Entry, depth: nat): set<Repository>
    decreases entry
  {
    if !entry.Child? || entry.node.NoFolder? || TurnsBack(s, path + [entry.name], entry.node.device, device) then {}
    else Below(s, path + [entry.name], entry.node, depth + 1)
  }

  function FromRoot(s: Setting, root: Root): set<Repository> {
    if Avoided(s, root.path) then {} else Below(s, root.path, root.node, 0)
  }

  function FromRoots(s: Setting, roots: seq<Root>): set<Repository> {
    if roots == [] then {} else FromRoot(s, roots[0]) + FromRoots(s, roots[1..])
  }

  function Elements(found: seq<Repository>): set<Repository> {
    set r | r in found
  }

  lemma ElementsOf(a: seq<Repository>, b: seq<Repository>)
    ensures Elements(a + b) == Elements(a) + Elements(b)
  {
    assert forall r :: r in a + b <==> r in a || r in b;
  }

  class Walker {
    const s: Setting
    var found: seq<Repository>

    constructor (s: Setting)
      ensures this.s == s && found == []
    {
      this.s, found := s, [];
    }

    method FromOne(root: Root)
      modifies this
      ensures Elements(found) == Elements(old(found)) + FromRoot(s, root)
    {
      if Avoided(s, root.path) {
        return;
      }
      Visit(root.path, root.node, 0);
    }

    method Visit(path: Path, node: Node, depth: nat)
      modifies this
      ensures Elements(found) == Elements(old(found)) + Below(s, path, node, depth)
      decreases node, 1
    {
      if node.NoFolder? || !node.readable {
        return;
      }
      var sign: Option<Sign> := None;
      var children: seq<Entry> := [];
      for i := 0 to |node.entries|
        invariant (if sign.Some? then sign else SignIn(node.entries[i..])) == SignIn(node.entries)
        invariant found == old(found)
        invariant forall c :: c in children ==> c in node.entries
        invariant BelowEach(s, path, node.device, children, depth)
               == BelowEach(s, path, node.device, node.entries[..i], depth)
      {
        var entry := node.entries[i];
        assert node.entries[i..][1..] == node.entries[i + 1..];
        assert node.entries[..i + 1] == node.entries[..i] + [entry];
        BelowEachOf(s, path, node.device, node.entries[..i], entry, depth);
        if entry.DotGit? {
          if sign.None? {
            sign := entry.sign;
          }
        } else if entry.Child? {
          BelowEachOf(s, path, node.device, children, entry, depth);
          children := children + [entry];
        }
      }
      assert node.entries[..|node.entries|] == node.entries;
      if sign.Some? {
        assert Below(s, path, node, depth) == {Repository(path, sign.value)};
        ElementsOf(found, [Repository(path, sign.value)]);
        assert Elements([Repository(path, sign.value)]) == {Repository(path, sign.value)};
        found := found + [Repository(path, sign.value)];
        return;
      }
      if depth >= s.bound {
        return;
      }
      label Listed:
      for i := 0 to |children|
        invariant Elements(found) == Elements(old@Listed(found)) + BelowEach(s, path, node.device, children[..i], depth)
      {
        assert children[..i + 1] == children[..i] + [children[i]];
        BelowEachOf(s, path, node.device, children[..i], children[i], depth);
        assert children[i] in node.entries;
        Descend(path, node.device, children[i], depth);
      }
      assert children[..|children|] == children;
    }

    method Descend(path: Path, device: nat, entry: Entry, depth: nat)
      modifies this
      ensures Elements(found) == Elements(old(found)) + BelowEntry(s, path, device, entry, depth)
      decreases entry
    {
      if !entry.Child? || entry.node.NoFolder? {
        return;
      }
      var child := path + [entry.name];
      if Avoided(s, child) {
        return;
      }
      if device != entry.node.device && IsRemote(s, child) {
        return;
      }
      Visit(child, entry.node, depth + 1);
    }
  }

  lemma {:induction false} BelowEachOf(s: Setting, path: Path, device: nat, entries: seq<Entry>, last: Entry, depth: nat)
    ensures BelowEach(s, path, device, entries + [last], depth)
         == BelowEach(s, path, device, entries, depth) + BelowEntry(s, path, device, last, depth)
  {
    hide BelowEntry;
    if entries == [] {
      assert [last][1..] == [];
      assert entries + [last] == [last];
    } else {
      assert (entries + [last])[1..] == entries[1..] + [last];
      BelowEachOf(s, path, device, entries[1..], last, depth);
    }
  }

  // Sorted, without repeats.

  predicate SignLeq(a: Sign, b: Sign) {
    a == b || a.Directory?
  }

  predicate RepositoryLeq(a: Repository, b: Repository) {
    if a.path != b.path then PATH_ORDER(a.path, b.path) else SignLeq(a.sign, b.sign)
  }

  const REPOSITORY_ORDER: (Repository, Repository) -> bool := (a: Repository, b: Repository) => RepositoryLeq(a, b)

  function Deduped(found: seq<Repository>): seq<Repository> {
    if |found| < 2 then found
    else if found[0] == found[1] then Deduped(found[1..])
    else [found[0]] + Deduped(found[1..])
  }

  /** Every repository under the roots, in order, each once. */
  method WalkFrom(s: Setting, roots: seq<Root>) returns (repositories: seq<Repository>)
    ensures Elements(repositories) == FromRoots(s, roots)
    ensures Sorted(repositories, REPOSITORY_ORDER)
    ensures forall i, j :: 0 <= i < j < |repositories| ==> repositories[i] != repositories[j]
  {
    var walker := new Walker(s);
    for i := 0 to |roots|
      invariant walker.s == s
      invariant fresh(walker)
      invariant Elements(walker.found) + FromRoots(s, roots[i..]) == FromRoots(s, roots)
    {
      assert roots[i..][1..] == roots[i + 1..];
      walker.FromOne(roots[i]);
    }
    assert roots[|roots|..] == [];
    RepositoriesAreOrdered();
    SortSorts(walker.found, REPOSITORY_ORDER);
    SortPermutes(walker.found, REPOSITORY_ORDER);
    var sorted := SortBy(walker.found, REPOSITORY_ORDER);
    SameElements(walker.found, sorted);
    DedupedIs(sorted);
    repositories := Deduped(sorted);
  }

  lemma RepositoriesAreOrdered()
    ensures TotalOrder(REPOSITORY_ORDER)
  {
    TextIsTotalOrder();
    LexIsTotalOrder(TEXT_ORDER);
    hide LexOrder;
  }

  lemma SameElements(a: seq<Repository>, b: seq<Repository>)
    requires multiset(a) == multiset(b)
    ensures Elements(a) == Elements(b)
  {
    forall r
      ensures r in a <==> r in b
    {
      assert r in multiset(a) <==> r in multiset(b);
    }
  }

  lemma Beyond(a: Repository, b: Repository, c: Repository)
    requires a != b && REPOSITORY_ORDER(a, b) && (b == c || REPOSITORY_ORDER(b, c))
    ensures c != a && REPOSITORY_ORDER(a, c)
  {
    RepositoriesAreOrdered();
  }

  lemma {:induction false} DedupedIs(found: seq<Repository>)
    requires Sorted(found, REPOSITORY_ORDER)
    ensures
      var once := Deduped(found);
      && Elements(once) == Elements(found)
      && Sorted(once, REPOSITORY_ORDER)
      && (forall i, j :: 0 <= i < j < |once| ==> once[i] != once[j])
      && (found != [] ==> once != [] && once[0] == found[0])
  {
    if |found| >= 2 {
      var rest := found[1..];
      DedupedIs(rest);
      RepositoriesAreOrdered();
      assert found == [found[0]] + rest;
      ElementsOf([found[0]], rest);
      ElementsOf([found[0]], Deduped(rest));
      var once := Deduped(rest);
      forall i | 0 <= i < |once|
        ensures once[i] in rest
      {
        assert once[i] in Elements(once);
      }
      if found[0] != found[1] {
        hide REPOSITORY_ORDER, PATH_ORDER;
        FirstOfAll(found, once);
      }
    }
  }

  /** What comes of the rest stands behind a first one that differs from the next. */
  lemma FirstOfAll(found: seq<Repository>, once: seq<Repository>)
    requires |found| >= 2 && Sorted(found, REPOSITORY_ORDER) && found[0] != found[1]
    requires forall i :: 0 <= i < |once| ==> once[i] in found[1..]
    ensures forall i :: 0 <= i < |once| ==> REPOSITORY_ORDER(found[0], once[i]) && once[i] != found[0]
  {
    hide REPOSITORY_ORDER;
    var rest := found[1..];
    forall i | 0 <= i < |once|
      ensures REPOSITORY_ORDER(found[0], once[i]) && once[i] != found[0]
    {
      var k :| 0 <= k < |rest| && rest[k] == once[i];
      assert REPOSITORY_ORDER(found[0], found[1]);
      assert k > 0 ==> REPOSITORY_ORDER(found[1], found[k + 1]);
      Beyond(found[0], rest[0], once[i]);
    }
  }

  // What is found, said of paths.

  /** The directory a relative path names, by the first entry of each name. */
  function Way(node: Node, rel: Path): Option<Node>
    decreases |rel|
  {
    if rel == [] then Some(node)
    else if node.NoFolder? then None
    else
      match ChildNamed(node.entries, rel[0])
      case None => None
      case Some(child) => Way(child, rel[1..])
  }

  function ChildNamed(entries: seq<Entry>, name: string): Option<Node> {
    if entries == [] then None
    else if entries[0].Child? && entries[0].name == name then Some(entries[0].node)
    else ChildNamed(entries[1..], name)
  }

  /** No two entries of one directory have one name. */
  predicate NamedOnce(node: Node)
    decreases node, 0
  {
    node.Folder? ==> EachNamedOnce(node.entries)
  }

  predicate EachNamedOnce(entries: seq<Entry>)
    decreases entries
  {
    entries == []
    || ((entries[0].Child? ==> ChildNamed(entries[1..], entries[0].name).None? && ChildIsNamedOnce(entries[0]))
        && EachNamedOnce(entries[1..]))
  }

  predicate ChildIsNamedOnce(entry: Entry)
    decreases entry
  {
    entry.Child? ==> NamedOnce(entry.node)
  }

  predicate IsListed(node: Option<Node>) {
    node.Some? && node.value.Folder? && node.value.readable
  }

  /** A directory the walk goes through: listed, and no repository itself. */
  predicate IsPassed(node: Option<Node>) {
    IsListed(node) && SignIn(node.value.entries).None?
  }

  /** A directory that carries a sign, and how it is reached: every directory above it can be
      listed and carries none, and none on the way below the first turns the walk back. */
  ghost predicate Reached(s: Setting, path: Path, node: Node, rel: Path, sign: Sign) {
    && IsListed(Way(node, rel)) && SignIn(Way(node, rel).value.entries) == Some(sign)
    && (forall k :: 0 <= k < |rel| ==> IsPassed(Way(node, rel[..k])))
    && (forall k :: 0 <= k < |rel| ==> Enters(s, path, node, rel, k))
  }

  ghost predicate Enters(s: Setting, path: Path, node: Node, rel: Path, k: nat)
    requires k < |rel|
  {
    var above, below := Way(node, rel[..k]), Way(node, rel[..k + 1]);
    && above.Some? && above.value.Folder? && below.Some? && below.value.Folder?
    && !TurnsBack(s, path + rel[..k + 1], below.value.device, above.value.device)
  }

  /** A repository reached by this relative path, within the bound. */
  ghost predicate FoundAt(s: Setting, path: Path, node: Node, depth: nat, rel: Path, r: Repository) {
    r.path == path + rel && depth + |rel| <= s.bound && Reached(s, path, node, rel, r.sign)
  }

  /** The walk below a directory finds exactly the signed directories it reaches within the bound. */
  ghost predicate FindsExactly(s: Setting, path: Path, node: Node, depth: nat) {
    forall r :: r in Below(s, path, node, depth) <==> exists rel :: FoundAt(s, path, node, depth, rel, r)
  }

  lemma WayDown(node: Node, name: string, child: Node, rel: Path, k: nat)
    requires node.Folder? && ChildNamed(node.entries, name) == Some(child) && k <= |rel|
    ensures Way(node, ([name] + rel)[..k + 1]) == Way(child, rel[..k])
  {
    var way := ([name] + rel)[..k + 1];
    assert way[0] == name && way[1..] == rel[..k];
  }

  /** One step down: what is reached through a child is what is reached from it. */
  lemma ReachedThroughChild(s: Setting, path: Path, node: Node, name: string, child: Node, rel: Path, sign: Sign)
    requires node.Folder? && ChildNamed(node.entries, name) == Some(child)
    ensures Reached(s, path, node, [name] + rel, sign)
       <==> IsPassed(Some(node)) && child.Folder? && !TurnsBack(s, path + [name], child.device, node.device)
            && Reached(s, path + [name], child, rel, sign)
  {
    hide TurnsBack, IsPassed, ChildNamed;
    var whole := [name] + rel;
    assert whole[..|whole|] == whole && rel[..|rel|] == rel && whole[..0] == [] && rel[..0] == [];
    WayDown(node, name, child, rel, |rel|);
    assert Way(node, []) == Some(node) && Way(child, []) == Some(child);
    WayDown(node, name, child, rel, 0);
    assert path + whole[..1] == path + [name];
    forall k | 0 <= k < |rel|
      ensures IsPassed(Way(node, whole[..k + 1])) <==> IsPassed(Way(child, rel[..k]))
      ensures Enters(s, path, node, whole, k + 1) <==> Enters(s, path + [name], child, rel, k)
    {
      WayDown(node, name, child, rel, k);
      WayDown(node, name, child, rel, k + 1);
      assert path + whole[..k + 2] == path + [name] + rel[..k + 1];
    }
    ShiftBy(s, path, node, whole, path + [name], child, rel);
  }

  /** The conditions on the way, one directory at a time. */
  lemma ShiftBy(s: Setting, path: Path, node: Node, whole: Path, below: Path, child: Node, rel: Path)
    requires |whole| == |rel| + 1
    requires forall k :: 0 <= k < |rel| ==> (IsPassed(Way(node, whole[..k + 1])) <==> IsPassed(Way(child, rel[..k])))
    requires forall k :: 0 <= k < |rel| ==> (Enters(s, path, node, whole, k + 1) <==> Enters(s, below, child, rel, k))
    ensures (forall k :: 0 <= k < |whole| ==> IsPassed(Way(node, whole[..k])))
       <==> IsPassed(Way(node, whole[..0])) && forall k :: 0 <= k < |rel| ==> IsPassed(Way(child, rel[..k]))
    ensures (forall k :: 0 <= k < |whole| ==> Enters(s, path, node, whole, k))
       <==> Enters(s, path, node, whole, 0) && forall k :: 0 <= k < |rel| ==> Enters(s, below, child, rel, k)
  {
    hide Enters, IsPassed, Way;
    assert forall k :: 0 < k < |whole| ==> (IsPassed(Way(node, whole[..k])) <==> IsPassed(Way(child, rel[..k - 1]))) by {
      forall k | 0 < k < |whole|
        ensures IsPassed(Way(node, whole[..k])) <==> IsPassed(Way(child, rel[..k - 1]))
      {
        var j := k - 1;
        assert IsPassed(Way(node, whole[..j + 1])) <==> IsPassed(Way(child, rel[..j]));
      }
    }
    forall k | 0 < k < |whole|
      ensures Enters(s, path, node, whole, k) <==> Enters(s, below, child, rel, k - 1)
    {
      var j := k - 1;
      assert Enters(s, path, node, whole, j + 1) <==> Enters(s, below, child, rel, j);
    }
    forall j | 0 <= j < |rel|
      ensures IsPassed(Way(child, rel[..j])) <==> IsPassed(Way(node, whole[..j + 1]))
      ensures Enters(s, below, child, rel, j) <==> Enters(s, path, node, whole, j + 1)
    {
    }
  }

  lemma {:induction false} FoundThroughOne(s: Setting, path: Path, device: nat, entries: seq<Entry>, depth: nat, r: Repository)
    ensures r in BelowEach(s, path, device, entries, depth)
       <==> exists i :: 0 <= i < |entries| && r in BelowEntry(s, path, device, entries[i], depth)
  {
    hide BelowEntry;
    if entries != [] {
      var rest := entries[1..];
      FoundThroughOne(s, path, device, rest, depth, r);
      assert forall i :: 0 <= i < |rest| ==> rest[i] == entries[i + 1];
      assert forall i :: 0 < i < |entries| ==> entries[i] == rest[i - 1];
    }
  }

  lemma {:induction false} EntryIsTheChild(entries: seq<Entry>, i: nat)
    requires EachNamedOnce(entries) && i < |entries| && entries[i].Child?
    ensures ChildNamed(entries, entries[i].name) == Some(entries[i].node)
    ensures NamedOnce(entries[i].node)
  {
    if i > 0 {
      EntryIsTheChild(entries[1..], i - 1);
      assert entries[1..][i - 1] == entries[i];
    }
  }

  lemma {:induction false} ChildIsAnEntry(entries: seq<Entry>, name: string)
    requires ChildNamed(entries, name).Some?
    ensures exists i :: 0 <= i < |entries| && entries[i] == Child(name, ChildNamed(entries, name).value)
  {
    if !(entries[0].Child? && entries[0].name == name) {
      ChildIsAnEntry(entries[1..], name);
      var i :| 0 <= i < |entries[1..]| && entries[1..][i] == Child(name, ChildNamed(entries, name).value);
      assert entries[i + 1] == Child(name, ChildNamed(entries, name).value);
    } else {
      assert entries[0] == Child(name, ChildNamed(entries, name).value);
    }
  }

  /** What is found through a child is what is found from it, one level down. */
  lemma FoundThroughChild(s: Setting, path: Path, node: Node, depth: nat, name: string, child: Node, rel: Path, r: Repository)
    requires IsPassed(Some(node)) && ChildNamed(node.entries, name) == Some(child)
    ensures FoundAt(s, path, node, depth, [name] + rel, r)
       <==> child.Folder? && !TurnsBack(s, path + [name], child.device, node.device)
            && FoundAt(s, path + [name], child, depth + 1, rel, r)
  {
    ReachedThroughChild(s, path, node, name, child, rel, r.sign);
    hide Reached, TurnsBack, ChildNamed, IsPassed;
    assert path + ([name] + rel) == path + [name] + rel;
  }

  /** What one entry leads to, given what is below it. */
  lemma FoundIsReached(s: Setting, path: Path, node: Node, depth: nat, r: Repository, i: nat) returns (rel: Path)
    requires IsPassed(Some(node)) && NamedOnce(node) && depth < s.bound
    requires i < |node.entries| && r in BelowEntry(s, path, node.device, node.entries[i], depth)
    requires FindsExactly(s, path + [node.entries[i].name], node.entries[i].node, depth + 1)
    ensures FoundAt(s, path, node, depth, rel, r)
  {
    var entry := node.entries[i];
    EntryIsTheChild(node.entries, i);
    hide FoundAt, EachNamedOnce, ChildIsNamedOnce, ChildNamed, TurnsBack, Below, IsPassed;
    var rest :| FoundAt(s, path + [entry.name], entry.node, depth + 1, rest, r);
    rel := [entry.name] + rest;
    FoundThroughChild(s, path, node, depth, entry.name, entry.node, rest, r);
  }

  lemma ReachedIsFound(s: Setting, path: Path, node: Node, depth: nat, r: Repository, rel: Path, i: nat)
    requires IsPassed(Some(node)) && NamedOnce(node) && rel != []
    requires i < |node.entries| && node.entries[i].Child? && node.entries[i].name == rel[0]
    requires FindsExactly(s, path + [rel[0]], node.entries[i].node, depth + 1)
    requires FoundAt(s, path, node, depth, rel, r)
    ensures r in BelowEntry(s, path, node.device, node.entries[i], depth)
  {
    var entry := node.entries[i];
    EntryIsTheChild(node.entries, i);
    hide FoundAt, EachNamedOnce, ChildIsNamedOnce, ChildNamed, TurnsBack, Below, IsPassed;
    assert rel == [entry.name] + rel[1..];
    FoundThroughChild(s, path, node, depth, entry.name, entry.node, rel[1..], r);
  }

  lemma FirstStepIsAChild(s: Setting, path: Path, node: Node, rel: Path, sign: Sign)
    requires rel != [] && Reached(s, path, node, rel, sign)
    ensures IsPassed(Some(node)) && ChildNamed(node.entries, rel[0]).Some?
  {
    assert rel[..0] == [];
    assert IsPassed(Way(node, rel[..0]));
    assert Enters(s, path, node, rel, 0);
    assert rel[..1][1..] == [];
  }

  /** On every finite tree in which no directory names two entries alike, the walk finds exactly
      the signed directories within the bound that it reaches. */
  lemma {:induction false} WalkIsExact(s: Setting, path: Path, node: Node, depth: nat)
    requires NamedOnce(node) && depth <= s.bound
    ensures FindsExactly(s, path, node, depth)
    decreases node
  {
    if IsPassed(Some(node)) && depth < s.bound {
      forall i | 0 <= i < |node.entries| && node.entries[i].Child?
        ensures FindsExactly(s, path + [node.entries[i].name], node.entries[i].node, depth + 1)
      {
        EntryIsTheChild(node.entries, i);
        WalkIsExact(s, path + [node.entries[i].name], node.entries[i].node, depth + 1);
      }
    }
    forall r
      ensures r in Below(s, path, node, depth)
         <==> exists rel :: FoundAt(s, path, node, depth, rel, r)
    {
      if r in Below(s, path, node, depth) {
        var rel := HowReached(s, path, node, depth, r);
        assert FoundAt(s, path, node, depth, rel, r);
      }
      if rel :| FoundAt(s, path, node, depth, rel, r) {
        WhereFound(s, path, node, depth, r, rel);
      }
    }
  }

  ghost predicate ChildrenAreExact(s: Setting, path: Path, node: Node, depth: nat) {
    IsPassed(Some(node)) && depth < s.bound ==>
      forall i :: 0 <= i < |node.entries| && node.entries[i].Child? ==>
        FindsExactly(s, path + [node.entries[i].name], node.entries[i].node, depth + 1)
  }

  lemma HowReached(s: Setting, path: Path, node: Node, depth: nat, r: Repository) returns (rel: Path)
    requires NamedOnce(node) && depth <= s.bound && ChildrenAreExact(s, path, node, depth)
    requires r in Below(s, path, node, depth)
    ensures FoundAt(s, path, node, depth, rel, r)
  {
    if SignIn(node.entries).Some? {
      rel := [];
      assert path + [] == path;
    } else {
      FoundThroughOne(s, path, node.device, node.entries, depth, r);
      var i :| 0 <= i < |node.entries| && r in BelowEntry(s, path, node.device, node.entries[i], depth);
      rel := FoundIsReached(s, path, node, depth, r, i);
    }
  }

  lemma WhereFound(s: Setting, path: Path, node: Node, depth: nat, r: Repository, rel: Path)
    requires NamedOnce(node) && depth <= s.bound && ChildrenAreExact(s, path, node, depth)
    requires FoundAt(s, path, node, depth, rel, r)
    ensures r in Below(s, path, node, depth)
  {
    if rel == [] {
      assert path + [] == path;
    } else {
      FirstStepIsAChild(s, path, node, rel, r.sign);
      ChildIsAnEntry(node.entries, rel[0]);
      var i :| 0 <= i < |node.entries| && node.entries[i] == Child(rel[0], ChildNamed(node.entries, rel[0]).value);
      ReachedIsFound(s, path, node, depth, r, rel, i);
      FoundThroughOne(s, path, node.device, node.entries, depth, r);
    }
  }

  lemma {:induction false} FoundFromOne(s: Setting, roots: seq<Root>, r: Repository)
    ensures r in FromRoots(s, roots) <==> exists i :: 0 <= i < |roots| && r in FromRoot(s, roots[i])
  {
    hide FromRoot;
    if roots != [] {
      FoundFromOne(s, roots[1..], r);
      assert forall i :: 0 <= i < |roots[1..]| ==> roots[1..][i] == roots[i + 1];
      assert forall i :: 0 < i < |roots| ==> roots[i] == roots[1..][i - 1];
    }
  }

  ghost predicate ReachedFrom(s: Setting, root: Root, r: Repository) {
    && !Avoided(s, root.path)
    && exists rel :: FoundAt(s, root.path, root.node, 0, rel, r)
  }

  /** What a whole walk answers: the signed directories reached from some root, and no other. */
  lemma RootsAreWalkedExactly(s: Setting, roots: seq<Root>, r: Repository)
    requires forall i :: 0 <= i < |roots| ==> NamedOnce(roots[i].node)
    ensures r in FromRoots(s, roots) <==> exists i :: 0 <= i < |roots| && ReachedFrom(s, roots[i], r)
  {
    FoundFromOne(s, roots, r);
    forall i | 0 <= i < |roots|
      ensures r in FromRoot(s, roots[i]) <==> ReachedFrom(s, roots[i], r)
    {
      WalkIsExact(s, roots[i].path, roots[i].node, 0);
    }
  }

  // Where the walk turns back.

  /** No mount point lies inside one listed before it, as when they are listed longest first. */
  ghost predicate InnerFirst(mounts: seq<Mount>) {
    forall i, j :: 0 <= i < j < |mounts| ==> !(mounts[i].at < mounts[j].at)
  }

  /** The mount a path is on: the innermost mount point at or above it, and the first listed of one point. */
  ghost predicate IsOn(mounts: seq<Mount>, path: Path, i: nat) {
    && i < |mounts| && mounts[i].at <= path
    && forall j :: 0 <= j < |mounts| && mounts[j].at <= path ==>
        |mounts[j].at| <= |mounts[i].at| && (|mounts[j].at| == |mounts[i].at| ==> i <= j)
  }

  lemma {:induction false} TypeIsOfTheMount(mounts: seq<Mount>, path: Path)
    requires InnerFirst(mounts)
    ensures match TypeAt(mounts, path)
      case None => forall i :: 0 <= i < |mounts| ==> !(mounts[i].at <= path)
      case Some(fstype) => exists i: nat :: IsOn(mounts, path, i) && mounts[i].fstype == fstype
  {
    if mounts != [] {
      var rest := mounts[1..];
      if mounts[0].at <= path {
        FirstIsOn(mounts, path);
      } else {
        TypeIsOfTheMount(rest, path);
        if TypeAt(mounts, path).Some? {
          var i: nat :| IsOn(rest, path, i) && rest[i].fstype == TypeAt(mounts, path).value;
          LaterIsOn(mounts, path, i);
        } else {
          assert forall i :: 0 < i < |mounts| ==> mounts[i] == rest[i - 1];
        }
      }
    }
  }

  lemma FirstIsOn(mounts: seq<Mount>, path: Path)
    requires InnerFirst(mounts) && mounts != [] && mounts[0].at <= path
    ensures IsOn(mounts, path, 0)
  {
    forall j | 0 <= j < |mounts| && mounts[j].at <= path
      ensures |mounts[j].at| <= |mounts[0].at|
    {
      BothAbove(mounts[0].at, mounts[j].at, path);
    }
  }

  lemma LaterIsOn(mounts: seq<Mount>, path: Path, i: nat)
    requires mounts != [] && !(mounts[0].at <= path) && IsOn(mounts[1..], path, i)
    ensures IsOn(mounts, path, i + 1)
  {
    assert forall j :: 0 < j < |mounts| ==> mounts[j] == mounts[1..][j - 1];
  }

  lemma BothAbove(a: Path, b: Path, path: Path)
    requires a <= path && b <= path
    ensures |b| > |a| ==> a < b
  {
    assert a == path[..|a|] && b == path[..|b|];
  }

  lemma OneMount(mounts: seq<Mount>, path: Path, i: nat, j: nat)
    requires IsOn(mounts, path, i) && IsOn(mounts, path, j)
    ensures i == j
  {
  }

  /** The walk turns back at a directory exactly when that is an avoided one or below one, or is on another device
      than its parent and on a mount of a remote type. */
  lemma TurnsBackExactly(s: Setting, path: Path, device: nat, parent: nat)
    requires InnerFirst(s.mounts)
    ensures TurnsBack(s, path, device, parent) <==>
      || (exists avoided, below :: avoided in s.avoid && path == avoided + below)
      || (device != parent && exists i: nat :: IsOn(s.mounts, path, i) && IsRemoteType(s.mounts[i].fstype))
  {
    hide IsRemoteType;
    if Avoided(s, path) {
      var i :| 0 <= i < |s.avoid| && s.avoid[i] <= path;
      assert path == s.avoid[i] + path[|s.avoid[i]|..];
    }
    TypeIsOfTheMount(s.mounts, path);
    if TypeAt(s.mounts, path).Some? {
      var i: nat :| IsOn(s.mounts, path, i) && s.mounts[i].fstype == TypeAt(s.mounts, path).value;
      forall j: nat | IsOn(s.mounts, path, j)
        ensures j == i
      {
        OneMount(s.mounts, path, i, j);
      }
    }
  }
}
