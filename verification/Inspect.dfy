/** Sizing one clone: a single walk that adds up every file, and records the files that have more
    than one link so that a file shared between clones is counted once. What a tree holds is a sum
    over its files, whatever order they are met in. */
module Inspect {
  import opened Wrappers

  type Path = seq<string>
  type Inode = (nat, nat)

  /** What `lstat` says about a path that is not a directory. */
  datatype Metadata = Metadata(len: nat, dev: nat, ino: nat, nlink: nat)

  /** One directory entry as the walk meets it: unreadable, present but without metadata,
      a file or link, or a directory. */
  datatype Entry =
    | Broken
    | Unstated
    | File(name: string, metadata: Metadata)
    | Folder(name: string, inside: Listing)

  /** A directory's entries, or one that could not be listed. */
  datatype Listing = Closed | Open(entries: seq<Entry>)

  datatype Measured = Measured(
    bytes: nat,
    repeated: nat,
    entries: nat,
    complete: bool,
    buckets: seq<nat>,
    shared: seq<nat>)

  function InodeOf(m: Metadata): Inode {
    (m.dev, m.ino)
  }

  // What a tree holds, whatever order it is walked in.

  /** The sum of a quantity over every file of a tree. */
  function SumIn(l: Listing, at: Path, f: (Path, Metadata) -> nat): nat
    decreases l
  {
    match l
    case Closed => 0
    case Open(entries) => SumOf(entries, at, f)
  }

  function SumOf(entries: seq<Entry>, at: Path, f: (Path, Metadata) -> nat): nat
    decreases entries
  {
    if entries == [] then 0 else
      (match entries[0]
       case File(name, m) => f(at + [name], m)
       case Folder(name, inside) => SumIn(inside, at + [name], f)
       case _ => 0)
      + SumOf(entries[1..], at, f)
  }

  /** The files of a tree that have more than one link, each named once. */
  function InodesIn(l: Listing): set<Inode>
    decreases l
  {
    match l
    case Closed => {}
    case Open(entries) => InodesOf(entries)
  }

  function InodesOf(entries: seq<Entry>): set<Inode>
    decreases entries
  {
    if entries == [] then {} else
      (match entries[0]
       case File(_, m) => if m.nlink > 1 then {InodeOf(m)} else {}
       case Folder(_, inside) => InodesIn(inside)
       case _ => {})
      + InodesOf(entries[1..])
  }

  /** Every link to one file is a link to one file: its size is one number. */
  ghost predicate OneSizeEach(l: Listing, size: map<Inode, nat>)
    decreases l
  {
    match l
    case Closed => true
    case Open(entries) => OneSizeEachOf(entries, size)
  }

  ghost predicate OneSizeEachOf(entries: seq<Entry>, size: map<Inode, nat>)
    decreases entries
  {
    entries == [] || (
      (match entries[0]
       case File(_, m) => m.nlink > 1 ==> InodeOf(m) in size && size[InodeOf(m)] == m.len
       case Folder(_, inside) => OneSizeEach(inside, size)
       case _ => true)
      && OneSizeEachOf(entries[1..], size))
  }

  /** How many directory entries a walk looks at, and whether it could read them all. */
  function EntriesIn(l: Listing): nat
    decreases l
  {
    match l case Closed => 0 case Open(entries) => EntriesOf(entries)
  }

  function EntriesOf(entries: seq<Entry>): nat
    decreases entries
  {
    if entries == [] then 0 else
      (match entries[0]
       case Broken => 0
       case Folder(_, inside) => 1 + EntriesIn(inside)
       case _ => 1)
      + EntriesOf(entries[1..])
  }

  predicate ReadableIn(l: Listing)
    decreases l
  {
    match l case Closed => false case Open(entries) => ReadableOf(entries)
  }

  predicate ReadableOf(entries: seq<Entry>)
    decreases entries
  {
    entries == [] || (
      (match entries[0]
       case Broken => false
       case Unstated => false
       case Folder(_, inside) => ReadableIn(inside)
       case File(_, _) => true)
      && ReadableOf(entries[1..]))
  }

  const LEN: (Path, Metadata) -> nat := (p: Path, m: Metadata) => m.len

  /** Bytes of files that can be nowhere else. */
  const SINGLE_LEN: (Path, Metadata) -> nat := (p: Path, m: Metadata) => if m.nlink > 1 then 0 else m.len

  /** Bytes that fall to the ignored directory at `index`. */
  function Under(prefixes: seq<Path>, index: nat): (Path, Metadata) -> nat {
    (p: Path, m: Metadata) => LenUnder(prefixes, index, p, m)
  }

  function LenUnder(prefixes: seq<Path>, index: nat, p: Path, m: Metadata): nat {
    if PrefixOf(p, prefixes) == Some(index) then m.len else 0
  }

  predicate IsFirstPrefix(relative: Path, prefixes: seq<Path>, index: nat) {
    && index < |prefixes| && prefixes[index] <= relative
    && forall k :: 0 <= k < index ==> !(prefixes[k] <= relative)
  }

  /** Which ignored directory a path relative to the clone sits in: the first one. */
  function PrefixOf(relative: Path, prefixes: seq<Path>): (index: Option<nat>)
    ensures index.Some? ==> IsFirstPrefix(relative, prefixes, index.value)
    ensures index.None? ==> forall k :: 0 <= k < |prefixes| ==> !(prefixes[k] <= relative)
  {
    PrefixFrom(relative, prefixes, 0)
  }

  function PrefixFrom(relative: Path, prefixes: seq<Path>, from: nat): (index: Option<nat>)
    requires from <= |prefixes|
    requires forall k :: 0 <= k < from ==> !(prefixes[k] <= relative)
    ensures index.Some? ==> IsFirstPrefix(relative, prefixes, index.value)
    ensures index.None? ==> forall k :: 0 <= k < |prefixes| ==> !(prefixes[k] <= relative)
    decreases |prefixes| - from
  {
    if from == |prefixes| then None
    else if prefixes[from] <= relative then Some(from)
    else PrefixFrom(relative, prefixes, from + 1)
  }

  /** The bytes a set of files takes, each counted once. */
  ghost function SizeOf(inodes: set<Inode>, size: map<Inode, nat>): nat
    requires inodes <= size.Keys
  {
    if inodes == {} then 0 else
      var i :| i in inodes;
      size[i] + SizeOf(inodes - {i}, size)
  }

  lemma {:induction false} SizeOfOneMore(inodes: set<Inode>, extra: Inode, size: map<Inode, nat>)
    requires inodes <= size.Keys && extra in size && extra !in inodes
    ensures SizeOf(inodes + {extra}, size) == SizeOf(inodes, size) + size[extra]
  {
    var all := inodes + {extra};
    var i :| i in all && SizeOf(all, size) == size[i] + SizeOf(all - {i}, size);
    if i == extra {
      assert all - {i} == inodes;
    } else {
      assert all - {i} == (inodes - {i}) + {extra};
      SizeOfOneMore(inodes - {i}, extra, size);
      assert inodes == (inodes - {i}) + {i};
      SizeOfOneMore(inodes - {i}, i, size);
    }
  }

  // The walk.

  /** Directories waiting to be listed, last one first. */
  type Queue = seq<(Path, Listing)>

  function SumQueued(q: Queue, f: (Path, Metadata) -> nat): nat {
    if q == [] then 0 else SumQueued(q[..|q| - 1], f) + SumIn(q[|q| - 1].1, q[|q| - 1].0, f)
  }

  function InodesQueued(q: Queue): set<Inode> {
    if q == [] then {} else InodesQueued(q[..|q| - 1]) + InodesIn(q[|q| - 1].1)
  }

  function EntriesQueued(q: Queue): nat {
    if q == [] then 0 else EntriesQueued(q[..|q| - 1]) + EntriesIn(q[|q| - 1].1)
  }

  predicate ReadableQueued(q: Queue) {
    forall i :: 0 <= i < |q| ==> ReadableIn(q[i].1)
  }

  ghost predicate OneSizeEachQueued(q: Queue, size: map<Inode, nat>) {
    forall i :: 0 <= i < |q| ==> OneSizeEach(q[i].1, size)
  }

  function Nodes(l: Listing): nat
    decreases l
  {
    match l case Closed => 1 case Open(entries) => 1 + NodesOf(entries)
  }

  function NodesOf(entries: seq<Entry>): nat
    decreases entries
  {
    if entries == [] then 0 else
      (match entries[0] case Folder(_, inside) => Nodes(inside) case _ => 0) + NodesOf(entries[1..])
  }

  function NodesQueued(q: Queue): nat {
    if q == [] then 0 else NodesQueued(q[..|q| - 1]) + Nodes(q[|q| - 1].1)
  }

  function Sum(s: seq<nat>): nat {
    if s == [] then 0 else Sum(s[..|s| - 1]) + s[|s| - 1]
  }

  lemma {:induction false} SumAdding(s: seq<nat>, i: nat, more: nat)
    requires i < |s|
    ensures Sum(s[i := s[i] + more]) == Sum(s) + more
  {
    var last := |s| - 1;
    var t := s[i := s[i] + more];
    if i == last {
      assert t[..last] == s[..last];
    } else {
      SumAdding(s[..last], i, more);
      assert t[..last] == s[..last][i := s[i] + more];
    }
  }

  /** Files seen already in this survey, by device and inode. */
  class Links {
    var seen: set<Inode>

    constructor ()
      ensures seen == {}
    {
      seen := {};
    }

    /** Whether this file's bytes were already counted for another path. */
    method Repeat(m: Metadata) returns (repeat: bool)
      modifies this
      ensures repeat == (m.nlink > 1 && InodeOf(m) in old(seen))
      ensures seen == old(seen) + if m.nlink > 1 then {InodeOf(m)} else {}
    {
      if m.nlink <= 1 {
        return false;
      }
      repeat := InodeOf(m) in seen;
      seen := seen + {InodeOf(m)};
    }
  }

  /** What is true of the figures once some of a tree has been walked: `met` is what the
      walk has put in `links` so far. */
  ghost predicate Accounted(m: Measured, before: set<Inode>, seen: set<Inode>, singles: nat, size: map<Inode, nat>) {
    && before <= seen && seen - before <= size.Keys
    && m.bytes == m.repeated + singles + SizeOf(seen - before, size)
    && |m.shared| == |m.buckets|
    && (forall i :: 0 <= i < |m.buckets| ==> m.shared[i] <= m.buckets[i])
    && Sum(m.buckets) <= m.bytes
  }

  /** One file folded into the figures. */
  method CountFile(m: Measured, metadata: Metadata, index: Option<nat>, links: Links, ghost before: set<Inode>, ghost singles: nat, ghost size: map<Inode, nat>)
    returns (r: Measured)
    requires Accounted(m, before, links.seen, singles, size)
    requires metadata.nlink > 1 ==> InodeOf(metadata) in size && size[InodeOf(metadata)] == metadata.len
    requires index.Some? ==> index.value < |m.buckets|
    modifies links
    ensures links.seen == old(links.seen) + if metadata.nlink > 1 then {InodeOf(metadata)} else {}
    ensures r.bytes == m.bytes + metadata.len && r.entries == m.entries && r.complete == m.complete
    ensures r.buckets == if index.Some? then m.buckets[index.value := m.buckets[index.value] + metadata.len] else m.buckets
    ensures Accounted(r, before, links.seen, singles + (if metadata.nlink > 1 then 0 else metadata.len), size)
  {
    var repeat := links.Repeat(metadata);
    var repeated := m.repeated + if repeat then metadata.len else 0;
    var buckets, shared := m.buckets, m.shared;
    if index.Some? {
      var i := index.value;
      SumAdding(buckets, i, metadata.len);
      buckets := buckets[i := buckets[i] + metadata.len];
      if repeat {
        shared := shared[i := shared[i] + metadata.len];
      }
    }
    r := Measured(m.bytes + metadata.len, repeated, m.entries, m.complete, buckets, shared);
    MetOnce(before, old(links.seen), metadata, size);
    hide SizeOf, Sum;
  }

  /** An inode met adds its bytes to those met since, unless it was met before. */
  lemma MetOnce(before: set<Inode>, seen: set<Inode>, metadata: Metadata, size: map<Inode, nat>)
    requires before <= seen && seen - before <= size.Keys
    requires metadata.nlink > 1 ==> InodeOf(metadata) in size && size[InodeOf(metadata)] == metadata.len
    ensures
      var (inode, later) := (InodeOf(metadata), seen + if metadata.nlink > 1 then {InodeOf(metadata)} else {});
      && before <= later && later - before <= size.Keys
      && SizeOf(later - before, size)
         == SizeOf(seen - before, size) + if metadata.nlink > 1 && inode !in seen then metadata.len else 0
  {
    var inode := InodeOf(metadata);
    if metadata.nlink <= 1 {
      assert seen + {} == seen;
    } else if inode in seen {
      assert seen + {inode} == seen;
    } else {
      assert (seen + {inode}) - before == (seen - before) + {inode};
      SizeOfOneMore(seen - before, inode, size);
    }
  }

  lemma QueueOneMore(q: Queue, at: Path, l: Listing, f: (Path, Metadata) -> nat)
    ensures SumQueued(q + [(at, l)], f) == SumQueued(q, f) + SumIn(l, at, f)
    ensures InodesQueued(q + [(at, l)]) == InodesQueued(q) + InodesIn(l)
    ensures EntriesQueued(q + [(at, l)]) == EntriesQueued(q) + EntriesIn(l)
    ensures NodesQueued(q + [(at, l)]) == NodesQueued(q) + Nodes(l)
  {
    assert (q + [(at, l)])[..|q|] == q;
  }

  lemma QueueAnswers(q: Queue, at: Path, l: Listing, size: map<Inode, nat>)
    requires OneSizeEachQueued(q, size) && OneSizeEach(l, size)
    ensures OneSizeEachQueued(q + [(at, l)], size)
    ensures ReadableQueued(q + [(at, l)]) == (ReadableQueued(q) && ReadableIn(l))
  {
    var longer := q + [(at, l)];
    assert longer[|q|] == (at, l);
    assert forall i :: 0 <= i < |q| ==> longer[i] == q[i];
  }

  /** What is still to come equals what was to come, less what was folded in. */
  ghost predicate Balanced(m: Measured, singles: nat, seen: set<Inode>, q: Queue,
                           entries: seq<Entry>, at: Path, prefixes: seq<Path>,
                           bytes: nat, ones: nat, inodes: set<Inode>, buckets: seq<nat>) {
    && m.bytes + SumQueued(q, LEN) + SumOf(entries, at, LEN) == bytes
    && singles + SumQueued(q, SINGLE_LEN) + SumOf(entries, at, SINGLE_LEN) == ones
    && seen + InodesQueued(q) + InodesOf(entries) == inodes
    && |m.buckets| == |prefixes| == |buckets|
    && forall i :: 0 <= i < |prefixes| ==>
        m.buckets[i] + SumQueued(q, Under(prefixes, i)) + SumOf(entries, at, Under(prefixes, i)) == buckets[i]
  }

  /** The same for the two figures that need no bytes. */
  ghost predicate Tallied(m: Measured, q: Queue, entries: seq<Entry>, looked: nat, complete: bool) {
    && m.entries + EntriesQueued(q) + EntriesOf(entries) == looked
    && (m.complete && ReadableQueued(q) && ReadableOf(entries)) == complete
  }

  /** One entry of a directory: a file is counted, a directory waits its turn. */
  method WalkEntry(at: Path, entry: Entry, prefixes: seq<Path>, m0: Measured, q0: Queue, links: Links,
                   ghost rest: seq<Entry>, ghost before: set<Inode>, ghost singles0: nat, ghost size: map<Inode, nat>,
                   ghost bytes: nat, ghost ones: nat, ghost inodes: set<Inode>, ghost buckets: seq<nat>,
                   ghost looked: nat, ghost complete: bool)
    returns (m: Measured, q: Queue, ghost singles: nat)
    requires Accounted(m0, before, links.seen, singles0, size)
    requires OneSizeEachOf([entry] + rest, size) && OneSizeEachQueued(q0, size)
    requires Balanced(m0, singles0, links.seen, q0, [entry] + rest, at, prefixes, bytes, ones, inodes, buckets)
    requires Tallied(m0, q0, [entry] + rest, looked, complete)
    modifies links
    ensures Accounted(m, before, links.seen, singles, size)
    ensures OneSizeEachOf(rest, size) && OneSizeEachQueued(q, size)
    ensures Balanced(m, singles, links.seen, q, rest, at, prefixes, bytes, ones, inodes, buckets)
    ensures Tallied(m, q, rest, looked, complete)
    ensures NodesQueued(q) + NodesOf(rest) == NodesQueued(q0) + NodesOf([entry] + rest)
  {
    hide Balanced, Tallied, Accounted, OneSizeEachOf, OneSizeEachQueued, NodesOf, NodesQueued;
    m, q, singles := m0, q0, singles0;
    match entry
    case Broken =>
      NoFileIsMet(m0, singles0, links.seen, q0, entry, rest, at, prefixes, bytes, ones, inodes, buckets, looked, complete, before, size);
      m := m.(complete := false);
    case Unstated =>
      NoFileIsMet(m0, singles0, links.seen, q0, entry, rest, at, prefixes, bytes, ones, inodes, buckets, looked, complete, before, size);
      m := m.(entries := m.entries + 1, complete := false);
    case File(name, metadata) =>
      FirstIsSized(name, metadata, rest, size);
      BucketsMatch(m0, singles0, links.seen, q0, [entry] + rest, at, prefixes, bytes, ones, inodes, buckets);
      m := m.(entries := m.entries + 1);
      StillCounted(m0, before, links.seen, singles0, size);
      ghost var seen := links.seen;
      m := CountFile(m, metadata, PrefixOf(at + [name], prefixes), links, before, singles, size);
      singles := singles + if metadata.nlink > 1 then 0 else metadata.len;
      FileIsCounted(m0, m, singles0, seen, q0, name, metadata, rest, at, prefixes, bytes, ones, inodes, buckets, looked, complete, size);
    case Folder(name, inside) =>
      StillCounted(m0, before, links.seen, singles0, size);
      m := m.(entries := m.entries + 1);
      q := q + [(at + [name], inside)];
      FolderWaits(m0, singles0, links.seen, q0, name, inside, rest, at, prefixes, bytes, ones, inodes, buckets);
      FolderTallies(m0, q0, at, name, inside, rest, looked, complete, size);
  }

  /** An entry that is no file and no directory adds to no figure but the count. */
  lemma NoFileIsMet(m: Measured, singles: nat, seen: set<Inode>, q: Queue, entry: Entry, rest: seq<Entry>, at: Path,
                    prefixes: seq<Path>, bytes: nat, ones: nat, inodes: set<Inode>, buckets: seq<nat>,
                    looked: nat, complete: bool, before: set<Inode>, size: map<Inode, nat>)
    requires entry.Broken? || entry.Unstated?
    requires Accounted(m, before, seen, singles, size) && OneSizeEachOf([entry] + rest, size)
    requires Balanced(m, singles, seen, q, [entry] + rest, at, prefixes, bytes, ones, inodes, buckets)
    requires Tallied(m, q, [entry] + rest, looked, complete)
    ensures
      var met := m.(entries := m.entries + if entry.Broken? then 0 else 1, complete := false);
      && Accounted(met, before, seen, singles, size) && OneSizeEachOf(rest, size)
      && Balanced(met, singles, seen, q, rest, at, prefixes, bytes, ones, inodes, buckets)
      && Tallied(met, q, rest, looked, complete)
    ensures NodesOf(rest) == NodesOf([entry] + rest)
  {
    assert ([entry] + rest)[1..] == rest;
    assert InodesOf([entry] + rest) == InodesOf(rest);
  }

  lemma FirstIsSized(name: string, metadata: Metadata, rest: seq<Entry>, size: map<Inode, nat>)
    requires OneSizeEachOf([File(name, metadata)] + rest, size)
    ensures OneSizeEachOf(rest, size)
    ensures metadata.nlink > 1 ==> InodeOf(metadata) in size && size[InodeOf(metadata)] == metadata.len
  {
    assert ([File(name, metadata)] + rest)[1..] == rest;
  }

  lemma BucketsMatch(m: Measured, singles: nat, seen: set<Inode>, q: Queue, entries: seq<Entry>, at: Path, prefixes: seq<Path>,
                     bytes: nat, ones: nat, inodes: set<Inode>, buckets: seq<nat>)
    requires Balanced(m, singles, seen, q, entries, at, prefixes, bytes, ones, inodes, buckets)
    ensures |m.buckets| == |prefixes|
  {
  }

  lemma StillCounted(m: Measured, before: set<Inode>, seen: set<Inode>, singles: nat, size: map<Inode, nat>)
    requires Accounted(m, before, seen, singles, size)
    ensures Accounted(m.(entries := m.entries + 1), before, seen, singles, size)
  {
  }

  /** A file met moves from what is left to the figures. */
  lemma FileIsCounted(m0: Measured, m: Measured, singles: nat, seen: set<Inode>, q: Queue, name: string, metadata: Metadata,
                      rest: seq<Entry>, at: Path, prefixes: seq<Path>, bytes: nat, ones: nat, inodes: set<Inode>,
                      buckets: seq<nat>, looked: nat, complete: bool, size: map<Inode, nat>)
    requires Balanced(m0, singles, seen, q, [File(name, metadata)] + rest, at, prefixes, bytes, ones, inodes, buckets)
    requires Tallied(m0, q, [File(name, metadata)] + rest, looked, complete)
    requires m.bytes == m0.bytes + metadata.len && m.entries == m0.entries + 1 && m.complete == m0.complete
    requires
      var index := PrefixOf(at + [name], prefixes);
      && (index.Some? ==> index.value < |m0.buckets|)
      && m.buckets == if index.Some? then m0.buckets[index.value := m0.buckets[index.value] + metadata.len] else m0.buckets
    ensures Balanced(m, singles + if metadata.nlink > 1 then 0 else metadata.len,
                     seen + if metadata.nlink > 1 then {InodeOf(metadata)} else {}, q, rest, at, prefixes,
                     bytes, ones, inodes, buckets)
    ensures Tallied(m, q, rest, looked, complete)
    ensures NodesOf(rest) == NodesOf([File(name, metadata)] + rest)
  {
    assert ([File(name, metadata)] + rest)[1..] == rest;
    hide SumIn, InodesIn, EntriesIn, SumQueued, InodesQueued, EntriesQueued, ReadableQueued;
  }

  /** A directory put in the queue moves its bytes from one side of the balance to the other. */
  lemma FolderWaits(m: Measured, singles: nat, seen: set<Inode>, q: Queue, name: string, inside: Listing,
                    rest: seq<Entry>, at: Path, prefixes: seq<Path>,
                    bytes: nat, ones: nat, inodes: set<Inode>, buckets: seq<nat>)
    requires Balanced(m, singles, seen, q, [Folder(name, inside)] + rest, at, prefixes, bytes, ones, inodes, buckets)
    ensures Balanced(m.(entries := m.entries + 1), singles, seen, q + [(at + [name], inside)], rest, at, prefixes,
                     bytes, ones, inodes, buckets)
  {
    assert ([Folder(name, inside)] + rest)[1..] == rest;
    QueueOneMore(q, at + [name], inside, LEN);
    QueueOneMore(q, at + [name], inside, SINGLE_LEN);
    forall i | 0 <= i < |prefixes| ensures
      SumQueued(q + [(at + [name], inside)], Under(prefixes, i))
      == SumQueued(q, Under(prefixes, i)) + SumIn(inside, at + [name], Under(prefixes, i))
    {
      QueueOneMore(q, at + [name], inside, Under(prefixes, i));
    }
  }

  lemma FolderTallies(m: Measured, q: Queue, at: Path, name: string, inside: Listing, rest: seq<Entry>,
                      looked: nat, complete: bool, size: map<Inode, nat>)
    requires OneSizeEachQueued(q, size) && OneSizeEachOf([Folder(name, inside)] + rest, size)
    requires Tallied(m, q, [Folder(name, inside)] + rest, looked, complete)
    ensures OneSizeEachQueued(q + [(at + [name], inside)], size) && OneSizeEachOf(rest, size)
    ensures Tallied(m.(entries := m.entries + 1), q + [(at + [name], inside)], rest, looked, complete)
    ensures NodesQueued(q + [(at + [name], inside)]) + NodesOf(rest) == NodesQueued(q) + NodesOf([Folder(name, inside)] + rest)
  {
    assert ([Folder(name, inside)] + rest)[1..] == rest;
    QueueOneMore(q, at + [name], inside, LEN);
    QueueAnswers(q, at + [name], inside, size);
  }

  /** Every entry of one directory. */
  method WalkDirectory(at: Path, entries: seq<Entry>, prefixes: seq<Path>, m0: Measured, q0: Queue, links: Links,
                       ghost before: set<Inode>, ghost singles0: nat, ghost size: map<Inode, nat>,
                       ghost bytes: nat, ghost ones: nat, ghost inodes: set<Inode>, ghost buckets: seq<nat>,
                       ghost looked: nat, ghost complete: bool)
    returns (m: Measured, q: Queue, ghost singles: nat)
    requires Accounted(m0, before, links.seen, singles0, size)
    requires OneSizeEachOf(entries, size) && OneSizeEachQueued(q0, size)
    requires Balanced(m0, singles0, links.seen, q0, entries, at, prefixes, bytes, ones, inodes, buckets)
    requires Tallied(m0, q0, entries, looked, complete)
    modifies links
    ensures Accounted(m, before, links.seen, singles, size)
    ensures OneSizeEachQueued(q, size)
    ensures Balanced(m, singles, links.seen, q, [], at, prefixes, bytes, ones, inodes, buckets)
    ensures Tallied(m, q, [], looked, complete)
    ensures NodesQueued(q) == NodesQueued(q0) + NodesOf(entries)
  {
    hide *;
    m, q, singles := m0, q0, singles0;
    assert entries[0..] == entries;
    for k := 0 to |entries|
      invariant Accounted(m, before, links.seen, singles, size)
      invariant OneSizeEachOf(entries[k..], size) && OneSizeEachQueued(q, size)
      invariant Balanced(m, singles, links.seen, q, entries[k..], at, prefixes, bytes, ones, inodes, buckets)
      invariant Tallied(m, q, entries[k..], looked, complete)
      invariant NodesQueued(q) + NodesOf(entries[k..]) == NodesQueued(q0) + NodesOf(entries)
    {
      assert entries[k..] == [entries[k]] + entries[k + 1..];
      m, q, singles := WalkEntry(at, entries[k], prefixes, m, q, links, entries[k + 1..], before, singles, size,
                                 bytes, ones, inodes, buckets, looked, complete);
    }
    assert entries[|entries|..] == [];
    NoNodes();
  }

  lemma NoNodes()
    ensures NodesOf([]) == 0
  {
  }

  lemma StartBalanced(root: Listing, prefixes: seq<Path>, m: Measured, seen: set<Inode>, size: map<Inode, nat>, buckets: seq<nat>)
    requires OneSizeEach(root, size)
    requires m == Measured(0, 0, 0, true, m.buckets, m.buckets)
    requires |m.buckets| == |prefixes| == |buckets|
    requires forall i :: 0 <= i < |prefixes| ==> m.buckets[i] == 0 && buckets[i] == SumIn(root, [], Under(prefixes, i))
    ensures Accounted(m, seen, seen, 0, size) && OneSizeEachQueued([([], root)], size)
    ensures Balanced(m, 0, seen, [([], root)], [], [], prefixes, SumIn(root, [], LEN), SumIn(root, [], SINGLE_LEN),
                     seen + InodesIn(root), buckets)
    ensures Tallied(m, [([], root)], [], EntriesIn(root), ReadableIn(root))
  {
    var queue: Queue := [([], root)];
    assert queue == [] + [([], root)];
    QueueOneMore([], [], root, LEN);
    QueueOneMore([], [], root, SINGLE_LEN);
    forall i | 0 <= i < |prefixes| ensures SumQueued(queue, Under(prefixes, i)) == SumIn(root, [], Under(prefixes, i)) {
      QueueOneMore([], [], root, Under(prefixes, i));
    }
    ZerosSumToZero(m.buckets);
    assert seen - seen == {};
  }

  /** Taking the last directory off the queue puts its entries next. */
  lemma TakeOne(m: Measured, singles: nat, seen: set<Inode>, q: Queue, prefixes: seq<Path>, size: map<Inode, nat>,
                bytes: nat, ones: nat, inodes: set<Inode>, buckets: seq<nat>, looked: nat, complete: bool)
    requires q != [] && OneSizeEachQueued(q, size)
    requires Balanced(m, singles, seen, q, [], [], prefixes, bytes, ones, inodes, buckets)
    requires Tallied(m, q, [], looked, complete)
    ensures var (at, directory), front := q[|q| - 1], q[..|q| - 1];
      && OneSizeEachQueued(front, size)
      && (directory.Open? ==>
            && OneSizeEachOf(directory.entries, size)
            && Balanced(m, singles, seen, front, directory.entries, at, prefixes, bytes, ones, inodes, buckets)
            && Tallied(m, front, directory.entries, looked, complete)
            && NodesQueued(front) + NodesOf(directory.entries) < NodesQueued(q))
      && (directory.Closed? ==>
            && Balanced(m.(complete := false), singles, seen, front, [], [], prefixes, bytes, ones, inodes, buckets)
            && Tallied(m.(complete := false), front, [], looked, complete)
            && NodesQueued(front) < NodesQueued(q))
  {
    assert OneSizeEach(q[|q| - 1].1, size);
  }

  /** Walk `root` once: every file's bytes go to the total and to the ignored prefix it
      sits in, and bytes another path already counted are kept apart. */
  method Measure(root: Listing, prefixes: seq<Path>, links: Links, ghost size: map<Inode, nat>) returns (m: Measured)
    requires OneSizeEach(root, size)
    modifies links
    ensures Accounted(m, old(links.seen), links.seen, SumIn(root, [], SINGLE_LEN), size)
    ensures links.seen == old(links.seen) + InodesIn(root)
    ensures m.bytes == SumIn(root, [], LEN)
    ensures |m.buckets| == |prefixes| && forall i :: 0 <= i < |prefixes| ==> m.buckets[i] == SumIn(root, [], Under(prefixes, i))
    ensures m.entries == EntriesIn(root) && m.complete == ReadableIn(root)
  {
    hide *;
    var zeros: seq<nat> := seq(|prefixes|, _ => 0);
    m := Measured(0, 0, 0, true, zeros, zeros);
    var queue: Queue := [([], root)];
    ghost var before, singles := links.seen, 0;
    ghost var inodes := before + InodesIn(root);
    ghost var buckets := seq(|prefixes|, i requires 0 <= i < |prefixes| => SumIn(root, [], Under(prefixes, i)));
    ghost var bytes, ones := SumIn(root, [], LEN), SumIn(root, [], SINGLE_LEN);
    ghost var looked, complete := EntriesIn(root), ReadableIn(root);
    StartBalanced(root, prefixes, m, before, size, buckets);
    while queue != []
      invariant Accounted(m, before, links.seen, singles, size)
      invariant OneSizeEachQueued(queue, size)
      invariant Balanced(m, singles, links.seen, queue, [], [], prefixes, bytes, ones, inodes, buckets)
      invariant Tallied(m, queue, [], looked, complete)
      decreases NodesQueued(queue)
    {
      TakeOne(m, singles, links.seen, queue, prefixes, size, bytes, ones, inodes, buckets, looked, complete);
      var (at, directory) := queue[|queue| - 1];
      queue := queue[..|queue| - 1];
      if directory.Closed? {
        StillAccounted(m, before, links.seen, singles, size);
        m := m.(complete := false);
      } else {
        m, queue, singles := WalkDirectory(at, directory.entries, prefixes, m, queue, links, before, singles, size,
                                           bytes, ones, inodes, buckets, looked, complete);
        BalancedAnywhere(m, singles, links.seen, queue, at, prefixes, bytes, ones, inodes, buckets);
      }
    }
    NothingLeft(m, singles, links.seen, prefixes, bytes, ones, inodes, buckets, looked, complete);
  }

  lemma StillAccounted(m: Measured, before: set<Inode>, seen: set<Inode>, singles: nat, size: map<Inode, nat>)
    requires Accounted(m, before, seen, singles, size)
    ensures Accounted(m.(complete := false), before, seen, singles, size)
  {
  }

  lemma BalancedAnywhere(m: Measured, singles: nat, seen: set<Inode>, q: Queue, at: Path, prefixes: seq<Path>,
                         bytes: nat, ones: nat, inodes: set<Inode>, buckets: seq<nat>)
    requires Balanced(m, singles, seen, q, [], at, prefixes, bytes, ones, inodes, buckets)
    ensures Balanced(m, singles, seen, q, [], [], prefixes, bytes, ones, inodes, buckets)
  {
  }

  lemma NothingLeft(m: Measured, singles: nat, seen: set<Inode>, prefixes: seq<Path>,
                    bytes: nat, ones: nat, inodes: set<Inode>, buckets: seq<nat>, looked: nat, complete: bool)
    requires Balanced(m, singles, seen, [], [], [], prefixes, bytes, ones, inodes, buckets)
    requires Tallied(m, [], [], looked, complete)
    ensures m.bytes == bytes && singles == ones && seen == inodes && m.buckets == buckets
    ensures m.entries == looked && m.complete == complete
  {
  }

  lemma ZerosSumToZero(s: seq<nat>)
    requires forall i :: 0 <= i < |s| ==> s[i] == 0
    ensures Sum(s) == 0
  {
  }
}
