/** A key says exactly what it covers: two trees have one key when every class of the key selects
    the same content from both, and for no other reason. */
module FingerprintProofs {
  import opened Digest
  import opened Inputs
  import opened Sorting
  import opened Fingerprint

  // Paths and inputs as fields.

  /** A path as Git lists it: components that are not empty and hold no slash. */
  ghost predicate IsPath(path: Path) {
    path != [] && forall c :: c in path ==> c != "" && '/' !in c
  }

  function UpToSlash(s: string): string {
    if s == "" || s[0] == '/' then "" else [s[0]] + UpToSlash(s[1..])
  }

  lemma {:induction false} UpToSlashIs(c: string, rest: string)
    requires '/' !in c && (rest == "" || rest[0] == '/')
    ensures UpToSlash(c + rest) == c
  {
    if c == "" {
      assert c + rest == rest;
    } else {
      UpToSlashIs(c[1..], rest);
      assert (c + rest)[1..] == c[1..] + rest;
      assert c == [c[0]] + c[1..];
    }
  }

  function AfterFirst(path: Path): string
    requires path != []
  {
    if |path| == 1 then "" else "/" + PathBytes(path[1..])
  }

  lemma FirstOfPath(a: Path)
    requires IsPath(a)
    ensures UpToSlash(PathBytes(a)) == a[0] && PathBytes(a)[|a[0]|..] == AfterFirst(a)
    ensures |a| > 1 ==> IsPath(a[1..]) && AfterFirst(a)[1..] == PathBytes(a[1..])
    ensures |a| > 1 <==> AfterFirst(a) != ""
  {
    assert a[0] in a;
    assert PathBytes(a) == a[0] + AfterFirst(a);
    UpToSlashIs(a[0], AfterFirst(a));
  }

  lemma {:induction false} PathBytesAreExact(a: Path, b: Path)
    requires IsPath(a) && IsPath(b)
    requires PathBytes(a) == PathBytes(b)
    ensures a == b
  {
    FirstOfPath(a);
    FirstOfPath(b);
    assert a == [a[0]] + a[1..] && b == [b[0]] + b[1..];
    hide UpToSlash, PathBytes, AfterFirst;
    if |a| > 1 {
      PathBytesAreExact(a[1..], b[1..]);
    }
  }

  ghost predicate ArePaths(inputs: seq<Input>) {
    forall i :: i in inputs ==> IsPath(i.path)
  }

  lemma {:induction false} InputFieldsAreExact(a: seq<Input>, b: seq<Input>)
    requires ArePaths(a) && ArePaths(b)
    requires InputFields(a) == InputFields(b)
    ensures a == b
  {
    if a != [] && b != [] {
      var x, y := InputFields(a), InputFields(b);
      assert x[0] == PathBytes(a[0].path) && x[1] == a[0].mode && x[2] == a[0].oid;
      assert y[0] == PathBytes(b[0].path) && y[1] == b[0].mode && y[2] == b[0].oid;
      assert x[3..] == InputFields(a[1..]) && y[3..] == InputFields(b[1..]);
      assert a[0] in a && b[0] in b;
      PathBytesAreExact(a[0].path, b[0].path);
      InputFieldsAreExact(a[1..], b[1..]);
      assert a == [a[0]] + a[1..] && b == [b[0]] + b[1..];
    }
  }

  // Buckets.

  ghost predicate IsListing(entries: seq<Entry>) {
    forall e :: e in entries ==> IsPath(e.path)
  }

  lemma {:induction false} SelectedArePaths(class_: Class, entries: seq<Entry>)
    requires IsListing(entries)
    ensures ArePaths(Selected(class_, entries))
  {
    if entries != [] {
      assert entries[0] in entries;
      SelectedArePaths(class_, entries[1..]);
    }
  }

  lemma BucketArePaths(class_: Class, entries: seq<Entry>)
    requires IsListing(entries)
    ensures ArePaths(Bucket(class_, entries))
  {
    SelectedArePaths(class_, entries);
    SortPermutes(Selected(class_, entries), INPUT_ORDER);
    forall i | i in Bucket(class_, entries)
      ensures IsPath(i.path)
    {
      assert i in multiset(Selected(class_, entries));
    }
  }

  /** The order of a listing does not matter, and nothing else is lost. */
  lemma BucketIsCanonical(class_: Class, a: seq<Entry>, b: seq<Entry>)
    ensures Bucket(class_, a) == Bucket(class_, b) <==> multiset(Selected(class_, a)) == multiset(Selected(class_, b))
  {
    InputsAreOrdered();
    SortIsCanonical(Selected(class_, a), Selected(class_, b), INPUT_ORDER);
  }

  // What two trees must share.

  /** An entry of this path, mode and content feeds the class: a file or a submodule, never a directory. */
  ghost predicate Feeds(class_: Class, e: Entry, path: Path, mode: string, oid: string) {
    && e.kind != Tree && e.path == path && e.mode == mode && e.oid == oid
    && exists selector :: selector in class_.selectors && IsAbout(selector, path)
  }

  /** The places of a listing with such an entry. */
  ghost function Feeding(class_: Class, entries: seq<Entry>, path: Path, mode: string, oid: string): set<nat> {
    set i: nat | i < |entries| && Feeds(class_, entries[i], path, mode, oid)
  }

  lemma FeedingOneMore(class_: Class, front: seq<Entry>, last: Entry, path: Path, mode: string, oid: string)
    ensures |Feeding(class_, front + [last], path, mode, oid)|
      == |Feeding(class_, front, path, mode, oid)| + if Feeds(class_, last, path, mode, oid) then 1 else 0
  {
    hide Feeds;
    var (all, before) := (Feeding(class_, front + [last], path, mode, oid), Feeding(class_, front, path, mode, oid));
    assert all == before + if Feeds(class_, last, path, mode, oid) then {|front|} else {};
  }

  lemma SelectedOfOne(class_: Class, e: Entry, path: Path, mode: string, oid: string)
    ensures multiset(Selected(class_, [e]))[Input(path, mode, oid)] == if Feeds(class_, e, path, mode, oid) then 1 else 0
  {
    CoversWhatItIsAbout(class_, e.path);
    hide Covers, IsAbout;
    assert Selected(class_, [e]) == if !e.kind.Tree? && Covers(class_, e.path) then [Input(e.path, e.mode, e.oid)] else [];
  }

  lemma CountedInBoth(a: seq<Input>, b: seq<Input>, i: Input)
    ensures multiset(a + b)[i] == multiset(a)[i] + multiset(b)[i]
  {
  }

  lemma {:induction false} SelectedAreFeeding(class_: Class, entries: seq<Entry>, path: Path, mode: string, oid: string)
    ensures multiset(Selected(class_, entries))[Input(path, mode, oid)] == |Feeding(class_, entries, path, mode, oid)|
  {
    if entries == [] {
      assert Feeding(class_, entries, path, mode, oid) == {};
    } else {
      var n := |entries| - 1;
      SelectedAreFeeding(class_, entries[..n], path, mode, oid);
      assert entries == entries[..n] + [entries[n]];
      SelectedOneMore(class_, entries[..n], entries[n], path, mode, oid);
      hide *;
    }
  }

  lemma SelectedOneMore(class_: Class, front: seq<Entry>, last: Entry, path: Path, mode: string, oid: string)
    requires multiset(Selected(class_, front))[Input(path, mode, oid)] == |Feeding(class_, front, path, mode, oid)|
    ensures multiset(Selected(class_, front + [last]))[Input(path, mode, oid)]
      == |Feeding(class_, front + [last], path, mode, oid)|
  {
    hide *;
    SelectedOf(class_, front, [last]);
    CountedInBoth(Selected(class_, front), Selected(class_, [last]), Input(path, mode, oid));
    SelectedOfOne(class_, last, path, mode, oid);
    FeedingOneMore(class_, front, last, path, mode, oid);
  }

  /** Two trees share what a class covers: of every path, mode and content, equally many entries feed it. */
  ghost predicate FeedAlike(class_: Class, a: seq<Entry>, b: seq<Entry>) {
    forall path, mode, oid :: |Feeding(class_, a, path, mode, oid)| == |Feeding(class_, b, path, mode, oid)|
  }

  lemma CoversTheSameExactly(class_: Class, a: seq<Entry>, b: seq<Entry>)
    ensures CoversTheSame(class_, a, b) <==> FeedAlike(class_, a, b)
  {
    hide Feeding, Selected;
    var (x, y) := (multiset(Selected(class_, a)), multiset(Selected(class_, b)));
    forall path, mode, oid
      ensures x[Input(path, mode, oid)] == |Feeding(class_, a, path, mode, oid)|
      ensures y[Input(path, mode, oid)] == |Feeding(class_, b, path, mode, oid)|
    {
      SelectedAreFeeding(class_, a, path, mode, oid);
      SelectedAreFeeding(class_, b, path, mode, oid);
    }
    if FeedAlike(class_, a, b) {
      forall i: Input
        ensures x[i] == y[i]
      {
        assert i == Input(i.path, i.mode, i.oid);
      }
      assert x == y;
    }
  }

  // Digests.

  /** Everything hashed on the way to a key. */
  function Hashed(hash: Hash, classes: seq<Class>, key: Key, platform: string, entries: seq<Entry>): set<string> {
    {Fields(KeyFields(hash, classes, key, platform, entries))}
    + (set class_ | class_ in classes :: Fields(SubFields(class_.part, Bucket(class_, entries))))
  }

  /** Every field on the way is short enough for its length to be written in eight bytes. */
  ghost predicate FieldsFit(hash: Hash, classes: seq<Class>, key: Key, platform: string, entries: seq<Entry>) {
    && AllFit(KeyFields(hash, classes, key, platform, entries))
    && forall class_ :: class_ in classes ==> AllFit(SubFields(class_.part, Bucket(class_, entries)))
  }

  /** What a class covers in two trees, whatever the order they are listed in. */
  ghost predicate CoversTheSame(class_: Class, a: seq<Entry>, b: seq<Entry>) {
    multiset(Selected(class_, a)) == multiset(Selected(class_, b))
  }

  lemma SubDigestIsExact(hash: Hash, of: set<string>, class_: Class, a: seq<Entry>, b: seq<Entry>)
    requires IsListing(a) && IsListing(b) && CollisionFree(hash, of)
    requires AllFit(SubFields(class_.part, Bucket(class_, a))) && AllFit(SubFields(class_.part, Bucket(class_, b)))
    requires Fields(SubFields(class_.part, Bucket(class_, a))) in of
    requires Fields(SubFields(class_.part, Bucket(class_, b))) in of
    ensures DigestOf(hash, SubFields(class_.part, Bucket(class_, a))) == DigestOf(hash, SubFields(class_.part, Bucket(class_, b)))
       <==> CoversTheSame(class_, a, b)
  {
    var x, y := Bucket(class_, a), Bucket(class_, b);
    BucketArePaths(class_, a);
    BucketArePaths(class_, b);
    BucketIsCanonical(class_, a, b);
    DigestIsExact(hash, of, SubFields(class_.part, x), SubFields(class_.part, y));
    hide Bucket, DigestOf, AllFit, Fields, CollisionFree, PartName;
    if SubFields(class_.part, x) == SubFields(class_.part, y) {
      assert SubFields(class_.part, x)[2..] == InputFields(x) && SubFields(class_.part, y)[2..] == InputFields(y);
      InputFieldsAreExact(x, y);
    }
  }

  /** What the digests of all classes are compared on. */
  ghost predicate Agree(classes: seq<Class>, key: Key, a: seq<Entry>, b: seq<Entry>) {
    forall class_ :: class_ in classes && class_.key == key ==> CoversTheSame(class_, a, b)
  }

  lemma AgreeStep(class_: Class, rest: seq<Class>, key: Key, a: seq<Entry>, b: seq<Entry>)
    ensures Agree([class_] + rest, key, a, b)
       <==> (class_.key == key ==> CoversTheSame(class_, a, b)) && Agree(rest, key, a, b)
  {
    hide CoversTheSame;
    assert class_ in [class_] + rest;
    assert forall c :: c in [class_] + rest <==> c == class_ || c in rest;
  }

  lemma {:induction false} PartFieldsAreExact(hash: Hash, of: set<string>, classes: seq<Class>, key: Key,
                                              a: seq<Entry>, b: seq<Entry>)
    requires IsListing(a) && IsListing(b) && CollisionFree(hash, of)
    requires forall class_ :: class_ in classes ==> AllFit(SubFields(class_.part, Bucket(class_, a)))
    requires forall class_ :: class_ in classes ==> AllFit(SubFields(class_.part, Bucket(class_, b)))
    requires forall class_ :: class_ in classes ==> Fields(SubFields(class_.part, Bucket(class_, a))) in of
    requires forall class_ :: class_ in classes ==> Fields(SubFields(class_.part, Bucket(class_, b))) in of
    ensures PartFields(hash, classes, key, a) == PartFields(hash, classes, key, b) <==> Agree(classes, key, a, b)
  {
    hide SubFields, Bucket, AllFit, Fields, CollisionFree, CoversTheSame, DigestOf, PartName, IsListing;
    if classes != [] {
      var class_, rest := classes[0], classes[1..];
      assert classes == [class_] + rest;
      PartFieldsAreExact(hash, of, rest, key, a, b);
      SubDigestIsExact(hash, of, class_, a, b);
      var x, y := PartFields(hash, classes, key, a), PartFields(hash, classes, key, b);
      AgreeStep(class_, rest, key, a, b);
      hide Agree;
      if class_.key == key {
        assert x[2..] == PartFields(hash, rest, key, a) && y[2..] == PartFields(hash, rest, key, b);
        assert x[1] == DigestOf(hash, SubFields(class_.part, Bucket(class_, a)));
        assert y[1] == DigestOf(hash, SubFields(class_.part, Bucket(class_, b)));
        assert x[0] == y[0] && x == x[..2] + x[2..] && y == y[..2] + y[2..];
      } else {
        assert x == PartFields(hash, rest, key, a) && y == PartFields(hash, rest, key, b);
      }
    }
  }

  /** Two trees have one key exactly when every class of that key covers the same paths with the
      same modes and contents in both, and, for the workspace key, the platform is one. The hash
      is asked for no more than not to collide on what these two keys hash. */
  lemma KeyIsExact(hash: Hash, classes: seq<Class>, key: Key,
                   platform: string, a: seq<Entry>, other: string, b: seq<Entry>)
    requires IsListing(a) && IsListing(b)
    requires CollisionFree(hash, Hashed(hash, classes, key, platform, a) + Hashed(hash, classes, key, other, b))
    requires FieldsFit(hash, classes, key, platform, a) && FieldsFit(hash, classes, key, other, b)
    ensures DigestOf(hash, KeyFields(hash, classes, key, platform, a)) == DigestOf(hash, KeyFields(hash, classes, key, other, b))
       <==> Agree(classes, key, a, b) && (key == Workspace ==> platform == other)
  {
    hide SubFields, Bucket, AllFit, Fields, CollisionFree, Agree, DigestOf, IsListing;
    var of := Hashed(hash, classes, key, platform, a) + Hashed(hash, classes, key, other, b);
    var x, y := KeyFields(hash, classes, key, platform, a), KeyFields(hash, classes, key, other, b);
    PartFieldsAreExact(hash, of, classes, key, a, b);
    DigestIsExact(hash, of, x, y);
    hide PartFields;
    if key == Workspace {
      assert x[1] == platform && y[1] == other;
      assert x[2..] == PartFields(hash, classes, key, a) && y[2..] == PartFields(hash, classes, key, b);
    } else {
      assert x[1..] == PartFields(hash, classes, key, a) && y[1..] == PartFields(hash, classes, key, b);
    }
  }

  /** The two keys of a tree over the real table: one for two trees exactly when, for every class of the key, as
      many entries of each path, mode and content feed it in both, and, for the workspace key, the
      platform is one. */
  lemma FingerprintIsExact(hash: Hash, key: Key, platform: string, a: seq<Entry>, other: string, b: seq<Entry>)
    requires IsListing(a) && IsListing(b)
    requires CollisionFree(hash, Hashed(hash, CLASSES, key, platform, a) + Hashed(hash, CLASSES, key, other, b))
    requires FieldsFit(hash, CLASSES, key, platform, a) && FieldsFit(hash, CLASSES, key, other, b)
    ensures KeyOf(hash, key, platform, a) == KeyOf(hash, key, other, b)
       <==> (forall class_ :: class_ in CLASSES && class_.key == key ==> FeedAlike(class_, a, b))
            && (key == Workspace ==> platform == other)
  {
    hide CoversTheSame, FeedAlike, KeyOf, CollisionFree, Hashed, FieldsFit;
    KeyIsExact(hash, CLASSES, key, platform, a, other, b);
    forall class_ | class_ in CLASSES
      ensures CoversTheSame(class_, a, b) <==> FeedAlike(class_, a, b)
    {
      CoversTheSameExactly(class_, a, b);
    }
    KeyOfIs(hash, key, platform, a);
    KeyOfIs(hash, key, other, b);
  }

  lemma KeyOfIs(hash: Hash, key: Key, platform: string, entries: seq<Entry>)
    ensures KeyOf(hash, key, platform, entries) == DigestOf(hash, KeyFields(hash, CLASSES, key, platform, entries))
  {
  }

  /** Two parts never have one digest, whatever feeds them, and one part has one exactly for the same inputs. */
  lemma PartsSeparate(hash: Hash, of: set<string>, part: Part, inputs: seq<Input>, other: Part, others: seq<Input>)
    requires ArePaths(inputs) && ArePaths(others) && CollisionFree(hash, of)
    requires Fields(SubFields(part, inputs)) in of && Fields(SubFields(other, others)) in of
    requires AllFit(SubFields(part, inputs)) && AllFit(SubFields(other, others))
    ensures DigestOf(hash, SubFields(part, inputs)) == DigestOf(hash, SubFields(other, others))
       <==> part == other && inputs == others
  {
    DigestIsExact(hash, of, SubFields(part, inputs), SubFields(other, others));
    NamesDiffer(part, other);
    hide DigestOf, AllFit, Fields, CollisionFree, PartName;
    var (x, y) := (SubFields(part, inputs), SubFields(other, others));
    if x == y {
      assert x[1] == PartName(part) && y[1] == PartName(other);
      assert x[2..] == InputFields(inputs) && y[2..] == InputFields(others);
      InputFieldsAreExact(inputs, others);
    }
  }

  lemma NamesDiffer(part: Part, other: Part)
    ensures PartName(part) == PartName(other) <==> part == other
  {
    assert "toolchain"[0] == 't' && "dependencies"[0] == 'd' && "recipe"[0] == 'r';
    assert "schema"[1] == 'c' && "services"[1] == 'e' && "schema"[0] == "services"[0] == 's';
  }

  /** A workspace key and a schema key are never one, nor is either a part's digest. */
  lemma DomainsSeparate(hash: Hash, of: set<string>, platform: string, a: seq<Entry>, b: seq<Entry>,
                        part: Part, inputs: seq<Input>)
    requires CollisionFree(hash, of)
    requires Fields(KeyFields(hash, CLASSES, Workspace, platform, a)) in of
    requires Fields(KeyFields(hash, CLASSES, Schema, platform, b)) in of
    requires Fields(SubFields(part, inputs)) in of
    requires AllFit(KeyFields(hash, CLASSES, Workspace, platform, a))
    requires AllFit(KeyFields(hash, CLASSES, Schema, platform, b)) && AllFit(SubFields(part, inputs))
    ensures KeyOf(hash, Workspace, platform, a) != KeyOf(hash, Schema, platform, b)
    ensures KeyOf(hash, Workspace, platform, a) != DigestOf(hash, SubFields(part, inputs))
    ensures KeyOf(hash, Schema, platform, b) != DigestOf(hash, SubFields(part, inputs))
  {
    var x := KeyFields(hash, CLASSES, Workspace, platform, a);
    var y := KeyFields(hash, CLASSES, Schema, platform, b);
    var z := SubFields(part, inputs);
    assert x[0] == WORKSPACE_DOMAIN && y[0] == SCHEMA_DOMAIN && z[0] == SUB_DOMAIN;
    assert |WORKSPACE_DOMAIN| == 30 && |SCHEMA_DOMAIN| == 27 && |SUB_DOMAIN| == 24;
    hide PartFields, InputFields, Fields, DigestOf, CollisionFree, AllFit;
    DigestIsExact(hash, of, x, y);
    DigestIsExact(hash, of, x, z);
    DigestIsExact(hash, of, y, z);
  }
}
