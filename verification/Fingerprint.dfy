/** Two keys over a tree: what a base and what a database template are stored under. Each class
    selects entries, sorts them and digests them; a key is the digest of its classes' digests. */
module Fingerprint {
  import opened Digest
  import opened Inputs
  import opened Sorting
  import opened Lexicographic
  import opened Lines

  datatype Kind = Blob | Tree | Commit

  datatype Entry = Entry(mode: string, kind: Kind, oid: string, path: Path)

  /** What a fingerprint covers of an entry. */
  datatype Input = Input(path: Path, mode: string, oid: string)

  // Selection.

  /** The entries of content a class covers, in the order of the listing. */
  function Selected(class_: Class, entries: seq<Entry>): seq<Input> {
    if entries == [] then []
    else
      var e := entries[0];
      (if !e.kind.Tree? && Covers(class_, e.path) then [Input(e.path, e.mode, e.oid)] else [])
      + Selected(class_, entries[1..])
  }

  predicate InputLeq(a: Input, b: Input) {
    if a.path != b.path then PATH_ORDER(a.path, b.path)
    else if a.mode != b.mode then TEXT_ORDER(a.mode, b.mode)
    else TEXT_ORDER(a.oid, b.oid)
  }

  const INPUT_ORDER: (Input, Input) -> bool := (a: Input, b: Input) => InputLeq(a, b)

  lemma InputsAreOrdered()
    ensures TotalOrder(INPUT_ORDER)
  {
    TextIsTotalOrder();
    LexIsTotalOrder(TEXT_ORDER);
    hide LexOrder;
  }

  function Bucket(class_: Class, entries: seq<Entry>): seq<Input> {
    SortBy(Selected(class_, entries), INPUT_ORDER)
  }

  function Buckets(classes: seq<Class>, entries: seq<Entry>): seq<seq<Input>> {
    seq(|classes|, i requires 0 <= i < |classes| => Bucket(classes[i], entries))
  }

  lemma SelectedOf(class_: Class, a: seq<Entry>, b: seq<Entry>)
    ensures Selected(class_, a + b) == Selected(class_, a) + Selected(class_, b)
  {
    if a == [] {
      assert a + b == b;
    } else {
      hide Covers;
      SelectedOf(class_, a[1..], b);
      assert (a + b)[1..] == a[1..] + b;
      var e := a[0];
      var first := if !e.kind.Tree? && Covers(class_, e.path) then [Input(e.path, e.mode, e.oid)] else [];
      var x, y := Selected(class_, a[1..]), Selected(class_, b);
      assert Selected(class_, a) == first + x && Selected(class_, a + b) == first + (x + y);
      hide Selected;
      Regrouped(first, x, y);
    }
  }

  /** One pass over the tree fills every class's bucket; then each is sorted. */
  method Select(classes: seq<Class>, entries: seq<Entry>) returns (buckets: seq<seq<Input>>)
    ensures buckets == Buckets(classes, entries)
  {
    buckets := seq(|classes|, _ => []);
    for n := 0 to |entries|
      invariant |buckets| == |classes|
      invariant forall i :: 0 <= i < |classes| ==> buckets[i] == Selected(classes[i], entries[..n])
    {
      var e := entries[n];
      assert entries[..n + 1] == entries[..n] + [e];
      ghost var was := buckets;
      if !e.kind.Tree? {
        for i := 0 to |classes|
          invariant |buckets| == |classes|
          invariant forall k :: i <= k < |classes| ==> buckets[k] == was[k]
          invariant forall k :: 0 <= k < i ==> buckets[k] == was[k] + Selected(classes[k], [e])
        {
          if Covers(classes[i], e.path) {
            buckets := buckets[i := buckets[i] + [Input(e.path, e.mode, e.oid)]];
          }
        }
      }
      forall i | 0 <= i < |classes|
        ensures buckets[i] == Selected(classes[i], entries[..n + 1])
      {
        SelectedOf(classes[i], entries[..n], [e]);
      }
    }
    assert entries[..|entries|] == entries;
    for i := 0 to |classes|
      invariant |buckets| == |classes|
      invariant forall k :: i <= k < |classes| ==> buckets[k] == Selected(classes[k], entries)
      invariant forall k :: 0 <= k < i ==> buckets[k] == Bucket(classes[k], entries)
    {
      buckets := buckets[i := SortBy(buckets[i], INPUT_ORDER)];
    }
  }

  // Digesting.

  const SUB_DOMAIN := "nodal.fingerprint.sub.v1"
  const WORKSPACE_DOMAIN := "nodal.fingerprint.workspace.v1"
  const SCHEMA_DOMAIN := "nodal.fingerprint.schema.v1"

  /** The bytes of a path: its components with a slash between them. */
  function PathBytes(path: Path): string {
    if path == [] then "" else if |path| == 1 then path[0] else path[0] + "/" + PathBytes(path[1..])
  }

  function InputFields(inputs: seq<Input>): seq<string> {
    if inputs == [] then []
    else [PathBytes(inputs[0].path), inputs[0].mode, inputs[0].oid] + InputFields(inputs[1..])
  }

  function SubFields(part: Part, inputs: seq<Input>): seq<string> {
    [SUB_DOMAIN, PartName(part)] + InputFields(inputs)
  }

  method SubDigest(hash: Hash, part: Part, inputs: seq<Input>) returns (digest: string)
    ensures digest == DigestOf(hash, SubFields(part, inputs))
  {
    hide Fields, DigestOf, PathBytes, PartName;
    var hasher := new Hasher(SUB_DOMAIN);
    hasher.Feed(PartName(part));
    assert hasher.fields == [SUB_DOMAIN, PartName(part)];
    for i := 0 to |inputs|
      invariant hasher.Valid() && fresh(hasher)
      invariant hasher.fields + InputFields(inputs[i..]) == SubFields(part, inputs)
    {
      ghost var was := hasher.fields;
      assert inputs[i..][1..] == inputs[i + 1..];
      assert InputFields(inputs[i..])
          == [PathBytes(inputs[i].path), inputs[i].mode, inputs[i].oid] + InputFields(inputs[i + 1..]);
      hide InputFields;
      hasher.Feed(PathBytes(inputs[i].path));
      hasher.Feed(inputs[i].mode);
      hasher.Feed(inputs[i].oid);
      assert hasher.fields == was + [PathBytes(inputs[i].path), inputs[i].mode, inputs[i].oid];
      Regrouped(was, [PathBytes(inputs[i].path), inputs[i].mode, inputs[i].oid], InputFields(inputs[i + 1..]));
    }
    assert inputs[|inputs|..] == [];
    assert hasher.fields + [] == hasher.fields;
    digest := hasher.Finish(hash);
  }

  /** The named digests of the classes that feed a key. */
  function PartFields(hash: Hash, classes: seq<Class>, key: Key, entries: seq<Entry>): seq<string> {
    if classes == [] then []
    else
      (if classes[0].key == key
       then [PartName(classes[0].part), DigestOf(hash, SubFields(classes[0].part, Bucket(classes[0], entries)))]
       else [])
      + PartFields(hash, classes[1..], key, entries)
  }

  lemma PartFieldsStep(hash: Hash, classes: seq<Class>, key: Key, entries: seq<Entry>, i: nat)
    requires i < |classes|
    ensures
      var sub := DigestOf(hash, SubFields(classes[i].part, Bucket(classes[i], entries)));
      var rest := PartFields(hash, classes[i + 1..], key, entries);
      PartFields(hash, classes[i..], key, entries)
      == if classes[i].key == key then [PartName(classes[i].part), sub] + rest else rest
  {
    hide DigestOf, SubFields, Bucket;
    assert classes[i..][1..] == classes[i + 1..];
  }

  /** What is digested into a key: the platform is part of the workspace key and not of the other. */
  function KeyFields(hash: Hash, classes: seq<Class>, key: Key, platform: string, entries: seq<Entry>): seq<string> {
    (if key == Workspace then [WORKSPACE_DOMAIN, platform] else [SCHEMA_DOMAIN])
    + PartFields(hash, classes, key, entries)
  }

  function KeyOf(hash: Hash, key: Key, platform: string, entries: seq<Entry>): string {
    DigestOf(hash, KeyFields(hash, CLASSES, key, platform, entries))
  }

  /** One key from the buckets of every class. */
  method ComputeKey(hash: Hash, classes: seq<Class>, key: Key, platform: string, entries: seq<Entry>)
    returns (digest: string)
    ensures digest == DigestOf(hash, KeyFields(hash, classes, key, platform, entries))
  {
    hide Fields, DigestOf, PartName, SubFields, Bucket;
    var buckets := Select(classes, entries);
    var hasher := new Hasher(if key == Workspace then WORKSPACE_DOMAIN else SCHEMA_DOMAIN);
    if key == Workspace {
      hasher.Feed(platform);
    }
    for i := 0 to |classes|
      invariant hasher.Valid() && fresh(hasher)
      invariant hasher.fields + PartFields(hash, classes[i..], key, entries)
             == KeyFields(hash, classes, key, platform, entries)
    {
      ghost var was := hasher.fields;
      PartFieldsStep(hash, classes, key, entries, i);
      hide PartFields, KeyFields;
      if classes[i].key == key {
        var sub := SubDigest(hash, classes[i].part, buckets[i]);
        hasher.Feed(PartName(classes[i].part));
        hasher.Feed(sub);
        assert hasher.fields == was + [PartName(classes[i].part), sub];
        Regrouped(was, [PartName(classes[i].part), sub], PartFields(hash, classes[i + 1..], key, entries));
      }
    }
    assert classes[|classes|..] == [];
    assert hasher.fields + [] == hasher.fields;
    digest := hasher.Finish(hash);
  }
}
