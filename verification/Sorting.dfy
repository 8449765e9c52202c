/** A stable sort by a given order, and what makes its answer canonical: when the order is
    antisymmetric, any two sequences of the same elements sort to the same sequence, whatever
    order they came in. */
module Sorting {

  ghost predicate Connected<T(!new)>(leq: (T, T) -> bool) {
    forall x, y :: leq(x, y) || leq(y, x)
  }

  ghost predicate Transitive<T(!new)>(leq: (T, T) -> bool) {
    forall x, y, z :: leq(x, y) && leq(y, z) ==> leq(x, z)
  }

  ghost predicate AntiSymmetric<T(!new)>(leq: (T, T) -> bool) {
    forall x, y :: leq(x, y) && leq(y, x) ==> x == y
  }

  ghost predicate TotalOrder<T(!new)>(leq: (T, T) -> bool) {
    Connected(leq) && Transitive(leq) && AntiSymmetric(leq)
  }

  predicate Sorted<T>(s: seq<T>, leq: (T, T) -> bool) {
    forall i, j :: 0 <= i < j < |s| ==> leq(s[i], s[j])
  }

  function Insert<T>(x: T, s: seq<T>, leq: (T, T) -> bool): seq<T> {
    if s == [] || leq(x, s[0]) then [x] + s else [s[0]] + Insert(x, s[1..], leq)
  }

  /** The elements of `s` in order, equal ones in the order they came. */
  function SortBy<T>(s: seq<T>, leq: (T, T) -> bool): seq<T> {
    if s == [] then [] else Insert(s[0], SortBy(s[1..], leq), leq)
  }

  lemma {:induction false} InsertAdds<T>(x: T, s: seq<T>, leq: (T, T) -> bool)
    ensures multiset(Insert(x, s, leq)) == multiset(s) + multiset{x}
  {
    if s != [] && !leq(x, s[0]) {
      InsertAdds(x, s[1..], leq);
      assert s == [s[0]] + s[1..];
    }
  }

  lemma {:induction false} SortPermutes<T>(s: seq<T>, leq: (T, T) -> bool)
    ensures multiset(SortBy(s, leq)) == multiset(s)
  {
    if s != [] {
      SortPermutes(s[1..], leq);
      InsertAdds(s[0], SortBy(s[1..], leq), leq);
      assert s == [s[0]] + s[1..];
    }
  }

  lemma {:induction false} InsertKeepsSorted<T(!new)>(x: T, s: seq<T>, leq: (T, T) -> bool)
    requires Connected(leq) && Transitive(leq) && Sorted(s, leq)
    ensures Sorted(Insert(x, s, leq), leq)
  {
    if s != [] && !leq(x, s[0]) {
      var rest := Insert(x, s[1..], leq);
      InsertKeepsSorted(x, s[1..], leq);
      InsertAdds(x, s[1..], leq);
      forall k | 0 <= k < |rest| ensures leq(s[0], rest[k]) {
        assert rest[k] in multiset(rest);
        assert rest[k] == x || rest[k] in s[1..];
      }
    }
  }

  lemma {:induction false} SortSorts<T(!new)>(s: seq<T>, leq: (T, T) -> bool)
    requires Connected(leq) && Transitive(leq)
    ensures Sorted(SortBy(s, leq), leq)
  {
    if s != [] {
      SortSorts(s[1..], leq);
      InsertKeepsSorted(s[0], SortBy(s[1..], leq), leq);
    }
  }

  /** Two sorted sequences of the same elements are the same sequence. */
  lemma {:induction false} SortedIsUnique<T(!new)>(a: seq<T>, b: seq<T>, leq: (T, T) -> bool)
    requires AntiSymmetric(leq) && Sorted(a, leq) && Sorted(b, leq)
    requires multiset(a) == multiset(b)
    ensures a == b
  {
    assert |a| == |multiset(a)| == |multiset(b)| == |b|;
    if a != [] {
      SameFirst(a, b, leq);
      TailCounts(a);
      TailCounts(b);
      SortedIsUnique(a[1..], b[1..], leq);
      assert a == [a[0]] + a[1..] && b == [b[0]] + b[1..];
    }
  }

  lemma TailCounts<T>(s: seq<T>)
    requires s != []
    ensures multiset(s[1..]) == multiset(s) - multiset{s[0]}
  {
    assert s == [s[0]] + s[1..];
  }

  lemma SameFirst<T(!new)>(a: seq<T>, b: seq<T>, leq: (T, T) -> bool)
    requires AntiSymmetric(leq) && Sorted(a, leq) && Sorted(b, leq) && a != [] && b != []
    requires multiset(a) == multiset(b)
    ensures a[0] == b[0]
  {
    assert a[0] in multiset(b) && b[0] in multiset(a);
    var i :| 0 <= i < |b| && b[i] == a[0];
    var j :| 0 <= j < |a| && a[j] == b[0];
    hide AntiSymmetric;
    assert i == 0 || leq(b[0], b[i]);
    assert j == 0 || leq(a[0], a[j]);
    Equal(a[0], b[0], leq);
  }

  lemma Equal<T(!new)>(x: T, y: T, leq: (T, T) -> bool)
    requires AntiSymmetric(leq) && (x == y || (leq(x, y) && leq(y, x)))
    ensures x == y
  {
  }

  /** Under a total order the sorted form depends on the elements alone, and tells them
      apart. */
  lemma SortIsCanonical<T(!new)>(a: seq<T>, b: seq<T>, leq: (T, T) -> bool)
    requires TotalOrder(leq)
    ensures SortBy(a, leq) == SortBy(b, leq) <==> multiset(a) == multiset(b)
  {
    SortPermutes(a, leq);
    SortPermutes(b, leq);
    SortSorts(a, leq);
    SortSorts(b, leq);
    if multiset(a) == multiset(b) {
      SortedIsUnique(SortBy(a, leq), SortBy(b, leq), leq);
    }
  }
}
