/** Vectors of identifiers that the code sorts and deduplicates, or reads out of an ordered
    map. In both cases what comes out is the elements in ascending order, each once. */
module Ascending {

  predicate StrictlyAscending(s: seq<nat>) {
    forall i, j :: 0 <= i < j < |s| ==> s[i] < s[j]
  }

  function Elements<T>(s: seq<T>): set<T> {
    set x | x in s
  }

  predicate IsLeast(m: nat, s: set<nat>) {
    m in s && forall x :: x in s ==> m <= x
  }

  lemma {:induction false} LeastExists(s: set<nat>)
    requires s != {}
    ensures exists m :: IsLeast(m, s)
  {
    var m :| m in s;
    var rest := s - {m};
    if rest == {} {
      assert s == {m};
      assert IsLeast(m, s);
    } else {
      LeastExists(rest);
      var k :| IsLeast(k, rest);
      assert s == rest + {m};
      assert IsLeast(if k < m then k else m, s);
    }
  }

  function Least(s: set<nat>): (m: nat)
    requires s != {}
    ensures IsLeast(m, s)
  {
    LeastExists(s);
    var m :| IsLeast(m, s);
    m
  }

  lemma WithLeast(m: nat, rest: seq<nat>, s: set<nat>)
    requires IsLeast(m, s) && StrictlyAscending(rest) && Elements(rest) == s - {m}
    ensures StrictlyAscending([m] + rest) && Elements([m] + rest) == s
  {
    forall i | 0 <= i < |rest|
      ensures m < rest[i]
    {
      assert rest[i] in Elements(rest);
    }
    assert Elements([m] + rest) == {m} + Elements(rest);
  }

  /** The elements of a set, smallest first. */
  function InOrder(s: set<nat>): (r: seq<nat>)
    ensures StrictlyAscending(r) && Elements(r) == s
  {
    if s == {} then [] else
      var m := Least(s);
      var rest := InOrder(s - {m});
      WithLeast(m, rest, s);
      [m] + rest
  }
}
