/** Commit history as a graph, and the one question Git is asked about it: which commits
    are behind a set of commits, and how many of them are not behind another set. */
module CommitGraph {

  type Oid = nat

  /** Each commit and its parents. Both a repository's whole history and the part of it one
      object store can walk have this shape. */
  type History = map<Oid, set<Oid>>

  function ParentsOf(h: History, from: set<Oid>): set<Oid> {
    set c, p | c in from && c in h && p in h[c] :: p
  }

  /** Every commit `git rev-list` reaches from `from`. An identifier the graph does not
      hold is skipped, as `--ignore-missing` skips it. */
  function Ancestors(h: History, from: set<Oid>): (r: set<Oid>)
    ensures r <= h.Keys
    decreases h.Keys
  {
    var here := from * h.Keys;
    if here == {} then {} else
      var rest := map c | c in h && c !in here :: h[c];
      assert rest.Keys == h.Keys - here;
      here + Ancestors(rest, ParentsOf(h, here))
  }

  ghost predicate Closed(h: History, s: set<Oid>) {
    ParentsOf(h, s) * h.Keys <= s
  }

  lemma {:induction false} AncestorsAreClosed(h: History, from: set<Oid>)
    ensures from * h.Keys <= Ancestors(h, from)
    ensures Closed(h, Ancestors(h, from))
    decreases h.Keys
  {
    var here := from * h.Keys;
    if here != {} {
      var rest := map c | c in h && c !in here :: h[c];
      assert rest.Keys == h.Keys - here;
      var next := ParentsOf(h, here);
      AncestorsAreClosed(rest, next);
      var behind := Ancestors(rest, next);
      forall p | p in ParentsOf(h, here + behind) && p in h ensures p in here + behind {
        var c :| c in here + behind && c in h && p in h[c];
        if c in here {
          assert p in next;
          assert p in here || p in next * rest.Keys;
        } else {
          assert c in rest && rest[c] == h[c];
          assert p in ParentsOf(rest, behind);
          assert p in here || p in ParentsOf(rest, behind) * rest.Keys;
        }
      }
    }
  }

  lemma {:induction false} AncestorsAreLeast(h: History, from: set<Oid>, s: set<Oid>)
    requires from * h.Keys <= s && Closed(h, s)
    ensures Ancestors(h, from) <= s
    decreases h.Keys
  {
    var here := from * h.Keys;
    if here != {} {
      var rest := map c | c in h && c !in here :: h[c];
      assert rest.Keys == h.Keys - here;
      var next := ParentsOf(h, here);
      assert next * rest.Keys <= s by {
        forall p | p in next && p in rest ensures p in s {
          assert p in ParentsOf(h, s) * h.Keys;
        }
      }
      assert Closed(rest, s) by {
        forall p | p in ParentsOf(rest, s) && p in rest ensures p in s {
          assert p in ParentsOf(h, s) * h.Keys;
        }
      }
      AncestorsAreLeast(rest, next, s);
    }
  }

  /** What is behind an ancestor is behind the descendant. */
  lemma AncestorsAreTransitive(h: History, from: set<Oid>, mid: set<Oid>)
    requires mid * h.Keys <= Ancestors(h, from)
    ensures Ancestors(h, mid) <= Ancestors(h, from)
  {
    AncestorsAreClosed(h, from);
    AncestorsAreLeast(h, mid, Ancestors(h, from));
  }

  /** A commit behind a set of commits is behind one of them. */
  lemma AncestorOfOne(h: History, from: set<Oid>, c: Oid)
    requires c in Ancestors(h, from)
    ensures BehindOne(h, from, c)
  {
    var s := set f, a | f in from && f in h && a in Ancestors(h, {f}) :: a;
    forall f | f in from && f in h ensures f in s {
      AncestorsAreClosed(h, {f});
      assert f in {f} * h.Keys;
    }
    forall p | p in ParentsOf(h, s) && p in h ensures p in s {
      var k :| k in s && k in h && p in h[k];
      var f :| f in from && f in h && k in Ancestors(h, {f});
      AncestorsAreClosed(h, {f});
      assert p in ParentsOf(h, Ancestors(h, {f})) * h.Keys;
    }
    AncestorsAreLeast(h, from, s);
  }

  /** More starting points reach more. */
  lemma AncestorsGrow(h: History, small: set<Oid>, big: set<Oid>)
    requires small * h.Keys <= big
    ensures Ancestors(h, small) <= Ancestors(h, big)
  {
    AncestorsAreClosed(h, big);
    AncestorsAreLeast(h, small, Ancestors(h, big));
  }

  /** A graph with fewer commits and fewer links reaches less. */
  lemma SubgraphReachesLess(part: History, whole: History, from: set<Oid>)
    requires part.Keys <= whole.Keys
    requires forall c :: c in part ==> part[c] <= whole[c]
    ensures Ancestors(part, from) <= Ancestors(whole, from)
  {
    var s := Ancestors(whole, from);
    AncestorsAreClosed(whole, from);
    forall p | p in ParentsOf(part, s) && p in part ensures p in s {
      assert p in ParentsOf(whole, s) * whole.Keys;
    }
    AncestorsAreLeast(part, from, s);
  }

  /** `git rev-list --count <rev> --not <held>`. */
  function CountOutside(h: History, rev: Oid, held: set<Oid>): nat {
    |Ancestors(h, {rev}) - Ancestors(h, held)|
  }

  /** `git merge-base --is-ancestor`. */
  predicate IsAncestor(h: History, earlier: Oid, later: Oid) {
    earlier in Ancestors(h, {later})
  }

  /** Nothing is outside exactly when every commit of the revision is behind one of the
      held commits this graph has. */
  lemma NothingOutside(h: History, rev: Oid, held: set<Oid>)
    ensures CountOutside(h, rev, held) == 0
      <==> forall c :: c in Ancestors(h, {rev}) ==> BehindOne(h, held, c)
  {
    var outside := Ancestors(h, {rev}) - Ancestors(h, held);
    forall c ensures BehindOne(h, held, c) <==> c in Ancestors(h, held) {
      BehindOneIsAncestor(h, held, c);
    }
    forall c ensures c in outside <==> c in Ancestors(h, {rev}) && c !in Ancestors(h, held) {
    }
    if outside != {} {
      var c :| c in outside;
      assert !BehindOne(h, held, c);
    }
  }

  ghost predicate BehindOne(h: History, held: set<Oid>, c: Oid) {
    exists t :: t in held && t in h && c in Ancestors(h, {t})
  }

  lemma BehindOneIsAncestor(h: History, held: set<Oid>, c: Oid)
    ensures BehindOne(h, held, c) <==> c in Ancestors(h, held)
  {
    if c in Ancestors(h, held) {
      AncestorOfOne(h, held, c);
    }
    if BehindOne(h, held, c) {
      var t :| t in held && t in h && c in Ancestors(h, {t});
      AncestorsGrow(h, {t}, held);
    }
  }
}
