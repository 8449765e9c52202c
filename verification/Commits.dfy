/** Commits as what their identifiers stand for: a tree, its parents and a note. Two commits
    are one exactly when these are equal, so no commit is behind itself and histories are
    well founded. */
module Commits {
  import opened Trees

  datatype Commit = Commit(parents: seq<Commit>, tree: Tree, note: string)

  /** A commit and everything behind it. */
  function Behind(c: Commit): (r: set<Commit>)
    ensures c in r
  {
    {c} + set p, a | p in c.parents && a in Behind(p) :: a
  }

  /** `git merge-base --is-ancestor`: every commit of `earlier` is in `later`. */
  predicate IsAncestor(earlier: Commit, later: Commit) {
    earlier in Behind(later)
  }

  /** `git rev-list --count base..tip`. */
  function Count(base: Commit, tip: Commit): nat {
    |Behind(tip) - Behind(base)|
  }

  lemma {:induction false} BehindIsTransitive(a: Commit, b: Commit, c: Commit)
    requires IsAncestor(a, b) && IsAncestor(b, c)
    ensures IsAncestor(a, c)
    decreases c
  {
    if b != c {
      var p :| p in c.parents && b in Behind(p);
      BehindIsTransitive(a, b, p);
    }
  }

  lemma BehindGrows(b: Commit, c: Commit)
    requires IsAncestor(b, c)
    ensures Behind(b) <= Behind(c)
  {
    forall a | a in Behind(b)
      ensures a in Behind(c)
    {
      BehindIsTransitive(a, b, c);
    }
  }

  function Height(c: Commit): nat {
    1 + Tallest(c.parents)
  }

  function Tallest(cs: seq<Commit>): nat {
    if cs == [] then 0 else
      var rest := Tallest(cs[1..]);
      if Height(cs[0]) > rest then Height(cs[0]) else rest
  }

  lemma {:induction false} NoneTaller(cs: seq<Commit>, c: Commit)
    requires c in cs
    ensures Height(c) <= Tallest(cs)
  {
    if c != cs[0] {
      NoneTaller(cs[1..], c);
    }
  }

  lemma {:induction false} BehindIsShorter(a: Commit, c: Commit)
    requires IsAncestor(a, c)
    ensures a == c || Height(a) < Height(c)
    decreases c
  {
    if a != c {
      var p :| p in c.parents && a in Behind(p);
      BehindIsShorter(a, p);
      NoneTaller(c.parents, p);
    }
  }

  /** History has no loops. */
  lemma BehindIsAntisymmetric(a: Commit, b: Commit)
    requires IsAncestor(a, b) && IsAncestor(b, a)
    ensures a == b
  {
    BehindIsShorter(a, b);
    BehindIsShorter(b, a);
  }

  /** A commit made on `base` is exactly one commit over it. */
  lemma OneOver(base: Commit, made: Commit)
    requires made.parents == [base]
    ensures Behind(made) == Behind(base) + {made}
    ensures made !in Behind(base)
    ensures Count(base, made) == 1
  {
    if made in Behind(base) {
      BehindIsShorter(made, base);
      NoneTaller(made.parents, base);
    }
    assert Behind(made) == Behind(base) + {made} by {
      assert forall p :: p in made.parents <==> p == base;
    }
    assert Behind(made) - Behind(base) == {made};
  }

  /** `git merge-base`: a common ancestor that is behind no other one. */
  ghost predicate IsMergeBase(m: Commit, a: Commit, b: Commit) {
    && m in Behind(a) * Behind(b)
    && forall c :: c in Behind(a) * Behind(b) && m in Behind(c) ==> c == m
  }

  /** Of a commit and one behind it, the one behind is the merge base. */
  lemma MergeBaseOfAncestor(earlier: Commit, later: Commit, m: Commit)
    requires IsAncestor(earlier, later)
    ensures IsMergeBase(m, earlier, later) <==> m == earlier
    ensures IsMergeBase(m, later, earlier) <==> m == earlier
  {
    BehindGrows(earlier, later);
    assert Behind(earlier) * Behind(later) == Behind(earlier);
    assert Behind(later) * Behind(earlier) == Behind(earlier);
    forall c | c in Behind(earlier) && earlier in Behind(c)
      ensures c == earlier
    {
      BehindIsAntisymmetric(c, earlier);
    }
  }
}
