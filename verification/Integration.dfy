/** Where a branch stands against the branch it merges into. */
module Integration {
  import opened Trees
  import opened Commits

  datatype Reason = Ancestor | Absorbed

  datatype Verdict = Unknown | Integrated(reason: Reason) | Open | Conflict

  datatype Standing = Standing(ahead: nat, behind: nat, verdict: Verdict)

  /** What `git merge-tree` answered about merging the two. */
  datatype Merged = DidNotRun | Conflicted | Produced(tree: Tree)

  function VerdictOf(base: Commit, merged: Merged): Verdict {
    match merged
    case Conflicted => Conflict
    case DidNotRun => Unknown
    case Produced(tree) => if tree == base.tree then Integrated(Absorbed) else Open
  }

  function StandingOf(base: Commit, head: Commit, merged: Merged): Standing {
    var ahead := Count(base, head);
    Standing(ahead, Count(head, base), if ahead == 0 then Integrated(Ancestor) else VerdictOf(base, merged))
  }

  /** Not one commit ahead is the same as being in the base's history, whatever merging would
      answer; and level on both sides is the same as being one commit. */
  lemma AncestorExactly(base: Commit, head: Commit, merged: Merged)
    ensures StandingOf(base, head, merged).verdict == Integrated(Ancestor) <==> IsAncestor(head, base)
    ensures StandingOf(base, head, merged).ahead == 0 && StandingOf(base, head, merged).behind == 0 <==> head == base
  {
    NoneAhead(base, head);
    NoneAhead(head, base);
    if IsAncestor(head, base) && IsAncestor(base, head) {
      BehindIsAntisymmetric(head, base);
    }
  }

  lemma NoneAhead(base: Commit, head: Commit)
    ensures Count(base, head) == 0 <==> IsAncestor(head, base)
  {
    var over := Behind(head) - Behind(base);
    if IsAncestor(head, base) {
      BehindGrows(head, base);
      assert over == {};
    } else {
      assert head in over;
    }
  }

  /** The counts are of the commits one side has and the other has not; and a branch with any is done when merging
      it leaves the base's tree, in conflict or unknown when Git says so, and open otherwise. */
  lemma StandingExactly(base: Commit, head: Commit, merged: Merged)
    ensures
      var standing := StandingOf(base, head, merged);
      && standing.ahead == |set c | c in Behind(head) && !IsAncestor(c, base)|
      && standing.behind == |set c | c in Behind(base) && !IsAncestor(c, head)|
      && (!IsAncestor(head, base) ==>
            && (standing.verdict == Integrated(Absorbed) <==> merged == Produced(base.tree))
            && (standing.verdict == Conflict <==> merged == Conflicted)
            && (standing.verdict == Unknown <==> merged == DidNotRun)
            && (standing.verdict == Open <==> exists tree :: tree != base.tree && merged == Produced(tree)))
  {
    AncestorExactly(base, head, merged);
    NoneAhead(base, head);
    hide Behind;
    assert (set c | c in Behind(head) && !IsAncestor(c, base)) == Behind(head) - Behind(base);
    assert (set c | c in Behind(base) && !IsAncestor(c, head)) == Behind(base) - Behind(head);
  }
}
