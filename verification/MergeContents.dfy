/** What the target receives: the trees Git answered for the replayed commits, in their order and on top of
    where the replay began, or the work as it stood where nothing had to be replayed. */
module MergeContents {
  import opened Wrappers
  import opened Trees
  import opened Commits
  import opened Repository
  import opened MergeStages
  import opened MergeRuns
  import opened MergeProofs
  import opened MergeCommands

  /** From `onto` up to `tip` there is one commit for each pick, with its tree and its note, and the one
      before as its only parent. */
  ghost predicate StacksUp(onto: Commit, picks: seq<Pick>, tip: Commit) {
    exists cs: seq<Commit> :: IsStack(cs, onto, picks) && cs[|picks|] == tip
  }

  ghost predicate IsStack(cs: seq<Commit>, onto: Commit, picks: seq<Pick>) {
    && |cs| == |picks| + 1 && cs[0] == onto
    && forall i :: 0 <= i < |picks| ==>
        cs[i + 1].tree == picks[i].tree && cs[i + 1].note == picks[i].note && cs[i + 1].parents == [cs[i]]
  }

  lemma {:induction false} ChainStacksUp(onto: Commit, picks: seq<Pick>)
    ensures StacksUp(onto, picks, Chain(onto, picks))
    decreases picks
  {
    if picks == [] {
      assert IsStack([onto], onto, picks);
    } else {
      var next := Commit([onto], picks[0].tree, picks[0].note);
      ChainStacksUp(next, picks[1..]);
      var above :| IsStack(above, next, picks[1..]) && above[|picks| - 1] == Chain(next, picks[1..]);
      hide IsStack;
      OneMoreStacked(onto, picks, next, above);
    }
  }

  lemma OneMoreStacked(onto: Commit, picks: seq<Pick>, next: Commit, above: seq<Commit>)
    requires picks != [] && next == Commit([onto], picks[0].tree, picks[0].note) && IsStack(above, next, picks[1..])
    ensures IsStack([onto] + above, onto, picks) && ([onto] + above)[|picks|] == above[|picks| - 1]
  {
    var cs := [onto] + above;
    forall i | 0 <= i < |picks|
      ensures cs[i + 1].tree == picks[i].tree && cs[i + 1].note == picks[i].note && cs[i + 1].parents == [cs[i]]
    {
      assert i > 0 ==> cs[i + 1] == above[i] && cs[i] == above[i - 1] && picks[i] == picks[1..][i - 1];
    }
  }

  /** The files of a working tree that went from what was tracked to a commit's: the commit's own, and of the
      others those that were not tracked, as they were. */
  ghost predicate StandsOver(t: Tree, to: Tree, tracked: Tree, before: Tree) {
    forall p :: At(t, p) == if p in to then At(to, p) else if p in tracked then None else At(before, p)
  }

  lemma CheckedOutStands(worktree: Tree, tracked: Tree, to: Tree)
    ensures StandsOver(CheckedOut(worktree, tracked.Keys, to), to, tracked, worktree)
  {
  }

  /** What a rebase that is done put on the branch, and into the files. */
  lemma RebaseDeliversThePicks(r: Repo, onto: Commit, replay: Replay)
    requires Valid(r) && Rebase(r, onto, replay).outcome == Done
    requires r.rebase.Some? || !IsAncestor(onto, HeadCommit(r))
    ensures
      var done := Rebase(r, onto, replay).repo;
      && Valid(done) && replay.Finished?
      && StacksUp(if r.rebase.Some? then HeadCommit(r) else onto, replay.picks, HeadCommit(done))
      && done.index == HeadCommit(done).tree
      && StandsOver(done.worktree, HeadCommit(done).tree, r.index, r.worktree)
      && forall branch :: branch in r.branches && BranchOf(r) != On(branch) ==>
          branch in done.branches && done.branches[branch] == r.branches[branch]
  {
    hide Behind, Chain, CheckedOut, Tidy, StacksUp, StandsOver;
    RebaseEnds(r, onto, replay);
    var from := if r.rebase.Some? then HeadCommit(r) else onto;
    ChainStacksUp(from, replay.picks);
    CheckedOutStands(r.worktree, r.index, Chain(from, replay.picks).tree);
  }

  /** What one that stopped left: the commits replayed so far under a detached `HEAD`, and index and files as
      Git left them. */
  lemma ConflictKeepsThePicks(r: Repo, onto: Commit, picks: seq<Pick>, index: Tree, worktree: Tree)
    requires Valid(r) && Rebase(r, onto, Conflicts(picks, index, worktree)).outcome == Conflict
    ensures
      var stopped := Rebase(r, onto, Conflicts(picks, index, worktree)).repo;
      && stopped.head.Detached?
      && StacksUp(if r.rebase.Some? then HeadCommit(r) else onto, picks, stopped.head.commit)
      && stopped.index == index && stopped.worktree == worktree
  {
    hide Behind, Chain, Tidy, StacksUp;
    ChainStacksUp(if r.rebase.Some? then HeadCommit(r) else onto, picks);
  }

  /** A tree is the work of a home: every file of it that is tracked, or that no ignore rule covers. */
  ghost predicate IsTheWork(t: Tree, home: Repo) {
    forall p :: At(t, p) == if p in home.index || p !in home.ignored then At(home.worktree, p) else None
  }

  lemma AddableIsTheWork(home: Repo)
    ensures IsTheWork(Addable(home), home)
  {
  }

  /** The home when a merge begun on its branch comes to its rebase. */
  lemma FrontHoldsTheWork(w: World, names: Names, given: Given)
    requires EndsUndisturbed(w, names, given)
    ensures
      var front := Front(w, names, given);
      && Valid(front) && front.rebase.None? && front.worktree == w.home.worktree && front.index == Addable(w.home)
      && HeadCommit(front).tree == Addable(w.home)
      && (IsAncestor(Onto(w, names), HeadCommit(w.home)) ==> IsAncestor(Onto(w, names), HeadCommit(front)))
      && Merge(w, names, given, ENOUGH).world.home == Rebase(front, Onto(w, names), given.replay).repo
      && Rebase(front, Onto(w, names), given.replay).outcome == Done
  {
    var onto := Onto(w, names);
    RebasedHome(w, names, given);
    FrontIsRebased(w, names, given);
    FrontIsFolded(w, names, given);
    RecordIsOver(w.home, given);
    hide Merge, Front, Behind, Addable, Recorded, AnswersMergeBases, Rebase, Squashed;
    if IsAncestor(onto, HeadCommit(w.home)) {
      BehindIsTransitive(onto, HeadCommit(w.home), HeadCommit(Recorded(w.home, given)));
      FoldedStaysOver(Recorded(w.home, given), onto, given);
    }
  }

  lemma FrontIsRebased(w: World, names: Names, given: Given)
    requires EndsUndisturbed(w, names, given)
    ensures Valid(Front(w, names, given))
    ensures Rebase(Front(w, names, given), Onto(w, names), given.replay).outcome == Done
  {
    RebasedHome(w, names, given);
    hide CommitAll, Rebase, FastForward, Behind, Squashed, AnswersMergeBases;
  }

  lemma FrontIsFolded(w: World, names: Names, given: Given)
    requires EndsUndisturbed(w, names, given)
    ensures
      var (front, recorded) := (Front(w, names, given), Recorded(w.home, given));
      && Squashed(recorded, Onto(w, names), given) == Some(front)
      && Settled(front) && front.worktree == recorded.worktree
  {
    StartingOver(w.home, w.home, given);
    var recorded := Recorded(w.home, given);
    assert recorded == RecordPremerge(Committed(w.home, given));
    hide Behind, Count, IsMergeBase, AnswersMergeBases, Settled, CommitAll, Rebase, FastForward, Squash;
    SquashingFolds(recorded, Onto(w, names), given);
  }

  lemma RecordIsOver(home: Repo, given: Given)
    requires OnBranch(home)
    ensures OnBranch(Recorded(home, given)) && Recorded(home, given).worktree == home.worktree
    ensures IsAncestor(HeadCommit(home), HeadCommit(Recorded(home, given)))
  {
    CommitTakesTheWork(home, given.message, given.message);
    CommittingSettles(home, given);
    hide Behind, Addable, CommitAll;
  }

  lemma FoldedStaysOver(r: Repo, onto: Commit, given: Given)
    requires Valid(r) && IsAncestor(onto, HeadCommit(r)) && AnswersMergeBases(given.mergeBase)
    requires Squashed(r, onto, given).Some? && Valid(Squashed(r, onto, given).value)
    ensures IsAncestor(onto, HeadCommit(Squashed(r, onto, given).value))
  {
    hide Behind, Count;
    MergeBaseOfAncestor(onto, HeadCommit(r), onto);
    var m := given.mergeBase(onto, HeadCommit(r)).value;
    MergeBaseOfAncestor(onto, HeadCommit(r), m);
    OneOver(onto, Commit([onto], HeadCommit(r).tree, given.message));
  }

  /** What a merge begun on its branch gives the target. Where the branch was on it already, the work as it
      stood, and no file of the home moves. Where it had to be rebased, the commits Git replayed on the
      target's old tip, and the home's files are the last one's, those it did not track aside. */
  lemma MergedDeliversTheWork(w: World, names: Names, given: Given)
    requires EndsUndisturbed(w, names, given)
    ensures Valid(Front(w, names, given))
    ensures
      var (onto, end) := (Onto(w, names), Merge(w, names, given, ENOUGH).world);
      var based := IsAncestor(onto, HeadCommit(Front(w, names, given)));
      && Ready(end, names) && Onto(end, names) == HeadCommit(end.home)
      && end.home.index == HeadCommit(end.home).tree
      && (IsAncestor(onto, HeadCommit(w.home)) ==> based)
      && (based ==> IsTheWork(Onto(end, names).tree, w.home) && end.home.worktree == w.home.worktree)
      && (!based ==>
            && given.replay.Finished? && StacksUp(onto, given.replay.picks, Onto(end, names))
            && exists tracked ::
                IsTheWork(tracked, w.home)
                && StandsOver(end.home.worktree, Onto(end, names).tree, tracked, w.home.worktree))
  {
    OneCommand(w, names, given, ENOUGH);
    FrontHoldsTheWork(w, names, given);
    AddableIsTheWork(w.home);
    var (onto, front) := (Onto(w, names), Front(w, names, given));
    if !IsAncestor(onto, HeadCommit(front)) {
      RebaseDeliversThePicks(front, onto, given.replay);
    }
    hide Behind, Addable, Merge, Front, StacksUp, StandsOver, IsTheWork, OnlyForwarded, CheckedOut, Chain, Tidy, AnswersMergeBases;
  }

  /** What a command that carries a stopped rebase on gives the target: the commits replayed now, on top of those
      replayed before it stopped. */
  lemma ResumedDeliversThePicks(w: World, names: Names, given: Given, lives: nat)
    requires Able(w, names) && w.home.rebase.Some? && MergeCommand(w, names, given, lives).ended.Merged?
    ensures
      var end := MergeCommand(w, names, given, lives).world;
      && Ready(end, names) && Onto(end, names) == HeadCommit(end.home)
      && given.replay.Finished? && StacksUp(HeadCommit(w.home), given.replay.picks, Onto(end, names))
      && end.home.index == HeadCommit(end.home).tree
      && StandsOver(end.home.worktree, Onto(end, names).tree, w.home.index, w.home.worktree)
  {
    OneCommand(w, names, given, lives);
    var onto := Onto(w, names);
    assert Rebase(w.home, onto, given.replay).outcome == Done;
    RebaseDeliversThePicks(w.home, onto, given.replay);
    hide Behind, StacksUp, StandsOver, OnlyForwarded, Rebase, FastForward;
  }
}
