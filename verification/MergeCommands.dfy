/** One merge command, whatever it starts from: begun on the unit's branch, or carrying a stopped
    rebase on; what it keeps, what a merged one leaves, and what one command more then does. */
module MergeCommands {
  import opened Trees
  import opened Commits
  import opened Repository
  import opened MergeStages
  import opened MergeRuns
  import opened MergeProofs

  /** What a command may do to the checkout: nothing, or its one branch moved forward, with no
      other branch and no local change of a file lost. */
  ghost predicate OnlyForwarded(before: Repo, after: Repo, target: string)
    requires Valid(before) && target in before.branches
  {
    || after == before
    || (&& target in after.branches && IsAncestor(before.branches[target], after.branches[target])
        && after.branches == before.branches[target := after.branches[target]]
        && after.head == before.head && after.rebase == before.rebase
        && forall p :: LocallyChanged(before, p) ==> At(after.worktree, p) == At(before.worktree, p))
  }

  /** The unit's branch is the target's, on top of where the target was. */
  ghost predicate EndsMerged(w: World, names: Names, ran: Ran)
    requires names.target in w.checkout.branches
  {
    && ran.ended.Merged? && Ready(ran.world, names)
    && ran.world.home.index == HeadCommit(ran.world.home).tree
    && Onto(ran.world, names) == HeadCommit(ran.world.home)
    && IsAncestor(Onto(w, names), HeadCommit(ran.world.home))
    && (ran.ended.moved <==> Onto(w, names) != HeadCommit(ran.world.home))
    && (!ran.ended.moved ==> ran.world.checkout == w.checkout)
  }

  lemma LastStagesAreSafe(w: World, names: Names, replay: Replay, lives: nat)
    requires Able(w, names)
    requires w.home.rebase.None? ==> w.home.index == HeadCommit(w.home).tree
    ensures
      var ran := Integrate(w, names, Onto(w, names), replay, lives);
      && Able(ran.world, names)
      && OnlyForwarded(w.checkout, ran.world.checkout, names.target)
      && ran.world.home.premerge == w.home.premerge
      && (ran.ended.Merged? ==> EndsMerged(w, names, ran))
      && (ran.ended.Refused? || ran.ended.InConflict? ==> ran.world.checkout == w.checkout)
      && (ran.ended.InConflict? ==> ran.world.home.rebase.Some?)
  {
    var onto := Onto(w, names);
    var rebased := Rebase(w.home, onto, replay);
    RebaseEnds(w.home, onto, replay);
    if rebased.outcome == Done {
      DoneIsTidy(w.home, onto, replay);
      ForwardNeverRewrites(w.checkout, names.target, HeadCommit(rebased.repo));
      ItIsBehindItself(onto);
    }
    hide Rebase, MoveBranch, Behind, LocallyChanged;
  }

  lemma ItIsBehindItself(c: Commit)
    ensures IsAncestor(c, c)
  {
  }

  lemma DoneIsTidy(r: Repo, onto: Commit, replay: Replay)
    requires Valid(r) && Rebase(r, onto, replay).outcome == Done
    requires r.rebase.None? ==> r.index == HeadCommit(r).tree
    ensures Valid(Rebase(r, onto, replay).repo)
    ensures Rebase(r, onto, replay).repo.index == HeadCommit(Rebase(r, onto, replay).repo).tree
  {
    hide Behind, Chain, CheckedOut, Tidy;
    RebaseEnds(r, onto, replay);
  }

  /** A home before its last stages is on its branch still, at the same record if it had one. */
  lemma FirstStagesAreSafe(home: Repo, onto: Commit, given: Given)
    requires OnBranch(home)
    ensures OnBranch(Added(home)) && OnBranch(Committed(home, given)) && OnBranch(Recorded(home, given))
    ensures Added(home).head == Committed(home, given).head == Recorded(home, given).head == home.head
    ensures home.premerge.Some? ==> Recorded(home, given).premerge == home.premerge
    ensures Added(home).premerge == Committed(home, given).premerge == home.premerge
    ensures Recorded(home, given).index == HeadCommit(Recorded(home, given)).tree == Addable(home)
    ensures
      var squashed := Squashed(Recorded(home, given), onto, given);
      squashed.Some? ==>
        && OnBranch(squashed.value) && squashed.value.head == home.head
        && squashed.value.premerge == Recorded(home, given).premerge
        && squashed.value.index == HeadCommit(squashed.value).tree == Addable(home)
  {
    CommittingSettles(home, given);
    hide Behind, Count;
  }

  lemma OneCommand(w: World, names: Names, given: Given, lives: nat)
    requires Able(w, names)
    ensures
      var ran := MergeCommand(w, names, given, lives);
      && Able(ran.world, names)
      && OnlyForwarded(w.checkout, ran.world.checkout, names.target)
      && (w.home.premerge.Some? ==> ran.world.home.premerge == w.home.premerge)
      && (ran.ended.Merged? ==> EndsMerged(w, names, ran))
      && (ran.ended.Refused? || ran.ended.InConflict? ==> ran.world.checkout == w.checkout)
      && (ran.ended.InConflict? ==> ran.world.home.rebase.Some?)
  {
    if w.home.rebase.Some? {
      LastStagesAreSafe(w, names, given.replay, lives);
    } else {
      var onto := Onto(w, names);
      FirstStagesAreSafe(w.home, onto, given);
      var squashed := Squashed(Recorded(w.home, given), onto, given);
      if lives > 4 && squashed.Some? {
        LastStagesAreSafe(w.(home := squashed.value), names, given.replay, lives - 4);
      }
      hide Integrate, Squashed, CommitAll, LocallyChanged, Behind, Addable;
    }
  }

  lemma AbortKeepsAble(r: Repo, unit: string)
    requires Valid(r) && BranchOf(r) == On(unit)
    ensures
      var back := AbortCommand(r, unit).GetOr(Abort(r));
      Valid(back) && back.head == On(unit) && back.rebase.None?
  {
    hide MayKeep, Behind;
  }

  // A merge begun on its branch.

  /** Cut after its rebase, a merge that would end merged has left the home it ends with. */
  lemma RebasedHome(w: World, names: Names, given: Given)
    requires EndsUndisturbed(w, names, given)
    ensures
      var (back, onto) := (Back(w, names, given), Onto(w, names));
      && Merge(w, names, given, 5).world == w.(home := back)
      && Merge(w, names, given, ENOUGH).world.home == back
      && Ready(w.(home := back), names)
      && back.index == HeadCommit(back).tree && IsAncestor(onto, HeadCommit(back))
      && Valid(Front(w, names, given)) && Front(w, names, given).premerge == Recorded(w.home, given).premerge
      && back.premerge == Recorded(w.home, given).premerge && back.premerge.Some?
      && HeadCommit(Front(w, names, given)).tree == Addable(w.home)
  {
    hide Rebase, FastForward, Behind, LocallyChanged, OnlyForwarded, Addable, Squashed, CommitAll;
    OneCommand(w, names, given, ENOUGH);
    FirstStagesAreSafe(w.home, Onto(w, names), given);
    assert RecordPremerge(Committed(w.home, given)) == Recorded(w.home, given);
    RebaseEnds(Front(w, names, given), Onto(w, names), given.replay);
  }

  /** Writes past the last stage change nothing. */
  lemma EnoughIsEnough(w: World, names: Names, given: Given, lives: nat)
    requires Able(w, names)
    ensures lives >= ENOUGH ==> MergeCommand(w, names, given, lives) == MergeCommand(w, names, given, ENOUGH)
    ensures w.home.rebase.None? && MergeCommand(w, names, given, lives).ended.Merged? ==> lives >= ENOUGH
    ensures w.home.rebase.Some? && lives >= 3 ==> MergeCommand(w, names, given, lives) == MergeCommand(w, names, given, ENOUGH)
    ensures w.home.rebase.Some? && MergeCommand(w, names, given, lives).ended.Merged? ==> lives >= 3
  {
    hide Rebase, FastForward, Behind, CommitAll, Squashed, Added, RecordPremerge;
  }

  /** What a merge that ended leaves: the target at the unit's tip, its old tip in that history and
      one commit behind it at most exactly when the rebase put no more there; and the work as it
      stood before the squash on record. */
  lemma MergedKeepsTheWork(w: World, names: Names, given: Given)
    requires EndsUndisturbed(w, names, given)
    ensures Valid(Front(w, names, given))
    ensures
      var end := Merge(w, names, given, ENOUGH).world;
      && EndsMerged(w, names, Merge(w, names, given, ENOUGH))
      && (Count(Onto(w, names), Onto(end, names)) <= 1
          <==> ReplaysOneAtMost(Front(w, names, given), Onto(w, names), given.replay))
      && end.home.premerge.Some?
      && (w.home.premerge.Some? ==> end.home.premerge == w.home.premerge)
      && (w.home.premerge.None? ==> end.home.premerge.value.tree == Addable(w.home)
                                    && IsAncestor(HeadCommit(w.home), end.home.premerge.value))
  {
    OneCommand(w, names, given, ENOUGH);
    RebasedHome(w, names, given);
    MergesExactly(w, names, given);
    CommitTakesTheWork(w.home, given.message, given.message);
    FirstStagesAreSafe(w.home, Onto(w, names), given);
    hide Merge, Behind, Addable, Front, Back, OnlyForwarded, LocallyChanged, Count, ReplaysOneAtMost, Settled;
  }

  // One command more.

  /** What a command after a merge finds to do: nothing, with a record and no file left to add. */
  ghost predicate NothingLeft(r: Repo)
    requires Valid(r)
  {
    r.premerge.Some? && Addable(r) == HeadCommit(r).tree
  }

  lemma LevelRunsToNothing(x: World, names: Names, again: Given, more: nat)
    requires Ready(x, names) && AnswersMergeBases(again.mergeBase)
    requires x.home.index == HeadCommit(x.home).tree && NothingLeft(x.home)
    requires Onto(x, names) == HeadCommit(x.home)
    ensures Merge(x, names, again, more).world == x
    ensures more >= ENOUGH ==> Merge(x, names, again, more).ended == Merged(false)
  {
    var tip := HeadCommit(x.home);
    assert Behind(tip) - Behind(tip) == {};
    OneOverFoldsNothing(x.home, tip, again);
    FoldedRunsOn(x, names, again, more);
    hide Merge, Behind, Squash, CommitAll, IsMergeBase;
  }

  /** A home over the target as its rerun leaves it: committed, recorded, and folded if there was
      more than one commit. */
  lemma RerunOverTheTarget(x: World, names: Names, again: Given, more: nat)
    requires Ready(x, names) && AnswersMergeBases(again.mergeBase)
    requires IsAncestor(Onto(x, names), HeadCommit(x.home))
    requires more >= 3
    ensures
      var (onto, end) := (Onto(x, names), Merge(x, names, again, more).world.home);
      && Valid(end) && end.premerge.Some? && end.index == HeadCommit(end).tree == Addable(x.home)
      && (more >= 4 ==> Count(onto, HeadCommit(end)) < 2)
      && end == if more == 3 then Recorded(x.home, again) else Squashed(Recorded(x.home, again), onto, again).GetOr(x.home)
  {
    var onto := Onto(x, names);
    FirstStagesAreSafe(x.home, onto, again);
    CommitTakesTheWork(x.home, again.message, again.message);
    var recorded := Recorded(x.home, again);
    var tip := HeadCommit(recorded);
    BehindIsTransitive(onto, HeadCommit(x.home), tip);
    SquashOverTheTarget(recorded, onto, again);
    HomeOfRun(x, names, again, more);
    hide Behind, Count, CommitAll, Addable, Recorded, Merge, AnswersMergeBases, Rebase;
  }

  /** Over the target the merge base is the target, so the squash leaves one commit on it at most,
      and a rebase then has nothing to do. */
  lemma SquashOverTheTarget(r: Repo, onto: Commit, given: Given)
    requires OnBranch(r) && AnswersMergeBases(given.mergeBase) && IsAncestor(onto, HeadCommit(r))
    ensures
      var squashed := Squashed(r, onto, given);
      && squashed.Some? && OnBranch(squashed.value)
      && IsAncestor(onto, HeadCommit(squashed.value)) && Count(onto, HeadCommit(squashed.value)) < 2
      && (squashed.value == r <==> Count(onto, HeadCommit(r)) < 2)
      && forall replay :: Rebase(squashed.value, onto, replay) == Rebased(squashed.value, Done)
  {
    MergeBaseOfAncestor(onto, HeadCommit(r), onto);
    var m := given.mergeBase(onto, HeadCommit(r));
    assert m.Some?;
    MergeBaseOfAncestor(onto, HeadCommit(r), m.value);
    OneOver(onto, Commit([onto], HeadCommit(r).tree, given.message));
    hide Behind, Count;
  }

  lemma SomethingLeftIsTaken(x: World, names: Names, again: Given, more: nat)
    requires Ready(x, names) && AnswersMergeBases(again.mergeBase)
    requires IsAncestor(Onto(x, names), HeadCommit(x.home))
    requires !NothingLeft(x.home) && more >= 3
    ensures Merge(x, names, again, more).world.home != x.home
  {
    RerunOverTheTarget(x, names, again, more);
    hide Merge, Behind, Addable, Recorded, Squashed;
  }

  /** A merge begun on its branch and finished is finished: any command after it changes nothing, and
      answers that the target had not to move. */
  lemma MergedTwiceIsMergedOnce(w: World, names: Names, given: Given, lives: nat, again: Given, more: nat)
    requires Ready(w, names) && MergeCommand(w, names, given, lives).ended.Merged?
    requires AnswersMergeBases(given.mergeBase) && AnswersMergeBases(again.mergeBase)
    ensures
      var end := MergeCommand(w, names, given, lives).world;
      && Ready(end, names)
      && MergeCommand(end, names, again, more).world == end
      && (more >= ENOUGH ==> MergeCommand(end, names, again, more).ended == Merged(false))
  {
    EnoughIsEnough(w, names, given, lives);
    OneCommand(w, names, given, ENOUGH);
    RebasedHome(w, names, given);
    MergesExactly(w, names, given);
    var end := MergeCommand(w, names, given, lives).world;
    assert NothingLeft(end.home);
    hide Merge, Behind, Addable, Settled, OnlyForwarded, AnswersMergeBases;
    LevelRunsToNothing(end, names, again, more);
  }

  // A stopped rebase carried on.

  /** A merge that carries a stopped rebase on and, undisturbed, ends merged. */
  ghost predicate Resumes(w: World, names: Names, given: Given) {
    && Able(w, names) && w.home.rebase.Some? && AnswersMergeBases(given.mergeBase)
    && MergeCommand(w, names, given, ENOUGH).ended.Merged?
  }

  function Resumed(w: World, given: Given): Repo
    requires Valid(w.home)
  {
    Resume(w.home, given.replay).repo
  }

  lemma ResumedRuns(w: World, names: Names, given: Given, lives: nat)
    requires Resumes(w, names, given)
    ensures
      var (back, end) := (Resumed(w, given), MergeCommand(w, names, given, ENOUGH).world);
      && Ready(w.(home := back), names) && back == end.home && back.index == HeadCommit(back).tree
      && IsAncestor(Onto(w, names), HeadCommit(back))
      && EndsMerged(w, names, MergeCommand(w, names, given, ENOUGH))
      && var ran := MergeCommand(w, names, given, lives);
      && (lives == 0 ==> ran.world == w)
      && (lives == 1 ==> ran.world == w.(home := back))
      && (lives >= 2 ==> ran.world == end)
      && (lives >= 3 ==> ran.ended.Merged?)
  {
    OneCommand(w, names, given, ENOUGH);
    RebaseEnds(w.home, Onto(w, names), given.replay);
    hide Resume, FastForward, Behind, LocallyChanged, OnlyForwarded;
  }

  /** Beside the files of a stopped rebase stands none that could be added, unless the commit has a
      file there. */
  ghost predicate NothingBeside(r: Repo, tip: Commit) {
    forall p :: p in r.worktree && p !in r.index && p !in r.ignored ==> p in tip.tree
  }

  /** Where carrying the rebase on leaves the branch. */
  function ResumedTip(w: World, given: Given): Commit
    requires Valid(w.home) && given.replay.Finished?
  {
    Chain(HeadCommit(w.home), given.replay.picks)
  }

  lemma ResumedHome(w: World, names: Names, given: Given)
    requires Able(w, names) && w.home.rebase.Some? && MergeCommand(w, names, given, ENOUGH).ended.Merged?
    ensures given.replay.Finished?
    ensures
      var (back, tip) := (Resumed(w, given), ResumedTip(w, given));
      && Valid(back) && HeadCommit(back) == tip && back.index == tip.tree && back.premerge == w.home.premerge
      && OnBranch(back) && back == MergeCommand(w, names, given, ENOUGH).world.home
      && (Addable(back) == tip.tree <==> NothingBeside(w.home, tip))
  {
    OneCommand(w, names, given, ENOUGH);
    RebaseEnds(w.home, Onto(w, names), given.replay);
    ResumedFiles(w.home, given.replay);
    hide FastForward, Behind, OnlyForwarded, Addable, Chain, CheckedOut;
  }

  lemma ResumedFiles(r: Repo, replay: Replay)
    requires Valid(r) && r.rebase.Some? && replay.Finished?
    ensures
      var (back, tip) := (Resume(r, replay).repo, Chain(HeadCommit(r), replay.picks));
      Addable(back) == tip.tree <==> NothingBeside(r, tip)
  {
    hide Behind, Chain;
    var (back, tip) := (Resume(r, replay).repo, Chain(HeadCommit(r), replay.picks));
    assert forall p :: p in back.worktree <==> p in tip.tree || (p in r.worktree && p !in r.index);
    if NothingBeside(r, tip) {
      assert Addable(back) == tip.tree;
    } else {
      var p :| p in r.worktree && p !in r.index && p !in r.ignored && p !in tip.tree;
      assert p in Addable(back);
    }
  }

  /** After a stopped rebase was carried on to the end, one command more changes nothing exactly when
      the tip was on record and no file stood beside the rebase that could be added. */
  lemma ResumedTwiceExactly(w: World, names: Names, given: Given, lives: nat, again: Given, more: nat)
    requires Able(w, names) && w.home.rebase.Some? && MergeCommand(w, names, given, lives).ended.Merged?
    requires AnswersMergeBases(again.mergeBase) && more >= 3
    ensures given.replay.Finished?
    ensures
      var end := MergeCommand(w, names, given, lives).world;
      var same := w.home.premerge.Some? && NothingBeside(w.home, ResumedTip(w, given));
      && Ready(end, names)
      && (MergeCommand(end, names, again, more).world == end <==> same)
      && (same && more >= ENOUGH ==> MergeCommand(end, names, again, more).ended == Merged(false))
  {
    EnoughIsEnough(w, names, given, lives);
    OneCommand(w, names, given, ENOUGH);
    ResumedHome(w, names, given);
    var end := MergeCommand(w, names, given, lives).world;
    hide Merge, Integrate, Behind, Addable, OnlyForwarded, NothingBeside, Resumed, ResumedTip, AnswersMergeBases;
    if NothingLeft(end.home) {
      LevelRunsToNothing(end, names, again, more);
    } else {
      SomethingLeftIsTaken(end, names, again, more);
    }
  }
}
