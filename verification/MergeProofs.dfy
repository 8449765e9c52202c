/** From everything a killed merge may leave, one more run stays on the way of an undisturbed one
    or ends where it ends; and over a merge that ended it moves nothing. The results are drawn
    from this for whole sequences of runs. */
module MergeProofs {
  import opened Wrappers
  import opened Commits
  import opened Repository
  import opened MergeStages
  import opened MergeRuns

  /** Nothing left to commit: index, `HEAD` and every file that could be added are one tree. */
  ghost predicate Settled(r: Repo) {
    OnBranch(r) && r.index == HeadCommit(r).tree && Addable(r) == r.index
  }

  ghost predicate OnBranch(r: Repo) {
    Valid(r) && r.rebase.None? && r.head.On?
  }

  lemma SettledCommitsNothing(r: Repo, given: Given)
    requires Settled(r)
    ensures Added(r) == r && Committed(r, given) == r
  {
  }

  lemma CommittingSettles(r: Repo, given: Given)
    requires OnBranch(r)
    ensures Settled(Committed(r, given))
    ensures Committed(r, given).head == r.head && Committed(r, given).premerge == r.premerge
    ensures Committed(Added(r), given) == Committed(r, given)
    ensures Added(Added(r)) == Added(r)
  {
    AddingTwice(r, Added(r));
    AddingTwice(r, Committed(r, given));
  }

  // The branch after the squash.

  /** Folded as far as a merge folds: at most one commit over what Git answers as merge base. */
  ghost predicate Folded(r: Repo, onto: Commit, given: Given) {
    Settled(r) && r.premerge.Some? && Squashed(r, onto, given) == Some(r)
  }

  lemma BestExistsOnOne(onto: Commit, base: Commit, folded: Commit)
    requires folded.parents == [base] && IsAncestor(base, onto)
    ensures IsMergeBase(if IsAncestor(folded, onto) then folded else base, onto, folded)
  {
    OneOver(base, folded);
    BehindGrows(base, onto);
    if IsAncestor(folded, onto) {
      MergeBaseOfAncestor(folded, onto, folded);
    } else {
      assert Behind(onto) * Behind(folded) == Behind(base);
      Highest(base);
    }
  }

  lemma Highest(base: Commit)
    ensures forall c :: c in Behind(base) && base in Behind(c) ==> c == base
  {
    forall c | c in Behind(base) && base in Behind(c)
      ensures c == base
    {
      BehindIsAntisymmetric(c, base);
    }
  }

  lemma SquashingFolds(r: Repo, onto: Commit, given: Given)
    requires Settled(r) && r.premerge.Some? && AnswersMergeBases(given.mergeBase)
    requires Squashed(r, onto, given).Some?
    ensures Folded(Squashed(r, onto, given).value, onto, given)
    ensures HeadCommit(Squashed(r, onto, given).value).tree == HeadCommit(r).tree
    ensures Squashed(r, onto, given).value.worktree == r.worktree
    ensures Squashed(r, onto, given).value.head == r.head
    ensures Squashed(r, onto, given).value.premerge == r.premerge
  {
    var tip := HeadCommit(r);
    var base := given.mergeBase(onto, tip).value;
    hide Behind, Count, IsMergeBase;
    var squashed := Squashed(r, onto, given).value;
    assert IsMergeBase(base, onto, tip);
    if Count(base, tip) >= 2 {
      SquashFoldsToOne(r, onto, base, given.message);
      var folded := HeadCommit(squashed);
      BehindBoth(base, onto, tip);
      BestExistsOnOne(onto, base, folded);
      var later := given.mergeBase(onto, folded);
      assert later.Some? && IsMergeBase(later.value, onto, folded);
      SquashedStaysSquashed(r, onto, base, given.message, later.value, given.message);
      AddingTwice(r, squashed);
    }
  }

  // Cuts of a run.

  ghost predicate Fresh(w: World, names: Names, given: Given) {
    Ready(w, names) && AnswersMergeBases(given.mergeBase)
  }

  function Recorded(home: Repo, given: Given): Repo
    requires OnBranch(home)
  {
    CommittingSettles(home, given);
    RecordPremerge(Committed(home, given))
  }

  /** A home some stage before the squash left. */
  ghost predicate BeforeTheSquash(home: Repo, x: Repo, given: Given)
    requires OnBranch(home)
  {
    x == home || x == Added(home) || x == Committed(home, given) || x == Recorded(home, given)
  }

  /** Starting over from any of them leads through the same states to the same record. */
  lemma StartingOver(home: Repo, x: Repo, given: Given)
    requires OnBranch(home) && BeforeTheSquash(home, x, given)
    ensures OnBranch(x) && x.head == home.head
    ensures BeforeTheSquash(home, Added(x), given)
    ensures BeforeTheSquash(home, Committed(x, given), given)
    ensures Recorded(x, given) == Recorded(home, given)
    ensures Settled(Recorded(home, given)) && Recorded(home, given).premerge.Some?
  {
    CommittingSettles(home, given);
    SettledCommitsNothing(Committed(home, given), given);
    SettledCommitsNothing(Recorded(home, given), given);
  }

  /** The home a run cut after so many writes has left. */
  lemma HomeOfRun(w: World, names: Names, given: Given, lives: nat)
    requires Ready(w, names)
    ensures
      var x := Merge(w, names, given, lives).world.home;
      var front := Squashed(Recorded(w.home, given), Onto(w, names), given);
      if lives == 0 then x == w.home
      else if lives == 1 then x == Added(w.home)
      else if lives == 2 then x == Committed(w.home, given)
      else if lives == 3 || front.None? then x == Recorded(w.home, given)
      else if lives == 4 then x == front.value
      else Valid(front.value) && x == Rebase(front.value, Onto(w, names), given.replay).repo
  {
    hide CommitAll, Rebase, FastForward, Behind, Count;
    CommittingSettles(w.home, given);
  }

  // The rebase.

  lemma FoldedIsOneOver(r: Repo, onto: Commit, given: Given)
    requires Folded(r, onto, given) && AnswersMergeBases(given.mergeBase)
    ensures Count(onto, HeadCommit(r)) <= 1
  {
    var tip := HeadCommit(r);
    var base := given.mergeBase(onto, tip).value;
    assert IsMergeBase(base, onto, tip);
    OneOver(base, Commit([base], tip.tree, given.message));
    BehindGrows(base, onto);
    Smaller(Behind(tip) - Behind(onto), Behind(tip) - Behind(base));
  }

  lemma {:induction false} Smaller<T>(a: set<T>, b: set<T>)
    requires a <= b
    ensures |a| <= |b|
  {
    if a != {} {
      var x :| x in a;
      Smaller(a - {x}, b - {x});
    }
  }

  lemma CheckingOutSettles(r: Repo, tip: Commit)
    requires Settled(r)
    requires Valid(Rebasing(r, tip))
    ensures Settled(Rebasing(r, tip))
  {
  }

  function Rebasing(r: Repo, tip: Commit): Repo {
    HeadAt(r, tip).(index := tip.tree, worktree := CheckedOut(r.worktree, r.index.Keys, tip.tree))
  }

  lemma OneOverFoldsNothing(r: Repo, onto: Commit, given: Given)
    requires Settled(r) && r.premerge.Some? && AnswersMergeBases(given.mergeBase)
    requires IsAncestor(onto, HeadCommit(r)) && Count(onto, HeadCommit(r)) <= 1
    ensures Folded(r, onto, given)
  {
    MergeBaseOfAncestor(onto, HeadCommit(r), onto);
    var m := given.mergeBase(onto, HeadCommit(r));
    assert m.Some?;
    MergeBaseOfAncestor(onto, HeadCommit(r), m.value);
  }

  /** Whether the rebase puts one commit on the target at most: the branch is on it already, or Git
      replays no more. */
  predicate ReplaysOneAtMost(r: Repo, onto: Commit, replay: Replay)
    requires Valid(r)
  {
    IsAncestor(onto, HeadCommit(r)) || (replay.Finished? && |replay.picks| <= 1)
  }

  /** After the rebase nothing is left to add, and nothing to fold exactly when it put one commit
      on the target at most. */
  lemma RebasedIsFoldedExactly(r: Repo, onto: Commit, given: Given)
    requires Folded(r, onto, given) && AnswersMergeBases(given.mergeBase)
    requires Rebase(r, onto, given.replay).outcome == Done
    ensures
      var rebased := Rebase(r, onto, given.replay).repo;
      && Settled(rebased) && IsAncestor(onto, HeadCommit(rebased))
      && rebased.head == r.head && rebased.premerge == r.premerge
      && (Folded(rebased, onto, given) <==> ReplaysOneAtMost(r, onto, given.replay))
      && (Count(onto, HeadCommit(rebased)) <= 1 <==> ReplaysOneAtMost(r, onto, given.replay))
  {
    hide Behind, Count, IsMergeBase, AnswersMergeBases, Chain, Squashed;
    FoldedIsOneOver(r, onto, given);
    RebaseEnds(r, onto, given.replay);
    if !IsAncestor(onto, HeadCommit(r)) {
      var tip := Chain(onto, given.replay.picks);
      ChainIsOn(onto, given.replay.picks);
      CheckingOutSettles(r, tip);
      assert Rebase(r, onto, given.replay).repo == Rebasing(r, tip);
      if |given.replay.picks| <= 1 {
        OneOverFoldsNothing(Rebasing(r, tip), onto, given);
      } else if Folded(Rebasing(r, tip), onto, given) {
        FoldedIsOneOver(Rebasing(r, tip), onto, given);
      }
    }
  }

  // Whole runs.

  /** A merge that, undisturbed, ends merged. */
  ghost predicate EndsUndisturbed(w: World, names: Names, given: Given) {
    && Ready(w, names) && AnswersMergeBases(given.mergeBase)
    && Merge(w, names, given, ENOUGH).ended.Merged?
  }

  /** And whose rebase leaves nothing for the first stages to do again. */
  ghost predicate Merges(w: World, names: Names, given: Given) {
    EndsUndisturbed(w, names, given) && Folded(Back(w, names, given), Onto(w, names), given)
  }

  /** It leaves nothing exactly when it puts one commit on the target at most. */
  lemma MergesExactly(w: World, names: Names, given: Given)
    requires EndsUndisturbed(w, names, given)
    ensures Valid(Front(w, names, given)) && Settled(Back(w, names, given))
    ensures Merges(w, names, given) <==> ReplaysOneAtMost(Front(w, names, given), Onto(w, names), given.replay)
    ensures Count(Onto(w, names), HeadCommit(Back(w, names, given))) <= 1
      <==> ReplaysOneAtMost(Front(w, names, given), Onto(w, names), given.replay)
  {
    var onto := Onto(w, names);
    StartingOver(w.home, w.home, given);
    var recorded := Recorded(w.home, given);
    assert recorded == RecordPremerge(Committed(w.home, given));
    hide Behind, Count, IsMergeBase, AnswersMergeBases, Folded, Settled, CommitAll;
    SquashingFolds(recorded, onto, given);
    RebasedIsFoldedExactly(Front(w, names, given), onto, given);
  }

  /** Writes enough for a run to finish. */
  const ENOUGH: nat := 7

  /** The home when the rebase begins. */
  function Front(w: World, names: Names, given: Given): Repo
    requires Ready(w, names) && Merge(w, names, given, ENOUGH).ended.Merged?
  {
    Squashed(RecordPremerge(Committed(w.home, given)), Onto(w, names), given).value
  }

  function Back(w: World, names: Names, given: Given): Repo
    requires Ready(w, names) && Merge(w, names, given, ENOUGH).ended.Merged?
  {
    Rebase(Front(w, names, given), Onto(w, names), given.replay).repo
  }

  lemma FrontAndBack(w: World, names: Names, given: Given)
    requires Merges(w, names, given)
    ensures
      var (front, back, onto) := (Front(w, names, given), Back(w, names, given), Onto(w, names));
      && Folded(front, onto, given) && Folded(back, onto, given)
      && Rebase(front, onto, given.replay) == Rebased(back, Done)
      && Rebase(back, onto, given.replay) == Rebased(back, Done)
      && front.head == w.home.head && back.head == w.home.head
      && IsAncestor(onto, HeadCommit(back)) && Count(onto, HeadCommit(back)) <= 1
      && back.premerge == Recorded(w.home, given).premerge
      && Front(w, names, given) == Squashed(Recorded(w.home, given), onto, given).value
  {
    hide Behind, Count, IsMergeBase, AnswersMergeBases, Addable;
    var onto := Onto(w, names);
    StartingOver(w.home, w.home, given);
    var recorded := Recorded(w.home, given);
    assert recorded == RecordPremerge(Committed(w.home, given));
    hide Folded, Settled, CommitAll;
    SquashingFolds(recorded, onto, given);
    RebaseEnds(Front(w, names, given), onto, given.replay);
    FoldedIsOneOver(Back(w, names, given), onto, given);
    RebasedStaysRebased(Front(w, names, given), onto, given.replay);
  }

  function Last(w: World, names: Names, given: Given): World
    requires Ready(w, names) && Merge(w, names, given, ENOUGH).ended.Merged?
  {
    Merge(w, names, given, ENOUGH).world
  }

  /** Everything a killed run, or a run after it, may leave. */
  ghost predicate Along(w: World, names: Names, given: Given, x: World)
    requires Merges(w, names, given)
  {
    || x == Last(w, names, given)
    || (x.checkout == w.checkout
        && (|| BeforeTheSquash(w.home, x.home, given)
            || x.home == Front(w, names, given)
            || x.home == Back(w, names, given)))
  }

  lemma LastIsIntegrated(w: World, names: Names, given: Given)
    requires Merges(w, names, given)
    ensures Valid(Front(w, names, given))
    ensures
      var ran := Integrate(w.(home := Front(w, names, given)), names, Onto(w, names), given.replay, 3);
      ran.ended.Merged? && ran.world == Last(w, names, given)
  {
    hide FastForward, Rebase, Squash, CommitAll, Behind, IsMergeBase, Count, AnswersMergeBases;
    FrontAndBack(w, names, given);
  }

  /** What the last two stages make of the home before the rebase, or after it. */
  lemma IntegratingFromEither(w: World, names: Names, given: Given, x: World, lives: nat)
    requires Merges(w, names, given)
    requires x.checkout == w.checkout
    requires x.home == Front(w, names, given) || x.home == Back(w, names, given)
    ensures Valid(x.home) && Valid(x.checkout)
    ensures
      var ran := Integrate(x, names, Onto(w, names), given.replay, lives);
      && Along(w, names, given, ran.world)
      && (lives >= 3 ==> EndsAt(w, names, given, ran))
  {
    hide FastForward, Rebase, Squash, CommitAll, Behind, IsMergeBase, Count, AnswersMergeBases, Addable;
    FrontAndBack(w, names, given);
    LastIsIntegrated(w, names, given);
    hide Merge, Merges, Front, Back, Last, Onto, Ready, Valid, HeadCommit, BeforeTheSquash, Folded, Settled;
  }

  /** A run over a home that has nothing left for the first stages goes straight to the last two. */
  lemma FoldedRunsOn(x: World, names: Names, given: Given, lives: nat)
    requires Ready(x, names) && Folded(x.home, Onto(x, names), given)
    ensures
      var ran := Merge(x, names, given, lives);
      if lives <= 4 then ran.world == x
      else ran == Integrate(x, names, Onto(x, names), given.replay, lives - 4)
  {
    SettledCommitsNothing(x.home, given);
    hide Settled, Squash, CommitAll, Behind, IsMergeBase, Count, Addable;
  }

  /** One more run from anywhere a killed run left: along the way again, or at the end. */
  lemma OneMoreRun(w: World, names: Names, given: Given, x: World, lives: nat)
    requires Merges(w, names, given) && Along(w, names, given, x)
    ensures Ready(x, names)
    ensures
      var ran := Merge(x, names, given, lives);
      && Along(w, names, given, ran.world)
      && (lives >= ENOUGH ==> EndsAt(w, names, given, ran))
  {
    FrontAndBack(w, names, given);
    if x == Last(w, names, given) {
      LastRunsToNothing(w, names, given, lives);
    } else if BeforeTheSquash(w.home, x.home, given) {
      FromBeforeTheSquash(w, names, given, x, lives);
    } else {
      FromTheFolded(w, names, given, x, lives);
    }
  }

  lemma EitherIsReady(w: World, names: Names, given: Given, x: World)
    requires Merges(w, names, given)
    requires x.checkout == w.checkout && (x.home == Front(w, names, given) || x.home == Back(w, names, given))
    ensures Ready(x, names) && Onto(x, names) == Onto(w, names) && Folded(x.home, Onto(w, names), given)
    ensures Along(w, names, given, x)
  {
    FrontAndBack(w, names, given);
    hide Merge, Front, Back, Squashed, Count, IsAncestor, Rebase;
  }

  lemma ReadyIsAble(w: World, names: Names)
    requires Ready(w, names)
    ensures Able(w, names) && Valid(w.home) && Valid(w.checkout) && names.target in w.checkout.branches
  {
  }

  lemma FromTheFolded(w: World, names: Names, given: Given, x: World, lives: nat)
    requires Merges(w, names, given)
    requires x.checkout == w.checkout && (x.home == Front(w, names, given) || x.home == Back(w, names, given))
    ensures Ready(x, names)
    ensures Along(w, names, given, Merge(x, names, given, lives).world)
    ensures lives >= ENOUGH ==> EndsAt(w, names, given, Merge(x, names, given, lives))
  {
    hide *;
    EnoughIsSeven();
    EitherIsReady(w, names, given, x);
    FoldedRunsOn(x, names, given, lives);
    ReadyIsAble(x, names);
    if lives > 4 {
      IntegratingFromEither(w, names, given, x, lives - 4);
      assert Merge(x, names, given, lives) == Integrate(x, names, Onto(x, names), given.replay, lives - 4);
    }
  }

  /** A run that ended merged, in the world an undisturbed one ends in. */
  ghost predicate EndsAt(w: World, names: Names, given: Given, ran: Ran)
    requires Merges(w, names, given)
  {
    ran.ended.Merged? && ran.world == Last(w, names, given)
  }

  lemma EnoughIsSeven()
    ensures ENOUGH == 7
  {
  }

  lemma MergesIs(w: World, names: Names, given: Given)
    requires Merges(w, names, given)
    ensures Ready(w, names) && Merge(w, names, given, ENOUGH).ended.Merged?
  {
  }

  /** A run from before the squash: short of it, or on to the last two stages. */
  lemma BeforeRunsOn(w: World, names: Names, given: Given, x: World, lives: nat)
    requires Merges(w, names, given)
    requires x.checkout == w.checkout && BeforeTheSquash(w.home, x.home, given)
    ensures Ready(x, names)
    ensures Valid(Front(w, names, given))
    ensures
      var ran := Merge(x, names, given, lives);
      if lives <= 4 then Along(w, names, given, ran.world)
      else ran == Integrate(w.(home := Front(w, names, given)), names, Onto(w, names), given.replay, lives - 4)
  {
    hide Merges, Front, Back, Last, Along, BeforeTheSquash, Settled, Folded, Integrate, Squashed, CommitAll, Added;
    hide AnswersMergeBases, Behind, RecordPremerge, Committed;
    BeforeStages(w, names, given, x);
  }

  /** The stages before the rebase, from any home one of them left. */
  lemma BeforeStages(w: World, names: Names, given: Given, x: World)
    requires Merges(w, names, given)
    requires x.checkout == w.checkout && BeforeTheSquash(w.home, x.home, given)
    ensures Ready(w, names) && Ready(x, names) && Valid(Front(w, names, given))
    ensures Onto(x, names) == Onto(w, names)
    ensures Valid(Committed(x.home, given)) && Valid(RecordPremerge(Committed(x.home, given)))
    ensures Squashed(RecordPremerge(Committed(x.home, given)), Onto(w, names), given) == Some(Front(w, names, given))
    ensures Along(w, names, given, x)
    ensures Along(w, names, given, x.(home := Added(x.home)))
    ensures Along(w, names, given, x.(home := Committed(x.home, given)))
    ensures Along(w, names, given, x.(home := RecordPremerge(Committed(x.home, given))))
    ensures Along(w, names, given, x.(home := Front(w, names, given)))
    ensures x.(home := Front(w, names, given)) == w.(home := Front(w, names, given))
  {
    FrontAndBack(w, names, given);
    StartingOver(w.home, x.home, given);
    assert RecordPremerge(Committed(x.home, given)) == Recorded(w.home, given);
    hide Merge, Back, Last, Settled, Folded, Squash, CommitAll, AnswersMergeBases, Behind;
  }

  lemma FromBeforeTheSquash(w: World, names: Names, given: Given, x: World, lives: nat)
    requires Merges(w, names, given)
    requires x.checkout == w.checkout && BeforeTheSquash(w.home, x.home, given)
    ensures Ready(x, names)
    ensures
      var ran := Merge(x, names, given, lives);
      && Along(w, names, given, ran.world)
      && (lives >= ENOUGH ==> EndsAt(w, names, given, ran))
  {
    hide *;
    EnoughIsSeven();
    MergesIs(w, names, given);
    ReadyIsAble(w, names);
    BeforeRunsOn(w, names, given, x, lives);
    if lives > 4 {
      IntegratingFromEither(w, names, given, w.(home := Front(w, names, given)), lives - 4);
      assert Merge(x, names, given, lives)
          == Integrate(w.(home := Front(w, names, given)), names, Onto(w, names), given.replay, lives - 4);
    }
  }

  /** The target is at the branch, so once more is nothing at all. */
  lemma LastRunsToNothing(w: World, names: Names, given: Given, lives: nat)
    requires Merges(w, names, given)
    ensures Ready(Last(w, names, given), names)
    ensures
      var ran := Merge(Last(w, names, given), names, given, lives);
      && ran.world == Last(w, names, given)
      && (lives >= ENOUGH ==> ran.ended == Merged(false))
  {
    var x := Last(w, names, given);
    LastIsLevel(w, names, given);
    OneOverFoldsNothing(x.home, HeadCommit(x.home), given);
    FoldedRunsOn(x, names, given, lives);
    hide Merges, Merge, Front, Back, Last, Count, Behind, Squash, CommitAll, IsMergeBase, AnswersMergeBases;
  }

  lemma LevelWithItself(c: Commit)
    ensures IsAncestor(c, c) && Count(c, c) == 0
  {
    assert Behind(c) - Behind(c) == {};
  }

  /** At the end the target stands at the branch. */
  lemma LastIsLevel(w: World, names: Names, given: Given)
    requires Merges(w, names, given)
    ensures
      var x := Last(w, names, given);
      && Ready(x, names) && x.home == Back(w, names, given)
      && Settled(x.home) && x.home.premerge.Some? && AnswersMergeBases(given.mergeBase)
      && Onto(x, names) == HeadCommit(x.home)
      && IsAncestor(HeadCommit(x.home), HeadCommit(x.home)) && Count(HeadCommit(x.home), HeadCommit(x.home)) == 0
  {
    hide Merge, Behind, Squash, CommitAll, IsMergeBase, Front, Rebase, Addable, MoveBranch, LocallyChanged;
    FrontAndBack(w, names, given);
    LastIsIntegrated(w, names, given);
    var tip := HeadCommit(Back(w, names, given));
    ForwardNeverRewrites(w.checkout, names.target, tip);
    LevelWithItself(tip);
  }
}
