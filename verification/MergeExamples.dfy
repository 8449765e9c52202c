/** Runs that show what the conditions of the merge's results are for: each is a small world, and what
    happens in it. */
module MergeExamples {
  import opened Wrappers
  import opened Trees
  import opened Commits
  import opened Repository
  import opened MergeRuns
  import opened MergeProofs
  import opened MergeCommands
  import opened MergeRepeated
  import opened MergeTakenBack
  import opened MergeSessions
  import opened MergeAgain
  import opened MergeGivenUp

  ghost function BestBase(a: Commit, b: Commit): (m: Option<Commit>)
    ensures m.Some? ==> IsMergeBase(m.value, a, b)
    ensures m.None? ==> forall c :: !IsMergeBase(c, a, b)
  {
    if c :| IsMergeBase(c, a, b) then Some(c) else None
  }

  const WRITTEN := Regular("one", false)
  const ROOT := Commit([], map[], "root")
  const MADE := Commit([ROOT], map["a" := WRITTEN], "done")
  const OTHER := Commit([ROOT], map["b" := WRITTEN], "other")
  const NAMES := Names("unit", "main")

  ghost function Plain(replay: Replay): Given {
    Given("done", BestBase, replay)
  }

  /** A unit with one file its branch does not have, and a checkout on the branch it merges into. */
  function OneFile(index: Tree, ignored: set<Path>, target: Commit): World {
    World(Repo(map["unit" := ROOT], On("unit"), index, map["a" := WRITTEN], ignored, {}, None, None),
          Repo(map["main" := target], On("main"), target.tree, target.tree, {}, {}, None, None))
  }

  /** New, or forced into the index over an ignore rule. */
  predicate CanBeAdded(index: Tree, ignored: set<Path>) {
    (index == map[] && ignored == {}) || (index == MADE.tree && ignored == {"a"})
  }

  lemma TheCommits()
    ensures IsAncestor(ROOT, ROOT) && IsAncestor(ROOT, MADE) && IsAncestor(ROOT, OTHER)
    ensures !IsAncestor(OTHER, MADE) && !IsAncestor(MADE, OTHER) && !IsAncestor(OTHER, ROOT) && !IsAncestor(MADE, ROOT)
    ensures "a" in MADE.tree && "a" !in ROOT.tree && "b" in OTHER.tree && "b" !in ROOT.tree
  {
    ItIsBehindItself(ROOT);
    OneOver(ROOT, MADE);
    OneOver(ROOT, OTHER);
    assert "a" in MADE.tree && "a" !in OTHER.tree && "a" !in ROOT.tree;
    assert "b" in OTHER.tree && "b" !in ROOT.tree;
  }

  lemma OneFileIsCommitted(index: Tree, ignored: set<Path>, target: Commit)
    requires CanBeAdded(index, ignored)
    ensures
      var home := OneFile(index, ignored, target).home;
      && OnBranch(home) && Addable(home) == MADE.tree
      && CommitAll(home, "done").repo == home.(branches := map["unit" := MADE], index := MADE.tree)
  {
    var home := OneFile(index, ignored, target).home;
    TheCommits();
    assert Addable(home) == MADE.tree;
    assert map["unit" := ROOT]["unit" := MADE] == map["unit" := MADE];
    hide Behind, Addable;
  }

  lemma OneFileIsRecorded(index: Tree, ignored: set<Path>, target: Commit, replay: Replay)
    requires CanBeAdded(index, ignored)
    ensures
      var (home, given) := (OneFile(index, ignored, target).home, Plain(replay));
      && OnBranch(home)
      && Recorded(home, given) == home.(branches := map["unit" := MADE], index := MADE.tree, premerge := Some(MADE))
      && OwnTip(home, given) == MADE
      && OnBranch(Recorded(home, given)) && HeadCommit(Recorded(home, given)) == MADE
      && Recorded(home, given).premerge == Some(MADE)
  {
    OneFileIsCommitted(index, ignored, target);
    FirstStagesAreSafe(OneFile(index, ignored, target).home, ROOT, Plain(replay));
    hide Behind, CommitAll, Addable;
  }

  /** The branch is one commit over the common root, and is not folded. */
  lemma OneFileIsFolded(index: Tree, ignored: set<Path>, target: Commit, replay: Replay)
    requires CanBeAdded(index, ignored) && (target == ROOT || target == OTHER)
    ensures
      var (home, given) := (OneFile(index, ignored, target).home, Plain(replay));
      && OnBranch(home) && AnswersMergeBases(given.mergeBase)
      && Squashed(Recorded(home, given), target, given) == Some(Recorded(home, given))
  {
    OneFileIsRecorded(index, ignored, target, replay);
    BaseIsRoot(target);
    OneOver(ROOT, MADE);
    hide Behind, Recorded, IsMergeBase, Addable, OneFile, MADE, ROOT, OTHER, Count;
    assert Count(ROOT, HeadCommit(Recorded(OneFile(index, ignored, target).home, Plain(replay)))) == 1;
  }

  lemma BaseIsRoot(target: Commit)
    requires target == ROOT || target == OTHER
    ensures BestBase(target, MADE) == Some(ROOT)
  {
    TheCommits();
    BestExistsOnOne(target, ROOT, MADE);
    var m := BestBase(target, MADE);
    assert m.Some?;
    OneOver(ROOT, MADE);
    if target == ROOT {
      MergeBaseOfAncestor(ROOT, MADE, m.value);
    } else {
      OneOver(ROOT, OTHER);
      hide Behind;
      assert m.value in Behind(MADE) && m.value in Behind(OTHER);
      OnlyRoot(m.value);
    }
  }

  /** Nothing but the root is behind the root. */
  lemma OnlyRoot(c: Commit)
    requires c in Behind(MADE) && c in Behind(OTHER)
    ensures c == ROOT
  {
    OneOver(ROOT, MADE);
    OneOver(ROOT, OTHER);
    TheCommits();
    assert c in Behind(ROOT) + {MADE} && c in Behind(ROOT) + {OTHER};
  }

  lemma OneFileForwards(index: Tree, ignored: set<Path>)
    ensures FastForward(OneFile(index, ignored, ROOT).checkout, "main", MADE).Moved?
    ensures FastForward(OneFile(index, ignored, ROOT).checkout, "main", MADE).repo.branches == map["main" := MADE]
  {
    TheCommits();
    assert map["main" := ROOT]["main" := MADE] == map["main" := MADE];
    assert MayKeep(OneFile(index, ignored, ROOT).checkout, MADE);
    hide Behind;
  }

  /** A branch on the target already, with nothing to fold, goes straight to the fast-forward. */
  lemma GoesToTheForward(w: World, given: Given)
    requires Ready(w, NAMES) && Onto(w, NAMES) == ROOT
    requires Squashed(Recorded(w.home, given), ROOT, given) == Some(Recorded(w.home, given))
    ensures OnBranch(Recorded(w.home, given)) && Recorded(w.home, given).head == On("unit")
    ensures
      var recorded := Recorded(w.home, given);
      IsAncestor(ROOT, HeadCommit(recorded)) ==>
        var answer := FastForward(w.checkout, "main", HeadCommit(recorded));
        && (answer.Moved? ==> Merge(w, NAMES, given, ENOUGH) == Ran(World(recorded, answer.repo), Merged(true)))
        && (answer.Already? ==> Merge(w, NAMES, given, ENOUGH) == Ran(World(recorded, w.checkout), Merged(false)))
  {
    FirstStagesAreSafe(w.home, ROOT, given);
    var recorded := Recorded(w.home, given);
    assert recorded == RecordPremerge(Committed(w.home, given));
    hide Behind, Squashed, CommitAll, FastForward, ROOT, Tidy, Addable, Recorded, Committed, RecordPremerge;
    if IsAncestor(ROOT, HeadCommit(recorded)) {
      assert Rebase(recorded, ROOT, given.replay) == Rebased(recorded, Done);
    }
  }

  lemma OneFileMerges(index: Tree, ignored: set<Path>, replay: Replay)
    requires CanBeAdded(index, ignored)
    ensures
      var (w, given) := (OneFile(index, ignored, ROOT), Plain(replay));
      && Ready(w, NAMES)
      && EndsUndisturbed(w, NAMES, given)
      && Merge(w, NAMES, given, ENOUGH).ended == Merged(true)
      && Merge(w, NAMES, given, ENOUGH).world.home.premerge == Some(MADE)
      && Merge(w, NAMES, given, ENOUGH).world.checkout.branches == map["main" := MADE]
  {
    hide *;
    var (w, given) := (OneFile(index, ignored, ROOT), Plain(replay));
    TheCommits();
    OneFileIsReady(index, ignored, ROOT);
    OneFileIsRecorded(index, ignored, ROOT, replay);
    OneFileIsFolded(index, ignored, ROOT, replay);
    OneFileForwards(index, ignored);
    GoesToTheForward(w, given);
    MergedIs(w, given);
  }

  lemma OneFileIsReady(index: Tree, ignored: set<Path>, target: Commit)
    ensures
      var w := OneFile(index, ignored, target);
      && Ready(w, NAMES) && Onto(w, NAMES) == target && NAMES.target == "main" && NAMES.unit == "unit"
      && w.checkout.branches == map["main" := target] && w.home.premerge.None? && HeadCommit(w.home) == ROOT
  {
  }

  lemma MergedIs(w: World, given: Given)
    requires Ready(w, NAMES) && AnswersMergeBases(given.mergeBase) && Merge(w, NAMES, given, ENOUGH).ended == Merged(true)
    ensures EndsUndisturbed(w, NAMES, given)
  {
    hide Merge;
  }

  // A record left by an earlier merge.

  /** One file merged, another written, and the second merge killed after its squash and undone: the work
      is in neither the files nor the record. */
  lemma SecondMergeLosesItsWork(work: Tree)
    requires work == map["b" := WRITTEN]
    ensures EndsUndisturbed(OneFile(map[], {}, ROOT), NAMES, Plain(CannotRun))
    ensures
      var given := Plain(CannotRun);
      var end := Merge(OneFile(map[], {}, ROOT), NAMES, given, ENOUGH).world;
      var later := end.(home := end.home.(worktree := work));
      && Ready(later, NAMES) && Merge(later, NAMES, given, 4).ended == Killed
      && var x := Merge(later, NAMES, given, 4).world;
      && Valid(x.home) && Valid(x.checkout)
      && var back := TakeBack(x, NAMES, Begun(false, HeadCommit(later.home), Onto(later, NAMES), 3));
      && !(back.Some? && back.value.home.worktree == work)
      && !(back.Some? && AsItWas(back.value.home, later.home))
  {
    OneFileMerges(map[], {}, CannotRun);
    SecondMergeTakenBack(OneFile(map[], {}, ROOT), NAMES, Plain(CannotRun), work, Plain(CannotRun), false);
    var later := Merge(OneFile(map[], {}, ROOT), NAMES, Plain(CannotRun), ENOUGH).world;
    later := later.(home := later.home.(worktree := work));
    assert "a" in MADE.tree && "a" !in Addable(later.home);
    assert Reached(false, 4, false) == 3;
    hide Merge, TakeBack, Behind;
  }

  // A file forced into the index.

  /** A home where nothing can be added, at the target: a merge ends at once. */
  lemma NothingMerges(w: World, given: Given)
    requires Ready(w, NAMES) && AnswersMergeBases(given.mergeBase)
    requires Addable(w.home) == HeadCommit(w.home).tree && Onto(w, NAMES) == HeadCommit(w.home) == ROOT
    ensures Merge(w, NAMES, given, ENOUGH).ended == Merged(false)
    ensures Merge(w, NAMES, given, ENOUGH).world.checkout == w.checkout
  {
    CommittingSettles(w.home, given);
    FirstStagesAreSafe(w.home, ROOT, given);
    var recorded := Recorded(w.home, given);
    assert HeadCommit(recorded) == ROOT;
    ItIsBehindItself(ROOT);
    assert Behind(ROOT) - Behind(ROOT) == {};
    hide Behind, Addable, Squashed, CommitAll, AnswersMergeBases, Recorded, Merge;
    SquashOverTheTarget(recorded, ROOT, given);
    GoesToTheForward(w, given);
  }

  /** A file forced into the index over an ignore rule is merged, unless the merge is killed in between:
      the undo unstages it, and the rerun answers that there was nothing to merge. */
  lemma ForcedFileIsNotMerged()
    ensures
      var (w, given) := (OneFile(MADE.tree, {"a"}, ROOT), Plain(CannotRun));
      && Ready(w, NAMES) && AnswersMergeBases(given.mergeBase)
      && Merge(w, NAMES, given, ENOUGH).ended == Merged(true)
      && Merge(w, NAMES, given, ENOUGH).world.checkout.branches == map["main" := MADE]
      && Merge(w, NAMES, given, 3).ended == Killed
      && var cut := Merge(w, NAMES, given, 3).world;
      && Valid(cut.home) && Valid(cut.checkout)
      && var back := TakeBack(cut, NAMES, Journalled(w, NAMES, 2));
      && back.Some? && Ready(back.value, NAMES)
      && Merge(back.value, NAMES, given, ENOUGH).ended == Merged(false)
      && Merge(back.value, NAMES, given, ENOUGH).world.checkout.branches == map["main" := ROOT]
  {
    hide *;
    var (w, given) := (OneFile(MADE.tree, {"a"}, ROOT), Plain(CannotRun));
    ItCanBeAdded();
    OneFileMerges(MADE.tree, {"a"}, CannotRun);
    OneFileIsFolded(MADE.tree, {"a"}, ROOT, CannotRun);
    OneFileIsReady(MADE.tree, {"a"}, ROOT);
    KilledEarly(w, NAMES, given);
    ForcedIsUnstaged(w, given);
    var back := TakeBack(Merge(w, NAMES, given, 3).world, NAMES, Journalled(w, NAMES, 2)).value;
    UnstagedIsNothing(w.home, back.home);
    NothingMerges(back, given);
  }

  lemma ItCanBeAdded()
    ensures CanBeAdded(MADE.tree, {"a"})
  {
  }

  lemma ForcedIsUnstaged(w: World, given: Given)
    requires Ready(w, NAMES) && AnswersMergeBases(given.mergeBase) && Merge(w, NAMES, given, 3).ended.Killed?
    ensures
      var cut := Merge(w, NAMES, given, 3).world;
      && Valid(cut.home) && Valid(cut.checkout)
      && var back := TakeBack(cut, NAMES, Journalled(w, NAMES, 2));
      && back.Some? && Ready(back.value, NAMES) && Onto(back.value, NAMES) == Onto(w, NAMES)
      && back.value.home == w.home.(index := HeadCommit(w.home).tree, premerge := None)
      && back.value.checkout.branches == w.checkout.branches
  {
    assert Reached(false, 3, false) == 2;
    KilledRun(w, NAMES, given, 3, false);
    hide Merge, TakeBack, CutAt, Behind, AnswersMergeBases, RunsAlike, Harmless, Unstaged, FilesSurvive, Addable;
    var b := Journalled(w, NAMES, 2);
    KilledOnceExactly(w, NAMES, given, 3, false);
    HomeIsTakenBackExactly(w, NAMES, given, 3, b);
    TakenBackHomes(Merge(w, NAMES, given, 3).world, NAMES, b);
  }

  lemma TakenBackHomes(w: World, names: Names, b: Begun)
    requires Valid(w.home) && Valid(w.checkout) && TakeBack(w, names, b).Some?
    ensures TakeBackHome(w.home, b) == Some(TakeBack(w, names, b).value.home)
  {
    hide TakeBackHome, Restore;
  }

  lemma UnstagedIsNothing(home: Repo, back: Repo)
    requires home == OneFile(MADE.tree, {"a"}, ROOT).home
    requires back == home.(index := ROOT.tree, premerge := None)
    ensures Valid(back) && Addable(back) == ROOT.tree && HeadCommit(back) == ROOT
  {
  }

  // A merge given up.

  lemma DivergedStops(replay: Replay)
    requires replay == Conflicts([], map[], map[])
    ensures
      var (w, given) := (OneFile(map[], {}, OTHER), Plain(replay));
      && Ready(w, NAMES) && AnswersMergeBases(given.mergeBase)
      && Merge(w, NAMES, given, ENOUGH).ended == InConflict
      && Merge(w, NAMES, given, ENOUGH).world.home.rebase.Some?
  {
    hide *;
    var (w, given) := (OneFile(map[], {}, OTHER), Plain(replay));
    TheCommits();
    NewCanBeAdded();
    OneFileIsReady(map[], {}, OTHER);
    OneFileIsRecorded(map[], {}, OTHER, replay);
    OneFileIsFolded(map[], {}, OTHER, replay);
    SquashLeaves(w.home, Recorded(w.home, given), OTHER, given);
    ItIsTidy(Recorded(w.home, given), w.home, Recorded(w.home, given).premerge.value);
    PlainReplay(replay);
    StopsAtTheRebase(w, given);
  }

  lemma PlainReplay(replay: Replay)
    ensures Plain(replay).replay == replay
  {
  }

  lemma NewCanBeAdded()
    ensures CanBeAdded(map[], {})
  {
  }

  lemma ItIsTidy(r: Repo, home: Repo, record: Commit)
    requires OnBranch(home) && LeftFrom(r, home, record)
    ensures OnBranch(r) && Tidy(r)
  {
  }

  lemma StopsAtTheRebase(w: World, given: Given)
    requires Ready(w, NAMES) && given.replay.Conflicts? && Onto(w, NAMES) == OTHER
    requires OnBranch(Recorded(w.home, given)) && Tidy(Recorded(w.home, given))
    requires Squashed(Recorded(w.home, given), OTHER, given) == Some(Recorded(w.home, given))
    requires !IsAncestor(OTHER, HeadCommit(Recorded(w.home, given)))
    ensures Merge(w, NAMES, given, ENOUGH).ended == InConflict
    ensures Merge(w, NAMES, given, ENOUGH).world.home.rebase.Some?
  {
    var recorded := Recorded(w.home, given);
    assert recorded == RecordPremerge(Committed(w.home, given));
    hide Behind, Squashed, CommitAll, FastForward, OTHER, Tidy, Addable, Recorded, Committed, RecordPremerge, Chain;
    assert Rebase(recorded, OTHER, given.replay).outcome == Conflict;
  }

  /** One new file, a merge that stops in a conflict, and an abort: the branch is at the commit the merge
      made, and not where the merge found it. */
  lemma AbortLeavesTheCommit(replay: Replay)
    requires replay == Conflicts([], map[], map[])
    ensures
      var (w, given) := (OneFile(map[], {}, OTHER), Plain(replay));
      && Ready(w, NAMES) && Merge(w, NAMES, given, ENOUGH).ended == InConflict
      && var x := Merge(w, NAMES, given, ENOUGH).world.home;
      && Valid(x)
      && var back := AbortCommand(x, "unit");
      && back.Some? && w.home.branches["unit"] == ROOT
      && "unit" in back.value.branches && back.value.branches["unit"] == MADE
  {
    var (w, given) := (OneFile(map[], {}, OTHER), Plain(replay));
    DivergedStops(replay);
    OneFileIsRecorded(map[], {}, OTHER, replay);
    OneCommand(w, NAMES, given, ENOUGH);
    FreshRecordIsOwn(w.home, given);
    var first := Session(Merge(w, NAMES, given, ENOUGH).world, None);
    hide Merge, Recorded, Behind, AnswersMergeBases, OnlyForwarded, RecordOf, AbortCommand, OwnTip, Addable;
    assert StaysStopped(first, NAMES, []);
    GivenUpExactly(w, NAMES, given, ENOUGH, []);
    assert After(first, NAMES, []) == first;
  }

  // A file beside a stopped rebase.

  /** A rebase stopped with nothing left to pick, and a new file beside it. */
  function OneBeside(): World {
    World(Repo(map["unit" := ROOT], Detached(ROOT), map[], map["a" := WRITTEN], {}, {},
               Some(Stopped(On("unit"), ROOT)), Some(ROOT)),
          OneFile(map[], {}, ROOT).checkout)
  }

  /** Carried on it merges; begun anew after a kill in between, the stages commit the file. */
  lemma FileBesideIsCommitted()
    ensures
      var (w, given) := (OneBeside(), Plain(Finished([])));
      && Resumes(w, NAMES, given) && !LeavesNothing(w, NAMES, given)
      && exists cuts, lives :: lives >= ENOUGH && !EndsAlike(w, NAMES, given, cuts, lives)
  {
    var (w, given) := (OneBeside(), Plain(Finished([])));
    TheCommits();
    assert Chain(ROOT, []) == ROOT;
    assert map["unit" := ROOT]["unit" := ROOT] == map["unit" := ROOT];
    assert !NothingBeside(w.home, ROOT);
    hide Behind, CheckedOut;
    assert Resumes(w, NAMES, given);
    ResumedStagesRepeatExactly(w, NAMES, given);
  }

  // A target moved by somebody else.

  /** A merge killed when it was about to forward the target, and the target moved meanwhile: the undo
      puts it back where the merge had found it, and the other commit is on it no more. */
  lemma UndoRewindsTheTarget(checkout: Repo)
    requires checkout == OneFile(map[], {}, OTHER).checkout
    ensures
      var (w, given) := (OneFile(map[], {}, ROOT), Plain(CannotRun));
      var s := After(Session(w, None), NAMES, [Command(given, 5, true), Outside(checkout)]);
      && Sound(s, NAMES) && Onto(s.world, NAMES) == OTHER
      && Able(Started(s, NAMES), NAMES) && Onto(Started(s, NAMES), NAMES) == ROOT
      && !IsAncestor(OTHER, ROOT)
  {
    var (w, given) := (OneFile(map[], {}, ROOT), Plain(CannotRun));
    TheCommits();
    OneFileMerges(map[], {}, CannotRun);
    KilledAtFive(w, given);
    MovedIsRestored(checkout);
    hide Merge, Behind, After, Started, Restore, Able, Sound;
    RewoundAfterwards(w, given, checkout);
  }

  /** Any merge killed there, and any checkout that can be put back. */
  lemma RewoundAfterwards(w: World, given: Given, checkout: Repo)
    requires Ready(w, NAMES) && Merge(w, NAMES, given, 5).ended.Killed?
    requires Valid(checkout) && "main" in checkout.branches && Restore(checkout, "main", Onto(w, NAMES)).Some?
    ensures
      var s := After(Session(w, None), NAMES, [Command(given, 5, true), Outside(checkout)]);
      && Sound(s, NAMES) && s.world.checkout == checkout
      && Able(Started(s, NAMES), NAMES) && Onto(Started(s, NAMES), NAMES) == Onto(w, NAMES)
  {
    hide Merge, Behind, Resolve, Restore;
    var s0 := Session(w, None);
    var (e1, e2) := (Command(given, 5, true), Outside(checkout));
    NextIsSound(s0, NAMES, e1);
    var s1 := Next(s0, NAMES, e1);
    assert s1.open == Some(Journalled(w, NAMES, 5));
    NextIsSound(s1, NAMES, e2);
    var s := Next(s1, NAMES, e2);
    assert [e1, e2][1..] == [e2] && [e2][1..] == [];
    assert After(s0, NAMES, [e1, e2]) == After(s1, NAMES, [e2]) == After(s, NAMES, []) == s;
    ResolvedIsAble(s.world, NAMES, s.open.value);
  }

  lemma MovedIsRestored(checkout: Repo)
    requires checkout == OneFile(map[], {}, OTHER).checkout
    ensures Valid(checkout) && Restore(checkout, "main", ROOT).Some?
  {
    TheCommits();
    assert MayKeep(checkout, ROOT);
    hide Behind;
  }

  lemma KilledAtFive(w: World, given: Given)
    requires Ready(w, NAMES) && Merge(w, NAMES, given, ENOUGH).ended.Merged?
    ensures Merge(w, NAMES, given, 5).ended.Killed?
  {
    hide Rebase, FastForward, Behind, CommitAll, Squashed, RecordPremerge;
  }
}
