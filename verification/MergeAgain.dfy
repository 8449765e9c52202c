/** A merge that was killed, undone by the next command and run again: when it ends exactly as it would
    have, undisturbed. */
module MergeAgain {
  import opened Wrappers
  import opened Trees
  import opened Commits
  import opened Repository
  import opened MergeStages
  import opened MergeRuns
  import opened MergeProofs
  import opened MergeCommands
  import opened MergeTakenBack
  import opened MergeSessions

  /** Of the files an ignore rule covers, those tracked in the index are those `HEAD` has. */
  ghost predicate StagedAsCommitted(r: Repo)
    requires Valid(r)
  {
    forall p :: p in r.worktree && p in r.ignored ==> (p in r.index <==> p in HeadCommit(r).tree)
  }

  /** Unstaging everything takes nothing from what can be added, exactly then. */
  lemma UnstagingKeepsExactly(r: Repo)
    requires Valid(r)
    ensures Addable(r.(index := HeadCommit(r).tree)) == Addable(r) <==> StagedAsCommitted(r)
  {
    var tree := HeadCommit(r).tree;
    if StagedAsCommitted(r) {
      assert forall p :: p in Addable(r.(index := tree)) <==> p in Addable(r);
    } else {
      var p :| p in r.worktree && p in r.ignored && (p in r.index) != (p in tree);
      assert (p in Addable(r)) != (p in Addable(r.(index := tree)));
    }
    hide Behind;
  }

  lemma StagingKeeps(r: Repo)
    requires Valid(r)
    ensures Addable(r.(index := Addable(r))) == Addable(r)
  {
    AddingTwice(r, r.(index := Addable(r)));
  }

  /** The tip a merge records when none is on record. */
  function OwnTip(home: Repo, given: Given): Commit
    requires OnBranch(home)
  {
    HeadCommit(Committed(home, given))
  }

  // Homes that differ in what is staged and on record.

  lemma SameRecordExactly(home: Repo, other: Repo, given: Given)
    requires OnBranch(home)
    requires other == home.(index := other.index, premerge := other.premerge, worktree := other.worktree)
    requires other.worktree == home.worktree
    ensures OnBranch(other) && HeadCommit(other) == HeadCommit(home)
    ensures Recorded(other, given) == Recorded(home, given) <==>
      && Addable(other) == Addable(home)
      && other.premerge.GetOr(OwnTip(home, given)) == home.premerge.GetOr(OwnTip(home, given))
  {
    hide Behind, Addable;
    CommittingSettles(home, given);
    CommittingSettles(other, given);
    FreshRecordIsOwn(home, given);
    FreshRecordIsOwn(other, given);
    FirstStagesAreSafe(home, HeadCommit(home), given);
    FirstStagesAreSafe(other, HeadCommit(other), given);
    if Addable(other) == Addable(home) {
      assert OwnTip(other, given) == OwnTip(home, given);
    }
  }

  lemma RecordedFiles(home: Repo, given: Given)
    requires OnBranch(home)
    ensures Recorded(home, given).worktree == home.worktree
  {
    hide Behind, Addable;
  }

  /** From the record on, a merge is a function of the recorded home and the checkout. */
  lemma FromTheRecordOn(w: World, x: World, names: Names, given: Given, lives: nat)
    requires Ready(w, names) && Ready(x, names)
    requires Recorded(x.home, given) == Recorded(w.home, given) && Onto(x, names) == Onto(w, names)
    requires lives >= 3
    ensures Merge(x, names, given, lives).world.home == Merge(w, names, given, lives).world.home
    ensures x.checkout == w.checkout ==> Merge(x, names, given, lives) == Merge(w, names, given, lives)
  {
    HomeOfRun(w, names, given, lives);
    HomeOfRun(x, names, given, lives);
    assert RecordPremerge(Committed(w.home, given)) == Recorded(w.home, given);
    assert RecordPremerge(Committed(x.home, given)) == Recorded(x.home, given);
    hide Rebase, FastForward, Behind, Count, CommitAll, Squashed, Recorded, Committed, RecordPremerge;
  }

  /** The same, where undoing a fast-forward has unstaged what was staged in the checkout. */
  lemma ForwardFromUnstaged(r: Repo, branch: string, to: Commit)
    requires Valid(r) && r.head == On(branch) && FastForward(r, branch, to).Moved?
    ensures FastForward(r.(index := HeadCommit(r).tree), branch, to) == FastForward(r, branch, to)
  {
    hide Behind;
  }

  /** What the undo of a forward leaves of a checkout. */
  ghost predicate Unstaged(x: Repo, r: Repo, target: string)
    requires Valid(r)
  {
    x == r || (r.head == On(target) && x == r.(index := HeadCommit(r).tree))
  }

  lemma FromUnstaged(w: World, x: World, names: Names, given: Given, lives: nat)
    requires Ready(w, names) && Ready(x, names)
    requires Recorded(x.home, given) == Recorded(w.home, given)
    requires Unstaged(x.checkout, w.checkout, names.target)
    requires x.checkout != w.checkout ==> Merge(w, names, given, ENOUGH).ended == Merged(true)
    requires lives >= ENOUGH
    ensures Merge(x, names, given, lives) == Merge(w, names, given, lives)
  {
    if x.checkout == w.checkout {
      FromTheRecordOn(w, x, names, given, lives);
    } else {
      EnoughIsEnough(w, names, given, lives);
      var front := Squashed(Recorded(w.home, given), Onto(w, names), given);
      assert RecordPremerge(Committed(w.home, given)) == Recorded(w.home, given);
      assert RecordPremerge(Committed(x.home, given)) == Recorded(x.home, given);
      var rebased := Rebase(front.value, Onto(w, names), given.replay);
      hide Rebase, Behind, Count, CommitAll, Squashed, Recorded, Committed, RecordPremerge, MoveBranch, IsAncestor;
      ForwardFromUnstaged(w.checkout, names.target, rebased.repo.branches[names.unit]);
    }
  }

  /** Run again from here, a merge passes from its record on through the same homes as the first would
      have, and ends the same. */
  ghost predicate RunsAlike(w: World, x: World, names: Names, given: Given)
    requires Ready(w, names)
  {
    && Ready(x, names)
    && (forall lives :: lives >= 3 ==> Merge(x, names, given, lives).world.home == Merge(w, names, given, lives).world.home)
    && (forall lives :: lives >= ENOUGH ==> Merge(x, names, given, lives) == Merge(w, names, given, lives))
  }

  lemma RunsAlikeExactly(w: World, x: World, names: Names, given: Given)
    requires Ready(w, names) && Ready(x, names)
    requires Unstaged(x.checkout, w.checkout, names.target)
    requires x.checkout != w.checkout ==> Merge(w, names, given, ENOUGH).ended == Merged(true)
    ensures RunsAlike(w, x, names, given) <==> Recorded(x.home, given) == Recorded(w.home, given)
  {
    hide Merge, Recorded, Behind;
    HomeOfRun(w, names, given, 3);
    HomeOfRun(x, names, given, 3);
    if Recorded(x.home, given) == Recorded(w.home, given) {
      forall lives: nat | lives >= 3
        ensures Merge(x, names, given, lives).world.home == Merge(w, names, given, lives).world.home
      {
        FromTheRecordOn(w, x, names, given, lives);
      }
      forall lives: nat | lives >= ENOUGH
        ensures Merge(x, names, given, lives) == Merge(w, names, given, lives)
      {
        FromUnstaged(w, x, names, given, lives);
      }
    } else {
      assert Merge(x, names, given, 3).world.home != Merge(w, names, given, 3).world.home;
    }
  }

  // One kill.

  /** What a kill after so many writes must meet for the rerun to be as if it had not been: what was
      staged is as committed, if the commit was made; a tip on record is this merge's own, if the
      record was begun; and no replay put a file over one the merge could not commit. */
  ghost predicate Harmless(w: World, names: Names, given: Given, lives: nat, reached: nat)
    requires Ready(w, names)
  {
    && (lives >= 2 ==> StagedAsCommitted(w.home))
    && (reached >= 2 ==> w.home.premerge.GetOr(OwnTip(w.home, given)) == OwnTip(w.home, given))
    && (lives >= 5 ==>
          forall p :: p !in Addable(w.home) ==> LeftByCut(w, names, given, lives, p) == At(w.home.worktree, p))
  }

  lemma KilledRun(w: World, names: Names, given: Given, lives: nat, marked: bool)
    requires Ready(w, names) && Merge(w, names, given, lives).ended.Killed?
    ensures CutAt(w, names, given, lives, Journalled(w, names, Reached(false, lives, marked)))
    ensures lives < ENOUGH
  {
    EnoughNotKilled(w, names, given, lives);
  }

  lemma EnoughNotKilled(w: World, names: Names, given: Given, lives: nat)
    requires Ready(w, names)
    ensures lives >= ENOUGH ==> !Merge(w, names, given, lives).ended.Killed?
  {
    hide Rebase, FastForward, Behind, CommitAll, Squashed, Added, RecordPremerge;
  }

  /** The checkout once the kill is undone. */
  lemma CheckoutAgain(w: World, names: Names, given: Given, lives: nat, b: Begun)
    requires Ready(w, names) && CutAt(w, names, given, lives, b) && Merge(w, names, given, lives).ended.Killed?
    ensures
      var x := Merge(w, names, given, lives).world;
      && Valid(x.checkout)
      && var back := if b.reached >= 5 then Restore(x.checkout, names.target, b.onto) else Some(x.checkout);
      && back.Some? && Valid(back.value) && names.target in back.value.branches
      && back.value.branches == w.checkout.branches && Unstaged(back.value, w.checkout, names.target)
      && (back.value != w.checkout ==> Merge(w, names, given, ENOUGH).ended == Merged(true))
  {
    CheckoutIsTakenBack(w, names, given, lives, b);
    var x := Merge(w, names, given, lives).world;
    if x.checkout != w.checkout {
      ForwardIsTheLast(w, names, given, lives);
      ForwardOfCut(w, names, given, lives, b);
      hide Merge, FastForward, MoveBranch, Restore, Behind, CutAt;
      RestoreUndoesTheForward(w.checkout, names.target, x.home.branches[names.unit]);
    }
  }

  /** A kill after the checkout moved is one of a merge that had nothing more to do. */
  lemma ForwardIsTheLast(w: World, names: Names, given: Given, lives: nat)
    requires Ready(w, names)
    requires Merge(w, names, given, lives).ended.Killed? && Merge(w, names, given, lives).world.checkout != w.checkout
    ensures Merge(w, names, given, ENOUGH).ended == Merged(true)
  {
    hide Rebase, FastForward, Behind, Committed, Recorded, Squashed, RecordPremerge;
  }

  /** The home once the kill is undone: its files, what is staged and what is on record may be otherwise. */
  ghost predicate UndoneHome(home: Repo, back: Repo, lives: nat, reached: nat)
    requires Valid(home)
  {
    && back == home.(index := back.index, worktree := back.worktree, premerge := if reached >= 2 then None else home.premerge)
    && (lives == 0 ==> back.index == home.index)
    && (lives == 1 ==> back.index == Addable(home))
    && (lives >= 2 ==> back.index == HeadCommit(home).tree)
  }

  lemma HomeAgain(w: World, x: World, names: Names, given: Given, lives: nat, reached: nat)
    requires Ready(w, names)
    requires UndoneHome(w.home, x.home, lives, reached) && x.home.worktree == w.home.worktree
    ensures Recorded(x.home, given) == Recorded(w.home, given) <==>
      && (lives >= 2 ==> StagedAsCommitted(w.home))
      && (reached >= 2 ==> w.home.premerge.GetOr(OwnTip(w.home, given)) == OwnTip(w.home, given))
  {
    hide Behind, Addable, Recorded, StagedAsCommitted, OwnTip;
    SameRecordExactly(w.home, x.home, given);
    UnstagingKeepsExactly(w.home);
    StagingKeeps(w.home);
    SameAddable(x.home, w.home.(index := x.home.index));
  }

  lemma SameAddable(x: Repo, y: Repo)
    requires x.worktree == y.worktree && x.index == y.index && x.ignored == y.ignored
    ensures Addable(x) == Addable(y)
  {
  }

  /** With this merge's own tip on record the files come back exactly when nothing was put over them. */
  lemma OwnFiles(w: World, names: Names, given: Given, lives: nat)
    requires Ready(w, names) && w.home.premerge.GetOr(OwnTip(w.home, given)) == OwnTip(w.home, given)
    ensures FilesSurvive(w, names, given, lives) <==>
      (lives >= 5 ==> forall p :: p !in Addable(w.home) ==> LeftByCut(w, names, given, lives, p) == At(w.home.worktree, p))
  {
    FreshRecordIsOwn(w.home, given);
    OwnRecordSurvivesExactly(w, names, given, lives);
    assert lives < 5 ==> forall p :: LeftByCut(w, names, given, lives, p) == At(w.home.worktree, p);
    hide LeftByCut, FilesSurvive, Addable, RecordOf;
  }

  /** Killed once, undone by the next command and run again, a merge goes on as if it had not been killed
      if and only if the kill was harmless. */
  lemma KilledOnceExactly(w: World, names: Names, given: Given, lives: nat, marked: bool)
    requires Ready(w, names) && AnswersMergeBases(given.mergeBase)
    requires Merge(w, names, given, lives).ended.Killed?
    ensures
      var (x, b) := (Merge(w, names, given, lives).world, Journalled(w, names, Reached(false, lives, marked)));
      && Valid(x.home) && Valid(x.checkout)
      && var back := TakeBack(x, names, b);
      && (back.Some? && RunsAlike(w, back.value, names, given) <==> Harmless(w, names, given, lives, b.reached))
      && (back.Some? ==>
            && Ready(back.value, names) && Onto(back.value, names) == Onto(w, names)
            && Unstaged(back.value.checkout, w.checkout, names.target)
            && (back.value.checkout != w.checkout ==> Merge(w, names, given, ENOUGH).ended == Merged(true))
            && UndoneHome(w.home, back.value.home, lives, b.reached))
      && (b.reached <= 2 || w.home.premerge.GetOr(OwnTip(w.home, given)) == OwnTip(w.home, given) ==> back.Some?)
  {
    var (x, b) := (Merge(w, names, given, lives).world, Journalled(w, names, Reached(false, lives, marked)));
    KilledRun(w, names, given, lives, marked);
    HomeIsTakenBackExactly(w, names, given, lives, b);
    CheckoutAgain(w, names, given, lives, b);
    hide Merge, CutAt, TakeBackHome, Restore, RunsAlike, StagedAsCommitted, FilesSurvive, LeftByCut, Addable, Behind, OwnTip, Recorded, Unstaged, AnswersMergeBases;
    var back := TakeBack(x, names, b);
    if w.home.premerge.GetOr(OwnTip(w.home, given)) == OwnTip(w.home, given) {
      OwnFiles(w, names, given, lives);
    }
    ReachedFarEnough(lives, marked);
    FreshRecordIsOwn(w.home, given);
    if back.Some? {
      UndoneIsReady(w, back.value, names);
      RunsAlikeExactly(w, back.value, names, given);
      if back.value.home.worktree == w.home.worktree {
        HomeAgain(w, back.value, names, given, lives, b.reached);
      } else {
        RecordedFiles(w.home, given);
        RecordedFiles(back.value.home, given);
        NotHarmless(w, names, given, lives, b.reached);
      }
    }
  }

  lemma ReachedFarEnough(lives: nat, marked: bool)
    ensures lives >= 5 ==> Reached(false, lives, marked) >= 4
    ensures Reached(false, lives, marked) >= 3 ==> lives >= 3
  {
  }

  lemma NotHarmless(w: World, names: Names, given: Given, lives: nat, reached: nat)
    requires Ready(w, names) && reached >= 2
    requires w.home.premerge.GetOr(OwnTip(w.home, given)) == OwnTip(w.home, given) ==>
      lives >= 5 && !forall p :: p !in Addable(w.home) ==> LeftByCut(w, names, given, lives, p) == At(w.home.worktree, p)
    ensures !Harmless(w, names, given, lives, reached)
  {
    hide LeftByCut, Addable, StagedAsCommitted, OwnTip;
  }

  lemma UndoneIsReady(w: World, back: World, names: Names)
    requires Ready(w, names)
    requires back.home == w.home.(index := back.home.index, worktree := back.home.worktree, premerge := back.home.premerge)
    requires Valid(back.checkout) && names.target in back.checkout.branches
    requires back.checkout.branches == w.checkout.branches
    ensures Ready(back, names) && Onto(back, names) == Onto(w, names)
  {
  }

  // Any number of kills.

  datatype Cut = Cut(lives: nat, marked: bool)

  /** The same command over and over, each undoing the one before. */
  function Kills(given: Given, cuts: seq<Cut>): (events: seq<Event>)
    ensures |events| == |cuts|
  {
    if cuts == [] then [] else [Command(given, cuts[0].lives, cuts[0].marked)] + Kills(given, cuts[1..])
  }

  ghost predicate EachKilled(s: Session, names: Names, given: Given, cuts: seq<Cut>)
    decreases cuts
  {
    cuts == [] || (
      && Sound(s, names)
      && var next := Next(s, names, Command(given, cuts[0].lives, cuts[0].marked));
      next.open.Some? && EachKilled(next, names, given, cuts[1..]))
  }

  /** Every kill is harmless: what is staged is as committed, no other tip is on record, and the replay puts
      no file over one the merge cannot commit. */
  ghost predicate AlwaysHarmless(w: World, names: Names, given: Given)
    requires Ready(w, names)
  {
    && StagedAsCommitted(w.home)
    && w.home.premerge.GetOr(OwnTip(w.home, given)) == OwnTip(w.home, given)
    && forall p :: p !in Addable(w.home) ==> LeftByCut(w, names, given, 5, p) == At(w.home.worktree, p)
  }

  /** A world some harmless kills and their undos have led to. */
  ghost predicate Kin(w: World, x: World, names: Names, given: Given)
    requires Ready(w, names)
  {
    && Ready(x, names) && Onto(x, names) == Onto(w, names)
    && x.home.worktree == w.home.worktree && Addable(x.home) == Addable(w.home)
    && Recorded(x.home, given) == Recorded(w.home, given)
    && AlwaysHarmless(x, names, given)
    && Unstaged(x.checkout, w.checkout, names.target)
    && (x.checkout != w.checkout ==> Merge(w, names, given, ENOUGH).ended == Merged(true))
  }

  lemma KinRunsAlike(w: World, x: World, names: Names, given: Given)
    requires Ready(w, names) && Kin(w, x, names, given)
    ensures RunsAlike(w, x, names, given)
  {
    hide Recorded, Merge, Addable, AlwaysHarmless, Unstaged, RunsAlike;
    RunsAlikeExactly(w, x, names, given);
  }

  /** What a run leaves beside the branch is the same from both. */
  lemma LeftAlike(w: World, x: World, names: Names, given: Given, p: Path)
    requires Ready(w, names) && Ready(x, names) && Onto(x, names) == Onto(w, names)
    requires Recorded(x.home, given) == Recorded(w.home, given) && x.home.worktree == w.home.worktree
    ensures LeftByCut(x, names, given, 5, p) == LeftByCut(w, names, given, 5, p)
  {
    hide Recorded, Squashed, Beside;
  }

  lemma AlwaysIsEver(w: World, names: Names, given: Given, lives: nat, reached: nat)
    requires Ready(w, names) && AlwaysHarmless(w, names, given)
    ensures Harmless(w, names, given, lives, reached)
  {
    forall p | p !in Addable(w.home) && lives >= 5
      ensures LeftByCut(w, names, given, lives, p) == At(w.home.worktree, p)
    {
      assert LeftByCut(w, names, given, lives, p) == LeftByCut(w, names, given, 5, p);
    }
    hide LeftByCut, Addable, StagedAsCommitted, OwnTip;
  }

  lemma StagingStays(home: Repo, back: Repo, lives: nat, reached: nat)
    requires Valid(home) && Valid(back) && UndoneHome(home, back, lives, reached)
    requires back.worktree == home.worktree && HeadCommit(back) == HeadCommit(home) && StagedAsCommitted(home)
    ensures StagedAsCommitted(back)
  {
    hide Behind;
  }

  /** One more harmless kill, undone. */
  lemma OneMoreKill(x: World, names: Names, given: Given, lives: nat, marked: bool)
    requires Ready(x, names) && AnswersMergeBases(given.mergeBase) && AlwaysHarmless(x, names, given)
    requires Merge(x, names, given, lives).ended.Killed?
    ensures
      var (y, b) := (Merge(x, names, given, lives).world, Journalled(x, names, Reached(false, lives, marked)));
      && Valid(y.home) && Valid(y.checkout) && TakeBack(y, names, b).Some?
      && Kin(x, TakeBack(y, names, b).value, names, given)
  {
    var (y, b) := (Merge(x, names, given, lives).world, Journalled(x, names, Reached(false, lives, marked)));
    AlwaysIsEver(x, names, given, lives, b.reached);
    KilledOnceExactly(x, names, given, lives, marked);
    var back := TakeBack(y, names, b).value;
    hide Merge, TakeBack, Harmless, LeftByCut, Behind, AnswersMergeBases, Unstaged, Recorded, Addable, StagedAsCommitted, OwnTip;
    RunsAlikeExactly(x, back, names, given);
    hide RunsAlike;
    RecordedFiles(x.home, given);
    RecordedFiles(back.home, given);
    SameHome(x.home, back.home);
    SameRecordExactly(x.home, back.home, given);
    StagingStays(x.home, back.home, lives, b.reached);
    FreshRecordIsOwn(back.home, given);
    SameTip(x.home, back.home, given);
    forall p | p !in Addable(back.home)
      ensures LeftByCut(back, names, given, 5, p) == At(back.home.worktree, p)
    {
      LeftAlike(x, back, names, given, p);
    }
  }

  lemma SameHome(home: Repo, back: Repo)
    requires OnBranch(home) && OnBranch(back)
    requires back == home.(index := back.index, worktree := back.worktree, premerge := back.premerge)
    ensures HeadCommit(back) == HeadCommit(home)
  {
  }

  lemma SameTip(home: Repo, back: Repo, given: Given)
    requires OnBranch(home) && OnBranch(back) && Addable(back) == Addable(home)
    requires back == home.(index := back.index, worktree := back.worktree, premerge := back.premerge)
    ensures OwnTip(back, given) == OwnTip(home, given)
  {
    hide Behind, Addable;
    CommittingSettles(home, given);
    CommittingSettles(back, given);
  }

  lemma KinIsTransitive(w: World, x: World, y: World, names: Names, given: Given)
    requires Ready(w, names) && Kin(w, x, names, given) && Kin(x, y, names, given)
    ensures Kin(w, y, names, given)
  {
    KinRunsAlike(w, x, names, given);
    assert Merge(x, names, given, ENOUGH) == Merge(w, names, given, ENOUGH);
    hide Merge, Recorded, Addable, AlwaysHarmless, Behind, RunsAlike;
  }

  lemma {:induction false} KillsStayKin(w: World, s: Session, names: Names, given: Given, cuts: seq<Cut>)
    requires Ready(w, names) && AnswersMergeBases(given.mergeBase)
    requires Sound(s, names) && Kin(w, Started(s, names), names, given)
    requires EachKilled(s, names, given, cuts)
    ensures Sound(After(s, names, Kills(given, cuts)), names)
    ensures Kin(w, Started(After(s, names, Kills(given, cuts)), names), names, given)
    decreases cuts
  {
    if cuts != [] {
      var cut := cuts[0];
      var next := Next(s, names, Command(given, cut.lives, cut.marked));
      KillStaysKin(w, s, names, given, cut);
      assert EachKilled(next, names, given, cuts[1..]);
      KillsStayKin(w, next, names, given, cuts[1..]);
      assert Kills(given, cuts)[1..] == Kills(given, cuts[1..]);
      assert Kills(given, cuts)[0] == Command(given, cut.lives, cut.marked);
      hide Kin, Next, Started, Sound, Kills;
    }
  }

  lemma KillStaysKin(w: World, s: Session, names: Names, given: Given, cut: Cut)
    requires Ready(w, names) && AnswersMergeBases(given.mergeBase)
    requires Sound(s, names) && Kin(w, Started(s, names), names, given)
    requires Next(s, names, Command(given, cut.lives, cut.marked)).open.Some?
    ensures
      var next := Next(s, names, Command(given, cut.lives, cut.marked));
      Sound(next, names) && Kin(w, Started(next, names), names, given)
  {
    var x := Started(s, names);
    NextIsSound(s, names, Command(given, cut.lives, cut.marked));
    assert x.home.rebase.None? && MergeCommand(x, names, given, cut.lives) == Merge(x, names, given, cut.lives);
    hide Merge, Kin, TakeBack, Stuck, Sound, AnswersMergeBases, Behind;
    assert Ready(x, names) && AlwaysHarmless(x, names, given) by { KinIs(w, x, names, given); }
    OneMoreKill(x, names, given, cut.lives, cut.marked);
    KinIsTransitive(w, x, Started(Next(s, names, Command(given, cut.lives, cut.marked)), names), names, given);
  }

  lemma KinIs(w: World, x: World, names: Names, given: Given)
    requires Ready(w, names) && Kin(w, x, names, given)
    ensures Ready(x, names) && AlwaysHarmless(x, names, given)
  {
  }

  /** However often it is killed, each time undone and run again, a merge goes on as if it had never been. */
  ghost predicate AlwaysRunsAlike(w: World, names: Names, given: Given)
    requires Ready(w, names)
  {
    forall cuts | EachKilled(Session(w, None), names, given, cuts) :: EndsUpAlike(w, names, given, cuts)
  }

  ghost predicate EndsUpAlike(w: World, names: Names, given: Given, cuts: seq<Cut>)
    requires Ready(w, names)
  {
    var s := After(Session(w, None), names, Kills(given, cuts));
    Sound(s, names) && RunsAlike(w, Started(s, names), names, given)
  }

  lemma OneKill(w: World, names: Names, given: Given, cut: Cut)
    requires Ready(w, names) && Merge(w, names, given, cut.lives).ended.Killed?
    ensures EachKilled(Session(w, None), names, given, [cut])
    ensures
      var s := After(Session(w, None), names, Kills(given, [cut]));
      var ran := Merge(w, names, given, cut.lives);
      && Sound(s, names) && Valid(ran.world.home) && Valid(ran.world.checkout)
      && Started(s, names) == Resolve(ran.world, names, Journalled(w, names, Reached(false, cut.lives, cut.marked)))
  {
    var s := Session(w, None);
    var e := Command(given, cut.lives, cut.marked);
    NextIsSound(s, names, e);
    OneCommand(w, names, given, cut.lives);
    assert Kills(given, [cut])[1..] == [] && Kills(given, [cut])[0] == e;
    assert After(s, names, Kills(given, [cut])) == After(Next(s, names, e), names, []);
    assert [cut][1..] == [];
    hide Merge, Resolve, Behind, OnlyForwarded;
  }

  /** A kill that is undone for certain shows whether it was harmless. */
  lemma OneKillShows(w: World, names: Names, given: Given, cut: Cut)
    requires Ready(w, names) && AnswersMergeBases(given.mergeBase) && AlwaysRunsAlike(w, names, given)
    requires Merge(w, names, given, cut.lives).ended.Killed?
    requires Reached(false, cut.lives, cut.marked) <= 2 || w.home.premerge.GetOr(OwnTip(w.home, given)) == OwnTip(w.home, given)
    ensures Harmless(w, names, given, cut.lives, Reached(false, cut.lives, cut.marked))
  {
    OneKill(w, names, given, cut);
    KilledOnceExactly(w, names, given, cut.lives, cut.marked);
    assert EndsUpAlike(w, names, given, [cut]);
    hide Merge, TakeBack, Stuck, Harmless, RunsAlike, OwnTip, After, EachKilled, Behind, AnswersMergeBases;
  }

  /** A merge cut right after its rebase is killed there, unless no rebase was to be. */
  lemma CutAtTheRebase(w: World, names: Names, given: Given, p: Path)
    requires Ready(w, names) && AnswersMergeBases(given.mergeBase)
    requires !Merge(w, names, given, 5).ended.Killed?
    ensures LeftByCut(w, names, given, 5, p) == At(w.home.worktree, p)
  {
    var onto := Onto(w, names);
    FirstStagesAreSafe(w.home, onto, given);
    var front := Squashed(Recorded(w.home, given), onto, given);
    if front.Some? {
      SquashLeaves(w.home, front.value, onto, given);
      assert RecordPremerge(Committed(w.home, given)) == Recorded(w.home, given);
      hide Recorded, Squashed, CommitAll, FastForward, Behind, Addable, Committed, RecordPremerge, Tidy;
      assert Rebase(front.value, onto, given.replay).outcome == Failed;
    }
  }

  /** However often a merge is killed, wherever, undone by the next command and run again: from its record
      on it passes through the same homes and ends in the same way and state as if it had never been
      killed, if and only if the ignored files staged are those `HEAD` has, no tip but its own is on
      record, and the replay puts no file over one the merge cannot commit. */
  lemma KilledAgainExactly(w: World, names: Names, given: Given)
    requires Ready(w, names) && AnswersMergeBases(given.mergeBase)
    ensures AlwaysRunsAlike(w, names, given) <==> AlwaysHarmless(w, names, given)
  {
    if AlwaysHarmless(w, names, given) {
      AlwaysHarmlessIsKin(w, names, given);
      forall cuts | EachKilled(Session(w, None), names, given, cuts)
        ensures EndsUpAlike(w, names, given, cuts)
      {
        hide Kin, EachKilled, AlwaysHarmless, After, Kills, RunsAlike;
        KillsStayKin(w, Session(w, None), names, given, cuts);
        KinRunsAlike(w, Started(After(Session(w, None), names, Kills(given, cuts)), names), names, given);
      }
    }
    if AlwaysRunsAlike(w, names, given) {
      RunsAlikeIsHarmless(w, names, given);
    }
  }

  lemma AlwaysHarmlessIsKin(w: World, names: Names, given: Given)
    requires Ready(w, names) && AlwaysHarmless(w, names, given)
    ensures Sound(Session(w, None), names) && Kin(w, Started(Session(w, None), names), names, given)
  {
    hide AlwaysHarmless, Recorded, Addable;
  }

  lemma KilledEarly(w: World, names: Names, given: Given)
    requires Ready(w, names)
    ensures Merge(w, names, given, 2).ended.Killed? && Merge(w, names, given, 3).ended.Killed?
  {
    hide CommitAll, Squashed, Behind;
  }

  lemma RunsAlikeIsHarmless(w: World, names: Names, given: Given)
    requires Ready(w, names) && AnswersMergeBases(given.mergeBase) && AlwaysRunsAlike(w, names, given)
    ensures AlwaysHarmless(w, names, given)
  {
    hide Merge, AlwaysRunsAlike, LeftByCut, Addable, StagedAsCommitted, OwnTip, Behind, AnswersMergeBases;
    KilledEarly(w, names, given);
    OneKillShows(w, names, given, Cut(2, false));
    OneKillShows(w, names, given, Cut(3, false));
    assert Reached(false, 3, false) == 2;
    if Merge(w, names, given, 5).ended.Killed? {
      OneKillShows(w, names, given, Cut(5, false));
    } else {
      forall p | p !in Addable(w.home)
        ensures LeftByCut(w, names, given, 5, p) == At(w.home.worktree, p)
      {
        CutAtTheRebase(w, names, given, p);
      }
    }
  }
}
