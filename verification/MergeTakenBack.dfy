/** A merge taken back: the stages that acted undone in reverse, from wherever it was killed or
    refused, and what a record left by an earlier merge does to that. */
module MergeTakenBack {
  import opened Wrappers
  import opened Trees
  import opened Commits
  import opened Repository
  import opened MergeStages
  import opened MergeRuns
  import opened MergeProofs
  import opened MergeCommands

  /** The branch back at the recorded tip, and nothing when none is recorded. */
  function RestoreHead(r: Repo): (back: Option<Repo>)
    requires Valid(r)
    ensures back.Some? ==> Valid(back.value)
  {
    match r.premerge
    case None => Some(r)
    case Some(tip) => if r.head.On? then Restore(r, r.head.branch, tip) else None
  }

  /** What the journal says of a run that has to be undone: whether it carried a stopped rebase on, where
      the branch and the target were, and the last stage it may have begun. The stages are 1 the commit,
      2 the record, 3 the squash, 4 the rebase, 5 the fast-forward; a run that carries on has the last two. */
  datatype Begun = Begun(resumed: bool, head: Commit, onto: Commit, reached: nat)

  /** The undo of the stages that may have acted, last one first. Each may find its stage not done. */
  function TakeBack(w: World, names: Names, b: Begun): Option<World>
    requires Valid(w.home) && Valid(w.checkout)
  {
    var checkout := if b.reached >= 5 then Restore(w.checkout, names.target, b.onto) else Some(w.checkout);
    var home := TakeBackHome(w.home, b);
    if checkout.Some? && home.Some? then Some(World(home.value, checkout.value)) else None
  }

  function TakeBackHome(r: Repo, b: Begun): Option<Repo>
    requires Valid(r)
  {
    match if b.reached >= 4 then RestoreHead(Abort(r)) else Some(r)
    case None => None
    case Some(rebased) => if b.resumed then Some(rebased) else TakeBackFirst(rebased, b)
  }

  function TakeBackFirst(r: Repo, b: Begun): Option<Repo>
    requires Valid(r)
  {
    match if b.reached >= 3 then RestoreHead(r) else Some(r)
    case None => None
    case Some(squashed) =>
      var recorded := if b.reached >= 2 then squashed.(premerge := None) else squashed;
      Some(if b.reached >= 1 then Uncommit(recorded, b.head) else recorded)
  }

  /** The last stage the journal may hold when a run was killed after so many writes: the one that wrote
      last, or the next one when that was marked. */
  function Reached(resumed: bool, lives: nat, marked: bool): nat {
    var begun := (if resumed then lives + 3 else if lives <= 1 then lives else lives - 1)
                 + if marked && (resumed || lives != 1) then 1 else 0;
    if begun > 5 then 5 else begun
  }

  /** The same branches, files and record as before; only what was staged may be otherwise. */
  ghost predicate AsItWas(x: Repo, r: Repo) {
    x.(index := r.index) == r
  }

  // The homes a run may leave, once a stopped rebase is put off.

  /** On its branch with nothing changed locally, the tip on record, and nothing of the merge's own files
      left beside the branch's. */
  ghost predicate LeftFrom(x: Repo, home: Repo, record: Commit)
    requires OnBranch(home)
  {
    && OnBranch(x) && Tidy(x) && x.head == home.head
    && x == home.(branches := home.branches[home.head.branch := HeadCommit(x)], index := x.index,
                  worktree := x.worktree, premerge := Some(record))
    && (forall p :: p in Addable(home) && p !in x.index ==> p !in x.worktree)
  }

  /** The file that stands at a path beside the branch's own. */
  function LeftBeside(x: Repo, p: Path): Option<File> {
    if p in x.index then None else At(x.worktree, p)
  }

  /** Whether a path comes back as it was, from the tip on record and what is left beside the branch: a
      file the merge could commit is in the record; another is not, and is still there; or the record
      has it alike, and it is gone. */
  predicate Survives(home: Repo, record: Commit, p: Path, left: Option<File>) {
    if p in Addable(home) then At(record.tree, p) == At(home.worktree, p)
    else if p in record.tree then At(home.worktree, p) == Some(record.tree[p]) && left.None?
    else left == At(home.worktree, p)
  }

  lemma FilesComeBackExactly(x: Repo, home: Repo, record: Commit)
    requires OnBranch(home) && LeftFrom(x, home, record)
    ensures
      var back := Restore(x, home.head.branch, record);
      (back.Some? && back.value.worktree == home.worktree) <==> forall p :: Survives(home, record, p, LeftBeside(x, p))
  {
    PuttingBackExactly(x, home.head.branch, record);
    var back := Restore(x, home.head.branch, record);
    hide Tidy, Behind, Restore;
    if forall p :: Survives(home, record, p, LeftBeside(x, p)) {
      forall p | p in record.tree && p !in x.index
        ensures p !in x.worktree
      {
        assert Survives(home, record, p, LeftBeside(x, p));
      }
      forall p
        ensures At(back.value.worktree, p) == At(home.worktree, p)
      {
        assert Survives(home, record, p, LeftBeside(x, p));
      }
      SameTrees(back.value.worktree, home.worktree);
    }
    if back.Some? && back.value.worktree == home.worktree {
      forall p
        ensures Survives(home, record, p, LeftBeside(x, p))
      {
        assert At(back.value.worktree, p) == At(home.worktree, p);
      }
    }
  }

  /** All the undos of the home, from there. */
  lemma LeftIsTakenBack(x: Repo, left: Repo, home: Repo, record: Commit, b: Begun)
    requires OnBranch(home) && Valid(x) && b.reached >= 3 && !b.resumed && b.head == HeadCommit(home)
    requires LeftFrom(left, home, record) && left == if b.reached >= 4 then Abort(x) else x
    ensures
      var back := TakeBackHome(x, b);
      && (back.Some? && back.value.worktree == home.worktree <==> forall p :: Survives(home, record, p, LeftBeside(left, p)))
      && (back.Some? ==> AsItWas(back.value, home.(premerge := None, worktree := back.value.worktree)))
      && (back.Some? ==> back.value.index == if record == HeadCommit(home) then record.tree else HeadCommit(home).tree)
      && (record.tree == Addable(home) ==> back.Some?)
  {
    hide Tidy, Behind, Addable, MoveBranch, Survives, LeftBeside;
    FilesComeBackExactly(left, home, record);
    PuttingBackExactly(left, home.head.branch, record);
    var branch := home.head.branch;
    assert home.branches[branch := HeadCommit(left)][branch := record] == home.branches[branch := record];
    assert home.branches[branch := record][branch := HeadCommit(home)] == home.branches;
    assert record.tree == Addable(home) ==> NothingInTheWay(left, record);
    if b.reached >= 4 && RestoreHead(left).Some? {
      assert RestoreHead(RestoreHead(left).value) == RestoreHead(left);
    }
  }

  // Each stage leaves one of them.

  lemma SettledIsTidy(r: Repo)
    requires Settled(r)
    ensures Tidy(r)
  {
    forall p | p in r.index
      ensures At(r.worktree, p) == Some(r.index[p])
    {
      assert p in Addable(r);
    }
  }

  /** The home with the unit's branch moved and the tip recorded, nothing else but the index. */
  function MovedTo(home: Repo, to: Commit, record: Commit): Repo
    requires OnBranch(home)
  {
    home.(branches := home.branches[home.head.branch := to], index := Addable(home), premerge := Some(record))
  }

  lemma RecordedIsMoved(home: Repo, given: Given)
    requires OnBranch(home)
    ensures
      var recorded := Recorded(home, given);
      recorded == MovedTo(home, HeadCommit(recorded), recorded.premerge.value)
  {
    FirstStagesAreSafe(home, HeadCommit(home), given);
    assert home.branches[home.head.branch := HeadCommit(home)] == home.branches;
    hide Behind, Addable;
  }

  lemma SquashedIsMoved(r: Repo, onto: Commit, given: Given)
    requires OnBranch(r) && Squashed(r, onto, given).Some?
    ensures
      var x := Squashed(r, onto, given).value;
      OnBranch(x) && x == r.(branches := r.branches[r.head.branch := HeadCommit(x)])
  {
    assert r.branches[r.head.branch := HeadCommit(r)] == r.branches;
    hide Behind, Count;
  }

  lemma RecordedStays(home: Repo, given: Given)
    requires OnBranch(home)
    ensures Recorded(home, given).worktree == home.worktree && Recorded(home, given).head == home.head
  {
    hide Behind, Addable;
  }

  lemma SquashLeaves(home: Repo, x: Repo, onto: Commit, given: Given)
    requires OnBranch(home) && AnswersMergeBases(given.mergeBase)
    requires x == Recorded(home, given) || Squashed(Recorded(home, given), onto, given) == Some(x)
    ensures OnBranch(x) && LeftFrom(x, home, Recorded(home, given).premerge.value)
    ensures x.index == Addable(home) && x.worktree == home.worktree
  {
    hide Squashed, Addable, Behind, AnswersMergeBases, Tidy, LeftFrom;
    FirstStagesAreSafe(home, onto, given);
    StartingOver(home, home, given);
    RecordedIsMoved(home, given);
    var recorded := Recorded(home, given);
    RecordedStays(home, given);
    hide Recorded;
    if x != recorded {
      SquashedIsMoved(recorded, onto, given);
      SquashingFolds(recorded, onto, given);
      var branch := home.head.branch;
      assert home.branches[branch := HeadCommit(recorded)][branch := HeadCommit(x)] == home.branches[branch := HeadCommit(x)];
    }
    SettledIsTidy(x);
    hide Settled;
    MovedIsLeft(home, x, recorded.premerge.value);
  }

  lemma MovedIsLeft(home: Repo, x: Repo, record: Commit)
    requires OnBranch(home) && OnBranch(x) && Tidy(x)
    requires x == MovedTo(home, HeadCommit(x), record)
    ensures LeftFrom(x, home, record)
  {
    hide Tidy, Addable, Behind;
  }

  /** Whether a rebase of a branch with nothing changed locally replays anything. */
  predicate Replays(r: Repo, onto: Commit, replay: Replay)
    requires Valid(r)
  {
    !IsAncestor(onto, HeadCommit(r)) && !replay.CannotRun?
  }

  /** The file that stands at a path beside the branch's own once a rebase replayed, and was put off if it
      stopped: a path the new branch has is its own, and one a conflict left tracked goes with the stop. */
  function Beside(r: Repo, onto: Commit, replay: Replay, p: Path): Option<File>
    requires Valid(r)
  {
    if !Replays(r, onto, replay) then At(r.worktree, p)
    else
      match replay
      case Finished(picks) => if p in Chain(onto, picks).tree then None else At(r.worktree, p)
      case Conflicts(_, index, worktree) => if p in index then None else At(worktree, p)
      case CannotRun => At(r.worktree, p)
  }

  lemma RebaseLeaves(home: Repo, front: Repo, onto: Commit, given: Given)
    requires OnBranch(home) && OnBranch(front)
    requires LeftFrom(front, home, Recorded(home, given).premerge.value)
    requires front.index == Addable(home) && front.worktree == home.worktree
    ensures
      var x := Rebase(front, onto, given.replay).repo;
      && Valid(x) && LeftFrom(Abort(x), home, Recorded(home, given).premerge.value)
      && forall p :: p !in Addable(home) ==> LeftBeside(Abort(x), p) == Beside(front, onto, given.replay, p)
  {
    RebaseEnds(front, onto, given.replay);
    var x := Rebase(front, onto, given.replay).repo;
    var record := Recorded(home, given).premerge.value;
    hide Behind, Recorded, Addable;
    if x == front {
      assert Abort(x) == front;
    } else if x.rebase.Some? {
      StoppedLeaves(front, x, onto, given.replay);
      AbortLeaves(home, front, x, record);
    } else {
      RebasingLeaves(home, front, Chain(onto, given.replay.picks), record);
    }
  }

  lemma StoppedLeaves(front: Repo, x: Repo, onto: Commit, replay: Replay)
    requires OnBranch(front) && x == Rebase(front, onto, replay).repo && x.rebase.Some?
    requires front.index == HeadCommit(front).tree
    ensures Valid(x) && Replays(front, onto, replay) && replay.Conflicts? && x.index == replay.index && x.worktree == replay.worktree
    ensures Abort(x) == front.(worktree := CheckedOut(x.worktree, x.index.Keys, front.index))
  {
    RebaseEnds(front, onto, replay);
    hide Behind, Chain, CheckedOut, Tidy;
  }

  lemma AbortLeaves(home: Repo, front: Repo, x: Repo, record: Commit)
    requires OnBranch(home) && OnBranch(front) && LeftFrom(front, home, record) && front.index == Addable(home)
    requires Valid(x) && Abort(x) == front.(worktree := CheckedOut(x.worktree, x.index.Keys, front.index))
    ensures LeftFrom(Abort(x), home, record)
    ensures forall p :: p !in Addable(home) ==> LeftBeside(Abort(x), p) == if p in x.index then None else At(x.worktree, p)
  {
    hide Behind, Addable;
  }

  lemma RebasingLeaves(home: Repo, front: Repo, to: Commit, record: Commit)
    requires OnBranch(home) && OnBranch(front) && LeftFrom(front, home, record)
    requires front.index == Addable(home)
    ensures Valid(Rebasing(front, to)) && LeftFrom(Rebasing(front, to), home, record)
    ensures forall p :: p !in Addable(home) ==>
      LeftBeside(Rebasing(front, to), p) == if p in to.tree then None else At(front.worktree, p)
  {
    var branch := home.head.branch;
    assert home.branches[branch := HeadCommit(front)][branch := to] == home.branches[branch := to];
    hide Behind, Addable;
  }

  // From each cut.

  /** Up to the record only the branch and the index moved, and the undo moves them back. */
  lemma HomeBeforeTheSquash(home: Repo, x: Repo, given: Given, b: Begun)
    requires OnBranch(home) && BeforeTheSquash(home, x, given) && b.reached <= 2
    requires !b.resumed && b.head == HeadCommit(home)
    requires x != home ==> b.reached >= 1
    requires x.premerge != home.premerge ==> b.reached >= 2
    ensures Valid(x) && TakeBackHome(x, b).Some?
    ensures
      var back := TakeBackHome(x, b).value;
      AsItWas(back, if b.reached >= 2 then home.(premerge := None) else home)
  {
    hide Behind, Addable;
    CommittingSettles(home, given);
    assert home.branches[home.head.branch := HeadCommit(home)] == home.branches;
  }

  /** A run that was killed at some write, or that a stage refused, and how far it had begun. */
  ghost predicate CutAt(w: World, names: Names, given: Given, lives: nat, b: Begun)
    requires Ready(w, names)
  {
    && !b.resumed && b.head == HeadCommit(w.home) && b.onto == Onto(w, names)
    && match Merge(w, names, given, lives).ended
       case Killed => b.reached == Reached(false, lives, false) || b.reached == Reached(false, lives, true)
       case Refused(stage) => b.reached == stage
       case _ => false
  }

  lemma EachIsBefore(home: Repo, given: Given)
    requires OnBranch(home)
    ensures BeforeTheSquash(home, home, given) && BeforeTheSquash(home, Added(home), given)
    ensures BeforeTheSquash(home, Committed(home, given), given) && BeforeTheSquash(home, Recorded(home, given), given)
  {
  }

  lemma StagesOfCut(w: World, names: Names, given: Given, lives: nat, b: Begun)
    requires Ready(w, names) && CutAt(w, names, given, lives, b)
    ensures
      var front := Squashed(Recorded(w.home, given), Onto(w, names), given);
      && b.reached <= 5
      && (lives <= 3 ==> b.reached == Reached(false, lives, false) || b.reached == Reached(false, lives, true))
      && (lives >= 4 ==> b.reached >= 3)
      && (lives >= 5 && front.Some? ==> b.reached >= 4)
      && (b.reached < 5 ==> Merge(w, names, given, lives).world.checkout == w.checkout)
  {
    hide CommitAll, Rebase, FastForward, Behind, Count;
    CommittingSettles(w.home, given);
  }

  /** What is left beside the branch at a path by a run cut after so many writes. */
  function LeftByCut(w: World, names: Names, given: Given, lives: nat, p: Path): Option<File>
    requires Ready(w, names)
  {
    FirstStagesAreSafe(w.home, Onto(w, names), given);
    match Squashed(Recorded(w.home, given), Onto(w, names), given)
    case None => At(w.home.worktree, p)
    case Some(front) => if lives >= 5 then Beside(front, Onto(w, names), given.replay, p) else At(w.home.worktree, p)
  }

  /** The home of a run that was killed or refused, once the rebase is put off. */
  lemma HomeOfCut(w: World, names: Names, given: Given, lives: nat, b: Begun)
    requires Ready(w, names) && AnswersMergeBases(given.mergeBase)
    requires CutAt(w, names, given, lives, b)
    ensures
      var x := Merge(w, names, given, lives).world.home;
      && Valid(x)
      && (b.reached <= 2 ==> BeforeTheSquash(w.home, x, given) && (x != w.home ==> b.reached >= 1)
                             && (x.premerge != w.home.premerge ==> b.reached >= 2))
      && (b.reached >= 3 ==>
            var left := if b.reached >= 4 then Abort(x) else x;
            && LeftFrom(left, w.home, Recorded(w.home, given).premerge.value)
            && forall p :: p !in Addable(w.home) ==> LeftBeside(left, p) == LeftByCut(w, names, given, lives, p))
  {
    var onto := Onto(w, names);
    HomeOfRun(w, names, given, lives);
    StagesOfCut(w, names, given, lives, b);
    FirstStagesAreSafe(w.home, onto, given);
    var x := Merge(w, names, given, lives).world.home;
    var front := Squashed(Recorded(w.home, given), onto, given);
    hide Merge, CutAt, LeftFrom, Recorded, Squashed, BeforeTheSquash, Rebase, Behind, Beside, AnswersMergeBases, Committed, Added, Addable;
    if b.reached <= 2 {
      EachIsBefore(w.home, given);
    } else if lives <= 4 || front.None? {
      SquashLeaves(w.home, x, onto, given);
      assert Abort(x) == x;
    } else {
      SquashLeaves(w.home, front.value, onto, given);
      RebaseLeaves(w.home, front.value, onto, given);
      RebaseEnds(front.value, onto, given.replay);
    }
  }

  // The results.

  /** The tip on record when the squash may begin: the one already there, or this merge's own. */
  function RecordOf(home: Repo, given: Given): Commit
    requires OnBranch(home)
  {
    FirstStagesAreSafe(home, HeadCommit(home), given);
    Recorded(home, given).premerge.value
  }

  /** Every path comes back from that record. */
  ghost predicate FilesSurvive(w: World, names: Names, given: Given, lives: nat)
    requires Ready(w, names)
  {
    forall p :: Survives(w.home, RecordOf(w.home, given), p, LeftByCut(w, names, given, lives, p))
  }

  /** With a tip of its own on record a merge gets back every file it could commit, and the others
      exactly when no replay put one of its own over them. */
  lemma OwnRecordSurvivesExactly(w: World, names: Names, given: Given, lives: nat)
    requires Ready(w, names) && RecordOf(w.home, given).tree == Addable(w.home)
    ensures FilesSurvive(w, names, given, lives) <==>
      forall p :: p !in Addable(w.home) ==> LeftByCut(w, names, given, lives, p) == At(w.home.worktree, p)
  {
    var record := RecordOf(w.home, given);
    forall p
      ensures Survives(w.home, record, p, LeftByCut(w, names, given, lives, p))
        <==> (p !in Addable(w.home) ==> LeftByCut(w, names, given, lives, p) == At(w.home.worktree, p))
    {
      assert p in Addable(w.home) ==> Addable(w.home)[p] == w.home.worktree[p];
    }
    hide Survives, Addable, LeftByCut;
  }

  lemma FreshRecordIsOwn(home: Repo, given: Given)
    requires OnBranch(home)
    ensures RecordOf(home, given) == home.premerge.GetOr(HeadCommit(Committed(home, given)))
    ensures HeadCommit(Committed(home, given)).tree == Addable(home)
  {
    FirstStagesAreSafe(home, HeadCommit(home), given);
    CommittingSettles(home, given);
    hide Behind, Addable;
  }

  /** The home of a run killed or refused anywhere: what the undo gives back, for any record. */
  lemma HomeIsTakenBackExactly(w: World, names: Names, given: Given, lives: nat, b: Begun)
    requires Ready(w, names) && AnswersMergeBases(given.mergeBase)
    requires CutAt(w, names, given, lives, b)
    ensures Valid(Merge(w, names, given, lives).world.home)
    ensures
      var back := TakeBackHome(Merge(w, names, given, lives).world.home, b);
      && (back.Some? && back.value.worktree == w.home.worktree
          <==> (b.reached >= 3 ==> FilesSurvive(w, names, given, lives)))
      && (back.Some? ==>
            AsItWas(back.value, w.home.(worktree := back.value.worktree,
                                        premerge := if b.reached >= 2 then None else w.home.premerge)))
      && (b.reached <= 2 || RecordOf(w.home, given).tree == Addable(w.home) ==> back.Some?)
      && (back.Some? && lives == 0 ==> back.value.index == w.home.index)
      && (back.Some? && lives == 1 ==> back.value.index == Addable(w.home))
      && (back.Some? && lives >= 2 ==> back.value.index == HeadCommit(w.home).tree)
  {
    var x := Merge(w, names, given, lives).world.home;
    HomeOfCut(w, names, given, lives, b);
    StagesOfCut(w, names, given, lives, b);
    HomeOfRun(w, names, given, lives);
    hide Merge, CutAt, LeftFrom, Behind, TakeBackHome, AnswersMergeBases, Addable, Squashed, Rebase, LeftByCut, LeftBeside;
    if b.reached <= 2 {
      hide Recorded, BeforeTheSquash;
      HomeBeforeTheSquash(w.home, x, given, b);
      IndexBeforeTheSquash(w.home, x, given, b, lives);
    } else {
      var left := if b.reached >= 4 then Abort(x) else x;
      FirstStagesAreSafe(w.home, HeadCommit(w.home), given);
      hide Recorded, BeforeTheSquash;
      LeftIsTakenBack(x, left, w.home, RecordOf(w.home, given), b);
      AlikeSurvives(w, names, given, lives, left);
    }
  }

  lemma AlikeSurvives(w: World, names: Names, given: Given, lives: nat, left: Repo)
    requires Ready(w, names)
    requires forall p :: p !in Addable(w.home) ==> LeftBeside(left, p) == LeftByCut(w, names, given, lives, p)
    ensures FilesSurvive(w, names, given, lives)
      <==> forall p :: Survives(w.home, RecordOf(w.home, given), p, LeftBeside(left, p))
  {
    hide Addable, LeftByCut, LeftBeside, RecordOf;
    forall p
      ensures Survives(w.home, RecordOf(w.home, given), p, LeftByCut(w, names, given, lives, p))
        <==> Survives(w.home, RecordOf(w.home, given), p, LeftBeside(left, p))
    {
    }
  }

  lemma IndexBeforeTheSquash(home: Repo, x: Repo, given: Given, b: Begun, lives: nat)
    requires OnBranch(home) && !b.resumed && b.head == HeadCommit(home) && b.reached <= 2
    requires b.reached == Reached(false, lives, false) || b.reached == Reached(false, lives, true)
    requires lives <= 3
    requires lives == 0 ==> x == home
    requires lives == 1 ==> x == Added(home)
    requires lives == 2 ==> x == Committed(home, given)
    requires lives == 3 ==> x == Recorded(home, given)
    requires Valid(x) && TakeBackHome(x, b).Some?
    ensures
      TakeBackHome(x, b).value.index
      == if lives == 0 then home.index else if lives == 1 then Addable(home) else HeadCommit(home).tree
    ensures TakeBackHome(x, b).value.worktree == home.worktree
  {
    hide Behind, Addable;
    CommittingSettles(home, given);
  }

  /** A merge killed anywhere, or refused by any stage, is taken back. The checkout is always as it
      was. The files are exactly when the squash had not begun, or every path comes back from the
      tip on record. And the home is, record included, exactly when besides no tip was on record
      before, or the run had not begun to record one. */
  lemma TakenBackExactly(w: World, names: Names, given: Given, lives: nat, b: Begun)
    requires Ready(w, names) && AnswersMergeBases(given.mergeBase)
    requires CutAt(w, names, given, lives, b)
    ensures
      var x := Merge(w, names, given, lives).world;
      && Valid(x.home) && Valid(x.checkout)
      && var (back, files) := (TakeBack(x, names, b), b.reached >= 3 ==> FilesSurvive(w, names, given, lives));
      && (back.Some? ==> AsItWas(back.value.checkout, w.checkout))
      && (back.Some? && back.value.home.worktree == w.home.worktree <==> files)
      && (back.Some? && AsItWas(back.value.home, w.home) <==> files && !(w.home.premerge.Some? && b.reached >= 2))
  {
    HomeIsTakenBackExactly(w, names, given, lives, b);
    CheckoutIsTakenBack(w, names, given, lives, b);
    hide Merge, CutAt, FilesSurvive, TakeBackHome, Restore;
  }

  /** The checkout is as it was, or forwarded and put back by the undo of the last stage. */
  lemma CheckoutIsTakenBack(w: World, names: Names, given: Given, lives: nat, b: Begun)
    requires Ready(w, names) && CutAt(w, names, given, lives, b)
    ensures
      var x := Merge(w, names, given, lives).world.checkout;
      && Valid(x)
      && (x == w.checkout || b.reached >= 5)
      && Restore(x, names.target, Onto(w, names)).Some?
      && AsItWas(Restore(x, names.target, Onto(w, names)).value, w.checkout)
      && (x == w.checkout ==> Restore(x, names.target, Onto(w, names)) == Some(x))
  {
    var x := Merge(w, names, given, lives).world;
    StagesOfCut(w, names, given, lives, b);
    if x.checkout != w.checkout {
      ForwardOfCut(w, names, given, lives, b);
      hide Merge, FastForward, MoveBranch, Behind, CutAt;
      RestoreUndoesTheForward(w.checkout, names.target, x.home.branches[names.unit]);
    }
  }

  /** A checkout that changed was forwarded to the branch. */
  lemma ForwardOfCut(w: World, names: Names, given: Given, lives: nat, b: Begun)
    requires Ready(w, names) && CutAt(w, names, given, lives, b)
    requires Merge(w, names, given, lives).world.checkout != w.checkout
    ensures
      var x := Merge(w, names, given, lives).world;
      && names.unit in x.home.branches
      && FastForward(w.checkout, names.target, x.home.branches[names.unit]) == Moved(x.checkout)
  {
    StagesOfCut(w, names, given, lives, b);
    hide Rebase, Behind, CommitAll, Squashed, RecordPremerge, MoveBranch, Restore;
  }

  // The record an earlier merge left.

  /** A finished merge, then new work, then a second merge killed after its squash and taken back: the
      record is gone, and the work is in the files again only if it is the first merge's. */
  lemma SecondMergeTakenBack(w: World, names: Names, given: Given, work: Tree, second: Given, marked: bool)
    requires EndsUndisturbed(w, names, given) && AnswersMergeBases(second.mergeBase)
    ensures
      var end := Merge(w, names, given, ENOUGH).world;
      var later := end.(home := end.home.(worktree := work));
      && Ready(later, names) && end.home.premerge.Some?
      && Merge(later, names, second, 4).ended == Killed
      && var x := Merge(later, names, second, 4).world;
      && Valid(x.home) && Valid(x.checkout)
      && var back := TakeBack(x, names, Begun(false, HeadCommit(later.home), Onto(later, names), Reached(false, 4, marked)));
      && (back.Some? ==> back.value.home.premerge.None?)
      && (back.Some? && back.value.home.worktree == work <==> end.home.premerge.value.tree == Addable(later.home))
  {
    hide Merge, Behind, Addable, AnswersMergeBases, OnlyForwarded, Recorded, FilesSurvive;
    RebasedHome(w, names, given);
    OneCommand(w, names, given, ENOUGH);
    var end := Merge(w, names, given, ENOUGH).world;
    SecondIsTakenBack(end.(home := end.home.(worktree := work)), names, second, marked);
  }

  lemma SecondIsTakenBack(w: World, names: Names, given: Given, marked: bool)
    requires Ready(w, names) && AnswersMergeBases(given.mergeBase) && w.home.premerge.Some?
    requires IsAncestor(Onto(w, names), HeadCommit(w.home))
    ensures Merge(w, names, given, 4).ended == Killed
    ensures
      var x := Merge(w, names, given, 4).world;
      && Valid(x.home) && Valid(x.checkout)
      && var back := TakeBack(x, names, Begun(false, HeadCommit(w.home), Onto(w, names), Reached(false, 4, marked)));
      && (back.Some? ==> back.value.home.premerge.None?)
      && (back.Some? && back.value.home.worktree == w.home.worktree <==> w.home.premerge.value.tree == Addable(w.home))
  {
    hide Merge, Behind, Addable, AnswersMergeBases, Recorded, FilesSurvive, Restore;
    KilledAfterTheSquash(w, names, given);
    var b := Begun(false, HeadCommit(w.home), Onto(w, names), Reached(false, 4, marked));
    HomeIsTakenBackExactly(w, names, given, 4, b);
    CheckoutIsTakenBack(w, names, given, 4, b);
    FreshRecordIsOwn(w.home, given);
    NotReplayedSurvives(w, names, given);
  }

  /** Before the rebase the files come back exactly when the record holds what could be committed. */
  lemma NotReplayedSurvives(w: World, names: Names, given: Given)
    requires Ready(w, names)
    ensures FilesSurvive(w, names, given, 4) <==> RecordOf(w.home, given).tree == Addable(w.home)
  {
    var record := RecordOf(w.home, given);
    assert forall p :: LeftByCut(w, names, given, 4, p) == At(w.home.worktree, p);
    hide RecordOf, LeftByCut;
    if FilesSurvive(w, names, given, 4) {
      forall p
        ensures At(record.tree, p) == At(Addable(w.home), p)
      {
        assert Survives(w.home, record, p, At(w.home.worktree, p));
      }
      SameTrees(record.tree, Addable(w.home));
    }
  }

  lemma KilledAfterTheSquash(w: World, names: Names, given: Given)
    requires Ready(w, names) && AnswersMergeBases(given.mergeBase)
    requires IsAncestor(Onto(w, names), HeadCommit(w.home))
    ensures Merge(w, names, given, 4).ended == Killed
  {
    hide Behind, Addable, CommitAll, Squashed, Integrate, Count, AnswersMergeBases, Rebase;
    FirstStagesAreSafe(w.home, Onto(w, names), given);
    CommitTakesTheWork(w.home, given.message, given.message);
    var recorded := Recorded(w.home, given);
    BehindIsTransitive(Onto(w, names), HeadCommit(w.home), HeadCommit(recorded));
    SquashOverTheTarget(recorded, Onto(w, names), given);
  }
}
