/** A merge that stopped in a conflict: given up, or carried on by a command that was killed or refused and is
    undone. Both go back to the tip on record, whatever was done in between, and a merge begins again from there. */
module MergeGivenUp {
  import opened Wrappers
  import opened Trees
  import opened Commits
  import opened Repository
  import opened MergeStages
  import opened MergeRuns
  import opened MergeProofs
  import opened MergeCommands
  import opened MergeTakenBack
  import opened MergeSessions
  import opened MergeAgain

  /** Every tracked file as committed once a stopped rebase is put off. */
  lemma AbortTidies(x: Repo)
    requires Valid(x) && x.rebase.Some?
    ensures Valid(Abort(x)) && Tidy(Abort(x))
    ensures forall p :: p !in Abort(x).index ==> At(Abort(x).worktree, p) == if p in x.index then None else At(x.worktree, p)
  {
  }

  /** What a home taken back to the tip on record looks like: that commit's files, and of the others
      those that stood beside the stopped rebase. */
  ghost predicate BackAtTheRecord(back: Repo, x: Repo, unit: string, tip: Commit)
    requires Valid(x)
  {
    && back.head == On(unit) && back.rebase.None?
    && back.branches == x.branches[unit := tip] && back.index == tip.tree
    && (forall p :: p in tip.tree ==> At(back.worktree, p) == Some(tip.tree[p]))
    && (forall p :: p !in tip.tree ==> At(back.worktree, p) == if p in Abort(x).index then None else At(Abort(x).worktree, p))
  }

  /** `--abort`, from any stopped state with a tip on record, goes back to that tip exactly when no
      untracked file stands where the tip has one. */
  lemma AbortGoesToTheRecord(x: Repo, unit: string, tip: Commit)
    requires Valid(x) && x.rebase.Some? && x.rebase.value.was == On(unit) && x.premerge == Some(tip)
    ensures
      var back := AbortCommand(x, unit);
      && (back.Some? <==> NothingInTheWay(Abort(x), tip))
      && (back.Some? ==> BackAtTheRecord(back.value, x, unit, tip) && back.value.premerge.None?)
  {
    AbortTidies(x);
    PuttingBackExactly(Abort(x), unit, tip);
    hide Tidy, Behind, MoveBranch, NothingInTheWay;
  }

  /** Whatever is done in between, the rebase is stopped and nothing is open before and after it. */
  ghost predicate StaysStopped(s: Session, names: Names, events: seq<Event>)
    decreases events
  {
    && Sound(s, names) && s.open.None? && s.world.home.rebase.Some?
    && (events != [] ==> StaysStopped(Next(s, names, events[0]), names, events[1..]))
  }

  /** A command that starts from a stopped rebase and leaves one with nothing open is itself at a stop. */
  lemma StillStopped(w: World, names: Names, given: Given, lives: nat, marked: bool)
    requires Able(w, names) && w.home.rebase.Some?
    requires Ending(w, names, given, lives, marked).open.None? && Ending(w, names, given, lives, marked).world.home.rebase.Some?
    ensures MergeCommand(w, names, given, lives).ended.InConflict?
    ensures Ending(w, names, given, lives, marked).world == MergeCommand(w, names, given, lives).world
  {
    var ran := MergeCommand(w, names, given, lives);
    OneCommand(w, names, given, lives);
    RebaseEnds(w.home, Onto(w, names), given.replay);
    if ran.ended.Refused? {
      RefusedIsNotStopped(w, names, given, lives);
      ResolvedKeepsNone(ran.world, names, Journalled(w, names, ran.ended.stage));
    }
    hide Resolve, Resume, Behind, OnlyForwarded, FastForward;
  }

  lemma RefusedIsNotStopped(w: World, names: Names, given: Given, lives: nat)
    requires Able(w, names) && w.home.rebase.Some? && MergeCommand(w, names, given, lives).ended.Refused?
    ensures MergeCommand(w, names, given, lives).world.home.rebase.None?
    ensures MergeCommand(w, names, given, lives).ended.stage == 5
  {
    RebaseEnds(w.home, Onto(w, names), given.replay);
    hide Resume, Behind, FastForward;
  }

  lemma ResolvedKeepsNone(w: World, names: Names, b: Begun)
    requires Able(w, names) && w.home.rebase.None? && b.resumed
    ensures Resolve(w, names, b).home.rebase.None?
  {
    if w.home.premerge.Some? {
      RestoredIsAble(w.home, names.unit, w.home.premerge.value);
    }
    hide Restore, Behind;
  }

  lemma EventFromStopped(s: Session, names: Names, e: Event, front: Repo)
    requires Sound(s, names) && s.open.None? && s.world.home.rebase.Some?
    requires Next(s, names, e).open.None? && Next(s, names, e).world.home.rebase.Some?
    requires Valid(front) && StoppedFrom(s.world.home, front)
    ensures StoppedFrom(Next(s, names, e).world.home, front)
  {
    NextIsSound(s, names, e);
    if e.Command? {
      StillStopped(s.world, names, e.given, e.lives, e.marked);
      StoppingAgain(front, s.world.home, Onto(s.world, names), e.given.replay);
      RebaseEnds(s.world.home, Onto(s.world, names), e.given.replay);
    } else if e.GiveUp? {
      AbortKeepsAble(s.world.home, names.unit);
    }
    hide Rebase, Ending, MoveBranch, Behind, Addable, AbortCommand;
  }

  lemma {:induction false} StoppedThroughout(s: Session, names: Names, events: seq<Event>, front: Repo)
    requires Valid(front) && StoppedFrom(s.world.home, front) && StaysStopped(s, names, events)
    ensures
      var end := After(s, names, events);
      Sound(end, names) && end.open.None? && end.world.home.rebase.Some? && StoppedFrom(end.world.home, front)
    decreases events
  {
    if events != [] {
      var next := Next(s, names, events[0]);
      assert StaysStopped(next, names, events[1..]);
      EventFromStopped(s, names, events[0], front);
      StoppedThroughout(next, names, events[1..], front);
    }
  }

  /** The first command to stop has left a rebase of the squashed branch. */
  lemma FirstStop(w: World, names: Names, given: Given, lives: nat)
    requires Ready(w, names) && AnswersMergeBases(given.mergeBase)
    requires MergeCommand(w, names, given, lives).world.home.rebase.Some?
    ensures
      var front := Squashed(Recorded(w.home, given), Onto(w, names), given);
      && front.Some? && Valid(front.value)
      && StoppedFrom(MergeCommand(w, names, given, lives).world.home, front.value)
      && front.value.branches == w.home.branches[names.unit := HeadCommit(front.value)]
      && HeadCommit(front.value).tree == Addable(w.home)
      && front.value.premerge == Recorded(w.home, given).premerge
      && front.value.ignored == w.home.ignored && front.value.elsewhere == w.home.elsewhere
  {
    var onto := Onto(w, names);
    HomeOfRun(w, names, given, lives);
    FirstStagesAreSafe(w.home, onto, given);
    CommittingSettles(w.home, given);
    var front := Squashed(Recorded(w.home, given), onto, given);
    if lives > 4 && front.Some? {
      SquashLeaves(w.home, front.value, onto, given);
      StoppingAgain(front.value, front.value, onto, given.replay);
      RebaseEnds(front.value, onto, given.replay);
    }
    hide Merge, Squashed, Recorded, Behind, Addable, Rebase, Committed, Added;
  }

  /** The files `--abort` leaves beside the committed ones are those there were. */
  ghost predicate OtherFilesStayed(home: Repo, x: Repo) {
    forall p :: p !in Addable(home) ==> At(home.worktree, p) == if p in x.index then None else At(x.worktree, p)
  }

  /** A merge that stopped in a conflict, carried on and stopped again any number of times, with any
      work in between, and then given up. The home goes back to the tip on record, exactly when
      nothing stands in the way. Where no older record was, nothing does: every file that could be
      committed is back, the others exactly when nothing was left beside them; and the branch is where
      the merge found it exactly when there was nothing to commit. */
  lemma GivenUpExactly(w: World, names: Names, given: Given, lives: nat, events: seq<Event>)
    requires Ready(w, names) && AnswersMergeBases(given.mergeBase)
    requires StaysStopped(Session(MergeCommand(w, names, given, lives).world, None), names, events)
    ensures
      var x := After(Session(MergeCommand(w, names, given, lives).world, None), names, events).world;
      && Able(x, names)
      && var (back, record) := (AbortCommand(x.home, names.unit), RecordOf(w.home, given));
      && (back.Some? <==> NothingInTheWay(Abort(x.home), record))
      && (back.Some? ==> BackAtTheRecord(back.value, x.home, names.unit, record) && back.value.premerge.None?)
      && (w.home.premerge.None? ==>
            && back.Some? && record.tree == Addable(w.home)
            && (back.value.worktree == w.home.worktree <==> OtherFilesStayed(w.home, x.home))
            && (back.value.branches == w.home.branches <==> Addable(w.home) == HeadCommit(w.home).tree))
  {
    var first := Session(MergeCommand(w, names, given, lives).world, None);
    FirstStop(w, names, given, lives);
    var front := Squashed(Recorded(w.home, given), Onto(w, names), given).value;
    StoppedThroughout(first, names, events, front);
    var x := After(first, names, events).world;
    FirstStagesAreSafe(w.home, Onto(w, names), given);
    hide MergeCommand, After, Recorded, Squashed, StaysStopped, Behind;
    AbortOfStopped(w.home, names, given, front, x.home);
  }

  lemma AbortOfStopped(home: Repo, names: Names, given: Given, front: Repo, x: Repo)
    requires OnBranch(home) && home.head == On(names.unit)
    requires Valid(front) && StoppedFrom(x, front) && BranchOf(x) == On(names.unit)
    requires front.branches == home.branches[names.unit := HeadCommit(front)]
    requires HeadCommit(front).tree == Addable(home) && front.premerge == Recorded(home, given).premerge
    ensures
      var back := AbortCommand(x, names.unit);
      var record := Recorded(home, given).premerge.value;
      && (back.Some? <==> NothingInTheWay(Abort(x), record))
      && (back.Some? ==> BackAtTheRecord(back.value, x, names.unit, record) && back.value.premerge.None?)
      && (home.premerge.None? ==>
            && back.Some? && record.tree == Addable(home)
            && (back.value.worktree == home.worktree <==> OtherFilesStayed(home, x))
            && (back.value.branches == home.branches <==> Addable(home) == HeadCommit(home).tree))
  {
    var record := Recorded(home, given).premerge.value;
    FirstStagesAreSafe(home, HeadCommit(home), given);
    AbortGoesToTheRecord(x, names.unit, record);
    if home.premerge.None? {
      FreshRecordIsOwn(home, given);
      NothingIsInTheWay(x, front, record);
      var back := AbortCommand(x, names.unit).value;
      AbortUndoesTheRebase(front, x);
      FilesOfAbort(home, x, back, record, names.unit);
      BranchOfAbort(home, given, record);
      assert home.branches[names.unit := HeadCommit(front)][names.unit := record] == home.branches[names.unit := record];
      hide Behind, Recorded, AbortCommand, StoppedFrom, BackAtTheRecord;
      assert back.branches == home.branches[names.unit := record];
    }
  }

  lemma NothingIsInTheWay(x: Repo, front: Repo, record: Commit)
    requires Valid(front) && StoppedFrom(x, front) && record.tree == HeadCommit(front).tree
    ensures NothingInTheWay(Abort(x), record)
  {
  }

  lemma BranchOfAbort(home: Repo, given: Given, record: Commit)
    requires OnBranch(home) && home.premerge.None? && Recorded(home, given).premerge == Some(record)
    ensures home.branches[home.head.branch := record] == home.branches <==> Addable(home) == HeadCommit(home).tree
  {
    CommitTakesTheWork(home, given.message, given.message);
    assert record == HeadCommit(Committed(home, given));
    assert Behind(record) - Behind(record) == {};
    hide Addable;
    if record == HeadCommit(home) {
      assert home.branches[home.head.branch := record] == home.branches;
    } else {
      assert home.branches[home.head.branch := record][home.head.branch] != home.branches[home.head.branch];
    }
  }

  lemma FilesOfAbort(home: Repo, x: Repo, back: Repo, record: Commit, unit: string)
    requires Valid(x) && x.rebase.Some? && BackAtTheRecord(back, x, unit, record)
    requires record.tree == Addable(home) == Abort(x).index
    ensures back.worktree == home.worktree <==> OtherFilesStayed(home, x)
  {
    AbortTidies(x);
    if OtherFilesStayed(home, x) {
      forall p
        ensures At(back.worktree, p) == At(home.worktree, p)
      {
        assert p in Addable(home) ==> Addable(home)[p] == home.worktree[p];
      }
      SameTrees(back.worktree, home.worktree);
    }
  }

  // Carried on, and undone.

  /** How far a command that carries on had begun: the rebase and the fast-forward are its only stages. */
  ghost predicate ResumedCutAt(w: World, names: Names, given: Given, lives: nat, b: Begun)
    requires Able(w, names)
  {
    && b == Journalled(w, names, b.reached)
    && match MergeCommand(w, names, given, lives).ended
       case Killed => b.reached == Reached(true, lives, false) || b.reached == Reached(true, lives, true)
       case Refused(stage) => b.reached == stage
       case _ => false
  }

  /** A command that carried a stopped rebase on, killed or refused: its undo stops the rebase and puts
      the branch at the tip on record, which stays, exactly when nothing stands in the way. The checkout
      is as it was. */
  lemma ResumedIsTakenBackExactly(w: World, names: Names, given: Given, lives: nat, b: Begun, tip: Commit)
    requires Able(w, names) && w.home.rebase.Some? && w.home.premerge == Some(tip)
    requires ResumedCutAt(w, names, given, lives, b) && b.reached >= 4
    ensures
      var x := MergeCommand(w, names, given, lives).world;
      && Able(x, names)
      && var back := TakeBack(x, names, b);
      && (back.Some? <==> NothingInTheWay(Abort(x.home), tip))
      && (back.Some? ==> AsItWas(back.value.checkout, w.checkout))
      && (back.Some? ==> BackAtTheRecord(back.value.home, x.home, names.unit, tip) && back.value.home.premerge == Some(tip))
      && (back.Some? ==> Ready(back.value, names) && Onto(back.value, names) == Onto(w, names))
  {
    OneCommand(w, names, given, lives);
    var x := MergeCommand(w, names, given, lives).world;
    ResumedCheckout(w, names, given, lives, b);
    CarriedOnIsTidy(w, names, given, lives);
    PuttingBackExactly(Abort(x.home), names.unit, tip);
    hide MergeCommand, Behind, Tidy, MoveBranch, NothingInTheWay, OnlyForwarded, Restore;
  }

  lemma CarriedOnIsTidy(w: World, names: Names, given: Given, lives: nat)
    requires Able(w, names) && w.home.rebase.Some?
    ensures
      var x := MergeCommand(w, names, given, lives).world.home;
      && Valid(x) && Tidy(Abort(x)) && Abort(x).head == On(names.unit) && Abort(x).rebase.None?
      && Abort(x).branches == x.branches && Abort(x).premerge == x.premerge
  {
    OneCommand(w, names, given, lives);
    RebaseEnds(w.home, Onto(w, names), given.replay);
    var x := MergeCommand(w, names, given, lives).world.home;
    assert x == w.home || x == Rebase(w.home, Onto(w, names), given.replay).repo;
    if x.rebase.Some? {
      AbortTidies(x);
    } else {
      ResumedTidies(w.home, given.replay);
    }
    hide Behind, Tidy, Resume, FastForward, OnlyForwarded;
  }

  lemma ResumedTidies(r: Repo, replay: Replay)
    requires Valid(r) && r.rebase.Some? && Resume(r, replay).outcome == Done
    ensures Valid(Resume(r, replay).repo) && Tidy(Resume(r, replay).repo)
  {
    RebaseEnds(r, r.rebase.value.onto, replay);
    hide Behind;
  }

  lemma ResumedCheckout(w: World, names: Names, given: Given, lives: nat, b: Begun)
    requires Able(w, names) && w.home.rebase.Some? && ResumedCutAt(w, names, given, lives, b)
    ensures
      var x := MergeCommand(w, names, given, lives).world.checkout;
      && Valid(x)
      && (x == w.checkout || b.reached >= 5)
      && Restore(x, names.target, Onto(w, names)).Some?
      && AsItWas(Restore(x, names.target, Onto(w, names)).value, w.checkout)
      && Valid(Restore(x, names.target, Onto(w, names)).value)
  {
    var x := MergeCommand(w, names, given, lives).world;
    RebaseEnds(w.home, Onto(w, names), given.replay);
    if x.checkout != w.checkout {
      var to := x.home.branches[names.unit];
      assert FastForward(w.checkout, names.target, to) == Moved(x.checkout);
      RestoreUndoesTheForward(w.checkout, names.target, to);
    }
    hide Resume, MoveBranch, Behind, MayKeep;
  }

  /** The files beside the record's are those there were when the merge was begun. */
  ghost predicate BesideStayed(home: Repo, x: Repo)
    requires Valid(x)
  {
    forall p :: p !in Addable(home) ==> LeftBeside(Abort(x), p) == At(home.worktree, p)
  }

  /** A home back at the record is the home as the first merge recorded it exactly when that record was its
      own and the files beside it stayed. */
  lemma BackIsRecordedExactly(home: Repo, given: Given, x: Repo, back: Repo, unit: string)
    requires OnBranch(home) && home.head == On(unit) && Valid(x)
    requires x.branches[unit := RecordOf(home, given)] == home.branches[unit := RecordOf(home, given)]
    requires BackAtTheRecord(back, x, unit, RecordOf(home, given)) && back.premerge == Some(RecordOf(home, given))
    requires back.ignored == home.ignored && back.elsewhere == home.elsewhere
    ensures back == Recorded(home, given) <==> RecordOf(home, given) == OwnTip(home, given) && BesideStayed(home, x)
  {
    var record := RecordOf(home, given);
    FirstStagesAreSafe(home, HeadCommit(home), given);
    FreshRecordIsOwn(home, given);
    RecordedIsMoved(home, given);
    RecordedFiles(home, given);
    RecordedTip(home, given);
    hide Recorded, Behind, Addable, OwnTip, RecordOf;
    if record == OwnTip(home, given) {
      if BesideStayed(home, x) {
        forall p
          ensures At(back.worktree, p) == At(home.worktree, p)
        {
          BackThere(home, back, x, unit, record, p);
        }
        SameTrees(back.worktree, home.worktree);
      }
      if back.worktree == home.worktree {
        forall p | p !in Addable(home)
          ensures LeftBeside(Abort(x), p) == At(home.worktree, p)
        {
        }
      }
    }
  }

  lemma RecordedTip(home: Repo, given: Given)
    requires OnBranch(home)
    ensures OnBranch(Recorded(home, given)) && HeadCommit(Recorded(home, given)) == OwnTip(home, given)
  {
    hide Behind, Addable;
    CommittingSettles(home, given);
  }

  lemma BackThere(home: Repo, back: Repo, x: Repo, unit: string, record: Commit, p: Path)
    requires Valid(x) && BackAtTheRecord(back, x, unit, record) && record.tree == Addable(home) && BesideStayed(home, x)
    ensures At(back.worktree, p) == At(home.worktree, p)
  {
    assert p in Addable(home) ==> Addable(home)[p] == home.worktree[p];
  }

  /** A merge stopped in a conflict, with any work and any further stops, then carried on by a command that
      was killed or refused, undone, and run again. Where the record is the first merge's own and the
      files beside it stayed, exactly then, the home is as the first merge recorded it; and the rerun is
      that merge begun again onto the target as it is, with nothing of the stopped rebase in it. */
  lemma ResumedRunsAgain(w: World, names: Names, given: Given, first: nat, events: seq<Event>, on: Given, lives: nat, b: Begun)
    requires Ready(w, names) && AnswersMergeBases(given.mergeBase)
    requires StaysStopped(Session(MergeCommand(w, names, given, first).world, None), names, events)
    requires
      var x := After(Session(MergeCommand(w, names, given, first).world, None), names, events).world;
      Able(x, names) && ResumedCutAt(x, names, on, lives, b) && b.reached >= 4
    ensures
      var x := After(Session(MergeCommand(w, names, given, first).world, None), names, events).world;
      var cut := MergeCommand(x, names, on, lives).world;
      && Able(cut, names)
      && var (back, record) := (TakeBack(cut, names, b), RecordOf(w.home, given));
      && (back.Some? <==> NothingInTheWay(Abort(cut.home), record))
      && (back.Some? ==>
            && Ready(back.value, names)
            && (back.value.home == Recorded(w.home, given)
                <==> record == OwnTip(w.home, given) && BesideStayed(w.home, cut.home)))
      && (back.Some? && back.value.home == Recorded(w.home, given) ==>
            && Ready(World(w.home, back.value.checkout), names)
            && forall more | more >= 3 ::
                 MergeCommand(back.value, names, given, more)
                 == MergeCommand(World(w.home, back.value.checkout), names, given, more))
  {
    FirstStagesAreSafe(w.home, Onto(w, names), given);
    FirstStop(w, names, given, first);
    hide MergeCommand, After, Recorded, Squashed, Behind, Addable, TakeBack, Abort, BesideStayed, RecordOf, OwnTip, ResumedCutAt, NothingInTheWay, StoppedFrom, AnswersMergeBases;
    var front := Squashed(Recorded(w.home, given), Onto(w, names), given).value;
    StoppedThroughout(Session(MergeCommand(w, names, given, first).world, None), names, events, front);
    var x := After(Session(MergeCommand(w, names, given, first).world, None), names, events).world;
    ResumedFromStop(w, names, given, front, x, on, lives, b);
  }

  lemma ResumedFromStop(w: World, names: Names, given: Given, front: Repo, x: World, on: Given, lives: nat, b: Begun)
    requires Ready(w, names) && Able(x, names) && Valid(front) && StoppedFrom(x.home, front)
    requires front.branches == w.home.branches[names.unit := HeadCommit(front)]
    requires front.premerge == Recorded(w.home, given).premerge
    requires front.ignored == w.home.ignored && front.elsewhere == w.home.elsewhere
    requires ResumedCutAt(x, names, on, lives, b) && b.reached >= 4
    ensures
      var cut := MergeCommand(x, names, on, lives).world;
      && Able(cut, names)
      && var (back, record) := (TakeBack(cut, names, b), RecordOf(w.home, given));
      && (back.Some? <==> NothingInTheWay(Abort(cut.home), record))
      && (back.Some? ==>
            && Ready(back.value, names)
            && (back.value.home == Recorded(w.home, given)
                <==> record == OwnTip(w.home, given) && BesideStayed(w.home, cut.home)))
      && (back.Some? && back.value.home == Recorded(w.home, given) ==>
            && Ready(World(w.home, back.value.checkout), names)
            && forall more | more >= 3 ::
                 MergeCommand(back.value, names, given, more)
                 == MergeCommand(World(w.home, back.value.checkout), names, given, more))
  {
    var cut := MergeCommand(x, names, on, lives).world;
    FirstStagesAreSafe(w.home, Onto(w, names), given);
    var record := RecordOf(w.home, given);
    assert x.home.rebase.Some? && x.home.premerge == Some(record);
    hide Recorded, Behind, MergeCommand, Addable, TakeBack, NothingInTheWay, BackAtTheRecord, BesideStayed, RecordOf, OwnTip, ResumedCutAt;
    ResumedIsTakenBackExactly(x, names, on, lives, b, record);
    var back := TakeBack(cut, names, b);
    if back.Some? {
      CarriedOnBranches(x, names, on, lives);
      BranchesAgain(w.home, front, x.home, cut.home, names.unit, record);
      TakenBackRest(cut, names, b);
      BackIsRecordedExactly(w.home, given, cut.home, back.value.home, names.unit);
      if back.value.home == Recorded(w.home, given) {
        RunsFromTheRecord(w, back.value, names, given);
      }
    }
  }

  lemma TakenBackRest(w: World, names: Names, b: Begun)
    requires Able(w, names) && b.resumed && TakeBack(w, names, b).Some?
    ensures
      var home := TakeBack(w, names, b).value.home;
      home.ignored == w.home.ignored && home.elsewhere == w.home.elsewhere
  {
    hide Behind, MayKeep;
  }

  lemma CarriedOnBranches(w: World, names: Names, given: Given, lives: nat)
    requires Able(w, names) && w.home.rebase.Some?
    ensures
      var x := MergeCommand(w, names, given, lives).world.home;
      && x.branches[names.unit := w.home.branches[names.unit]] == w.home.branches
      && x.ignored == w.home.ignored && x.elsewhere == w.home.elsewhere
  {
    RebaseEnds(w.home, Onto(w, names), given.replay);
    assert w.home.branches[names.unit := w.home.branches[names.unit]] == w.home.branches;
    hide Behind, Chain, CheckedOut, FastForward;
  }

  lemma BranchesAgain(home: Repo, front: Repo, stopped: Repo, x: Repo, unit: string, record: Commit)
    requires unit in home.branches && unit in front.branches && front.branches == home.branches[unit := front.branches[unit]]
    requires stopped.branches == front.branches && unit in stopped.branches
    requires x.branches[unit := stopped.branches[unit]] == stopped.branches
    ensures x.branches[unit := record] == home.branches[unit := record]
  {
    assert x.branches[unit := record] == x.branches[unit := stopped.branches[unit]][unit := record];
  }

  lemma RunsFromTheRecord(w: World, back: World, names: Names, given: Given)
    requires Ready(w, names) && Ready(back, names) && back.home == Recorded(w.home, given)
    ensures Ready(World(w.home, back.checkout), names)
    ensures forall more | more >= 3 ::
      MergeCommand(back, names, given, more) == MergeCommand(World(w.home, back.checkout), names, given, more)
  {
    var begun := World(w.home, back.checkout);
    StartingOver(w.home, w.home, given);
    EachIsBefore(w.home, given);
    StartingOver(w.home, back.home, given);
    hide Recorded, Merge, Behind;
    forall more: nat | more >= 3
      ensures MergeCommand(back, names, given, more) == MergeCommand(begun, names, given, more)
    {
      FromTheRecordOn(begun, back, names, given, more);
    }
  }
}
