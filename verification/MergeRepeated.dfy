/** The stages of a merge are repeatable: begun anew on whatever a killed run left, with nothing undone
    in between, they go on to the same end. When that holds, exactly, and a run for which it does
    not. */
module MergeRepeated {
  import opened Wrappers
  import opened Commits
  import opened Repository
  import opened MergeRuns
  import opened MergeProofs
  import opened MergeCommands

  /** What is left by the stages begun over and over, each time cut after so many writes. */
  ghost function Repeated(w: World, names: Names, given: Given, cuts: seq<nat>): World
    decreases cuts
  {
    if cuts == [] || !Able(w, names) then w
    else Repeated(MergeCommand(w, names, given, cuts[0]).world, names, given, cuts[1..])
  }

  ghost predicate ShortOfTheRebase(w: World, names: Names, given: Given, x: World)
    requires Ready(w, names)
  {
    && x.checkout == w.checkout
    && (BeforeTheSquash(w.home, x.home, given)
        || Squashed(Recorded(w.home, given), Onto(w, names), given) == Some(x.home))
  }

  lemma ShortRunsOn(w: World, names: Names, given: Given, x: World, lives: nat)
    requires Ready(w, names) && AnswersMergeBases(given.mergeBase)
    requires ShortOfTheRebase(w, names, given, x)
    ensures Ready(x, names)
    ensures lives >= 5 ==> Merge(x, names, given, lives) == Merge(w, names, given, lives)
    ensures lives <= 4 ==> ShortOfTheRebase(w, names, given, Merge(x, names, given, lives).world)
  {
    var onto := Onto(w, names);
    FirstStagesAreSafe(w.home, onto, given);
    StartingOver(w.home, w.home, given);
    if BeforeTheSquash(w.home, x.home, given) {
      StartingOver(w.home, x.home, given);
      BeforeRunsTheSame(w, names, given, x, lives);
    } else {
      SquashingFolds(Recorded(w.home, given), onto, given);
      FoldedRunsOn(x, names, given, lives);
      hide Squashed, Behind, CommitAll, Integrate;
    }
  }

  lemma BeforeRunsTheSame(w: World, names: Names, given: Given, x: World, lives: nat)
    requires Ready(w, names) && Ready(x, names) && x.checkout == w.checkout
    requires Recorded(x.home, given) == Recorded(w.home, given)
    requires BeforeTheSquash(w.home, x.home, given)
    requires BeforeTheSquash(w.home, Added(x.home), given) && BeforeTheSquash(w.home, Committed(x.home, given), given)
    ensures lives >= 5 ==> Merge(x, names, given, lives) == Merge(w, names, given, lives)
    ensures lives <= 4 ==> ShortOfTheRebase(w, names, given, Merge(x, names, given, lives).world)
  {
    hide Squashed, Behind, CommitAll, Integrate, Added, Committed;
  }

  lemma {:induction false} ShortRunsStayShort(w: World, names: Names, given: Given, x: World, cuts: seq<nat>)
    requires Ready(w, names) && AnswersMergeBases(given.mergeBase) && ShortOfTheRebase(w, names, given, x)
    requires forall i :: 0 <= i < |cuts| ==> cuts[i] <= 4
    ensures ShortOfTheRebase(w, names, given, Repeated(x, names, given, cuts))
    decreases cuts
  {
    hide ShortOfTheRebase;
    if cuts != [] {
      ShortRunsOn(w, names, given, x, cuts[0]);
      ShortRunsStayShort(w, names, given, Merge(x, names, given, cuts[0]).world, cuts[1..]);
    }
  }

  /** Cut short of the rebase, however often, the stages then go on exactly as if they never had been:
      to the same end, merged, in a conflict or refused, and in the same state. */
  lemma CutShortOfTheRebase(w: World, names: Names, given: Given, cuts: seq<nat>, lives: nat)
    requires Ready(w, names) && AnswersMergeBases(given.mergeBase)
    requires forall i :: 0 <= i < |cuts| ==> cuts[i] <= 4
    requires lives >= 5
    ensures Able(Repeated(w, names, given, cuts), names)
    ensures MergeCommand(Repeated(w, names, given, cuts), names, given, lives) == MergeCommand(w, names, given, lives)
  {
    ShortRunsStayShort(w, names, given, w, cuts);
    ShortRunsOn(w, names, given, Repeated(w, names, given, cuts), lives);
  }

  /** After these cuts, the stages run to the end end merged and where an undisturbed run ends. */
  ghost predicate EndsAlike(w: World, names: Names, given: Given, cuts: seq<nat>, lives: nat)
    requires Able(w, names)
  {
    var x := Repeated(w, names, given, cuts);
    && Able(x, names)
    && MergeCommand(x, names, given, lives).ended.Merged?
    && MergeCommand(x, names, given, lives).world == MergeCommand(w, names, given, ENOUGH).world
  }

  lemma {:induction false} KilledRunsStayAlong(w: World, names: Names, given: Given, x: World, cuts: seq<nat>)
    requires Merges(w, names, given) && Along(w, names, given, x)
    ensures Along(w, names, given, Repeated(x, names, given, cuts))
    decreases cuts
  {
    hide Along, Merges, Merge;
    if cuts != [] {
      OneMoreRun(w, names, given, x, cuts[0]);
      KilledRunsStayAlong(w, names, given, Merge(x, names, given, cuts[0]).world, cuts[1..]);
    }
  }

  /** Cut anywhere, any number of times, the stages of a merge that would end merged end in the same
      state exactly when the rebase puts one commit on the target at most. */
  lemma StagesRepeatExactly(w: World, names: Names, given: Given)
    requires EndsUndisturbed(w, names, given)
    ensures Valid(Front(w, names, given))
    ensures (forall cuts, lives | lives >= ENOUGH :: EndsAlike(w, names, given, cuts, lives))
      <==> ReplaysOneAtMost(Front(w, names, given), Onto(w, names), given.replay)
  {
    MergesExactly(w, names, given);
    if Merges(w, names, given) {
      forall cuts: seq<nat>, lives: nat | lives >= ENOUGH
        ensures EndsAlike(w, names, given, cuts, lives)
      {
        KilledRunsStayAlong(w, names, given, w, cuts);
        OneMoreRun(w, names, given, Repeated(w, names, given, cuts), lives);
      }
    } else {
      CutAfterTheFirstRebase(w, names, given);
    }
  }

  lemma CutAfterTheFirstRebase(w: World, names: Names, given: Given)
    requires EndsUndisturbed(w, names, given)
    requires !Folded(Back(w, names, given), Onto(w, names), given)
    ensures !EndsAlike(w, names, given, [5], ENOUGH)
  {
    var x := w.(home := Back(w, names, given));
    RebasedHome(w, names, given);
    assert Repeated(w, names, given, [5]) == Repeated(x, names, given, []) == x;
    RerunOverTheTarget(x, names, given, ENOUGH);
    SquashOverTheTarget(x.home, Onto(w, names), given);
    hide Merge, Integrate, Behind, Recorded;
  }

  // A stopped rebase carried on.

  ghost predicate AlongResumed(w: World, names: Names, given: Given, x: World)
    requires Resumes(w, names, given)
  {
    x == w || x == w.(home := Resumed(w, given)) || x == MergeCommand(w, names, given, ENOUGH).world
  }

  lemma OneMoreResume(w: World, names: Names, given: Given, x: World, lives: nat)
    requires Resumes(w, names, given) && Folded(Resumed(w, given), Onto(w, names), given)
    requires AlongResumed(w, names, given, x)
    ensures Able(x, names)
    ensures AlongResumed(w, names, given, MergeCommand(x, names, given, lives).world)
    ensures lives >= ENOUGH ==>
      && MergeCommand(x, names, given, lives).ended.Merged?
      && MergeCommand(x, names, given, lives).world == MergeCommand(w, names, given, ENOUGH).world
  {
    ResumedRuns(w, names, given, lives);
    var end := MergeCommand(w, names, given, ENOUGH).world;
    if x == end {
      LevelRunsToNothing(end, names, given, lives);
    } else if x != w {
      FromResumed(w, names, given, lives);
    }
  }

  lemma FromResumed(w: World, names: Names, given: Given, lives: nat)
    requires Resumes(w, names, given) && Folded(Resumed(w, given), Onto(w, names), given)
    ensures Ready(w.(home := Resumed(w, given)), names)
    ensures
      var x := w.(home := Resumed(w, given));
      var ran := Merge(x, names, given, lives);
      && AlongResumed(w, names, given, ran.world)
      && (lives >= ENOUGH ==> ran.ended.Merged? && ran.world == MergeCommand(w, names, given, ENOUGH).world)
  {
    ResumedRuns(w, names, given, ENOUGH);
    var x := w.(home := Resumed(w, given));
    FoldedRunsOn(x, names, given, lives);
    if lives > 4 {
      OverItIsTheSame(w, names, given, lives - 4);
    }
  }

  lemma OverItIsTheSame(w: World, names: Names, given: Given, lives: nat)
    requires Resumes(w, names, given) && Ready(w.(home := Resumed(w, given)), names)
    requires IsAncestor(Onto(w, names), HeadCommit(Resumed(w, given)))
    ensures
      var x := w.(home := Resumed(w, given));
      var ran := Integrate(x, names, Onto(w, names), given.replay, lives);
      && AlongResumed(w, names, given, ran.world)
      && (lives >= 3 ==> ran.ended.Merged? && ran.world == MergeCommand(w, names, given, ENOUGH).world)
  {
    hide Resume, FastForward, Behind;
  }

  lemma {:induction false} KilledResumesStayAlong(w: World, names: Names, given: Given, x: World, cuts: seq<nat>)
    requires Resumes(w, names, given) && Folded(Resumed(w, given), Onto(w, names), given)
    requires AlongResumed(w, names, given, x)
    ensures AlongResumed(w, names, given, Repeated(x, names, given, cuts))
    decreases cuts
  {
    hide AlongResumed, Folded, Resumes;
    if cuts != [] {
      OneMoreResume(w, names, given, x, cuts[0]);
      KilledResumesStayAlong(w, names, given, MergeCommand(x, names, given, cuts[0]).world, cuts[1..]);
    }
  }

  /** Nothing is left for the first stages after a stopped rebase was carried on: the tip was on record,
      the branch is one commit over the target at most, and no file beside the rebase could be added. */
  ghost predicate LeavesNothing(w: World, names: Names, given: Given)
    requires Able(w, names) && given.replay.Finished?
  {
    && w.home.premerge.Some?
    && Count(Onto(w, names), ResumedTip(w, given)) < 2
    && NothingBeside(w.home, ResumedTip(w, given))
  }

  lemma ResumedIsFoldedExactly(w: World, names: Names, given: Given)
    requires Resumes(w, names, given)
    ensures given.replay.Finished?
    ensures Folded(Resumed(w, given), Onto(w, names), given) <==> LeavesNothing(w, names, given)
  {
    ResumedHome(w, names, given);
    ResumedRuns(w, names, given, ENOUGH);
    SquashOverTheTarget(Resumed(w, given), Onto(w, names), given);
    hide Resumed, ResumedTip, Squashed, Behind, Count, NothingBeside, AnswersMergeBases, Addable;
  }

  /** The stages of a merge that carries a stopped rebase on, cut anywhere, go on to the same end exactly
      when carrying it on leaves nothing for the first stages: begun anew they are no longer those
      of a resumed merge, and commit, record and fold what there is. */
  lemma ResumedStagesRepeatExactly(w: World, names: Names, given: Given)
    requires Resumes(w, names, given)
    ensures given.replay.Finished?
    ensures (forall cuts, lives | lives >= ENOUGH :: EndsAlike(w, names, given, cuts, lives))
      <==> LeavesNothing(w, names, given)
  {
    ResumedIsFoldedExactly(w, names, given);
    if LeavesNothing(w, names, given) {
      forall cuts: seq<nat>, lives: nat | lives >= ENOUGH
        ensures EndsAlike(w, names, given, cuts, lives)
      {
        KilledResumesStayAlong(w, names, given, w, cuts);
        OneMoreResume(w, names, given, Repeated(w, names, given, cuts), lives);
      }
    } else {
      CutAfterTheRebase(w, names, given);
    }
  }

  lemma CutAfterTheRebase(w: World, names: Names, given: Given)
    requires Resumes(w, names, given)
    requires !Folded(Resumed(w, given), Onto(w, names), given)
    ensures !EndsAlike(w, names, given, [1], ENOUGH)
  {
    ResumedRuns(w, names, given, 1);
    var x := w.(home := Resumed(w, given));
    assert Repeated(w, names, given, [1]) == Repeated(x, names, given, []) == x;
    RerunOverTheTarget(x, names, given, ENOUGH);
    SquashOverTheTarget(x.home, Onto(w, names), given);
    hide Merge, Integrate, Behind, Recorded;
  }
}
