/** One `nodal merge` over a home and the checkout it merges into: the stages in their order, or
    the rest of them where an earlier merge stopped in a conflict; and `nodal merge --abort`. */
module MergeRuns {
  import opened Wrappers
  import opened Commits
  import opened Repository
  import opened MergeStages

  /** The unit's home, and the checkout whose branch moves. */
  datatype World = World(home: Repo, checkout: Repo)

  /** The unit's branch in the home, and the branch of the checkout it merges into. */
  datatype Names = Names(unit: string, target: string)

  /** What the stages are given, and what Git answers them. */
  datatype Given = Given(message: string, mergeBase: (Commit, Commit) -> Option<Commit>, replay: Replay)

  datatype Ended = Killed | InConflict | Merged(moved: bool) | Refused(stage: nat)

  datatype Ran = Ran(world: World, ended: Ended)

  /** A merge is for the unit's branch: the one checked out, or the one of a rebase that stopped. */
  ghost predicate Able(w: World, names: Names) {
    && Valid(w.home) && Valid(w.checkout)
    && names.target in w.checkout.branches
    && BranchOf(w.home) == On(names.unit)
  }

  ghost predicate Ready(w: World, names: Names) {
    Able(w, names) && w.home.rebase.None?
  }

  /** `git merge-base` answers one whenever there is one. */
  ghost predicate AnswersMergeBases(mergeBase: (Commit, Commit) -> Option<Commit>) {
    forall a, b ::
      match mergeBase(a, b)
      case Some(m) => IsMergeBase(m, a, b)
      case None => forall m :: !IsMergeBase(m, a, b)
  }

  // The stages of the home, in order, each one write; a stage with nothing to do counts as one.

  function Onto(w: World, names: Names): Commit
    requires names.target in w.checkout.branches
  {
    w.checkout.branches[names.target]
  }

  function Added(home: Repo): Repo { home.(index := Addable(home)) }

  function Committed(home: Repo, given: Given): Repo
    requires Valid(home)
  {
    CommitAll(home, given.message).repo
  }

  function Squashed(home: Repo, onto: Commit, given: Given): Option<Repo>
    requires Valid(home)
  {
    match Squash(home, given.mergeBase(onto, HeadCommit(home)), given.message)
    case Some(made) => Some(made.repo)
    case None => None
  }

  /** One run: a merge that finds the home on its branch, killed after `lives` writes. */
  function Merge(w: World, names: Names, given: Given, lives: nat): Ran
    requires Ready(w, names)
  {
    var onto := Onto(w, names);
    if lives == 0 then Ran(w, Killed)
    else if lives == 1 then Ran(w.(home := Added(w.home)), Killed)
    else
      var committed := Committed(w.home, given);
      if lives == 2 then Ran(w.(home := committed), Killed)
      else
        var recorded := RecordPremerge(committed);
        if lives == 3 then Ran(w.(home := recorded), Killed)
        else
          match Squashed(recorded, onto, given)
          case None => Ran(w.(home := recorded), Refused(3))
          case Some(squashed) =>
            if lives == 4 then Ran(w.(home := squashed), Killed)
            else Integrate(w.(home := squashed), names, onto, given.replay, lives - 4)
  }

  /** The last two stages: rebase, and fast-forward the target to the branch. */
  function Integrate(w: World, names: Names, onto: Commit, replay: Replay, lives: nat): Ran
    requires Valid(w.home) && Valid(w.checkout)
  {
    if lives == 0 then Ran(w, Killed)
    else
      var rebased := Rebase(w.home, onto, replay);
      var next := w.(home := rebased.repo);
      match rebased.outcome
      case Failed => Ran(next, Refused(4))
      case Conflict => Ran(next, if lives <= 2 then Killed else InConflict)
      case Done =>
        if lives == 1 then Ran(next, Killed)
        else if names.unit !in rebased.repo.branches then Ran(next, Refused(5))
        else
          match FastForward(w.checkout, names.target, rebased.repo.branches[names.unit])
          case Already => Ran(next, if lives == 2 then Killed else Merged(false))
          case Moved(checkout) => Ran(next.(checkout := checkout), if lives == 2 then Killed else Merged(true))
          case _ => Ran(next, Refused(5))
  }

  /** The command: a home stopped in a conflict has the first stages behind it. */
  function MergeCommand(w: World, names: Names, given: Given, lives: nat): Ran
    requires Able(w, names)
  {
    if w.home.rebase.Some? then Integrate(w, names, Onto(w, names), given.replay, lives)
    else Merge(w, names, given, lives)
  }

  /** `nodal merge --abort`: the rebase stopped, and the branch at the recorded tip, whose record
      goes with it. None where no rebase is stopped, or the branch cannot be moved. */
  function AbortCommand(r: Repo, unit: string): Option<Repo>
    requires Valid(r)
  {
    if r.rebase.None? then None
    else
      var back := Abort(r);
      match back.premerge
      case None => Some(back)
      case Some(tip) =>
        match Restore(back, unit, tip)
        case None => None
        case Some(restored) => Some(restored.(premerge := None))
  }

  // The same on the repositories themselves.

  ghost function Now(home: Checkout, checkout: Checkout): World
    reads home, checkout
  {
    World(home.Now(), checkout.Now())
  }

  method RunMerge(home: Checkout, checkout: Checkout, names: Names, given: Given, lives: nat) returns (ended: Ended)
    requires home != checkout && Able(Now(home, checkout), names)
    modifies home, checkout
    ensures Ran(Now(home, checkout), ended) == MergeCommand(old(Now(home, checkout)), names, given, lives)
  {
    hide Behind, Count, Addable, Tidy, Rebase, Integrate, FastForward;
    var onto := checkout.branches[names.target];
    if home.rebase.Some? {
      ended := RunLast(home, checkout, names, onto, given.replay, lives);
      return;
    }
    if lives == 0 {
      return Killed;
    }
    if lives == 1 {
      home.AddEverything();
      return Killed;
    }
    var _ := home.CommitEverything(given.message);
    if lives == 2 {
      return Killed;
    }
    home.Record();
    if lives == 3 {
      return Killed;
    }
    var tip := home.Tip();
    var failed, _ := home.Fold(given.mergeBase(onto, tip), given.message);
    if failed {
      return Refused(3);
    }
    if lives == 4 {
      return Killed;
    }
    ended := RunLast(home, checkout, names, onto, given.replay, lives - 4);
  }

  method RunLast(home: Checkout, checkout: Checkout, names: Names, onto: Commit, replay: Replay, lives: nat)
    returns (ended: Ended)
    requires home != checkout && Valid(home.Now()) && Valid(checkout.Now())
    modifies home, checkout
    ensures Ran(Now(home, checkout), ended) == Integrate(old(Now(home, checkout)), names, onto, replay, lives)
  {
    if lives == 0 {
      return Killed;
    }
    var outcome := home.RebaseOnto(onto, replay);
    if outcome == Failed {
      return Refused(4);
    }
    if lives == 1 {
      return Killed;
    }
    if outcome == Conflict {
      return if lives == 2 then Killed else InConflict;
    }
    if names.unit !in home.branches {
      return Refused(5);
    }
    var answer := checkout.Forward(names.target, home.branches[names.unit]);
    match answer
    case Already => return if lives == 2 then Killed else Merged(false);
    case Moved(_) => return if lives == 2 then Killed else Merged(true);
    case _ => return Refused(5);
  }

  method RunAbort(home: Checkout, unit: string) returns (done: bool)
    requires Valid(home.Now())
    modifies home
    ensures AbortCommand(old(home.Now()), unit) == (if done then Some(home.Now()) else None)
    ensures !done ==> home.Now() == Abort(old(home.Now()))
  {
    if home.rebase.None? {
      return false;
    }
    home.Stop();
    if home.premerge.Some? {
      done := home.PutBack(unit, home.premerge.value);
      if !done {
        return;
      }
      home.premerge := None;
    }
    done := true;
  }
}
