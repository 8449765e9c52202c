/** Merges over any number of commands: one that was killed is undone by the next before that does anything,
    and one that a stage refused undoes itself. In between a person works, and others move the target. */
module MergeSessions {
  import opened Wrappers
  import opened Trees
  import opened Commits
  import opened Repository
  import opened MergeStages
  import opened MergeRuns
  import opened MergeProofs
  import opened MergeCommands
  import opened MergeTakenBack
  import Integration

  /** The two repositories, and the run the journal still holds open: one that was killed. */
  datatype Session = Session(world: World, open: Option<Begun>)

  /** What is left where an undo failed: the ones before it were done. */
  function Stuck(w: World, names: Names, b: Begun): World
    requires Valid(w.home) && Valid(w.checkout)
  {
    var checkout := if b.reached >= 5 then Restore(w.checkout, names.target, b.onto) else Some(w.checkout);
    match checkout
    case None => w
    case Some(restored) => World(if b.reached >= 4 then Abort(w.home) else w.home, restored)
  }

  function Resolve(w: World, names: Names, b: Begun): World
    requires Valid(w.home) && Valid(w.checkout)
  {
    TakeBack(w, names, b).GetOr(Stuck(w, names, b))
  }

  ghost predicate Sound(s: Session, names: Names) {
    && Able(s.world, names)
    && (s.open.Some? && !s.open.value.resumed && s.open.value.reached < 4 ==> s.world.home.rebase.None?)
  }

  /** Where a command starts: with nothing left open. */
  function Started(s: Session, names: Names): World
    requires Valid(s.world.home) && Valid(s.world.checkout)
  {
    match s.open case None => s.world case Some(b) => Resolve(s.world, names, b)
  }

  /** What the journal keeps of a command from its start. */
  function Journalled(w: World, names: Names, reached: nat): Begun
    requires Able(w, names)
  {
    Begun(w.home.rebase.Some?, w.home.branches[names.unit], Onto(w, names), reached)
  }

  /** A merge command from where it starts, killed after so many writes unless it ends before. */
  function Ending(w: World, names: Names, given: Given, lives: nat, marked: bool): Session
    requires Able(w, names)
  {
    var ran := MergeCommand(w, names, given, lives);
    OneCommand(w, names, given, lives);
    match ran.ended
    case Killed => Session(ran.world, Some(Journalled(w, names, Reached(w.home.rebase.Some?, lives, marked))))
    case Refused(stage) => Session(Resolve(ran.world, names, Journalled(w, names, stage)), None)
    case _ => Session(ran.world, None)
  }

  /** What happens: a merge command, an abort, a person's work in the home, or whatever else is done to
      the checkout. */
  datatype Event =
    | Command(given: Given, lives: nat, marked: bool)
    | GiveUp
    | Work(commits: seq<Pick>, index: Tree, worktree: Tree)
    | Outside(checkout: Repo)

  ghost function Next(s: Session, names: Names, e: Event): Session
    requires Sound(s, names)
  {
    StartedIsAble(s, names);
    match e
    case Command(given, lives, marked) => Ending(Started(s, names), names, given, lives, marked)
    case GiveUp =>
      var w := Started(s, names);
      Session(w.(home := AbortCommand(w.home, names.unit).GetOr(Abort(w.home))), None)
    case Work(commits, index, worktree) =>
      var home := s.world.home;
      s.(world := s.world.(home := HeadAt(home, Chain(HeadCommit(home), commits)).(index := index, worktree := worktree)))
    case Outside(checkout) =>
      if Valid(checkout) && names.target in checkout.branches then s.(world := s.world.(checkout := checkout)) else s
  }

  ghost function After(s: Session, names: Names, events: seq<Event>): Session
    decreases events
  {
    if events == [] || !Sound(s, names) then s else After(Next(s, names, events[0]), names, events[1..])
  }

  // Every step leaves a session a command may be given in.

  lemma RestoredIsAble(r: Repo, unit: string, tip: Commit)
    requires Valid(r) && r.head == On(unit) && r.rebase.None?
    ensures
      var back := Restore(r, unit, tip);
      back.Some? ==> OnBranch(back.value) && back.value.head == On(unit)
  {
    hide Behind, MayKeep;
  }

  lemma HomeIsAble(r: Repo, unit: string, b: Begun)
    requires Valid(r) && BranchOf(r) == On(unit)
    requires !b.resumed && b.reached < 4 ==> r.rebase.None?
    ensures
      var back := TakeBackHome(r, b);
      back.Some? ==> Valid(back.value) && BranchOf(back.value) == On(unit)
  {
    hide Behind, MoveBranch, Restore;
    if b.reached >= 4 {
      assert OnBranch(Abort(r)) && Abort(r).head == On(unit);
      if r.premerge.Some? {
        RestoredIsAble(Abort(r), unit, r.premerge.value);
      }
      if RestoreHead(Abort(r)).Some? && !b.resumed {
        FirstIsAble(RestoreHead(Abort(r)).value, unit, b);
      }
    } else if !b.resumed {
      FirstIsAble(r, unit, b);
    }
  }

  lemma FirstIsAble(r: Repo, unit: string, b: Begun)
    requires OnBranch(r) && r.head == On(unit)
    ensures
      var back := TakeBackFirst(r, b);
      back.Some? ==> OnBranch(back.value) && back.value.head == On(unit)
  {
    hide Behind, Restore;
    if r.premerge.Some? {
      RestoredIsAble(r, unit, r.premerge.value);
    }
  }

  /** After the undo the target is where the run found it, if the undo of the forward had to move it and
      could; otherwise where it was. */
  lemma ResolvedIsAble(w: World, names: Names, b: Begun)
    requires Able(w, names)
    requires !b.resumed && b.reached < 4 ==> w.home.rebase.None?
    ensures Able(Resolve(w, names, b), names)
    ensures Onto(Resolve(w, names, b), names)
      == if b.reached >= 5 && Restore(w.checkout, names.target, b.onto).Some? then b.onto else Onto(w, names)
  {
    HomeIsAble(w.home, names.unit, b);
    CheckoutIsAble(w.checkout, names.target, b.onto);
    hide Behind, Restore, TakeBackHome;
  }

  /** What an undo that fails leaves. If the target cannot be put back, everything as it was; if the branch of the
      home cannot, the target put back and the rebase stopped, with branches and record as they were. */
  lemma FailedUndoLeaves(w: World, names: Names, b: Begun)
    requires Able(w, names)
    requires !b.resumed && b.reached < 4 ==> w.home.rebase.None?
    ensures
      var (x, put) := (Resolve(w, names, b), Restore(w.checkout, names.target, b.onto));
      && (b.reached >= 5 && put.None? ==> x == w)
      && (!(b.reached >= 5 && put.None?) && TakeBackHome(w.home, b).None? ==>
            && x.checkout == (if b.reached >= 5 then put.value else w.checkout)
            && x.home.branches == w.home.branches && x.home.premerge == w.home.premerge
            && (b.reached < 4 || w.home.rebase.None? ==> x.home == w.home)
            && (b.reached >= 4 ==> x.home.rebase.None? && x.home.head == BranchOf(w.home)))
  {
    hide Behind, Restore, TakeBackHome, CheckedOut;
  }

  lemma CheckoutIsAble(r: Repo, target: string, to: Commit)
    requires Valid(r) && target in r.branches
    ensures
      var back := Restore(r, target, to);
      back.Some? ==> Valid(back.value) && target in back.value.branches && back.value.branches[target] == to
  {
    hide Behind, MayKeep;
  }

  lemma StartedIsAble(s: Session, names: Names)
    requires Sound(s, names)
    ensures Able(Started(s, names), names)
  {
    if s.open.Some? {
      ResolvedIsAble(s.world, names, s.open.value);
    }
  }

  /** A command that was killed or refused before its rebase has left none stopped. */
  lemma EndingIsSound(w: World, names: Names, given: Given, lives: nat, marked: bool)
    requires Able(w, names)
    ensures Sound(Ending(w, names, given, lives, marked), names)
  {
    var ran := MergeCommand(w, names, given, lives);
    OneCommand(w, names, given, lives);
    if w.home.rebase.None? {
      NoneStoppedBefore(w, names, given, lives, marked);
    }
    if ran.ended.Refused? {
      ResolvedIsAble(ran.world, names, Journalled(w, names, ran.ended.stage));
    }
    hide MergeCommand, Resolve, OnlyForwarded, Behind;
  }

  lemma NoneStoppedBefore(w: World, names: Names, given: Given, lives: nat, marked: bool)
    requires Ready(w, names)
    ensures
      var ran := Merge(w, names, given, lives);
      && (ran.ended.Killed? && Reached(false, lives, marked) < 4 ==> ran.world.home.rebase.None?)
      && (ran.ended.Refused? && ran.ended.stage < 4 ==> ran.world.home.rebase.None?)
  {
    FirstStagesAreSafe(w.home, Onto(w, names), given);
    HomeOfRun(w, names, given, lives);
    hide Rebase, FastForward, Behind, Count, Addable, Recorded, CommitAll;
  }

  lemma NextIsSound(s: Session, names: Names, e: Event)
    requires Sound(s, names)
    ensures Sound(Next(s, names, e), names)
  {
    StartedIsAble(s, names);
    match e
    case Command(given, lives, marked) => EndingIsSound(Started(s, names), names, given, lives, marked);
    case GiveUp => AbortKeepsAble(Started(s, names).home, names.unit);
    case Work(commits, _, _) => WorkIsAble(s.world.home, commits);
    case Outside(_) =>
  }

  lemma WorkIsAble(r: Repo, commits: seq<Pick>)
    requires Valid(r)
    ensures Valid(HeadAt(r, Chain(HeadCommit(r), commits)))
    ensures BranchOf(HeadAt(r, Chain(HeadCommit(r), commits))) == BranchOf(r) || BranchOf(r).Detached?
  {
    var at := HeadCommit(r);
    ChainIsOn(at, commits);
    if r.rebase.Some? {
      BehindIsTransitive(r.rebase.value.onto, at, Chain(at, commits));
    }
    hide Behind, Chain;
  }

  // The target.

  /** The target and what an open run would put it back to are over this commit. */
  ghost predicate Over(s: Session, names: Names, base: Commit)
    requires names.target in s.world.checkout.branches
  {
    && IsAncestor(base, Onto(s.world, names))
    && (s.open.Some? ==> IsAncestor(base, s.open.value.onto))
  }

  /** Nothing but merge commands moves the target. */
  predicate TargetIsOurs(events: seq<Event>) {
    forall i :: 0 <= i < |events| ==> !events[i].Outside?
  }

  lemma StartedIsOver(s: Session, names: Names, base: Commit)
    requires Sound(s, names) && Over(s, names, base)
    ensures Able(Started(s, names), names) && IsAncestor(base, Onto(Started(s, names), names))
  {
    StartedIsAble(s, names);
    if s.open.Some? {
      ResolvedIsAble(s.world, names, s.open.value);
    }
    hide Behind, Resolve;
  }

  lemma NextIsOver(s: Session, names: Names, e: Event, base: Commit)
    requires Sound(s, names) && Over(s, names, base) && !e.Outside?
    ensures Sound(Next(s, names, e), names) && Over(Next(s, names, e), names, base)
  {
    NextIsSound(s, names, e);
    if e.Command? || e.GiveUp? {
      StartedIsOver(s, names, base);
      if e.Command? {
        EndingIsOver(Started(s, names), names, e.given, e.lives, e.marked, base);
      }
    }
    hide Behind, Started, Ending;
  }

  lemma EndingIsOver(w: World, names: Names, given: Given, lives: nat, marked: bool, base: Commit)
    requires Able(w, names) && IsAncestor(base, Onto(w, names))
    ensures Sound(Ending(w, names, given, lives, marked), names)
    ensures Over(Ending(w, names, given, lives, marked), names, base)
  {
    var ran := MergeCommand(w, names, given, lives);
    OneCommand(w, names, given, lives);
    EndingIsSound(w, names, given, lives, marked);
    ItIsBehindItself(Onto(w, names));
    BehindIsTransitive(base, Onto(w, names), Onto(ran.world, names));
    if ran.ended.Refused? {
      if w.home.rebase.None? {
        NoneStoppedBefore(w, names, given, lives, marked);
      }
      ResolvedIsAble(ran.world, names, Journalled(w, names, ran.ended.stage));
    }
    hide MergeCommand, Resolve, Behind;
  }

  lemma {:induction false} AfterIsSound(s: Session, names: Names, events: seq<Event>, base: Commit)
    requires Sound(s, names)
    ensures Sound(After(s, names, events), names)
    ensures Over(s, names, base) && TargetIsOurs(events) ==> Over(After(s, names, events), names, base)
    decreases events
  {
    if events != [] {
      NextIsSound(s, names, events[0]);
      if Over(s, names, base) && TargetIsOurs(events) {
        NextIsOver(s, names, events[0], base);
        assert TargetIsOurs(events[1..]);
      }
      AfterIsSound(Next(s, names, events[0]), names, events[1..], base);
    }
  }

  /** From any session, through any mix of commands killed and undone by the next one, refused and undone,
      stopped in a conflict and carried on, given up, and a person's work: a command that ends merged
      leaves the target at the unit's tip with its old tip in that history, no other branch and no
      local change of the checkout touched, and a unit that reads as integrated whatever merging
      would answer. Where nobody else moves the target, it never loses a commit it had. */
  lemma AnyMixThatMerges(s: Session, names: Names, events: seq<Event>, given: Given, lives: nat, merging: Integration.Merged)
    requires Sound(s, names)
    ensures Sound(After(s, names, events), names) && Able(Started(After(s, names, events), names), names)
    ensures
      var x := Started(After(s, names, events), names);
      var ran := MergeCommand(x, names, given, lives);
      && Able(ran.world, names)
      && OnlyForwarded(x.checkout, ran.world.checkout, names.target)
      && (s.open.None? && TargetIsOurs(events) ==> IsAncestor(Onto(s.world, names), Onto(ran.world, names)))
      && (ran.ended.Merged? ==>
            && EndsMerged(x, names, ran)
            && Integration.StandingOf(Onto(ran.world, names), HeadCommit(ran.world.home), merging)
               == Integration.Standing(0, 0, Integration.Integrated(Integration.Ancestor)))
  {
    var base := Onto(s.world, names);
    AfterIsSound(s, names, events, base);
    var end := After(s, names, events);
    StartedIsAble(end, names);
    var x := Started(end, names);
    OneCommand(x, names, given, lives);
    var ran := MergeCommand(x, names, given, lives);
    ItIsBehindItself(base);
    ItIsBehindItself(Onto(x, names));
    if s.open.None? && TargetIsOurs(events) {
      StartedIsOver(end, names, base);
      BehindIsTransitive(base, Onto(x, names), Onto(ran.world, names));
    }
    if ran.ended.Merged? {
      ItIsBehindItself(Onto(ran.world, names));
      Integration.AncestorExactly(Onto(ran.world, names), HeadCommit(ran.world.home), merging);
    }
    hide MergeCommand, Behind, After, Started;
  }

  /** Where somebody else moved the target since a command was killed, undoing that command keeps it exactly
      when the fast-forward had not begun, or the checkout's own changes stand in the way, or the
      target was only moved back. */
  lemma UndoKeepsTheTargetExactly(w: World, names: Names, b: Begun)
    requires Able(w, names)
    requires !b.resumed && b.reached < 4 ==> w.home.rebase.None?
    ensures Able(Resolve(w, names, b), names)
    ensures IsAncestor(Onto(w, names), Onto(Resolve(w, names, b), names))
      <==> b.reached < 5 || Restore(w.checkout, names.target, b.onto).None? || IsAncestor(Onto(w, names), b.onto)
  {
    ResolvedIsAble(w, names, b);
    ItIsBehindItself(Onto(w, names));
    hide Resolve, Restore, Behind;
  }
}
