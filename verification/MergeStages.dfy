/** What each stage of a merge keeps, and what a second run of it does. */
module MergeStages {
  import opened Wrappers
  import opened Trees
  import opened Commits
  import opened Repository

  // Commit.

  lemma AddingTwice(r: Repo, added: Repo)
    requires added.worktree == r.worktree && added.ignored == r.ignored && added.index == Addable(r)
    ensures Addable(added) == Addable(r)
  {
  }

  /** The commit holds exactly what could be added, on top of what was there; no working file
      moves; and a second run finds nothing to commit. */
  lemma CommitTakesTheWork(r: Repo, note: string, again: string)
    requires Valid(r)
    ensures
      var made := CommitAll(r, note);
      && Valid(made.repo)
      && made.repo.worktree == r.worktree
      && HeadCommit(made.repo).tree == Addable(r) && made.repo.index == Addable(r)
      && IsAncestor(HeadCommit(r), HeadCommit(made.repo))
      && (made.commit.None? <==> Addable(r) == HeadCommit(r).tree)
      && (made.commit.None? ==> HeadCommit(made.repo) == HeadCommit(r))
      && (made.commit.Some? ==> Count(HeadCommit(r), HeadCommit(made.repo)) == 1 && HeadCommit(made.repo).note == note)
      && CommitAll(made.repo, again) == Made(made.repo, None)
  {
    hide Behind, Count;
    var made := CommitAll(r, note);
    var tip := HeadCommit(r);
    if made.commit.Some? {
      OneOver(tip, made.commit.value);
    }
    AddingTwice(r, made.repo);
  }

  /** Taking the commit back restores branch and files; the index comes back as `HEAD` was,
      so everything is as it was exactly when nothing had been staged. */
  lemma TakingBackUndoesTheCommit(r: Repo, note: string)
    requires Valid(r)
    ensures
      var made := CommitAll(r, note);
      var back := Uncommit(made.repo, HeadCommit(r));
      && back == r.(index := HeadCommit(r).tree)
      && (back == r <==> r.index == HeadCommit(r).tree)
  {
  }

  // Squash.

  /** The one merge base after the squash is the commit it was folded onto. */
  lemma SquashedMergeBase(onto: Commit, base: Commit, folded: Commit, tip: Commit, m: Commit)
    requires IsMergeBase(base, onto, tip)
    requires folded.parents == [base]
    requires IsMergeBase(m, onto, folded)
    ensures Count(m, folded) < 2
  {
    OneOver(base, folded);
    BehindGrows(base, onto);
    if m in Behind(base) {
      assert base in Behind(onto) * Behind(folded);
      assert m == base;
    } else {
      assert m == folded;
      assert Behind(folded) - Behind(folded) == {};
    }
  }

  lemma BehindBoth(base: Commit, onto: Commit, tip: Commit)
    requires IsMergeBase(base, onto, tip)
    ensures IsAncestor(base, onto) && IsAncestor(base, tip)
  {
  }

  /** A squash changes no tree and no file, and leaves one commit over the merge base. */
  lemma SquashFoldsToOne(r: Repo, onto: Commit, base: Commit, note: string)
    requires Valid(r) && r.rebase.None? && IsMergeBase(base, onto, HeadCommit(r))
    ensures
      var made := Squash(r, Some(base), note).value;
      && Valid(made.repo)
      && HeadCommit(made.repo).tree == HeadCommit(r).tree
      && made.repo.index == r.index && made.repo.worktree == r.worktree
      && IsAncestor(base, HeadCommit(made.repo))
      && (made.commit.Some? <==> Count(base, HeadCommit(r)) >= 2)
      && (made.commit.Some? ==> Count(base, HeadCommit(made.repo)) == 1 && HeadCommit(made.repo).note == note)
  {
    hide Behind, Count;
    BehindBoth(base, onto, HeadCommit(r));
    OneOver(base, Commit([base], HeadCommit(r).tree, note));
  }

  /** A second squash finds nothing to fold, whichever merge base Git answers then. */
  lemma SquashedStaysSquashed(r: Repo, onto: Commit, base: Commit, note: string, later: Commit, again: string)
    requires Valid(r) && r.rebase.None? && IsMergeBase(base, onto, HeadCommit(r))
    requires Count(base, HeadCommit(r)) >= 2
    requires
      var made := Squash(r, Some(base), note).value;
      Valid(made.repo) && IsMergeBase(later, onto, HeadCommit(made.repo))
    ensures
      var made := Squash(r, Some(base), note).value;
      Squash(made.repo, Some(later), again) == Some(Made(made.repo, None))
  {
    hide Behind, Count, IsMergeBase;
    SquashedMergeBase(onto, base, Commit([base], HeadCommit(r).tree, note), HeadCommit(r), later);
  }

  // Rebase.

  lemma OneFewer<T>(low: set<T>, middle: set<T>, high: set<T>, x: T)
    requires middle == low + {x} && x !in low && middle <= high
    ensures |high - low| == |high - middle| + 1
  {
    assert high - low == (high - middle) + {x};
  }

  /** One commit more than from the next one up. */
  lemma CountedFrom(onto: Commit, next: Commit, tip: Commit)
    requires next.parents == [onto] && IsAncestor(next, tip)
    ensures IsAncestor(onto, tip) && Count(onto, tip) == Count(next, tip) + 1
  {
    hide Behind;
    OneOver(onto, next);
    BehindIsTransitive(onto, next, tip);
    BehindGrows(next, tip);
    OneFewer(Behind(onto), Behind(next), Behind(tip), next);
  }

  lemma {:induction false} ChainIsOn(onto: Commit, picks: seq<Pick>)
    ensures IsAncestor(onto, Chain(onto, picks))
    ensures Count(onto, Chain(onto, picks)) == |picks|
    decreases picks
  {
    if picks == [] {
      assert Behind(onto) - Behind(onto) == {};
    } else {
      var next := Commit([onto], picks[0].tree, picks[0].note);
      OneOver(onto, next);
      ChainIsOn(next, picks[1..]);
      hide Behind;
      CountedFrom(onto, next, Chain(onto, picks));
    }
  }

  /** What a rebase goes onto: the target, or what an earlier one that stopped was begun on. */
  function GoesOnto(r: Repo, onto: Commit): Commit {
    if r.rebase.Some? then r.rebase.value.onto else onto
  }

  /** The branch a rebase is about: the one checked out, or the one that was when it stopped. */
  function BranchOf(r: Repo): Head {
    if r.rebase.Some? then r.rebase.value.was else r.head
  }

  /** A rebase that is done left the branch on what it goes onto; one that stopped left every
      branch where it was; one that failed changed nothing. In each a valid repository. */
  lemma RebaseEnds(r: Repo, onto: Commit, replay: Replay)
    requires Valid(r)
    ensures
      var rebased := Rebase(r, onto, replay);
      && Valid(rebased.repo)
      && (rebased.outcome == Done ==>
            && rebased.repo.rebase.None? && IsAncestor(GoesOnto(r, onto), HeadCommit(rebased.repo))
            && (BranchOf(r).On? ==> rebased.repo.head == BranchOf(r)))
      && (rebased.outcome == Conflict ==>
            && rebased.repo.branches == r.branches && rebased.repo.rebase.Some?
            && rebased.repo.rebase.value == if r.rebase.Some? then r.rebase.value else Stopped(r.head, onto))
      && (rebased.outcome == Failed ==> rebased.repo == r && r.rebase.None?)
      && rebased.repo.premerge == r.premerge
  {
    hide Behind, Chain, CheckedOut, Tidy;
    match replay
    case CannotRun =>
    case Finished(picks) =>
      ChainIsOn(onto, picks);
      if r.rebase.Some? {
        ChainIsOn(HeadCommit(r), picks);
        BehindIsTransitive(r.rebase.value.onto, HeadCommit(r), Chain(HeadCommit(r), picks));
      }
    case Conflicts(picks, _, _) =>
      ChainIsOn(onto, picks);
      if r.rebase.Some? {
        ChainIsOn(HeadCommit(r), picks);
        BehindIsTransitive(r.rebase.value.onto, HeadCommit(r), Chain(HeadCommit(r), picks));
      }
  }

  /** Whether "done" says that the target is in the branch's history, for a rebase that stopped
      on its way onto `recorded`: whatever was committed since, and whatever Git replays. */
  ghost predicate DoneIsOnTheTarget(recorded: Commit, onto: Commit) {
    forall r, replay | Valid(r) && r.rebase.Some? && r.rebase.value.onto == recorded ::
      var rebased := Rebase(r, onto, replay);
      rebased.outcome == Done ==> Valid(rebased.repo) && IsAncestor(onto, HeadCommit(rebased.repo))
  }

  /** A rebase that stopped is carried on onto the commit it was begun on, not onto the target
      asked for now. Done means on the target exactly when the target is in that commit's history. */
  lemma DoneIsOnTheTargetExactly(recorded: Commit, onto: Commit)
    ensures DoneIsOnTheTarget(recorded, onto) <==> IsAncestor(onto, recorded)
  {
    if IsAncestor(onto, recorded) {
      forall r, replay | Valid(r) && r.rebase.Some? && r.rebase.value.onto == recorded
        ensures
          var rebased := Rebase(r, onto, replay);
          rebased.outcome == Done ==> Valid(rebased.repo) && IsAncestor(onto, HeadCommit(rebased.repo))
      {
        RebaseEnds(r, onto, replay);
        if Rebase(r, onto, replay).outcome == Done {
          BehindIsTransitive(onto, recorded, HeadCommit(Rebase(r, onto, replay).repo));
        }
      }
    } else {
      var r := Repo(map["unit" := recorded], Detached(recorded), map[], map[], {}, {},
        Some(Stopped(On("unit"), recorded)), None);
      assert Rebase(r, onto, Finished([])).outcome == Done;
      assert HeadCommit(Rebase(r, onto, Finished([])).repo) == recorded;
    }
  }

  /** After a rebase that is done a second one is nothing, whatever Git would answer, exactly
      when the target is in the branch's history. */
  lemma RebasedStaysRebased(r: Repo, onto: Commit, replay: Replay)
    requires Valid(r) && Rebase(r, onto, replay).outcome == Done
    ensures
      var rebased := Rebase(r, onto, replay);
      && Valid(rebased.repo)
      && ((forall again :: Rebase(rebased.repo, onto, again) == rebased) <==> IsAncestor(onto, HeadCommit(rebased.repo)))
  {
    RebaseEnds(r, onto, replay);
    hide Behind, Chain, CheckedOut, Tidy;
    var rebased := Rebase(r, onto, replay);
    if !IsAncestor(onto, HeadCommit(rebased.repo)) {
      assert Rebase(rebased.repo, onto, CannotRun).outcome == Failed;
    }
  }

  /** A rebase of `r` that has stopped, however often it was carried on since and whatever was
      done to the files meanwhile. */
  ghost predicate StoppedFrom(x: Repo, r: Repo)
    requires Valid(r)
  {
    && Valid(x) && x.rebase.Some? && r.rebase.None?
    && x.rebase.value.was == r.head && x.branches == r.branches && x.premerge == r.premerge
    && x.ignored == r.ignored && x.elsewhere == r.elsewhere
    && r.index == HeadCommit(r).tree
  }

  /** A rebase that stops, is carried on and stops again is still the one begun on `r`. */
  lemma StoppingAgain(r: Repo, x: Repo, onto: Commit, replay: Replay)
    requires Valid(r) && r.rebase.None? && (x == r || StoppedFrom(x, r))
    ensures Valid(Rebase(x, onto, replay).repo)
    ensures Rebase(x, onto, replay).outcome == Conflict ==> StoppedFrom(Rebase(x, onto, replay).repo, r)
    ensures StoppedFrom(x, r) ==> Rebase(x, onto, replay).outcome != Failed
  {
    RebaseEnds(x, onto, replay);
  }

  /** Stopping a rebase puts the branch and every committed file back, however often it was
      carried on and stopped again; the other files are the ones no stop had made its own. */
  lemma AbortUndoesTheRebase(r: Repo, x: Repo)
    requires Valid(r) && StoppedFrom(x, r)
    ensures
      var back := Abort(x);
      && back == r.(worktree := back.worktree)
      && (forall p :: p in r.index ==> At(back.worktree, p) == Some(r.index[p]))
      && (forall p :: p !in r.index ==> At(back.worktree, p) == if p in x.index then None else At(x.worktree, p))
  {
  }

  // Fast-forward.

  predicate LocallyChanged(r: Repo, p: Path)
    requires Valid(r)
  {
    At(r.worktree, p) != At(HeadCommit(r).tree, p)
  }

  /** The branch moves exactly when it is behind the commit and nothing local is in the way;
      then its old tip is in the new one's history, no other branch moves, and no local
      change of a working file is lost. Otherwise nothing moves. */
  lemma ForwardNeverRewrites(r: Repo, branch: string, to: Commit)
    requires Valid(r)
    ensures
      var answer := FastForward(r, branch, to);
      && (answer.Moved? <==>
            && branch in r.branches && r.branches[branch] != to && IsAncestor(r.branches[branch], to)
            && (if r.head == On(branch) then MayKeep(r, to)
                else branch !in r.elsewhere && !(r.rebase.Some? && r.rebase.value.was == On(branch))))
      && (answer.Moved? ==>
            && Valid(answer.repo)
            && answer.repo.branches == r.branches[branch := to]
            && answer.repo.head == r.head && answer.repo.rebase == r.rebase
            && (forall p :: LocallyChanged(r, p) ==> At(answer.repo.worktree, p) == At(r.worktree, p))
            && (r.head == On(branch) ==> forall p :: !LocallyChanged(r, p) ==> At(answer.repo.worktree, p) == At(to.tree, p))
            && (r.head != On(branch) ==> answer.repo.worktree == r.worktree && answer.repo.index == r.index))
  {
    var answer := FastForward(r, branch, to);
    if answer.Moved? && r.head == On(branch) {
      KeepingKeepsLocalChanges(r, to);
    }
  }

  /** Why it does not move: the branch is not there, is there already, has moved elsewhere, or may not be moved. */
  lemma ForwardAnswersExactly(r: Repo, branch: string, to: Commit)
    requires Valid(r)
    ensures
      var answer := FastForward(r, branch, to);
      && (answer == UnknownBranch <==> branch !in r.branches)
      && (answer == Already <==> branch in r.branches && r.branches[branch] == to)
      && (answer.TargetMoved? <==> branch in r.branches && !IsAncestor(r.branches[branch], to))
      && (answer.TargetMoved? ==> answer.found == r.branches[branch])
      && (answer == CannotMove <==>
            && branch in r.branches && r.branches[branch] != to && IsAncestor(r.branches[branch], to)
            && !(if r.head == On(branch) then MayKeep(r, to)
                 else branch !in r.elsewhere && !(r.rebase.Some? && r.rebase.value.was == On(branch))))
  {
    ForwardNeverRewrites(r, branch, to);
    hide MayKeep, LocallyChanged;
  }

  lemma KeepingKeepsLocalChanges(r: Repo, to: Commit)
    requires Valid(r) && MayKeep(r, to)
    ensures forall p :: LocallyChanged(r, p) ==> At(Kept(r, to).worktree, p) == At(r.worktree, p)
    ensures forall p :: !LocallyChanged(r, p) ==> At(Kept(r, to).worktree, p) == At(to.tree, p)
    ensures r.rebase.None? || r.head.Detached?
  {
  }

  /** Putting the branch back after a fast-forward undoes it: every working file comes back, and
      the index too exactly when nothing had been staged. */
  lemma RestoreUndoesTheForward(r: Repo, branch: string, to: Commit)
    requires Valid(r)
    requires FastForward(r, branch, to).Moved?
    ensures Valid(FastForward(r, branch, to).repo)
    ensures
      var forwarded := FastForward(r, branch, to).repo;
      var back := Restore(forwarded, branch, r.branches[branch]);
      && back.Some?
      && (r.head == On(branch) ==> back.value == r.(index := HeadCommit(r).tree))
      && (r.head != On(branch) ==> back.value == r)
      && (back.value == r <==> (r.head == On(branch) ==> r.index == HeadCommit(r).tree))
  {
    var at := r.branches[branch];
    assert r.branches[branch := to][branch := at] == r.branches;
    if r.head == On(branch) {
      KeptComesBack(r, to);
    }
    hide Kept, MayKeep, IsAncestor;
  }

  lemma KeptComesBack(r: Repo, to: Commit)
    requires Valid(r) && r.head.On? && MayKeep(r, to)
    ensures Valid(Kept(r, to))
    ensures MayKeep(Kept(r, to), HeadCommit(r))
    ensures Kept(Kept(r, to), HeadCommit(r)) == r.(index := HeadCommit(r).tree)
  {
    var at, forwarded := HeadCommit(r), Kept(r, to);
    var changed := set p | p in at.tree.Keys + to.tree.Keys && At(at.tree, p) != At(to.tree, p);
    assert changed == set p | p in to.tree.Keys + at.tree.Keys && At(to.tree, p) != At(at.tree, p);
    forall p | p in changed
      ensures At(forwarded.worktree, p) == At(to.tree, p)
    {
    }
    forall p
      ensures At(Kept(forwarded, at).worktree, p) == At(r.worktree, p)
    {
    }
    SameTrees(Kept(forwarded, at).worktree, r.worktree);
    assert r.branches[r.head.branch := to][r.head.branch := at] == r.branches;
  }

  // Putting a branch back.

  /** No file Git tracks nothing of stands where the commit has one. */
  ghost predicate NothingInTheWay(r: Repo, to: Commit) {
    forall p :: p in to.tree && p !in r.index ==> p !in r.worktree
  }

  /** With nothing changed locally a branch is put back at any commit exactly when nothing stands
      in the way: its files are then that commit's, and no other file changes. */
  lemma PuttingBackExactly(r: Repo, branch: string, to: Commit)
    requires Valid(r) && r.head == On(branch) && Tidy(r)
    ensures
      var back := Restore(r, branch, to);
      && (back.Some? <==> NothingInTheWay(r, to))
      && (back.Some? ==>
            && Valid(back.value)
            && back.value == r.(branches := r.branches[branch := to], index := to.tree, worktree := back.value.worktree)
            && forall p :: At(back.value.worktree, p)
                 == if p in to.tree then Some(to.tree[p]) else if p in r.index then None else At(r.worktree, p))
  {
    if r.branches[branch] == to {
      assert r.branches[branch := to] == r.branches;
    } else {
      MayKeepExactly(r, to);
    }
    hide Behind;
  }

  lemma MayKeepExactly(r: Repo, to: Commit)
    requires Valid(r) && Tidy(r)
    ensures MayKeep(r, to) <==> NothingInTheWay(r, to)
  {
    var at := HeadCommit(r).tree;
    if MayKeep(r, to) {
      forall p | p in to.tree && p !in r.index
        ensures p !in r.worktree
      {
        assert p in at.Keys + to.tree.Keys && At(at, p) != At(to.tree, p);
      }
    }
  }
}
