/** Carrying work is exact and resumable: a run killed between any two of its writes, however
    often, leaves a repository from which one undisturbed run reaches the same state. */
module CarryProofs {
  import opened Wrappers
  import opened Trees
  import opened Carry

  // What a carry promises.

  /** A checkout of the commit the work is against; other files may stand beside it. */
  ghost predicate CleanAt(home: State, head: Tree) {
    && home.index == head
    && home.patchFile.None?
    && forall p :: p in head ==> At(home.worktree, p) == Some(head[p])
  }

  ghost predicate NoCollision(home: State, source: Tree, untracked: seq<Path>) {
    forall p :: p in untracked ==> !Collides(source, home.worktree, p)
  }

  /** No file stands where the staged patch adds one. */
  ghost predicate RoomForAdditions(home: State, work: Work) {
    forall p :: p in work.staged && work.staged[p].before.None? ==> p !in home.worktree
  }

  /** What must stand at a path once `source`'s work is carried into `home`. */
  function Wanted(home: State, source: Source, untracked: seq<Path>, p: Path): Option<File> {
    if p in source.index || p in untracked then At(source.worktree, p)
    else if p in source.head then None
    else At(home.worktree, p)
  }

  /** The source's index, its tracked and untracked files as they stand there, every other
      file of the home as it was, and no patch file left behind. */
  ghost predicate Delivered(s: State, home: State, source: Source, untracked: seq<Path>) {
    && s.index == source.index
    && s.patchFile.None?
    && forall p :: At(s.worktree, p) == Wanted(home, source, untracked, p)
  }

  // The states a run passes through.

  function Staged1(home: State, work: Work): Tree { Applied(work.staged, home.worktree) }

  function Staged2(home: State, work: Work): Tree { Applied(work.unstaged, Staged1(home, work)) }

  /** `t` with the paths of `done` as they stand in `source`. */
  function Over(t: Tree, source: Tree, done: set<Path>): Tree
    requires done <= source.Keys
  {
    map p | p in t.Keys + done :: if p in done then source[p] else t[p]
  }

  /** A repository as the carry finds it, with work to put in that nothing there prevents. */
  ghost predicate Ready(home: State, work: Work, source: Source) {
    && IsWorkOf(work, source)
    && CleanAt(home, source.head)
    && NoCollision(home, source.worktree, work.untracked)
    && RoomForAdditions(home, work)
  }

  ghost predicate Copied(home: State, work: Work, source: Source, done: set<Path>, t: Tree) {
    && done <= source.worktree.Keys
    && (forall p :: p in done ==> p in work.untracked)
    && t == Over(Staged2(home, work), source.worktree, done)
  }

  /** Everything a killed run may leave behind it, the patch file aside. */
  ghost predicate Between(home: State, work: Work, source: Source, s: State) {
    && (s.patchFile.Some? ==> work.staged != map[] || work.unstaged != map[])
    && ((s.index == source.head && s.worktree == home.worktree) || PastTheStaged(home, work, source, s.index, s.worktree))
  }

  ghost predicate PastTheStaged(home: State, work: Work, source: Source, index: Tree, worktree: Tree) {
    && index == source.index
    && (worktree == Staged1(home, work) || PastThePatches(home, work, source, worktree))
  }

  ghost predicate PastThePatches(home: State, work: Work, source: Source, worktree: Tree) {
    exists done :: Copied(home, work, source, done, worktree)
  }

  // The two patches.

  lemma StagedReachesTheIndex(work: Work, source: Source)
    requires IsWorkOf(work, source)
    ensures Applies(work.staged, source.head)
    ensures Applied(work.staged, source.head) == source.index
    ensures AlreadyApplied(work.staged, source.index)
    ensures AlreadyApplied(work.staged, source.head) ==> work.staged == map[]
  {
    var there := Applied(work.staged, source.head);
    forall p
      ensures At(there, p) == At(source.index, p)
    {
    }
    SameTrees(there, source.index);
    if AlreadyApplied(work.staged, source.head) {
      forall p
        ensures p !in work.staged
      {
      }
    }
  }

  /** After the staged patch the working tree holds the source's index. */
  lemma StagedReachesTheWorktree(home: State, work: Work, source: Source)
    requires Ready(home, work, source)
    ensures Applies(work.staged, home.worktree)
    ensures forall p :: p in source.index ==> At(Staged1(home, work), p) == Some(source.index[p])
    ensures Applies(work.unstaged, Staged1(home, work))
    ensures AlreadyApplied(work.unstaged, Staged1(home, work)) ==> work.unstaged == map[]
  {
    forall p | p in work.staged
      ensures At(home.worktree, p) == work.staged[p].before
    {
      assert work.staged[p] == Change(At(source.head, p), At(source.index, p));
    }
    forall p | p in source.index
      ensures At(Staged1(home, work), p) == Some(source.index[p])
    {
      assert p !in work.staged ==> At(source.head, p) == At(source.index, p);
    }
    if AlreadyApplied(work.unstaged, Staged1(home, work)) {
      forall p
        ensures p !in work.unstaged
      {
      }
    }
  }

  /** Untracked paths never meet the unstaged patch. */
  lemma UnstagedSurvivesCopying(home: State, work: Work, source: Source, done: set<Path>)
    requires Ready(home, work, source)
    requires done <= source.worktree.Keys && forall p :: p in done ==> p in work.untracked
    ensures AlreadyApplied(work.unstaged, Over(Staged2(home, work), source.worktree, done))
  {
  }

  /** With every untracked path copied, what stands is what was wanted. */
  lemma AllCopiedIsDelivered(home: State, work: Work, source: Source, s: State)
    requires Ready(home, work, source)
    requires s.index == source.index && s.patchFile.None?
    requires (set p | p in work.untracked) <= source.worktree.Keys
    requires s.worktree == Over(Staged2(home, work), source.worktree, set p | p in work.untracked)
    ensures Delivered(s, home, source, work.untracked)
  {
    forall p
      ensures At(s.worktree, p) == Wanted(home, source, work.untracked, p)
    {
      if p !in work.untracked {
        TrackedIsDelivered(home, work, source, p);
        hide *;
      }
    }
  }

  lemma TrackedIsDelivered(home: State, work: Work, source: Source, p: Path)
    requires Ready(home, work, source) && p !in work.untracked
    ensures At(Staged2(home, work), p) == Wanted(home, source, work.untracked, p)
  {
    StagedReachesTheWorktree(home, work, source);
    if p in source.index {
      assert At(Staged1(home, work), p) == Some(source.index[p]);
      if p in work.unstaged {
        assert work.unstaged[p].after == At(source.worktree, p);
      }
    } else if p in source.head {
      assert p in work.staged && work.staged[p].after == None;
      assert p !in work.unstaged;
    } else {
      assert p !in work.staged && p !in work.unstaged;
    }
  }

  // Collisions.

  lemma {:induction false} FirstCollisionFindsOne(source: Tree, worktree: Tree, untracked: seq<Path>)
    ensures FirstCollision(source, worktree, untracked).None?
       <==> forall p :: p in untracked ==> !Collides(source, worktree, p)
  {
    if untracked != [] {
      FirstCollisionFindsOne(source, worktree, untracked[1..]);
      assert untracked == [untracked[0]] + untracked[1..];
    }
  }

  /** What a killed run copied is no collision for the next. */
  lemma NothingCollidesLater(home: State, work: Work, source: Source, s: State)
    requires Ready(home, work, source) && Between(home, work, source, s)
    ensures forall p :: p in work.untracked ==> !Collides(source.worktree, s.worktree, p)
  {
    forall p | p in work.untracked
      ensures !Collides(source.worktree, s.worktree, p)
    {
      assert p !in source.index && p !in work.unstaged;
      assert p in work.staged ==> work.staged[p].after.None?;
      assert !Collides(source.worktree, home.worktree, p);
    }
  }

  // The three steps, from whatever a killed run left.

  /** The staged patch: applied once, and recognised ever after. */
  lemma StagedStep(home: State, work: Work, source: Source, s: State, left: nat)
    requires Ready(home, work, source) && Between(home, work, source, s)
    ensures StepsOn(home, work, source, ApplyPatch(s, work.staged, Staged, left), left)
    ensures
      var r := ApplyPatch(s, work.staged, Staged, left);
      r.outcome == Done ==>
        && PastTheStaged(home, work, source, r.state.index, r.state.worktree)
        && (r.state.patchFile.Some? ==> work.unstaged != map[])
  {
    hide Ready, PastThePatches, Applied, Applies, AlreadyApplied, Staged1, IsWorkOf;
    StagedIsRecognised(home, work, source);
  }

  lemma StagedIsRecognised(home: State, work: Work, source: Source)
    requires Ready(home, work, source)
    ensures Applies(work.staged, source.head) && Applied(work.staged, source.head) == source.index
    ensures Applies(work.staged, home.worktree) && Applied(work.staged, home.worktree) == Staged1(home, work)
    ensures AlreadyApplied(work.staged, source.index)
    ensures AlreadyApplied(work.staged, source.head) ==> work.staged == map[]
    ensures work.staged == map[] ==> source.head == source.index && Staged1(home, work) == home.worktree
  {
    StagedReachesTheIndex(work, source);
    StagedReachesTheWorktree(home, work, source);
    if work.staged == map[] {
      assert Applied(map[], source.head) == source.head;
      assert Staged1(home, work) == home.worktree;
    }
  }

  /** What each patch costs: at most three writes, and never a refusal. */
  ghost predicate StepsOn(home: State, work: Work, source: Source, r: Step, left: nat) {
    && Between(home, work, source, r.state)
    && (r.outcome == Done || r.outcome == Killed)
    && (left >= 3 ==> r.outcome == Done)
    && (r.outcome == Done ==> r.left + 3 >= left)
  }

  /** The unstaged patch: it finds the index's content, and is recognised under any number of copies. */
  lemma UnstagedStep(home: State, work: Work, source: Source, s: State, left: nat)
    requires Ready(home, work, source) && Between(home, work, source, s)
    requires PastTheStaged(home, work, source, s.index, s.worktree)
    requires s.patchFile.Some? ==> work.unstaged != map[]
    ensures StepsOn(home, work, source, ApplyPatch(s, work.unstaged, Unstaged, left), left)
    ensures
      var r := ApplyPatch(s, work.unstaged, Unstaged, left);
      && r.state.index == source.index
      && (r.outcome == Done ==> r.state.patchFile.None? && PastThePatches(home, work, source, r.state.worktree))
  {
    hide Ready, PastThePatches, Applied, Applies, AlreadyApplied, Staged1, Staged2, IsWorkOf;
    UnstagedIsRecognised(home, work, source, s.worktree);
  }

  lemma UnstagedIsRecognised(home: State, work: Work, source: Source, worktree: Tree)
    requires Ready(home, work, source)
    ensures PastThePatches(home, work, source, Applied(work.unstaged, Staged1(home, work)))
    ensures PastThePatches(home, work, source, Staged2(home, work))
    ensures work.unstaged == map[] ==> Staged2(home, work) == Staged1(home, work)
    ensures PastThePatches(home, work, source, worktree) ==> AlreadyApplied(work.unstaged, worktree)
    ensures Applies(work.unstaged, Staged1(home, work))
    ensures AlreadyApplied(work.unstaged, Staged1(home, work)) ==> work.unstaged == map[]
  {
    StagedReachesTheWorktree(home, work, source);
    CopiedIsRecognised(home, work, source, worktree);
    hide Ready, Applies, AlreadyApplied, IsWorkOf;
    NothingCopied(home, work, source);
    if work.unstaged == map[] {
      assert Staged2(home, work) == Staged1(home, work);
    }
  }

  lemma NothingCopied(home: State, work: Work, source: Source)
    ensures PastThePatches(home, work, source, Staged2(home, work))
  {
    hide Staged2;
    var t := Staged2(home, work);
    assert Over(t, source.worktree, {}) == t;
    assert Copied(home, work, source, {}, t);
  }

  lemma CopiedIsRecognised(home: State, work: Work, source: Source, worktree: Tree)
    requires Ready(home, work, source)
    ensures PastThePatches(home, work, source, worktree) ==> AlreadyApplied(work.unstaged, worktree)
  {
    if PastThePatches(home, work, source, worktree) {
      var done :| Copied(home, work, source, done, worktree);
      hide Ready, Staged2, AlreadyApplied;
      UnstagedSurvivesCopying(home, work, source, done);
    }
  }

  lemma CopyOne(home: State, work: Work, source: Source, done: set<Path>, t: Tree, p: Path)
    requires Copied(home, work, source, done, t)
    requires p in work.untracked && p in source.worktree && !Collides(source.worktree, t, p)
    ensures Placed(t, p, source.worktree[p]) == t[p := source.worktree[p]]
    ensures Copied(home, work, source, done + {p}, t[p := source.worktree[p]])
    ensures forall q :: Collides(source.worktree, t[p := source.worktree[p]], q) ==> Collides(source.worktree, t, q)
  {
    hide Staged2;
    assert t[p := source.worktree[p]] == Over(Staged2(home, work), source.worktree, done + {p});
  }

  /** Copying: each write adds one path, and a path already there is itself. */
  lemma {:induction false} CopyStep(home: State, work: Work, source: Source, s: State, untracked: seq<Path>,
                                    done: set<Path>, left: nat)
    requires Ready(home, work, source)
    requires s.index == source.index && Copied(home, work, source, done, s.worktree)
    requires forall p :: p in untracked ==> p in work.untracked && p in source.worktree
    requires forall p :: p in work.untracked ==> !Collides(source.worktree, s.worktree, p)
    ensures
      var r := PlaceAll(s, source.worktree, untracked, left);
      && r.state.index == s.index && r.state.patchFile == s.patchFile
      && PastThePatches(home, work, source, r.state.worktree)
      && r.outcome == (if left >= |untracked| then Done else Killed)
      && (r.outcome == Done ==> Copied(home, work, source, done + (set p | p in untracked), r.state.worktree))
    decreases untracked
  {
    hide Ready, Copied, Collides, Placed;
    if untracked == [] {
      assert done + (set p | p in untracked) == done;
    } else if left > 0 {
      var p, rest := untracked[0], untracked[1..];
      assert untracked == [p] + rest;
      var placed := Placed(s.worktree, p, source.worktree[p]);
      CopyOne(home, work, source, done, s.worktree, p);
      CopyStep(home, work, source, s.(worktree := placed), rest, done + {p}, left - 1);
      assert done + {p} + (set q | q in rest) == done + set q | q in untracked;
    }
  }

  // Whole runs.

  /** Enough writes for a run to finish, whatever it finds. */
  function Enough(work: Work): nat { 6 + |work.untracked| }

  /** One run from anything a killed run left: it is killed again or it delivers. */
  lemma RunDelivers(home: State, work: Work, source: Source, s: State, left: nat)
    requires Ready(home, work, source) && Between(home, work, source, s)
    ensures
      var r := Run(s, work, source.worktree, left);
      && Between(home, work, source, r.state)
      && (r.outcome == Done || r.outcome == Killed)
      && (left >= Enough(work) ==> r.outcome == Done)
      && (r.outcome == Done ==> Delivered(r.state, home, source, work.untracked))
  {
    NothingCollidesLater(home, work, source, s);
    FirstCollisionFindsOne(source.worktree, s.worktree, work.untracked);
    hide ApplyPatch, PlaceAll, Delivered, Collides, IsWorkOf, Staged1, Staged2;
    StagedStep(home, work, source, s, left);
    var staged := ApplyPatch(s, work.staged, Staged, left);
    if staged.outcome == Done {
      UnstagedStep(home, work, source, staged.state, staged.left);
      var unstaged := ApplyPatch(staged.state, work.unstaged, Unstaged, staged.left);
      if unstaged.outcome == Done {
        NothingCollidesLater(home, work, source, unstaged.state);
        var done :| Copied(home, work, source, done, unstaged.state.worktree);
        CopyStep(home, work, source, unstaged.state, work.untracked, done, unstaged.left);
        var r := PlaceAll(unstaged.state, source.worktree, work.untracked, unstaged.left);
        if r.outcome == Done {
          assert done + (set p | p in work.untracked) == set p | p in work.untracked;
          AllCopiedIsDelivered(home, work, source, r.state);
        }
      }
    }
  }

  /** The repository after run upon run, each killed after so many writes. */
  function After(s: State, work: Work, source: Tree, lives: seq<nat>): State
    requires forall p :: p in work.untracked ==> p in source
    decreases lives
  {
    if lives == [] then s else After(Run(s, work, source, lives[0]).state, work, source, lives[1..])
  }

  lemma {:induction false} KilledRunsStayBetween(home: State, work: Work, source: Source, s: State, lives: seq<nat>)
    requires Ready(home, work, source) && Between(home, work, source, s)
    ensures Between(home, work, source, After(s, work, source.worktree, lives))
    decreases lives
  {
    if lives != [] {
      RunDelivers(home, work, source, s, lives[0]);
      KilledRunsStayBetween(home, work, source, Run(s, work, source.worktree, lives[0]).state, lives[1..]);
    }
  }

  lemma DeliveredIsOne(a: State, b: State, home: State, source: Source, untracked: seq<Path>)
    requires Delivered(a, home, source, untracked) && Delivered(b, home, source, untracked)
    ensures a == b
  {
    forall p
      ensures At(a.worktree, p) == At(b.worktree, p)
    {
      assert At(a.worktree, p) == Wanted(home, source, untracked, p);
    }
    SameTrees(a.worktree, b.worktree);
  }

  /** Resumable: after any number of runs killed anywhere, one that is not killed delivers,
      in the same state an undisturbed first run reaches, and another changes nothing. */
  lemma CarryIsResumable(home: State, work: Work, source: Source, lives: seq<nat>, left: nat)
    requires Ready(home, work, source)
    requires left >= Enough(work)
    ensures
      var finished := Run(After(home, work, source.worktree, lives), work, source.worktree, left);
      && finished.outcome == Done
      && Delivered(finished.state, home, source, work.untracked)
      && finished.state == Run(home, work, source.worktree, left).state
      && Run(finished.state, work, source.worktree, left).outcome == Done
      && Run(finished.state, work, source.worktree, left).state == finished.state
  {
    KilledRunsStayBetween(home, work, source, home, lives);
    var s := After(home, work, source.worktree, lives);
    RunDelivers(home, work, source, s, left);
    RunDelivers(home, work, source, home, left);
    var finished := Run(s, work, source.worktree, left).state;
    var first := Run(home, work, source.worktree, left).state;
    DeliveredIsOne(finished, first, home, source, work.untracked);
    RunDelivers(home, work, source, finished, left);
    DeliveredIsOne(Run(finished, work, source.worktree, left).state, finished, home, source, work.untracked);
  }

  // When a carry refuses.

  /** Two files that are not one file to carry: of two kinds, with other bytes, or links to two places. */
  predicate Differ(a: File, b: File) {
    match (a, b)
    case (Regular(x, _), Regular(y, _)) => x != y
    case (Link(x), Link(y)) => x != y
    case (Regular(_, _), Link(_)) => true
    case (Link(_), Regular(_, _)) => true
  }

  lemma CollidesWhereFilesDiffer(source: Tree, worktree: Tree, p: Path)
    requires p in source
    ensures Collides(source, worktree, p) <==> p in worktree && Differ(source[p], worktree[p])
  {
  }

  lemma {:induction false} FirstCollisionIsOne(source: Tree, worktree: Tree, untracked: seq<Path>)
    requires forall p :: p in untracked ==> p in source
    ensures
      match FirstCollision(source, worktree, untracked)
      case Some(p) => p in untracked && p in worktree && Differ(source[p], worktree[p])
      case None => forall p :: p in untracked && p in worktree ==> !Differ(source[p], worktree[p])
  {
    hide Collides, Differ;
    if untracked != [] {
      assert untracked == [untracked[0]] + untracked[1..];
      FirstCollisionIsOne(source, worktree, untracked[1..]);
      CollidesWhereFilesDiffer(source, worktree, untracked[0]);
    }
  }

  /** A run answers a collision exactly when an untracked path stands in the repository as another file, in
      whatever state that is and however long the process lives; the path named is such a one, and
      nothing was written. */
  lemma CollisionWritesNothing(s: State, work: Work, source: Tree, left: nat)
    requires forall p :: p in work.untracked ==> p in source
    ensures
      var r := Run(s, work, source, left);
      && (r.outcome.Collision? <==> exists p :: p in work.untracked && p in s.worktree && Differ(source[p], s.worktree[p]))
      && (r.outcome.Collision? ==>
            && r.state == s && r.left == left
            && r.outcome.path in work.untracked && r.outcome.path in s.worktree
            && Differ(source[r.outcome.path], s.worktree[r.outcome.path]))
  {
    FirstCollisionIsOne(source, s.worktree, work.untracked);
    hide Differ;
    if FirstCollision(source, s.worktree, work.untracked).None? {
      var staged := ApplyPatch(s, work.staged, Staged, left);
      var unstaged := ApplyPatch(staged.state, work.unstaged, Unstaged, staged.left);
      CopyingNeverRefuses(unstaged.state, source, work.untracked, unstaged.left);
    }
  }

  lemma {:induction false} CopyingNeverRefuses(s: State, source: Tree, untracked: seq<Path>, left: nat)
    requires forall p :: p in untracked ==> p in source
    ensures PlaceAll(s, source, untracked, left).outcome == (if left >= |untracked| then Done else Killed)
    decreases untracked
  {
    if untracked != [] && left > 0 {
      CopyingNeverRefuses(s.(worktree := Placed(s.worktree, untracked[0], source[untracked[0]])), source, untracked[1..], left - 1);
    }
  }

  /** No untracked path stands in the home as another file. */
  ghost predicate NothingDiffers(home: State, source: Source, untracked: seq<Path>) {
    forall p :: p in untracked && p in source.worktree && p in home.worktree ==> !Differ(source.worktree[p], home.worktree[p])
  }

  lemma NoCollisionIsNothingDiffers(home: State, work: Work, source: Source)
    requires IsWorkOf(work, source)
    ensures NoCollision(home, source.worktree, work.untracked) <==> NothingDiffers(home, source, work.untracked)
  {
    hide Collides, Differ;
    forall p | p in work.untracked
      ensures Collides(source.worktree, home.worktree, p)
        <==> p in home.worktree && Differ(source.worktree[p], home.worktree[p])
    {
      CollidesWhereFilesDiffer(source.worktree, home.worktree, p);
    }
  }

  /** From a clean checkout an undisturbed run is done exactly when no untracked path stands there as another
      file and nothing stands where a file is added; otherwise the checkout is as it was. */
  lemma CarriesExactlyWhenNothingIsInTheWay(home: State, work: Work, source: Source, left: nat)
    requires IsWorkOf(work, source) && CleanAt(home, source.head)
    requires left >= Enough(work)
    ensures
      var r := Run(home, work, source.worktree, left);
      && (r.outcome == Done
          <==> NothingDiffers(home, source, work.untracked) && RoomForAdditions(home, work))
      && (r.outcome == Done ==> Delivered(r.state, home, source, work.untracked))
      && (r.outcome != Done ==> r.state == home)
  {
    NoCollisionIsNothingDiffers(home, work, source);
    FirstCollisionFindsOne(source.worktree, home.worktree, work.untracked);
    hide Collides, NothingDiffers;
    if NoCollision(home, source.worktree, work.untracked) {
      if RoomForAdditions(home, work) {
        RunDelivers(home, work, source, home, left);
      } else {
        NoRoomIsRefused(home, work, source, home, left);
      }
    }
  }

  /** Without room the staged patch is refused, or the process dies before; nothing but its file is written. */
  lemma NoRoomIsRefused(home: State, work: Work, source: Source, s: State, left: nat)
    requires IsWorkOf(work, source) && CleanAt(home, source.head) && !RoomForAdditions(home, work)
    requires s.index == home.index && s.worktree == home.worktree
    ensures
      var r := Run(s, work, source.worktree, left);
      && r.state.index == home.index && r.state.worktree == home.worktree
      && r.outcome != Done
      && (left >= 2 ==> r.outcome != Killed && (r.state.patchFile.Some? ==> r.state == s))
  {
    StagedReachesTheIndex(work, source);
    var p :| p in work.staged && work.staged[p].before.None? && p in home.worktree;
    assert At(home.worktree, p) != work.staged[p].before;
    assert work.staged != map[];
  }

  // What stood in the home.

  /** Every file of the home that is in no commit stands in `t` still, with its bytes or its target. */
  ghost predicate KeepsTheHome(home: State, head: Tree, t: Tree) {
    forall p :: p in home.worktree && p !in head ==> p in t && !Differ(home.worktree[p], t[p])
  }

  lemma BetweenKeepsTheHome(home: State, work: Work, source: Source, s: State)
    requires Ready(home, work, source) && Between(home, work, source, s)
    ensures KeepsTheHome(home, source.head, s.worktree)
  {
    NoCollisionIsNothingDiffers(home, work, source);
    forall p | p in home.worktree && p !in source.head
      ensures p in s.worktree && !Differ(home.worktree[p], s.worktree[p])
    {
      assert p !in work.staged && p !in work.unstaged;
      assert p in Staged2(home, work) && Staged2(home, work)[p] == home.worktree[p];
    }
  }

  /** However often and wherever a carry is killed, or if it is refused: no file of the home that is in no
      commit is lost, and none has other bytes or another target. */
  lemma {:induction false} NothingOfTheHomeIsLost(home: State, work: Work, source: Source, lives: seq<nat>)
    requires IsWorkOf(work, source) && CleanAt(home, source.head)
    ensures KeepsTheHome(home, source.head, After(home, work, source.worktree, lives).worktree)
  {
    if Ready(home, work, source) {
      KilledRunsStayBetween(home, work, source, home, lives);
      BetweenKeepsTheHome(home, work, source, After(home, work, source.worktree, lives));
    } else {
      RefusedRunsWriteNothing(home, work, source, home, lives);
    }
  }

  lemma {:induction false} RefusedRunsWriteNothing(home: State, work: Work, source: Source, s: State, lives: seq<nat>)
    requires IsWorkOf(work, source) && CleanAt(home, source.head) && !Ready(home, work, source)
    requires s.index == home.index && s.worktree == home.worktree
    ensures After(s, work, source.worktree, lives).worktree == home.worktree
    decreases lives
  {
    if lives != [] {
      FirstCollisionFindsOne(source.worktree, s.worktree, work.untracked);
      if NoCollision(home, source.worktree, work.untracked) {
        NoRoomIsRefused(home, work, source, s, lives[0]);
      }
      hide IsWorkOf, CleanAt, Collides, ApplyPatch, PlaceAll;
      RefusedRunsWriteNothing(home, work, source, Run(s, work, source.worktree, lives[0]).state, lives[1..]);
    }
  }
}
