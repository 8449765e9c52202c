/** Uncommitted work read out of one checkout and reproduced in another, a write at a time:
    what was staged is staged, what was unstaged unstaged, and what Git never heard of untracked.
    A run may be killed between any two writes. */
module Carry {
  import opened Wrappers
  import opened Trees

  /** One path of a patch: what it needs to find there, and what it leaves. */
  datatype Change = Change(before: Option<File>, after: Option<File>)

  type Patch = map<Path, Change>

  /** `git diff --cached HEAD`: the paths whose index differs from the commit. */
  function StagedOf(head: Tree, index: Tree): Patch {
    map p | p in head.Keys + index.Keys && At(head, p) != At(index, p) :: Change(At(head, p), At(index, p))
  }

  /** `git diff`: the tracked paths whose working tree differs from the index. */
  function UnstagedOf(index: Tree, worktree: Tree): Patch {
    map p | p in index && At(worktree, p) != Some(index[p]) :: Change(Some(index[p]), At(worktree, p))
  }

  /** The checkout the work is read from. */
  datatype Source = Source(head: Tree, index: Tree, worktree: Tree, ignored: set<Path>)

  datatype Work = Work(head: Tree, staged: Patch, unstaged: Patch, untracked: seq<Path>)

  /** What reading the checkout answers: both patches, and every path Git tracks nothing of
      and no ignore rule covers, in some order. */
  ghost predicate IsWorkOf(work: Work, source: Source) {
    && work.head == source.head
    && work.staged == StagedOf(source.head, source.index)
    && work.unstaged == UnstagedOf(source.index, source.worktree)
    && (forall p :: p in work.untracked <==> p in source.worktree && p !in source.index && p !in source.ignored)
  }

  // `git apply`.

  /** The patch reversed would apply: it is already there. */
  predicate AlreadyApplied(patch: Patch, t: Tree) {
    forall p :: p in patch ==> At(t, p) == patch[p].after
  }

  predicate Applies(patch: Patch, t: Tree) {
    forall p :: p in patch ==> At(t, p) == patch[p].before
  }

  function Applied(patch: Patch, t: Tree): Tree {
    map p | p in t.Keys + patch.Keys && (p in patch ==> patch[p].after.Some?) ::
      if p in patch then patch[p].after.value else t[p]
  }

  /** How one of the two patches is applied and recognised: the staged one goes into index
      and working tree and is recognised in the index alone, the other in the working tree. */
  datatype Application = Staged | Unstaged

  /** The repository the work is put into, as the writes leave it. */
  datatype State = State(index: Tree, worktree: Tree, patchFile: Option<Patch>)

  predicate IsThere(s: State, patch: Patch, how: Application) {
    AlreadyApplied(patch, if how == Staged then s.index else s.worktree)
  }

  predicate GoesIn(s: State, patch: Patch, how: Application) {
    Applies(patch, s.worktree) && (how == Staged ==> Applies(patch, s.index))
  }

  function GoneIn(s: State, patch: Patch, how: Application): State {
    s.(worktree := Applied(patch, s.worktree), index := if how == Staged then Applied(patch, s.index) else s.index)
  }

  datatype Outcome = Done | Killed | Refused | Collision(path: Path)

  /** A step, and how many more writes the process lives to make. */
  datatype Step = Step(state: State, outcome: Outcome, left: nat)

  /** The last write of applying a patch: its file removed, whatever happened. */
  function Cleared(s: State, outcome: Outcome, left: nat): Step {
    if left == 0 then Step(s, Killed, 0) else Step(s.(patchFile := None), outcome, left - 1)
  }

  /** One patch: written to a file, applied unless it is already there, the file removed. */
  function ApplyPatch(s: State, patch: Patch, how: Application, left: nat): Step {
    if patch == map[] then Step(s, Done, left)
    else if left == 0 then Step(s, Killed, 0)
    else
      var written := s.(patchFile := Some(patch));
      if IsThere(written, patch, how) then Cleared(written, Done, left - 1)
      else if !GoesIn(written, patch, how) then Cleared(written, Refused, left - 1)
      else if left == 1 then Step(written, Killed, 0)
      else Cleared(GoneIn(written, patch, how), Done, left - 2)
  }

  /** Whether two paths are the same file to carry. */
  predicate SameBytes(here: Option<File>, there: Option<File>) {
    match (here, there)
    case (Some(Regular(a, _)), Some(Regular(b, _))) => a == b
    case (Some(Link(a)), Some(Link(b))) => a == b
    case _ => false
  }

  predicate Collides(source: Tree, worktree: Tree, p: Path) {
    p in worktree && !SameBytes(At(source, p), At(worktree, p))
  }

  function FirstCollision(source: Tree, worktree: Tree, untracked: seq<Path>): Option<Path> {
    if untracked == [] then None
    else if Collides(source, worktree, untracked[0]) then Some(untracked[0])
    else FirstCollision(source, worktree, untracked[1..])
  }

  /** One untracked path copied as what it is; a link that is there already is left. */
  function Placed(worktree: Tree, p: Path, f: File): Tree {
    if f.Link? && p in worktree then worktree else worktree[p := f]
  }

  function PlaceAll(s: State, source: Tree, untracked: seq<Path>, left: nat): Step
    requires forall p :: p in untracked ==> p in source
    decreases untracked
  {
    if untracked == [] then Step(s, Done, left)
    else if left == 0 then Step(s, Killed, 0)
    else
      assert untracked[0] in untracked;
      assert forall p :: p in untracked[1..] ==> p in untracked;
      PlaceAll(s.(worktree := Placed(s.worktree, untracked[0], source[untracked[0]])), source, untracked[1..], left - 1)
  }

  /** A whole run of the step, killed after `left` writes if it needs more. */
  function Run(s: State, work: Work, source: Tree, left: nat): Step
    requires forall p :: p in work.untracked ==> p in source
  {
    match FirstCollision(source, s.worktree, work.untracked)
    case Some(p) => Step(s, Collision(p), left)
    case None =>
      var staged := ApplyPatch(s, work.staged, Staged, left);
      if !staged.outcome.Done? then staged else
        var unstaged := ApplyPatch(staged.state, work.unstaged, Unstaged, staged.left);
        if !unstaged.outcome.Done? then unstaged else
          PlaceAll(unstaged.state, source, work.untracked, unstaged.left)
  }

  /** The repository itself, changed a write at a time. */
  class Home {
    var index: Tree
    var worktree: Tree
    var patchFile: Option<Patch>

    ghost function Now(): State
      reads this
    {
      State(index, worktree, patchFile)
    }

    constructor (index: Tree, worktree: Tree)
      ensures Now() == State(index, worktree, None)
    {
      this.index, this.worktree, this.patchFile := index, worktree, None;
    }

    method Apply(patch: Patch, how: Application, lives: nat) returns (outcome: Outcome, left: nat)
      modifies this
      ensures Step(Now(), outcome, left) == ApplyPatch(old(Now()), patch, how, lives)
    {
      left := lives;
      if patch == map[] {
        return Done, left;
      }
      if left == 0 {
        return Killed, 0;
      }
      patchFile := Some(patch);
      left := left - 1;
      outcome := Done;
      if !AlreadyApplied(patch, if how == Staged then index else worktree) {
        if Applies(patch, worktree) && (how == Staged ==> Applies(patch, index)) {
          if left == 0 {
            return Killed, 0;
          }
          if how == Staged {
            index := Applied(patch, index);
          }
          worktree := Applied(patch, worktree);
          left := left - 1;
        } else {
          outcome := Refused;
        }
      }
      if left == 0 {
        return Killed, 0;
      }
      patchFile := None;
      left := left - 1;
    }

    /** Refuse every untracked path the home holds with other content, before any write. */
    method RefuseCollisions(source: Tree, untracked: seq<Path>) returns (found: Option<Path>)
      ensures found == FirstCollision(source, worktree, untracked)
    {
      for i := 0 to |untracked|
        invariant FirstCollision(source, worktree, untracked) == FirstCollision(source, worktree, untracked[i..])
      {
        assert untracked[i..][1..] == untracked[i + 1..];
        if Collides(source, worktree, untracked[i]) {
          return Some(untracked[i]);
        }
      }
      return None;
    }

    method PlaceUntracked(source: Tree, untracked: seq<Path>, lives: nat) returns (outcome: Outcome, left: nat)
      requires forall p :: p in untracked ==> p in source
      modifies this`worktree
      ensures Step(Now(), outcome, left) == PlaceAll(old(Now()), source, untracked, lives)
    {
      left := lives;
      for i := 0 to |untracked|
        invariant index == old(index) && patchFile == old(patchFile)
        invariant forall p :: p in untracked[i..] ==> p in source
        invariant PlaceAll(old(Now()), source, untracked, lives) == PlaceAll(Now(), source, untracked[i..], left)
      {
        assert untracked[i..][1..] == untracked[i + 1..];
        if left == 0 {
          return Killed, 0;
        }
        worktree := Placed(worktree, untracked[i], source[untracked[i]]);
        left := left - 1;
      }
      outcome := Done;
    }

    /** Put `work` into this repository. The process may be killed between any two writes. */
    method Reproduce(work: Work, source: Tree, lives: nat) returns (outcome: Outcome, left: nat)
      requires forall p :: p in work.untracked ==> p in source
      modifies this
      ensures Step(Now(), outcome, left) == Run(old(Now()), work, source, lives)
    {
      var collision := RefuseCollisions(source, work.untracked);
      if collision.Some? {
        return Collision(collision.value), lives;
      }
      outcome, left := Apply(work.staged, Staged, lives);
      if outcome.Done? {
        outcome, left := Apply(work.unstaged, Unstaged, left);
        if outcome.Done? {
          outcome, left := PlaceUntracked(source, work.untracked, left);
        }
      }
    }
  }
}
