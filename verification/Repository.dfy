/** One repository, and the rewrites a merge makes of it: commit everything, squash, rebase,
    fast-forward, and what undoes each. Every Git command is one write, specified by a function
    of the state before it. */
module Repository {
  import opened Wrappers
  import opened Trees
  import opened Commits

  datatype Head = On(branch: string) | Detached(commit: Commit)

  /** A rebase stopped part-way: what was checked out, and what it goes onto. */
  datatype Stopped = Stopped(was: Head, onto: Commit)

  datatype Repo = Repo(
    branches: map<string, Commit>,
    head: Head,
    index: Tree,
    worktree: Tree,
    /** The paths an ignore rule covers. */
    ignored: set<Path>,
    /** The branches another worktree of this repository has checked out. */
    elsewhere: set<string>,
    rebase: Option<Stopped>,
    /** The branch tip recorded before a squash rewrote it. */
    premerge: Option<Commit>
  )

  ghost predicate Valid(r: Repo) {
    && Named(r.branches, r.head)
    && (r.rebase.Some? ==> r.head.Detached? && Named(r.branches, r.rebase.value.was)
                           && IsAncestor(r.rebase.value.onto, r.head.commit))
  }

  predicate Named(branches: map<string, Commit>, head: Head) {
    head.On? ==> head.branch in branches
  }

  function CommitAt(branches: map<string, Commit>, head: Head): Commit
    requires Named(branches, head)
  {
    match head
    case On(branch) => branches[branch]
    case Detached(commit) => commit
  }

  function HeadCommit(r: Repo): Commit
    requires Valid(r)
  {
    CommitAt(r.branches, r.head)
  }

  function HeadAt(r: Repo, to: Commit): Repo {
    match r.head
    case On(branch) => r.(branches := r.branches[branch := to])
    case Detached(_) => r.(head := Detached(to))
  }

  // Committing and taking back.

  /** The index after `git add --all`: every tracked path as it stands, and every untracked
      path no ignore rule covers. */
  function Addable(r: Repo): Tree {
    map p | p in r.worktree && (p in r.index || p !in r.ignored) :: r.worktree[p]
  }

  datatype Made = Made(repo: Repo, commit: Option<Commit>)

  function CommitAll(r: Repo, note: string): Made
    requires Valid(r)
  {
    var added := r.(index := Addable(r));
    if added.index == HeadCommit(r).tree then Made(added, None)
    else
      var c := Commit([HeadCommit(r)], added.index, note);
      Made(HeadAt(added, c), Some(c))
  }

  /** `git reset --mixed`. */
  function Uncommit(r: Repo, to: Commit): Repo
    requires Valid(r)
  {
    if HeadCommit(r) == to then r else HeadAt(r, to).(index := to.tree)
  }

  /** A tip already recorded is left as it is. */
  function RecordPremerge(r: Repo): Repo
    requires Valid(r)
  {
    if r.premerge.Some? then r else r.(premerge := Some(HeadCommit(r)))
  }

  /** Fold everything since `base`, which is what `git merge-base` answered. */
  function Squash(r: Repo, base: Option<Commit>, note: string): Option<Made>
    requires Valid(r)
  {
    match base
    case None => None
    case Some(b) =>
      if Count(b, HeadCommit(r)) < 2 then Some(Made(r, None))
      else
        var c := Commit([b], HeadCommit(r).tree, note);
        Some(Made(HeadAt(r, c), Some(c)))
  }

  // Rebasing. What replaying answers is Git's.

  datatype Pick = Pick(tree: Tree, note: string)

  datatype Replay =
    | CannotRun
    | Finished(picks: seq<Pick>)
    | Conflicts(picks: seq<Pick>, index: Tree, worktree: Tree)

  datatype Outcome = Done | Conflict | Failed

  datatype Rebased = Rebased(repo: Repo, outcome: Outcome)

  /** The picked changes, one commit on another. */
  function Chain(onto: Commit, picks: seq<Pick>): Commit
    decreases picks
  {
    if picks == [] then onto else Chain(Commit([onto], picks[0].tree, picks[0].note), picks[1..])
  }

  /** A working tree taken from one commit's files to another's, other files left alone. */
  function CheckedOut(worktree: Tree, tracked: set<Path>, to: Tree): Tree {
    map p | p in to.Keys + (worktree.Keys - tracked) :: if p in to then to[p] else worktree[p]
  }

  /** Nothing staged, and every tracked path as it was committed. */
  predicate Tidy(r: Repo)
    requires Valid(r)
  {
    && r.index == HeadCommit(r).tree
    && forall p :: p in r.index ==> At(r.worktree, p) == Some(r.index[p])
  }

  function Resume(r: Repo, replay: Replay): Rebased
    requires Valid(r)
  {
    if r.rebase.None? then Rebased(r, Done)
    else
      match replay
      case CannotRun => Rebased(r, Conflict)
      case Finished(picks) =>
        var tip := Chain(HeadCommit(r), picks);
        Rebased(HeadAt(r.(head := r.rebase.value.was), tip).(index := tip.tree,
                  worktree := CheckedOut(r.worktree, r.index.Keys, tip.tree), rebase := None), Done)
      case Conflicts(picks, index, worktree) =>
        Rebased(r.(head := Detached(Chain(HeadCommit(r), picks)), index := index, worktree := worktree), Conflict)
  }

  function Rebase(r: Repo, onto: Commit, replay: Replay): Rebased
    requires Valid(r)
  {
    if r.rebase.Some? then Resume(r, replay)
    else if IsAncestor(onto, HeadCommit(r)) then Rebased(r, Done)
    else if !Tidy(r) then Rebased(r, Failed)
    else
      match replay
      case CannotRun => Rebased(r, Failed)
      case Finished(picks) =>
        var tip := Chain(onto, picks);
        Rebased(HeadAt(r, tip).(index := tip.tree, worktree := CheckedOut(r.worktree, r.index.Keys, tip.tree)), Done)
      case Conflicts(picks, index, worktree) =>
        Rebased(r.(head := Detached(Chain(onto, picks)), index := index, worktree := worktree,
                   rebase := Some(Stopped(r.head, onto))), Conflict)
  }

  function Abort(r: Repo): (back: Repo)
    requires Valid(r)
    ensures Valid(back) && back.rebase.None? && back.branches == r.branches
  {
    if r.rebase.None? then r
    else
      var was := r.rebase.value.was;
      var original := CommitAt(r.branches, was).tree;
      r.(head := was, index := original, worktree := CheckedOut(r.worktree, r.index.Keys, original), rebase := None)
  }

  // Moving a branch.

  /** `git reset --keep` moves nothing when a path it would change has a local change. */
  predicate MayKeep(r: Repo, to: Commit)
    requires Valid(r)
  {
    var at := HeadCommit(r).tree;
    forall p :: p in at.Keys + to.tree.Keys && At(at, p) != At(to.tree, p) ==>
      At(r.worktree, p) == At(at, p) && At(r.index, p) == At(at, p)
  }

  function Only(t: Tree, paths: set<Path>): Tree {
    map p | p in t && p in paths :: t[p]
  }

  function Kept(r: Repo, to: Commit): Repo
    requires Valid(r)
  {
    var at := HeadCommit(r).tree;
    var moved := set p | p in at.Keys + to.tree.Keys && At(at, p) != At(to.tree, p);
    HeadAt(r, to).(index := to.tree, worktree := CheckedOut(r.worktree, moved, Only(to.tree, moved)))
  }

  /** Through the working tree when the branch is the checked-out one; never one that another
      worktree or a stopped rebase holds. */
  function MoveBranch(r: Repo, branch: string, to: Commit): Option<Repo>
    requires Valid(r)
  {
    if r.head == On(branch) then
      if MayKeep(r, to) then Some(Kept(r, to)) else None
    else if branch in r.elsewhere || (r.rebase.Some? && r.rebase.value.was == On(branch)) then None
    else Some(r.(branches := r.branches[branch := to]))
  }

  datatype Forwarded = Already | Moved(repo: Repo) | UnknownBranch | TargetMoved(found: Commit) | CannotMove

  function FastForward(r: Repo, branch: string, to: Commit): Forwarded
    requires Valid(r)
  {
    if branch !in r.branches then UnknownBranch
    else if r.branches[branch] == to then Already
    else if !IsAncestor(r.branches[branch], to) then TargetMoved(r.branches[branch])
    else
      match MoveBranch(r, branch, to)
      case Some(moved) => Moved(moved)
      case None => CannotMove
  }

  function Restore(r: Repo, branch: string, to: Commit): Option<Repo>
    requires Valid(r)
  {
    if branch in r.branches && r.branches[branch] == to then Some(r) else MoveBranch(r, branch, to)
  }

  /** The repository itself, rewritten one command at a time. */
  class Checkout {
    var branches: map<string, Commit>
    var head: Head
    var index: Tree
    var worktree: Tree
    var rebase: Option<Stopped>
    var premerge: Option<Commit>
    const ignored: set<Path>
    const elsewhere: set<string>

    ghost function Now(): Repo
      reads this
    {
      Repo(branches, head, index, worktree, ignored, elsewhere, rebase, premerge)
    }

    constructor (r: Repo)
      ensures Now() == r
    {
      branches, head, index, worktree := r.branches, r.head, r.index, r.worktree;
      ignored, elsewhere, rebase, premerge := r.ignored, r.elsewhere, r.rebase, r.premerge;
    }

    method Tip() returns (c: Commit)
      requires Valid(Now())
      ensures c == HeadCommit(Now())
    {
      match head
      case On(branch) => c := branches[branch];
      case Detached(commit) => c := commit;
    }

    method MoveHead(to: Commit)
      requires Named(branches, head)
      modifies this`branches, this`head
      ensures Now() == HeadAt(old(Now()), to)
    {
      match head
      case On(branch) => branches := branches[branch := to];
      case Detached(_) => head := Detached(to);
    }

    method AddEverything()
      modifies this`index
      ensures Now() == old(Now()).(index := Addable(old(Now())))
    {
      index := map p | p in worktree && (p in index || p !in ignored) :: worktree[p];
    }

    method CommitEverything(note: string) returns (made: Option<Commit>)
      requires Valid(Now())
      modifies this
      ensures Made(Now(), made) == CommitAll(old(Now()), note)
    {
      var tip := Tip();
      AddEverything();
      if index == tip.tree {
        return None;
      }
      var c := Commit([tip], index, note);
      MoveHead(c);
      made := Some(c);
    }

    method TakeBack(to: Commit)
      requires Valid(Now())
      modifies this
      ensures Now() == Uncommit(old(Now()), to)
    {
      var tip := Tip();
      if tip != to {
        MoveHead(to);
        index := to.tree;
      }
    }

    method Record()
      requires Valid(Now())
      modifies this`premerge
      ensures Now() == RecordPremerge(old(Now()))
    {
      if premerge.None? {
        var tip := Tip();
        premerge := Some(tip);
      }
    }

    method Fold(base: Option<Commit>, note: string) returns (failed: bool, made: Option<Commit>)
      requires Valid(Now())
      modifies this`branches, this`head
      ensures failed <==> Squash(old(Now()), base, note).None?
      ensures failed ==> Now() == old(Now())
      ensures !failed ==> Some(Made(Now(), made)) == Squash(old(Now()), base, note)
    {
      failed, made := false, None;
      if base.None? {
        return true, None;
      }
      var tip := Tip();
      if Count(base.value, tip) >= 2 {
        made := Some(Commit([base.value], tip.tree, note));
        MoveHead(made.value);
      }
    }

    method Continue(replay: Replay) returns (outcome: Outcome)
      requires Valid(Now())
      modifies this
      ensures Rebased(Now(), outcome) == Resume(old(Now()), replay)
    {
      if rebase.None? {
        return Done;
      }
      var at := Tip();
      match replay
      case CannotRun =>
        return Conflict;
      case Finished(picks) =>
        var tip := Chain(at, picks);
        worktree := CheckedOut(worktree, index.Keys, tip.tree);
        index := tip.tree;
        head := rebase.value.was;
        rebase := None;
        MoveHead(tip);
        return Done;
      case Conflicts(picks, left, files) =>
        head, index, worktree := Detached(Chain(at, picks)), left, files;
        return Conflict;
    }

    method RebaseOnto(onto: Commit, replay: Replay) returns (outcome: Outcome)
      requires Valid(Now())
      modifies this
      ensures Rebased(Now(), outcome) == Rebase(old(Now()), onto, replay)
    {
      if rebase.Some? {
        outcome := Continue(replay);
        return;
      }
      var at := Tip();
      if IsAncestor(onto, at) {
        return Done;
      }
      if index != at.tree || exists p :: p in index && At(worktree, p) != Some(index[p]) {
        return Failed;
      }
      match replay
      case CannotRun =>
        return Failed;
      case Finished(picks) =>
        var tip := Chain(onto, picks);
        worktree := CheckedOut(worktree, index.Keys, tip.tree);
        index := tip.tree;
        MoveHead(tip);
        return Done;
      case Conflicts(picks, left, files) =>
        rebase := Some(Stopped(head, onto));
        head, index, worktree := Detached(Chain(onto, picks)), left, files;
        return Conflict;
    }

    method Stop()
      requires Valid(Now())
      modifies this
      ensures Now() == Abort(old(Now()))
    {
      if rebase.Some? {
        head := rebase.value.was;
        rebase := None;
        var original := Tip();
        worktree := CheckedOut(worktree, index.Keys, original.tree);
        index := original.tree;
      }
    }

    method Move(branch: string, to: Commit) returns (moved: bool)
      requires Valid(Now())
      modifies this
      ensures MoveBranch(old(Now()), branch, to) == (if moved then Some(Now()) else None)
      ensures !moved ==> Now() == old(Now())
    {
      if head == On(branch) {
        var at := Tip();
        if !MayKeepNow(to) {
          return false;
        }
        var changed := set p | p in at.tree.Keys + to.tree.Keys && At(at.tree, p) != At(to.tree, p);
        worktree := CheckedOut(worktree, changed, Only(to.tree, changed));
        index := to.tree;
        MoveHead(to);
        return true;
      }
      if branch in elsewhere || (rebase.Some? && rebase.value.was == On(branch)) {
        return false;
      }
      branches := branches[branch := to];
      return true;
    }

    predicate MayKeepNow(to: Commit)
      requires Valid(Now())
      reads this
    {
      var at := CommitAt(branches, head).tree;
      forall p :: p in at.Keys + to.tree.Keys && At(at, p) != At(to.tree, p) ==>
        At(worktree, p) == At(at, p) && At(index, p) == At(at, p)
    }

    method Forward(branch: string, to: Commit) returns (answer: Forwarded)
      requires Valid(Now())
      modifies this
      ensures answer == FastForward(old(Now()), branch, to)
      ensures Now() == (if answer.Moved? then answer.repo else old(Now()))
    {
      if branch !in branches {
        return UnknownBranch;
      }
      if branches[branch] == to {
        return Already;
      }
      if !IsAncestor(branches[branch], to) {
        return TargetMoved(branches[branch]);
      }
      var moved := Move(branch, to);
      if !moved {
        return CannotMove;
      }
      return Moved(Repo(branches, head, index, worktree, ignored, elsewhere, rebase, premerge));
    }

    method PutBack(branch: string, to: Commit) returns (done: bool)
      requires Valid(Now())
      modifies this
      ensures Restore(old(Now()), branch, to) == (if done then Some(Now()) else None)
      ensures !done ==> Now() == old(Now())
    {
      if branch in branches && branches[branch] == to {
        return true;
      }
      done := Move(branch, to);
    }
  }
}
