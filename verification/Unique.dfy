/** Whether a clone holds commits nothing else on this machine holds: the proof the machine
    survey makes for each clone of one remote. */
module Unique {
  import opened Wrappers
  import opened Ascending
  import opened CommitGraph

  /** One remote-tracking ref: a branch of the remote and the commit last seen on it. */
  datatype RemoteTip = RemoteTip(branch: string, oid: Oid)

  /** What one clone can say, read once. `heard` is when it last heard from the remote. */
  datatype CloneReading = CloneReading(
    head: Option<Oid>,
    tips: seq<Oid>,
    remotes: seq<RemoteTip>,
    heard: Option<nat>,
    complete: bool,
    shallow: bool,
    unreadable: Option<string>)

  /** The questions Git is asked in a clone's directory. Any of them may fail. */
  datatype Question = Stores | AmongOutside | OutsideTrusted | OutsideAnywhere | OutsideElsewhere

  /** What the object store in a clone's directory holds. A shallow store ends at the
      grafted commits, whose parents Git does not see from there. */
  datatype Store = Store(objects: set<Oid>, grafted: set<Oid>, failing: set<Question>)

  datatype Subject = Subject(path: string, reading: CloneReading, store: Store)

  /** Why a clone's uniqueness was not settled. */
  datatype Why = Unreadable(cause: string) | Unwitnessed | GitFailed(asked: Question)

  datatype Proved = Proved(
    offRemote: Option<nat>,
    onlyCopy: Option<nat>,
    unchecked: Option<Why>,
    witnesses: seq<string>)

  /** What this run believes the remote holds, and who vouched for it. */
  datatype Trusted = Trusted(tips: seq<Oid>, witnesses: seq<string>)

  // What Git answers from one directory.

  /** The history as the object store of one clone shows it. */
  function View(h: History, store: Store): (v: History) {
    map c | c in h && c in store.objects :: if c in store.grafted then {} else h[c]
  }

  /** The state the readings were taken in: refs name stored commits, and a store that is
      not shallow holds everything behind what it holds. */
  ghost predicate Sound(h: History, subject: Subject) {
    && subject.store.objects <= h.Keys
    && (subject.reading.head.Some? ==> subject.reading.head.value in subject.store.objects)
    && Elements(subject.reading.tips) <= subject.store.objects
    && (!subject.reading.shallow ==>
         subject.store.grafted == {} && ParentsOf(h, subject.store.objects) <= subject.store.objects)
  }

  /** A store's view never reaches further than the history does. */
  lemma ViewReachesLess(h: History, store: Store, from: set<Oid>)
    ensures Ancestors(View(h, store), from) <= Ancestors(h, from)
  {
    SubgraphReachesLess(View(h, store), h, from);
  }

  /** A store that is not shallow holds every commit behind a commit it holds. */
  lemma WholeStoreHoldsHistory(h: History, subject: Subject, tip: Oid)
    requires Sound(h, subject) && !subject.reading.shallow && tip in subject.store.objects
    ensures Ancestors(h, {tip}) <= subject.store.objects
  {
    AncestorsAreLeast(h, {tip}, subject.store.objects);
  }

  function RemoteOids(remotes: seq<RemoteTip>): set<Oid> {
    set tip | tip in remotes :: tip.oid
  }

  // Who may vouch for a clone's reading of the remote.

  /** Whether `candidate` heard from the remote after `subject` did and fetches every
      branch. */
  predicate Fresher(candidate: CloneReading, subject: CloneReading) {
    && candidate.complete
    && candidate.unreadable.None?
    && candidate.heard.Some? && subject.heard.Some?
    && candidate.heard.value > subject.heard.value
  }

  /** The clones other than the one at `index` that are fresher than `subject`. */
  function Candidates(subjects: seq<Subject>, index: int, subject: Subject): seq<Subject> {
    if subjects == [] then [] else
      (if index != 0 && Fresher(subjects[0].reading, subject.reading) then [subjects[0]] else [])
      + Candidates(subjects[1..], index - 1, subject)
  }

  function Latest(candidates: seq<Subject>): Option<nat> {
    if candidates == [] then None else
      var rest := Latest(candidates[1..]);
      match candidates[0].reading.heard
      case None => rest
      case Some(at) => if rest.Some? && rest.value > at then rest else Some(at)
  }

  function HeardAt(candidates: seq<Subject>, at: nat): seq<Subject> {
    if candidates == [] then [] else
      (if candidates[0].reading.heard == Some(at) then [candidates[0]] else [])
      + HeardAt(candidates[1..], at)
  }

  /** The clones that heard from the remote most recently, out of those that heard from it
      after the one at `index` did. */
  function Freshest(subjects: seq<Subject>, index: nat): seq<Subject>
    requires index < |subjects|
  {
    var candidates := Candidates(subjects, index, subjects[index]);
    match Latest(candidates)
    case None => []
    case Some(latest) => HeardAt(candidates, latest)
  }

  // What they vouch for.

  /** Where the first witness that names this branch has it. */
  function Witnessed(witnesses: seq<Subject>, branch: string): Option<Oid> {
    if witnesses == [] then None else
      match TipOf(witnesses[0].reading.remotes, branch)
      case Some(oid) => Some(oid)
      case None => Witnessed(witnesses[1..], branch)
  }

  function TipOf(remotes: seq<RemoteTip>, branch: string): Option<Oid> {
    if remotes == [] then None
    else if remotes[0].branch == branch then Some(remotes[0].oid)
    else TipOf(remotes[1..], branch)
  }

  predicate Answers(voucher: Subject) {
    Stores !in voucher.store.failing && AmongOutside !in voucher.store.failing
  }

  /** The tips of the subject that this voucher stores and still reaches from its own
      reading of the remote. */
  function StillReached(h: History, mine: set<Oid>, voucher: Subject): set<Oid> {
    var v := View(h, voucher.store);
    mine * v.Keys * Ancestors(v, RemoteOids(voucher.reading.remotes))
  }

  function ConfirmedBy(h: History, subject: Subject, witnesses: seq<Subject>): set<Oid> {
    if witnesses == [] then {}
    else if Answers(witnesses[0]) then StillReached(h, RemoteOids(subject.reading.remotes), witnesses[0])
    else ConfirmedBy(h, subject, witnesses[1..])
  }

  /** This clone's own remote-tracking tips that the first witness able to answer says are
      still on the remote. Git's answer to the second question is every commit outside,
      and a stored tip is gone when it is among them. */
  method Confirmed(h: History, subject: Subject, witnesses: seq<Subject>) returns (tips: set<Oid>)
    ensures tips == ConfirmedBy(h, subject, witnesses)
  {
    var mine := RemoteOids(subject.reading.remotes);
    if mine == {} {
      NothingToConfirm(h, subject, witnesses);
      return {};
    }
    for i := 0 to |witnesses|
      invariant ConfirmedBy(h, subject, witnesses) == ConfirmedBy(h, subject, witnesses[i..])
    {
      assert witnesses[i..][1..] == witnesses[i + 1..];
      var voucher := witnesses[i];
      var v := View(h, voucher.store);
      if Stores in voucher.store.failing {
        continue;
      }
      var stored := mine * v.Keys;
      if AmongOutside in voucher.store.failing {
        continue;
      }
      var gone := Ancestors(v, stored) - Ancestors(v, RemoteOids(voucher.reading.remotes));
      AncestorsAreClosed(v, stored);
      return stored - gone;
    }
    return {};
  }

  lemma NothingToConfirm(h: History, subject: Subject, witnesses: seq<Subject>)
    requires RemoteOids(subject.reading.remotes) == {}
    ensures ConfirmedBy(h, subject, witnesses) == {}
  {
  }

  function WitnessedTips(witnesses: seq<Subject>, remotes: seq<RemoteTip>): set<Oid> {
    set tip | tip in remotes && Witnessed(witnesses, tip.branch).Some? :: Witnessed(witnesses, tip.branch).value
  }

  function BelievedOf(h: History, subject: Subject, witnesses: seq<Subject>): Trusted {
    if witnesses == [] then Trusted([], []) else
      Trusted(
        InOrder(WitnessedTips(witnesses, subject.reading.remotes) + ConfirmedBy(h, subject, witnesses)),
        Paths(witnesses))
  }

  function Paths(subjects: seq<Subject>): seq<string> {
    if subjects == [] then [] else [subjects[0].path] + Paths(subjects[1..])
  }

  lemma WitnessedOneMore(witnesses: seq<Subject>, remotes: seq<RemoteTip>, tip: RemoteTip)
    ensures var found := Witnessed(witnesses, tip.branch);
      WitnessedTips(witnesses, remotes + [tip])
      == WitnessedTips(witnesses, remotes) + if found.Some? then {found.value} else {}
  {
    var longer := remotes + [tip];
    assert forall t :: t in longer <==> t in remotes || t == tip;
  }

  /** What a clone's own remote-tracking refs are worth once the witnesses checked them. */
  method Believed(h: History, subject: Subject, witnesses: seq<Subject>) returns (trusted: Trusted)
    ensures trusted == BelievedOf(h, subject, witnesses)
  {
    if witnesses == [] {
      return Trusted([], []);
    }
    var tips: seq<Oid> := [];
    var remotes := subject.reading.remotes;
    for i := 0 to |remotes|
      invariant Elements(tips) == WitnessedTips(witnesses, remotes[..i])
    {
      assert remotes[..i + 1] == remotes[..i] + [remotes[i]];
      WitnessedOneMore(witnesses, remotes[..i], remotes[i]);
      match Witnessed(witnesses, remotes[i].branch)
      case Some(oid) =>
        assert Elements(tips + [oid]) == Elements(tips) + {oid};
        tips := tips + [oid];
      case None =>
    }
    assert remotes[..|remotes|] == remotes;
    var confirmed := Confirmed(h, subject, witnesses);
    assert Elements(tips + InOrder(confirmed)) == Elements(tips) + Elements(InOrder(confirmed));
    tips := tips + InOrder(confirmed);
    tips := InOrder(Elements(tips));
    trusted := Trusted(tips, Paths(witnesses));
  }

  // Which tips other clones hold.

  predicate Witnessable(reading: CloneReading) {
    !reading.shallow && reading.unreadable.None?
  }

  function MineOf(subject: Subject): set<Oid> {
    if Witnessable(subject.reading) then Elements(subject.reading.tips) else {}
  }

  /** Whether some clone of the group other than the one at `index` holds this tip and may
      stand as a copy. */
  ghost predicate HeldElsewhere(subjects: seq<Subject>, index: nat, tip: Oid) {
    exists j :: 0 <= j < |subjects| && j != index && tip in MineOf(subjects[j])
  }

  function Holders(subjects: seq<Subject>, tip: Oid): nat {
    if subjects == [] then 0 else
      Holders(subjects[..|subjects| - 1], tip) + if tip in MineOf(subjects[|subjects| - 1]) then 1 else 0
  }

  function AllTips(subjects: seq<Subject>): set<Oid> {
    set s, tip | s in subjects && tip in MineOf(s) :: tip
  }

  lemma {:induction false} HoldersOfPrefix(subjects: seq<Subject>, index: nat, tip: Oid)
    requires index < |subjects|
    ensures var mine := if tip in MineOf(subjects[index]) then 1 else 0;
      Holders(subjects, tip) >= mine
      && (Holders(subjects, tip) > mine <==> HeldElsewhere(subjects, index, tip))
  {
    var last := |subjects| - 1;
    var front := subjects[..last];
    if index == last {
      HoldersPositive(front, tip);
      if exists j :: 0 <= j < last && tip in MineOf(front[j]) {
        var j :| 0 <= j < last && tip in MineOf(front[j]);
        assert tip in MineOf(subjects[j]);
      }
    } else {
      HoldersOfPrefix(front, index, tip);
      assert front[index] == subjects[index];
      if HeldElsewhere(front, index, tip) {
        var j :| 0 <= j < |front| && j != index && tip in MineOf(front[j]);
        assert tip in MineOf(subjects[j]);
      }
      if HeldElsewhere(subjects, index, tip) && tip !in MineOf(subjects[last]) {
        var j :| 0 <= j < |subjects| && j != index && tip in MineOf(subjects[j]);
        assert tip in MineOf(front[j]);
      }
    }
  }

  lemma {:induction false} HoldersPositive(subjects: seq<Subject>, tip: Oid)
    ensures Holders(subjects, tip) > 0 <==> exists j :: 0 <= j < |subjects| && tip in MineOf(subjects[j])
  {
    if subjects != [] {
      var last := |subjects| - 1;
      var front := subjects[..last];
      HoldersPositive(front, tip);
      if j :| 0 <= j < last && tip in MineOf(front[j]) {
        assert tip in MineOf(subjects[j]);
      }
      if j :| 0 <= j < |subjects| && tip in MineOf(subjects[j]) {
        assert j == last || tip in MineOf(front[j]);
      }
    }
  }

  ghost function HeldByOthersOf(subjects: seq<Subject>, index: nat): set<Oid> {
    set tip | tip in AllTips(subjects) && HeldElsewhere(subjects, index, tip)
  }

  /** Each of one clone's tips counted once more. */
  method CountTips(before: map<Oid, nat>, tips: seq<Oid>) returns (holders: map<Oid, nat>)
    requires StrictlyAscending(tips)
    ensures CountsTips(before, holders, tips)
  {
    holders := before;
    for k := 0 to |tips|
      invariant CountsTips(before, holders, tips[..k])
    {
      var oid := tips[k];
      assert oid !in tips[..k];
      assert tips[..k + 1] == tips[..k] + [oid];
      holders := holders[oid := (if oid in holders then holders[oid] else 0) + 1];
    }
    assert tips[..|tips|] == tips;
  }

  /** How many clones of the group hold each tip, counted one clone at a time. */
  method CountHolders(mine: seq<set<Oid>>, ghost subjects: seq<Subject>) returns (holders: map<Oid, nat>)
    requires |mine| == |subjects| && forall i :: 0 <= i < |mine| ==> mine[i] == MineOf(subjects[i])
    ensures Counts(holders, subjects)
  {
    holders := map[];
    for i := 0 to |mine|
      invariant Counts(holders, subjects[..i])
    {
      hide Counts, CountsTips;
      ghost var before := holders;
      holders := CountTips(holders, InOrder(mine[i]));
      OneMoreHolder(before, holders, subjects[..i], subjects[i]);
      assert subjects[..i + 1] == subjects[..i] + [subjects[i]];
    }
    assert subjects[..|subjects|] == subjects;
  }

  /** For each clone, the tips another clone of the group holds: a tip is counted once for
      every clone that holds it, and a clone's own hold is taken off. */
  method HeldByOthers(subjects: seq<Subject>) returns (elsewhere: seq<seq<Oid>>)
    ensures |elsewhere| == |subjects|
    ensures forall i :: 0 <= i < |subjects| ==> elsewhere[i] == InOrder(HeldByOthersOf(subjects, i))
  {
    var mine := seq(|subjects|, i requires 0 <= i < |subjects| => MineOf(subjects[i]));
    var holders := CountHolders(mine, subjects);
    elsewhere := [];
    for i := 0 to |mine|
      invariant |elsewhere| == i
      invariant forall k :: 0 <= k < i ==> elsewhere[k] == InOrder(HeldByOthersOf(subjects, k))
    {
      hide Counts, HeldByOthersOf, InOrder;
      var others := set oid | oid in holders.Keys && holders[oid] > (if oid in mine[i] then 1 else 0);
      OthersAreHeldElsewhere(holders, subjects, i, others);
      elsewhere := elsewhere + [InOrder(others)];
    }
  }

  /** The counter map holds every tip met so far with the number of clones holding it. */
  ghost predicate Counts(holders: map<Oid, nat>, subjects: seq<Subject>) {
    && holders.Keys == AllTips(subjects)
    && forall tip :: tip in holders ==> holders[tip] == Holders(subjects, tip)
  }

  ghost predicate CountsTips(before: map<Oid, nat>, holders: map<Oid, nat>, tips: seq<Oid>) {
    && holders.Keys == before.Keys + Elements(tips)
    && forall tip :: tip in holders ==>
        holders[tip] == (if tip in before then before[tip] else 0) + (if tip in tips then 1 else 0)
  }

  lemma OneMoreHolder(before: map<Oid, nat>, holders: map<Oid, nat>, front: seq<Subject>, last: Subject)
    requires Counts(before, front)
    requires CountsTips(before, holders, InOrder(MineOf(last)))
    ensures Counts(holders, front + [last])
  {
    var all := front + [last];
    assert all[..|all| - 1] == front;
    assert forall tip :: tip in InOrder(MineOf(last)) <==> tip in Elements(InOrder(MineOf(last)));
    assert AllTips(all) == AllTips(front) + MineOf(last) by {
      assert forall s :: s in all <==> s in front || s == last;
    }
    forall tip | tip in holders && tip !in before ensures Holders(front, tip) == 0 {
      NobodyHolds(front, tip);
    }
  }

  lemma NobodyHolds(subjects: seq<Subject>, tip: Oid)
    requires tip !in AllTips(subjects)
    ensures Holders(subjects, tip) == 0
  {
    HoldersPositive(subjects, tip);
    forall j | 0 <= j < |subjects| ensures tip !in MineOf(subjects[j]) {
      assert subjects[j] in subjects;
    }
  }

  lemma OthersAreHeldElsewhere(holders: map<Oid, nat>, subjects: seq<Subject>, i: nat, others: set<Oid>)
    requires i < |subjects| && Counts(holders, subjects)
    requires others == set oid | oid in holders.Keys && holders[oid] > (if oid in MineOf(subjects[i]) then 1 else 0)
    ensures others == HeldByOthersOf(subjects, i)
  {
    forall tip ensures tip in others <==> tip in HeldByOthersOf(subjects, i) {
      HoldersOfPrefix(subjects, i, tip);
    }
  }

  // The proof for one clone, and for the group.

  function Unchecked(why: Why): Proved {
    Proved(None, None, Some(why), [])
  }

  function UnwitnessedProof(h: History, subject: Subject, head: Oid, elsewhere: seq<Oid>): Proved {
    if OutsideElsewhere in subject.store.failing then Unchecked(GitFailed(OutsideElsewhere))
    else if CountOutside(View(h, subject.store), head, Elements(elsewhere)) == 0
    then Proved(None, Some(0), None, [])
    else Unchecked(Unwitnessed)
  }

  function One(h: History, subject: Subject, trusted: Trusted, elsewhere: seq<Oid>): Proved {
    if subject.reading.unreadable.Some? then Unchecked(Unreadable(subject.reading.unreadable.value))
    else if subject.reading.head.None? then Proved(Some(0), Some(0), None, [])
    else
      var head := subject.reading.head.value;
      var v := View(h, subject.store);
      if trusted.witnesses == [] && subject.reading.remotes != [] then
        UnwitnessedProof(h, subject, head, elsewhere)
      else if OutsideTrusted in subject.store.failing then Unchecked(GitFailed(OutsideTrusted))
      else
        var offRemote := CountOutside(v, head, Elements(trusted.tips));
        if offRemote == 0 then Proved(Some(0), Some(0), None, trusted.witnesses)
        else if OutsideAnywhere in subject.store.failing then Unchecked(GitFailed(OutsideAnywhere))
        else
          var onlyCopy := CountOutside(v, head, Elements(trusted.tips + elsewhere));
          Proved(Some(offRemote), Some(onlyCopy), None, trusted.witnesses)
  }

  ghost function ProofOf(h: History, subjects: seq<Subject>, index: nat): Proved
    requires index < |subjects|
  {
    One(h, subjects[index],
      BelievedOf(h, subjects[index], Freshest(subjects, index)),
      InOrder(HeldByOthersOf(subjects, index)))
  }

  method ProveOne(h: History, subjects: seq<Subject>, index: nat, elsewhere: seq<Oid>) returns (proof: Proved)
    requires index < |subjects|
    requires elsewhere == InOrder(HeldByOthersOf(subjects, index))
    ensures proof == ProofOf(h, subjects, index)
  {
    var trusted := Believed(h, subjects[index], Freshest(subjects, index));
    proof := One(h, subjects[index], trusted, elsewhere);
  }

  /** For each clone of one group, what it is the only copy of. */
  method Prove(h: History, subjects: seq<Subject>) returns (proofs: seq<Proved>)
    ensures |proofs| == |subjects|
    ensures forall i :: 0 <= i < |subjects| ==> proofs[i] == ProofOf(h, subjects, i)
  {
    hide *;
    var elsewhere := HeldByOthers(subjects);
    proofs := [];
    for i := 0 to |subjects|
      invariant |proofs| == i
      invariant forall k :: 0 <= k < i ==> proofs[k] == ProofOf(h, subjects, k)
    {
      var proof := ProveOne(h, subjects, i, elsewhere[i]);
      proofs := proofs + [proof];
    }
  }
}
