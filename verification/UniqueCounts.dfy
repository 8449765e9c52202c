/** What the two figures of a uniqueness proof count, when there are none, and which tips are trusted. */
module UniqueCounts {
  import opened Wrappers
  import opened Ascending
  import opened CommitGraph
  import opened Unique
  import opened UniqueSafety

  /** The commits of a clone's `HEAD` that it sees behind none of these tips. */
  ghost function NotBehind(h: History, subject: Subject, held: set<Oid>): set<Oid> {
    set c | c in OwnHistory(h, subject) && !BehindOne(View(h, subject.store), held, c)
  }

  lemma CountIsOfNotBehind(h: History, subject: Subject, held: set<Oid>)
    requires subject.reading.head.Some?
    ensures CountOutside(View(h, subject.store), subject.reading.head.value, held) == |NotBehind(h, subject, held)|
  {
    hide Ancestors, View, BehindOne;
    var v := View(h, subject.store);
    forall c
      ensures BehindOne(v, held, c) <==> c in Ancestors(v, held)
    {
      BehindOneIsAncestor(v, held, c);
    }
    assert NotBehind(h, subject, held) == Ancestors(v, {subject.reading.head.value}) - Ancestors(v, held);
  }

  /** The tips this run trusts for one clone. */
  ghost function TrustedTips(h: History, subjects: seq<Subject>, index: nat): set<Oid>
    requires index < |subjects|
  {
    Elements(BelievedOf(h, subjects[index], Freshest(subjects, index)).tips)
  }

  /** Whether the clone's refs can be spoken of: somebody vouches for them, or it has none. */
  predicate Vouched(subjects: seq<Subject>, index: nat)
    requires index < |subjects|
  {
    Freshest(subjects, index) != [] || subjects[index].reading.remotes == []
  }

  /** Of a clone that somebody vouches for: what is not on the remote is every commit of its `HEAD`
      behind no trusted tip, and what nothing else holds is every one that is besides behind no tip
      of another clone. Both are given unless Git could not say. */
  lemma VouchedCounts(h: History, subjects: seq<Subject>, index: nat)
    requires index < |subjects| && Vouched(subjects, index)
    requires subjects[index].reading.unreadable.None? && subjects[index].reading.head.Some?
    ensures
      var (subject, proof) := (subjects[index], ProofOf(h, subjects, index));
      var off := NotBehind(h, subject, TrustedTips(h, subjects, index));
      var only := NotBehind(h, subject, TrustedTips(h, subjects, index) + HeldByOthersOf(subjects, index));
      && only <= off
      && (proof.unchecked.None? <==>
            OutsideTrusted !in subject.store.failing && (OutsideAnywhere !in subject.store.failing || off == {}))
      && (proof.unchecked.None? ==>
            proof == Proved(Some(|off|), Some(|only|), None, Paths(Freshest(subjects, index))))
      && (proof.unchecked.Some? ==>
            proof == Proved(None, None, Some(GitFailed(if OutsideTrusted in subject.store.failing then OutsideTrusted
                                                       else OutsideAnywhere)), []))
  {
    hide CountOutside, Freshest, HeldByOthersOf, InOrder, View, NotBehind, Elements, WitnessedTips, ConfirmedBy;
    var subject := subjects[index];
    var trusted := BelievedOf(h, subject, Freshest(subjects, index));
    CountedTogether(h, subjects, index);
    CountIsOfNotBehind(h, subject, Elements(trusted.tips));
    CountIsOfNotBehind(h, subject, CountedAgainst(h, subjects, index));
    FewerAreNotBehind(h, subject, Elements(trusted.tips), CountedAgainst(h, subjects, index));
    var off := NotBehind(h, subject, Elements(trusted.tips));
    assert |off| == 0 <==> off == {};
  }

  lemma FewerAreNotBehind(h: History, subject: Subject, few: set<Oid>, many: set<Oid>)
    requires few <= many
    ensures NotBehind(h, subject, many) <= NotBehind(h, subject, few)
  {
    hide View, Ancestors;
  }

  /** Of a clone nobody vouches for, what is on the remote is never said; and that nothing of it is unique
      is said exactly when every commit of its `HEAD` is behind a tip of another clone. */
  lemma UnvouchedCounts(h: History, subjects: seq<Subject>, index: nat)
    requires index < |subjects| && !Vouched(subjects, index)
    requires subjects[index].reading.unreadable.None? && subjects[index].reading.head.Some?
    ensures
      var (subject, proof) := (subjects[index], ProofOf(h, subjects, index));
      var only := NotBehind(h, subject, HeldByOthersOf(subjects, index));
      proof ==
        if OutsideElsewhere in subject.store.failing then Proved(None, None, Some(GitFailed(OutsideElsewhere)), [])
        else if only == {} then Proved(None, Some(0), None, [])
        else Proved(None, None, Some(Unwitnessed), [])
  {
    hide CountOutside, Freshest, HeldByOthersOf, InOrder, View, NotBehind, Elements, WitnessedTips, ConfirmedBy;
    CountIsOfNotBehind(h, subjects[index], Elements(InOrder(HeldByOthersOf(subjects, index))));
    var only := NotBehind(h, subjects[index], HeldByOthersOf(subjects, index));
    assert |only| == 0 <==> only == {};
  }

  /** A clone that could not be read has no figures, and one without a commit has nothing to lose. */
  lemma NothingToCount(h: History, subjects: seq<Subject>, index: nat)
    requires index < |subjects|
    ensures
      var (reading, proof) := (subjects[index].reading, ProofOf(h, subjects, index));
      && (reading.unreadable.Some? ==> proof == Proved(None, None, Some(Unreadable(reading.unreadable.value)), []))
      && (reading.unreadable.None? && reading.head.None? ==> proof == Proved(Some(0), Some(0), None, []))
  {
    hide Freshest, HeldByOthersOf, InOrder, BelievedOf;
  }

  // The tips that are trusted.

  /** Where a list of remote refs has a branch: the first entry of that name. */
  ghost predicate Names(remotes: seq<RemoteTip>, branch: string, tip: Oid) {
    exists k :: 0 <= k < |remotes| && remotes[k] == RemoteTip(branch, tip)
      && forall j :: 0 <= j < k ==> remotes[j].branch != branch
  }

  ghost predicate NamesBranch(remotes: seq<RemoteTip>, branch: string) {
    exists remote :: remote in remotes && remote.branch == branch
  }

  /** The first witness that names the branch has this tip for it. */
  ghost predicate NamedByFirst(witnesses: seq<Subject>, branch: string, tip: Oid) {
    exists i :: 0 <= i < |witnesses| && Names(witnesses[i].reading.remotes, branch, tip)
      && forall j :: 0 <= j < i ==> !NamesBranch(witnesses[j].reading.remotes, branch)
  }

  /** The first witness that Git answers in stores the tip and still has it behind a remote ref. */
  ghost predicate ReachedByFirst(h: History, witnesses: seq<Subject>, tip: Oid) {
    exists i :: 0 <= i < |witnesses| && Reaches(h, witnesses[i], tip)
      && forall j :: 0 <= j < i ==> !GitAnswers(witnesses[j])
  }

  ghost predicate GitAnswers(voucher: Subject) {
    forall asked :: asked in voucher.store.failing ==> asked != Stores && asked != AmongOutside
  }

  ghost predicate Reaches(h: History, voucher: Subject, tip: Oid) {
    && GitAnswers(voucher) && tip in h && tip in voucher.store.objects
    && BehindOne(View(h, voucher.store), RemoteOids(voucher.reading.remotes), tip)
  }

  lemma {:induction false} TipOfIsNamed(remotes: seq<RemoteTip>, branch: string, tip: Oid)
    ensures TipOf(remotes, branch) == Some(tip) <==> Names(remotes, branch, tip)
    ensures TipOf(remotes, branch).Some? <==> NamesBranch(remotes, branch)
  {
    if remotes != [] {
      var rest := remotes[1..];
      TipOfIsNamed(rest, branch, tip);
      assert forall r :: r in remotes <==> r == remotes[0] || r in rest;
      if remotes[0].branch == branch {
        assert remotes[0] in remotes;
        assert Names(remotes, branch, tip) <==> remotes[0].oid == tip;
      } else {
        if Names(rest, branch, tip) {
          var k :| 0 <= k < |rest| && rest[k] == RemoteTip(branch, tip) && forall j :: 0 <= j < k ==> rest[j].branch != branch;
          assert remotes[k + 1] == RemoteTip(branch, tip);
        }
        if Names(remotes, branch, tip) {
          var k :| 0 <= k < |remotes| && remotes[k] == RemoteTip(branch, tip) && forall j :: 0 <= j < k ==> remotes[j].branch != branch;
          assert rest[k - 1] == RemoteTip(branch, tip);
          assert forall j :: 0 <= j < k - 1 ==> rest[j] == remotes[j + 1];
        }
      }
    }
  }

  lemma {:induction false} WitnessedIsNamed(witnesses: seq<Subject>, branch: string, tip: Oid)
    ensures Witnessed(witnesses, branch) == Some(tip) <==> NamedByFirst(witnesses, branch, tip)
  {
    hide Names, NamesBranch;
    if witnesses != [] {
      var rest := witnesses[1..];
      WitnessedIsNamed(rest, branch, tip);
      TipOfIsNamed(witnesses[0].reading.remotes, branch, tip);
      NamesIsAName(witnesses, branch, tip);
      if !NamesBranch(witnesses[0].reading.remotes, branch) {
        if NamedByFirst(rest, branch, tip) {
          var i :| 0 <= i < |rest| && Names(rest[i].reading.remotes, branch, tip)
            && forall j :: 0 <= j < i ==> !NamesBranch(rest[j].reading.remotes, branch);
          assert witnesses[i + 1] == rest[i];
          assert forall j :: 0 < j < i + 1 ==> witnesses[j] == rest[j - 1];
        }
        if NamedByFirst(witnesses, branch, tip) {
          var i :| 0 <= i < |witnesses| && Names(witnesses[i].reading.remotes, branch, tip)
            && forall j :: 0 <= j < i ==> !NamesBranch(witnesses[j].reading.remotes, branch);
          assert rest[i - 1] == witnesses[i];
          assert forall j :: 0 <= j < i - 1 ==> rest[j] == witnesses[j + 1];
        }
      }
    }
  }

  lemma NamesIsAName(witnesses: seq<Subject>, branch: string, tip: Oid)
    ensures forall i ::
      0 <= i < |witnesses| && Names(witnesses[i].reading.remotes, branch, tip) ==> NamesBranch(witnesses[i].reading.remotes, branch)
  {
  }

  lemma {:induction false} ConfirmedIsReached(h: History, subject: Subject, witnesses: seq<Subject>, tip: Oid)
    ensures tip in ConfirmedBy(h, subject, witnesses)
      <==> (exists remote :: remote in subject.reading.remotes && remote.oid == tip) && ReachedByFirst(h, witnesses, tip)
  {
    hide BehindOne, Ancestors;
    if witnesses != [] {
      var (first, rest) := (witnesses[0], witnesses[1..]);
      ConfirmedIsReached(h, subject, rest, tip);
      BehindOneIsAncestor(View(h, first.store), RemoteOids(first.reading.remotes), tip);
      assert Answers(first) <==> GitAnswers(first);
      hide View, RemoteOids;
      if !GitAnswers(first) {
        if ReachedByFirst(h, rest, tip) {
          var i :| 0 <= i < |rest| && Reaches(h, rest[i], tip) && forall j :: 0 <= j < i ==> !GitAnswers(rest[j]);
          assert witnesses[i + 1] == rest[i];
          assert forall j :: 0 < j < i + 1 ==> witnesses[j] == rest[j - 1];
        }
        if ReachedByFirst(h, witnesses, tip) {
          var i :| 0 <= i < |witnesses| && Reaches(h, witnesses[i], tip) && forall j :: 0 <= j < i ==> !GitAnswers(witnesses[j]);
          assert rest[i - 1] == witnesses[i];
          assert forall j :: 0 <= j < i - 1 ==> rest[j] == witnesses[j + 1];
        }
      }
    }
  }

  /** Which tips are trusted for a clone: where the first witness naming one of its branches has that branch,
      and its own tips that the first witness Git answers in still has behind its reading of the remote. */
  lemma TrustedExactly(h: History, subjects: seq<Subject>, index: nat, tip: Oid)
    requires index < |subjects|
    ensures
      var (mine, witnesses) := (subjects[index].reading.remotes, Freshest(subjects, index));
      tip in TrustedTips(h, subjects, index)
      <==> exists remote :: remote in mine
             && (NamedByFirst(witnesses, remote.branch, tip) || (remote.oid == tip && ReachedByFirst(h, witnesses, tip)))
  {
    hide Freshest, Witnessed, ConfirmedBy, NamedByFirst, ReachedByFirst;
    var (subject, witnesses) := (subjects[index], Freshest(subjects, index));
    var mine := subject.reading.remotes;
    ConfirmedIsReached(h, subject, witnesses, tip);
    forall remote | remote in mine
      ensures Witnessed(witnesses, remote.branch) == Some(tip) <==> NamedByFirst(witnesses, remote.branch, tip)
    {
      WitnessedIsNamed(witnesses, remote.branch, tip);
    }
    if witnesses == [] {
      NoneOfNobody(h, tip, mine);
    } else {
      assert TrustedTips(h, subjects, index) == WitnessedTips(witnesses, mine) + ConfirmedBy(h, subject, witnesses);
    }
  }

  lemma NoneOfNobody(h: History, tip: Oid, mine: seq<RemoteTip>)
    ensures !ReachedByFirst(h, [], tip) && forall remote :: remote in mine ==> !NamedByFirst([], remote.branch, tip)
  {
  }

  // Who vouches, and who holds.

  /** A clone may vouch for the refs of another: it fetches every branch, was read, and heard from the
      remote later than the other did. */
  ghost predicate MayVouch(voucher: CloneReading, reading: CloneReading) {
    && voucher.complete && voucher.unreadable == None
    && exists early, late :: reading.heard == Some(early) && voucher.heard == Some(late) && early < late
  }

  lemma FresherExactly(voucher: CloneReading, reading: CloneReading)
    ensures Fresher(voucher, reading) <==> MayVouch(voucher, reading)
  {
    if Fresher(voucher, reading) {
      assert voucher.heard == Some(voucher.heard.value) && reading.heard == Some(reading.heard.value);
    }
  }

  /** Who vouches for a clone: of the other clones that may, every one that heard from the remote last. */
  lemma VouchersExactly(subjects: seq<Subject>, index: nat, w: Subject)
    requires index < |subjects|
    ensures w in Freshest(subjects, index) <==>
      && (exists j :: 0 <= j < |subjects| && j != index && subjects[j] == w && MayVouch(w.reading, subjects[index].reading))
      && forall k :: 0 <= k < |subjects| && k != index && MayVouch(subjects[k].reading, subjects[index].reading) ==>
          subjects[k].reading.heard.GetOr(0) <= w.reading.heard.GetOr(0)
  {
    hide Freshest, Fresher, MayVouch;
    FreshestAreTheLatest(subjects, index, w);
    forall k | 0 <= k < |subjects|
      ensures Qualifies(subjects, index, k) <==> k != index && MayVouch(subjects[k].reading, subjects[index].reading)
      ensures Qualifies(subjects, index, k) ==> subjects[k].reading.heard.Some?
    {
      FresherExactly(subjects[k].reading, subjects[index].reading);
      HeardWhenFresher(subjects[k].reading, subjects[index].reading);
    }
    hide Qualifies;
  }

  lemma HeardWhenFresher(voucher: CloneReading, reading: CloneReading)
    ensures Fresher(voucher, reading) ==> voucher.heard.Some?
  {
  }

  /** The clone was read, goes back all the way, and has the tip. */
  ghost predicate HasWhole(reading: CloneReading, tip: Oid) {
    reading.unreadable == None && !reading.shallow && tip in reading.tips
  }

  /** The tips held elsewhere: those another clone has whole. */
  lemma HeldByOthersExactly(subjects: seq<Subject>, index: nat, tip: Oid)
    requires index < |subjects|
    ensures tip in HeldByOthersOf(subjects, index)
      <==> exists j :: 0 <= j < |subjects| && j != index && HasWhole(subjects[j].reading, tip)
  {
    if j :| 0 <= j < |subjects| && j != index && HasWhole(subjects[j].reading, tip) {
      assert subjects[j] in subjects && tip in MineOf(subjects[j]);
    }
  }
}
