/** What the uniqueness proof is worth to somebody who deletes a clone it calls unique in nothing. */
module UniqueSafety {
  import opened Wrappers
  import opened Ascending
  import opened CommitGraph
  import opened Unique

  // Deletion safety.

  /** Another clone that may stand as a copy holds the commit, behind one of its refs. */
  ghost predicate HasSecondCopy(h: History, subjects: seq<Subject>, index: nat, c: Oid) {
    exists j, tip :: 0 <= j < |subjects| && j != index && Witnessable(subjects[j].reading)
      && tip in subjects[j].reading.tips
      && c in Ancestors(h, {tip}) && c in subjects[j].store.objects
  }

  /** The commit is behind a remote-tracking ref of a clone that vouches for this one. */
  ghost predicate SeenOnRemote(h: History, vouchers: seq<Subject>, c: Oid) {
    exists w, remote :: w in vouchers && remote in w.reading.remotes && c in Ancestors(h, {remote.oid})
  }

  /** Every commit `HEAD` of a clone has, as far as its own object store goes back. */
  function OwnHistory(h: History, subject: Subject): set<Oid> {
    if subject.reading.head.None? then {}
    else Ancestors(View(h, subject.store), {subject.reading.head.value})
  }

  lemma WitnessedComesFromWitness(witnesses: seq<Subject>, branch: string)
    requires Witnessed(witnesses, branch).Some?
    ensures exists w, remote :: w in witnesses && remote in w.reading.remotes && remote.oid == Witnessed(witnesses, branch).value
  {
    var remotes := witnesses[0].reading.remotes;
    if TipOf(remotes, branch).Some? {
      TipOfIsOneOfThem(remotes, branch);
      var remote :| remote in remotes && remote.oid == TipOf(remotes, branch).value;
      assert witnesses[0] in witnesses;
    } else {
      WitnessedComesFromWitness(witnesses[1..], branch);
    }
  }

  lemma TipOfIsOneOfThem(remotes: seq<RemoteTip>, branch: string)
    requires TipOf(remotes, branch).Some?
    ensures exists remote :: remote in remotes && remote.branch == branch && remote.oid == TipOf(remotes, branch).value
  {
    if remotes[0].branch != branch {
      TipOfIsOneOfThem(remotes[1..], branch);
    } else {
      assert remotes[0] in remotes;
    }
  }

  lemma ConfirmedIsStillReached(h: History, subject: Subject, witnesses: seq<Subject>, tip: Oid)
    requires tip in ConfirmedBy(h, subject, witnesses)
    ensures exists w, remote :: w in witnesses && remote in w.reading.remotes && tip in Ancestors(h, {remote.oid})
  {
    if Answers(witnesses[0]) {
      var w := witnesses[0];
      var v := View(h, w.store);
      AncestorOfOne(v, RemoteOids(w.reading.remotes), tip);
      var oid :| oid in RemoteOids(w.reading.remotes) && oid in v && tip in Ancestors(v, {oid});
      var remote :| remote in w.reading.remotes && remote.oid == oid;
      ViewReachesLess(h, w.store, {oid});
      assert w in witnesses;
    } else {
      ConfirmedIsStillReached(h, subject, witnesses[1..], tip);
    }
  }

  /** Whatever this run trusts, the witnesses' own reading of the remote reaches. */
  lemma TrustedIsSeenOnRemote(h: History, subject: Subject, witnesses: seq<Subject>, tip: Oid, c: Oid)
    requires tip in BelievedOf(h, subject, witnesses).tips && tip in h
    requires c in Ancestors(h, {tip})
    ensures SeenOnRemote(h, witnesses, c)
  {
    var believed := WitnessedTips(witnesses, subject.reading.remotes) + ConfirmedBy(h, subject, witnesses);
    assert tip in Elements(InOrder(believed));
    if tip in ConfirmedBy(h, subject, witnesses) {
      ConfirmedIsStillReached(h, subject, witnesses, tip);
      var w, remote :| w in witnesses && remote in w.reading.remotes && tip in Ancestors(h, {remote.oid});
      AncestorsAreTransitive(h, {remote.oid}, {tip});
    } else {
      var mine :| mine in subject.reading.remotes && Witnessed(witnesses, mine.branch) == Some(tip);
      WitnessedComesFromWitness(witnesses, mine.branch);
    }
  }

  /** A tip another clone of the group holds is a second copy of everything behind it. */
  lemma ElsewhereIsSecondCopy(h: History, subjects: seq<Subject>, index: nat, tip: Oid, c: Oid)
    requires forall s :: s in subjects ==> Sound(h, s)
    requires HeldElsewhere(subjects, index, tip)
    requires c in Ancestors(h, {tip})
    ensures HasSecondCopy(h, subjects, index, c)
  {
    var j :| 0 <= j < |subjects| && j != index && tip in MineOf(subjects[j]);
    assert Sound(h, subjects[j]) by { assert subjects[j] in subjects; }
    WholeStoreHoldsHistory(h, subjects[j], tip);
  }

  /** Everything a zero in the uniqueness column was counted against. */
  ghost function CountedAgainst(h: History, subjects: seq<Subject>, index: nat): set<Oid>
    requires index < |subjects|
  {
    Elements(BelievedOf(h, subjects[index], Freshest(subjects, index)).tips) + HeldByOthersOf(subjects, index)
  }

  /** The verdict is exact: where Git answered, a clone with a commit is reported as the
      only copy of nothing if and only if every commit of its HEAD is behind a tip it has
      that a fresher clone vouches for or another clone holds. */
  lemma NothingUniqueExactly(h: History, subjects: seq<Subject>, index: nat)
    requires index < |subjects|
    requires subjects[index].reading.unreadable.None? && subjects[index].reading.head.Some?
    requires subjects[index].store.failing == {}
    ensures ProofOf(h, subjects, index).onlyCopy == Some(0)
      <==> forall c :: c in OwnHistory(h, subjects[index]) ==>
        BehindOne(View(h, subjects[index].store), CountedAgainst(h, subjects, index), c)
  {
    ZeroIsOfAll(h, subjects, index);
    NothingOutside(View(h, subjects[index].store), subjects[index].reading.head.value, CountedAgainst(h, subjects, index));
    hide ProofOf, BehindOne, Ancestors, View, CountedAgainst, CountOutside;
  }

  /** Whichever of the three counts decides, it is zero when the count against everything is. */
  lemma ZeroIsOfAll(h: History, subjects: seq<Subject>, index: nat)
    requires index < |subjects|
    requires subjects[index].reading.unreadable.None? && subjects[index].reading.head.Some?
    requires subjects[index].store.failing == {}
    ensures ProofOf(h, subjects, index).onlyCopy == Some(0)
       <==> CountOutside(View(h, subjects[index].store), subjects[index].reading.head.value,
                         CountedAgainst(h, subjects, index)) == 0
  {
    hide CountOutside, BelievedOf, Freshest, HeldByOthersOf, InOrder, View, CountedAgainst;
    var v, head := View(h, subjects[index].store), subjects[index].reading.head.value;
    var trusted := BelievedOf(h, subjects[index], Freshest(subjects, index));
    CountedTogether(h, subjects, index);
    CountShrinks(v, head, Elements(trusted.tips), CountedAgainst(h, subjects, index));
    hide Elements;
  }

  lemma CountShrinks(v: History, head: Oid, few: set<Oid>, many: set<Oid>)
    requires few <= many
    ensures CountOutside(v, head, few) == 0 ==> CountOutside(v, head, many) == 0
  {
    AncestorsGrow(v, few, many);
    hide Ancestors;
    var own, a, b := Ancestors(v, {head}), Ancestors(v, few), Ancestors(v, many);
    if own - a == {} {
      assert own - b == {};
    }
  }

  lemma CountedTogether(h: History, subjects: seq<Subject>, index: nat)
    requires index < |subjects|
    ensures
      var trusted := BelievedOf(h, subjects[index], Freshest(subjects, index));
      var elsewhere := InOrder(HeldByOthersOf(subjects, index));
      && Elements(trusted.tips + elsewhere) == CountedAgainst(h, subjects, index)
      && Elements(trusted.tips) <= CountedAgainst(h, subjects, index)
      && (trusted.witnesses == [] ==> Elements(elsewhere) == CountedAgainst(h, subjects, index))
  {
    hide HeldByOthersOf, Freshest;
    var trusted := BelievedOf(h, subjects[index], Freshest(subjects, index));
    var elsewhere := InOrder(HeldByOthersOf(subjects, index));
    ElementsOfBoth(trusted.tips, elsewhere);
    if trusted.witnesses == [] {
      assert Freshest(subjects, index) == [];
    }
  }

  /** The promise of the uniqueness column: if the proof says a clone is the only copy of
      nothing, every commit its HEAD has here survives the deletion of that clone, in
      another clone's object store or behind a remote ref of the freshest witness. */
  lemma DeletionSafety(h: History, subjects: seq<Subject>, index: nat, c: Oid)
    requires index < |subjects| && forall s :: s in subjects ==> Sound(h, s)
    requires ProofOf(h, subjects, index).onlyCopy == Some(0)
    requires c in OwnHistory(h, subjects[index])
    ensures HasSecondCopy(h, subjects, index, c) || SeenOnRemote(h, Freshest(subjects, index), c)
  {
    var subject := subjects[index];
    var head := subject.reading.head.value;
    var v := View(h, subject.store);
    var trusted := BelievedOf(h, subject, Freshest(subjects, index));
    var elsewhere := InOrder(HeldByOthersOf(subjects, index));
    var tip := CoveringTip(h, subjects, index, c);
    ViewReachesLess(h, subject.store, {tip});
    if tip in trusted.tips {
      TrustedIsSeenOnRemote(h, subject, Freshest(subjects, index), tip, c);
    } else {
      ElsewhereIsSecondCopy(h, subjects, index, tip, c);
    }
  }

  /** The tip that answers for one commit of a clone called unique in nothing. */
  lemma CoveringTip(h: History, subjects: seq<Subject>, index: nat, c: Oid) returns (tip: Oid)
    requires index < |subjects|
    requires ProofOf(h, subjects, index).onlyCopy == Some(0)
    requires c in OwnHistory(h, subjects[index])
    ensures tip in View(h, subjects[index].store) && c in Ancestors(View(h, subjects[index].store), {tip})
    ensures tip in BelievedOf(h, subjects[index], Freshest(subjects, index)).tips || HeldElsewhere(subjects, index, tip)
  {
    var subject := subjects[index];
    var v := View(h, subject.store);
    var trusted := BelievedOf(h, subject, Freshest(subjects, index));
    var elsewhere := InOrder(HeldByOthersOf(subjects, index));
    var held := ZeroWasCounted(h, subject, trusted, elsewhere);
    NothingOutside(v, subject.reading.head.value, held);
    assert BehindOne(v, held, c);
    tip :| tip in held && tip in v && c in Ancestors(v, {tip});
    if tip !in trusted.tips {
      assert tip in Elements(elsewhere);
    }
  }

  /** A zero is always the answer of one count against tips that were trusted or held. */
  lemma ZeroWasCounted(h: History, subject: Subject, trusted: Trusted, elsewhere: seq<Oid>) returns (held: set<Oid>)
    requires One(h, subject, trusted, elsewhere).onlyCopy == Some(0)
    requires subject.reading.head.Some?
    ensures held <= Elements(trusted.tips) + Elements(elsewhere)
    ensures CountOutside(View(h, subject.store), subject.reading.head.value, held) == 0
  {
    hide Ancestors, View, CountOutside;
    if trusted.witnesses == [] && subject.reading.remotes != [] {
      held := Elements(elsewhere);
    } else if CountOutside(View(h, subject.store), subject.reading.head.value, Elements(trusted.tips)) == 0 {
      held := Elements(trusted.tips);
    } else {
      held := Elements(trusted.tips + elsewhere);
      ElementsOfBoth(trusted.tips, elsewhere);
    }
  }

  lemma ElementsOfBoth<T>(a: seq<T>, b: seq<T>)
    ensures Elements(a + b) == Elements(a) + Elements(b)
  {
  }

  // Only the freshest reading counts.

  ghost predicate Qualifies(subjects: seq<Subject>, index: nat, j: nat)
    requires index < |subjects| && j < |subjects|
  {
    j != index && Fresher(subjects[j].reading, subjects[index].reading)
  }

  lemma {:induction false} CandidatesAreThose(subjects: seq<Subject>, skip: int, subject: Subject, s: Subject)
    ensures s in Candidates(subjects, skip, subject)
      <==> exists j :: 0 <= j < |subjects| && j != skip && subjects[j] == s && Fresher(s.reading, subject.reading)
  {
    if subjects != [] {
      var rest := subjects[1..];
      CandidatesAreThose(rest, skip - 1, subject, s);
      if j :| 0 <= j < |rest| && j != skip - 1 && rest[j] == s && Fresher(s.reading, subject.reading) {
        assert subjects[j + 1] == s && j + 1 != skip;
      }
      if j :| 0 <= j < |subjects| && j != skip && subjects[j] == s && Fresher(s.reading, subject.reading) {
        assert j == 0 || rest[j - 1] == s;
      }
    }
  }

  lemma {:induction false} LatestIsTheMaximum(candidates: seq<Subject>)
    ensures forall s :: s in candidates && s.reading.heard.Some? ==>
      Latest(candidates).Some? && s.reading.heard.value <= Latest(candidates).value
    ensures Latest(candidates).Some? ==> exists s :: s in candidates && s.reading.heard == Latest(candidates)
  {
    if candidates != [] {
      LatestIsTheMaximum(candidates[1..]);
      assert candidates[0] in candidates;
      if Latest(candidates) != candidates[0].reading.heard && Latest(candidates).Some? {
        var s :| s in candidates[1..] && s.reading.heard == Latest(candidates);
        assert s in candidates;
      }
      forall s | s in candidates ensures s == candidates[0] || s in candidates[1..] {
      }
    }
  }

  lemma {:induction false} HeardAtKeepsThose(candidates: seq<Subject>, at: nat, s: Subject)
    ensures s in HeardAt(candidates, at) <==> s in candidates && s.reading.heard == Some(at)
  {
    if candidates != [] {
      HeardAtKeepsThose(candidates[1..], at, s);
      assert s in candidates <==> s == candidates[0] || s in candidates[1..];
    }
  }

  /** Who the freshest witnesses of a clone are: the other clones that qualify and that no
      qualifying clone has heard later than. So a clone never vouches for itself. */
  lemma FreshestAreTheLatest(subjects: seq<Subject>, index: nat, w: Subject)
    requires index < |subjects|
    ensures w in Freshest(subjects, index) <==>
      && (exists j :: 0 <= j < |subjects| && subjects[j] == w && Qualifies(subjects, index, j))
      && forall k :: 0 <= k < |subjects| && Qualifies(subjects, index, k) ==>
          subjects[k].reading.heard.value <= w.reading.heard.GetOr(0)
  {
    hide Candidates, Latest, HeardAt;
    var candidates := Candidates(subjects, index, subjects[index]);
    QualifyingAreCandidates(subjects, index, w);
    LatestIsTheMaximum(candidates);
    hide Qualifies;
    forall k | 0 <= k < |subjects| && Qualifies(subjects, index, k)
      ensures Latest(candidates).Some? && subjects[k].reading.heard.Some?
      ensures subjects[k].reading.heard.value <= Latest(candidates).value
    {
      QualifyingAreCandidates(subjects, index, subjects[k]);
    }
    if Latest(candidates).Some? {
      HeardAtKeepsThose(candidates, Latest(candidates).value, w);
      var top :| top in candidates && top.reading.heard == Latest(candidates);
      QualifyingAreCandidates(subjects, index, top);
    }
  }

  lemma QualifyingAreCandidates(subjects: seq<Subject>, index: nat, s: Subject)
    requires index < |subjects|
    ensures s in Candidates(subjects, index, subjects[index])
      <==> exists j :: 0 <= j < |subjects| && subjects[j] == s && Qualifies(subjects, index, j)
    ensures s in Candidates(subjects, index, subjects[index]) ==> s.reading.heard.Some?
  {
    hide Candidates;
    CandidatesAreThose(subjects, index, subjects[index], s);
    if j :| 0 <= j < |subjects| && j != index && subjects[j] == s && Fresher(s.reading, subjects[index].reading) {
      assert Qualifies(subjects, index, j);
    }
  }

  /** The group with one more clone in it, at any place. */
  function With(subjects: seq<Subject>, at: nat, extra: Subject): seq<Subject>
    requires at <= |subjects|
  {
    subjects[..at] + [extra] + subjects[at..]
  }

  function Moved(index: nat, at: nat): nat {
    if at <= index then index + 1 else index
  }

  lemma {:induction false} CandidatesSplit(a: seq<Subject>, b: seq<Subject>, skip: int, subject: Subject)
    ensures Candidates(a + b, skip, subject) == Candidates(a, skip, subject) + Candidates(b, skip - |a|, subject)
  {
    if a == [] {
      assert a + b == b;
    } else {
      assert (a + b)[1..] == a[1..] + b;
      CandidatesSplit(a[1..], b, skip - 1, subject);
    }
  }

  lemma {:induction false} SkipOutOfRange(s: seq<Subject>, skip: int, other: int, subject: Subject)
    requires skip < 0 || skip >= |s|
    requires other < 0 || other >= |s|
    ensures Candidates(s, skip, subject) == Candidates(s, other, subject)
  {
    if s != [] {
      SkipOutOfRange(s[1..], skip - 1, other - 1, subject);
    }
  }

  lemma {:induction false} HeardAtSplit(a: seq<Subject>, b: seq<Subject>, at: nat)
    ensures HeardAt(a + b, at) == HeardAt(a, at) + HeardAt(b, at)
  {
    if a == [] {
      assert a + b == b;
    } else {
      assert (a + b)[1..] == a[1..] + b;
      HeardAtSplit(a[1..], b, at);
      var first := if a[0].reading.heard == Some(at) then [a[0]] else [];
      var x, y := HeardAt(a[1..], at), HeardAt(b, at);
      assert HeardAt(a, at) == first + x && HeardAt(a + b, at) == first + (x + y);
      hide HeardAt;
      assert first + (x + y) == first + x + y;
    }
  }

  /** The candidates before a place in the group, and from it on. */
  function Front(subjects: seq<Subject>, index: nat, at: nat): seq<Subject>
    requires index < |subjects| && at <= |subjects|
  {
    Candidates(subjects[..at], index, subjects[index])
  }

  function Back(subjects: seq<Subject>, index: nat, at: nat): seq<Subject>
    requires index < |subjects| && at <= |subjects|
  {
    Candidates(subjects[at..], index - at, subjects[index])
  }

  lemma CandidatesAround(subjects: seq<Subject>, index: nat, at: nat)
    requires index < |subjects| && at <= |subjects|
    ensures Candidates(subjects, index, subjects[index]) == Front(subjects, index, at) + Back(subjects, index, at)
  {
    hide Candidates;
    assert subjects == subjects[..at] + subjects[at..];
    CandidatesSplit(subjects[..at], subjects[at..], index, subjects[index]);
  }

  /** The candidates of the larger group are the candidates of the smaller one with the new
      clone among them where it qualifies. */
  lemma OneCandidate(extra: Subject, skip: int, subject: Subject)
    requires skip != 0
    ensures Candidates([extra], skip, subject) == if Fresher(extra.reading, subject.reading) then [extra] else []
  {
    assert [extra][1..] == [];
  }

  lemma CandidatesWith(subjects: seq<Subject>, index: nat, at: nat, extra: Subject)
    requires index < |subjects| && at <= |subjects|
    ensures With(subjects, at, extra)[Moved(index, at)] == subjects[index]
    ensures Candidates(With(subjects, at, extra), Moved(index, at), subjects[index])
      == Front(subjects, index, at)
         + (if Fresher(extra.reading, subjects[index].reading) then [extra] else [])
         + Back(subjects, index, at)
  {
    hide Candidates;
    var subject := subjects[index];
    var front, back := subjects[..at], subjects[at..];
    var moved := Moved(index, at);
    assert With(subjects, at, extra) == front + ([extra] + back);
    OneCandidate(extra, moved - at, subject);
    CandidatesSplit(front, [extra] + back, moved, subject);
    CandidatesSplit([extra], back, moved - at, subject);
    if at <= index {
      SkipOutOfRange(front, index, moved, subject);
    } else {
      SkipOutOfRange(back, index - at, moved - at - 1, subject);
    }
    hide Fresher;
    Between(Front(subjects, index, at), if Fresher(extra.reading, subject.reading) then [extra] else [], Back(subjects, index, at));
  }

  lemma Between<T>(a: seq<T>, b: seq<T>, c: seq<T>)
    ensures a + (b + c) == a + b + c
  {
  }

  lemma {:induction false} LatestSplit(a: seq<Subject>, b: seq<Subject>)
    ensures Latest(a + b) == Later(Latest(a), Latest(b))
  {
    if a == [] {
      assert a + b == b;
    } else {
      assert (a + b)[1..] == a[1..] + b;
      LatestSplit(a[1..], b);
    }
  }

  function Later(x: Option<nat>, y: Option<nat>): Option<nat> {
    if x.None? then y
    else if y.None? then x
    else if y.value > x.value then y
    else x
  }

  /** Whether adding this clone to the group can change who vouches for the one at
      `index`: it has to qualify, and no qualifying clone may have heard later. */
  predicate BearsOn(subjects: seq<Subject>, index: nat, extra: Subject)
    requires index < |subjects|
  {
    var latest := Latest(Candidates(subjects, index, subjects[index]));
    Fresher(extra.reading, subjects[index].reading) && (latest.None? || extra.reading.heard.value >= latest.value)
  }

  lemma LatestOfOne(extra: Subject)
    ensures Latest([extra]) == extra.reading.heard
  {
    assert [extra][1..] == [];
  }

  lemma HeardOfOne(extra: Subject)
    ensures forall at: nat :: HeardAt([extra], at) == if extra.reading.heard == Some(at) then [extra] else []
  {
    assert [extra][1..] == [];
  }

  /** A clone that is older, incomplete, unreadable, or fresher than the subject but
      strictly older than the latest reading leaves what is trusted exactly as it was. */
  lemma OlderReadingChangesNothing(h: History, subjects: seq<Subject>, index: nat, at: nat, extra: Subject)
    requires index < |subjects| && at <= |subjects|
    requires !BearsOn(subjects, index, extra)
    ensures Freshest(With(subjects, at, extra), Moved(index, at)) == Freshest(subjects, index)
    ensures BelievedOf(h, subjects[index], Freshest(With(subjects, at, extra), Moved(index, at)))
      == BelievedOf(h, subjects[index], Freshest(subjects, index))
  {
    hide Candidates, Latest, HeardAt, BelievedOf, With;
    var subject := subjects[index];
    CandidatesAround(subjects, index, at);
    CandidatesWith(subjects, index, at, extra);
    var front, back := Front(subjects, index, at), Back(subjects, index, at);
    hide Front, Back;
    if Fresher(extra.reading, subject.reading) {
      LatestOfOne(extra);
      HeardOfOne(extra);
    }
    if Fresher(extra.reading, subject.reading) {
      var latest := Latest(front + back).value;
      LatestSplit(front, back);
      LatestSplit(front + [extra], back);
      LatestSplit(front, [extra]);
      assert front + [extra] + back == (front + [extra]) + back;
      HeardAtSplit(front, back, latest);
      HeardAtSplit(front + [extra], back, latest);
      HeardAtSplit(front, [extra], latest);
    } else {
      assert front + [] + back == front + back;
    }
  }

  lemma {:induction false} NobodyHeardAfter(candidates: seq<Subject>, at: nat)
    requires Latest(candidates).None? || Latest(candidates).value < at
    ensures HeardAt(candidates, at) == []
  {
    if candidates != [] {
      NobodyHeardAfter(candidates[1..], at);
    }
  }

  /** A clone that qualifies and heard after every other qualifying clone is the only one
      asked, whatever the others hold. */
  lemma NewestReadingDecidesAlone(subjects: seq<Subject>, index: nat, at: nat, extra: Subject)
    requires index < |subjects| && at <= |subjects|
    requires Fresher(extra.reading, subjects[index].reading)
    requires var latest := Latest(Candidates(subjects, index, subjects[index]));
      latest.None? || latest.value < extra.reading.heard.value
    ensures Freshest(With(subjects, at, extra), Moved(index, at)) == [extra]
  {
    var subject := subjects[index];
    CandidatesAround(subjects, index, at);
    CandidatesWith(subjects, index, at, extra);
    hide Candidates, With;
    LatestAlone(Front(subjects, index, at), extra, Back(subjects, index, at));
  }

  /** One that heard after all others is the latest, alone. */
  lemma LatestAlone(front: seq<Subject>, extra: Subject, back: seq<Subject>)
    requires extra.reading.heard.Some?
    requires Latest(front + back).None? || Latest(front + back).value < extra.reading.heard.value
    ensures Latest(front + [extra] + back) == extra.reading.heard
    ensures HeardAt(front + [extra] + back, extra.reading.heard.value) == [extra]
  {
    var latest := extra.reading.heard.value;
    LatestSplit(front, back);
    LatestSplit(front, [extra]);
    LatestSplit(front + [extra], back);
    NobodyHeardAfter(front, latest);
    NobodyHeardAfter(back, latest);
    HeardAtSplit(front, [extra], latest);
    HeardAtSplit(front + [extra], back, latest);
  }
}
