/** A checkout whose refs change while surveys, any number at once, refresh homes from it; any
    step may fail and any survey die. What a recorded stamp promises, and when it is enough. */
module RefreshRuns {
  import opened Wrappers
  import opened Text
  import opened Refresh

  /** The checkout at one time: its refs, and the stamp a reading of it then gives. */
  datatype Version = Version(refs: Refs, stamp: Stamp)

  datatype Doing = Between | Fetching(home: nat) | Writing(home: nat)

  /** A survey reads one stamp, when it starts, and goes from home to home. */
  datatype Survey = Survey(read: nat, doing: Doing)

  /** Every version of the checkout so far, the last of them the present one. */
  datatype World = World(past: seq<Version>, homes: map<nat, State>, surveys: map<nat, Survey>)

  datatype Event =
    | Changes(version: Version)
    | Starts(survey: nat)
    | Looks(survey: nat, at: nat)
    | Fetches(survey: nat)
    | FetchFails(survey: nat)
    | Writes(survey: nat)
    | WriteFails(survey: nat, left: Option<nat>)
    | DiesWriting(survey: nat, left: Option<nat>)
    | Dies(survey: nat)

  predicate WellFormed(w: World) {
    && w.past != []
    && forall s :: s in w.surveys ==>
                     && w.surveys[s].read < |w.past|
                     && (w.surveys[s].doing.Fetching? ==> w.surveys[s].doing.home in w.homes)
                     && (w.surveys[s].doing.Writing? ==> w.surveys[s].doing.home in w.homes)
  }

  function Now(w: World): Version
    requires WellFormed(w)
  {
    w.past[|w.past| - 1]
  }

  function Stamped(w: World, s: nat): Stamp
    requires WellFormed(w) && s in w.surveys
  {
    w.past[w.surveys[s].read].stamp
  }

  function Goes(w: World, s: nat, doing: Doing): World
    requires s in w.surveys
  {
    w.(surveys := w.surveys[s := w.surveys[s].(doing := doing)])
  }

  /** One step. A step that is not the survey's next one does nothing. */
  function Step(w: World, e: Event): (next: World)
    requires WellFormed(w)
    ensures WellFormed(next)
  {
    match e
    case Changes(version) => w.(past := w.past + [version])
    case Starts(s) => w.(surveys := w.surveys[s := Survey(|w.past| - 1, Between)])
    case Looks(s, home) =>
      if s !in w.surveys || !w.surveys[s].doing.Between? || home !in w.homes then w
      else if !Stamped(w, s).readable || Matches(w.homes[home], Stamped(w, s)) then w
      else Goes(w, s, Fetching(home))
    case Fetches(s) =>
      if s !in w.surveys || !w.surveys[s].doing.Fetching? || !Now(w).stamp.readable then w
      else
        var home := w.surveys[s].doing.home;
        Goes(w, s, Writing(home)).(homes := w.homes[home := w.homes[home].(mirror := Now(w).refs)])
    case FetchFails(s) =>
      if s !in w.surveys || !w.surveys[s].doing.Fetching? then w else Goes(w, s, Between)
    case Writes(s) =>
      if s !in w.surveys || !w.surveys[s].doing.Writing? then w
      else
        var home := w.surveys[s].doing.home;
        Goes(w, s, Between).(homes := w.homes[home := Recorded(w.homes[home], Stamped(w, s))])
    case WriteFails(s, left) =>
      if s !in w.surveys || !w.surveys[s].doing.Writing? then w
      else
        var home := w.surveys[s].doing.home;
        Goes(w, s, Between).(homes := w.homes[home := CutShort(w.homes[home], Stamped(w, s), left)])
    case DiesWriting(s, left) =>
      if s !in w.surveys || !w.surveys[s].doing.Writing? then w
      else
        var home := w.surveys[s].doing.home;
        w.(surveys := w.surveys - {s}, homes := w.homes[home := CutShort(w.homes[home], Stamped(w, s), left)])
    case Dies(s) => w.(surveys := w.surveys - {s})
  }

  function Run(w: World, events: seq<Event>): (end: World)
    requires WellFormed(w)
    ensures WellFormed(end)
    decreases events
  {
    if events == [] then w else Run(Step(w, events[0]), events[1..])
  }

  // What holds at every moment.

  /** The mirror is what a fetch took from version `since` or a later one. */
  ghost predicate AsOf(past: seq<Version>, mirror: Refs, since: nat) {
    exists k :: since <= k < |past| && past[k].stamp.readable && past[k].refs == mirror
  }

  /** A line a dying write left unfinished; no stamp ends without a newline. */
  predicate Torn(file: string) {
    file == "" || file[|file| - 1] != '\n'
  }

  ghost predicate RecordedFrom(past: seq<Version>, home: State, s: nat) {
    s < |past| && past[s].stamp.readable && home.file == Some(Line(past[s].stamp)) && AsOf(past, home.mirror, s)
  }

  ghost predicate FileIsHonest(past: seq<Version>, home: State) {
    home.file.Some? && !Torn(home.file.value) ==> exists s: nat :: RecordedFrom(past, home, s)
  }

  ghost predicate SurveyIsHonest(w: World, s: nat)
    requires WellFormed(w) && s in w.surveys
  {
    && (!w.surveys[s].doing.Between? ==> Stamped(w, s).readable)
    && (w.surveys[s].doing.Writing? ==> AsOf(w.past, w.homes[w.surveys[s].doing.home].mirror, w.surveys[s].read))
  }

  ghost predicate Honest(w: World) {
    && WellFormed(w)
    && (forall h :: h in w.homes ==> FileIsHonest(w.past, w.homes[h]))
    && (forall s :: s in w.surveys ==> SurveyIsHonest(w, s))
  }

  /** Homes just made, and no survey yet. */
  ghost predicate Start(w: World) {
    w.past != [] && w.surveys == map[] && forall h :: h in w.homes ==> w.homes[h].file.None?
  }

  lemma AsOfLater(past: seq<Version>, v: Version, mirror: Refs, since: nat)
    requires AsOf(past, mirror, since)
    ensures AsOf(past + [v], mirror, since)
  {
    var k :| since <= k < |past| && past[k].stamp.readable && past[k].refs == mirror;
    assert (past + [v])[k] == past[k];
  }

  /** Cut short anywhere, a line is torn. */
  lemma CutLinesAreTorn(s: Stamp, written: nat)
    requires written < |Line(s)|
    ensures Torn(Line(s)[..written])
    ensures !Torn(Line(s))
  {
    var digits := Decimal(s.newest) + " " + Decimal(s.entries);
    assert Line(s) == digits + "\n";
    assert forall i :: 0 <= i < |digits| ==> digits[i] != '\n';
  }

  lemma ChangingIsHonest(w: World, v: Version)
    requires Honest(w)
    ensures Honest(Step(w, Changes(v)))
  {
    var past := w.past + [v];
    forall h | h in w.homes && w.homes[h].file.Some? && !Torn(w.homes[h].file.value)
      ensures exists s: nat :: RecordedFrom(past, w.homes[h], s)
    {
      var s: nat :| RecordedFrom(w.past, w.homes[h], s);
      AsOfLater(w.past, v, w.homes[h].mirror, s);
      assert past[s] == w.past[s];
      assert RecordedFrom(past, w.homes[h], s);
    }
    forall s | s in w.surveys
      ensures SurveyIsHonest(Step(w, Changes(v)), s)
    {
      assert past[w.surveys[s].read] == w.past[w.surveys[s].read];
      if w.surveys[s].doing.Writing? {
        AsOfLater(w.past, v, w.homes[w.surveys[s].doing.home].mirror, w.surveys[s].read);
      }
    }
  }

  /** A fetch takes the present version, which is as of every version there has been. */
  lemma FetchingIsHonest(w: World, s: nat)
    requires Honest(w)
    ensures Honest(Step(w, Fetches(s)))
  {
    if s in w.surveys && w.surveys[s].doing.Fetching? && Now(w).stamp.readable {
      var home := w.surveys[s].doing.home;
      var next := Step(w, Fetches(s));
      assert forall since: nat :: since < |w.past| ==> AsOf(w.past, Now(w).refs, since);
      var h := next.homes[home];
      if h.file.Some? && !Torn(h.file.value) {
        var from: nat :| RecordedFrom(w.past, w.homes[home], from);
        assert RecordedFrom(w.past, h, from);
      }
      forall other | other in next.surveys
        ensures SurveyIsHonest(next, other)
      {
        assert SurveyIsHonest(w, other);
      }
    }
  }

  lemma WritingIsHonest(w: World, s: nat)
    requires Honest(w)
    ensures Honest(Step(w, Writes(s)))
  {
    if s in w.surveys && w.surveys[s].doing.Writing? {
      var home := w.surveys[s].doing.home;
      var next := Step(w, Writes(s));
      assert SurveyIsHonest(w, s);
      if next.homes[home].file != w.homes[home].file {
        assert RecordedFrom(w.past, next.homes[home], w.surveys[s].read);
      }
      assert FileIsHonest(w.past, next.homes[home]) by {
        if w.homes[home].gitDir {
          assert RecordedFrom(w.past, next.homes[home], w.surveys[s].read);
        }
      }
      forall other | other in next.surveys
        ensures SurveyIsHonest(next, other)
      {
        assert SurveyIsHonest(w, other);
      }
    }
  }

  /** A write cut short, whether or not the survey lives on. */
  lemma CuttingIsHonest(w: World, s: nat, left: Option<nat>)
    requires Honest(w)
    ensures Honest(Step(w, WriteFails(s, left))) && Honest(Step(w, DiesWriting(s, left)))
  {
    if s in w.surveys && w.surveys[s].doing.Writing? {
      var home := w.surveys[s].doing.home;
      var cut := CutShort(w.homes[home], Stamped(w, s), left);
      CutIsHonest(w.past, w.homes[home], Stamped(w, s), left);
      forall other | other in w.surveys
        ensures SurveyIsHonest(w, other)
      {
      }
      hide CutShort, FileIsHonest;
      assert cut.mirror == w.homes[home].mirror;
      SurveysStay(w, Step(w, WriteFails(s, left)));
      SurveysStay(w, Step(w, DiesWriting(s, left)));
    }
  }

  lemma CutIsHonest(past: seq<Version>, home: State, s: Stamp, left: Option<nat>)
    requires FileIsHonest(past, home)
    ensures FileIsHonest(past, CutShort(home, s, left)) && CutShort(home, s, left).mirror == home.mirror
  {
    if left.Some? && left.value < |Line(s)| {
      CutLinesAreTorn(s, left.value);
    }
  }

  lemma SurveysStay(w: World, next: World)
    requires Honest(w) && WellFormed(next) && next.past == w.past
    requires forall h :: h in w.homes ==> h in next.homes && next.homes[h].mirror == w.homes[h].mirror
    requires forall s :: s in next.surveys ==>
      && s in w.surveys
      && (next.surveys[s] == w.surveys[s] || next.surveys[s] == w.surveys[s].(doing := Between))
    ensures forall s :: s in next.surveys ==> SurveyIsHonest(next, s)
  {
    forall s | s in next.surveys
      ensures SurveyIsHonest(next, s)
    {
      assert SurveyIsHonest(w, s);
    }
  }

  lemma StepIsHonest(w: World, e: Event)
    requires Honest(w)
    ensures Honest(Step(w, e))
  {
    match e
    case Changes(v) => ChangingIsHonest(w, v);
    case Fetches(s) => FetchingIsHonest(w, s);
    case Writes(s) => WritingIsHonest(w, s);
    case WriteFails(s, left) => CuttingIsHonest(w, s, left);
    case DiesWriting(s, left) => CuttingIsHonest(w, s, left);
    case _ =>
      var next := Step(w, e);
      forall s | s in next.surveys
        ensures SurveyIsHonest(next, s)
      {
        assert s in w.surveys ==> SurveyIsHonest(w, s);
      }
  }

  /** Whatever changes, fails, dies or runs beside whatever else: a stamp a home has recorded in
      full says its mirror was fetched at or after the version that stamp was read from. */
  lemma {:induction false} RunIsHonest(w: World, events: seq<Event>)
    requires Honest(w)
    ensures Honest(Run(w, events))
    decreases events
  {
    if events != [] {
      StepIsHonest(w, events[0]);
      RunIsHonest(Step(w, events[0]), events[1..]);
    }
  }

  // When a match may be trusted.

  /** No stamp is given again after the refs were other than now: between two readings with one
      line the refs were, whenever they could be fetched, what they are at the second. */
  ghost predicate NeverReused(past: seq<Version>, now: nat)
    requires now < |past|
  {
    forall i: nat, m: nat ::
      i <= m < now && past[i].stamp.readable && past[m].stamp.readable && Line(past[i].stamp) == Line(past[now].stamp)
      ==> past[m].refs == past[now].refs
  }

  /** A survey that finds its stamp recorded, and so skips the home, skips a mirror fetched no
      earlier than the survey began. */
  lemma SkippingIsCurrent(w: World, s: nat, h: nat)
    requires Honest(w) && s in w.surveys && h in w.homes
    requires NeverReused(w.past, w.surveys[s].read)
    requires Matches(w.homes[h], Stamped(w, s))
    ensures AsOf(w.past, w.homes[h].mirror, w.surveys[s].read)
  {
    var read := w.surveys[s].read;
    var line := Line(Stamped(w, s));
    assert line[|line| - 1] == '\n';
    var from: nat :| RecordedFrom(w.past, w.homes[h], from);
    var k :| from <= k < |w.past| && w.past[k].stamp.readable && w.past[k].refs == w.homes[h].mirror;
    if k < read {
      assert w.past[from].stamp.readable && Line(w.past[from].stamp) == Line(w.past[read].stamp);
      assert w.past[read].refs == w.homes[h].mirror;
    }
  }

  /** A home whose refresh by this survey just finished is as current as one it skipped. */
  lemma FinishingIsCurrent(w: World, s: nat)
    requires Honest(w) && s in w.surveys && w.surveys[s].doing.Writing?
    ensures AsOf(w.past, Step(w, Writes(s)).homes[w.surveys[s].doing.home].mirror, w.surveys[s].read)
  {
    assert SurveyIsHonest(w, s);
  }

  ghost predicate Trusted(past: seq<Version>, w: World, h: nat)
    requires past != []
  {
    var present := past[|past| - 1];
    w.past == past && h in w.homes && Matches(w.homes[h], present.stamp) ==> w.homes[h].mirror == present.refs
  }

  ghost predicate Arises(w: World, start: World, events: seq<Event>) {
    WellFormed(start) && Start(start) && Run(start, events) == w
  }

  /** A match with the present stamp is trusted in every world any run leads to. */
  ghost predicate MatchIsCurrent(past: seq<Version>)
    requires past != []
  {
    forall w, start, events, h :: Arises(w, start, events) ==> Trusted(past, w, h)
  }

  lemma UnusedStampsAreTrusted(past: seq<Version>, w: World, start: World, events: seq<Event>, h: nat)
    requires past != [] && NeverReused(past, |past| - 1)
    requires Arises(w, start, events)
    ensures Trusted(past, w, h)
  {
    assert Honest(start);
    RunIsHonest(start, events);
    if w.past == past && h in w.homes && Matches(w.homes[h], past[|past| - 1].stamp) {
      var line := Line(past[|past| - 1].stamp);
      assert line[|line| - 1] == '\n';
      var from: nat :| RecordedFrom(past, w.homes[h], from);
      var k :| from <= k < |past| && past[k].stamp.readable && past[k].refs == w.homes[h].mirror;
      assert k < |past| - 1 ==> past[k].refs == past[|past| - 1].refs;
    }
  }

  // The run that shows a reused stamp is not enough.

  function Changing(versions: seq<Version>): seq<Event> {
    seq(|versions|, i requires 0 <= i < |versions| => Changes(versions[i]))
  }

  lemma {:induction false} RunChanges(w: World, versions: seq<Version>)
    requires WellFormed(w)
    ensures Run(w, Changing(versions)) == w.(past := w.past + versions)
    decreases versions
  {
    if versions == [] {
      assert w.past + [] == w.past;
    } else {
      assert Changing(versions)[1..] == Changing(versions[1..]);
      RunChanges(Step(w, Changes(versions[0])), versions[1..]);
      assert w.past + [versions[0]] + versions[1..] == w.past + versions;
    }
  }

  lemma {:induction false} RunOn(w: World, a: seq<Event>, b: seq<Event>)
    requires WellFormed(w)
    ensures Run(w, a + b) == Run(Run(w, a), b)
    decreases a
  {
    if a == [] {
      assert a + b == b;
    } else {
      assert (a + b)[1..] == a[1..] + b;
      RunOn(Step(w, a[0]), a[1..], b);
    }
  }

  const EMPTY := State(true, Refs(map[], map[]), None)

  lemma RunTwo(w: World, a: Event, b: Event)
    requires WellFormed(w)
    ensures Run(w, [a, b]) == Step(Step(w, a), b)
  {
    hide Step, WellFormed;
    assert [a, b][1..] == [b] && [b][1..] == [];
    assert Run(w, [a, b]) == Run(Step(w, a), [b]);
  }

  /** A home with a Git directory and nothing else yet, and one survey doing this. */
  function One(past: seq<Version>, home: State, read: nat, doing: Doing): World {
    World(past, map[0 := home], map[0 := Survey(read, doing)])
  }

  lemma LookingLeads(past: seq<Version>)
    requires past != [] && past[|past| - 1].stamp.readable
    ensures Run(World(past, map[0 := EMPTY], map[]), [Starts(0), Looks(0, 0)]) == One(past, EMPTY, |past| - 1, Fetching(0))
  {
    RunTwo(World(past, map[0 := EMPTY], map[]), Starts(0), Looks(0, 0));
  }

  lemma WritingLeads(past: seq<Version>, i: nat)
    requires i < |past| && past[i].stamp.readable && past[|past| - 1].stamp.readable
    ensures
      var home := State(true, past[|past| - 1].refs, Some(Line(past[i].stamp)));
      Run(One(past, EMPTY, i, Fetching(0)), [Fetches(0), Writes(0)]) == One(past, home, i, Between)
  {
    RunTwo(One(past, EMPTY, i, Fetching(0)), Fetches(0), Writes(0));
  }

  /** One home refreshed by a survey that read version `i` and fetched version `m`. */
  lemma RefreshedBetween(past: seq<Version>, i: nat, m: nat)
    returns (start: World, events: seq<Event>)
    requires i <= m < |past| && past[i].stamp.readable && past[m].stamp.readable
    ensures WellFormed(start) && Start(start)
    ensures Run(start, events) == One(past, State(true, past[m].refs, Some(Line(past[i].stamp))), i, Between)
  {
    hide Step, Line, Run;
    start := World(past[..i + 1], map[0 := EMPTY], map[]);
    var w1 := One(past[..i + 1], EMPTY, i, Fetching(0));
    LookingLeads(past[..i + 1]);
    RunChanges(w1, past[i + 1..m + 1]);
    assert past[..i + 1] + past[i + 1..m + 1] == past[..m + 1];
    WritingLeads(past[..m + 1], i);
    var w3 := One(past[..m + 1], State(true, past[m].refs, Some(Line(past[i].stamp))), i, Between);
    RunChanges(w3, past[m + 1..]);
    assert past[..m + 1] + past[m + 1..] == past;
    var looking, writing := [Starts(0), Looks(0, 0)], [Fetches(0), Writes(0)];
    var first := looking + Changing(past[i + 1..m + 1]);
    RunOn(start, looking, Changing(past[i + 1..m + 1]));
    RunOn(start, first, writing);
    RunOn(start, first + writing, Changing(past[m + 1..]));
    events := first + writing + Changing(past[m + 1..]);
  }

  /** Over any sequence of versions a match with the present stamp means the mirror is current,
      in every interleaving, exactly when the present stamp was not used before. */
  lemma MatchIsCurrentExactly(past: seq<Version>)
    requires past != [] && past[|past| - 1].stamp.readable
    ensures MatchIsCurrent(past) <==> NeverReused(past, |past| - 1)
  {
    var now := |past| - 1;
    if NeverReused(past, now) {
      forall w, start, events, h | Arises(w, start, events)
        ensures Trusted(past, w, h)
      {
        UnusedStampsAreTrusted(past, w, start, events, h);
      }
    } else {
      var i: nat, m: nat :|
        i <= m < now && past[i].stamp.readable && past[m].stamp.readable && Line(past[i].stamp) == Line(past[now].stamp)
        && past[m].refs != past[now].refs;
      var start, events := RefreshedBetween(past, i, m);
      var w := Run(start, events);
      assert Arises(w, start, events) && !Trusted(past, w, 0);
    }
  }

  // Left alone, the steps are one refresh.

  /** What a survey does at one home, with this luck. */
  function StepsOf(s: nat, h: nat, luck: Luck): seq<Event> {
    if !luck.fetches then [Looks(s, h), FetchFails(s)]
    else [Looks(s, h), Fetches(s), if luck.writes.Whole? then Writes(s) else WriteFails(s, luck.writes.left)]
  }

  lemma RunThree(w: World, a: Event, b: Event, c: Event)
    requires WellFormed(w)
    ensures Run(w, [a, b, c]) == Step(Step(Step(w, a), b), c)
  {
    hide Step, WellFormed;
    assert [a, b, c][1..] == [b, c];
    RunTwo(Step(w, a), b, c);
    assert Run(w, [a, b, c]) == Run(Step(w, a), [b, c]);
  }

  /** A survey's steps at one home, with nothing else in between, leave the home as `Ensure` does and
      the survey ready for the next one. */
  lemma StepsAreEnsure(w: World, s: nat, h: nat, luck: Luck)
    requires WellFormed(w) && s in w.surveys && w.surveys[s].doing.Between? && h in w.homes
    requires Now(w).stamp.readable
    ensures Run(w, StepsOf(s, h, luck)) == w.(homes := w.homes[h := Ensured(w.homes[h], Now(w).refs, Stamped(w, s), luck).0])
  {
    var looked := Step(w, Looks(s, h));
    assert w.homes[h := w.homes[h]] == w.homes;
    assert w.surveys[s := w.surveys[s]] == w.surveys;
    if !luck.fetches {
      RunTwo(w, Looks(s, h), FetchFails(s));
      assert w.surveys[s := w.surveys[s].(doing := Fetching(h))][s := w.surveys[s]] == w.surveys;
    } else {
      var last := if luck.writes.Whole? then Writes(s) else WriteFails(s, luck.writes.left);
      RunThree(w, Looks(s, h), Fetches(s), last);
      if looked != w {
        FetchedAndWritten(w, s, h, luck.writes);
      }
    }
  }

  lemma FetchedAndWritten(w: World, s: nat, h: nat, writes: Written)
    requires WellFormed(w) && s in w.surveys && w.surveys[s].doing.Between? && h in w.homes
    requires Now(w).stamp.readable && WellFormed(Goes(w, s, Fetching(h)))
    ensures
      var last := if writes.Whole? then Writes(s) else WriteFails(s, writes.left);
      var fetched := w.homes[h].(mirror := Now(w).refs);
      Step(Step(Goes(w, s, Fetching(h)), Fetches(s)), last)
      == w.(homes := w.homes[h := if writes.Whole? then Recorded(fetched, Stamped(w, s))
                                  else CutShort(fetched, Stamped(w, s), writes.left)])
  {
    var fetched := w.homes[h].(mirror := Now(w).refs);
    var x := Step(Goes(w, s, Fetching(h)), Fetches(s));
    assert x.homes == w.homes[h := fetched] && x.surveys[s] == w.surveys[s].(doing := Writing(h));
    assert x.surveys[s := w.surveys[s]] == w.surveys;
    var end := if writes.Whole? then Recorded(fetched, Stamped(w, s)) else CutShort(fetched, Stamped(w, s), writes.left);
    assert w.homes[h := fetched][h := end] == w.homes[h := end];
  }
}
