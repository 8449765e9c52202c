/** What a settings file says once the hooks are installed: it still reads as an object, everything
    else in it is unchanged, and which of the hooks a reader then finds. A member that was there
    before stands and hides the new one of its name. */
module InstallReads {
  import opened Wrappers
  import opened Text
  import opened Json
  import opened JsonReading
  import opened Strip
  import opened Scanner
  import opened StringTracking
  import opened Settings
  import opened HookText
  import opened ExactInverse
  import opened InstallLayout

  /** A file as the results speak of it: the scan reads its strings right, and no two of its names read
      alike. */
  ghost predicate Readable(f: File) {
    && ValidFile(f) && Tame(Table(f.members, f.blank)) && DistinctNames(f.members)
    && forall m :: m in f.members ==> '"' !in m.key
  }

  predicate PlainHooks(hooks: seq<Hook>) {
    hooks != [] && forall h :: h in hooks ==> PlainEvent(h)
  }

  lemma PlainHasNoNewline(hooks: seq<Hook>)
    requires PlainHooks(hooks)
    ensures forall h :: h in hooks ==> '\n' !in h.event
  {
    forall h | h in hooks
      ensures '\n' !in h.event
    {
      assert PlainEvent(h);
    }
  }

  /** The file with the hooks in the container it has. */
  function InContainer(f: File, hooks: seq<Hook>, indent: string): File {
    f.(members := WithHooks(f.members, HOOKS, hooks, indent))
  }

  lemma FileShows(f: File)
    ensures ShowFile(f) == (f.lead + "{") + (ShowMembers(f.members) + (f.blank + "}" + f.trail))
  {
    ShowFileSplit(f);
    hide ShowFile, ShowMembers;
    var (lead, inner, blank, trail) := (f.lead, ShowMembers(f.members), f.blank, f.trail);
    assert lead + (['{'] + (inner + (blank + (['}'] + trail)))) == (lead + "{") + (inner + (blank + "}" + trail));
  }

  lemma InContainerShows(f: File, hooks: seq<Hook>, indent: string)
    requires Readable(f) && PlainHooks(hooks) && AllSpaces(indent) && FirstNamedTable(f.members, HOOKS).Some?
    ensures TheTable(f.members, HOOKS).Table? && ValidFile(InContainer(f, hooks, indent))
    ensures
      var at := |f.lead| + 1 + FirstNamedTable(f.members, HOOKS).value;
      && at <= |ShowFile(f)|
      && ShowFile(InContainer(f, hooks, indent))
         == InsertAt(ShowFile(f), at, Inside(MembersText(hooks), indent, EndsOf(|TheTable(f.members, HOOKS).members|)))
  {
    PlainHasNoNewline(hooks);
    TheTableIsTable(f.members, HOOKS);
    WithHooksShows(f.members, HOOKS, hooks, indent);
    WithHooksIsValid(f.members, HOOKS, hooks, indent);
    var g := InContainer(f, hooks, indent);
    FileShows(f);
    FileShows(g);
    hide ShowFile, ShowMembers, FirstNamedTable, WithHooks, Inside, TheTable, InsertAt, ValidMember;
    var region := Inside(MembersText(hooks), indent, EndsOf(|TheTable(f.members, HOOKS).members|));
    var (at, end) := (FirstNamedTable(f.members, HOOKS).value, f.blank + "}" + f.trail);
    InsertInFront(ShowMembers(f.members), at, region, end);
    InsertBehind(f.lead + "{", ShowMembers(f.members) + end, at, region);
  }

  /** The file with a container of its own put in front. */
  function WithContainer(f: File, hooks: seq<Hook>, indent: string): File {
    var close := Table(EventsLaid(hooks, indent + STEP, "\n" + indent), "");
    if f.members == [] then
      f.(members := [Member("\n" + indent, HOOKS, "", " ", close, "\n" + f.blank)], blank := "")
    else f.(members := [Member("\n" + indent, HOOKS, "", " ", close, "")] + f.members)
  }

  lemma ContainerShows(hooks: seq<Hook>, indent: string, ends: Ends, after: string)
    requires hooks != [] && forall h :: h in hooks ==> '\n' !in h.event
    ensures
      var container := Member("\n" + indent, HOOKS, "", " ", Table(EventsLaid(hooks, indent + STEP, "\n" + indent), ""), after);
      Whole(HOOKS, MembersText(hooks), indent, ends) + after
      == ShowMember(container.(after := "")) + EndsText(ends) + after
  {
    hide *;
    var table := Table(EventsLaid(hooks, indent + STEP, "\n" + indent), "");
    var container := Member("\n" + indent, HOOKS, "", " ", table, "");
    EventsShow(hooks, indent + STEP, "\n" + indent);
    TableShows(table.members, "");
    MemberShows(container, Show(table));
    ContainerKey(container, indent);
    var body := Join(Indented(MembersText(hooks), indent + STEP), ",\n");
    WholeShows("\n" + indent + "\"" + HOOKS + "\": ", body, "\n" + indent, ShowMembers(table.members), EndsText(ends), after);
    WholeText(hooks, indent, ends, body);
  }

  lemma ContainerKey(m: Member, indent: string)
    requires m.before == "\n" + indent && m.key == HOOKS && m.afterKey == "" && m.beforeValue == " "
    ensures ShowKey(m) == "\n" + indent + "\"" + HOOKS + "\": "
  {
    assert "\"" + "" + ":" + " " == "\": ";
  }

  lemma WholeText(hooks: seq<Hook>, indent: string, ends: Ends, body: string)
    requires body == Join(Indented(MembersText(hooks), indent + STEP), ",\n")
    ensures Whole(HOOKS, MembersText(hooks), indent, ends)
      == "\n" + indent + "\"" + HOOKS + "\": " + "{\n" + body + "\n" + indent + "}" + EndsText(ends)
  {
    hide Join, Indented, MembersText;
    assert "\"" + HOOKS + "\": {\n" == "\"" + HOOKS + "\": " + "{\n";
  }

  lemma WholeShows(key: string, body: string, close: string, inner: string, end: string, after: string)
    requires "\n" + body + close == inner
    ensures (key + "{\n" + body + close + "}" + end) + after == (key + ("{" + (inner + "" + "}")) + "") + end + after
  {
    assert "{\n" == "{" + "\n";
  }

  lemma WithContainerShows(f: File, hooks: seq<Hook>, indent: string)
    requires PlainHooks(hooks)
    requires f.members != [] ==> f.blank == ""
    ensures |f.lead| + 1 <= |ShowFile(f)|
    ensures ShowFile(WithContainer(f, hooks, indent))
      == InsertAt(ShowFile(f), |f.lead| + 1, Whole(HOOKS, MembersText(hooks), indent, EndsOf(|f.members|)))
  {
    PlainHasNoNewline(hooks);
    var g := WithContainer(f, hooks, indent);
    var (ends, container) := (EndsOf(|f.members|), WithContainer(f, hooks, indent).members[0].(after := ""));
    FileShows(f);
    FileShows(g);
    ContainerShows(hooks, indent, ends, "");
    assert container == Member("\n" + indent, HOOKS, "", " ", Table(EventsLaid(hooks, indent + STEP, "\n" + indent), ""), "");
    hide EventsLaid, MembersText, Whole, ShowFile;
    var (shown, region) := (ShowMember(container), Whole(HOOKS, MembersText(hooks), indent, ends));
    assert region + "" == region && shown + EndsText(ends) + "" == shown + EndsText(ends);
    InsertHere(f.lead + "{", region, ShowMembers(f.members) + (f.blank + "}" + f.trail));
    if f.members == [] {
      assert g.members == [container.(after := "\n" + f.blank)];
      hide WithContainer, ShowMember;
      InEmpty(f, container, region);
    } else {
      assert g.members[1..] == f.members && g.members[0] == container;
      ShowFirst(g.members);
      hide ShowMember, ShowMembers, WithContainer;
      CommaEnds(shown, ShowMembers(f.members), f.blank + "}" + f.trail);
    }
  }

  lemma InEmpty(f: File, container: Member, region: string)
    requires f.members == [] && container.after == "" && region == ShowMember(container) + "\n"
    ensures ShowMembers([container.(after := "\n" + f.blank)]) + ("" + "}" + f.trail)
      == region + (ShowMembers(f.members) + (f.blank + "}" + f.trail))
  {
    AfterShows(container, "\n" + f.blank);
    NothingShown();
    hide ShowMember;
    assert ShowMembers([container.(after := "\n" + f.blank)]) == ShowMember(container.(after := "\n" + f.blank));
    hide ShowMembers;
    EmptyEnds(ShowMember(container), f.blank, "}" + f.trail);
    assert "" + "}" + f.trail == "}" + f.trail;
    assert f.blank + "}" + f.trail == f.blank + ("}" + f.trail);
  }

  lemma InsertHere(a: string, region: string, b: string)
    ensures |a| <= |a + b| && InsertAt(a + b, |a|, region) == a + (region + b)
  {
    assert (a + b)[..|a|] == a && (a + b)[|a|..] == b;
  }

  lemma AfterShows(m: Member, after: string)
    requires m.after == ""
    ensures ShowMember(m.(after := after)) == ShowMember(m) + after
  {
    hide Show;
    var n := m.(after := after);
    assert ShowKey(n) == ShowKey(m);
    hide ShowKey;
    assert ShowKey(m) + Show(m.value) + "" + after == ShowKey(m) + Show(m.value) + after;
  }

  lemma EmptyEnds(shown: string, blank: string, end: string)
    ensures (shown + ("\n" + blank)) + end == (shown + "\n") + ("" + (blank + end))
  {
  }

  lemma CommaEnds(shown: string, members: string, end: string)
    ensures (shown + ("," + members)) + end == (shown + ",") + (members + end)
  {
  }

  lemma ContainerIsValid(f: File, hooks: seq<Hook>, indent: string)
    requires ValidFile(f) && PlainHooks(hooks) && AllSpaces(indent)
    ensures ValidFile(WithContainer(f, hooks, indent))
  {
    hide *;
    var (close, g) := (EventsLaid(hooks, indent + STEP, "\n" + indent), WithContainer(f, hooks, indent));
    StepIsSpaces(indent);
    SpacesAreBlank(indent);
    PlainOnes(hooks);
    EventsAreValid(hooks, indent + STEP, "\n" + indent);
    NotNoEvents(hooks, indent + STEP, "\n" + indent);
    TableIsValid(close);
    HooksReads();
    ContainerParts(f, hooks, indent);
    BlankAfter(f);
    ContainerMember(g.members[0]);
    FrontIsValid(f, g);
  }

  lemma StepIsSpaces(indent: string)
    requires AllSpaces(indent)
    ensures AllSpaces(indent + STEP)
  {
  }

  lemma PlainOnes(hooks: seq<Hook>)
    requires PlainHooks(hooks)
    ensures hooks != [] && forall h :: h in hooks ==> PlainEvent(h)
  {
  }

  lemma HooksReads()
    ensures RawString(HOOKS) && Unescape(HOOKS).Some?
  {
    WithoutEscapes(HOOKS);
  }

  lemma BlankAfter(f: File)
    requires ValidFile(f)
    ensures JsonBlank("") && JsonBlank("\n" + f.blank)
  {
  }

  lemma TableIsValid(members: seq<Member>)
    requires members != [] && forall i :: 0 <= i < |members| ==> ValidMember(members[i])
    ensures Valid(Table(members, ""))
  {
    hide ValidMember;
  }

  lemma ContainerParts(f: File, hooks: seq<Hook>, indent: string)
    ensures
      var g := WithContainer(f, hooks, indent);
      && g.lead == f.lead && g.trail == f.trail && g.members != [] && g.members[1..] == f.members
      && (f.members == [] ==> g.blank == "") && (f.members != [] ==> g.blank == f.blank)
      && g.members[0] == Member("\n" + indent, HOOKS, "", " ", Table(EventsLaid(hooks, indent + STEP, "\n" + indent), ""),
                                if f.members == [] then "\n" + f.blank else "")
  {
    hide EventsLaid;
  }

  lemma FrontIsValid(f: File, g: File)
    requires ValidFile(f) && g.lead == f.lead && g.trail == f.trail
    requires g.members != [] && ValidMember(g.members[0]) && g.members[1..] == f.members
    requires (f.members == [] ==> g.blank == "") && (f.members != [] ==> g.blank == f.blank)
    ensures ValidFile(g)
  {
    hide ValidMember;
    assert forall i :: 0 < i < |g.members| ==> g.members[i] == f.members[i - 1];
  }

  lemma NotNoEvents(hooks: seq<Hook>, indent: string, after: string)
    requires hooks != []
    ensures |EventsLaid(hooks, indent, after)| > 0
  {
  }

  lemma ContainerMember(m: Member)
    requires JsonBlank(m.before) && JsonBlank(m.after) && m.afterKey == "" && m.beforeValue == " "
    requires RawString(m.key) && Unescape(m.key).Some? && Valid(m.value)
    ensures ValidMember(m)
  {
  }

  lemma ContainerMeans(f: File, hooks: seq<Hook>, indent: string, key: string)
    requires PlainHooks(hooks) && AllSpaces(indent)
    ensures
      var all := WithContainer(f, hooks, indent).members;
      var events := EventsLaid(hooks, indent + STEP, "\n" + indent);
      Get(MeaningOfMembers(all), key)
      == if Get(MeaningOfMembers(f.members), key).Some? then Get(MeaningOfMembers(f.members), key)
         else if key == HOOKS then Some(Object(MeaningOfMembers(events))) else None
  {
    WithoutEscapes(HOOKS);
    NoMembers(key);
    var g := WithContainer(f, hooks, indent);
    var rest := if f.members == [] then [] else f.members;
    assert g.members == [g.members[0]] + rest;
    GetOfOneMore(g.members[0], rest, key);
    hide EventsLaid, MeaningOfMembers, Unescape;
  }

  /** What a reader finds under `hooks`, given what the file said and whether it spells that out as an
      object the scan finds. */
  ghost predicate ReadsInstalled(was: Map, now: Map, found: bool, hooks: seq<Hook>) {
    match Get(was, HOOKS)
    case None => Get(now, HOOKS).Some? && Get(now, HOOKS).value.Object?
                 && forall e :: Get(Events(now), e) == NewEvents(hooks, e)
    case Some(said) =>
      if found then
        && Get(now, HOOKS).Some? && Get(now, HOOKS).value.Object?
        && forall e :: Get(Events(now), e) == if Get(Events(was), e).Some? then Get(Events(was), e) else NewEvents(hooks, e)
      else Get(now, HOOKS) == Some(said)
  }

  /** Installing into any such file leaves one that reads as an object. Every other member reads as
      before. The hooks are read where the file said nothing under `hooks`, or said an object with
      nothing under their event; where it said something there, that stands and hides them. */
  lemma InstallReads(f: File, hooks: seq<Hook>, key: string)
    requires Readable(f) && PlainHooks(hooks)
    ensures Parse(ShowFile(f)) == Some(MeaningOfMembers(f.members))
    ensures
      var was := MeaningOfMembers(f.members);
      var now := Parse(Installed(ShowFile(f), was, hooks));
      && now.Some?
      && (key != HOOKS ==> Get(now.value, key) == Get(was, key))
      && ReadsInstalled(was, now.value, FirstNamedTable(f.members, HOOKS).Some?, hooks)
  {
    hide Show, ShowFile, Tame, Splice, MembersText, WithHooks, WithContainer, EventsLaid, WithEvents, TheTable, FirstNamedTable;
    hide Inside, Whole, IndentAt, Opening, OpeningBrace, MeaningOfMembers, PlainHooks;
    ReadingIsTheMeaning(f);
    LayoutIsNotBlank(f);
    BraceOfObject(f);
    OpeningFindsTheKey(f, HOOKS);
    SpliceInto(ShowFile(f), MeaningOfMembers(f.members), MembersText(hooks));
    if FirstNamedTable(f.members, HOOKS).Some? {
      IntoTheContainer(f, hooks, key);
    } else {
      BesideTheContainer(f, hooks, key);
    }
  }

  lemma IntoTheContainer(f: File, hooks: seq<Hook>, key: string)
    requires Readable(f) && PlainHooks(hooks) && FirstNamedTable(f.members, HOOKS).Some?
    requires
      var at := |f.lead| + 1 + FirstNamedTable(f.members, HOOKS).value;
      && at <= |ShowFile(f)|
      && Installed(ShowFile(f), MeaningOfMembers(f.members), hooks)
         == InsertAt(ShowFile(f), at,
              Inside(MembersText(hooks), IndentAt(ShowFile(f), at, TWO_LEVELS), EndsOf(HeldIn(MeaningOfMembers(f.members)))))
    ensures
      var was := MeaningOfMembers(f.members);
      var now := Parse(Installed(ShowFile(f), was, hooks));
      && now.Some?
      && (key != HOOKS ==> Get(now.value, key) == Get(was, key))
      && ReadsInstalled(was, now.value, true, hooks)
  {
    hide *;
    LevelsAreSpaces();
    var indent := IndentAt(ShowFile(f), |f.lead| + 1 + FirstNamedTable(f.members, HOOKS).value, TWO_LEVELS);
    HooksIsPlain();
    IndentIsSpaces(ShowFile(f), |f.lead| + 1 + FirstNamedTable(f.members, HOOKS).value);
    ReadableIs(f);
    InContainerShows(f, hooks, indent);
    WithHooksMeans(f.members, HOOKS, hooks, indent, key);
    var table := TheTable(f.members, HOOKS);
    HeldInTable(MeaningOfMembers(f.members), table);
    ReadingIsTheMeaning(InContainer(f, hooks, indent));
    InContainerMembers(f, hooks, indent);
    TheTableIsTable(f.members, HOOKS);
    TableReads(table, hooks, indent, MeaningOfMembers(f.members), MeaningOfMembers(InContainer(f, hooks, indent).members));
  }

  lemma HooksIsPlain()
    ensures Unescape(HOOKS) == Some(HOOKS) && '"' !in HOOKS
  {
    WithoutEscapes(HOOKS);
  }

  lemma LevelsAreSpaces()
    ensures AllSpaces(ONE_LEVEL) && AllSpaces(TWO_LEVELS)
  {
  }

  lemma IndentIsSpaces(text: string, at: nat)
    ensures AllSpaces(IndentAt(text, at, TWO_LEVELS)) && AllSpaces(IndentAt(text, at, ONE_LEVEL))
  {
  }

  lemma ReadableIs(f: File)
    requires Readable(f)
    ensures DistinctNames(f.members) && forall i :: 0 <= i < |f.members| ==> ValidMember(f.members[i])
  {
  }

  lemma InContainerMembers(f: File, hooks: seq<Hook>, indent: string)
    ensures InContainer(f, hooks, indent).members == WithHooks(f.members, HOOKS, hooks, indent)
  {
  }

  lemma HeldInTable(document: Map, table: Laid)
    requires table.Table? && Get(document, HOOKS) == Some(Object(MeaningOfMembers(table.members)))
    ensures EndsOf(HeldIn(document)) == EndsOf(|table.members|)
  {
    MembersMeanSomething(table.members);
    hide MeaningOfMembers;
  }

  lemma TableReads(table: Laid, hooks: seq<Hook>, indent: string, was: Map, now: Map)
    requires table.Table? && Valid(table) && AllSpaces(indent) && PlainHooks(hooks)
    requires Get(was, HOOKS) == Some(Object(MeaningOfMembers(table.members)))
    requires Get(now, HOOKS) == Some(Object(MeaningOfMembers(WithEvents(table.members, table.blank, hooks, indent).members)))
    ensures ReadsInstalled(was, now, true, hooks)
  {
    hide MeaningOfMembers, WithEvents, PlainEvent, ValidMember, Get;
    forall e
      ensures Get(Events(now), e) == if Get(Events(was), e).Some? then Get(Events(was), e) else NewEvents(hooks, e)
    {
      WithEventsMeans(table.members, table.blank, hooks, indent, e);
    }
  }

  lemma BesideTheContainer(f: File, hooks: seq<Hook>, key: string)
    requires Readable(f) && PlainHooks(hooks)
    requires
      && |f.lead| + 1 <= |ShowFile(f)|
      && Installed(ShowFile(f), MeaningOfMembers(f.members), hooks)
         == InsertAt(ShowFile(f), |f.lead| + 1,
              Whole(HOOKS, MembersText(hooks), IndentAt(ShowFile(f), |f.lead| + 1, ONE_LEVEL),
                    EndsOf(|MeaningOfMembers(f.members)|)))
    ensures
      var was := MeaningOfMembers(f.members);
      var now := Parse(Installed(ShowFile(f), was, hooks));
      && now.Some?
      && (key != HOOKS ==> Get(now.value, key) == Get(was, key))
      && ReadsInstalled(was, now.value, false, hooks)
  {
    hide *;
    LevelsAreSpaces();
    var indent := IndentAt(ShowFile(f), |f.lead| + 1, ONE_LEVEL);
    IndentIsSpaces(ShowFile(f), |f.lead| + 1);
    ReadableIsValid(f);
    MembersMeanSomething(f.members);
    SameEnds(MeaningOfMembers(f.members), f.members);
    WithContainerShows(f, hooks, indent);
    ContainerIsValid(f, hooks, indent);
    ReadingIsTheMeaning(WithContainer(f, hooks, indent));
    ContainerMeans(f, hooks, indent, key);
    ContainerMeans(f, hooks, indent, HOOKS);
    ContainerReads(hooks, indent, MeaningOfMembers(f.members), MeaningOfMembers(WithContainer(f, hooks, indent).members));
  }

  lemma ReadableIsValid(f: File)
    requires Readable(f)
    ensures ValidFile(f) && (f.members != [] ==> f.blank == "")
  {
  }

  lemma SameEnds(document: Map, members: seq<Member>)
    requires document == [] <==> members == []
    ensures EndsOf(|document|) == EndsOf(|members|)
  {
  }

  lemma ContainerReads(hooks: seq<Hook>, indent: string, was: Map, now: Map)
    requires AllSpaces(indent) && PlainHooks(hooks)
    requires Get(now, HOOKS)
      == if Get(was, HOOKS).Some? then Get(was, HOOKS)
         else Some(Object(MeaningOfMembers(EventsLaid(hooks, indent + STEP, "\n" + indent))))
    ensures ReadsInstalled(was, now, false, hooks)
  {
    hide MeaningOfMembers, EventsLaid, PlainEvent, Get, NewEvents;
    SpacesAreBlank(indent);
    forall e
      ensures Get(MeaningOfMembers(EventsLaid(hooks, indent + STEP, "\n" + indent)), e) == NewEvents(hooks, e)
    {
      EventsMean(hooks, indent + STEP, "\n" + indent, e);
    }
  }

  lemma {:induction false} GetIsThere(m: Map, key: string)
    requires Get(m, key).Some?
    ensures exists i :: 0 <= i < |m| && m[i].value == Get(m, key).value
  {
    if m[0].key != key {
      GetIsThere(m[1..], key);
      var i :| 0 <= i < |m[1..]| && m[1..][i].value == Get(m[1..], key).value;
      assert m[i + 1].value == Get(m, key).value;
    }
  }

  lemma InstalledIsNodal(hook: Hook)
    requires WellMade(hook)
    ensures exists h :: h in InnerHooks(GroupsOf(hook)) && IsNodal(h)
  {
    var timeout := match hook.timeout case None => [] case Some(n) => [Entry("timeout", Number(Decimal(n)))];
    var entry := Object([Entry(COMMAND, Value.Text(hook.command))] + timeout + [Entry("type", Value.Text(COMMAND))]);
    assert Get(entry.members, COMMAND) == Some(Value.Text(hook.command));
    assert IsNodal(entry);
    assert Inner(GroupOf(hook)) == [entry];
    assert [GroupOf(hook)][1..] == [] && [entry] + InnerOf([]) == [entry];
    assert entry in InnerHooks(GroupsOf(hook));
  }

  /** A file without hooks of this program has no such group under any event. */
  lemma NotThereBefore(was: Map, hook: Hook)
    requires !HoldsMarker(was) && WellMade(hook)
    ensures Get(Events(was), hook.event) != Some(GroupsOf(hook))
  {
    InstalledIsNodal(hook);
    hide IsNodal, InnerHooks, GroupsOf, Events, WellMade;
    if Get(Events(was), hook.event) == Some(GroupsOf(hook)) {
      GetIsThere(Events(was), hook.event);
    }
  }

  /** A hook is read once it is installed if and only if the file said nothing under `hooks`, or had an
      object there with nothing under the hook's event. */
  lemma InstallTakesEffectExactly(f: File, hooks: seq<Hook>, hook: Hook)
    requires Readable(f) && PlainHooks(hooks) && !HoldsMarker(MeaningOfMembers(f.members))
    requires WellMade(hook) && NewEvents(hooks, hook.event) == Some(GroupsOf(hook))
    ensures
      var was := MeaningOfMembers(f.members);
      var now := Parse(Installed(ShowFile(f), was, hooks));
      && now.Some?
      && (Get(Events(now.value), hook.event) == Some(GroupsOf(hook))
          <==> Get(was, HOOKS).None? || (FirstNamedTable(f.members, HOOKS).Some? && Get(Events(was), hook.event).None?))
  {
    hide Readable, PlainHooks, HoldsMarker, MeaningOfMembers, Parse, Installed, ShowFile, WellMade, NewEvents, GroupsOf, FirstNamedTable, Get;
    InstallReads(f, hooks, HOOKS);
    NotThereBefore(MeaningOfMembers(f.members), hook);
  }

  /** It happens: the event is answered already, and what answers it hides the new hook. */
  lemma AnsweredEventHidesTheHook(f: File, hook: Hook)
    requires f == File("", [Member("", "hooks", "", "", Table([Member("", "Stop", "", "", Listed([], ""), "")], ""), "")], "", "")
    requires hook == Hook("Stop", "nodal claude-code", None)
    ensures ShowFile(f) == "{\"hooks\":{\"Stop\":[]}}"
    ensures
      var now := Parse(Installed(ShowFile(f), MeaningOfMembers(f.members), [hook]));
      now.Some? && Get(Events(now.value), "Stop") == Some(Array([]))
  {
    AnsweredText(f);
    AnsweredIsReadable(f);
    AnsweredMeans(f);
    EventIsPlain(hook);
    hide Show, ShowFile, MeaningOfMembers, Parse, Installed, FirstNamedTable, Readable, PlainHooks, NewEvents;
    assert Get(MeaningOfMembers(f.members), HOOKS).Some?;
    InstallReads(f, [hook], "");
  }

  lemma EventIsPlain(hook: Hook)
    requires hook.event == "Stop"
    ensures PlainHooks([hook])
  {
  }

  lemma AnsweredIsReadable(f: File)
    requires f == File("", [Member("", "hooks", "", "", Table([Member("", "Stop", "", "", Listed([], ""), "")], ""), "")], "", "")
    ensures Readable(f) && FirstNamedTable(f.members, HOOKS).Some?
  {
    var stop := f.members[0].value.members[0];
    PlainMember(stop);
    PlainMember(f.members[0]);
    hide ValidMember, TameMember, ShowKey, Unescape;
  }

  lemma PlainMember(m: Member)
    requires m.key in {"Stop", "hooks"} && m.before == m.afterKey == m.beforeValue == m.after == ""
    requires Valid(m.value) && Tame(m.value)
    ensures ValidMember(m) && TameMember(m)
  {
    WithoutEscapes(m.key);
    PlainStringIsHarmless(m.key);
    hide Unescape, RawString, Harmless, Valid, Tame;
  }

  lemma AnsweredMeans(f: File)
    requires f == File("", [Member("", "hooks", "", "", Table([Member("", "Stop", "", "", Listed([], ""), "")], ""), "")], "", "")
    ensures
      var was := MeaningOfMembers(f.members);
      Get(was, HOOKS).Some? && Get(Events(was), "Stop") == Some(Array([]))
  {
    hide *;
    var stop := f.members[0].value.members[0];
    WithoutEscapes("hooks");
    WithoutEscapes("Stop");
    NothingMeans();
    OnlyMember(stop, "Stop", Array([]));
    TableMeans([stop]);
    OnlyMember(f.members[0], "hooks", Object([Entry("Stop", Array([]))]));
    StopIsThere(MeaningOfMembers(f.members));
  }

  lemma NothingMeans()
    ensures Meaning(Listed([], "")) == Array([])
  {
  }

  lemma TableMeans(members: seq<Member>)
    ensures Meaning(Table(members, "")) == Object(MeaningOfMembers(members))
  {
    hide MeaningOfMembers;
  }

  lemma StopIsThere(was: Map)
    requires was == [Entry("hooks", Object([Entry("Stop", Array([]))]))]
    ensures Get(was, HOOKS).Some? && Get(Events(was), "Stop") == Some(Array([]))
  {
  }

  lemma OnlyMember(m: Member, key: string, v: Value)
    requires Unescape(m.key) == Some(key) && Meaning(m.value) == v
    ensures MeaningOfMembers([m]) == [Entry(key, v)]
  {
    assert [m][..0] == [] && MeaningOfMembers([]) == [];
  }

  lemma AnsweredText(f: File)
    requires f == File("", [Member("", "hooks", "", "", Table([Member("", "Stop", "", "", Listed([], ""), "")], ""), "")], "", "")
    ensures ShowFile(f) == "{\"hooks\":{\"Stop\":[]}}"
  {
    hide *;
    var stop := f.members[0].value.members[0];
    NothingListed();
    Tight("Stop", stop.value);
    OneShown(stop);
    TableShows([stop], "");
    Tight("hooks", f.members[0].value);
    OneShown(f.members[0]);
    FileShows(f);
    AnsweredLiterals();
  }

  lemma AnsweredLiterals()
    ensures QuotedKey("Stop") + ":" + "[]" == "\"Stop\":[]"
    ensures "{" + ("\"Stop\":[]" + "" + "}") == "{\"Stop\":[]}"
    ensures QuotedKey("hooks") + ":" + "{\"Stop\":[]}" == "\"hooks\":{\"Stop\":[]}"
    ensures ("" + "{") + ("\"hooks\":{\"Stop\":[]}" + ("" + "}" + "")) == "{\"hooks\":{\"Stop\":[]}}"
  {
  }

  lemma NothingListed()
    ensures Show(Listed([], "")) == "[]"
  {
    assert ShowItems([]) == "";
  }

  lemma OneShown(m: Member)
    ensures ShowMembers([m]) == ShowMember(m)
  {
    hide ShowMember;
  }
}
