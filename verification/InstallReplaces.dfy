/** Installing over a file that holds this program's hooks under other commands: the old ones go, and the
    new ones are read where nothing of somebody else's answers their event. */
module InstallReplaces {
  import opened Wrappers
  import opened Lexicographic
  import opened Text
  import opened Json
  import opened JsonReading
  import opened JsonPrinting
  import opened Strip
  import opened Scanner
  import opened Settings
  import opened Markers
  import opened HookText
  import opened Fallback
  import opened ExactInverse
  import opened InstallLayout
  import opened InstallReads

  // A document as it is printed, read by the scan.

  /** Every string of a value, names included, does the scan no harm once it is printed. */
  predicate Quiet(v: Value)
    decreases v
  {
    match v
    case Text(s) => Harmless(Escape(s), true)
    case Array(items) => forall i :: 0 <= i < |items| ==> Quiet(items[i])
    case Object(members) => forall i :: 0 <= i < |members| ==> QuietEntry(members[i])
    case _ => true
  }

  predicate QuietEntry(e: Entry)
    decreases e
  {
    Harmless(Escape(e.key), true) && Quiet(e.value)
  }

  lemma {:induction false} QuietIsTame(v: Value, depth: nat, indent: string)
    requires Quiet(v)
    ensures Tame(LaidOf(v, depth, indent))
    decreases v
  {
    hide NewLine, Harmless, Escape;
    match v
    case Array(items) => QuietItemsAreTame(items, depth, indent);
    case Object(members) => QuietMembersAreTame(members, depth, indent);
    case _ =>
  }

  lemma {:induction false} QuietItemsAreTame(items: seq<Value>, depth: nat, indent: string)
    requires forall i :: 0 <= i < |items| ==> Quiet(items[i])
    ensures forall i :: 0 <= i < |items| ==> TameItem(ItemsOf(items, depth, indent)[i])
    decreases items
  {
    hide NewLine, Quiet, Tame, LaidOf;
    if items != [] {
      QuietIsTame(items[0], depth + 1, indent);
      QuietItemsAreTame(items[1..], depth, indent);
      assert ItemsOf(items, depth, indent)[1..] == ItemsOf(items[1..], depth, indent);
    }
  }

  lemma {:induction false} QuietMembersAreTame(members: Map, depth: nat, indent: string)
    requires forall i :: 0 <= i < |members| ==> QuietEntry(members[i])
    ensures forall i :: 0 <= i < |members| ==> TameMember(MembersOf(members, depth, indent)[i])
    decreases members
  {
    hide NewLine, Quiet, Tame, LaidOf, Harmless, Escape;
    if members != [] {
      assert QuietEntry(members[0]);
      QuietIsTame(members[0].value, depth + 1, indent);
      QuietMembersAreTame(members[1..], depth, indent);
      assert MembersOf(members, depth, indent)[1..] == MembersOf(members[1..], depth, indent);
    }
  }

  lemma {:induction false} EscapingAddsNoQuote(s: string)
    requires '"' !in s
    ensures '"' !in Escape(s)
  {
    if s != "" {
      EscapingAddsNoQuote(s[1..]);
      assert '"' !in EscapeChar(s[0]);
    }
  }

  /** A document whose printing the scan reads right, and whose own names hold no quote. */
  ghost predicate PrintsReadably(document: Map) {
    Quiet(Object(document)) && forall i :: 0 <= i < |document| ==> '"' !in document[i].key
  }

  function Printed(document: Map): File {
    File("", MembersOf(document, 0, ""), "", "\n")
  }

  lemma PrintedShows(document: Map)
    requires LawfulMap(document)
    ensures ShowFile(Printed(document)) == Render(document) && ValidFile(Printed(document))
    ensures MeaningOfMembers(Printed(document).members) == document
  {
    var v := Object(document);
    ObjectsAreLawful(document);
    LaidMeans(v, 0, "");
    PrintedIsLaid(v, 0, "");
    ReindentNothing(Pretty(v, 0));
    ShowsAs(Printed(document), document);
  }

  lemma PrintedNames(document: Map, i: nat)
    requires i < |document|
    ensures
      var m := MembersOf(document, 0, "")[i];
      && m.key == Escape(document[i].key) && NameOf(m) == document[i].key
      && m.value == LaidOf(document[i].value, 1, "")
  {
    var after := MembersAt(document, 0, "", i);
    EscapedReads(document[i].key);
    hide LaidOf, NewLine, Unescape, RawString;
  }

  lemma PrintedIsReadable(document: Map)
    requires LawfulMap(document) && PrintsReadably(document)
    ensures Readable(Printed(document))
  {
    hide *;
    var f := Printed(document);
    PrintedShows(document);
    PrintedLaid(document);
    QuietIsTame(Object(document), 0, "");
    forall i, j | 0 <= i < j < |f.members|
      ensures NameOf(f.members[i]) != NameOf(f.members[j])
    {
      PrintedNames(document, i);
      PrintedNames(document, j);
      KeysDiffer(document, i, j);
    }
    forall m | m in f.members
      ensures '"' !in m.key
    {
      var i :| 0 <= i < |f.members| && f.members[i] == m;
      PrintedNames(document, i);
      EscapingAddsNoQuote(document[i].key);
    }
    ReadableWhen(f);
  }

  lemma PrintedLaid(document: Map)
    requires PrintsReadably(document)
    ensures Printed(document).members == MembersOf(document, 0, "") && |Printed(document).members| == |document|
    ensures LaidOf(Object(document), 0, "") == Table(Printed(document).members, Printed(document).blank)
    ensures Quiet(Object(document)) && forall i :: 0 <= i < |document| ==> '"' !in document[i].key
  {
    hide Quiet, MembersOf;
  }

  lemma KeysDiffer(document: Map, i: nat, j: nat)
    requires LawfulMap(document) && i < j < |document|
    ensures document[i].key != document[j].key
  {
    hide LawfulEntry, TEXT_ORDER;
  }

  lemma ReadableWhen(f: File)
    requires ValidFile(f) && Tame(Table(f.members, f.blank))
    requires forall i, j :: 0 <= i < j < |f.members| ==> NameOf(f.members[i]) != NameOf(f.members[j])
    requires forall m :: m in f.members ==> '"' !in m.key
    ensures Readable(f)
  {
    hide NameOf;
  }

  lemma {:induction false} TableIsFound(members: seq<Member>, key: string, i: nat)
    requires i < |members| && members[i].value.Table? && members[i].key == key
    ensures FirstNamedTable(members, key).Some?
  {
    hide ShowKey, ShowMember;
    if !(members[0].value.Table? && members[0].key == key) {
      TableIsFound(members[1..], key, i - 1);
    }
  }

  lemma {:induction false} EntryOf(m: Map, key: string) returns (i: nat)
    requires Get(m, key).Some?
    ensures i < |m| && m[i] == Entry(key, Get(m, key).value)
  {
    if m[0].key == key {
      i := 0;
    } else {
      i := EntryOf(m[1..], key);
      i := i + 1;
    }
  }

  lemma HooksAsTheyAre()
    ensures Escape(HOOKS) == HOOKS
  {
    var (o, oo, k, s) := ("ooks", "oks", "ks", "s");
    assert HOOKS[1..] == o && o[1..] == oo && oo[1..] == k && k[1..] == s && s[1..] == "";
    assert Escape(s) == "s" && Escape(k) == "ks" && Escape(oo) == "oks" && Escape(o) == "ooks";
  }

  /** A container that is printed is found by the scan. */
  lemma ContainerIsFound(document: Map)
    requires Get(document, HOOKS).Some? && Get(document, HOOKS).value.Object?
    ensures FirstNamedTable(Printed(document).members, HOOKS).Some?
  {
    hide *;
    var i := EntryOf(document, HOOKS);
    PrintedNames(document, i);
    HooksAsTheyAre();
    ObjectsAreTables(document[i].value);
    PrintedMembers(document);
    TableIsFound(MembersOf(document, 0, ""), HOOKS, i);
  }

  lemma ObjectsAreTables(v: Value)
    requires v.Object?
    ensures LaidOf(v, 1, "").Table?
  {
  }

  lemma PrintedMembers(document: Map)
    ensures Printed(document).members == MembersOf(document, 0, "")
  {
  }

  // What a reader finds.

  /** A hook entry is that of one of these hooks, for this event. */
  ghost predicate IsNew(hooks: seq<Hook>, event: string, h: Value) {
    exists hook :: hook in hooks && hook.event == event && h == CommandEntry(hook)
  }

  /** The hooks a reader finds under an event that nothing else answers: the last one asked for. */
  function NewHooks(hooks: seq<Hook>, event: string): seq<Value> {
    if hooks == [] then []
    else if hooks[|hooks| - 1].event == event then [CommandEntry(hooks[|hooks| - 1])]
    else NewHooks(hooks[..|hooks| - 1], event)
  }

  /** What is installed for a hook: a command entry with its command, and its timeout in digits where it has one. */
  lemma EntrySays(hook: Hook, key: string)
    ensures
      var entry := CommandEntry(hook);
      && entry.Object?
      && Get(entry.members, "type") == Some(Value.Text("command"))
      && Get(entry.members, "command") == Some(Value.Text(hook.command))
      && (hook.timeout.None? ==> Get(entry.members, "timeout") == None)
      && (hook.timeout.Some? ==>
            && Get(entry.members, "timeout").Some? && Get(entry.members, "timeout").value.Number?
            && Spelled(Get(entry.members, "timeout").value.token) == hook.timeout.value)
      && (key !in {"type", "command", "timeout"} ==> Get(entry.members, key) == None)
  {
    var (first, last) := (Entry("command", Value.Text(hook.command)), Entry("type", Value.Text("command")));
    if hook.timeout.Some? {
      DecimalSpellsIt(hook.timeout.value);
      var middle := Entry("timeout", Number(Decimal(hook.timeout.value)));
      assert CommandEntry(hook).members == [first, middle, last];
      GetOfThree(first, middle, last, key);
      GetOfThree(first, middle, last, "type");
      GetOfThree(first, middle, last, "timeout");
    } else {
      assert CommandEntry(hook).members == [first, last];
      GetOfTwo(first, last, key);
      GetOfTwo(first, last, "type");
      GetOfTwo(first, last, "timeout");
    }
  }

  lemma GetOfTwo(a: Entry, b: Entry, key: string)
    ensures Get([a, b], key) == if a.key == key then Some(a.value) else if b.key == key then Some(b.value) else None
  {
    assert [a, b][1..] == [b] && [b][1..] == [];
    assert Get([b], key) == if b.key == key then Some(b.value) else None;
  }

  lemma GetOfThree(a: Entry, b: Entry, c: Entry, key: string)
    ensures Get([a, b, c], key)
      == if a.key == key then Some(a.value) else if b.key == key then Some(b.value) else if c.key == key then Some(c.value) else None
  {
    assert [a, b, c][1..] == [b, c];
    GetOfTwo(b, c, key);
  }

  lemma HooksOfOne(hook: Hook)
    ensures InnerHooks(GroupsOf(hook)) == [CommandEntry(hook)]
  {
    assert Inner(GroupOf(hook)) == [CommandEntry(hook)];
    assert [GroupOf(hook)][1..] == [] && InnerOf([]) == [];
    assert [CommandEntry(hook)] + [] == [CommandEntry(hook)];
  }

  lemma {:induction false} NewEventsOfFront(hooks: seq<Hook>, last: Hook, event: string)
    ensures NewEvents(hooks + [last], event) == if last.event == event then Some(GroupsOf(last)) else NewEvents(hooks, event)
  {
    hide GroupsOf;
    if hooks == [] {
      assert [] + [last] == [last] && [last][1..] == [];
    } else {
      assert (hooks + [last])[1..] == hooks[1..] + [last];
      NewEventsOfFront(hooks[1..], last, event);
    }
  }

  lemma {:induction false} NewEventsHold(hooks: seq<Hook>, event: string)
    ensures NewHooks(hooks, event)
      == match NewEvents(hooks, event) case None => [] case Some(groups) => InnerHooks(groups)
  {
    hide GroupsOf, CommandEntry, InnerHooks;
    if hooks != [] {
      var (front, last) := (hooks[..|hooks| - 1], hooks[|hooks| - 1]);
      assert hooks == front + [last];
      NewEventsHold(front, event);
      NewEventsOfFront(front, last, event);
      HooksOfOne(last);
    }
  }

  /** What stands under one event after the install. */
  ghost function HooksAfter(was: Map, hooks: seq<Hook>, event: string): seq<Value> {
    if StaysAnswered(was, event) then Others(HooksOf(was, event)) else NewHooks(hooks, event)
  }

  /** The text a file holds once hooks were added, where adding did not fail. */
  ghost function AfterAdding(text: string, hooks: seq<Hook>): string {
    match Add(text, hooks) case Success(Some(written)) => written case _ => text
  }

  lemma HoldsIs(text: string)
    requires HoldsHooks(text)
    ensures Parse(text).Some? && HoldsMarker(Parse(text).value)
  {
    hide Parse, HoldsMarker;
  }

  lemma RemovedIsStripped(text: string, hooks: seq<Hook>)
    requires Cut(text, HOOKS, MembersText(hooks)).None? && HoldsHooks(text)
    ensures Remove(text, hooks) == Some(Render(Stripped(Parse(text).value)))
  {
    hide Parse, Cut, MembersText, Render, Stripped, HoldsMarker;
  }

  lemma AddedTo(text: string, hooks: seq<Hook>, bare: string, document: Map)
    requires Remove(text, hooks) == Some(bare) && Parse(bare) == Some(document)
    ensures Add(text, hooks).Success? && AfterAdding(text, hooks) == Installed(bare, document, hooks)
  {
    hide Parse, Remove, Splice, MembersText;
  }

  lemma AddingOverOld(text: string, hooks: seq<Hook>)
    requires Cut(text, HOOKS, MembersText(hooks)).None? && HoldsHooks(text)
    ensures
      var left := Stripped(Parse(text).value);
      && LawfulMap(Parse(text).value) && LawfulMap(left)
      && Add(text, hooks).Success? && AfterAdding(text, hooks) == Installed(Render(left), left, hooks)
  {
    hide *;
    HoldsIs(text);
    ReadIsLawful(text);
    StrippedIsLawful(Parse(text).value);
    RenderedReadsBack(Stripped(Parse(text).value));
    RemovedIsStripped(text, hooks);
    AddedTo(text, hooks, Render(Stripped(Parse(text).value)), Stripped(Parse(text).value));
  }

  /** A command that changed: of a file that holds this program's hooks and not these ones, with what is left
      of it readable, adding makes one that reads as an object. Every other member is unchanged. Under
      each event stand everybody else's hooks in their order if there was anything of theirs, and the
      new hook if there was not; so of this program's own no more than one, and none but the new. */
  lemma OldHooksAreReplaced(text: string, hooks: seq<Hook>, key: string, event: string)
    requires Cut(text, HOOKS, MembersText(hooks)).None? && HoldsHooks(text)
    requires PlainHooks(hooks) && PrintsReadably(Stripped(Parse(text).value))
    ensures Add(text, hooks).Success?
    ensures
      var (was, now) := (Parse(text).value, Parse(AfterAdding(text, hooks)));
      && now.Some?
      && (key != HOOKS ==> Get(now.value, key) == Get(was, key))
      && HooksOf(now.value, event)
         == (if StaysAnswered(was, event) then Others(HooksOf(was, event)) else NewHooks(hooks, event))
      && (forall h :: h in HooksOf(now.value, event) && IsNodal(h) ==>
            HooksOf(now.value, event) == [h] && IsNew(hooks, event, h))
  {
    hide *;
    HoldsIs(text);
    var (was, left) := (Parse(text).value, Stripped(Parse(text).value));
    AddingOverOld(text, hooks);
    PrintedShows(left);
    PrintedIsReadable(left);
    InstallReads.InstallReads(Printed(left), hooks, key);
    LawfulIsProper(was);
    ProperHasUniqueKeys(was);
    if key != HOOKS {
      OtherMembersSurvive(was, key);
    }
    OldHooksRead(was, Parse(AfterAdding(text, hooks)).value, hooks, event);
    OwnOnesAreNew(was, hooks, event);
    AfterIs(was, hooks, event);
  }

  lemma OldHooksRead(was: Map, now: Map, hooks: seq<Hook>, event: string)
    requires Proper(was)
    requires ReadsInstalled(Stripped(was), now, FirstNamedTable(Printed(Stripped(was)).members, HOOKS).Some?, hooks)
    requires HoldsMarker(was)
    ensures HooksOf(now, event) == HooksAfter(was, hooks, event)
  {
    hide *;
    var left := Stripped(was);
    EmptiedGoesExactly(was, event);
    OtherHooksSurvive(was, event);
    NewEventsHold(hooks, event);
    LeftIsAnObject(was);
    if Get(left, HOOKS).Some? {
      ContainerIsFound(left);
    }
    FoundUnder(left, now, FirstNamedTable(Printed(left).members, HOOKS).Some?, hooks, event);
    HooksUnder(left, event);
    HooksUnder(now, event);
    AfterIs(was, hooks, event);
  }

  lemma AfterIs(was: Map, hooks: seq<Hook>, event: string)
    ensures HooksAfter(was, hooks, event)
      == if StaysAnswered(was, event) then Others(HooksOf(was, event)) else NewHooks(hooks, event)
  {
  }

  lemma HooksUnder(document: Map, event: string)
    ensures HooksOf(document, event)
      == match Get(Events(document), event) case Some(groups) => InnerHooks(groups) case None => []
  {
  }

  lemma FoundUnder(left: Map, now: Map, found: bool, hooks: seq<Hook>, event: string)
    requires ReadsInstalled(left, now, found, hooks)
    requires Get(left, HOOKS).Some? ==> found
    ensures Get(Events(now), event) == if Get(Events(left), event).Some? then Get(Events(left), event) else NewEvents(hooks, event)
  {
    hide NewEvents;
  }

  lemma LeftIsAnObject(was: Map)
    requires Proper(was) && HoldsMarker(was)
    ensures Get(Stripped(was), HOOKS).Some? ==> Get(Stripped(was), HOOKS).value.Object?
  {
    hide StripEvents, InnerHooks, IsNodal;
    ProperHasUniqueKeys(was);
    match Get(was, HOOKS)
    case Some(Object(events)) =>
      GetAfterSet(was, HOOKS, Object(StripEvents(events)), HOOKS);
      GetAfterWithout(was, HOOKS, HOOKS);
    case _ =>
  }

  /** Under an event this program has one hook at most, a new one. */
  lemma OwnOnesAreNew(was: Map, hooks: seq<Hook>, event: string)
    ensures forall h :: h in HooksAfter(was, hooks, event) && IsNodal(h) ==>
      HooksAfter(was, hooks, event) == [h] && IsNew(hooks, event, h)
  {
    hide IsNodal, CommandEntry, StaysAnswered, HooksOf;
    OthersAreNotNodal(HooksOf(was, event));
    NewHooksAreAsked(hooks, event);
  }

  lemma {:induction false} NewHooksAreAsked(hooks: seq<Hook>, event: string)
    ensures forall h :: h in NewHooks(hooks, event) ==>
      NewHooks(hooks, event) == [h] && IsNew(hooks, event, h)
  {
    hide CommandEntry;
    if hooks != [] && hooks[|hooks| - 1].event != event {
      NewHooksAreAsked(hooks[..|hooks| - 1], event);
    }
  }

  // A file that does not spell one of the commands holds no region of these hooks.

  lemma Within(x: string, s: string, y: string, p: string)
    requires Contains(s, p)
    ensures Contains(x + s + y, p)
  {
    var i: nat :| OccursAt(s, p, i);
    var t := x + s + y;
    assert t[|x|..|x| + |s|] == s;
    assert t[|x| + i..|x| + i + |p|] == s[i..i + |p|];
    assert OccursAt(t, p, |x| + i);
  }

  lemma AlsoWithin(text: string, s: string, p: string)
    requires Contains(text, s) && Contains(s, p)
    ensures Contains(text, p)
  {
    var i: nat :| OccursAt(text, s, i);
    assert text == text[..i] + s + text[i + |s|..];
    Within(text[..i], s, text[i + |s|..], p);
  }

  lemma Parts(s: string, p: string) returns (a: string, b: string)
    requires Contains(s, p)
    ensures s == a + (p + b)
  {
    var i: nat :| OccursAt(s, p, i);
    a, b := s[..i], s[i + |p|..];
  }

  lemma ReindentKeeps(s: string, p: string, indent: string)
    requires Contains(s, p) && '\n' !in p
    ensures Contains(Reindent(s, indent), p)
  {
    hide *;
    var a, b := Parts(s, p);
    ReindentBoth(a, p + b, indent);
    ReindentBoth(p, b, indent);
    ReindentOneLine(p, indent);
    var (x, y) := (Reindent(a, indent), Reindent(b, indent));
    ContainsBetween(x, p, y);
    assert x + (p + y) == x + p + y;
  }

  lemma GroupIs(hook: Hook)
    ensures GroupOf(hook) == Object([Entry(HOOKS, Array([CommandEntry(hook)]))])
  {
  }

  /** What a hook is written as spells its command. */
  lemma CommandIsSpelled(hook: Hook)
    ensures Contains(MemberText(hook), Quote(hook.command))
  {
    hide Contains, Pretty, PrettyMembers, PrettyItems, Quote, Pad;
    GroupIs(hook);
    hide GroupOf, TimeoutOf;
    var p := Quote(hook.command);
    var members := CommandEntry(hook).members;
    assert members[0] == Entry(COMMAND, Value.Text(hook.command));
    FirstMemberText(members, hook.command, 4);
    ContainsBetween("\n" + Pad(4) + (Quote(COMMAND) + ": "), p,
                    (if |members| == 1 then "" else ",") + PrettyMembers(members[1..], 4));
    ObjectText(members, 3);
    Within("{", PrettyMembers(members, 4), "\n" + Pad(3) + "}", p);
    ArrayText(CommandEntry(hook), 2);
    Within("[\n" + Pad(3), Pretty(CommandEntry(hook), 3), "\n" + Pad(2) + "]", p);
    SingleMemberText(HOOKS, Array([CommandEntry(hook)]), 1);
    Within("{\n" + Pad(2) + Quote(HOOKS) + ": ", Pretty(Array([CommandEntry(hook)]), 2), "\n" + Pad(1) + "}", p);
    ArrayText(GroupOf(hook), 0);
    Within("[\n" + Pad(1), Pretty(GroupOf(hook), 1), "\n" + Pad(0) + "]", p);
    var name := "\"" + hook.event + "\": ";
    Within(name, Pretty(Array([GroupOf(hook)]), 0), "", p);
    assert MemberText(hook) == name + Pretty(Array([GroupOf(hook)]), 0) + "";
  }

  lemma {:induction false} AllAreSpelled(hooks: seq<Hook>, hook: Hook, indent: string)
    requires hook in hooks
    ensures Contains(Join(Indented(MembersText(hooks), indent), ",\n"), Quote(hook.command))
  {
    hide Contains, MemberText, Reindent, Quote;
    var (p, texts) := (Quote(hook.command), Indented(MembersText(hooks), indent));
    var rest := Indented(MembersText(hooks[1..]), indent);
    assert texts[0] == indent + Reindent(MemberText(hooks[0]), indent) && texts[1..] == rest;
    var j := Join(rest, ",\n");
    if hook == hooks[0] {
      CommandIsSpelled(hook);
      assert '\n' !in p by { QuoteIsOneLine(hook.command); }
      ReindentKeeps(MemberText(hook), p, indent);
      var written := Reindent(MemberText(hook), indent);
      Within(indent, written, if rest == [] then "" else ",\n" + j, p);
      assert Join(texts, ",\n") == indent + written + if rest == [] then "" else ",\n" + j;
    } else {
      assert hook in hooks[1..];
      AllAreSpelled(hooks[1..], hook, indent);
      assert rest != [];
      Within(texts[0] + ",\n", j, "", p);
      assert Join(texts, ",\n") == texts[0] + ",\n" + j + "";
    }
  }

  lemma QuoteIsOneLine(s: string)
    ensures '\n' !in Quote(s)
  {
  }

  lemma RegionsSpellTheCommand(hooks: seq<Hook>, hook: Hook, indent: string, ends: Ends)
    requires hook in hooks
    ensures Contains(Whole(HOOKS, MembersText(hooks), indent, ends), Quote(hook.command))
    ensures Contains(Inside(MembersText(hooks), indent, ends), Quote(hook.command))
  {
    hide Contains, Join, Indented, MembersText, Quote;
    var p := Quote(hook.command);
    AllAreSpelled(hooks, hook, indent);
    AllAreSpelled(hooks, hook, indent + STEP);
    Within("\n", Join(Indented(MembersText(hooks), indent), ",\n"), EndsText(ends), p);
    var (head, body, tail) := ("\n" + indent + "\"" + HOOKS + "\": {\n",
                               Join(Indented(MembersText(hooks), indent + STEP), ",\n"),
                               "\n" + indent + "}" + EndsText(ends));
    Within(head, body, tail, p);
    assert head + body + tail == Whole(HOOKS, MembersText(hooks), indent, ends);
  }

  lemma {:induction false} NoneIsHeld(text: string, regions: seq<string>, p: string)
    requires !Contains(text, p) && forall r :: r in regions ==> Contains(r, p)
    ensures FirstHeld(text, regions) == None
  {
    hide Contains;
    if regions != [] {
      assert regions[0] in regions;
      NoneIsHeld(text, regions[1..], p);
      var at := Find(text, regions[0]);
      if at.Some? {
        HeldThere(text, regions[0], at.value);
        AlsoWithin(text, regions[0], p);
      }
    }
  }

  lemma HeldThere(text: string, region: string, at: nat)
    requires FirstOccursAt(text, region, at)
    ensures Contains(text, region)
  {
    assert OccursAt(text, region, at);
  }

  lemma NoRegionWithoutTheCommand(text: string, hooks: seq<Hook>, hook: Hook)
    requires hook in hooks && !Contains(text, Quote(hook.command))
    ensures Cut(text, HOOKS, MembersText(hooks)).None?
  {
    hide Contains, Whole, Inside, MembersText, Quote, IndentAt, Opening, OpeningBrace;
    var regions := Candidates(text, HOOKS, MembersText(hooks));
    forall r | r in regions
      ensures Contains(r, Quote(hook.command))
    {
      forall indent, ends
        ensures Contains(Whole(HOOKS, MembersText(hooks), indent, ends), Quote(hook.command))
        ensures Contains(Inside(MembersText(hooks), indent, ends), Quote(hook.command))
      {
        RegionsSpellTheCommand(hooks, hook, indent, ends);
      }
    }
    NoneIsHeld(text, regions, Quote(hook.command));
  }

  /** The same, of any file that holds this program's hooks and does not spell one of the new commands. */
  lemma ChangedCommandReplacesTheOld(text: string, hooks: seq<Hook>, changed: Hook, key: string, event: string)
    requires HoldsHooks(text) && changed in hooks && !Contains(text, Quote(changed.command))
    requires PlainHooks(hooks) && PrintsReadably(Stripped(Parse(text).value))
    ensures Add(text, hooks).Success?
    ensures
      var (was, now) := (Parse(text).value, Parse(AfterAdding(text, hooks)));
      && now.Some?
      && (key != HOOKS ==> Get(now.value, key) == Get(was, key))
      && HooksOf(now.value, event)
         == (if StaysAnswered(was, event) then Others(HooksOf(was, event)) else NewHooks(hooks, event))
      && (forall h :: h in HooksOf(now.value, event) && IsNodal(h) ==>
            HooksOf(now.value, event) == [h] && IsNew(hooks, event, h))
  {
    hide *;
    NoRegionWithoutTheCommand(text, hooks, changed);
    OldHooksAreReplaced(text, hooks, key, event);
  }

  // The other two cases: nothing of this program's is in the file, or the region of these very hooks is.

  /** The file the region is put in. */
  ghost predicate Bares(text: string, hooks: seq<Hook>, g: File) {
    match Cut(text, HOOKS, MembersText(hooks))
    case Some(cut) => cut == ShowFile(g)
    case None => !HoldsHooks(text) && text == ShowFile(g)
  }

  lemma AddingToBare(text: string, hooks: seq<Hook>, g: File)
    requires Bares(text, hooks, g) && ValidFile(g)
    ensures Add(text, hooks).Success?
    ensures AfterAdding(text, hooks) == Installed(ShowFile(g), MeaningOfMembers(g.members), hooks)
  {
    hide *;
    ReadingIsTheMeaning(g);
    BareIs(text, hooks, g);
    AddedToBare(text, hooks, ShowFile(g), MeaningOfMembers(g.members));
  }

  lemma BareIs(text: string, hooks: seq<Hook>, g: File)
    requires Bares(text, hooks, g)
    ensures Remove(text, hooks).GetOr(text) == ShowFile(g)
  {
    hide Cut, MembersText, HoldsHooks, ShowFile, Render, Stripped, Parse;
  }

  lemma AddedToBare(text: string, hooks: seq<Hook>, bare: string, document: Map)
    requires Remove(text, hooks).GetOr(text) == bare && Parse(bare) == Some(document)
    ensures Add(text, hooks).Success? && AfterAdding(text, hooks) == Installed(bare, document, hooks)
  {
    hide Parse, Remove, Splice, MembersText;
  }

  lemma ReadableIsValidFile(g: File)
    requires Readable(g)
    ensures ValidFile(g)
  {
  }

  /** What adding leaves then: an object with every other member unchanged, and under each event what stood
      there, or the new hook where nothing did and `hooks` was not there or was found. */
  lemma AddReads(text: string, hooks: seq<Hook>, g: File, key: string, event: string)
    requires Bares(text, hooks, g) && Readable(g) && PlainHooks(hooks)
    ensures Add(text, hooks).Success?
    ensures
      var (was, now) := (MeaningOfMembers(g.members), Parse(AfterAdding(text, hooks)));
      && now.Some?
      && (key != HOOKS ==> Get(now.value, key) == Get(was, key))
      && HooksOf(now.value, event)
         == (if Get(was, HOOKS).None? || (FirstNamedTable(g.members, HOOKS).Some? && Get(Events(was), event).None?)
             then NewHooks(hooks, event) else HooksOf(was, event))
  {
    hide *;
    ReadableIsValidFile(g);
    AddingToBare(text, hooks, g);
    InstallReads.InstallReads(g, hooks, key);
    var was := MeaningOfMembers(g.members);
    var now := Parse(AfterAdding(text, hooks)).value;
    NewEventsHold(hooks, event);
    HooksUnder(was, event);
    HooksUnder(now, event);
    FoundOrNot(was, now, FirstNamedTable(g.members, HOOKS).Some?, hooks, event);
  }

  lemma FoundOrNot(was: Map, now: Map, found: bool, hooks: seq<Hook>, event: string)
    requires ReadsInstalled(was, now, found, hooks)
    ensures Get(Events(now), event)
      == if Get(was, HOOKS).None? || (found && Get(Events(was), event).None?) then NewEvents(hooks, event)
         else Get(Events(was), event)
  {
    hide NewEvents;
  }

  /** Every hook of this program's a reader finds in a document is one of these. */
  ghost predicate OwnAreNew(document: Map, hooks: seq<Hook>) {
    forall event, h :: h in HooksOf(document, event) && IsNodal(h) ==> IsNew(hooks, event, h)
  }

  /** Where the region of these hooks is in the file only that is taken out: of this program's hooks then none but
      these stand exactly when none but these stood beside the region. */
  lemma BesideTheRegionExactly(text: string, hooks: seq<Hook>, g: File)
    requires Bares(text, hooks, g) && Readable(g) && PlainHooks(hooks)
    ensures Parse(AfterAdding(text, hooks)).Some?
    ensures OwnAreNew(Parse(AfterAdding(text, hooks)).value, hooks) <==> OwnAreNew(MeaningOfMembers(g.members), hooks)
  {
    var was := MeaningOfMembers(g.members);
    AddReads(text, hooks, g, "", "");
    var now := Parse(AfterAdding(text, hooks)).value;
    hide *;
    forall event
      ensures HooksOf(now, event) == HooksOf(was, event) || (HooksOf(was, event) == [] && HooksOf(now, event) == NewHooks(hooks, event))
    {
      AddReads(text, hooks, g, "", event);
      NothingUnder(was, event);
    }
    OwnStay(was, now, hooks);
  }

  lemma NothingUnder(document: Map, event: string)
    ensures Get(document, HOOKS).None? || Get(Events(document), event).None? ==> HooksOf(document, event) == []
  {
  }

  lemma OwnStay(was: Map, now: Map, hooks: seq<Hook>)
    requires forall event ::
      HooksOf(now, event) == HooksOf(was, event) || (HooksOf(was, event) == [] && HooksOf(now, event) == NewHooks(hooks, event))
    ensures OwnAreNew(now, hooks) <==> OwnAreNew(was, hooks)
  {
    hide HooksOf, IsNodal, NewHooks, CommandEntry;
    forall event
      ensures forall h :: h in NewHooks(hooks, event) ==> IsNew(hooks, event, h)
    {
      NewHooksAreAsked(hooks, event);
    }
  }
}
