/** A settings file with the hooks put in, as a layout: the region this program writes is members
    of a JSON object like any others, and the last member of a name is the one a reader finds.
    What stands around the region is unchanged. */
module InstallLayout {
  import opened Wrappers
  import opened Lexicographic
  import opened Text
  import opened Json
  import opened JsonPrinting
  import opened Strip
  import opened Scanner
  import opened StringTracking
  import opened Settings
  import opened Markers

  // Reading members one after another: the last of a name stands.

  lemma {:induction false} GetAfterPut(m: Map, key: string, v: Value, other: string)
    ensures Get(Put(m, key, v), other) == if other == key then Some(v) else Get(m, other)
  {
    hide TEXT_ORDER;
    if m != [] {
      var rest := m[1..];
      assert m == [m[0]] + rest;
      GetAfterPut(rest, key, v, other);
      assert ([Entry(key, v)] + rest)[1..] == rest && ([m[0]] + Put(rest, key, v))[1..] == Put(rest, key, v);
      assert ([Entry(key, v)] + m)[1..] == m;
    }
  }

  function NameOf(m: Member): string {
    Unescape(m.key).GetOr("")
  }

  lemma {:induction false} GetOfOneMore(m: Member, rest: seq<Member>, key: string)
    ensures Get(MeaningOfMembers([m] + rest), key)
      == if Get(MeaningOfMembers(rest), key).Some? then Get(MeaningOfMembers(rest), key)
         else if NameOf(m) == key then Some(MeaningOfMember(m)) else None
    decreases |rest|
  {
    hide Put, Meaning, Unescape;
    var all := [m] + rest;
    if rest == [] {
      assert all == [m] && all[..0] == [];
      assert MeaningOfMembers([]) == [];
      GetAfterPut([], NameOf(m), MeaningOfMember(m), key);
    } else {
      var (front, last) := (rest[..|rest| - 1], rest[|rest| - 1]);
      assert all[..|all| - 1] == [m] + front && all[|all| - 1] == last;
      GetOfOneMore(m, front, key);
      GetAfterPut(MeaningOfMembers([m] + front), NameOf(last), MeaningOfMember(last), key);
      GetAfterPut(MeaningOfMembers(front), NameOf(last), MeaningOfMember(last), key);
    }
  }

  lemma {:induction false} GetOfBoth(a: seq<Member>, b: seq<Member>, key: string)
    ensures Get(MeaningOfMembers(a + b), key)
      == if Get(MeaningOfMembers(b), key).Some? then Get(MeaningOfMembers(b), key) else Get(MeaningOfMembers(a), key)
  {
    hide MeaningOfMembers, Meaning;
    if a == [] {
      assert a + b == b;
      NoMembers(key);
    } else {
      assert a + b == [a[0]] + (a[1..] + b) && a == [a[0]] + a[1..];
      GetOfBoth(a[1..], b, key);
      GetOfOneMore(a[0], a[1..] + b, key);
      GetOfOneMore(a[0], a[1..], key);
    }
  }

  lemma NoMembers(key: string)
    ensures Get(MeaningOfMembers([]), key) == None
  {
  }

  lemma SomethingPut(m: Map, key: string, v: Value)
    ensures Put(m, key, v) != []
  {
  }

  lemma MembersMeanSomething(members: seq<Member>)
    ensures MeaningOfMembers(members) == [] <==> members == []
  {
    hide Put, Meaning, Unescape;
    if members != [] {
      var last := members[|members| - 1];
      SomethingPut(MeaningOfMembers(members[..|members| - 1]), Unescape(last.key).GetOr(""), MeaningOfMember(last));
    }
  }

  // The region as members.

  /** A hook whose event is spelled as it is named. */
  predicate PlainEvent(hook: Hook) {
    '"' !in hook.event && '\\' !in hook.event && forall c :: c in hook.event ==> c >= ' '
  }

  function GroupsOf(hook: Hook): Value {
    Array([GroupOf(hook)])
  }

  function EventLaid(hook: Hook, indent: string, after: string): Member {
    Member("\n" + indent, hook.event, "", " ", LaidOf(GroupsOf(hook), 0, indent), after)
  }

  function EventsLaid(hooks: seq<Hook>, indent: string, after: string): seq<Member> {
    if hooks == [] then [] else
      [EventLaid(hooks[0], indent, if |hooks| == 1 then after else "")] + EventsLaid(hooks[1..], indent, after)
  }

  lemma {:induction false} DecimalIsANumber(n: nat)
    ensures Digits(Decimal(n)) && (n > 0 ==> Decimal(n)[0] != '0') && (|Decimal(n)| > 1 ==> n > 0)
  {
    if n >= 10 {
      DecimalIsANumber(n / 10);
    }
  }

  /** The number some digits spell. */
  function Spelled(digits: string): int {
    if digits == "" then 0 else 10 * Spelled(digits[..|digits| - 1]) + (digits[|digits| - 1] as int - '0' as int)
  }

  lemma {:induction false} DecimalSpellsIt(n: nat)
    ensures Spelled(Decimal(n)) == n
  {
    var s := Decimal(n);
    if n >= 10 {
      DecimalSpellsIt(n / 10);
      assert s[..|s| - 1] == Decimal(n / 10);
    } else {
      assert s[..|s| - 1] == "";
    }
  }

  lemma TimeoutsAreNumbers(n: nat)
    ensures IsNumber(Decimal(n))
  {
    DecimalIsANumber(n);
    var s := Decimal(n);
    assert s == "" + s + "" + "" && IsExponent("");
  }

  lemma CommandsAreLawful(hook: Hook, entry: Map)
    requires
      var timeout := match hook.timeout case None => [] case Some(n) => [Entry("timeout", Number(Decimal(n)))];
      entry == [Entry(COMMAND, Value.Text(hook.command))] + timeout + [Entry("type", Value.Text(COMMAND))]
    ensures Lawful(Object(entry))
  {
    KeysInOrder();
    if hook.timeout.Some? {
      TimeoutsAreNumbers(hook.timeout.value);
    }
    assert forall i :: 0 <= i < |entry| ==> LawfulEntry(entry[i]);
    hide TEXT_ORDER, IsNumber;
    assert |entry| == if hook.timeout.Some? then 3 else 2;
    assert InKeyOrder(entry);
  }

  lemma KeysInOrder()
    ensures TEXT_ORDER("command", "timeout") && TEXT_ORDER("command", "type") && TEXT_ORDER("timeout", "type")
  {
    assert "timeout"[1..] == "imeout" && "type"[1..] == "ype";
  }

  lemma GroupsAreLawful(hook: Hook)
    ensures Lawful(GroupsOf(hook))
  {
    var timeout := match hook.timeout case None => [] case Some(n) => [Entry("timeout", Number(Decimal(n)))];
    var entry := [Entry(COMMAND, Value.Text(hook.command))] + timeout + [Entry("type", Value.Text(COMMAND))];
    CommandsAreLawful(hook, entry);
    hide TEXT_ORDER, IsNumber, InKeyOrder;
    OneEntry(HOOKS, Array([Object(entry)]));
  }

  lemma OneEntry(key: string, v: Value)
    requires Lawful(v)
    ensures Lawful(Object([Entry(key, v)]))
  {
    hide TEXT_ORDER;
  }

  lemma EventShows(hook: Hook, indent: string, after: string)
    requires '\n' !in hook.event
    ensures "\n" + (indent + Reindent(MemberText(hook), indent)) + after == ShowMember(EventLaid(hook, indent, after))
  {
    GroupsAreLawful(hook);
    PrintedIsLaid(GroupsOf(hook), 0, indent);
    hide Pretty, Show, LaidOf, Lawful, GroupOf;
    var (name, v) := ("\"" + hook.event + "\": ", Pretty(GroupsOf(hook), 0));
    ReindentBoth(name, v, indent);
    ReindentOneLine(name, indent);
    hide Reindent;
    var shown := Show(LaidOf(GroupsOf(hook), 0, indent));
    NamedAt(indent, hook.event, shown, after);
  }

  lemma NamedAt(indent: string, event: string, shown: string, after: string)
    ensures "\n" + (indent + (("\"" + event + "\": ") + shown)) + after
      == (("\n" + indent) + "\"" + event + "\"" + "" + ":" + " ") + shown + after
  {
    assert "\"" + event + "\": " == "\"" + event + "\"" + "" + ":" + " ";
  }

  lemma {:induction false} EventsShow(hooks: seq<Hook>, indent: string, after: string)
    requires hooks != [] && forall h :: h in hooks ==> '\n' !in h.event
    ensures "\n" + Join(Indented(MembersText(hooks), indent), ",\n") + after == ShowMembers(EventsLaid(hooks, indent, after))
  {
    var first := hooks[0];
    var texts := Indented(MembersText(hooks), indent);
    var laid := EventsLaid(hooks, indent, after);
    EventShows(first, indent, if |hooks| == 1 then after else "");
    hide MemberText, Reindent, ShowMember, EventLaid;
    assert texts[0] == indent + Reindent(MemberText(first), indent);
    assert texts[1..] == Indented(MembersText(hooks[1..]), indent);
    assert laid[1..] == EventsLaid(hooks[1..], indent, after);
    IndentedSize(hooks, indent);
    if |hooks| > 1 {
      EventsShow(hooks[1..], indent, after);
      IndentedSize(hooks[1..], indent);
      var (a, rest) := (texts[0], Join(texts[1..], ",\n"));
      assert Join(texts, ",\n") == a + ",\n" + rest;
      assert "\n" + (a + ",\n" + rest) + after == ("\n" + a + "") + "," + ("\n" + rest + after);
    }
  }

  lemma {:induction false} IndentedSize(hooks: seq<Hook>, indent: string)
    ensures |Indented(MembersText(hooks), indent)| == |hooks| == |EventsLaid(hooks, indent, "")|
    ensures forall after :: |EventsLaid(hooks, indent, after)| == |hooks|
  {
    hide MemberText, Reindent, EventLaid;
    if hooks != [] {
      IndentedSize(hooks[1..], indent);
    }
  }

  lemma SpacesAreBlank(indent: string)
    requires AllSpaces(indent)
    ensures JsonBlank(indent) && JsonBlank("\n" + indent) && JsonBlank("") && JsonBlank(" ")
  {
  }

  lemma {:induction false} EventsAreValid(hooks: seq<Hook>, indent: string, after: string)
    requires AllSpaces(indent) && JsonBlank(after) && forall h :: h in hooks ==> PlainEvent(h)
    ensures forall i :: 0 <= i < |EventsLaid(hooks, indent, after)| ==> ValidMember(EventsLaid(hooks, indent, after)[i])
  {
    if hooks != [] {
      EventIsValid(hooks[0], indent, if |hooks| == 1 then after else "");
      EventsAreValid(hooks[1..], indent, after);
      hide EventLaid, ValidMember, PlainEvent;
    }
  }

  lemma EventIsValid(hook: Hook, indent: string, after: string)
    requires AllSpaces(indent) && JsonBlank(after) && PlainEvent(hook)
    ensures ValidMember(EventLaid(hook, indent, after))
    ensures NameOf(EventLaid(hook, indent, after)) == hook.event
    ensures MeaningOfMember(EventLaid(hook, indent, after)) == GroupsOf(hook)
  {
    GroupsAreLawful(hook);
    SpacesAreBlank(indent);
    LaidMeans(GroupsOf(hook), 0, indent);
    WithoutEscapes(hook.event);
    hide LaidOf, GroupsOf, Valid, Meaning, Lawful, Unescape, RawString;
  }

  /** What a reader finds under an event: the last of the hooks installed for it. */
  function NewEvents(hooks: seq<Hook>, event: string): Option<Value> {
    if hooks == [] then None
    else if NewEvents(hooks[1..], event).Some? then NewEvents(hooks[1..], event)
    else if hooks[0].event == event then Some(GroupsOf(hooks[0]))
    else None
  }

  lemma {:induction false} EventsMean(hooks: seq<Hook>, indent: string, after: string, event: string)
    requires AllSpaces(indent) && JsonBlank(after) && forall h :: h in hooks ==> PlainEvent(h)
    ensures Get(MeaningOfMembers(EventsLaid(hooks, indent, after)), event) == NewEvents(hooks, event)
  {
    hide EventLaid, PlainEvent, GroupsOf, MeaningOfMembers;
    if hooks == [] {
      NoMembers(event);
    } else {
      var a := if |hooks| == 1 then after else "";
      EventIsValid(hooks[0], indent, a);
      EventsMean(hooks[1..], indent, after, event);
      GetOfOneMore(EventLaid(hooks[0], indent, a), EventsLaid(hooks[1..], indent, after), event);
    }
  }

  // The spliced file as a layout.

  /** A table with the hooks put in before its own members. */
  function WithEvents(members: seq<Member>, blank: string, hooks: seq<Hook>, indent: string): (r: Laid)
    ensures r.Table?
  {
    if members == [] then Table(EventsLaid(hooks, indent, "\n" + blank), "")
    else Table(EventsLaid(hooks, indent, "") + members, "")
  }

  lemma {:induction false} ShowBoth(a: seq<Member>, b: seq<Member>)
    requires a != [] && b != []
    ensures ShowMembers(a + b) == ShowMembers(a) + "," + ShowMembers(b)
  {
    hide ShowMember;
    assert (a + b)[1..] == a[1..] + b;
    if |a| > 1 {
      ShowBoth(a[1..], b);
      Commas(ShowMember(a[0]), ShowMembers(a[1..]), ShowMembers(b));
    } else {
      assert a[1..] + b == b;
    }
  }

  lemma Commas(x: string, y: string, z: string)
    ensures x + "," + (y + "," + z) == (x + "," + y) + "," + z
  {
  }

  lemma WithEventsShows(members: seq<Member>, blank: string, hooks: seq<Hook>, indent: string)
    requires hooks != [] && (members != [] ==> blank == "") && forall h :: h in hooks ==> '\n' !in h.event
    ensures Show(WithEvents(members, blank, hooks, indent))
      == "{" + Inside(MembersText(hooks), indent, EndsOf(|members|)) + (ShowMembers(members) + blank + "}")
  {
    var body := Join(Indented(MembersText(hooks), indent), ",\n");
    var after := if members == [] then "\n" + blank else "";
    EventsShow(hooks, indent, after);
    IndentedSize(hooks, indent);
    var events := EventsLaid(hooks, indent, after);
    assert |EventsLaid(hooks, indent, after)| == |hooks|;
    hide Join, Indented, EventsLaid, MembersText;
    if members == [] {
      assert Show(Table(events, "")) == "{" + ShowMembers(events) + "" + "}";
      hide ShowMembers, Show;
      assert ShowMembers([]) == "" by { NothingShown(); }
      EmptyTable(body, blank, ShowMembers(events));
    } else {
      ShowBoth(events, members);
      assert Show(Table(events + members, "")) == "{" + ShowMembers(events + members) + "" + "}";
      hide ShowMembers, Show;
      FullTable(body, ShowMembers(events), ShowMembers(members), blank);
    }
  }

  lemma NothingShown()
    ensures ShowMembers([]) == ""
  {
  }

  lemma EmptyTable(body: string, blank: string, shown: string)
    requires "\n" + body + ("\n" + blank) == shown
    ensures "{" + shown + "" + "}" == "{" + ("\n" + body + "\n") + ("" + blank + "}")
  {
  }

  lemma FullTable(body: string, events: string, members: string, blank: string)
    requires "\n" + body + "" == events && blank == ""
    ensures "{" + (events + "," + members) + "" + "}" == "{" + ("\n" + body + ",") + (members + blank + "}")
  {
  }

  lemma WithEventsIsValid(members: seq<Member>, blank: string, hooks: seq<Hook>, indent: string)
    requires Valid(Table(members, blank)) && hooks != [] && AllSpaces(indent) && forall h :: h in hooks ==> PlainEvent(h)
    ensures Valid(WithEvents(members, blank, hooks, indent))
  {
    var after := if members == [] then "\n" + blank else "";
    EventsAreValid(hooks, indent, after);
    var events := EventsLaid(hooks, indent, after);
    hide ValidMember, EventsLaid, PlainEvent;
    var all := events + members;
    assert forall i :: 0 <= i < |all| ==> all[i] == if i < |events| then events[i] else members[i - |events|];
    if members == [] {
      assert events + members == events;
    }
  }

  /** What a reader finds in it: a member the table had stands, and hides the new one of its name. */
  lemma WithEventsMeans(members: seq<Member>, blank: string, hooks: seq<Hook>, indent: string, event: string)
    requires JsonBlank(blank) && AllSpaces(indent) && forall h :: h in hooks ==> PlainEvent(h)
    ensures
      var all := WithEvents(members, blank, hooks, indent).members;
      Get(MeaningOfMembers(all), event)
      == if Get(MeaningOfMembers(members), event).Some? then Get(MeaningOfMembers(members), event) else NewEvents(hooks, event)
  {
    var after := if members == [] then "\n" + blank else "";
    EventsMean(hooks, indent, after, event);
    GetOfBoth(EventsLaid(hooks, indent, after), members, event);
    NoMembers(event);
    hide EventsLaid, MeaningOfMembers, PlainEvent;
  }

  // Into the container the file has.

  /** The members with the hooks put into the first object named so. */
  function WithHooks(members: seq<Member>, key: string, hooks: seq<Hook>, indent: string): seq<Member> {
    if members == [] then []
    else if members[0].value.Table? && members[0].key == key then
      [members[0].(value := WithEvents(members[0].value.members, members[0].value.blank, hooks, indent))] + members[1..]
    else [members[0]] + WithHooks(members[1..], key, hooks, indent)
  }

  /** The object itself. */
  function TheTable(members: seq<Member>, key: string): Laid
    requires FirstNamedTable(members, key).Some?
  {
    if members[0].value.Table? && members[0].key == key then members[0].value else TheTable(members[1..], key)
  }

  lemma {:induction false} TheTableIsTable(members: seq<Member>, key: string)
    requires FirstNamedTable(members, key).Some? && forall i :: 0 <= i < |members| ==> ValidMember(members[i])
    ensures TheTable(members, key).Table? && Valid(TheTable(members, key))
  {
    hide ShowKey, ShowMember;
    if !(members[0].value.Table? && members[0].key == key) {
      TheTableIsTable(members[1..], key);
    }
  }

  /** Whether the first member is the one, and what that makes of the rest. */
  lemma FirstIsIt(members: seq<Member>, key: string, hooks: seq<Hook>, indent: string)
    requires FirstNamedTable(members, key).Some?
    ensures members != [] && members == [members[0]] + members[1..]
    ensures
      var (m, rest) := (members[0], members[1..]);
      if m.value.Table? && m.key == key then
        && FirstNamedTable(members, key) == Some(|ShowKey(m)| + 1) && TheTable(members, key) == m.value
        && WithHooks(members, key, hooks, indent)
           == [m.(value := WithEvents(m.value.members, m.value.blank, hooks, indent))] + rest
      else
        && rest != [] && FirstNamedTable(rest, key).Some?
        && FirstNamedTable(members, key) == Some(|ShowMember(m)| + 1 + FirstNamedTable(rest, key).value)
        && TheTable(members, key) == TheTable(rest, key)
        && WithHooks(members, key, hooks, indent) == [m] + WithHooks(rest, key, hooks, indent)
  {
    hide ShowKey, ShowMember, WithEvents;
  }

  lemma {:induction false} WithHooksShows(members: seq<Member>, key: string, hooks: seq<Hook>, indent: string)
    requires FirstNamedTable(members, key).Some? && forall i :: 0 <= i < |members| ==> ValidMember(members[i])
    requires hooks != [] && forall h :: h in hooks ==> '\n' !in h.event
    requires TheTable(members, key).Table?
    ensures |WithHooks(members, key, hooks, indent)| == |members|
    ensures
      var (at, shown) := (FirstNamedTable(members, key).value, ShowMembers(members));
      && at <= |shown|
      && ShowMembers(WithHooks(members, key, hooks, indent))
         == InsertAt(shown, at, Inside(MembersText(hooks), indent, EndsOf(|TheTable(members, key).members|)))
  {
    hide *;
    FirstIsIt(members, key, hooks, indent);
    var (m, rest) := (members[0], members[1..]);
    var region := Inside(MembersText(hooks), indent, EndsOf(|TheTable(members, key).members|));
    var changed := WithHooks(members, key, hooks, indent);
    if m.value.Table? && m.key == key {
      ValidTable(m);
      HereShows(m, hooks, indent);
      FrontShows(members, changed, |ShowKey(m)| + 1, region);
    } else {
      WithHooksShows(rest, key, hooks, indent);
      BackShows(members, changed, FirstNamedTable(rest, key).value, region);
    }
  }

  lemma ValidTable(m: Member)
    requires ValidMember(m) && m.value.Table?
    ensures m.value.members != [] ==> m.value.blank == ""
  {
  }

  lemma FrontShows(members: seq<Member>, changed: seq<Member>, at: nat, region: string)
    requires members != [] && changed != [] && changed[1..] == members[1..]
    requires at <= |ShowMember(members[0])| && ShowMember(changed[0]) == InsertAt(ShowMember(members[0]), at, region)
    ensures at <= |ShowMembers(members)| && ShowMembers(changed) == InsertAt(ShowMembers(members), at, region)
  {
    ShowFirst(members);
    ShowFirst(changed);
    assert |members| == 1 + |members[1..]| && |changed| == 1 + |changed[1..]|;
    hide ShowMember, ShowMembers, InsertAt;
    InsertInFront(ShowMember(members[0]), at, region, if |members| == 1 then "" else "," + ShowMembers(members[1..]));
    InsertInFront(ShowMember(members[0]), at, region, "");
  }

  lemma BackShows(members: seq<Member>, changed: seq<Member>, at: nat, region: string)
    requires members != [] && changed != [] && changed[0] == members[0] && |changed| == |members| > 1
    requires at <= |ShowMembers(members[1..])|
    requires ShowMembers(changed[1..]) == InsertAt(ShowMembers(members[1..]), at, region)
    ensures |ShowMember(members[0])| + 1 + at <= |ShowMembers(members)|
    ensures ShowMembers(changed) == InsertAt(ShowMembers(members), |ShowMember(members[0])| + 1 + at, region)
  {
    hide ShowMember, InsertAt;
    assert ShowMembers(members) == (ShowMember(members[0]) + ",") + ShowMembers(members[1..]);
    assert ShowMembers(changed) == (ShowMember(members[0]) + ",") + ShowMembers(changed[1..]);
    hide ShowMembers;
    InsertBehind(ShowMember(members[0]) + ",", ShowMembers(members[1..]), at, region);
  }

  lemma ShowFirst(members: seq<Member>)
    requires members != []
    ensures ShowMembers(members) == ShowMember(members[0]) + if |members| == 1 then "" else "," + ShowMembers(members[1..])
  {
    hide ShowMember;
    if |members| > 1 {
      SplitAt(ShowMember(members[0]), ",", ShowMembers(members[1..]));
    } else {
      assert ShowMember(members[0]) + "" == ShowMember(members[0]);
    }
  }

  lemma HereShows(m: Member, hooks: seq<Hook>, indent: string)
    requires m.value.Table? && (m.value.members != [] ==> m.value.blank == "")
    requires hooks != [] && forall h :: h in hooks ==> '\n' !in h.event
    ensures |ShowKey(m)| + 1 <= |ShowMember(m)|
    ensures ShowMember(m.(value := WithEvents(m.value.members, m.value.blank, hooks, indent)))
      == InsertAt(ShowMember(m), |ShowKey(m)| + 1, Inside(MembersText(hooks), indent, EndsOf(|m.value.members|)))
  {
    hide *;
    var (members, blank) := (m.value.members, m.value.blank);
    var changed := m.(value := WithEvents(members, blank, hooks, indent));
    WithEventsShows(members, blank, hooks, indent);
    TableShows(members, blank);
    var (region, close) := (Inside(MembersText(hooks), indent, EndsOf(|members|)), ShowMembers(members) + blank + "}");
    assert m.value == Table(members, blank);
    MemberShows(m, "{" + close);
    MemberShows(changed, "{" + region + close);
    SameKey(m, changed.value);
    InsertAfterBrace(ShowKey(m), close, m.after, region);
  }

  lemma SameKey(m: Member, v: Laid)
    ensures ShowKey(m.(value := v)) == ShowKey(m)
  {
  }

  lemma TableShows(members: seq<Member>, blank: string)
    ensures Show(Table(members, blank)) == "{" + (ShowMembers(members) + blank + "}")
  {
    hide ShowMembers;
    var inner := ShowMembers(members);
    assert "{" + inner + blank + "}" == "{" + (inner + blank + "}");
  }

  lemma MemberShows(m: Member, shown: string)
    requires Show(m.value) == shown
    ensures ShowMember(m) == ShowKey(m) + shown + m.after
  {
    hide Show, ShowKey;
  }

  lemma InsertAfterBrace(key: string, close: string, after: string, region: string)
    ensures |key| + 1 <= |key + ("{" + close) + after|
    ensures key + ("{" + region + close) + after == InsertAt(key + ("{" + close) + after, |key| + 1, region)
  {
    var whole := key + ("{" + close) + after;
    assert whole == (key + "{") + (close + after);
    assert whole[..|key| + 1] == key + "{" && whole[|key| + 1..] == close + after;
    assert key + ("{" + region + close) + after == (key + "{") + region + (close + after);
  }

  lemma InsertInFront(a: string, at: nat, region: string, b: string)
    requires at <= |a|
    ensures at <= |a + b| && InsertAt(a, at, region) + b == InsertAt(a + b, at, region)
  {
    assert (a + b)[..at] == a[..at] && (a + b)[at..] == a[at..] + b;
    assert a[..at] + region + a[at..] + b == a[..at] + region + (a[at..] + b);
  }

  lemma InsertBehind(a: string, b: string, at: nat, region: string)
    requires at <= |b|
    ensures |a| + at <= |a + b| && a + InsertAt(b, at, region) == InsertAt(a + b, |a| + at, region)
  {
    assert (a + b)[..|a| + at] == a + b[..at] && (a + b)[|a| + at..] == b[at..];
    assert a + (b[..at] + region + b[at..]) == (a + b[..at]) + region + b[at..];
  }

  lemma {:induction false} WithHooksIsValid(members: seq<Member>, key: string, hooks: seq<Hook>, indent: string)
    requires FirstNamedTable(members, key).Some? && forall i :: 0 <= i < |members| ==> ValidMember(members[i])
    requires hooks != [] && AllSpaces(indent) && forall h :: h in hooks ==> PlainEvent(h)
    ensures |WithHooks(members, key, hooks, indent)| == |members|
    ensures forall i :: 0 <= i < |members| ==> ValidMember(WithHooks(members, key, hooks, indent)[i])
  {
    hide ShowKey, ShowMember, Unescape, RawString, WithEvents, PlainEvent;
    var (m, rest) := (members[0], members[1..]);
    if m.value.Table? && m.key == key {
      WithEventsIsValid(m.value.members, m.value.blank, hooks, indent);
      assert ValidMember(m);
    } else {
      WithHooksIsValid(rest, key, hooks, indent);
    }
  }

  /** No later member reads as the same name as an earlier one. */
  predicate DistinctNames(members: seq<Member>) {
    forall i, j :: 0 <= i < j < |members| ==> NameOf(members[i]) != NameOf(members[j])
  }

  lemma {:induction false} NotNamed(members: seq<Member>, key: string)
    requires forall i :: 0 <= i < |members| ==> NameOf(members[i]) != key
    ensures Get(MeaningOfMembers(members), key) == None
  {
    hide NameOf, Meaning;
    if members == [] {
      NoMembers(key);
    } else {
      NotNamed(members[1..], key);
      assert members == [members[0]] + members[1..];
      GetOfOneMore(members[0], members[1..], key);
    }
  }

  lemma {:induction false} WithHooksMeans(members: seq<Member>, key: string, hooks: seq<Hook>, indent: string, other: string)
    requires FirstNamedTable(members, key).Some? && TheTable(members, key).Table?
    requires DistinctNames(members) && Unescape(key) == Some(key)
    ensures other != key ==>
      Get(MeaningOfMembers(WithHooks(members, key, hooks, indent)), other) == Get(MeaningOfMembers(members), other)
    ensures
      var table := TheTable(members, key);
      && Get(MeaningOfMembers(members), key) == Some(Object(MeaningOfMembers(table.members)))
      && Get(MeaningOfMembers(WithHooks(members, key, hooks, indent)), key)
         == Some(Object(MeaningOfMembers(WithEvents(table.members, table.blank, hooks, indent).members)))
  {
    hide ShowKey, ShowMember, MeaningOfMembers, WithEvents, Unescape;
    var (m, rest) := (members[0], members[1..]);
    assert members == [m] + rest;
    assert forall i :: 0 <= i < |rest| ==> rest[i] == members[i + 1];
    GetOfOneMore(m, rest, other);
    GetOfOneMore(m, rest, key);
    var changed := WithHooks(members, key, hooks, indent);
    if m.value.Table? && m.key == key {
      NotNamed(rest, key);
      var new_ := m.(value := WithEvents(m.value.members, m.value.blank, hooks, indent));
      assert changed == [new_] + rest && NameOf(new_) == NameOf(m) == key;
      GetOfOneMore(new_, rest, other);
      GetOfOneMore(new_, rest, key);
    } else {
      assert DistinctNames(rest);
      WithHooksMeans(rest, key, hooks, indent, other);
      assert changed == [m] + WithHooks(rest, key, hooks, indent);
      GetOfOneMore(m, WithHooks(rest, key, hooks, indent), other);
      GetOfOneMore(m, WithHooks(rest, key, hooks, indent), key);
    }
  }
}
