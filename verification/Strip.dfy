/** The fallback removal, for a settings file whose region is gone: the document is read, hooks
    that carry the marker are dropped, and what they leave empty goes with them. */
module Strip {
  import opened Wrappers
  import opened Text
  import opened Json

  /** The token every command this program writes carries. */
  const MARKER := "nodal claude-code"

  /** What the marker holds, character by character. */
  lemma MarkerIs()
    ensures |MARKER| == 17
    ensures MARKER[0] == 'n' && MARKER[1] == 'o' && MARKER[2] == 'd' && MARKER[3] == 'a' && MARKER[4] == 'l'
    ensures MARKER[5] == ' ' && MARKER[6] == 'c' && MARKER[7] == 'l' && MARKER[8] == 'a' && MARKER[9] == 'u'
    ensures MARKER[10] == 'd' && MARKER[11] == 'e' && MARKER[12] == '-' && MARKER[13] == 'c' && MARKER[14] == 'o'
    ensures MARKER[15] == 'd' && MARKER[16] == 'e'
  {
  }

  const HOOKS := "hooks"
  const COMMAND := "command"

  // A document's members are a map: each key once.

  ghost predicate UniqueKeys(m: Map) {
    forall i, j :: 0 <= i < j < |m| ==> m[i].key != m[j].key
  }

  /** The member a key names, given a new value. */
  function Set(m: Map, key: string, v: Value): Map {
    if m == [] then [] else if m[0].key == key then [Entry(key, v)] + m[1..] else [m[0]] + Set(m[1..], key, v)
  }

  function Without(m: Map, key: string): Map {
    if m == [] then [] else if m[0].key == key then m[1..] else [m[0]] + Without(m[1..], key)
  }

  /** Whether one hook entry is one this program wrote. */
  ghost predicate IsNodal(hook: Value) {
    hook.Object? && Get(hook.members, COMMAND).Some? && Get(hook.members, COMMAND).value.Text?
    && Contains(Get(hook.members, COMMAND).value.s, MARKER)
  }

  /** An entry is this program's exactly when its command is text that holds the marker somewhere. */
  lemma NodalExactly(hook: Value)
    ensures IsNodal(hook) <==>
      hook.Object? && exists a, b :: Get(hook.members, "command") == Some(Text(a + "nodal claude-code" + b))
  {
    if IsNodal(hook) {
      var s := Get(hook.members, COMMAND).value.s;
      var i: nat :| OccursAt(s, MARKER, i);
      assert s == s[..i] + MARKER + s[i + |MARKER|..];
    }
    if hook.Object? {
      if a, b :| Get(hook.members, "command") == Some(Text(a + "nodal claude-code" + b)) {
        ContainsBetween(a, MARKER, b);
      }
    }
  }

  function Inner(group: Value): seq<Value> {
    if group.Object? && Get(group.members, HOOKS).Some? && Get(group.members, HOOKS).value.Array?
    then Get(group.members, HOOKS).value.items else []
  }

  predicate HasInner(group: Value) {
    group.Object? && Get(group.members, HOOKS).Some? && Get(group.members, HOOKS).value.Array?
  }

  /** Every hook entry of a list of groups, in order. */
  function InnerOf(groups: seq<Value>): seq<Value> {
    if groups == [] then [] else Inner(groups[0]) + InnerOf(groups[1..])
  }

  function InnerHooks(groups: Value): seq<Value> {
    if groups.Array? then InnerOf(groups.items) else []
  }

  function Events(document: Map): Map {
    match Get(document, HOOKS)
    case Some(Object(events)) => events
    case _ => []
  }

  /** Every hook entry under one event. */
  function HooksOf(document: Map, event: string): seq<Value> {
    match Get(Events(document), event) case Some(groups) => InnerHooks(groups) case None => []
  }

  ghost predicate HoldsMarker(document: Map) {
    exists i, hook :: 0 <= i < |Events(document)| && hook in InnerHooks(Events(document)[i].value) && IsNodal(hook)
  }

  // What the removal leaves.

  ghost function Others(hooks: seq<Value>): seq<Value> {
    if hooks == [] then [] else (if IsNodal(hooks[0]) then [] else [hooks[0]]) + Others(hooks[1..])
  }

  ghost function StripGroup(group: Value): Value {
    if HasInner(group) then Object(Set(group.members, HOOKS, Array(Others(Inner(group))))) else group
  }

  predicate IsEmptyGroup(group: Value) {
    HasInner(group) && Inner(group) == []
  }

  ghost function StripGroups(groups: seq<Value>): seq<Value> {
    if groups == [] then [] else
      (if IsEmptyGroup(StripGroup(groups[0])) then [] else [StripGroup(groups[0])]) + StripGroups(groups[1..])
  }

  ghost function StripEvent(v: Value): Value {
    if v.Array? then Array(StripGroups(v.items)) else v
  }

  predicate IsEmptyArray(v: Value) {
    v.Array? && v.items == []
  }

  ghost function StripEvents(events: Map): Map {
    if events == [] then [] else
      (if IsEmptyArray(StripEvent(events[0].value)) then [] else [Entry(events[0].key, StripEvent(events[0].value))])
      + StripEvents(events[1..])
  }

  ghost function Stripped(document: Map): Map {
    match Get(document, HOOKS)
    case Some(Object(events)) =>
      var left := StripEvents(events);
      if left == [] then Without(document, HOOKS) else Set(document, HOOKS, Object(left))
    case _ => document
  }

  // The same, list by list, keeping what stays.

  method FindText(text: string, pattern: string) returns (found: bool)
    ensures found <==> Contains(text, pattern)
  {
    var at := Find(text, pattern);
    found := at.Some?;
    if at.Some? {
      assert OccursAt(text, pattern, at.value);
    }
  }

  method RetainOthers(hooks: seq<Value>) returns (kept: seq<Value>)
    ensures kept == Others(hooks)
  {
    kept := [];
    for i := 0 to |hooks|
      invariant kept + Others(hooks[i..]) == Others(hooks)
    {
      OthersStep(hooks, i);
      hide Others;
      var nodal := CheckNodal(hooks[i]);
      if !nodal {
        Appended(kept, hooks[i], Others(hooks[i + 1..]));
        kept := kept + [hooks[i]];
      }
    }
    assert hooks[|hooks|..] == [];
  }

  method CheckNodal(hook: Value) returns (nodal: bool)
    ensures nodal == IsNodal(hook)
  {
    nodal := false;
    if hook.Object? && Get(hook.members, COMMAND).Some? && Get(hook.members, COMMAND).value.Text? {
      nodal := FindText(Get(hook.members, COMMAND).value.s, MARKER);
    }
  }

  lemma OthersStep(hooks: seq<Value>, i: nat)
    requires i < |hooks|
    ensures Others(hooks[i..]) == (if IsNodal(hooks[i]) then [] else [hooks[i]]) + Others(hooks[i + 1..])
  {
    hide IsNodal;
    assert hooks[i..][1..] == hooks[i + 1..];
  }

  lemma Appended<T>(kept: seq<T>, one: T, rest: seq<T>)
    ensures kept + ([one] + rest) == kept + [one] + rest
  {
  }

  method RetainGroups(groups: seq<Value>) returns (kept: seq<Value>)
    ensures kept == StripGroups(groups)
  {
    kept := [];
    for i := 0 to |groups|
      invariant kept + StripGroups(groups[i..]) == StripGroups(groups)
    {
      GroupsStep(groups, i);
      hide StripGroups, IsEmptyGroup;
      var group := groups[i];
      if HasInner(group) {
        var inner := RetainOthers(Inner(group));
        group := Object(Set(group.members, HOOKS, Array(inner)));
      }
      assert group == StripGroup(groups[i]);
      hide StripGroup;
      if !IsEmptyGroup(group) {
        Appended(kept, group, StripGroups(groups[i + 1..]));
        kept := kept + [group];
      }
    }
    assert groups[|groups|..] == [];
  }

  lemma GroupsStep(groups: seq<Value>, i: nat)
    requires i < |groups|
    ensures
      var left := StripGroup(groups[i]);
      StripGroups(groups[i..]) == (if IsEmptyGroup(left) then [] else [left]) + StripGroups(groups[i + 1..])
  {
    hide StripGroup, IsEmptyGroup;
    assert groups[i..][1..] == groups[i + 1..];
  }

  lemma StripEventsStep(events: Map, i: nat)
    requires i < |events|
    ensures
      var left := StripEvent(events[i].value);
      StripEvents(events[i..])
      == (if IsEmptyArray(left) then [] else [Entry(events[i].key, left)]) + StripEvents(events[i + 1..])
  {
    assert events[i..][1..] == events[i + 1..];
  }

  method StripTheEvents(events: Map) returns (kept: Map)
    ensures kept == StripEvents(events)
  {
    kept := [];
    for i := 0 to |events|
      invariant kept + StripEvents(events[i..]) == StripEvents(events)
    {
      ghost var was, rest := kept, StripEvents(events[i + 1..]);
      StripEventsStep(events, i);
      hide StripGroups, IsEmptyArray, StripEvents;
      var groups := events[i].value;
      if groups.Array? {
        var list := RetainGroups(groups.items);
        groups := Array(list);
      }
      assert groups == StripEvent(events[i].value);
      hide StripEvent;
      if !IsEmptyArray(groups) {
        Appended(was, Entry(events[i].key, groups), rest);
        kept := kept + [Entry(events[i].key, groups)];
      }
    }
    assert events[|events|..] == [];
  }

  method StripDocument(document: Map) returns (left: Map)
    ensures left == Stripped(document)
  {
    left := document;
    match Get(document, HOOKS) {
      case Some(Object(events)) =>
        var kept := StripTheEvents(events);
        if kept == [] {
          left := Without(document, HOOKS);
        } else {
          left := Set(document, HOOKS, Object(kept));
        }
      case _ =>
    }
  }

  // What the removal keeps, and what it leaves nowhere.

  lemma {:induction false} GetAfterSet(m: Map, key: string, v: Value, other: string)
    ensures Get(Set(m, key, v), other) == if other == key && Get(m, key).Some? then Some(v) else Get(m, other)
  {
    if m != [] && m[0].key != key {
      GetAfterSet(m[1..], key, v, other);
    }
  }

  lemma {:induction false} GetAfterWithout(m: Map, key: string, other: string)
    requires UniqueKeys(m)
    ensures Get(Without(m, key), other) == if other == key then None else Get(m, other)
  {
    if m != [] {
      assert UniqueKeys(m[1..]);
      if m[0].key == key {
        NotThere(m[1..], key);
      } else {
        GetAfterWithout(m[1..], key, other);
      }
    }
  }

  lemma {:induction false} NotThere(m: Map, key: string)
    requires forall i :: 0 <= i < |m| ==> m[i].key != key
    ensures Get(m, key) == None
  {
    if m != [] {
      NotThere(m[1..], key);
    }
  }

  lemma {:induction false} OthersAreNotNodal(hooks: seq<Value>)
    ensures forall h :: h in Others(hooks) ==> !IsNodal(h)
  {
    hide IsNodal;
    if hooks != [] {
      OthersAreNotNodal(hooks[1..]);
    }
  }

  lemma {:induction false} OthersOfBoth(a: seq<Value>, b: seq<Value>)
    ensures Others(a + b) == Others(a) + Others(b)
  {
    hide IsNodal;
    if a == [] {
      assert a + b == b;
    } else {
      assert (a + b)[1..] == a[1..] + b;
      OthersOfBoth(a[1..], b);
    }
  }

  lemma InnerOfStripped(group: Value)
    ensures Inner(StripGroup(group)) == Others(Inner(group))
    ensures HasInner(StripGroup(group)) == HasInner(group)
  {
    if HasInner(group) {
      GetAfterSet(group.members, HOOKS, Array(Others(Inner(group))), HOOKS);
    }
  }

  lemma {:induction false} GroupsKeepOthers(groups: seq<Value>)
    ensures InnerOf(StripGroups(groups)) == Others(InnerOf(groups))
  {
    hide IsNodal, StripGroup, Inner;
    if groups != [] {
      var g, rest := groups[0], groups[1..];
      InnerOfStripped(g);
      OthersOfBoth(Inner(g), InnerOf(rest));
      GroupsKeepOthers(rest);
      var kept := [StripGroup(g)] + StripGroups(rest);
      assert kept[0] == StripGroup(g) && kept[1..] == StripGroups(rest);
      assert [] + StripGroups(rest) == StripGroups(rest);
    }
  }

  lemma EventKeepsOthers(v: Value)
    ensures InnerHooks(StripEvent(v)) == Others(InnerHooks(v))
  {
    if v.Array? {
      GroupsKeepOthers(v.items);
    }
  }

  lemma {:induction false} EventsKeepOthers(events: Map, event: string)
    requires UniqueKeys(events)
    ensures (match Get(StripEvents(events), event) case Some(groups) => InnerHooks(groups) case None => [])
      == Others(match Get(events, event) case Some(groups) => InnerHooks(groups) case None => [])
  {
    hide StripEvent, InnerHooks;
    if events != [] {
      var rest := events[1..];
      assert UniqueKeys(rest);
      EventsKeepOthers(rest, event);
      EventKeepsOthers(events[0].value);
      var kept := [Entry(events[0].key, StripEvent(events[0].value))] + StripEvents(rest);
      assert kept[1..] == StripEvents(rest);
      assert [] + StripEvents(rest) == StripEvents(rest);
      if events[0].key == event {
        NotThere(rest, event);
        if IsEmptyArray(StripEvent(events[0].value)) {
          NoHooksInEmpty(StripEvent(events[0].value));
        }
      }
    }
  }

  lemma NoHooksInEmpty(v: Value)
    requires IsEmptyArray(v)
    ensures InnerHooks(v) == []
  {
  }

  ghost predicate Proper(document: Map) {
    UniqueKeys(document) && UniqueKeys(Events(document))
  }

  /** After the fallback, under every event stand exactly the hooks that are not this
      program's, in the order they stood. */
  lemma OtherHooksSurvive(document: Map, event: string)
    requires Proper(document)
    ensures HooksOf(Stripped(document), event) == Others(HooksOf(document, event))
  {
    hide IsNodal, InnerHooks;
    match Get(document, HOOKS)
    case Some(Object(events)) =>
      EventsKeepOthers(events, event);
      var left := StripEvents(events);
      if left == [] {
        GetAfterWithout(document, HOOKS, HOOKS);
      } else {
        GetAfterSet(document, HOOKS, Object(left), HOOKS);
      }
    case _ =>
  }

  /** Every other top-level member is unchanged. */
  lemma OtherMembersSurvive(document: Map, key: string)
    requires UniqueKeys(document) && key != HOOKS
    ensures Get(Stripped(document), key) == Get(document, key)
  {
    hide StripEvents;
    match Get(document, HOOKS)
    case Some(Object(events)) =>
      GetAfterWithout(document, HOOKS, key);
      GetAfterSet(document, HOOKS, Object(StripEvents(events)), key);
    case _ =>
  }

  /** A group that stays keeps everything but its own hooks: what it matches, for one. */
  lemma GroupKeepsOtherMembers(group: Value, key: string)
    requires group.Object? && key != HOOKS
    ensures StripGroup(group).Object? && Get(StripGroup(group).members, key) == Get(group.members, key)
  {
    if HasInner(group) {
      GetAfterSet(group.members, HOOKS, Array(Others(Inner(group))), key);
    }
  }

  lemma {:induction false} StrippedEventIsClean(events: Map, i: nat)
    requires i < |StripEvents(events)|
    ensures forall h :: h in InnerHooks(StripEvents(events)[i].value) ==> !IsNodal(h)
  {
    hide IsNodal, StripEvent, InnerHooks;
    var rest := events[1..];
    var head := StripEvent(events[0].value);
    EventKeepsOthers(events[0].value);
    OthersAreNotNodal(InnerHooks(events[0].value));
    if IsEmptyArray(head) {
      StrippedEventIsClean(rest, i);
    } else if i > 0 {
      StrippedEventIsClean(rest, i - 1);
    }
  }

  /** After the fallback no hook carries the marker. */
  lemma NoMarkerLeft(document: Map)
    requires UniqueKeys(document)
    ensures !HoldsMarker(Stripped(document))
  {
    hide IsNodal, InnerHooks;
    match Get(document, HOOKS)
    case Some(Object(events)) =>
      var left := StripEvents(events);
      GetAfterWithout(document, HOOKS, HOOKS);
      GetAfterSet(document, HOOKS, Object(left), HOOKS);
      forall i | 0 <= i < |left| ensures forall h :: h in InnerHooks(left[i].value) ==> !IsNodal(h) {
        StrippedEventIsClean(events, i);
      }
    case _ =>
  }

  // What the removal takes along: every group, event and container it leaves without a hook.

  /** A group that has a list of hooks, all of them this program's. */
  ghost predicate OnlyOurs(group: Value) {
    HasInner(group) && forall h :: h in Inner(group) ==> IsNodal(h)
  }

  /** What stands under an event is no list, or a list with a group that is not only this program's. */
  ghost predicate HoldsMore(v: Value) {
    v.Array? ==> exists group :: group in v.items && !OnlyOurs(group)
  }

  lemma {:induction false} NoOthersExactly(hooks: seq<Value>)
    ensures Others(hooks) == [] <==> forall h :: h in hooks ==> IsNodal(h)
  {
    hide IsNodal;
    if hooks != [] {
      NoOthersExactly(hooks[1..]);
      assert forall h :: h in hooks <==> h == hooks[0] || h in hooks[1..];
    }
  }

  lemma EmptyGroupExactly(group: Value)
    ensures IsEmptyGroup(StripGroup(group)) <==> OnlyOurs(group)
  {
    InnerOfStripped(group);
    NoOthersExactly(Inner(group));
  }

  /** The groups that are left are those that were not only this program's, each without its hooks. */
  lemma {:induction false} GroupsLeftExactly(groups: seq<Value>, left: Value)
    ensures left in StripGroups(groups) <==> exists group :: group in groups && !OnlyOurs(group) && left == StripGroup(group)
  {
    hide OnlyOurs, StripGroup, IsEmptyGroup;
    if groups != [] {
      var rest := groups[1..];
      assert groups == [groups[0]] + rest;
      EmptyGroupExactly(groups[0]);
      GroupsLeftExactly(rest, left);
      assert forall g :: g in groups <==> g == groups[0] || g in rest;
      assert StripGroups(groups)
        == (if IsEmptyGroup(StripGroup(groups[0])) then [] else [StripGroup(groups[0])]) + StripGroups(rest);
    }
  }

  lemma EmptyEventExactly(v: Value)
    ensures IsEmptyArray(StripEvent(v)) <==> !HoldsMore(v)
  {
    hide OnlyOurs, StripGroup;
    if v.Array? {
      var left := StripGroups(v.items);
      if left != [] {
        GroupsLeftExactly(v.items, left[0]);
      }
      if group :| group in v.items && !OnlyOurs(group) {
        GroupsLeftExactly(v.items, StripGroup(group));
      }
    }
  }

  lemma {:induction false} EventLeft(events: Map, event: string)
    requires UniqueKeys(events)
    ensures Get(StripEvents(events), event)
      == match Get(events, event) case None => None case Some(v) => if HoldsMore(v) then Some(StripEvent(v)) else None
  {
    hide StripEvent, HoldsMore, IsEmptyArray;
    if events != [] {
      var rest := events[1..];
      assert UniqueKeys(rest);
      EventLeft(rest, event);
      EmptyEventExactly(events[0].value);
      var kept := [Entry(events[0].key, StripEvent(events[0].value))] + StripEvents(rest);
      assert kept[1..] == StripEvents(rest) && [] + StripEvents(rest) == StripEvents(rest);
      if events[0].key == event {
        NotThere(rest, event);
      }
    }
  }

  /** An event is left exactly when something of somebody else's stands under it. */
  ghost predicate StaysAnswered(document: Map, event: string) {
    Get(Events(document), event).Some? && HoldsMore(Get(Events(document), event).value)
  }

  /** What the removal leaves under `hooks`: each event under which something of somebody else's stands,
      and `hooks` itself only with such an event, or where it was no object. */
  lemma EmptiedGoesExactly(document: Map, event: string)
    requires Proper(document)
    ensures Get(Events(Stripped(document)), event).Some? <==> StaysAnswered(document, event)
    ensures StaysAnswered(document, event) ==>
      Get(Events(Stripped(document)), event) == Some(StripEvent(Get(Events(document), event).value))
    ensures Get(Stripped(document), HOOKS).Some?
      <==> && Get(document, HOOKS).Some?
           && (Get(document, HOOKS).value.Object? ==> exists e :: StaysAnswered(document, e))
  {
    hide StripEvent, HoldsMore;
    match Get(document, HOOKS)
    case Some(Object(events)) =>
      var left := StripEvents(events);
      EventLeft(events, event);
      if left == [] {
        GetAfterWithout(document, HOOKS, HOOKS);
        forall e
          ensures !StaysAnswered(document, e)
        {
          EventLeft(events, e);
        }
      } else {
        GetAfterSet(document, HOOKS, Object(left), HOOKS);
        EventLeft(events, left[0].key);
        assert StaysAnswered(document, left[0].key);
      }
    case _ =>
  }
}
