/** Removing the hooks from a file whose region is gone, from text to text: what is written reads back
    as the file did, without this program's hooks and with everybody else's. */
module Fallback {
  import opened Wrappers
  import opened Lexicographic
  import opened Text
  import opened Json
  import opened JsonPrinting
  import opened Strip
  import opened Settings

  // What is read from a text stands in key order.

  /** Every key of `m` comes after this one. */
  ghost predicate AllAfter(m: Map, key: string) {
    forall i :: 0 <= i < |m| ==> TEXT_ORDER(key, m[i].key) && m[i].key != key
  }

  lemma OrderOfTail(m: Map)
    requires m != [] && LawfulMap(m)
    ensures LawfulMap(m[1..]) && AllAfter(m[1..], m[0].key) && LawfulEntry(m[0])
  {
    hide TEXT_ORDER, LawfulEntry;
  }

  lemma OrderWithHead(e: Entry, m: Map)
    requires LawfulEntry(e) && LawfulMap(m) && AllAfter(m, e.key)
    ensures LawfulMap([e] + m)
  {
    hide TEXT_ORDER, LawfulEntry;
    var all := [e] + m;
    assert forall i :: 0 < i < |all| ==> all[i] == m[i - 1];
  }

  lemma AfterParts(e: Entry, m: Map, low: string)
    ensures AllAfter([e] + m, low) <==> TEXT_ORDER(low, e.key) && e.key != low && AllAfter(m, low)
  {
    hide TEXT_ORDER;
    var all := [e] + m;
    assert all[0] == e && forall i :: 0 <= i < |m| ==> all[i + 1] == m[i];
    assert forall i :: 0 < i < |all| ==> all[i] == m[i - 1];
  }

  lemma AfterIsTransitive(m: Map, low: string, key: string)
    requires AllAfter(m, key) && TEXT_ORDER(low, key) && low != key
    ensures AllAfter(m, low)
  {
    TextIsTotalOrder();
    hide TEXT_ORDER;
    forall i | 0 <= i < |m|
      ensures TEXT_ORDER(low, m[i].key) && m[i].key != low
    {
      var k := m[i].key;
      assert TEXT_ORDER(low, key) && TEXT_ORDER(key, k) ==> TEXT_ORDER(low, k);
      assert TEXT_ORDER(low, key) && TEXT_ORDER(key, low) ==> low == key;
    }
  }

  lemma {:induction false} PutKeepsOrder(m: Map, key: string, v: Value)
    requires LawfulMap(m) && Lawful(v)
    ensures LawfulMap(Put(m, key, v))
    ensures forall low :: AllAfter(m, low) && TEXT_ORDER(low, key) && low != key ==> AllAfter(Put(m, key, v), low)
  {
    hide LawfulMap, Lawful, TEXT_ORDER;
    var e := Entry(key, v);
    assert LawfulEntry(e);
    if m == [] {
      NoneAfter(key);
      OrderWithHead(e, []);
      assert [e] + [] == [e];
    } else {
      OrderOfTail(m);
      var (first, rest) := (m[0], m[1..]);
      assert m == [first] + rest;
      if first.key == key {
        OrderWithHead(e, rest);
      } else if TEXT_ORDER(first.key, key) {
        PutKeepsOrder(rest, key, v);
        OrderWithHead(first, Put(rest, key, v));
        forall low | AllAfter(m, low) && TEXT_ORDER(low, key) && low != key
          ensures AllAfter(Put(m, key, v), low)
        {
          assert m[0] == first && forall i :: 0 <= i < |rest| ==> rest[i] == m[i + 1];
        }
      } else {
        TextIsTotalOrder();
        assert TEXT_ORDER(key, first.key) || TEXT_ORDER(first.key, key);
        AfterIsTransitive(rest, key, first.key);
        OrderWithHead(e, m);
      }
    }
  }

  lemma NoneAfter(key: string)
    ensures LawfulMap([]) && AllAfter([], key)
  {
  }

  lemma {:induction false} MeaningIsLawful(v: Laid)
    requires Valid(v)
    ensures Lawful(Meaning(v))
    decreases v
  {
    match v
    case Listed(items, _) => ItemsAreLawful(items);
    case Table(members, _) => MembersAreLawful(members);
    case _ =>
  }

  lemma {:induction false} ItemsAreLawful(items: seq<Item>)
    requires forall i :: 0 <= i < |items| ==> ValidItem(items[i])
    ensures forall i :: 0 <= i < |MeaningOfItems(items)| ==> Lawful(MeaningOfItems(items)[i])
    decreases items
  {
    if items != [] {
      MeaningIsLawful(items[0].value);
      ItemsAreLawful(items[1..]);
    }
  }

  lemma {:induction false} MembersAreLawful(members: seq<Member>)
    requires forall i :: 0 <= i < |members| ==> ValidMember(members[i])
    ensures LawfulMap(MeaningOfMembers(members))
    decreases members, |members|
  {
    hide LawfulMap, Put, Meaning, Unescape, Lawful;
    if members == [] {
      NoneAfter("");
    } else {
      var n := |members| - 1;
      MembersAreLawful(members[..n]);
      MeaningIsLawful(members[n].value);
      PutKeepsOrder(MeaningOfMembers(members[..n]), Unescape(members[n].key).GetOr(""), MeaningOfMember(members[n]));
    }
  }

  lemma ReadIsLawful(text: string)
    requires Parse(text).Some?
    ensures LawfulMap(Parse(text).value)
  {
    hide LawfulMap, Blank, MeaningOfMembers;
    NoneAfter("");
    if !Blank(text) {
      MembersAreLawful(LayoutOf(text).members);
    }
  }

  lemma {:induction false} GetIsLawful(m: Map, key: string)
    requires LawfulMap(m) && Get(m, key).Some?
    ensures Lawful(Get(m, key).value)
  {
    hide Lawful, TEXT_ORDER;
    if m[0].key == key {
      assert LawfulEntry(m[0]);
    } else {
      OrderOfTail(m);
      GetIsLawful(m[1..], key);
    }
  }

  lemma ObjectsAreLawful(m: Map)
    ensures Lawful(Object(m)) <==> LawfulMap(m)
  {
    hide TEXT_ORDER;
  }

  lemma LawfulIsProper(document: Map)
    requires LawfulMap(document)
    ensures Proper(document)
  {
    if Get(document, HOOKS).Some? && Get(document, HOOKS).value.Object? {
      GetIsLawful(document, HOOKS);
      ObjectsAreLawful(Get(document, HOOKS).value.members);
    }
    hide TEXT_ORDER, Lawful;
  }

  // And so does what the removal leaves of it.

  lemma {:induction false} SetIsLawful(m: Map, key: string, v: Value)
    requires LawfulMap(m) && Lawful(v)
    ensures LawfulMap(Set(m, key, v))
    ensures |Set(m, key, v)| == |m| && forall i :: 0 <= i < |m| ==> Set(m, key, v)[i].key == m[i].key
  {
    hide LawfulMap, Lawful, TEXT_ORDER;
    if m != [] {
      OrderOfTail(m);
      var (first, rest) := (m[0], m[1..]);
      if first.key == key {
        assert LawfulEntry(Entry(key, v));
        OrderWithHead(Entry(key, v), rest);
      } else {
        SetIsLawful(rest, key, v);
        OrderWithHead(first, Set(rest, key, v));
      }
    }
  }

  lemma {:induction false} WithoutIsLawful(m: Map, key: string)
    requires LawfulMap(m)
    ensures LawfulMap(Without(m, key))
    ensures forall low :: AllAfter(m, low) ==> AllAfter(Without(m, key), low)
  {
    hide LawfulMap, TEXT_ORDER;
    if m != [] {
      OrderOfTail(m);
      var (first, rest) := (m[0], m[1..]);
      assert m == [first] + rest;
      WithoutIsLawful(rest, key);
      forall low | AllAfter(m, low)
        ensures AllAfter(Without(m, key), low)
      {
        AfterParts(first, rest, low);
        AfterParts(first, Without(rest, key), low);
      }
      if first.key != key {
        OrderWithHead(first, Without(rest, key));
      }
    }
  }

  lemma {:induction false} OthersAreLawful(hooks: seq<Value>)
    requires forall i :: 0 <= i < |hooks| ==> Lawful(hooks[i])
    ensures forall i :: 0 <= i < |Others(hooks)| ==> Lawful(Others(hooks)[i])
  {
    hide Lawful, IsNodal;
    if hooks != [] {
      OthersAreLawful(hooks[1..]);
    }
  }

  lemma StripGroupIsLawful(group: Value)
    requires Lawful(group)
    ensures Lawful(StripGroup(group))
  {
    if HasInner(group) {
      ObjectsAreLawful(group.members);
      GetIsLawful(group.members, HOOKS);
      OthersAreLawful(Inner(group));
      SetIsLawful(group.members, HOOKS, Array(Others(Inner(group))));
      ObjectsAreLawful(Set(group.members, HOOKS, Array(Others(Inner(group)))));
    }
  }

  lemma {:induction false} StripGroupsAreLawful(groups: seq<Value>)
    requires forall i :: 0 <= i < |groups| ==> Lawful(groups[i])
    ensures forall i :: 0 <= i < |StripGroups(groups)| ==> Lawful(StripGroups(groups)[i])
  {
    hide Lawful, StripGroup;
    if groups != [] {
      StripGroupIsLawful(groups[0]);
      StripGroupsAreLawful(groups[1..]);
    }
  }

  lemma {:induction false} StripEventsAreLawful(events: Map)
    requires LawfulMap(events)
    ensures LawfulMap(StripEvents(events))
    ensures forall low :: AllAfter(events, low) ==> AllAfter(StripEvents(events), low)
  {
    hide LawfulMap, TEXT_ORDER, StripEvent;
    if events != [] {
      OrderOfTail(events);
      var (first, rest) := (events[0], events[1..]);
      StripEventsAreLawful(rest);
      StripEventIsLawful(first.value);
      var e := Entry(first.key, StripEvent(first.value));
      assert LawfulEntry(e);
      OrderWithHead(e, StripEvents(rest));
      assert events == [first] + rest && [] + StripEvents(rest) == StripEvents(rest);
      forall low | AllAfter(events, low)
        ensures AllAfter(StripEvents(events), low)
      {
        AfterParts(first, rest, low);
        AfterParts(e, StripEvents(rest), low);
      }
    }
  }

  lemma StripEventIsLawful(v: Value)
    requires Lawful(v)
    ensures Lawful(StripEvent(v))
  {
    if v.Array? {
      StripGroupsAreLawful(v.items);
    }
  }

  lemma StrippedIsLawful(document: Map)
    requires LawfulMap(document)
    ensures LawfulMap(Stripped(document))
  {
    hide LawfulMap, Lawful, StripEvents;
    match Get(document, HOOKS)
    case Some(Object(events)) =>
      GetIsLawful(document, HOOKS);
      ObjectsAreLawful(events);
      StripEventsAreLawful(events);
      ObjectsAreLawful(StripEvents(events));
      WithoutIsLawful(document, HOOKS);
      SetIsLawful(document, HOOKS, Object(StripEvents(events)));
    case _ =>
  }

  /** From text to text: where the file holds this program's hooks and its region is gone, the removal
      writes a file that reads as before, with no hook of this program, under every event everybody
      else's in their order, and every other member unchanged. A second removal finds nothing. */
  lemma RemovalReadsBack(text: string, hooks: seq<Hook>, event: string, key: string)
    requires Cut(text, HOOKS, MembersText(hooks)).None? && HoldsHooks(text)
    ensures
      var (was, left) := (Parse(text).value, Remove(text, hooks));
      && left.Some? && Parse(left.value) == Some(Stripped(was))
      && !HoldsHooks(left.value)
      && HooksOf(Parse(left.value).value, event) == Others(HooksOf(was, event))
      && (key != HOOKS ==> Get(Parse(left.value).value, key) == Get(was, key))
  {
    hide Cut, Stripped, HoldsMarker, Render, LawfulMap, HooksOf, Others, Get;
    var was := Parse(text).value;
    ReadIsLawful(text);
    StrippedIsLawful(was);
    RenderedReadsBack(Stripped(was));
    LawfulIsProper(was);
    ProperHasUniqueKeys(was);
    NoMarkerLeft(was);
    OtherHooksSurvive(was, event);
    if key != HOOKS {
      OtherMembersSurvive(was, key);
    }
  }

  lemma ProperHasUniqueKeys(document: Map)
    requires Proper(document)
    ensures UniqueKeys(document)
  {
  }
}
