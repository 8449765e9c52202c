/** The text the hooks are written as. Every line of it holds something, it carries the marker,
    and its last line comes after the last marker: facts about what is printed, used to find the
    region again. */
module HookText {
  import opened Text
  import opened Json
  import opened Strip
  import opened Settings
  import opened Markers

  // The text of the members, and what is known of it.

  /** A line holds something besides spaces. */
  predicate StartsFull(s: string) {
    s != "" && s[0] != '\n' && (s[0] != ' ' || StartsFull(s[1..]))
  }

  /** No line after the first is blank. */
  predicate LinesFull(s: string) {
    s == "" || ((s[0] == '\n' ==> StartsFull(s[1..])) && LinesFull(s[1..]))
  }

  /** What the proofs need of the members' text. */
  predicate IsBody(j: string) {
    && j != "" && j[0] == '"'
    && LinesFull(j)
    && Count(j) > 0
    && '\n' in FromMarker(j)
  }

  lemma {:induction false} FullStays(s: string, t: string)
    requires StartsFull(s)
    ensures StartsFull(s + t)
  {
    assert (s + t)[1..] == s[1..] + t;
    if s[0] == ' ' {
      FullStays(s[1..], t);
    }
  }

  lemma {:induction false} LinesFullBoth(s: string, t: string)
    requires LinesFull(s) && LinesFull(t)
    ensures LinesFull(s + t)
  {
    if s == "" {
      assert s + t == t;
    } else {
      assert (s + t)[1..] == s[1..] + t;
      LinesFullBoth(s[1..], t);
      if s[0] == '\n' {
        FullStays(s[1..], t);
      }
    }
  }

  lemma {:induction false} OneLineIsFull(s: string)
    requires '\n' !in s
    ensures LinesFull(s)
  {
    if s != "" {
      assert s[0] in s && forall c :: c in s[1..] ==> c in s;
      OneLineIsFull(s[1..]);
    }
  }

  lemma NewLineIsFull(s: string)
    requires StartsFull(s) && LinesFull(s)
    ensures LinesFull("\n" + s)
  {
    assert ("\n" + s)[1..] == s;
  }

  lemma {:induction false} PaddedIsFull(spaces: string, s: string)
    requires AllSpaces(spaces) && StartsFull(s)
    ensures StartsFull(spaces + s)
  {
    if spaces == "" {
      assert spaces + s == s;
    } else {
      assert (spaces + s)[1..] == spaces[1..] + s;
      PaddedIsFull(spaces[1..], s);
    }
  }

  /** A new line, indented, that begins with something. */
  lemma NewPaddedLine(spaces: string, s: string)
    requires AllSpaces(spaces) && StartsFull(s) && LinesFull(s)
    ensures LinesFull("\n" + spaces + s)
  {
    OneLineIsFull(spaces);
    LinesFullBoth(spaces, s);
    PaddedIsFull(spaces, s);
    NewLineIsFull(spaces + s);
    assert "\n" + (spaces + s) == "\n" + spaces + s;
  }

  ghost predicate Printable(s: string) {
    StartsFull(s) && LinesFull(s)
  }

  /** No number of the value is spelled with a line break or nothing at all. */
  predicate TokensInLine(v: Value)
    decreases v
  {
    match v
    case Number(token) => token != "" && token[0] != ' ' && '\n' !in token
    case Array(items) => forall i :: 0 <= i < |items| ==> TokensInLine(items[i])
    case Object(members) => forall i :: 0 <= i < |members| ==> EntryInLine(members[i])
    case _ => true
  }

  predicate EntryInLine(e: Entry)
    decreases e
  {
    TokensInLine(e.value)
  }

  lemma QuoteInLine(s: string)
    ensures '\n' !in Quote(s) && Printable(Quote(s))
  {
    OneLineIsFull(Quote(s));
  }

  lemma {:induction false} PrettyIsFull(v: Value, depth: nat)
    requires TokensInLine(v)
    ensures Printable(Pretty(v, depth))
    decreases v
  {
    match v
    case Null => OneLineIsFull("null");
    case Bool(b) => OneLineIsFull("true"); OneLineIsFull("false");
    case Number(token) =>
      assert token[0] in token;
      OneLineIsFull(token);
    case Text(s) => QuoteInLine(s);
    case Array(items) =>
      OneLineIsFull("[]");
      if items != [] {
        PrettyItemsAreFull(items, depth + 1);
        Bracketed('[', PrettyItems(items, depth + 1), Pad(depth), ']');
      }
    case Object(members) =>
      OneLineIsFull("{}");
      if members != [] {
        PrettyMembersAreFull(members, depth + 1);
        Bracketed('{', PrettyMembers(members, depth + 1), Pad(depth), '}');
      }
  }

  lemma Bracketed(open: char, inner: string, pad: string, close: char)
    requires LinesFull(inner) && AllSpaces(pad) && open != ' ' && open != '\n' && close != ' ' && close != '\n'
    ensures Printable([open] + inner + "\n" + pad + [close])
  {
    OneLineIsFull([open]);
    OneLineIsFull([close]);
    LinesFullBoth([open], inner);
    NewPaddedLine(pad, [close]);
    LinesFullBoth([open] + inner, "\n" + pad + [close]);
    assert ([open] + inner) + ("\n" + pad + [close]) == [open] + inner + "\n" + pad + [close];
  }

  lemma {:induction false} PrettyItemsAreFull(items: seq<Value>, depth: nat)
    requires forall i :: 0 <= i < |items| ==> TokensInLine(items[i])
    ensures LinesFull(PrettyItems(items, depth))
    decreases items
  {
    if items != [] {
      PrettyIsFull(items[0], depth);
      PrettyItemsAreFull(items[1..], depth);
      var one := "\n" + Pad(depth) + Pretty(items[0], depth);
      var comma := if |items| == 1 then "" else ",";
      NewPaddedLine(Pad(depth), Pretty(items[0], depth));
      OneLineIsFull(comma);
      LinesFullBoth(one, comma);
      LinesFullBoth(one + comma, PrettyItems(items[1..], depth));
    }
  }

  lemma {:induction false} PrettyMembersAreFull(members: Map, depth: nat)
    requires forall i :: 0 <= i < |members| ==> EntryInLine(members[i])
    ensures LinesFull(PrettyMembers(members, depth))
    decreases members
  {
    if members != [] {
      PrettyMemberIsFull(members[0], depth);
      PrettyMembersAreFull(members[1..], depth);
      var one := "\n" + Pad(depth) + PrettyMember(members[0], depth);
      var comma := if |members| == 1 then "" else ",";
      NewPaddedLine(Pad(depth), PrettyMember(members[0], depth));
      OneLineIsFull(comma);
      LinesFullBoth(one, comma);
      LinesFullBoth(one + comma, PrettyMembers(members[1..], depth));
    }
  }

  lemma {:induction false} PrettyMemberIsFull(e: Entry, depth: nat)
    requires EntryInLine(e)
    ensures Printable(PrettyMember(e, depth))
    decreases e
  {
    PrettyIsFull(e.value, depth);
    QuoteInLine(e.key);
    OneLineIsFull(": ");
    LinesFullBoth(Quote(e.key), ": ");
    LinesFullBoth(Quote(e.key) + ": ", Pretty(e.value, depth));
  }

  /** A hook this program may install: its command carries the marker, and the event's name
      is on one line. */
  ghost predicate WellMade(hook: Hook) {
    Contains(hook.command, MARKER) && '\n' !in hook.event
  }

  lemma {:induction false} EscapeBoth(a: string, b: string)
    ensures Escape(a + b) == Escape(a) + Escape(b)
  {
    if a == "" {
      assert a + b == b;
    } else {
      assert (a + b)[1..] == a[1..] + b;
      EscapeBoth(a[1..], b);
    }
  }

  lemma EscapeOfPlainChar(c: char)
    requires c >= ' ' && c != '"' && c != '\\'
    ensures EscapeChar(c) == [c]
  {
  }

  lemma {:induction false} EscapeOfPlain(s: string)
    requires forall i :: 0 <= i < |s| ==> s[i] >= ' ' && s[i] != '"' && s[i] != '\\'
    ensures Escape(s) == s
  {
    hide EscapeChar;
    if s != "" {
      EscapeOfPlainChar(s[0]);
      EscapeOfPlain(s[1..]);
      assert [s[0]] + s[1..] == s;
    }
  }

  lemma MarkerIsPlain()
    ensures forall i :: 0 <= i < |MARKER| ==> MARKER[i] >= ' ' && MARKER[i] != '"' && MARKER[i] != '\\'
  {
    MarkerIs();
    hide MARKER;
  }

  lemma EscapeKeepsMarker(s: string)
    requires Contains(s, MARKER)
    ensures Count(Quote(s)) > 0
  {
    hide Escape;
    var i: nat :| OccursAt(s, MARKER, i);
    var a, b := s[..i], s[i + |MARKER|..];
    assert s == a + (MARKER + b);
    EscapeBoth(a, MARKER + b);
    EscapeBoth(MARKER, b);
    MarkerIsPlain();
    EscapeOfPlain(MARKER);
    var before, after := "\"" + Escape(a), Escape(b) + "\"";
    assert Quote(s) == before + MARKER + after;
    ContainsBetween(before, MARKER, after);
    CountIsContains(Quote(s));
  }

  lemma {:induction false} MarkerWithin(a: string, mid: string, b: string)
    requires Count(mid) > 0
    ensures Count(a + mid + b) > 0
  {
    CountAtLeast(a, mid);
    CountAtLeast(a + mid, b);
  }

  function TimeoutOf(hook: Hook): Map {
    match hook.timeout case None => [] case Some(n) => [Entry("timeout", Number(Decimal(n)))]
  }

  function CommandEntry(hook: Hook): Value {
    Object([Entry(COMMAND, Text(hook.command))] + TimeoutOf(hook) + [Entry("type", Text(COMMAND))])
  }

  lemma CommandEntryInLine(hook: Hook)
    ensures TokensInLine(CommandEntry(hook))
  {
    var members := CommandEntry(hook).members;
    forall i | 0 <= i < |members| ensures EntryInLine(members[i]) {
      if hook.timeout.Some? && i == 1 {
        var token := Decimal(hook.timeout.value);
        assert members[1].value == Number(token);
        assert token[0] != ' ' && '\n' !in token;
      }
    }
  }

  lemma CommandInEntry(hook: Hook, depth: nat)
    requires Contains(hook.command, MARKER)
    ensures Count(Pretty(CommandEntry(hook), depth)) > 0
  {
    hide Count, Escape, Pretty, PrettyMembers, TimeoutOf;
    var members := CommandEntry(hook).members;
    assert members[0] == Entry(COMMAND, Text(hook.command));
    EscapeKeepsMarker(hook.command);
    FirstMemberText(members, hook.command, depth + 1);
    MarkerWithin("\n" + Pad(depth + 1) + (Quote(COMMAND) + ": "), Quote(hook.command),
                 (if |members| == 1 then "" else ",") + PrettyMembers(members[1..], depth + 1));
    ObjectText(members, depth);
    MarkerWithin("{", PrettyMembers(members, depth + 1), "\n" + Pad(depth) + "}");
  }

  lemma FirstMemberText(members: Map, command: string, depth: nat)
    requires members != [] && members[0] == Entry(COMMAND, Text(command))
    ensures PrettyMembers(members, depth)
      == "\n" + Pad(depth) + (Quote(COMMAND) + ": ") + Quote(command)
         + ((if |members| == 1 then "" else ",") + PrettyMembers(members[1..], depth))
  {
    hide Quote;
    var pad, key, value := "\n" + Pad(depth), Quote(COMMAND) + ": ", Quote(command);
    var comma, rest := if |members| == 1 then "" else ",", PrettyMembers(members[1..], depth);
    assert PrettyMember(members[0], depth) == key + value;
    assert pad + (key + value) + comma + rest == pad + key + value + (comma + rest);
  }

  lemma ObjectText(members: Map, depth: nat)
    requires members != []
    ensures Pretty(Object(members), depth) == "{" + PrettyMembers(members, depth + 1) + ("\n" + Pad(depth) + "}")
  {
    hide PrettyMembers;
    var inner, pad := PrettyMembers(members, depth + 1), Pad(depth);
    assert "{" + inner + "\n" + pad + "}" == "{" + inner + ("\n" + pad + "}");
  }

  lemma ArrayText(v: Value, depth: nat)
    ensures Pretty(Array([v]), depth) == "[\n" + Pad(depth + 1) + Pretty(v, depth + 1) + ("\n" + Pad(depth) + "]")
  {
    OneItemText(v, depth + 1);
    var pad, one, last := Pad(depth + 1), Pretty(v, depth + 1), Pad(depth);
    assert Pretty(Array([v]), depth) == "[" + PrettyItems([v], depth + 1) + "\n" + last + "]" by {
      hide PrettyItems;
    }
    hide *;
    ArrayLines(pad, one, last);
  }

  lemma ArrayLines(pad: string, one: string, last: string)
    ensures "[" + ("\n" + pad + one) + "\n" + last + "]" == "[\n" + pad + one + ("\n" + last + "]")
  {
    assert "[\n" == "[" + "\n";
  }

  lemma OneItemText(v: Value, depth: nat)
    ensures PrettyItems([v], depth) == "\n" + Pad(depth) + Pretty(v, depth)
  {
    hide Pretty;
    assert [v][1..] == [];
    assert PrettyItems([v], depth) == "\n" + Pad(depth) + Pretty(v, depth) + "" + "";
  }

  lemma OneMemberText(e: Entry, depth: nat)
    ensures PrettyMembers([e], depth) == "\n" + Pad(depth) + PrettyMember(e, depth)
  {
    hide PrettyMember;
    assert [e][1..] == [];
    assert PrettyMembers([e], depth) == "\n" + Pad(depth) + PrettyMember(e, depth) + "" + "";
  }

  lemma SingleMemberText(key: string, v: Value, depth: nat)
    ensures Pretty(Object([Entry(key, v)]), depth)
      == "{\n" + Pad(depth + 1) + Quote(key) + ": " + Pretty(v, depth + 1) + ("\n" + Pad(depth) + "}")
  {
    hide *;
    var e := Entry(key, v);
    OneMemberText(e, depth + 1);
    ObjectText([e], depth);
    MemberIs(e, depth + 1);
    Braced(Pad(depth + 1), Quote(key), Pretty(v, depth + 1));
  }

  lemma MemberIs(e: Entry, depth: nat)
    ensures PrettyMember(e, depth) == Quote(e.key) + ": " + Pretty(e.value, depth)
  {
    hide Quote, Pretty;
  }

  lemma Braced(pad: string, name: string, value: string)
    ensures "{" + ("\n" + pad + (name + ": " + value)) == "{\n" + pad + name + ": " + value
  {
    assert "{\n" == "{" + "\n";
  }

  lemma GroupKeepsMarker(hook: Hook, depth: nat)
    requires WellMade(hook)
    ensures Count(Pretty(Array([GroupOf(hook)]), depth)) > 0
  {
    hide Count, Pretty, PrettyItems, PrettyMembers, Quote, Pad;
    var entry := CommandEntry(hook);
    var list := Array([entry]);
    assert GroupOf(hook) == Object([Entry(HOOKS, list)]);
    CommandInEntry(hook, depth + 3);
    ArrayText(entry, depth + 2);
    MarkerWithin("[\n" + Pad(depth + 3), Pretty(entry, depth + 3), "\n" + Pad(depth + 2) + "]");
    SingleMemberText(HOOKS, list, depth + 1);
    MarkerWithin("{\n" + Pad(depth + 2) + Quote(HOOKS) + ": ", Pretty(list, depth + 2), "\n" + Pad(depth + 1) + "}");
    ArrayText(GroupOf(hook), depth);
    MarkerWithin("[\n" + Pad(depth + 1), Pretty(GroupOf(hook), depth + 1), "\n" + Pad(depth) + "]");
  }

  lemma GroupInLine(hook: Hook)
    ensures TokensInLine(Array([GroupOf(hook)]))
  {
    CommandEntryInLine(hook);
    var list := Array([CommandEntry(hook)]);
    assert GroupOf(hook) == Object([Entry(HOOKS, list)]);
    assert TokensInLine(list);
    assert EntryInLine(Entry(HOOKS, list));
    assert TokensInLine(GroupOf(hook));
  }

  /** One member's text: it begins with a quote, no line of it is blank, it holds the
      marker, and its last line is the closing bracket alone. */
  lemma MemberIsBody(hook: Hook)
    requires WellMade(hook)
    ensures var m := MemberText(hook);
      m != "" && m[0] == '"' && LinesFull(m) && Count(m) > 0 && EndsWith(m, "\n]")
  {
    hide Count, Pretty, LinesFull, TokensInLine, GroupOf;
    var name := "\"" + hook.event + "\": ";
    var value := Pretty(Array([GroupOf(hook)]), 0);
    GroupKeepsMarker(hook, 0);
    GroupInLine(hook);
    PrettyIsFull(Array([GroupOf(hook)]), 0);
    OneLineIsFull(name);
    LinesFullBoth(name, value);
    MarkerWithin(name, value, "");
    assert name + value + "" == MemberText(hook);
    ArrayText(GroupOf(hook), 0);
    assert Pad(0) == "";
    EndsAfter(name + ("[\n" + Pad(1) + Pretty(GroupOf(hook), 1)), "\n]");
    assert name + ("[\n" + Pad(1) + Pretty(GroupOf(hook), 1)) + "\n]" == name + value by {
      assert "\n" + Pad(0) + "]" == "\n]";
      assert value == "[\n" + Pad(1) + Pretty(GroupOf(hook), 1) + "\n]";
    }
  }

  lemma EndsAfter(s: string, end: string)
    ensures EndsWith(s + end, end)
  {
  }

  lemma {:induction false} MembersAreBody(hooks: seq<Hook>)
    requires hooks != [] && forall h :: h in hooks ==> WellMade(h)
    ensures var j := Join(MembersText(hooks), ",\n");
      j != "" && j[0] == '"' && LinesFull(j) && Count(j) > 0 && EndsWith(j, "\n]")
  {
    hide Count, LinesFull, MemberText, WellMade;
    var one := MemberText(hooks[0]);
    MemberIsBody(hooks[0]);
    if |hooks| == 1 {
      assert MembersText(hooks) == [one];
    } else {
      var rest := Join(MembersText(hooks[1..]), ",\n");
      MembersAreBody(hooks[1..]);
      JoinMore(hooks);
      CommaLine(rest);
      LinesFullBoth(one, ",\n" + rest);
      CountAtLeast(one, ",\n" + rest);
      assert one + (",\n" + rest) == one + ",\n" + rest;
      EndsLater(one + ",\n", rest, "\n]");
    }
  }

  lemma JoinMore(hooks: seq<Hook>)
    requires |hooks| > 1
    ensures Join(MembersText(hooks), ",\n") == MemberText(hooks[0]) + ",\n" + Join(MembersText(hooks[1..]), ",\n")
  {
    var all := MembersText(hooks);
    assert all[1..] == MembersText(hooks[1..]);
    assert |all| > 1 by { assert MembersText(hooks[1..]) != []; }
  }

  lemma CommaLine(rest: string)
    requires rest != "" && rest[0] == '"' && LinesFull(rest)
    ensures LinesFull(",\n" + rest)
  {
    NewLineIsFull(rest);
    assert (",\n" + rest)[1..] == "\n" + rest;
  }

  lemma EndsLater(a: string, b: string, end: string)
    requires EndsWith(b, end)
    ensures EndsWith(a + b, end)
  {
    assert (a + b)[|a + b| - |end|..] == b[|b| - |end|..];
  }

  /** The members of well made hooks are what the proofs below need. */
  lemma MembersBody(hooks: seq<Hook>)
    requires hooks != [] && forall h :: h in hooks ==> WellMade(h)
    ensures IsBody(Join(MembersText(hooks), ",\n"))
  {
    hide WellMade, LinesFull, MembersText, Join;
    var j := Join(MembersText(hooks), ",\n");
    MembersAreBody(hooks);
    LastLineAfterMarker(j);
  }

  lemma LastLineAfterMarker(j: string)
    requires Count(j) > 0 && EndsWith(j, "\n]")
    ensures '\n' in FromMarker(j)
  {
    FromMarkerIsSuffix(j);
    FromMarkerStarts(j);
    var t := FromMarker(j);
    assert |t| >= |MARKER| >= 2;
    assert t[|t| - 2] == j[|j| - 2] == j[|j| - 2..][0] == '\n';
  }

  lemma {:induction false} FromMarkerStarts(s: string)
    requires Count(s) > 0
    ensures StartsWith(FromMarker(s), MARKER)
  {
    if !StartsWith(s, MARKER) {
      FromMarkerStarts(s[1..]);
    }
  }
}
