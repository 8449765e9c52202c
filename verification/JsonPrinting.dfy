/** What this program prints reads back as what was printed, wherever it is put and however far
    it is moved to the right: strings escaped and read again, numbers, and members that stand in
    key order. */
module JsonPrinting {
  import opened Wrappers
  import opened Lexicographic
  import opened Json
  import opened JsonReading
  import opened Settings
  import opened Markers

  // Strings.

  lemma HexReads(n: nat)
    requires n < 16
    ensures HexValue(Hex(n)) == Some(n) && Hex(n) != '"' && Hex(n) != '\\' && Hex(n) >= ' '
  {
  }

  lemma PlainReads(c: char, rest: string)
    requires c != '"' && c != '\\' && c >= ' '
    ensures RawString([c] + rest) <==> RawString(rest)
  {
    assert ([c] + rest)[1..] == rest;
  }

  lemma ControlReads(c: char, rest: string)
    requires c < ' '
    ensures
      var escape := "\\u00" + [Hex(c as int / 16), Hex(c as int % 16)];
      Unescape(escape + rest) == Before([c], Unescape(rest)) && (RawString(escape + rest) <==> RawString(rest))
  {
    HexReads(c as int / 16);
    HexReads(c as int % 16);
    var (h, l) := (Hex(c as int / 16), Hex(c as int % 16));
    var raw := "\\u00" + [h, l] + rest;
    assert raw[2..][..4] == ['0', '0', h, l];
    assert raw[6..] == rest;
    assert FourHex(raw[2..]) == Some(c as int);
    PlainReads(l, rest);
    PlainReads(h, [l] + rest);
    PlainReads('0', [h] + ([l] + rest));
    PlainReads('0', ['0'] + ([h] + ([l] + rest)));
    assert raw[2..] == ['0'] + (['0'] + ([h] + ([l] + rest)));
  }

  /** The letter after a backslash, and the character the two stand for. */
  predicate Pair(letter: char, c: char) {
    || (letter == '"' && c == '"') || (letter == '\\' && c == '\\')
    || (letter == 'b' && c == 8 as char) || (letter == 'f' && c == 12 as char)
    || (letter == 'n' && c == '\n') || (letter == 'r' && c == '\r') || (letter == 't' && c == '\t')
  }

  lemma PairReads(letter: char, c: char, rest: string)
    requires Pair(letter, c)
    ensures Unescape(['\\', letter] + rest) == Before([c], Unescape(rest))
    ensures RawString(['\\', letter] + rest) <==> RawString(rest)
  {
    var raw := ['\\', letter] + rest;
    assert raw[0] == '\\' && raw[1] == letter && raw[2..] == rest;
  }

  lemma OtherReads(c: char, rest: string)
    requires c != '"' && c != '\\' && c >= ' '
    ensures Unescape([c] + rest) == Before([c], Unescape(rest))
    ensures RawString([c] + rest) <==> RawString(rest)
  {
    assert ([c] + rest)[1..] == rest;
  }

  lemma CharacterReads(c: char, rest: string)
    ensures Unescape(EscapeChar(c) + rest) == Before([c], Unescape(rest))
    ensures RawString(EscapeChar(c) + rest) <==> RawString(rest)
  {
    hide Unescape, RawString, Before;
    if c == '"' || c == '\\' || c == 8 as char || c == '\t' || c == '\n' || c == 12 as char || c == '\r' {
      var letter := EscapeChar(c)[1];
      assert EscapeChar(c) == ['\\', letter];
      PairReads(letter, c, rest);
    } else if c < ' ' {
      ControlReads(c, rest);
    } else {
      OtherReads(c, rest);
    }
  }

  lemma {:induction false} EscapedReads(s: string)
    ensures Unescape(Escape(s)) == Some(s) && RawString(Escape(s))
  {
    hide EscapeChar, Unescape, RawString;
    if s == "" {
      EmptyReads();
    } else {
      EscapedReads(s[1..]);
      CharacterReads(s[0], Escape(s[1..]));
      assert [s[0]] + s[1..] == s;
    }
  }

  lemma EmptyReads()
    ensures Unescape("") == Some("") && RawString("")
  {
  }

  // Values as they are printed.

  /** A value that a file can hold: its numbers are numbers, and its members stand in key order. */
  ghost predicate Lawful(v: Value)
    decreases v
  {
    match v
    case Number(token) => IsNumber(token)
    case Array(items) => forall i :: 0 <= i < |items| ==> Lawful(items[i])
    case Object(members) => InKeyOrder(members) && forall i :: 0 <= i < |members| ==> LawfulEntry(members[i])
    case _ => true
  }

  ghost predicate LawfulEntry(e: Entry)
    decreases e
  {
    Lawful(e.value)
  }

  ghost predicate LawfulMap(m: Map) {
    InKeyOrder(m) && forall i :: 0 <= i < |m| ==> LawfulEntry(m[i])
  }

  ghost predicate InKeyOrder(m: Map) {
    forall i, j :: 0 <= i < j < |m| ==> TEXT_ORDER(m[i].key, m[j].key) && m[i].key != m[j].key
  }

  /** The layout of a printed value, its lines moved right by `indent`. */
  function LaidOf(v: Value, depth: nat, indent: string): Laid
    decreases v
  {
    match v
    case Null => Scalar("null")
    case Bool(b) => Scalar(if b then "true" else "false")
    case Number(token) => Scalar(token)
    case Text(s) => Quoted(Escape(s))
    case Array(items) => Listed(ItemsOf(items, depth, indent), "")
    case Object(members) => Table(MembersOf(members, depth, indent), "")
  }

  /** A new line, with so many levels open. */
  function NewLine(depth: nat, indent: string): string {
    "\n" + indent + Pad(depth)
  }

  function ItemsOf(items: seq<Value>, depth: nat, indent: string): (r: seq<Item>)
    ensures |r| == |items|
    decreases items
  {
    if items == [] then [] else
      [Item(NewLine(depth + 1, indent), LaidOf(items[0], depth + 1, indent), if |items| == 1 then NewLine(depth, indent) else "")]
      + ItemsOf(items[1..], depth, indent)
  }

  function MembersOf(members: Map, depth: nat, indent: string): (r: seq<Member>)
    ensures |r| == |members|
    decreases members
  {
    if members == [] then [] else
      [MemberOf(members[0], depth, indent, if |members| == 1 then NewLine(depth, indent) else "")]
      + MembersOf(members[1..], depth, indent)
  }

  function MemberOf(e: Entry, depth: nat, indent: string, after: string): Member
    decreases e
  {
    Member(NewLine(depth + 1, indent), Escape(e.key), "", " ", LaidOf(e.value, depth + 1, indent), after)
  }

  lemma ReindentNewLine(depth: nat, indent: string)
    ensures Reindent("\n" + Pad(depth), indent) == NewLine(depth, indent)
  {
    var s := "\n" + Pad(depth);
    assert s[1..] == Pad(depth);
    ReindentOneLine(Pad(depth), indent);
    assert "\n" + indent + Pad(depth) == ("\n" + indent) + Pad(depth);
  }

  /** Values without members or items are one line. */
  lemma OneLineStays(v: Value, depth: nat, indent: string)
    requires Lawful(v) && !v.Array? && !v.Object?
    ensures Reindent(Pretty(v, depth), indent) == Pretty(v, depth) == Show(LaidOf(v, depth, indent))
  {
    if v.Number? {
      NumbersAreTokens(v.token);
    }
    ReindentOneLine(Pretty(v, depth), indent);
  }

  lemma {:induction false} PrintedIsLaid(v: Value, depth: nat, indent: string)
    requires Lawful(v)
    ensures Reindent(Pretty(v, depth), indent) == Show(LaidOf(v, depth, indent))
    decreases v
  {
    match v
    case Array(items) =>
      if items == [] {
        EmptyIsLaid(v, depth, indent);
      } else {
        ItemsAreLaid(items, depth, indent);
        ArrayIsLaid(items, depth, indent);
      }
    case Object(members) =>
      if members == [] {
        EmptyIsLaid(v, depth, indent);
      } else {
        MembersAreLaid(members, depth, indent);
        ObjectIsLaid(members, depth, indent);
      }
    case _ => OneLineStays(v, depth, indent);
  }

  lemma EmptyIsLaid(v: Value, depth: nat, indent: string)
    requires v == Array([]) || v == Object([])
    ensures Reindent(Pretty(v, depth), indent) == Show(LaidOf(v, depth, indent))
  {
    ReindentOneLine(Pretty(v, depth), indent);
    assert "[" + "" + "" + "]" == "[]" && "{" + "" + "" + "}" == "{}";
  }

  lemma ArrayIsLaid(items: seq<Value>, depth: nat, indent: string)
    requires items != []
    requires Reindent(PrettyItems(items, depth + 1), indent) + NewLine(depth, indent) == ShowItems(ItemsOf(items, depth, indent))
    ensures Reindent(Pretty(Array(items), depth), indent) == Show(LaidOf(Array(items), depth, indent))
  {
    hide PrettyItems, ShowItems, ItemsOf, Reindent, Pad, NewLine;
    Brackets("[", PrettyItems(items, depth + 1), depth, indent, "]");
    assert "[" + ShowItems(ItemsOf(items, depth, indent)) + "" + "]" == "[" + ShowItems(ItemsOf(items, depth, indent)) + "]";
  }

  lemma ObjectIsLaid(members: Map, depth: nat, indent: string)
    requires members != []
    requires Reindent(PrettyMembers(members, depth + 1), indent) + NewLine(depth, indent)
      == ShowMembers(MembersOf(members, depth, indent))
    ensures Reindent(Pretty(Object(members), depth), indent) == Show(LaidOf(Object(members), depth, indent))
  {
    hide PrettyMembers, ShowMembers, MembersOf, Reindent, Pad, NewLine;
    Brackets("{", PrettyMembers(members, depth + 1), depth, indent, "}");
    var shown := ShowMembers(MembersOf(members, depth, indent));
    assert "{" + shown + "" + "}" == "{" + shown + "}";
  }

  lemma Brackets(open: string, inner: string, depth: nat, indent: string, close: string)
    requires '\n' !in open && '\n' !in close
    ensures Reindent(open + inner + "\n" + Pad(depth) + close, indent)
      == open + (Reindent(inner, indent) + NewLine(depth, indent)) + close
  {
    var line := "\n" + Pad(depth);
    assert open + inner + "\n" + Pad(depth) + close == (open + (inner + line)) + close;
    ReindentBoth(open + (inner + line), close, indent);
    ReindentBoth(open, inner + line, indent);
    ReindentBoth(inner, line, indent);
    ReindentNewLine(depth, indent);
    ReindentOneLine(open, indent);
    ReindentOneLine(close, indent);
  }

  lemma {:induction false} ItemsAreLaid(items: seq<Value>, depth: nat, indent: string)
    requires items != [] && forall i :: 0 <= i < |items| ==> Lawful(items[i])
    ensures Reindent(PrettyItems(items, depth + 1), indent) + NewLine(depth, indent) == ShowItems(ItemsOf(items, depth, indent))
    decreases items
  {
    var end := NewLine(depth, indent);
    PrintedIsLaid(items[0], depth + 1, indent);
    ItemIsLaid(items[0], depth, indent, if |items| == 1 then end else "");
    PrettyItemsSplit(items, depth + 1);
    ItemsOfSplit(items, depth, indent);
    var head := "\n" + Pad(depth + 1) + Pretty(items[0], depth + 1);
    if |items| > 1 {
      ItemsAreLaid(items[1..], depth, indent);
      OneMore(head, PrettyItems(items[1..], depth + 1), indent, end);
    }
  }

  /** One more item or member before those already printed. */
  lemma OneMore(head: string, tail: string, indent: string, end: string)
    ensures Reindent(head + ("," + tail), indent) + end == (Reindent(head, indent) + "") + "," + (Reindent(tail, indent) + end)
  {
    ReindentBoth(head, "," + tail, indent);
    ReindentBoth(",", tail, indent);
    ReindentOneLine(",", indent);
    hide Reindent;
    BeforeComma(Reindent(head, indent), Reindent(tail, indent), end);
  }

  lemma BeforeComma(head: string, tail: string, end: string)
    ensures (head + ("," + tail)) + end == (head + "") + "," + (tail + end)
  {
    assert head + "" == head;
  }

  lemma ItemIsLaid(v: Value, depth: nat, indent: string, after: string)
    requires Lawful(v)
    requires Reindent(Pretty(v, depth + 1), indent) == Show(LaidOf(v, depth + 1, indent))
    ensures Reindent("\n" + Pad(depth + 1) + Pretty(v, depth + 1), indent) + after
      == ShowItem(Item(NewLine(depth + 1, indent), LaidOf(v, depth + 1, indent), after))
  {
    hide Pretty, Show, LaidOf, Lawful;
    ReindentBoth("\n" + Pad(depth + 1), Pretty(v, depth + 1), indent);
    ReindentNewLine(depth + 1, indent);
  }

  lemma ItemsOfSplit(items: seq<Value>, depth: nat, indent: string)
    requires items != []
    ensures
      var laid := ItemsOf(items, depth, indent);
      var first := Item(NewLine(depth + 1, indent), LaidOf(items[0], depth + 1, indent), if |items| == 1 then NewLine(depth, indent) else "");
      ShowItems(laid) == if |items| == 1 then ShowItem(first) else ShowItem(first) + "," + ShowItems(ItemsOf(items[1..], depth, indent))
  {
    hide ShowItem, LaidOf, NewLine;
    var laid := ItemsOf(items, depth, indent);
    assert laid[1..] == ItemsOf(items[1..], depth, indent);
  }

  lemma PrettyItemsSplit(items: seq<Value>, depth: nat)
    requires items != []
    ensures
      var head := "\n" + Pad(depth) + Pretty(items[0], depth);
      PrettyItems(items, depth) == if |items| == 1 then head else head + ("," + PrettyItems(items[1..], depth))
  {
    hide Pretty, Pad;
    var head := "\n" + Pad(depth) + Pretty(items[0], depth);
    if |items| == 1 {
      NothingPrinted(items[1..], depth);
    }
    SplitAt(head, if |items| == 1 then "" else ",", PrettyItems(items[1..], depth));
  }

  lemma NothingPrinted(items: seq<Value>, depth: nat)
    requires |items| == 0
    ensures PrettyItems(items, depth) == ""
  {
  }

  lemma SplitAt(head: string, comma: string, tail: string)
    ensures head + comma + tail == head + (comma + tail)
    ensures comma == "" && tail == "" ==> head + (comma + tail) == head
  {
  }

  lemma {:induction false} MembersAreLaid(members: Map, depth: nat, indent: string)
    requires members != [] && forall i :: 0 <= i < |members| ==> LawfulEntry(members[i])
    ensures Reindent(PrettyMembers(members, depth + 1), indent) + NewLine(depth, indent)
      == ShowMembers(MembersOf(members, depth, indent))
    decreases members
  {
    var end := NewLine(depth, indent);
    MemberIsLaid(members[0], depth, indent, if |members| == 1 then end else "");
    PrettyMembersSplit(members, depth + 1);
    MembersOfSplit(members, depth, indent);
    var head := "\n" + Pad(depth + 1) + PrettyMember(members[0], depth + 1);
    if |members| > 1 {
      MembersAreLaid(members[1..], depth, indent);
      OneMore(head, PrettyMembers(members[1..], depth + 1), indent, end);
    }
  }

  lemma MembersOfSplit(members: Map, depth: nat, indent: string)
    requires members != []
    ensures
      var first := MemberOf(members[0], depth, indent, if |members| == 1 then NewLine(depth, indent) else "");
      ShowMembers(MembersOf(members, depth, indent))
      == if |members| == 1 then ShowMember(first) else ShowMember(first) + "," + ShowMembers(MembersOf(members[1..], depth, indent))
  {
    hide ShowMember, MemberOf, NewLine;
    var laid := MembersOf(members, depth, indent);
    assert laid[1..] == MembersOf(members[1..], depth, indent);
  }

  lemma PrettyMembersSplit(members: Map, depth: nat)
    requires members != []
    ensures
      var head := "\n" + Pad(depth) + PrettyMember(members[0], depth);
      PrettyMembers(members, depth) == if |members| == 1 then head else head + ("," + PrettyMembers(members[1..], depth))
  {
    hide PrettyMember, Pad;
    var head := "\n" + Pad(depth) + PrettyMember(members[0], depth);
    if |members| == 1 {
      NoMembersPrinted(members[1..], depth);
    }
    SplitAt(head, if |members| == 1 then "" else ",", PrettyMembers(members[1..], depth));
  }

  lemma NoMembersPrinted(members: Map, depth: nat)
    requires |members| == 0
    ensures PrettyMembers(members, depth) == ""
  {
  }

  lemma {:induction false} MemberIsLaid(e: Entry, depth: nat, indent: string, after: string)
    requires LawfulEntry(e)
    ensures Reindent("\n" + Pad(depth + 1) + PrettyMember(e, depth + 1), indent) + after
      == ShowMember(MemberOf(e, depth, indent, after))
    decreases e
  {
    PrintedIsLaid(e.value, depth + 1, indent);
    NamedIsLaid(e, depth, indent, after);
  }

  lemma NamedIsLaid(e: Entry, depth: nat, indent: string, after: string)
    requires Reindent(Pretty(e.value, depth + 1), indent) == Show(LaidOf(e.value, depth + 1, indent))
    ensures Reindent("\n" + Pad(depth + 1) + PrettyMember(e, depth + 1), indent) + after
      == ShowMember(MemberOf(e, depth, indent, after))
  {
    hide Pretty, Show, LaidOf, Escape;
    var (line, name, v) := ("\n" + Pad(depth + 1), Quote(e.key) + ": ", Pretty(e.value, depth + 1));
    assert PrettyMember(e, depth + 1) == name + v;
    ReindentBoth(line, name + v, indent);
    ReindentBoth(name, v, indent);
    ReindentNewLine(depth + 1, indent);
    assert '\n' !in name;
    ReindentOneLine(name, indent);
    NamedShows(NewLine(depth + 1, indent), Escape(e.key), Show(LaidOf(e.value, depth + 1, indent)), after);
  }

  lemma NamedShows(first: string, name: string, shown: string, after: string)
    ensures (first + (("\"" + name + "\"" + ": ") + shown)) + after
      == (first + "\"" + name + "\"" + "" + ":" + " ") + shown + after
  {
    assert "\"" + name + "\"" + ": " == "\"" + name + "\"" + "" + ":" + " ";
  }

  // What they mean.

  lemma BlankLines(depth: nat, indent: string)
    requires JsonBlank(indent)
    ensures JsonBlank(NewLine(depth, indent)) && JsonBlank("") && JsonBlank(" ")
  {
  }

  lemma NumbersMeanNumbers(token: string)
    requires IsNumber(token)
    ensures token !in {"null", "true", "false"}
  {
    NumbersAreTokens(token);
  }

  lemma {:induction false} LaidMeans(v: Value, depth: nat, indent: string)
    requires Lawful(v) && JsonBlank(indent)
    ensures Valid(LaidOf(v, depth, indent)) && Meaning(LaidOf(v, depth, indent)) == v
    decreases v
  {
    hide IsNumber;
    match v
    case Number(token) => NumbersMeanNumbers(token);
    case Text(s) => EscapedReads(s);
    case Array(items) => ItemsMean(items, depth, indent);
    case Object(members) => MembersMean(members, depth, indent);
    case _ =>
  }

  lemma {:induction false} ItemsMean(items: seq<Value>, depth: nat, indent: string)
    requires JsonBlank(indent) && forall i :: 0 <= i < |items| ==> Lawful(items[i])
    ensures MeaningOfItems(ItemsOf(items, depth, indent)) == items
    ensures forall i :: 0 <= i < |items| ==> ValidItem(ItemsOf(items, depth, indent)[i])
    decreases items
  {
    hide NewLine, Meaning, Valid, LaidOf, Lawful;
    if items != [] {
      LaidMeans(items[0], depth + 1, indent);
      ItemsMean(items[1..], depth, indent);
      BlankLines(depth, indent);
      BlankLines(depth + 1, indent);
      var laid := ItemsOf(items, depth, indent);
      assert laid[1..] == ItemsOf(items[1..], depth, indent);
    }
  }

  lemma {:induction false} MembersMean(members: Map, depth: nat, indent: string)
    requires JsonBlank(indent) && InKeyOrder(members) && forall i :: 0 <= i < |members| ==> LawfulEntry(members[i])
    ensures MeaningOfMembers(MembersOf(members, depth, indent)) == members
    ensures forall i :: 0 <= i < |members| ==> ValidMember(MembersOf(members, depth, indent)[i])
    decreases members, 1
  {
    hide NewLine, Meaning, Valid, LaidOf, Lawful, Put;
    var laid := MembersOf(members, depth, indent);
    forall i | 0 <= i < |members|
      ensures ValidMember(laid[i]) && MeaningOfMember(laid[i]) == members[i].value && Unescape(laid[i].key) == Some(members[i].key)
    {
      var after := MembersAt(members, depth, indent, i);
      MemberMeans(members[i], depth, indent, after);
    }
    InOrderMeans(laid, members);
  }

  lemma {:induction false} MembersAt(members: Map, depth: nat, indent: string, i: nat) returns (after: string)
    requires JsonBlank(indent) && i < |members|
    ensures JsonBlank(after) && MembersOf(members, depth, indent)[i] == MemberOf(members[i], depth, indent, after)
  {
    hide MemberOf, NewLine;
    BlankLines(depth, indent);
    if i == 0 {
      after := if |members| == 1 then NewLine(depth, indent) else "";
    } else {
      after := MembersAt(members[1..], depth, indent, i - 1);
      assert MembersOf(members, depth, indent)[1..] == MembersOf(members[1..], depth, indent);
      assert members[1..][i - 1] == members[i];
    }
  }

  lemma {:induction false} MemberMeans(e: Entry, depth: nat, indent: string, after: string)
    requires JsonBlank(indent) && JsonBlank(after) && LawfulEntry(e)
    ensures
      var m := MemberOf(e, depth, indent, after);
      ValidMember(m) && MeaningOfMember(m) == e.value && Unescape(m.key) == Some(e.key)
    decreases e, 0
  {
    EscapedReads(e.key);
    LaidMeans(e.value, depth + 1, indent);
    BlankLines(depth + 1, indent);
    hide NewLine, Meaning, Valid, LaidOf, Lawful, Unescape, RawString, Escape;
  }

  /** Members that come in key order are put in at the end. */
  lemma {:induction false} InOrderMeans(laid: seq<Member>, members: Map)
    requires |laid| == |members| && InKeyOrder(members)
    requires forall i :: 0 <= i < |members| ==>
      MeaningOfMember(laid[i]) == members[i].value && Unescape(laid[i].key) == Some(members[i].key)
    ensures MeaningOfMembers(laid) == members
  {
    hide Meaning, Put, Unescape;
    if laid != [] {
      var n := |laid| - 1;
      InOrderMeans(laid[..n], members[..n]);
      PutLast(members[..n], members[n].key, members[n].value);
      assert members == members[..n] + [members[n]];
    }
  }

  lemma {:induction false} PutLast(m: Map, key: string, v: Value)
    requires forall i :: 0 <= i < |m| ==> TEXT_ORDER(m[i].key, key) && m[i].key != key
    ensures Put(m, key, v) == m + [Entry(key, v)]
  {
    hide TEXT_ORDER;
    if m != [] {
      PutLast(m[1..], key, v);
    }
  }

  // Documents.

  lemma {:induction false} ReindentNothing(s: string)
    ensures Reindent(s, "") == s
  {
    if s != "" {
      ReindentNothing(s[1..]);
      assert s == [s[0]] + s[1..];
    }
  }

  /** A document written anew reads back as the document. */
  lemma RenderedReadsBack(document: Map)
    requires LawfulMap(document)
    ensures Parse(Render(document)) == Some(document)
  {
    var v := Object(document);
    assert Lawful(v);
    LaidMeans(v, 0, "");
    PrintedIsLaid(v, 0, "");
    ReindentNothing(Pretty(v, 0));
    var f := File("", MembersOf(document, 0, ""), "", "\n");
    hide Pretty, MembersOf, Show, Meaning, Valid, Lawful;
    ShowsAs(f, document);
    ReadingIsTheMeaning(f);
  }

  lemma ShowsAs(f: File, document: Map)
    requires f == File("", MembersOf(document, 0, ""), "", "\n")
    requires Show(LaidOf(Object(document), 0, "")) == Pretty(Object(document), 0)
    requires Valid(LaidOf(Object(document), 0, "")) && Meaning(LaidOf(Object(document), 0, "")) == Object(document)
    ensures ShowFile(f) == Render(document) && ValidFile(f) && MeaningOfMembers(f.members) == document
  {
    hide Pretty, MembersOf, Show;
    assert LaidOf(Object(document), 0, "") == Table(f.members, "");
    var shown := Show(Table(f.members, ""));
    assert "" + shown + "\n" == shown + "\n";
  }
}
