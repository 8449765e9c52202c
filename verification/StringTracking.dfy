/** When the scan of a settings file knows where its strings are. It means to follow escapes and
    does not: a quote ends a string for it whether or not a backslash stands before it. */
module StringTracking {
  import opened Wrappers
  import opened Text
  import opened Json
  import opened Scanner

  /** A file as a run of pieces: its strings, and what stands between them. */
  datatype Piece = Bare(text: string) | Str(raw: string)

  function PiecesOf(v: Laid): seq<Piece>
    decreases v
  {
    match v
    case Scalar(token) => [Bare(token)]
    case Quoted(raw) => [Str(raw)]
    case Listed(items, blank) => [Bare("[")] + PiecesOfItems(items) + [Bare(blank + "]")]
    case Table(members, blank) => [Bare("{")] + PiecesOfMembers(members) + [Bare(blank + "}")]
  }

  function PiecesOfItems(items: seq<Item>): seq<Piece>
    decreases items
  {
    if items == [] then []
    else if |items| == 1 then PiecesOfItem(items[0])
    else PiecesOfItem(items[0]) + ([Bare(",")] + PiecesOfItems(items[1..]))
  }

  function PiecesOfItem(item: Item): seq<Piece>
    decreases item
  {
    [Bare(item.before)] + PiecesOf(item.value) + [Bare(item.after)]
  }

  function PiecesOfMembers(members: seq<Member>): seq<Piece>
    decreases members
  {
    if members == [] then []
    else if |members| == 1 then PiecesOfMember(members[0])
    else PiecesOfMember(members[0]) + ([Bare(",")] + PiecesOfMembers(members[1..]))
  }

  function PiecesOfMember(m: Member): seq<Piece>
    decreases m
  {
    [Bare(m.before), Str(m.key), Bare(m.afterKey + ":" + m.beforeValue)] + PiecesOf(m.value) + [Bare(m.after)]
  }

  function PiecesOfFile(f: File): seq<Piece> {
    [Bare(f.lead)] + PiecesOf(Table(f.members, f.blank)) + [Bare(f.trail)]
  }

  function Spell(pieces: seq<Piece>): string {
    if pieces == [] then "" else SpellOne(pieces[0]) + Spell(pieces[1..])
  }

  function SpellOne(p: Piece): string {
    match p case Bare(s) => s case Str(raw) => QuotedKey(raw)
  }

  lemma {:induction false} SpellBoth(a: seq<Piece>, b: seq<Piece>)
    ensures Spell(a + b) == Spell(a) + Spell(b)
  {
    if a == [] {
      assert a + b == b;
    } else {
      assert (a + b)[1..] == a[1..] + b;
      SpellBoth(a[1..], b);
    }
  }

  lemma SpellAround(a: Piece, mid: seq<Piece>, b: Piece)
    ensures Spell([a] + mid + [b]) == SpellOne(a) + Spell(mid) + SpellOne(b)
  {
    SpellBoth([a] + mid, [b]);
    SpellBoth([a], mid);
    assert [a][1..] == [] && [b][1..] == [];
  }

  lemma {:induction false} PiecesSpellValue(v: Laid)
    ensures Spell(PiecesOf(v)) == Show(v)
    decreases v
  {
    hide Spell;
    match v
    case Scalar(token) => SpellSingle(Bare(token));
    case Quoted(raw) => SpellSingle(Str(raw));
    case Listed(items, blank) =>
      PiecesSpellItems(items);
      SpellAround(Bare("["), PiecesOfItems(items), Bare(blank + "]"));
    case Table(members, blank) =>
      PiecesSpellMembers(members);
      SpellAround(Bare("{"), PiecesOfMembers(members), Bare(blank + "}"));
  }

  lemma SpellSingle(p: Piece)
    ensures Spell([p]) == SpellOne(p) && Spell([]) == ""
  {
    assert [p][1..] == [];
  }

  lemma {:induction false} PiecesSpellItems(items: seq<Item>)
    ensures Spell(PiecesOfItems(items)) == ShowItems(items)
    decreases items
  {
    hide Spell, ShowItem, PiecesOfItem;
    SpellSingle(Bare(","));
    if items != [] {
      PiecesSpellItem(items[0]);
      if |items| > 1 {
        PiecesSpellItems(items[1..]);
        SpellBoth(PiecesOfItem(items[0]), [Bare(",")] + PiecesOfItems(items[1..]));
        SpellBoth([Bare(",")], PiecesOfItems(items[1..]));
        ShowItemsSplit(items);
      }
    }
  }

  lemma {:induction false} PiecesSpellItem(item: Item)
    ensures Spell(PiecesOfItem(item)) == ShowItem(item)
    decreases item
  {
    PiecesSpellValue(item.value);
    SpellAround(Bare(item.before), PiecesOf(item.value), Bare(item.after));
  }

  lemma {:induction false} PiecesSpellMembers(members: seq<Member>)
    ensures Spell(PiecesOfMembers(members)) == ShowMembers(members)
    decreases members
  {
    hide Spell, ShowMember, PiecesOfMember;
    SpellSingle(Bare(","));
    if members != [] {
      PiecesSpellMember(members[0]);
      if |members| > 1 {
        PiecesSpellMembers(members[1..]);
        SpellBoth(PiecesOfMember(members[0]), [Bare(",")] + PiecesOfMembers(members[1..]));
        SpellBoth([Bare(",")], PiecesOfMembers(members[1..]));
        ShowMembersSplit(members);
      }
    }
  }

  lemma {:induction false} PiecesSpellMember(m: Member)
    ensures Spell(PiecesOfMember(m)) == ShowMember(m)
    decreases m
  {
    hide Spell, Show, PiecesOf;
    PiecesSpellValue(m.value);
    var name, colon := Str(m.key), Bare(m.afterKey + ":" + m.beforeValue);
    var value := PiecesOf(m.value);
    assert PiecesOfMember(m) == [Bare(m.before), name, colon] + (value + [Bare(m.after)]);
    SpellBoth([Bare(m.before), name, colon], value + [Bare(m.after)]);
    SpellBoth(value, [Bare(m.after)]);
    SpellSingle(Bare(m.after));
    assert [Bare(m.before), name, colon] == [Bare(m.before)] + [name] + [colon];
    SpellAround(Bare(m.before), [name], colon);
    SpellSingle(name);
  }

  /** The pieces of a file spell the file. */
  lemma PiecesSpellFile(f: File)
    ensures Spell(PiecesOfFile(f)) == ShowFile(f)
  {
    PiecesSpellValue(Table(f.members, f.blank));
    SpellAround(Bare(f.lead), PiecesOf(Table(f.members, f.blank)), Bare(f.trail));
  }

  // Where the strings are, and where the scan takes them to be.

  function All(n: nat, b: bool): seq<bool> {
    seq(n, _ => b)
  }

  /** For every character, whether a string is open after it. */
  function Open(pieces: seq<Piece>): seq<bool> {
    if pieces == [] then [] else OpenOne(pieces[0]) + Open(pieces[1..])
  }

  function OpenOne(p: Piece): seq<bool> {
    match p case Bare(s) => All(|s|, false) case Str(raw) => All(|raw| + 1, true) + [false]
  }

  /** For every character, whether the scan takes a string to be open after it. */
  function Scanned(text: string, st: State): seq<bool> {
    if text == "" then [] else
      var next := InString(st, text[0]).0;
      [next.quoted] + Scanned(text[1..], next)
  }

  /** The memory of a backslash has no effect: a quote always turns the scan over. */
  lemma QuoteAlwaysToggles(st: State, c: char)
    ensures InString(st, c).0.quoted == (st.quoted != (c == '"'))
  {
  }

  lemma {:induction false} ScannedBoth(a: string, b: string, st: State)
    ensures |Scanned(a, st)| == |a|
    ensures Scanned(a + b, st) == Scanned(a, st) + Scanned(b, After(a, st))
  {
    if a == "" {
      assert a + b == b;
    } else {
      assert (a + b)[1..] == a[1..] + b;
      ScannedBoth(a[1..], b, InString(st, a[0]).0);
    }
  }

  function After(a: string, st: State): State {
    if a == "" then st else After(a[1..], InString(st, a[0]).0)
  }

  lemma {:induction false} UnquotedKeeps(s: string, st: State)
    requires '"' !in s
    ensures After(s, st).quoted == st.quoted && Scanned(s, st) == All(|s|, st.quoted)
  {
    if s != "" {
      assert s[0] in s;
      assert forall c :: c in s[1..] ==> c in s;
      QuoteAlwaysToggles(st, s[0]);
      UnquotedKeeps(s[1..], InString(st, s[0]).0);
      assert All(|s|, st.quoted) == [st.quoted] + All(|s[1..]|, st.quoted);
    }
  }

  /** One string: the scan follows it exactly when no quote is spelled inside it. */
  lemma StringFollowed(raw: string, st: State)
    requires !st.quoted
    ensures '"' !in raw ==> Scanned(QuotedKey(raw), st) == OpenOne(Str(raw)) && !After(QuotedKey(raw), st).quoted
    ensures Scanned(QuotedKey(raw), st) == OpenOne(Str(raw)) ==> '"' !in raw
  {
    var inside := InString(st, '"').0;
    var whole := QuotedKey(raw);
    assert whole[1..] == raw + "\"";
    ScannedBoth(raw, "\"", inside);
    AfterBoth(raw, "\"", inside);
    var end := After(raw, inside);
    assert Scanned(whole, st) == [true] + (Scanned(raw, inside) + Scanned("\"", end));
    if '"' !in raw {
      UnquotedKeeps(raw, inside);
      QuoteAlwaysToggles(end, '"');
      assert "\""[1..] == "";
      assert OpenOne(Str(raw)) == [true] + (All(|raw|, true) + [false]);
    }
    if Scanned(whole, st) == OpenOne(Str(raw)) {
      assert forall k :: 0 <= k < |raw| ==> Scanned(raw, inside)[k] == Scanned(whole, st)[k + 1] == OpenOne(Str(raw))[k + 1];
      AlwaysOpenHasNoQuote(raw, inside);
    }
  }

  lemma {:induction false} AfterBoth(a: string, b: string, st: State)
    ensures After(a + b, st) == After(b, After(a, st))
  {
    if a == "" {
      assert a + b == b;
    } else {
      assert (a + b)[1..] == a[1..] + b;
      AfterBoth(a[1..], b, InString(st, a[0]).0);
    }
  }

  lemma {:induction false} AlwaysOpenHasNoQuote(s: string, st: State)
    requires st.quoted && |Scanned(s, st)| == |s| && forall k :: 0 <= k < |s| ==> Scanned(s, st)[k]
    ensures '"' !in s
  {
    if s != "" {
      QuoteAlwaysToggles(st, s[0]);
      assert Scanned(s, st)[0];
      assert forall k :: 0 <= k < |s[1..]| ==> Scanned(s[1..], InString(st, s[0]).0)[k] == Scanned(s, st)[k + 1];
      AlwaysOpenHasNoQuote(s[1..], InString(st, s[0]).0);
      assert s == [s[0]] + s[1..];
    }
  }

  ghost predicate NoBareQuotes(pieces: seq<Piece>) {
    forall p :: p in pieces && p.Bare? ==> '"' !in p.text
  }

  ghost predicate PlainStrings(pieces: seq<Piece>) {
    forall p :: p in pieces && p.Str? ==> '"' !in p.raw
  }

  lemma {:induction false} PiecesFollowed(pieces: seq<Piece>, st: State)
    requires NoBareQuotes(pieces) && !st.quoted
    ensures Scanned(Spell(pieces), st) == Open(pieces) <==> PlainStrings(pieces)
  {
    if pieces != [] {
      var p, rest := pieces[0], pieces[1..];
      assert pieces == [p] + rest && p in pieces;
      assert NoBareQuotes(rest);
      ScannedBoth(SpellOne(p), Spell(rest), st);
      assert |OpenOne(p)| == |SpellOne(p)|;
      var next := After(SpellOne(p), st);
      match p
      case Bare(s) =>
        UnquotedKeeps(s, st);
        PiecesFollowed(rest, next);
        EqualParts(Scanned(s, st), Scanned(Spell(rest), next), OpenOne(p), Open(rest));
      case Str(raw) =>
        StringFollowed(raw, st);
        EqualParts(Scanned(QuotedKey(raw), st), Scanned(Spell(rest), next), OpenOne(p), Open(rest));
        if '"' !in raw {
          PiecesFollowed(rest, next);
        }
    }
  }

  lemma EqualParts<T>(a: seq<T>, b: seq<T>, c: seq<T>, d: seq<T>)
    requires |a| == |c|
    ensures a + b == c + d <==> a == c && b == d
  {
    if a + b == c + d {
      assert a == (a + b)[..|a|] == (c + d)[..|a|] == c;
      assert b == (a + b)[|a|..] == (c + d)[|a|..] == d;
    }
  }

  lemma {:induction false} ValueHasNoBareQuotes(v: Laid)
    requires Valid(v)
    ensures NoBareQuotes(PiecesOf(v))
    decreases v
  {
    match v
    case Scalar(token) =>
      if token !in {"true", "false", "null"} {
        NumbersArePlain(token);
      }
      assert forall k :: 0 <= k < |token| ==> token[k] != '"';
    case Quoted(raw) =>
    case Listed(items, blank) =>
      ItemsHaveNoBareQuotes(items);
    case Table(members, blank) =>
      MembersHaveNoBareQuotes(members);
  }

  lemma {:induction false} ItemsHaveNoBareQuotes(items: seq<Item>)
    requires forall i :: 0 <= i < |items| ==> ValidItem(items[i])
    ensures NoBareQuotes(PiecesOfItems(items))
    decreases items
  {
    if items != [] {
      ValueHasNoBareQuotes(items[0].value);
      ItemsHaveNoBareQuotes(items[1..]);
    }
  }

  lemma {:induction false} MembersHaveNoBareQuotes(members: seq<Member>)
    requires forall i :: 0 <= i < |members| ==> ValidMember(members[i])
    ensures NoBareQuotes(PiecesOfMembers(members))
    decreases members
  {
    if members != [] {
      ValueHasNoBareQuotes(members[0].value);
      MembersHaveNoBareQuotes(members[1..]);
    }
  }

  /** The scan knows at every character whether it is inside a string if and only if no
      string of the file, names included, is spelled with a quote in it. */
  lemma ScanFollowsStringsExactly(f: File)
    requires ValidFile(f)
    ensures Scanned(ShowFile(f), START) == Open(PiecesOfFile(f)) <==> PlainStrings(PiecesOfFile(f))
  {
    ValueHasNoBareQuotes(Table(f.members, f.blank));
    PiecesSpellFile(f);
    PiecesFollowed(PiecesOfFile(f), START);
  }

  lemma {:induction false} UnclosedFindsNothing(text: string, key: string, i: nat, st: State)
    requires i <= |text| && st.quoted && '"' !in text[i..]
    ensures OpeningFrom(text, key, i, st) == None
    decreases |text| - i
  {
    if i < |text| {
      assert text[i..] == [text[i]] + text[i + 1..];
      assert text[i] in text[i..];
      UnclosedFindsNothing(text, key, i + 1, InString(st, text[i]).0);
    }
  }

  lemma WitnessStart(text: string, tail: string)
    requires text == ['{'] + (QuotedKey("a") + (":" + tail))
    ensures OccursAt(text, tail, 5) && Same(text, "hooks", 0, START, 5, TOP)
  {
    hide OpeningFrom, OccursAt, TrimEnd, Harmless;
    var key := "hooks";
    StandsWhole(text);
    EnterBracket(text, key, 0, START, '{', QuotedKey("a") + (":" + tail));
    StandsSplit(text, 1, QuotedKey("a"), ":" + tail);
    PlainA();
    SkipQuoted(text, key, 1, TOP, "a");
    StandsHead(text, 4, ":" + tail);
    assert (":" + tail)[1..] == tail;
    assert text[..4] == ['{', '"', 'a', '"'];
    ShortName();
    OneStep(text, key, 4, TOP, TOP);
    SameTwice(text, key, 0, START, 1, TOP, 4, TOP);
    SameTwice(text, key, 0, START, 4, TOP, 5, TOP);
  }

  /** The scan of `{"a":"\"","hooks":{}}`: it takes the name `hooks` for bare text between
      two strings, and the second of them never closes. */
  lemma ScanOfTheWitness(text: string, joined: string, hooks: string, rest: string)
    requires text == ['{'] + (QuotedKey("a") + (":" + (QuotedKey(joined) + (hooks + ("\"" + rest)))))
    requires hooks == "hooks" && Harmless(joined, true) && '"' !in rest
    ensures Opening(text, "hooks") == None
  {
    hide OpeningFrom, OccursAt, TrimEnd, Harmless;
    var key := "hooks";
    WitnessStart(text, QuotedKey(joined) + (hooks + ("\"" + rest)));
    var j := 5 + |joined| + 2;
    StandsSplit(text, 5, QuotedKey(joined), hooks + ("\"" + rest));
    SkipQuoted(text, key, 5, TOP, joined);
    StandsSplit(text, j, hooks, "\"" + rest);
    SkipPlain(text, key, j, TOP, hooks);
    StandsHead(text, j + 5, "\"" + rest);
    OneStep(text, key, j + 5, TOP, TOP.(quoted := true));
    assert text[j + 6..] == rest;
    UnclosedFindsNothing(text, key, j + 6, TOP.(quoted := true));
    SameTwice(text, key, 0, START, 5, TOP, j, TOP);
    SameTwice(text, key, 0, START, j, TOP, j + 5, TOP);
    SameTwice(text, key, 0, START, j + 5, TOP, j + 6, TOP.(quoted := true));
    SameAnswer(text, key, 0, START, j + 6, TOP.(quoted := true));
  }

  lemma PlainA()
    ensures Harmless("a", true)
  {
    PlainStringIsHarmless("a");
  }

  lemma ShortName()
    ensures !EndsWith(TrimEnd(['{', '"', 'a', '"']), QuotedKey("hooks"))
  {
    TrimEndDropsBlank(['{', '"', 'a', '"'], "");
    assert ['{', '"', 'a', '"'] + "" == ['{', '"', 'a', '"'];
  }

  /** What goes wrong: with an escaped quote in the value before it, an object that is
      there is not found. */
  lemma EscapedQuoteHidesTheKey(text: string)
    requires text == "{\"a\":\"\\\"\",\"hooks\":{}}"
    ensures exists f :: ValidFile(f) && ShowFile(f) == text && FirstNamedTable(f.members, "hooks").Some?
    ensures Opening(text, "hooks").None?
  {
    var raw := "\\\"";
    var first := Member("", "a", "", "", Quoted(raw), "");
    var second := Member("", "hooks", "", "", Table([], ""), "");
    var f := File("", [first, second], "", "");
    var joined := "\\\"\",";
    assert Harmless(joined, true) by {
      assert joined[1..][1..][1..][1..] == "";
    }
    WitnessText(first, second, joined);
    ScanOfTheWitness(ShowFile(f), joined, "hooks", ":{}}");
    WitnessIsValid(first, second);
    assert FirstNamedTable(f.members, "hooks").Some? by {
      assert f.members[1..] == [second];
    }
    WitnessLiteral(text, joined);
  }

  lemma WitnessLiteral(text: string, joined: string)
    requires text == "{\"a\":\"\\\"\",\"hooks\":{}}" && joined == "\\\"\","
    ensures text == ['{'] + (QuotedKey("a") + (":" + (QuotedKey(joined) + ("hooks" + ("\"" + ":{}}")))))
  {
    assert QuotedKey("a") == "\"a\"" && QuotedKey(joined) == "\"\\\"\",\"";
  }

  /** A member written with no whitespace. */
  lemma Tight(key: string, v: Laid)
    ensures ShowMember(Member("", key, "", "", v, "")) == QuotedKey(key) + ":" + Show(v)
  {
    hide Show;
    var m := Member("", key, "", "", v, "");
    assert ShowKey(m) == QuotedKey(key) + ":";
    assert ShowMember(m) == ShowKey(m) + Show(v) + "";
  }

  lemma WitnessText(first: Member, second: Member, joined: string)
    requires first == Member("", "a", "", "", Quoted("\\\""), "") && second == Member("", "hooks", "", "", Table([], ""), "")
    requires joined == "\\\"\","
    ensures ShowFile(File("", [first, second], "", ""))
      == ['{'] + (QuotedKey("a") + (":" + (QuotedKey(joined) + ("hooks" + ("\"" + ":{}}")))))
  {
    Tight("a", first.value);
    Tight("hooks", second.value);
    var x, y := ShowMember(first), ShowMember(second);
    ShowTwo(first, second);
    assert y == "\"hooks\":{}";
    assert x == QuotedKey("a") + ":" + QuotedKey("\\\"");
    assert QuotedKey(joined) == QuotedKey("\\\"") + ",\"";
    Regroup(QuotedKey("a"), QuotedKey("\\\""));
  }

  lemma ShowTwo(first: Member, second: Member)
    ensures ShowFile(File("", [first, second], "", "")) == "{" + (ShowMember(first) + "," + ShowMember(second)) + "}"
  {
    hide ShowMember;
    assert [first, second][1..] == [second];
    assert ShowMembers([second]) == ShowMember(second);
    var inner := ShowMember(first) + "," + ShowMember(second);
    assert Show(Table([first, second], "")) == "{" + inner + "" + "}";
  }

  lemma Regroup(a: string, r: string)
    ensures "{" + ((a + ":" + r) + "," + "\"hooks\":{}") + "}"
      == ['{'] + (a + (":" + ((r + ",\"") + ("hooks" + ("\"" + ":{}}")))))
  {
    assert "," + "\"hooks\":{}" + "}" == ",\"" + ("hooks" + ("\"" + ":{}}"));
  }

  lemma {:induction false} WithoutEscapes(raw: string)
    requires '\\' !in raw && '"' !in raw && forall c :: c in raw ==> c >= ' '
    ensures Unescape(raw) == Some(raw) && RawString(raw)
  {
    if raw != "" {
      assert raw[0] in raw && forall c :: c in raw[1..] ==> c in raw;
      WithoutEscapes(raw[1..]);
      assert [raw[0]] + raw[1..] == raw;
    }
  }

  lemma WitnessIsValid(first: Member, second: Member)
    requires first == Member("", "a", "", "", Quoted("\\\""), "") && second == Member("", "hooks", "", "", Table([], ""), "")
    ensures ValidFile(File("", [first, second], "", ""))
  {
    var raw := "\\\"";
    assert raw[2..] == "";
    WithoutEscapes("");
    WithoutEscapes("a");
    WithoutEscapes("hooks");
    assert raw[1] == '"' && Unescape(raw) == Before("\"", Unescape(raw[2..]));
    assert Valid(first.value) && ValidMember(first) && ValidMember(second);
  }
}
