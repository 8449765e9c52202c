/** Finding the brace that opens a top-level object of a JSON file without reading the
    file: a scan that knows only whether it is inside a string and how deep it is. */
module Scanner {
  import opened Wrappers
  import opened Text
  import opened Json

  /** Where a scan of the text is. */
  datatype State = State(depth: int, quoted: bool, escaped: bool, wanted: bool)

  const START := State(0, false, false, false)

  /** The state after a character, and whether that character is inside a string. */
  function InString(st: State, c: char): (State, bool) {
    if st.quoted then
      var escaped := !st.escaped && c == '\\';
      (st.(escaped := escaped, quoted := escaped || c != '"'), true)
    else if c == '"' then (st.(quoted := true, escaped := false), true)
    else (st, false)
  }

  function QuotedKey(key: string): string {
    "\"" + key + "\""
  }

  /** One character of structure, standing after `before`; `None` is the brace looked for. */
  function Structure(st: State, before: string, c: char, key: string): Option<State> {
    if c == '{' && st.wanted && st.depth == 1 then None
    else if c == '{' || c == '[' then Some(st.(depth := st.depth + 1))
    else if c == '}' || c == ']' then Some(st.(depth := st.depth - 1))
    else if c == ',' then Some(st.(wanted := false))
    else if c == ':' && st.depth == 1 then Some(st.(wanted := EndsWith(TrimEnd(before), QuotedKey(key))))
    else Some(st)
  }

  function Next(st: State, before: string, c: char, key: string): Option<State> {
    var (after, inside) := InString(st, c);
    if inside then Some(after) else Structure(after, before, c, key)
  }

  function OpeningFrom(text: string, key: string, i: nat, st: State): (at: Option<nat>)
    requires i <= |text|
    ensures at.Some? ==> at.value <= |text|
    decreases |text| - i
  {
    if i == |text| then None else
      match Next(st, text[..i], text[i], key)
      case None => Some(i + 1)
      case Some(next) => OpeningFrom(text, key, i + 1, next)
  }

  /** The offset just after the brace that opens the top-level `key` object. */
  function Opening(text: string, key: string): (at: Option<nat>)
    ensures at.Some? ==> at.value <= |text|
  {
    OpeningFrom(text, key, 0, START)
  }

  /** The scan itself. */
  class Scan {
    var depth: int
    var quoted: bool
    var escaped: bool

    constructor ()
      ensures depth == 0 && !quoted && !escaped
    {
      depth, quoted, escaped := 0, false, false;
    }

    ghost function At(wanted: bool): State
      reads this
    {
      State(depth, quoted, escaped, wanted)
    }

    /** Take one character, and say whether it is inside a string and so not structure. */
    method TakeCharacter(c: char, ghost wanted: bool) returns (inside: bool)
      modifies this
      ensures (At(wanted), inside) == InString(old(At(wanted)), c)
    {
      if quoted {
        escaped := !escaped && c == '\\';
        quoted := escaped || c != '"';
        return true;
      }
      if c == '"' {
        quoted := true;
        escaped := false;
        return true;
      }
      return false;
    }
  }

  method FindOpening(text: string, key: string) returns (at: Option<nat>)
    ensures at == Opening(text, key)
  {
    var scan := new Scan();
    var wanted := false;
    for i := 0 to |text|
      invariant fresh(scan)
      invariant Opening(text, key) == OpeningFrom(text, key, i, scan.At(wanted))
    {
      var c := text[i];
      var inside := scan.TakeCharacter(c, wanted);
      if inside {
        continue;
      }
      if c == '{' && wanted && scan.depth == 1 {
        return Some(i + 1);
      } else if c == '{' || c == '[' {
        scan.depth := scan.depth + 1;
      } else if c == '}' || c == ']' {
        scan.depth := scan.depth - 1;
      } else if c == ',' {
        wanted := false;
      } else if c == ':' && scan.depth == 1 {
        wanted := EndsWith(TrimEnd(text[..i]), QuotedKey(key));
      }
    }
    return None;
  }

  // What the scan finds.

  lemma StandsSplit(text: string, i: nat, a: string, b: string)
    requires OccursAt(text, a + b, i)
    ensures OccursAt(text, a, i) && OccursAt(text, b, i + |a|)
  {
    assert text[i..i + |a|] == (a + b)[..|a|];
    assert text[i + |a|..i + |a| + |b|] == (a + b)[|a|..];
  }

  lemma StandsHead(text: string, i: nat, part: string)
    requires OccursAt(text, part, i) && part != ""
    ensures i < |text| && text[i] == part[0] && OccursAt(text, part[1..], i + 1)
  {
    assert part == [part[0]] + part[1..];
    StandsSplit(text, i, [part[0]], part[1..]);
    assert text[i] == text[i..i + 1][0];
  }

  lemma StandsWithin(text: string, i: nat, part: string)
    requires OccursAt(text, part, i)
    ensures i + |part| <= |text|
  {
  }

  /** Between tokens: inside no string. */
  predicate Outside(st: State) {
    !st.quoted && !st.escaped
  }

  /** Two places of a scan answer alike. */
  ghost predicate Same(text: string, key: string, i: nat, st: State, j: nat, st': State) {
    && i <= j <= |text|
    && OpeningFrom(text, key, i, st) == OpeningFrom(text, key, j, st')
  }

  lemma SameTwice(text: string, key: string, i: nat, st: State, j: nat, st': State, k: nat, st'': State)
    requires Same(text, key, i, st, j, st') && Same(text, key, j, st', k, st'')
    ensures Same(text, key, i, st, k, st'')
  {
    hide OpeningFrom;
  }

  lemma OneStep(text: string, key: string, i: nat, st: State, next: State)
    requires i < |text| && Next(st, text[..i], text[i], key) == Some(next)
    ensures Same(text, key, i, st, i + 1, next)
  {
  }

  lemma {:induction false} SkipBlank(text: string, key: string, i: nat, st: State, blank: string)
    requires OccursAt(text, blank, i) && JsonBlank(blank) && !st.quoted
    ensures Same(text, key, i, st, i + |blank|, st)
    decreases |blank|
  {
    if blank != "" {
      StandsHead(text, i, blank);
      SkipBlank(text, key, i + 1, st, blank[1..]);
    }
  }

  /** A character that is no structure, so that it makes no difference whether the scan
      takes it for part of a string. */
  predicate Plain(c: char) {
    c !in "\"{}[],:"
  }

  /** What is left of a string, read by the scan. Every quote ends or starts a string for
      the scan, an escaped one too: the backslash before it is remembered and then has no
      effect. So what stands between two escaped quotes is read as structure, and a string
      does no harm when they come in pairs and what they expose is plain. */
  predicate Harmless(raw: string, quoted: bool) {
    if raw == "" then quoted
    else if raw[0] == '"' then Harmless(raw[1..], !quoted)
    else (quoted || Plain(raw[0])) && Harmless(raw[1..], quoted)
  }

  lemma {:induction false} PlainStringIsHarmless(raw: string)
    requires '"' !in raw
    ensures Harmless(raw, true)
  {
    if raw != "" {
      assert raw[0] in raw;
      assert forall c :: c in raw[1..] ==> c in raw;
      PlainStringIsHarmless(raw[1..]);
    }
  }

  /** The inside of a string, from any place of it. */
  lemma {:induction false} SkipRaw(text: string, key: string, i: nat, st: State, raw: string)
    requires OccursAt(text, raw + "\"", i) && Harmless(raw, st.quoted) && (!st.quoted ==> !st.escaped)
    ensures Same(text, key, i, st, i + |raw| + 1, st.(quoted := false, escaped := false))
    decreases |raw|
  {
    hide OpeningFrom, OccursAt, TrimEnd;
    StandsHead(text, i, raw + "\"");
    var end := st.(quoted := false, escaped := false);
    if raw == "" {
      OneStep(text, key, i, st, end);
    } else {
      assert (raw + "\"")[1..] == raw[1..] + "\"";
      var next := Next(st, text[..i], raw[0], key).value;
      OneStep(text, key, i, st, next);
      SkipRaw(text, key, i + 1, next, raw[1..]);
      SameTwice(text, key, i, st, i + 1, next, i + |raw| + 1, end);
    }
  }

  lemma SkipQuoted(text: string, key: string, i: nat, st: State, raw: string)
    requires OccursAt(text, QuotedKey(raw), i) && Harmless(raw, true) && Outside(st)
    ensures Same(text, key, i, st, i + |raw| + 2, st)
  {
    hide OpeningFrom, OccursAt;
    assert QuotedKey(raw)[1..] == raw + "\"";
    StandsHead(text, i, QuotedKey(raw));
    OneStep(text, key, i, st, st.(quoted := true));
    SkipRaw(text, key, i + 1, st.(quoted := true), raw);
    SameTwice(text, key, i, st, i + 1, st.(quoted := true), i + |raw| + 2, st);
  }

  /** Every string of a layout, names included, does the scan no harm. */
  predicate Tame(v: Laid)
    decreases v
  {
    match v
    case Scalar(_) => true
    case Quoted(raw) => Harmless(raw, true)
    case Listed(items, _) => forall k :: 0 <= k < |items| ==> TameItem(items[k])
    case Table(members, _) => forall k :: 0 <= k < |members| ==> TameMember(members[k])
  }

  predicate TameItem(item: Item)
    decreases item
  {
    Tame(item.value)
  }

  predicate TameMember(m: Member)
    decreases m
  {
    Harmless(m.key, true) && Tame(m.value)
  }

  lemma {:induction false} SkipPlain(text: string, key: string, i: nat, st: State, token: string)
    requires OccursAt(text, token, i) && !st.quoted
    requires forall k :: 0 <= k < |token| ==> Plain(token[k])
    ensures Same(text, key, i, st, i + |token|, st)
    decreases |token|
  {
    if token != "" {
      StandsHead(text, i, token);
      assert forall k :: 0 <= k < |token[1..]| ==> token[1..][k] == token[k + 1];
      SkipPlain(text, key, i + 1, st, token[1..]);
    }
  }

  lemma NumbersArePlain(token: string)
    requires IsNumber(token)
    ensures forall k :: 0 <= k < |token| ==> Plain(token[k])
  {
    var sign, whole, fraction, exponent :|
      && token == sign + whole + fraction + exponent
      && sign in {"", "-"}
      && Digits(whole) && (|whole| > 1 ==> whole[0] != '0')
      && (fraction == "" || (fraction[0] == '.' && Digits(fraction[1..])))
      && IsExponent(exponent);
    DigitsArePlain(whole);
    FractionIsPlain(fraction);
    ExponentIsPlain(exponent);
    hide IsExponent, Digits;
  }

  lemma DigitsArePlain(s: string)
    requires Digits(s)
    ensures forall k :: 0 <= k < |s| ==> Plain(s[k])
  {
  }

  lemma FractionIsPlain(s: string)
    requires s == "" || (s[0] == '.' && Digits(s[1..]))
    ensures forall k :: 0 <= k < |s| ==> Plain(s[k])
  {
    if s != "" {
      DigitsArePlain(s[1..]);
      assert s == [s[0]] + s[1..];
    }
  }

  lemma ExponentIsPlain(s: string)
    requires IsExponent(s)
    ensures forall k :: 0 <= k < |s| ==> Plain(s[k])
  {
    if s != "" {
      assert s == [s[0]] + s[1..];
      if Digits(s[1..]) {
        DigitsArePlain(s[1..]);
      } else {
        DigitsArePlain(s[2..]);
        assert s[1..] == [s[1]] + s[2..];
      }
    }
  }

  /** A scan that is past a value is where it was before it, except that it may no longer
      be waiting for a brace. */
  ghost predicate Past(text: string, key: string, i: nat, st: State, j: nat, st': State) {
    && Same(text, key, i, st, j, st')
    && Outside(st') && st'.depth == st.depth && (st'.wanted ==> st.wanted)
  }

  lemma PassComma(text: string, key: string, i: nat, st: State, rest: string)
    requires OccursAt(text, "," + rest, i) && Outside(st)
    ensures OccursAt(text, rest, i + 1) && Same(text, key, i, st, i + 1, st.(wanted := false))
  {
    hide OpeningFrom, OccursAt;
    StandsHead(text, i, "," + rest);
    assert ("," + rest)[1..] == rest;
    OneStep(text, key, i, st, st.(wanted := false));
  }

  lemma EnterBracket(text: string, key: string, i: nat, st: State, open: char, rest: string)
    requires OccursAt(text, [open] + rest, i) && open in "{[" && Outside(st)
    requires !(open == '{' && st.wanted && st.depth == 1)
    ensures OccursAt(text, rest, i + 1) && Same(text, key, i, st, i + 1, st.(depth := st.depth + 1))
  {
    hide OpeningFrom, OccursAt;
    StandsHead(text, i, [open] + rest);
    assert ([open] + rest)[1..] == rest;
    OneStep(text, key, i, st, st.(depth := st.depth + 1));
  }

  /** The brace waited for. */
  lemma FindBrace(text: string, key: string, i: nat, st: State, rest: string)
    requires OccursAt(text, "{" + rest, i) && Outside(st) && st.wanted && st.depth == 1
    ensures i < |text| && OpeningFrom(text, key, i, st) == Some(i + 1)
  {
    StandsHead(text, i, "{" + rest);
  }

  lemma LeaveBracket(text: string, key: string, i: nat, st: State, blank: string, close: char, rest: string)
    requires OccursAt(text, blank + ([close] + rest), i) && close in "}]" && Outside(st) && JsonBlank(blank)
    ensures OccursAt(text, rest, i + |blank| + 1)
    ensures Same(text, key, i, st, i + |blank| + 1, st.(depth := st.depth - 1))
  {
    hide OpeningFrom, OccursAt;
    StandsSplit(text, i, blank, [close] + rest);
    SkipBlank(text, key, i, st, blank);
    var k := i + |blank|;
    StandsHead(text, k, [close] + rest);
    assert ([close] + rest)[1..] == rest;
    OneStep(text, key, k, st, st.(depth := st.depth - 1));
    SameTwice(text, key, i, st, k, st, k + 1, st.(depth := st.depth - 1));
  }

  lemma ShowListed(items: seq<Item>, blank: string)
    ensures Show(Listed(items, blank)) == ['['] + (ShowItems(items) + (blank + ([']'] + "")))
  {
    hide ShowItems;
    assert blank + ([']'] + "") == blank + "]";
    assert ShowItems(items) + (blank + "]") == ShowItems(items) + blank + "]";
  }

  lemma ShowTable(members: seq<Member>, blank: string)
    ensures Show(Table(members, blank)) == ['{'] + (ShowMembers(members) + (blank + (['}'] + "")))
  {
    hide ShowMembers;
    assert blank + (['}'] + "") == blank + "}";
    assert ShowMembers(members) + (blank + "}") == ShowMembers(members) + blank + "}";
  }

  /** Nothing inside a value is found, unless the value itself is the object waited for. */
  lemma {:induction false} SkipValue(text: string, key: string, i: nat, st: State, v: Laid) returns (st': State)
    requires OccursAt(text, Show(v), i) && Valid(v) && Tame(v) && Outside(st) && st.depth >= 1
    requires !(v.Table? && st.wanted && st.depth == 1)
    ensures Past(text, key, i, st, i + |Show(v)|, st')
    decreases v
  {
    hide OpeningFrom, OccursAt, Unescape, IsNumber, RawString, Harmless, ShowItems, ShowMembers;
    match v
    case Scalar(token) =>
      if token !in {"true", "false", "null"} { NumbersArePlain(token); }
      SkipPlain(text, key, i, st, token);
      st' := st;
    case Quoted(raw) =>
      SkipQuoted(text, key, i, st, raw);
      st' := st;
    case Listed(items, blank) =>
      ShowListed(items, blank);
      var deeper := st.(depth := st.depth + 1);
      var j := i + 1 + |ShowItems(items)|;
      EnterBracket(text, key, i, st, '[', ShowItems(items) + (blank + ([']'] + "")));
      StandsSplit(text, i + 1, ShowItems(items), blank + ([']'] + ""));
      var deep := SkipItems(text, key, i + 1, deeper, items);
      LeaveBracket(text, key, j, deep, blank, ']', "");
      st' := deep.(depth := deep.depth - 1);
      SameTwice(text, key, i, st, i + 1, deeper, j, deep);
      SameTwice(text, key, i, st, j, deep, j + |blank| + 1, st');
    case Table(members, blank) =>
      ShowTable(members, blank);
      var deeper := st.(depth := st.depth + 1);
      var j := i + 1 + |ShowMembers(members)|;
      EnterBracket(text, key, i, st, '{', ShowMembers(members) + (blank + (['}'] + "")));
      StandsSplit(text, i + 1, ShowMembers(members), blank + (['}'] + ""));
      var deep := SkipMembers(text, key, i + 1, deeper, members);
      LeaveBracket(text, key, j, deep, blank, '}', "");
      st' := deep.(depth := deep.depth - 1);
      SameTwice(text, key, i, st, i + 1, deeper, j, deep);
      SameTwice(text, key, i, st, j, deep, j + |blank| + 1, st');
  }

  lemma ShowItemsSplit(items: seq<Item>)
    requires |items| > 1
    ensures ShowItems(items) == ShowItem(items[0]) + ("," + ShowItems(items[1..]))
  {
    hide ShowItem;
    assert ShowItem(items[0]) + "," + ShowItems(items[1..]) == ShowItem(items[0]) + ("," + ShowItems(items[1..]));
  }

  lemma {:induction false} SkipItems(text: string, key: string, i: nat, st: State, items: seq<Item>) returns (st': State)
    requires OccursAt(text, ShowItems(items), i) && Outside(st) && st.depth >= 2
    requires forall k :: 0 <= k < |items| ==> ValidItem(items[k]) && TameItem(items[k])
    ensures Past(text, key, i, st, i + |ShowItems(items)|, st')
    decreases items
  {
    hide OpeningFrom, OccursAt, ShowItem, ValidItem, TameItem;
    if items == [] {
      StandsWithin(text, i, ShowItems(items));
      SkipBlank(text, key, i, st, "");
      st' := st;
    } else if |items| == 1 {
      st' := SkipItem(text, key, i, st, items[0]);
    } else {
      var rest := items[1..];
      ShowItemsSplit(items);
      StandsSplit(text, i, ShowItem(items[0]), "," + ShowItems(rest));
      var mid := SkipItem(text, key, i, st, items[0]);
      var j := i + |ShowItem(items[0])|;
      PassComma(text, key, j, mid, ShowItems(rest));
      st' := SkipItems(text, key, j + 1, mid.(wanted := false), rest);
      SameTwice(text, key, i, st, j, mid, j + 1, mid.(wanted := false));
      SameTwice(text, key, i, st, j + 1, mid.(wanted := false), i + |ShowItems(items)|, st');
    }
  }

  lemma {:induction false} SkipItem(text: string, key: string, i: nat, st: State, item: Item) returns (st': State)
    requires OccursAt(text, ShowItem(item), i) && Outside(st) && st.depth >= 2 && ValidItem(item) && TameItem(item)
    ensures Past(text, key, i, st, i + |ShowItem(item)|, st')
    decreases item
  {
    hide OpeningFrom, OccursAt, Show, Valid, Tame;
    var a, b, c := item.before, Show(item.value), item.after;
    assert ShowItem(item) == a + (b + c);
    StandsSplit(text, i, a, b + c);
    SkipBlank(text, key, i, st, a);
    var j := i + |a|;
    StandsSplit(text, j, b, c);
    st' := SkipValue(text, key, j, st, item.value);
    SkipBlank(text, key, j + |b|, st', c);
    SameTwice(text, key, i, st, j, st, j + |b|, st');
    SameTwice(text, key, i, st, j + |b|, st', j + |b| + |c|, st');
  }

  lemma ShowMembersSplit(members: seq<Member>)
    requires |members| > 1
    ensures ShowMembers(members) == ShowMember(members[0]) + ("," + ShowMembers(members[1..]))
  {
    hide ShowMember;
    assert ShowMember(members[0]) + "," + ShowMembers(members[1..]) == ShowMember(members[0]) + ("," + ShowMembers(members[1..]));
  }

  lemma {:induction false} SkipMembers(text: string, key: string, i: nat, st: State, members: seq<Member>) returns (st': State)
    requires OccursAt(text, ShowMembers(members), i) && Outside(st) && st.depth >= 2
    requires forall k :: 0 <= k < |members| ==> ValidMember(members[k]) && TameMember(members[k])
    ensures Past(text, key, i, st, i + |ShowMembers(members)|, st')
    decreases members
  {
    hide OpeningFrom, OccursAt, ShowMember, ValidMember, TameMember;
    if members == [] {
      StandsWithin(text, i, ShowMembers(members));
      SkipBlank(text, key, i, st, "");
      st' := st;
    } else if |members| == 1 {
      st' := SkipMember(text, key, i, st, members[0]);
    } else {
      var rest := members[1..];
      ShowMembersSplit(members);
      StandsSplit(text, i, ShowMember(members[0]), "," + ShowMembers(rest));
      var mid := SkipMember(text, key, i, st, members[0]);
      var j := i + |ShowMember(members[0])|;
      PassComma(text, key, j, mid, ShowMembers(rest));
      st' := SkipMembers(text, key, j + 1, mid.(wanted := false), rest);
      SameTwice(text, key, i, st, j, mid, j + 1, mid.(wanted := false));
      SameTwice(text, key, i, st, j + 1, mid.(wanted := false), i + |ShowMembers(members)|, st');
    }
  }

  lemma {:induction false} SkipMember(text: string, key: string, i: nat, st: State, m: Member) returns (st': State)
    requires OccursAt(text, ShowMember(m), i) && Outside(st) && st.depth >= 2 && ValidMember(m) && TameMember(m)
    ensures Past(text, key, i, st, i + |ShowMember(m)|, st')
    decreases m
  {
    hide OpeningFrom, OccursAt, Show, ShowKey, Valid, Tame, Harmless, TrimEnd, RawString, Unescape;
    var a, b, c := ShowKey(m), Show(m.value), m.after;
    assert ShowMember(m) == a + (b + c);
    StandsSplit(text, i, a, b + c);
    SkipKey(text, key, i, st, m);
    var j := i + |a|;
    StandsSplit(text, j, b, c);
    st' := SkipValue(text, key, j, st, m.value);
    SkipBlank(text, key, j + |b|, st', c);
    SameTwice(text, key, i, st, j, st, j + |b|, st');
    SameTwice(text, key, i, st, j + |b|, st', j + |b| + |c|, st');
  }

  /** Whether the text up to the closing quote of a member's name ends in the key. */
  ghost predicate NameEnds(text: string, i: nat, m: Member, key: string) {
    && i + |m.before| + |m.key| + 2 <= |text|
    && EndsWith(text[..i + |m.before| + |m.key| + 2], QuotedKey(key))
  }

  lemma ShowKeySplit(m: Member)
    ensures ShowKey(m) == m.before + (QuotedKey(m.key) + (m.afterKey + ([':'] + m.beforeValue)))
  {
    var a, b, c, d := m.before, QuotedKey(m.key), m.afterKey, [':'] + m.beforeValue;
    assert ShowKey(m) == a + b + c + d;
    assert a + b + c + d == a + (b + (c + d));
  }

  /** A member's name and colon change one thing at the top level and nothing below it. */
  lemma SkipKey(text: string, key: string, i: nat, st: State, m: Member)
    requires OccursAt(text, ShowKey(m), i) && Outside(st)
    requires JsonBlank(m.before) && JsonBlank(m.afterKey) && JsonBlank(m.beforeValue) && Harmless(m.key, true)
    ensures Same(text, key, i, st, i + |ShowKey(m)|, if st.depth == 1 then st.(wanted := NameEnds(text, i, m, key)) else st)
  {
    hide OpeningFrom, OccursAt, TrimEnd, Harmless;
    var name := QuotedKey(m.key);
    ShowKeySplit(m);
    StandsSplit(text, i, m.before, name + (m.afterKey + ([':'] + m.beforeValue)));
    SkipBlank(text, key, i, st, m.before);
    var j := i + |m.before|;
    StandsSplit(text, j, name, m.afterKey + ([':'] + m.beforeValue));
    SkipQuoted(text, key, j, st, m.key);
    var k := j + |name|;
    StandsSplit(text, k, m.afterKey, [':'] + m.beforeValue);
    SkipBlank(text, key, k, st, m.afterKey);
    var colon := k + |m.afterKey|;
    var next := if st.depth == 1 then st.(wanted := NameEnds(text, i, m, key)) else st;
    SkipColon(text, key, i, st, m);
    SameTwice(text, key, i, st, j, st, k, st);
    SameTwice(text, key, i, st, k, st, colon, st);
    SameTwice(text, key, i, st, colon, st, i + |ShowKey(m)|, next);
  }

  /** At a top-level colon the scan looks back at the name before it. */
  lemma SkipColon(text: string, key: string, i: nat, st: State, m: Member)
    requires Outside(st) && JsonBlank(m.afterKey) && JsonBlank(m.beforeValue)
    requires
      var j := i + |m.before|;
      var k := j + |QuotedKey(m.key)|;
      OccursAt(text, QuotedKey(m.key), j) && OccursAt(text, m.afterKey, k)
      && OccursAt(text, [':'] + m.beforeValue, k + |m.afterKey|)
    ensures
      var colon := i + |m.before| + |QuotedKey(m.key)| + |m.afterKey|;
      Same(text, key, colon, st, colon + 1 + |m.beforeValue|,
           if st.depth == 1 then st.(wanted := NameEnds(text, i, m, key)) else st)
  {
    hide OpeningFrom, OccursAt, TrimEnd, Same;
    var name := QuotedKey(m.key);
    var j := i + |m.before|;
    var colon := j + |name| + |m.afterKey|;
    StandsHead(text, colon, [':'] + m.beforeValue);
    assert ([':'] + m.beforeValue)[1..] == m.beforeValue;
    TrimToName(text, j, name, m.afterKey);
    var next := if st.depth == 1 then st.(wanted := NameEnds(text, i, m, key)) else st;
    OneStep(text, key, colon, st, next);
    SkipBlank(text, key, colon + 1, next, m.beforeValue);
    SameTwice(text, key, colon, st, colon + 1, next, colon + 1 + |m.beforeValue|, next);
  }

  lemma TrimToName(text: string, j: nat, name: string, spaces: string)
    requires OccursAt(text, name, j) && OccursAt(text, spaces, j + |name|) && JsonBlank(spaces)
    requires name != "" && name[|name| - 1] == '"'
    ensures TrimEnd(text[..j + |name| + |spaces|]) == text[..j + |name|]
  {
    var k := j + |name|;
    assert text[..k + |spaces|] == text[..k] + spaces;
    assert text[k - 1] == text[j..k][|name| - 1];
    TrimEndDropsBlank(text[..k], spaces);
  }

  // At the top level.

  /** Whether the scan takes a name, as it is spelled, for `key`. */
  predicate Taken(raw: string, key: string) {
    EndsWith(QuotedKey(raw), QuotedKey(key))
  }

  /** Where the first member the scan takes for `key` and whose value is an object opens
      that object, counting from the first member. */
  function FirstTable(members: seq<Member>, key: string): Option<nat> {
    if members == [] then None
    else if members[0].value.Table? && Taken(members[0].key, key) then Some(|ShowKey(members[0])| + 1)
    else
      match FirstTable(members[1..], key)
      case None => None
      case Some(at) => Some(|ShowMember(members[0])| + 1 + at)
  }

  /** A name whose spelling holds no quote is taken for the key it is and no other. */
  lemma PlainNameTakenExactly(raw: string, key: string)
    requires '"' !in raw
    ensures Taken(raw, key) <==> raw == key
  {
    var long, short := QuotedKey(raw), QuotedKey(key);
    assert forall k :: 0 < k < |long| - 1 ==> long[k] == raw[k - 1] && long[k] != '"';
    if Taken(raw, key) {
      var from := |long| - |short|;
      assert long[from..][0] == short[0] == '"';
      assert long == short;
      assert raw == long[1..|long| - 1] && key == short[1..|short| - 1];
    }
  }

  /** The text before a name does not change what the name ends with, for a key that holds
      no quote. */
  lemma NameDecides(before: string, raw: string, key: string)
    requires '"' !in key
    ensures EndsWith(before + QuotedKey(raw), QuotedKey(key)) == Taken(raw, key)
  {
    var name, wanted := QuotedKey(raw), QuotedKey(key);
    var whole := before + name;
    if |wanted| <= |name| {
      assert whole[|whole| - |wanted|..] == name[|name| - |wanted|..];
    } else if |wanted| <= |whole| {
      var at := |before| - (|whole| - |wanted|);
      assert 0 < at < |wanted| - 1 && wanted[at] == key[at - 1] != '"';
      assert whole[|whole| - |wanted|..][at] == whole[|before|] == name[0] == '"';
    }
  }

  const TOP := State(1, false, false, false)

  /** A top-level member that is not the one wanted is passed over. */
  lemma PassedOver(text: string, key: string, i: nat, m: Member) returns (past: State)
    requires OccursAt(text, ShowKey(m), i) && OccursAt(text, Show(m.value), i + |ShowKey(m)|)
    requires OccursAt(text, m.after, i + |ShowKey(m)| + |Show(m.value)|)
    requires ValidMember(m) && TameMember(m) && '"' !in key
    requires !(m.value.Table? && Taken(m.key, key))
    ensures Same(text, key, i, TOP, i + |ShowKey(m)| + |Show(m.value)| + |m.after|, past)
    ensures Outside(past) && past.depth == 1 && past.(wanted := false) == TOP
  {
    hide OpeningFrom, OccursAt, Show, ShowKey, Valid, Tame, Harmless, Unescape, RawString, Taken, Same;
    var a, b, c := ShowKey(m), Show(m.value), m.after;
    SkipKey(text, key, i, TOP, m);
    NameTaken(text, i, m, key);
    var named := TOP.(wanted := Taken(m.key, key));
    var j := i + |a|;
    past := SkipValue(text, key, j, named, m.value);
    SkipBlank(text, key, j + |b|, past, c);
    SameTwice(text, key, i, TOP, j, named, j + |b|, past);
    SameTwice(text, key, i, TOP, j + |b|, past, j + |b| + |c|, past);
  }

  /** How the scan goes over the members of the top-level object. */
  lemma {:induction false} ScanMembers(text: string, key: string, i: nat, members: seq<Member>) returns (st': State)
    requires OccursAt(text, ShowMembers(members), i) && '"' !in key
    requires forall k :: 0 <= k < |members| ==> ValidMember(members[k]) && TameMember(members[k])
    ensures i <= |text|
    ensures FirstTable(members, key).Some? ==> OpeningFrom(text, key, i, TOP) == Some(i + FirstTable(members, key).value)
    ensures FirstTable(members, key).None? ==>
      Same(text, key, i, TOP, i + |ShowMembers(members)|, st') && Outside(st') && st'.depth == 1
    decreases members
  {
    hide OpeningFrom, OccursAt, Show, ShowKey, Valid, Tame, Harmless, Unescape, RawString, Taken, Same;
    StandsWithin(text, i, ShowMembers(members));
    st' := TOP;
    if members == [] {
      SkipBlank(text, key, i, TOP, "");
    } else {
      var m, rest := members[0], members[1..];
      var tail := if |members| == 1 then "" else "," + ShowMembers(rest);
      FirstOfMembers(members);
      MemberStands(text, i, m, tail);
      if m.value.Table? && Taken(m.key, key) {
        OpensAt(text, key, i, m);
      } else {
        var past := PassedOver(text, key, i, m);
        if |members| == 1 {
          st' := past;
        } else {
          var j := i + |ShowMember(m)|;
          PassComma(text, key, j, past, ShowMembers(rest));
          SameTwice(text, key, i, TOP, j, past, j + 1, TOP);
          st' := ScanMembers(text, key, j + 1, rest);
          SameAnswer(text, key, i, TOP, j + 1, TOP);
          if FirstTable(rest, key).None? {
            SameTwice(text, key, i, TOP, j + 1, TOP, i + |ShowMembers(members)|, st');
          }
        }
      }
    }
  }

  lemma MemberStands(text: string, i: nat, m: Member, tail: string)
    requires OccursAt(text, ShowKey(m) + (Show(m.value) + (m.after + tail)), i)
    ensures OccursAt(text, ShowKey(m), i) && OccursAt(text, Show(m.value), i + |ShowKey(m)|)
    ensures OccursAt(text, m.after, i + |ShowKey(m)| + |Show(m.value)|)
    ensures OccursAt(text, tail, i + |ShowKey(m)| + |Show(m.value)| + |m.after|)
  {
    hide OccursAt, Show, ShowKey;
    var a, b, c := ShowKey(m), Show(m.value), m.after;
    StandsSplit(text, i, a, b + (c + tail));
    StandsSplit(text, i + |a|, b, c + tail);
    StandsSplit(text, i + |a| + |b|, c, tail);
  }

  /** The wanted member's value opens right after its name and colon. */
  lemma OpensAt(text: string, key: string, i: nat, m: Member)
    requires OccursAt(text, ShowKey(m), i) && OccursAt(text, Show(m.value), i + |ShowKey(m)|)
    requires ValidMember(m) && TameMember(m) && '"' !in key
    requires m.value.Table? && Taken(m.key, key)
    ensures i <= |text| && OpeningFrom(text, key, i, TOP) == Some(i + |ShowKey(m)| + 1)
  {
    hide OpeningFrom, OccursAt, Show, ShowKey, Valid, Tame, Harmless, Unescape, RawString, Taken, Same;
    SkipKey(text, key, i, TOP, m);
    NameTaken(text, i, m, key);
    var j, named := i + |ShowKey(m)|, TOP.(wanted := true);
    OpensWithBrace(m.value);
    FindBrace(text, key, j, named, Show(m.value)[1..]);
    SameAnswer(text, key, i, TOP, j, named);
  }

  lemma SameAnswer(text: string, key: string, i: nat, st: State, j: nat, st': State)
    requires Same(text, key, i, st, j, st')
    ensures i <= j <= |text| && OpeningFrom(text, key, i, st) == OpeningFrom(text, key, j, st')
  {
  }

  lemma OpensWithBrace(v: Laid)
    requires v.Table?
    ensures Show(v) != "" && Show(v) == "{" + Show(v)[1..]
  {
    ShowTable(v.members, v.blank);
  }

  lemma FirstOfMembers(members: seq<Member>)
    requires members != []
    ensures var m := members[0];
      var tail := if |members| == 1 then "" else "," + ShowMembers(members[1..]);
      && ShowMembers(members) == ShowKey(m) + (Show(m.value) + (m.after + tail))
      && |ShowMember(m)| == |ShowKey(m)| + |Show(m.value)| + |m.after|
  {
    hide Show, ShowKey;
    var m := members[0];
    var rest := if |members| == 1 then "" else "," + ShowMembers(members[1..]);
    var a, b, c := ShowKey(m), Show(m.value), m.after;
    assert ShowMember(m) == a + b + c;
    FourTogether(a, b, c, rest);
    if |members| > 1 {
      ShowMembersSplit(members);
    } else {
      assert (a + b + c) + "" == a + b + c;
    }
  }

  lemma FourTogether(a: string, b: string, c: string, d: string)
    ensures (a + b + c) + d == a + (b + (c + d))
  {
  }

  lemma NameTaken(text: string, i: nat, m: Member, key: string)
    requires OccursAt(text, ShowKey(m), i) && '"' !in key
    ensures NameEnds(text, i, m, key) == Taken(m.key, key)
  {
    hide Taken;
    var name := QuotedKey(m.key);
    ShowKeySplit(m);
    StandsSplit(text, i, m.before, name + (m.afterKey + ([':'] + m.beforeValue)));
    StandsSplit(text, i + |m.before|, name, m.afterKey + ([':'] + m.beforeValue));
    var j := i + |m.before|;
    assert text[..j + |name|] == text[..j] + name;
    NameDecides(text[..j], m.key, key);
  }

  lemma ShowFileSplit(f: File)
    ensures ShowFile(f) == f.lead + (['{'] + (ShowMembers(f.members) + (f.blank + (['}'] + f.trail))))
  {
    hide ShowMembers;
    var a, b, c, d := f.lead, ShowMembers(f.members), f.blank, f.trail;
    assert ShowFile(f) == a + ("{" + b + c + "}") + d;
    assert a + ("{" + b + c + "}") + d == a + (['{'] + (b + (c + (['}'] + d))));
  }

  /** What the scan answers for every layout of a JSON object: the first top-level member it
      takes for `key` whose value is an object, and nothing else anywhere in the file. */
  lemma OpeningIsFirstTable(f: File, key: string)
    requires ValidFile(f) && Tame(Table(f.members, f.blank)) && '"' !in key
    ensures Opening(ShowFile(f), key)
      == match FirstTable(f.members, key) case None => None case Some(at) => Some(|f.lead| + 1 + at)
  {
    hide OpeningFrom, OccursAt, Show, ShowMembers, ValidMember, TameMember, FirstTable;
    var text := ShowFile(f);
    var last := f.blank + (['}'] + f.trail);
    ShowFileSplit(f);
    StandsWhole(text);
    StandsSplit(text, 0, f.lead, ['{'] + (ShowMembers(f.members) + last));
    SkipBlank(text, key, 0, START, f.lead);
    var i := |f.lead|;
    EnterBracket(text, key, i, START, '{', ShowMembers(f.members) + last);
    SameTwice(text, key, 0, START, i, START, i + 1, TOP);
    StandsSplit(text, i + 1, ShowMembers(f.members), last);
    var end := ScanMembers(text, key, i + 1, f.members);
    SameAnswer(text, key, 0, START, i + 1, TOP);
    if FirstTable(f.members, key).None? {
      var j := i + 1 + |ShowMembers(f.members)|;
      LeaveBracket(text, key, j, end, f.blank, '}', f.trail);
      var k := j + |f.blank| + 1;
      SkipBlank(text, key, k, end.(depth := 0), f.trail);
      SameTwice(text, key, 0, START, i + 1, TOP, j, end);
      SameTwice(text, key, 0, START, j, end, k, end.(depth := 0));
      SameTwice(text, key, 0, START, k, end.(depth := 0), |text|, end.(depth := 0));
      NothingAtTheEnd(text, key, end.(depth := 0));
      SameAnswer(text, key, 0, START, |text|, end.(depth := 0));
    }
  }

  lemma StandsWhole(text: string)
    ensures OccursAt(text, text, 0)
  {
  }

  lemma NothingAtTheEnd(text: string, key: string, st: State)
    ensures OpeningFrom(text, key, |text|, st) == None
  {
  }

  /** The same in the file's own terms, when no top-level name is spelled with a quote in
      it: the first member whose name is `key` and whose value is an object. */
  function FirstNamedTable(members: seq<Member>, key: string): Option<nat> {
    if members == [] then None
    else if members[0].value.Table? && members[0].key == key then Some(|ShowKey(members[0])| + 1)
    else
      match FirstNamedTable(members[1..], key)
      case None => None
      case Some(at) => Some(|ShowMember(members[0])| + 1 + at)
  }

  lemma {:induction false} NamedIsTaken(members: seq<Member>, key: string)
    requires forall m :: m in members ==> '"' !in m.key
    ensures FirstTable(members, key) == FirstNamedTable(members, key)
  {
    hide ShowKey, ShowMember, Taken;
    if members != [] {
      PlainNameTakenExactly(members[0].key, key);
      NamedIsTaken(members[1..], key);
    }
  }

  lemma OpeningFindsTheKey(f: File, key: string)
    requires ValidFile(f) && Tame(Table(f.members, f.blank))
    requires '"' !in key && forall m :: m in f.members ==> '"' !in m.key
    ensures Opening(ShowFile(f), key)
      == match FirstNamedTable(f.members, key) case None => None case Some(at) => Some(|f.lead| + 1 + at)
  {
    hide ShowFile, ValidFile, Tame, FirstNamedTable, FirstTable, Opening;
    OpeningIsFirstTable(f, key);
    NamedIsTaken(f.members, key);
  }
}
