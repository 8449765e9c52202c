/** A text is read in one way: no two layouts of a JSON object are one text, so what a settings
    file means is a property of its characters. Each part of a layout ends where the next can
    begin, and nowhere else. */
module JsonReading {
  import opened Wrappers
  import opened Text
  import opened Json

  // Where a token, a string and a stretch of whitespace end.

  predicate JsonSpace(c: char) {
    c in " \t\n\r"
  }

  /** What may stand right after a value. */
  predicate AfterValue(s: string) {
    s == "" || JsonSpace(s[0]) || s[0] in ",]}"
  }

  predicate TokenChar(c: char) {
    !JsonSpace(c) && c !in ",]}[{\""
  }

  /** Where two texts are one, so are their first characters and what comes after. */
  lemma SameHeads(a: string, b: string, x: string, y: string)
    requires a + x == b + y
    ensures a != "" && b != "" ==> a[0] == b[0] && a[1..] + x == b[1..] + y
    ensures a == "" && b != "" ==> x != "" && x[0] == b[0]
    ensures a != "" && b == "" ==> y != "" && y[0] == a[0]
    ensures a == "" && b == "" ==> x == y
  {
    var l, r := a + x, b + y;
    assert a != "" ==> l[0] == a[0] && l[1..] == a[1..] + x;
    assert b != "" ==> r[0] == b[0] && r[1..] == b[1..] + y;
    assert a == "" ==> l == x;
    assert b == "" ==> r == y;
  }

  lemma {:induction false} SpaceEnds(a: string, b: string, x: string, y: string)
    requires JsonBlank(a) && JsonBlank(b) && a + x == b + y
    requires (x != "" ==> !JsonSpace(x[0])) && (y != "" ==> !JsonSpace(y[0]))
    ensures a == b && x == y
  {
    SameHeads(a, b, x, y);
    if a != "" && b != "" {
      SpaceEnds(a[1..], b[1..], x, y);
      assert a == [a[0]] + a[1..] && b == [b[0]] + b[1..];
    }
  }

  lemma {:induction false} TokenEnds(a: string, b: string, x: string, y: string)
    requires (forall c :: c in a ==> TokenChar(c)) && (forall c :: c in b ==> TokenChar(c))
    requires a + x == b + y && AfterValue(x) && AfterValue(y)
    ensures a == b && x == y
  {
    SameHeads(a, b, x, y);
    assert (a != "" ==> a[0] in a) && (b != "" ==> b[0] in b);
    if a != "" && b != "" {
      assert (forall c :: c in a[1..] ==> c in a) && forall c :: c in b[1..] ==> c in b;
      TokenEnds(a[1..], b[1..], x, y);
      assert a == [a[0]] + a[1..] && b == [b[0]] + b[1..];
    }
  }

  lemma {:induction false} StringEnds(a: string, b: string, x: string, y: string)
    requires RawString(a) && RawString(b)
    requires a + ("\"" + x) == b + ("\"" + y)
    ensures a == b && x == y
    decreases |a|
  {
    var p, q := "\"" + x, "\"" + y;
    assert p[0] == '"' && q[0] == '"' && p[1..] == x && q[1..] == y;
    SameHeads(a, b, p, q);
    if a != "" && b != "" {
      var c, d := a[1..], b[1..];
      assert a == [a[0]] + c && b == [b[0]] + d;
      if a[0] == '\\' {
        SameHeads(c, d, p, q);
        assert a[2..] == c[1..] && b[2..] == d[1..];
        assert c == [c[0]] + c[1..] && d == [d[0]] + d[1..];
        StringEnds(c[1..], d[1..], x, y);
      } else {
        StringEnds(c, d, x, y);
      }
    }
  }

  lemma ScalarsAreTokens(token: string)
    requires Valid(Scalar(token))
    ensures token != "" && forall c :: c in token ==> TokenChar(c)
  {
    if IsNumber(token) {
      hide IsNumber;
      NumbersAreTokens(token);
      NumberCharsAreTokenChars();
      hide TokenChar, NumberChar;
    } else {
      hide IsNumber;
      WordsAreTokens(token);
    }
  }

  lemma WordsAreTokens(token: string)
    requires token == "true" || token == "false" || token == "null"
    ensures token != "" && forall c :: c in token ==> TokenChar(c)
  {
  }

  lemma NumberCharsAreTokenChars()
    ensures forall c :: NumberChar(c) ==> TokenChar(c)
  {
  }

  predicate NumberChar(c: char) {
    '0' <= c <= '9' || c in "+-.eE"
  }

  lemma NumbersAreTokens(token: string)
    requires IsNumber(token)
    ensures token != "" && NumberChar(token[0]) && forall c :: c in token ==> NumberChar(c)
  {
    var sign, whole, fraction, exponent :|
      && token == sign + whole + fraction + exponent
      && sign in {"", "-"}
      && Digits(whole) && (|whole| > 1 ==> whole[0] != '0')
      && (fraction == "" || (fraction[0] == '.' && Digits(fraction[1..])))
      && IsExponent(exponent);
    forall k | 0 <= k < |fraction| ensures NumberChar(fraction[k]) {
      assert k == 0 || fraction[k] == fraction[1..][k - 1];
    }
    forall k | 0 <= k < |exponent| ensures NumberChar(exponent[k]) {
      if k >= 2 {
        assert exponent[k] == exponent[1..][k - 1];
        assert exponent[k] == exponent[2..][k - 2];
      } else if k == 1 {
        assert exponent[1] == exponent[1..][0];
      }
    }
    assert forall c :: c in token ==> c in sign || c in whole || c in fraction || c in exponent;
  }

  // One value, one layout.

  /** How a value starts says which kind it is, and it starts with no whitespace. */
  lemma ValueStarts(v: Laid)
    requires Valid(v)
    ensures Show(v) != "" && !JsonSpace(Show(v)[0]) && Show(v)[0] !in ",]}"
    ensures v.Quoted? <==> Show(v)[0] == '"'
    ensures v.Listed? <==> Show(v)[0] == '['
    ensures v.Table? <==> Show(v)[0] == '{'
  {
    if v.Scalar? {
      ScalarsAreTokens(v.token);
      assert v.token[0] in v.token;
    }
  }

  /** A list from its first item on, with what stands after it. */
  function ItemsOn(items: seq<Item>, blank: string, x: string): string {
    if items == [] then blank + ("]" + x)
    else
      items[0].before + (Show(items[0].value) + (items[0].after
        + (if |items| == 1 then "]" + x else "," + ItemsOn(items[1..], blank, x))))
  }

  function MembersOn(members: seq<Member>, blank: string, x: string): string {
    if members == [] then blank + ("}" + x)
    else
      members[0].before + ("\"" + (members[0].key + ("\"" + (members[0].afterKey + (":" + (members[0].beforeValue
        + (Show(members[0].value) + (members[0].after
        + (if |members| == 1 then "}" + x else "," + MembersOn(members[1..], blank, x))))))))))
  }

  lemma {:induction false} ItemsAreOn(items: seq<Item>, blank: string, x: string)
    requires items != [] ==> blank == ""
    ensures ShowItems(items) + (blank + ("]" + x)) == ItemsOn(items, blank, x)
  {
    hide Show;
    if items == [] {
      assert ShowItems(items) + (blank + ("]" + x)) == blank + ("]" + x);
    } else {
      var (a, b, c) := (items[0].before, Show(items[0].value), items[0].after);
      assert ShowItem(items[0]) == a + b + c;
      if |items| == 1 {
        assert (a + b + c) + ("" + ("]" + x)) == a + (b + (c + ("]" + x)));
      } else {
        ItemsAreOn(items[1..], blank, x);
        var rest, end := ShowItems(items[1..]), blank + ("]" + x);
        assert ((a + b + c) + "," + rest) + end == a + (b + (c + ("," + (rest + end))));
      }
    }
  }

  lemma {:induction false} MembersAreOn(members: seq<Member>, blank: string, x: string)
    requires members != [] ==> blank == ""
    ensures ShowMembers(members) + (blank + ("}" + x)) == MembersOn(members, blank, x)
  {
    hide Show;
    if members == [] {
      assert ShowMembers(members) + (blank + ("}" + x)) == blank + ("}" + x);
    } else if |members| == 1 {
      OneMemberOn(members[0], "}" + x);
      assert blank + ("}" + x) == "}" + x;
    } else {
      MembersAreOn(members[1..], blank, x);
      var rest, end := ShowMembers(members[1..]), blank + ("}" + x);
      OneMemberOn(members[0], "," + (rest + end));
      var m := ShowMember(members[0]);
      assert (m + "," + rest) + end == m + ("," + (rest + end));
    }
  }

  lemma OneMemberOn(m: Member, rest: string)
    ensures ShowMember(m) + rest
      == m.before + ("\"" + (m.key + ("\"" + (m.afterKey + (":" + (m.beforeValue + (Show(m.value) + (m.after + rest))))))))
  {
    hide Show;
    var v := Show(m.value);
    var (a, b, c, d, e) := (m.before, m.key, m.afterKey, m.beforeValue, m.after);
    assert ShowMember(m) == (a + "\"" + b + "\"" + c + ":" + d) + v + e;
    Nine(a, b, c, d, v, e, rest);
  }

  lemma Nine(a: string, b: string, c: string, d: string, v: string, e: string, rest: string)
    ensures ((a + "\"" + b + "\"" + c + ":" + d) + v + e) + rest
      == a + ("\"" + (b + ("\"" + (c + (":" + (d + (v + (e + rest))))))))
  {
  }

  lemma Enclosed(open: string, inner: string, blank: string, close: string, x: string)
    ensures (open + inner + blank + close) + x == open + (inner + (blank + (close + x)))
  {
  }

  /** A value and what stands after it, from its first character on. */
  lemma Opened(v: Laid, x: string)
    ensures v.Quoted? ==> Show(v) + x == ['"'] + (v.raw + ("\"" + x))
    ensures v.Listed? && (v.items != [] ==> v.blank == "") ==> Show(v) + x == ['['] + ItemsOn(v.items, v.blank, x)
    ensures v.Table? && (v.members != [] ==> v.blank == "") ==> Show(v) + x == ['{'] + MembersOn(v.members, v.blank, x)
  {
    match v
    case Scalar(_) =>
    case Quoted(raw) =>
      Enclosed("\"", raw, "", "\"", x);
      assert "\"" + raw + "" + "\"" == "\"" + raw + "\"" && "" + ("\"" + x) == "\"" + x;
    case Listed(items, blank) =>
      hide ShowItems, ItemsOn;
      Enclosed("[", ShowItems(items), blank, "]", x);
      if items != [] ==> blank == "" {
        ItemsAreOn(items, blank, x);
      }
    case Table(members, blank) =>
      hide ShowMembers, MembersOn;
      Enclosed("{", ShowMembers(members), blank, "}", x);
      if members != [] ==> blank == "" {
        MembersAreOn(members, blank, x);
      }
  }

  lemma SameAfter(open: char, a: string, b: string)
    requires [open] + a == [open] + b
    ensures a == b
  {
    assert ([open] + a)[1..] == a && ([open] + b)[1..] == b;
  }

  lemma KindsAgree(a: Laid, b: Laid, x: string, y: string)
    requires Valid(a) && Valid(b) && Show(a) + x == Show(b) + y
    ensures (a.Scalar? <==> b.Scalar?) && (a.Quoted? <==> b.Quoted?) && (a.Listed? <==> b.Listed?)
  {
    hide Show, Valid;
    ValueStarts(a);
    ValueStarts(b);
    SameHeads(Show(a), Show(b), x, y);
  }

  lemma {:induction false} OneValue(a: Laid, b: Laid, x: string, y: string)
    requires Valid(a) && Valid(b) && Show(a) + x == Show(b) + y && AfterValue(x) && AfterValue(y)
    ensures a == b && x == y
    decreases a
  {
    KindsAgree(a, b, x, y);
    Opened(a, x);
    Opened(b, y);
    hide AfterValue, ItemsOn, MembersOn, RawString;
    match a
    case Scalar(token) =>
      ScalarsAreTokens(token);
      ScalarsAreTokens(b.token);
      TokenEnds(token, b.token, x, y);
    case Quoted(raw) =>
      hide Show;
      SameAfter('"', raw + ("\"" + x), b.raw + ("\"" + y));
      StringEnds(raw, b.raw, x, y);
    case Listed(items, blank) =>
      hide Show;
      SameAfter('[', ItemsOn(items, blank, x), ItemsOn(b.items, b.blank, y));
      OneList(items, b.items, blank, b.blank, x, y);
    case Table(members, blank) =>
      hide Show;
      SameAfter('{', MembersOn(members, blank, x), MembersOn(b.members, b.blank, y));
      OneTable(members, b.members, blank, b.blank, x, y);
  }

  ghost predicate GoodItems(items: seq<Item>, blank: string) {
    JsonBlank(blank) && (items != [] ==> blank == "") && forall i :: 0 <= i < |items| ==> ValidItem(items[i])
  }

  lemma {:induction false} OneList(a: seq<Item>, b: seq<Item>, blankA: string, blankB: string, x: string, y: string)
    requires GoodItems(a, blankA) && GoodItems(b, blankB)
    requires ItemsOn(a, blankA, x) == ItemsOn(b, blankB, y)
    ensures a == b && blankA == blankB && x == y
    decreases a
  {
    hide Show, Valid;
    var restA := if |a| <= 1 then "]" + x else "," + ItemsOn(a[1..], blankA, x);
    var restB := if |b| <= 1 then "]" + y else "," + ItemsOn(b[1..], blankB, y);
    if a == [] && b == [] {
      SpaceEnds(blankA, blankB, "]" + x, "]" + y);
      assert x == ("]" + x)[1..] && y == ("]" + y)[1..];
    } else if a == [] {
      ValueStarts(b[0].value);
      SpaceEnds(blankA, b[0].before, "]" + x, Show(b[0].value) + (b[0].after + restB));
      assert false;
    } else if b == [] {
      ValueStarts(a[0].value);
      SpaceEnds(a[0].before, blankB, Show(a[0].value) + (a[0].after + restA), "]" + y);
      assert false;
    } else {
      var (i, j) := (a[0], b[0]);
      ValueStarts(i.value);
      ValueStarts(j.value);
      SpaceEnds(i.before, j.before, Show(i.value) + (i.after + restA), Show(j.value) + (j.after + restB));
      SpaceThen(i.after, restA);
      SpaceThen(j.after, restB);
      OneValue(i.value, j.value, i.after + restA, j.after + restB);
      SpaceEnds(i.after, j.after, restA, restB);
      assert restA[0] == restB[0] && restA[1..] == restB[1..];
      assert i == j;
      if |a| > 1 && |b| > 1 {
        assert restA[1..] == ItemsOn(a[1..], blankA, x) && restB[1..] == ItemsOn(b[1..], blankB, y);
        OneList(a[1..], b[1..], blankA, blankB, x, y);
      }
      assert a == [a[0]] + a[1..] && b == [b[0]] + b[1..];
    }
  }

  lemma SpaceThen(after: string, rest: string)
    requires JsonBlank(after) && rest != "" && rest[0] in ",]}"
    ensures AfterValue(after + rest)
  {
    if after != "" {
      assert (after + rest)[0] == after[0];
    } else {
      assert after + rest == rest;
    }
  }

  ghost predicate GoodMembers(members: seq<Member>, blank: string) {
    JsonBlank(blank) && (members != [] ==> blank == "") && forall i :: 0 <= i < |members| ==> ValidMember(members[i])
  }

  function MemberOn(m: Member, rest: string): string {
    m.before + ("\"" + (m.key + ("\"" + (m.afterKey + (":" + (m.beforeValue + (Show(m.value) + (m.after + rest))))))))
  }

  lemma NothingIsNoMember(blank: string, x: string, m: Member, rest: string)
    requires JsonBlank(blank) && ValidMember(m)
    ensures blank + ("}" + x) != MemberOn(m, rest)
  {
    hide Show;
    if blank + ("}" + x) == MemberOn(m, rest) {
      SpaceEnds(blank, m.before, "}" + x,
        "\"" + (m.key + ("\"" + (m.afterKey + (":" + (m.beforeValue + (Show(m.value) + (m.after + rest))))))));
    }
  }

  /** What stands after the first member. */
  function AfterFirst(members: seq<Member>, blank: string, x: string): string
    requires members != []
  {
    if |members| == 1 then "}" + x else "," + MembersOn(members[1..], blank, x)
  }

  lemma FirstOn(members: seq<Member>, blank: string, x: string)
    requires members != []
    ensures MembersOn(members, blank, x) == MemberOn(members[0], AfterFirst(members, blank, x))
    ensures AfterFirst(members, blank, x) != "" && AfterFirst(members, blank, x)[0] == if |members| == 1 then '}' else ','
    ensures AfterFirst(members, blank, x)[1..] == if |members| == 1 then x else MembersOn(members[1..], blank, x)
  {
    hide Show;
    assert ("}" + x)[1..] == x;
    assert |members| > 1 ==> ("," + MembersOn(members[1..], blank, x))[1..] == MembersOn(members[1..], blank, x);
  }

  lemma NoneOn(blank: string, x: string)
    ensures MembersOn([], blank, x) == blank + ("}" + x)
  {
  }

  lemma {:induction false} OneTable(a: seq<Member>, b: seq<Member>, blankA: string, blankB: string, x: string, y: string)
    requires GoodMembers(a, blankA) && GoodMembers(b, blankB)
    requires MembersOn(a, blankA, x) == MembersOn(b, blankB, y)
    ensures a == b && blankA == blankB && x == y
    decreases a
  {
    hide MembersOn, MemberOn, AfterFirst, ValidMember;
    NoneOn(blankA, x);
    NoneOn(blankB, y);
    if a != [] {
      FirstOn(a, blankA, x);
      NothingIsNoMember(blankB, y, a[0], AfterFirst(a, blankA, x));
    }
    if b != [] {
      FirstOn(b, blankB, y);
      NothingIsNoMember(blankA, x, b[0], AfterFirst(b, blankB, y));
    }
    if a == [] && b == [] {
      SpaceEnds(blankA, blankB, "}" + x, "}" + y);
      assert x == ("}" + x)[1..] && y == ("}" + y)[1..];
    } else if a != [] && b != [] {
      OneMember(a[0], b[0], AfterFirst(a, blankA, x), AfterFirst(b, blankB, y));
      if |a| > 1 {
        OneTable(a[1..], b[1..], blankA, blankB, x, y);
      }
      assert a == [a[0]] + a[1..] && b == [b[0]] + b[1..];
    }
  }

  lemma {:induction false} OneMember(m: Member, n: Member, x: string, y: string)
    requires ValidMember(m) && ValidMember(n) && MemberOn(m, x) == MemberOn(n, y)
    requires x != "" && y != "" && x[0] in ",]}" && y[0] in ",]}"
    ensures m == n && x == y
    decreases m
  {
    hide Show;
    var a1, b1 := Show(m.value) + (m.after + x), Show(n.value) + (n.after + y);
    var a2, b2 := m.afterKey + (":" + (m.beforeValue + a1)), n.afterKey + (":" + (n.beforeValue + b1));
    SpaceEnds(m.before, n.before, "\"" + (m.key + ("\"" + a2)), "\"" + (n.key + ("\"" + b2)));
    assert ("\"" + (m.key + ("\"" + a2)))[1..] == m.key + ("\"" + a2);
    assert ("\"" + (n.key + ("\"" + b2)))[1..] == n.key + ("\"" + b2);
    StringEnds(m.key, n.key, a2, b2);
    SpaceEnds(m.afterKey, n.afterKey, ":" + (m.beforeValue + a1), ":" + (n.beforeValue + b1));
    assert (":" + (m.beforeValue + a1))[1..] == m.beforeValue + a1;
    assert (":" + (n.beforeValue + b1))[1..] == n.beforeValue + b1;
    ValueStarts(m.value);
    ValueStarts(n.value);
    SpaceEnds(m.beforeValue, n.beforeValue, a1, b1);
    SpaceThen(m.after, x);
    SpaceThen(n.after, y);
    OneValue(m.value, n.value, m.after + x, n.after + y);
    SpaceEnds(m.after, n.after, x, y);
  }

  // Files.

  /** No two layouts of an object are one text. */
  lemma OneLayout(f: File, g: File)
    requires ValidFile(f) && ValidFile(g) && ShowFile(f) == ShowFile(g)
    ensures f == g
  {
    hide Show;
    var (a, b) := (Table(f.members, f.blank), Table(g.members, g.blank));
    ValueStarts(a);
    ValueStarts(b);
    assert ShowFile(f) == f.lead + (Show(a) + f.trail) && ShowFile(g) == g.lead + (Show(b) + g.trail);
    SpaceEnds(f.lead, g.lead, Show(a) + f.trail, Show(b) + g.trail);
    OneValue(a, b, f.trail, g.trail);
  }

  lemma LayoutIsNotBlank(f: File)
    ensures !Blank(ShowFile(f))
  {
    var text := ShowFile(f);
    assert text[|f.lead|] == Show(Table(f.members, f.blank))[0] == '{';
  }

  /** Whatever layout a file is, reading its text gives what that layout means; and what reads as
      nothing is the layout of nothing. */
  lemma ReadingIsTheMeaning(f: File)
    requires ValidFile(f)
    ensures Parse(ShowFile(f)) == Some(MeaningOfMembers(f.members))
  {
    LayoutIsNotBlank(f);
    OneLayout(LayoutOf(ShowFile(f)), f);
  }
}
