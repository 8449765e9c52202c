/** Text as the code handles it: first occurrences of one text in another, trimming, indentation,
    joining and decimals. Characters are compared one by one; nothing here knows about encodings or
    about what the text says. */
module Text {
  import opened Wrappers

  // Finding text in text.

  predicate OccursAt(text: string, pattern: string, i: nat) {
    i + |pattern| <= |text| && text[i..i + |pattern|] == pattern
  }

  ghost predicate Contains(text: string, pattern: string) {
    exists i: nat :: OccursAt(text, pattern, i)
  }

  ghost predicate FirstOccursAt(text: string, pattern: string, at: nat) {
    OccursAt(text, pattern, at) && forall k: nat :: k < at ==> !OccursAt(text, pattern, k)
  }

  /** The first place `pattern` stands in `text`. */
  function Find(text: string, pattern: string): (at: Option<nat>)
    ensures at.Some? ==> FirstOccursAt(text, pattern, at.value)
    ensures at.None? ==> !Contains(text, pattern)
  {
    FindFrom(text, pattern, 0)
  }

  function FindFrom(text: string, pattern: string, from: nat): (at: Option<nat>)
    requires forall k: nat :: k < from ==> !OccursAt(text, pattern, k)
    ensures at.Some? ==> FirstOccursAt(text, pattern, at.value)
    ensures at.None? ==> !Contains(text, pattern)
    decreases |text| - from
  {
    if from + |pattern| > |text| then None
    else if text[from..from + |pattern|] == pattern then Some(from)
    else FindFrom(text, pattern, from + 1)
  }

  /** The text without the first occurrence of `pattern`. */
  function RemoveFirst(text: string, pattern: string): string {
    match Find(text, pattern)
    case None => text
    case Some(at) => text[..at] + text[at + |pattern|..]
  }

  lemma ContainsBetween(a: string, pattern: string, b: string)
    ensures Contains(a + pattern + b, pattern)
  {
    assert OccursAt(a + pattern + b, pattern, |a|);
  }

  /** Removing the first occurrence undoes an insertion when the place of insertion is the
      only place it could be. */
  lemma RemoveInserted(a: string, pattern: string, b: string)
    requires forall i, j :: a + pattern + b == i + pattern + j ==> i == a && j == b
    ensures RemoveFirst(a + pattern + b, pattern) == a + b
  {
    var text := a + pattern + b;
    ContainsBetween(a, pattern, b);
    var at := Find(text, pattern);
    hide Find, Contains;
    SplitsThere(text, pattern, at.value);
  }

  lemma SplitsThere(text: string, pattern: string, at: nat)
    requires OccursAt(text, pattern, at)
    ensures text == text[..at] + pattern + text[at + |pattern|..]
  {
  }

  // Whitespace, as trimming sees it.

  predicate IsSpace(c: char) {
    c in " \t\n\r" || c == 11 as char || c == 12 as char || c == 0x85 as char || c == 0xA0 as char
    || c == 0x1680 as char || 0x2000 as char <= c <= 0x200A as char || c == 0x2028 as char || c == 0x2029 as char
    || c == 0x202F as char || c == 0x205F as char || c == 0x3000 as char
  }

  function TrimEnd(s: string): string {
    if s == "" then "" else if IsSpace(s[|s| - 1]) then TrimEnd(s[..|s| - 1]) else s
  }

  function TrimStart(s: string): string {
    if s == "" then "" else if IsSpace(s[0]) then TrimStart(s[1..]) else s
  }

  function Trim(s: string): string { TrimEnd(TrimStart(s)) }

  function WithoutTrailing(s: string, c: char): string {
    if s != "" && s[|s| - 1] == c then WithoutTrailing(s[..|s| - 1], c) else s
  }

  predicate Blank(s: string) {
    forall i :: 0 <= i < |s| ==> IsSpace(s[i])
  }

  lemma {:induction false} TrimEndDropsBlank(s: string, spaces: string)
    requires Blank(spaces)
    requires s == "" || !IsSpace(s[|s| - 1])
    ensures TrimEnd(s + spaces) == s
  {
    if spaces == "" {
      assert s + spaces == s;
    } else {
      var front := spaces[..|spaces| - 1];
      TrimEndDropsBlank(s, front);
      assert (s + spaces)[..|s + spaces| - 1] == s + front;
    }
  }

  predicate EndsWith(s: string, end: string) {
    |end| <= |s| && s[|s| - |end|..] == end
  }

  // Lines and indentation.

  /** What stands before the first newline. */
  function FirstLine(s: string): string {
    if s == "" || s[0] == '\n' then "" else [s[0]] + FirstLine(s[1..])
  }

  /** What stands after the first newline, if there is one. */
  function AfterNewline(s: string): Option<string> {
    if s == "" then None else if s[0] == '\n' then Some(s[1..]) else AfterNewline(s[1..])
  }

  function LeadingSpaces(s: string): (r: string)
    ensures AllSpaces(r)
  {
    if s == "" || s[0] != ' ' then "" else [' '] + LeadingSpaces(s[1..])
  }

  predicate AllSpaces(s: string) {
    forall i :: 0 <= i < |s| ==> s[i] == ' '
  }

  lemma {:induction false} SpacesOfFirstLine(s: string)
    ensures LeadingSpaces(FirstLine(s)) == LeadingSpaces(s)
  {
    if s != "" && s[0] == ' ' {
      SpacesOfFirstLine(s[1..]);
      assert FirstLine(s)[1..] == FirstLine(s[1..]);
    }
  }

  lemma {:induction false} SpacesThenText(spaces: string, rest: string)
    requires AllSpaces(spaces) && rest != "" && rest[0] != ' '
    ensures LeadingSpaces(spaces + rest) == spaces
  {
    if spaces == "" {
      assert spaces + rest == rest;
    } else {
      assert (spaces + rest)[1..] == spaces[1..] + rest;
      SpacesThenText(spaces[1..], rest);
      assert spaces == [' '] + spaces[1..];
    }
  }

  lemma SpacesBySize(a: string, b: string)
    requires AllSpaces(a) && AllSpaces(b) && |a| == |b|
    ensures a == b
  {
  }

  /** The texts joined with a separator between them. */
  function Join(parts: seq<string>, separator: string): string {
    if parts == [] then ""
    else if |parts| == 1 then parts[0]
    else parts[0] + separator + Join(parts[1..], separator)
  }

  /** ASCII letters in lower case, everything else as it is. */
  function Lowered(s: string): string {
    seq(|s|, i requires 0 <= i < |s| => if 'A' <= s[i] <= 'Z' then (s[i] as int + 32) as char else s[i])
  }

  // Numbers.

  function Digit(n: nat): char
    requires n < 10
  {
    '0' + n as char
  }

  /** A number in decimal. */
  function Decimal(n: nat): (r: string)
    ensures r != "" && forall i :: 0 <= i < |r| ==> '0' <= r[i] <= '9'
  {
    if n < 10 then [Digit(n)] else Decimal(n / 10) + [Digit(n % 10)]
  }

  lemma {:induction false} DecimalIsExact(a: nat, b: nat)
    requires Decimal(a) == Decimal(b)
    ensures a == b
  {
    var x, y := Decimal(a), Decimal(b);
    assert x[|x| - 1] == Digit(a % 10) && y[|y| - 1] == Digit(b % 10);
    if a >= 10 && b >= 10 {
      assert x[..|x| - 1] == Decimal(a / 10) && y[..|y| - 1] == Decimal(b / 10);
      DecimalIsExact(a / 10, b / 10);
    }
  }
}
