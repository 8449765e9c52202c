/** The environment a home delivers: the dotenv file and its reader, and the shell lines. */
module Dotenv {
  import opened Wrappers
  import opened Text
  import opened Lines

  datatype Origin = Identity | Generated | Machine | StandIn

  predicate IsNameChar(c: char) {
    'A' <= c <= 'Z' || '0' <= c <= '9' || c == '_'
  }

  /** `[A-Z_][A-Z0-9_]*`, at most 255 long. */
  predicate IsEnvName(s: string) {
    s != "" && |s| <= 255 && !('0' <= s[0] <= '9') && forall i :: 0 <= i < |s| ==> IsNameChar(s[i])
  }

  type EnvName = s: string | IsEnvName(s) witness "A"

  datatype EnvVar = EnvVar(name: EnvName, origin: Origin, value: string)

  datatype Pair = Pair(name: EnvName, value: string)

  /** What a home delivers: every variable but those of somebody's own secrets file. */
  function Delivered(vars: seq<EnvVar>): seq<Pair> {
    if vars == [] then []
    else (if vars[0].origin == Machine then [] else [Pair(vars[0].name, vars[0].value)]) + Delivered(vars[1..])
  }

  // Writing.

  /** What the file starts with: comments, whatever they say. */
  ghost predicate IsHeader(lines: seq<string>) {
    forall l :: l in lines ==> IsLine(l) && l != "" && l[0] == '#'
  }

  function EscapedChar(c: char): string {
    if c == '\\' || c == '"' || c == '$' || c == '`' then ['\\', c]
    else if c == '\n' then "\\n"
    else [c]
  }

  function Escaped(value: string): string {
    if value == "" then "" else EscapedChar(value[0]) + Escaped(value[1..])
  }

  lemma EscapedStep(value: string, i: nat)
    requires i < |value|
    ensures Escaped(value[i..]) == EscapedChar(value[i]) + Escaped(value[i + 1..])
  {
    assert value[i..][1..] == value[i + 1..];
  }

  method EscapeDotenv(value: string) returns (text: string)
    ensures text == Escaped(value)
  {
    text := "";
    for i := 0 to |value|
      invariant text + Escaped(value[i..]) == Escaped(value)
    {
      EscapedStep(value, i);
      hide Escaped;
      ghost var was := text;
      if value[i] == '\\' || value[i] == '"' || value[i] == '$' || value[i] == '`' {
        text := text + ['\\', value[i]];
      } else if value[i] == '\n' {
        text := text + "\\n";
      } else {
        text := text + [value[i]];
      }
      assert text == was + EscapedChar(value[i]);
      Regrouped(was, EscapedChar(value[i]), Escaped(value[i + 1..]));
    }
  }

  function Assignment(p: Pair): string {
    p.name + "=\"" + Escaped(p.value) + "\""
  }

  function Assignments(pairs: seq<Pair>): seq<string> {
    seq(|pairs|, i requires 0 <= i < |pairs| => Assignment(pairs[i]))
  }

  /** The dotenv file of a home. */
  function DotenvOf(header: seq<string>, vars: seq<EnvVar>): string {
    Ended(header) + Ended(Assignments(Delivered(vars)))
  }

  /** What one variable adds to the file. */
  lemma OneMoreVariable(vars: seq<EnvVar>, i: nat)
    requires i < |vars|
    ensures
      var p := Pair(vars[i].name, vars[i].value);
      Ended(Assignments(Delivered(vars[i..])))
      == (if vars[i].origin == Machine then "" else Assignment(p) + "\n") + Ended(Assignments(Delivered(vars[i + 1..])))
  {
    hide Assignment;
    var rest := Delivered(vars[i + 1..]);
    assert vars[i..][1..] == vars[i + 1..];
    if vars[i].origin != Machine {
      var p := Pair(vars[i].name, vars[i].value);
      assert Delivered(vars[i..]) == [p] + rest;
      assert Assignments([p] + rest) == [Assignment(p)] + Assignments(rest);
      assert ([Assignment(p)] + Assignments(rest))[1..] == Assignments(rest);
    } else {
      assert Delivered(vars[i..]) == rest;
      assert "" + Ended(Assignments(rest)) == Ended(Assignments(rest));
    }
  }

  method WriteDotenv(header: seq<string>, vars: seq<EnvVar>) returns (text: string)
    ensures text == DotenvOf(header, vars)
  {
    hide Ended, Assignments, Delivered, Escaped;
    text := Ended(header);
    assert vars[0..] == vars;
    for i := 0 to |vars|
      invariant text + Ended(Assignments(Delivered(vars[i..]))) == DotenvOf(header, vars)
    {
      OneMoreVariable(vars, i);
      if vars[i].origin != Machine {
        var escaped := EscapeDotenv(vars[i].value);
        Regrouped(text, Assignment(Pair(vars[i].name, vars[i].value)) + "\n", Ended(Assignments(Delivered(vars[i + 1..]))));
        text := text + (vars[i].name + "=\"" + escaped + "\"") + "\n";
      }
    }
    NoMoreVariables(vars[|vars|..]);
  }

  lemma NoMoreVariables(vars: seq<EnvVar>)
    requires |vars| == 0
    ensures Ended(Assignments(Delivered(vars))) == ""
  {
  }

  // Reading.

  function WithoutLeading(s: string, c: char): string {
    if s != "" && s[0] == c then WithoutLeading(s[1..], c) else s
  }

  /** Escapes undone: a lone backslash at the end stands for itself. */
  function Plain(s: string): string {
    if s == "" then ""
    else if s[0] != '\\' then [s[0]] + Plain(s[1..])
    else if |s| == 1 then "\\"
    else [if s[1] == 'n' then '\n' else s[1]] + Plain(s[2..])
  }

  lemma PlainStep(s: string, i: nat)
    requires i < |s|
    ensures s[i] != '\\' ==> Plain(s[i..]) == [s[i]] + Plain(s[i + 1..])
    ensures s[i] == '\\' && i + 1 == |s| ==> Plain(s[i..]) == "\\" && Plain(s[i + 1..]) == ""
    ensures s[i] == '\\' && i + 1 < |s| ==>
      Plain(s[i..]) == [if s[i + 1] == 'n' then '\n' else s[i + 1]] + Plain(s[i + 2..])
  {
    assert s[i..][1..] == s[i + 1..];
    assert i + 1 < |s| ==> s[i..][2..] == s[i + 2..] && s[i..][1] == s[i + 1];
  }

  function Unescaped(value: string): string {
    Plain(WithoutTrailing(WithoutLeading(Trim(value), '"'), '"'))
  }

  lemma NothingAfter<T>(s: seq<T>)
    ensures s + [] == s
  {
  }

  method Unescape(value: string) returns (text: string)
    ensures text == Unescaped(value)
  {
    var inner := WithoutTrailing(WithoutLeading(Trim(value), '"'), '"');
    text := "";
    var i := 0;
    while i < |inner|
      invariant 0 <= i <= |inner|
      invariant text + Plain(inner[i..]) == Plain(inner)
    {
      ghost var was := text;
      PlainStep(inner, i);
      hide Plain, Trim, WithoutLeading, WithoutTrailing;
      if inner[i] != '\\' {
        Regrouped(was, [inner[i]], Plain(inner[i + 1..]));
        text := text + [inner[i]];
        i := i + 1;
      } else if i + 1 == |inner| {
        Regrouped(was, "\\", Plain(inner[i + 1..]));
        NothingAfter("\\");
        text := text + "\\";
        i := i + 1;
      } else {
        ghost var read := [if inner[i + 1] == 'n' then '\n' else inner[i + 1]];
        Regrouped(was, read, Plain(inner[i + 2..]));
        text := text + [if inner[i + 1] == 'n' then '\n' else inner[i + 1]];
        i := i + 2;
      }
    }
  }

  /** What stands before the first `=` and what stands after it. */
  function SplitOnce(line: string): Option<(string, string)> {
    if line == "" then None
    else if line[0] == '=' then Some(("", line[1..]))
    else
      match SplitOnce(line[1..])
      case None => None
      case Some((name, value)) => Some(([line[0]] + name, value))
  }

  function ParseLine(line: string): Option<Pair> {
    var start := TrimStart(line);
    if start != "" && start[0] == '#' then None
    else
      match SplitOnce(line)
      case None => None
      case Some((name, value)) => if IsEnvName(Trim(name)) then Some(Pair(Trim(name), Unescaped(value))) else None
  }

  function ParseLines(lines: seq<string>): seq<Pair> {
    if lines == [] then []
    else
      match ParseLine(lines[0])
      case None => ParseLines(lines[1..])
      case Some(pair) => [pair] + ParseLines(lines[1..])
  }

  function ParseDotenv(text: string): seq<Pair> { ParseLines(Lines.Lines(text)) }

  // The round trip.

  predicate EndsInQuote(s: string) {
    s != "" && s[|s| - 1] == '"'
  }

  lemma PlainOfEscapedChar(c: char, tail: string)
    ensures Plain(EscapedChar(c) + tail) == [c] + Plain(tail)
  {
    var s := EscapedChar(c) + tail;
    if |EscapedChar(c)| == 1 {
      assert s[1..] == tail;
    } else {
      assert s[2..] == tail;
    }
  }

  lemma {:induction false} PlainUndoesEscaped(value: string, rest: string)
    ensures Plain(Escaped(value) + rest) == value + Plain(rest)
  {
    if value == "" {
      assert Escaped(value) + rest == rest;
    } else {
      hide Plain, Escaped, EscapedChar;
      var first, tail := EscapedChar(value[0]), Escaped(value[1..]) + rest;
      PlainUndoesEscaped(value[1..], rest);
      PlainOfEscapedChar(value[0], tail);
      EscapedStep(value, 0);
      assert value[0..] == value;
      Regrouped(first, Escaped(value[1..]), rest);
      Regrouped([value[0]], value[1..], Plain(rest));
      assert value == [value[0]] + value[1..];
    }
  }

  lemma {:induction false} EscapedOf(a: string, b: string)
    ensures Escaped(a + b) == Escaped(a) + Escaped(b)
  {
    if a == "" {
      assert a + b == b;
    } else {
      EscapedOf(a[1..], b);
      assert (a + b)[1..] == a[1..] + b && (a + b)[0] == a[0];
      EscapedStep(a, 0);
      EscapedStep(a + b, 0);
      assert a[0..] == a && (a + b)[0..] == a + b;
      Regrouped(EscapedChar(a[0]), Escaped(a[1..]), Escaped(b));
      hide EscapedChar, Escaped;
    }
  }

  /** Nothing is trimmed off a value in quotes but the quotes. */
  lemma QuotesAreTrimmed(inner: string)
    requires inner == "" || inner[0] != '"'
    ensures WithoutTrailing(WithoutLeading(Trim("\"" + inner + "\""), '"'), '"') == WithoutTrailing(inner, '"')
  {
    var s := "\"" + inner + "\"";
    assert Trim(s) == s;
    assert s[1..] == inner + "\"";
    if inner == "" {
      assert WithoutLeading(s, '"') == WithoutLeading(s[1..], '"') == WithoutLeading(s[1..][1..], '"');
    } else {
      assert WithoutLeading(s, '"') == inner + "\"";
      assert (inner + "\"")[..|inner|] == inner;
    }
  }

  lemma EscapedEnds(value: string)
    requires value != ""
    ensures Escaped(value) == Escaped(value[..|value| - 1]) + EscapedChar(value[|value| - 1])
  {
    hide *;
    var front, c := value[..|value| - 1], value[|value| - 1];
    assert value == front + [c];
    EscapedOf(front, [c]);
    OneEscaped(c);
  }

  lemma OneEscaped(c: char)
    ensures Escaped([c]) == EscapedChar(c)
  {
    hide EscapedChar;
    assert [c][1..] == "" && EscapedChar(c) + "" == EscapedChar(c);
  }

  lemma EscapedStarts(value: string)
    requires value != ""
    ensures Escaped(value) != "" && Escaped(value)[0] != '"'
  {
  }

  /** Trimming the trailing quotes takes the quote of a last `\"` with them, and no more. */
  lemma TrailingQuoteOfEscaped(value: string)
    requires value != ""
    ensures
      var front := Escaped(value[..|value| - 1]);
      WithoutTrailing(Escaped(value), '"') == if EndsInQuote(value) then front + "\\" else Escaped(value)
  {
    hide Escaped, WithoutTrailing, EscapedChar;
    if EndsInQuote(value) {
      EscapedQuoteEnds(value);
      OneQuoteOff(Escaped(value[..|value| - 1]));
    } else {
      EscapedOtherEnds(value);
      NoneOff(Escaped(value));
    }
  }

  lemma EscapedQuoteEnds(value: string)
    requires EndsInQuote(value)
    ensures Escaped(value) == Escaped(value[..|value| - 1]) + "\\\""
  {
    EscapedEnds(value);
    assert EscapedChar('"') == "\\\"";
    hide Escaped;
  }

  lemma EscapedOtherEnds(value: string)
    requires value != "" && !EndsInQuote(value)
    ensures Escaped(value) != "" && Escaped(value)[|Escaped(value)| - 1] != '"'
  {
    EscapedEnds(value);
    hide Escaped;
    var last := EscapedChar(value[|value| - 1]);
    assert last != "" && last[|last| - 1] != '"';
  }

  lemma NoneOff(s: string)
    requires s != "" && s[|s| - 1] != '"'
    ensures WithoutTrailing(s, '"') == s
  {
  }

  lemma OneQuoteOff(front: string)
    ensures WithoutTrailing(front + "\\\"", '"') == front + "\\"
  {
    var s := front + "\\\"";
    assert s[..|s| - 1] == front + "\\";
  }

  /** A value comes back from its quoted form exactly when it does not end in a quote; one that
      does comes back with a backslash for it. */
  lemma QuotedValueComesBackExactly(value: string)
    ensures Unescaped("\"" + Escaped(value) + "\"") == value <==> !EndsInQuote(value)
    ensures EndsInQuote(value) ==> Unescaped("\"" + Escaped(value) + "\"") == value[..|value| - 1] + "\\"
  {
    var escaped := Escaped(value);
    if value == "" {
      QuotesAreTrimmed(escaped);
    } else {
      TrailingQuoteOfEscaped(value);
      EscapedStarts(value);
      QuotesAreTrimmed(escaped);
      hide Escaped, Trim, WithoutLeading, WithoutTrailing;
      if EndsInQuote(value) {
        PlainUndoesEscaped(value[..|value| - 1], "\\");
      } else {
        PlainUndoesEscaped(value, "");
        assert escaped + "" == escaped;
        assert value + "" == value;
      }
    }
  }

  lemma NameHasNoEquals(name: EnvName, value: string)
    ensures SplitOnce(name + "=" + value) == Some((name, value))
    ensures Trim(name) == name && TrimStart(name + "=" + value) == name + "=" + value
  {
    SplitAtFirst(name, value);
    var line := name + "=" + value;
    assert line[0] == name[0];
    assert IsNameChar(name[0]) && IsNameChar(name[|name| - 1]);
    hide SplitOnce;
  }

  lemma {:induction false} SplitAtFirst(name: string, value: string)
    requires '=' !in name
    ensures SplitOnce(name + "=" + value) == Some((name, value))
  {
    var line := name + "=" + value;
    if name == "" {
      assert line[1..] == value;
    } else {
      SplitAtFirst(name[1..], value);
      assert line[1..] == name[1..] + "=" + value;
      assert name == [name[0]] + name[1..];
    }
  }

  lemma ReadLine(line: string, name: EnvName, value: string)
    requires line != "" && TrimStart(line) == line && line[0] != '#'
    requires SplitOnce(line) == Some((name, value)) && Trim(name) == name
    ensures ParseLine(line) == Some(Pair(name, Unescaped(value)))
  {
    hide TrimStart, Trim, SplitOnce, Unescaped;
  }

  lemma AssignmentIsRead(p: Pair)
    ensures ParseLine(Assignment(p)) == Some(Pair(p.name, Unescaped("\"" + Escaped(p.value) + "\"")))
  {
    hide Escaped, Unescaped, Trim, TrimStart, SplitOnce, ParseLine;
    var quoted := "\"" + Escaped(p.value) + "\"";
    assert Assignment(p) == p.name + "=" + quoted by {
      assert "=\"" == "=" + "\"";
    }
    NameHasNoEquals(p.name, quoted);
    assert (p.name + "=" + quoted)[0] == p.name[0] && IsNameChar(p.name[0]);
    ReadLine(Assignment(p), p.name, quoted);
  }

  function ReadBack(pairs: seq<Pair>): seq<Pair> {
    seq(|pairs|, i requires 0 <= i < |pairs| => Pair(pairs[i].name, Unescaped("\"" + Escaped(pairs[i].value) + "\"")))
  }

  lemma FirstRead(pairs: seq<Pair>)
    requires pairs != [] && ParseLine(Assignment(pairs[0])) == Some(ReadBack(pairs)[0])
    ensures ParseLines(Assignments(pairs)) == [ReadBack(pairs)[0]] + ParseLines(Assignments(pairs[1..]))
    ensures ReadBack(pairs) == [ReadBack(pairs)[0]] + ReadBack(pairs[1..])
  {
    hide Unescaped, Escaped, ParseLine, Assignment;
    assert Assignments(pairs)[1..] == Assignments(pairs[1..]);
    assert Assignments(pairs)[0] == Assignment(pairs[0]);
  }

  lemma {:induction false} AssignmentsAreRead(pairs: seq<Pair>)
    ensures ParseLines(Assignments(pairs)) == ReadBack(pairs)
  {
    if pairs != [] {
      hide Unescaped, Escaped, ParseLine, Assignment;
      AssignmentIsRead(pairs[0]);
      AssignmentsAreRead(pairs[1..]);
      FirstRead(pairs);
    }
  }

  lemma {:induction false} EscapedIsOneLine(value: string)
    ensures '\n' !in Escaped(value)
  {
    if value != "" {
      EscapedIsOneLine(value[1..]);
    }
  }

  lemma WrittenLines(pairs: seq<Pair>)
    ensures forall l :: l in Assignments(pairs) ==> IsLine(l)
  {
    forall l | l in Assignments(pairs)
      ensures IsLine(l)
    {
      var i :| 0 <= i < |pairs| && l == Assignment(pairs[i]);
      EscapedIsOneLine(pairs[i].value);
      assert forall c :: c in pairs[i].name ==> IsNameChar(c);
      assert l[|l| - 1] == '"';
    }
  }

  lemma CommentsAreSkipped(line: string)
    requires line != "" && line[0] == '#'
    ensures ParseLine(line) == None
  {
  }

  lemma {:induction false} HeaderIsSkipped(header: seq<string>, rest: seq<string>)
    requires IsHeader(header)
    ensures ParseLines(header + rest) == ParseLines(rest)
  {
    hide ParseLine;
    if header == [] {
      assert header + rest == rest;
    } else {
      assert header[0] in header;
      CommentsAreSkipped(header[0]);
      assert (header + rest)[1..] == header[1..] + rest;
      HeaderIsSkipped(header[1..], rest);
    }
  }

  /** What is read back from a home's dotenv file is what was delivered, name for name and in
      order, exactly when no delivered value ends in a double quote. */
  lemma DeliveryComesBackExactly(header: seq<string>, vars: seq<EnvVar>)
    requires IsHeader(header)
    ensures ParseDotenv(DotenvOf(header, vars)) == Delivered(vars)
       <==> forall p :: p in Delivered(vars) ==> !EndsInQuote(p.value)
    ensures |ParseDotenv(DotenvOf(header, vars))| == |Delivered(vars)|
  {
    var pairs := Delivered(vars);
    var lines := header + Assignments(pairs);
    WrittenLines(pairs);
    EndedJoins(header, Assignments(pairs));
    LinesOfEnded(lines, "");
    assert Ended(lines) + "" == DotenvOf(header, vars);
    assert Lines.Lines(DotenvOf(header, vars)) == lines + [];
    assert lines + [] == lines;
    HeaderIsSkipped(header, Assignments(pairs));
    AssignmentsAreRead(pairs);
    hide Unescaped, Escaped, ParseLines, Lines.Lines, Ended;
    var back := ReadBack(pairs);
    forall i | 0 <= i < |pairs|
      ensures back[i] == pairs[i] <==> !EndsInQuote(pairs[i].value)
    {
      QuotedValueComesBackExactly(pairs[i].value);
    }
    if back == pairs {
      forall p | p in pairs
        ensures !EndsInQuote(p.value)
      {
        var i :| 0 <= i < |pairs| && pairs[i] == p;
      }
    }
  }

  // What is delivered, and what a value can do where it stands.

  /** `pairs` are the variables at these places, in order. */
  ghost predicate StandAt(vars: seq<EnvVar>, pairs: seq<Pair>, at: seq<nat>) {
    && |at| == |pairs|
    && (forall k :: 0 <= k < |at| ==> at[k] < |vars| && pairs[k] == Pair(vars[at[k]].name, vars[at[k]].value))
    && forall k, l :: 0 <= k < l < |at| ==> at[k] < at[l]
  }

  /** Delivered are the variables of every place but those of somebody's own secrets file, in order. */
  ghost predicate AllButSecrets(vars: seq<EnvVar>, pairs: seq<Pair>, at: seq<nat>) {
    StandAt(vars, pairs, at) && forall i: nat :: i < |vars| ==> (i in at <==> vars[i].origin != Machine)
  }

  lemma {:induction false} DeliveredOfFront(front: seq<EnvVar>, last: EnvVar)
    ensures Delivered(front + [last])
      == Delivered(front) + if last.origin == Machine then [] else [Pair(last.name, last.value)]
  {
    if front == [] {
      OneDelivered(last);
      assert [] + [last] == [last];
    } else {
      var (rest, all) := (front[1..], front + [last]);
      DeliveredOfFront(rest, last);
      assert all[1..] == rest + [last] && all[0] == front[0];
      var head := if front[0].origin == Machine then [] else [Pair(front[0].name, front[0].value)];
      var one := if last.origin == Machine then [] else [Pair(last.name, last.value)];
      assert Delivered(all) == head + Delivered(all[1..]) && Delivered(front) == head + Delivered(rest);
      hide *;
      Regrouped(head, Delivered(rest), one);
    }
  }

  lemma OneDelivered(last: EnvVar)
    ensures Delivered([]) == []
    ensures Delivered([last]) == if last.origin == Machine then [] else [Pair(last.name, last.value)]
  {
    assert [last][1..] == [];
  }

  lemma NoneDelivered()
    ensures AllButSecrets([], Delivered([]), [])
  {
  }

  lemma {:induction false} DeliveredExactly(vars: seq<EnvVar>)
    ensures exists at :: AllButSecrets(vars, Delivered(vars), at)
  {
    hide *;
    if vars == [] {
      NoneDelivered();
    } else {
      var n := |vars| - 1;
      var (front, last) := (vars[..n], vars[n]);
      DeliveredExactly(front);
      var at: seq<nat> :| AllButSecrets(front, Delivered(front), at);
      DeliveredOfFront(front, last);
      OneMoreDelivered(front, last, Delivered(front), at);
      assert vars == front + [last];
      var (one, place) := if last.origin == Machine then ([], []) else ([Pair(last.name, last.value)], [n]);
      assert AllButSecrets(vars, Delivered(vars), at + place);
    }
  }

  lemma OneMoreDelivered(front: seq<EnvVar>, last: EnvVar, pairs: seq<Pair>, at: seq<nat>)
    requires AllButSecrets(front, pairs, at)
    ensures
      var (one, place) := if last.origin == Machine then ([], []) else ([Pair(last.name, last.value)], [|front|]);
      AllButSecrets(front + [last], pairs + one, at + place)
  {
    var place := if last.origin == Machine then [] else [|front|];
    forall i: nat | i < |front| + 1
      ensures i in at + place <==> (front + [last])[i].origin != Machine
    {
      assert i in at ==> i < |front| by {
        if i in at {
          var k :| 0 <= k < |at| && at[k] == i;
        }
      }
    }
  }

  /** Somebody's own secrets do not show: two activations that differ in nothing else deliver the same. */
  lemma {:induction false} SecretsDoNotShow(vars: seq<EnvVar>, others: seq<EnvVar>)
    requires |vars| == |others|
    requires forall i :: 0 <= i < |vars| ==> vars[i] == others[i] || vars[i].origin == others[i].origin == Machine
    ensures Delivered(vars) == Delivered(others)
    ensures forall header :: DotenvOf(header, vars) == DotenvOf(header, others)
  {
    if vars != [] {
      SecretsDoNotShow(vars[1..], others[1..]);
    }
  }

  /** Between double quotes: nothing expands, nothing ends them, and every backslash is half of a pair. */
  predicate Inert(s: string) {
    if s == "" then true
    else if s[0] == '\\' then |s| >= 2 && s[1] != '\n' && Inert(s[2..])
    else s[0] != '"' && s[0] != '$' && s[0] != '`' && s[0] != '\n' && Inert(s[1..])
  }

  /** A reader of the file neither expands a reference in a value nor ends the value early. */
  lemma {:induction false} ValuesAreInert(value: string)
    ensures Inert(Escaped(value))
  {
    if value != "" {
      ValuesAreInert(value[1..]);
      InertBehind(value[0], Escaped(value[1..]));
    }
  }

  lemma InertBehind(c: char, rest: string)
    requires Inert(rest)
    ensures Inert(EscapedChar(c) + rest)
  {
    var s := EscapedChar(c) + rest;
    if |EscapedChar(c)| == 1 {
      assert s[1..] == rest;
    } else {
      assert s[2..] == rest;
    }
  }
}
