/** Lines as `str::lines` gives them: split at every newline, the last one ending the last line,
    and a carriage return before a newline is part of the line ending. A text that ends in a
    newline has no empty line after it. */
module Lines {

  /** Where the first newline is; the whole length when there is none. */
  function NewlineAt(s: string): (i: nat)
    ensures i <= |s|
    ensures '\n' !in s[..i]
    ensures i < |s| ==> s[i] == '\n'
  {
    if s == "" || s[0] == '\n' then 0 else
      var i := 1 + NewlineAt(s[1..]);
      assert s[..i] == [s[0]] + s[1..][..i - 1];
      i
  }

  function WithoutReturn(line: string): string {
    if line != "" && line[|line| - 1] == '\r' then line[..|line| - 1] else line
  }

  function Lines(s: string): seq<string>
    decreases |s|
  {
    if s == "" then []
    else
      var i := NewlineAt(s);
      if i == |s| then [s] else [WithoutReturn(s[..i])] + Lines(s[i + 1..])
  }

  /** Each line with the newline that ends it. */
  function Ended(lines: seq<string>): string {
    if lines == [] then "" else lines[0] + "\n" + Ended(lines[1..])
  }

  predicate IsLine(line: string) {
    '\n' !in line && WithoutReturn(line) == line
  }

  lemma NewlineEnds(line: string, rest: string)
    requires '\n' !in line
    ensures NewlineAt(line + "\n" + rest) == |line|
  {
    var s := line + "\n" + rest;
    var i := NewlineAt(s);
    assert s[|line|] == '\n' && forall k :: 0 <= k < |line| ==> s[k] == line[k];
    assert forall k :: 0 <= k < i ==> s[k] in s[..i];
  }

  lemma FirstOfLines(line: string, rest: string)
    requires '\n' !in line
    ensures Lines(line + "\n" + rest) == [WithoutReturn(line)] + Lines(rest)
  {
    var s := line + "\n" + rest;
    NewlineEnds(line, rest);
    assert s[..|line|] == line && s[|line| + 1..] == rest;
  }

  /** A text is one unended line, or a line, its newline and the rest. */
  lemma LineThenRest(s: string) returns (line: string, rest: string)
    requires '\n' in s
    ensures '\n' !in line && s == line + "\n" + rest
  {
    var i := NewlineAt(s);
    assert s[..|s|] == s;
    line, rest := s[..i], s[i + 1..];
  }

  lemma OnlyLine(s: string)
    requires '\n' !in s && s != ""
    ensures Lines(s) == [s]
  {
    assert forall i :: 0 <= i < |s| ==> s[i] in s;
  }

  /** Lines written one after another are read back, with whatever follows them. */
  lemma {:induction false} LinesOfEnded(lines: seq<string>, rest: string)
    requires forall l :: l in lines ==> IsLine(l)
    ensures Lines(Ended(lines) + rest) == lines + Lines(rest)
  {
    hide Lines;
    if lines == [] {
      assert Ended(lines) + rest == rest;
    } else {
      LinesOfEnded(lines[1..], rest);
      assert IsLine(lines[0]);
      FirstOfLines(lines[0], Ended(lines[1..]) + rest);
      assert Ended(lines) + rest == lines[0] + "\n" + (Ended(lines[1..]) + rest);
      assert lines == [lines[0]] + lines[1..];
    }
  }

  lemma {:induction false} EndedJoins(a: seq<string>, b: seq<string>)
    ensures Ended(a + b) == Ended(a) + Ended(b)
  {
    if a == [] {
      assert a + b == b;
    } else {
      EndedJoins(a[1..], b);
      assert (a + b)[1..] == a[1..] + b;
    }
  }

  lemma Regrouped<T>(a: seq<T>, b: seq<T>, c: seq<T>)
    ensures a + b + c == a + (b + c)
  {
  }

  lemma EndedWithOneMore(a: seq<string>, line: string)
    ensures Ended(a + [line]) == Ended(a) + (line + "\n")
  {
    EndedJoins(a, [line]);
    assert Ended([line]) == line + "\n" + "";
  }
}
