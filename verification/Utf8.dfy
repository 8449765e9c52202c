/** UTF-8 as the walk over its bytes finds it: a name is text exactly when it is the encoding of some
    sequence of Unicode scalar values, a character standing for each byte. */
module Utf8 {
  import opened Inputs

  /** A Unicode scalar value: any code point but the surrogates. */
  predicate IsScalar(n: nat) {
    n < 0xD800 || 0xE000 <= n < 0x11_0000
  }

  /** The bytes of one: section 3 of RFC 3629. */
  function Encoding(n: nat): (s: string)
    requires IsScalar(n)
    ensures s != ""
  {
    if n < 0x80 then [n as char]
    else if n < 0x800 then [(0xC0 + n / 64) as char, (0x80 + n % 64) as char]
    else if n < 0x1_0000 then [(0xE0 + n / 4096) as char, (0x80 + n / 64 % 64) as char, (0x80 + n % 64) as char]
    else [(0xF0 + n / 262144) as char, (0x80 + n / 4096 % 64) as char, (0x80 + n / 64 % 64) as char, (0x80 + n % 64) as char]
  }

  ghost predicate AreScalars(ns: seq<nat>) {
    forall n :: n in ns ==> IsScalar(n)
  }

  function Encoded(ns: seq<nat>): string
    requires AreScalars(ns)
  {
    if ns == [] then "" else
      assert ns[0] in ns;
      Encoding(ns[0]) + Encoded(ns[1..])
  }

  /** What a continuation byte carries. */
  predicate IsMore(c: char) {
    0x80 as char <= c <= 0xBF as char
  }

  function More(c: char): nat
    requires IsMore(c)
  {
    c as int - 0x80
  }

  /** The bytes of one value are such that what follows them decides. */
  lemma OneByte(s: string)
    requires |s| >= 1 && s[0] <= 0x7F as char && IsUtf8(s[1..])
    ensures IsUtf8(s)
  {
  }

  lemma TwoBytes(s: string)
    requires |s| >= 2 && 0xC2 as char <= s[0] <= 0xDF as char && IsMore(s[1]) && IsUtf8(s[2..])
    ensures IsUtf8(s)
  {
  }

  lemma ThreeBytes(s: string)
    requires |s| >= 3 && 0xE0 as char <= s[0] <= 0xEF as char && IsMore(s[1]) && IsMore(s[2]) && IsUtf8(s[3..])
    requires s[0] == 0xE0 as char ==> s[1] >= 0xA0 as char
    requires s[0] == 0xED as char ==> s[1] <= 0x9F as char
    ensures IsUtf8(s)
  {
  }

  lemma FourBytes(s: string)
    requires |s| >= 4 && 0xF0 as char <= s[0] <= 0xF4 as char && IsMore(s[1]) && IsMore(s[2]) && IsMore(s[3]) && IsUtf8(s[4..])
    requires s[0] == 0xF0 as char ==> s[1] >= 0x90 as char
    requires s[0] == 0xF4 as char ==> s[1] <= 0x8F as char
    ensures IsUtf8(s)
  {
  }

  lemma EncodingOfTwo(n: nat)
    requires 0x80 <= n < 0x800
    ensures var s := Encoding(n); |s| == 2 && 0xC2 as char <= s[0] <= 0xDF as char && IsMore(s[1])
  {
  }

  lemma EncodingOfThree(n: nat)
    requires 0x800 <= n < 0x1_0000 && IsScalar(n)
    ensures
      var s := Encoding(n);
      && |s| == 3 && 0xE0 as char <= s[0] <= 0xEF as char && IsMore(s[1]) && IsMore(s[2])
      && (s[0] == 0xE0 as char ==> s[1] >= 0xA0 as char) && (s[0] == 0xED as char ==> s[1] <= 0x9F as char)
  {
  }

  lemma EncodingOfFour(n: nat)
    requires 0x1_0000 <= n && IsScalar(n)
    ensures
      var s := Encoding(n);
      && |s| == 4 && 0xF0 as char <= s[0] <= 0xF4 as char && IsMore(s[1]) && IsMore(s[2]) && IsMore(s[3])
      && (s[0] == 0xF0 as char ==> s[1] >= 0x90 as char) && (s[0] == 0xF4 as char ==> s[1] <= 0x8F as char)
  {
  }

  lemma FirstIsText(n: nat, rest: string)
    requires IsScalar(n) && IsUtf8(rest)
    ensures IsUtf8(Encoding(n) + rest)
  {
    hide IsUtf8, IsMore;
    var (first, s) := (Encoding(n), Encoding(n) + rest);
    assert s[|first|..] == rest && s[..|first|] == first;
    if n < 0x80 {
      OneByte(s);
    } else {
      hide Encoding;
      if n < 0x800 {
        EncodingOfTwo(n);
        TwoBytes(s);
      } else if n < 0x1_0000 {
        EncodingOfThree(n);
        ThreeBytes(s);
      } else {
        EncodingOfFour(n);
        FourBytes(s);
      }
    }
  }

  lemma {:induction false} EncodedIsText(ns: seq<nat>)
    requires AreScalars(ns)
    ensures IsUtf8(Encoded(ns))
  {
    if ns != [] {
      assert ns[0] in ns;
      EncodedIsText(ns[1..]);
      FirstIsText(ns[0], Encoded(ns[1..]));
    }
  }

  /** How many bytes the first character of a text has. */
  function Length(s: string): nat
    requires s != ""
  {
    if s[0] <= 0x7F as char then 1 else if s[0] <= 0xDF as char then 2 else if s[0] <= 0xEF as char then 3 else 4
  }

  lemma OfTwo(a: char, b: char) returns (n: nat)
    requires 0xC2 as char <= a <= 0xDF as char && IsMore(b)
    ensures IsScalar(n) && Encoding(n) == [a, b]
  {
    var high := a as int - 0xC0;
    n := high * 64 + More(b);
    assert n / 64 == high && n % 64 == More(b);
  }

  lemma OfThree(a: char, b: char, c: char) returns (n: nat)
    requires 0xE0 as char <= a <= 0xEF as char && IsMore(b) && IsMore(c)
    requires a == 0xE0 as char ==> b >= 0xA0 as char
    requires a == 0xED as char ==> b <= 0x9F as char
    ensures IsScalar(n) && Encoding(n) == [a, b, c]
  {
    var high := a as int - 0xE0;
    n := high * 4096 + More(b) * 64 + More(c);
    assert n / 4096 == high && n / 64 == high * 64 + More(b) && n % 64 == More(c);
    assert n / 64 % 64 == More(b);
  }

  lemma OfFour(a: char, b: char, c: char, d: char) returns (n: nat)
    requires 0xF0 as char <= a <= 0xF4 as char && IsMore(b) && IsMore(c) && IsMore(d)
    requires a == 0xF0 as char ==> b >= 0x90 as char
    requires a == 0xF4 as char ==> b <= 0x8F as char
    ensures IsScalar(n) && Encoding(n) == [a, b, c, d]
  {
    var high := a as int - 0xF0;
    n := high * 262144 + More(b) * 4096 + More(c) * 64 + More(d);
    assert n / 262144 == high && n / 4096 == high * 64 + More(b);
    assert n / 64 == (high * 64 + More(b)) * 64 + More(c) && n % 64 == More(d);
    assert n / 4096 % 64 == More(b) && n / 64 % 64 == More(c);
  }

  /** What stands first in a text. */
  lemma FirstOfText(s: string)
    requires s != "" && IsUtf8(s)
    ensures Length(s) <= |s| && IsUtf8(s[Length(s)..])
    ensures Length(s) == 2 ==> 0xC2 as char <= s[0] <= 0xDF as char && IsMore(s[1])
    ensures Length(s) == 3 ==>
      && 0xE0 as char <= s[0] <= 0xEF as char && IsMore(s[1]) && IsMore(s[2])
      && (s[0] == 0xE0 as char ==> s[1] >= 0xA0 as char) && (s[0] == 0xED as char ==> s[1] <= 0x9F as char)
    ensures Length(s) == 4 ==>
      && 0xF0 as char <= s[0] <= 0xF4 as char && IsMore(s[1]) && IsMore(s[2]) && IsMore(s[3])
      && (s[0] == 0xF0 as char ==> s[1] >= 0x90 as char) && (s[0] == 0xF4 as char ==> s[1] <= 0x8F as char)
  {
  }

  lemma FirstDecodes(s: string) returns (n: nat)
    requires s != "" && IsUtf8(s)
    ensures IsScalar(n) && Length(s) <= |s| && Encoding(n) == s[..Length(s)] && IsUtf8(s[Length(s)..])
  {
    FirstOfText(s);
    hide IsUtf8;
    if Length(s) == 1 {
      n := s[0] as int;
    } else {
      hide Encoding;
      if Length(s) == 2 {
        n := OfTwo(s[0], s[1]);
      } else if Length(s) == 3 {
        n := OfThree(s[0], s[1], s[2]);
      } else {
        n := OfFour(s[0], s[1], s[2], s[3]);
      }
    }
  }

  lemma OneMoreEncoded(n: nat, rest: seq<nat>)
    requires IsScalar(n) && AreScalars(rest)
    ensures AreScalars([n] + rest) && Encoded([n] + rest) == Encoding(n) + Encoded(rest)
  {
    hide Encoding;
    assert ([n] + rest)[1..] == rest;
  }

  lemma NothingEncoded()
    ensures AreScalars([]) && Encoded([]) == ""
  {
  }

  /** Text is exactly what encodes some scalar values. */
  lemma {:induction false} TextExactly(s: string)
    ensures IsUtf8(s) <==> exists ns :: AreScalars(ns) && s == Encoded(ns)
    decreases |s|
  {
    hide *;
    if ns :| AreScalars(ns) && s == Encoded(ns) {
      EncodedIsText(ns);
    }
    if s == "" {
      NothingEncoded();
    } else if IsUtf8(s) {
      var n := FirstDecodes(s);
      var k := Length(s);
      TextExactly(s[k..]);
      var rest: seq<nat> :| AreScalars(rest) && s[k..] == Encoded(rest);
      OneMoreEncoded(n, rest);
      assert s == s[..k] + s[k..];
    }
  }
}
