/** One digest: SHA-256 over length-prefixed fields, in lowercase hex. A text stands for its
    bytes, a character for the byte of that value. */
module Digest {
  import opened Wrappers

  type Byte = b: int | 0 <= b < 256 witness 0

  /** The hash as it is used: some function from bytes to bytes. */
  type Hash = string -> seq<Byte>

  /** No two of these hash alike. */
  ghost predicate CollisionFree(hash: Hash, of: set<string>) {
    forall a, b :: a in of && b in of && hash(a) == hash(b) ==> a == b
  }

  // Length prefixes.

  function Power(k: nat): nat {
    if k == 0 then 1 else 256 * Power(k - 1)
  }

  /** `n` as `k` bytes, the most significant first. */
  function BigEndian(n: nat, k: nat): (s: string)
    ensures |s| == k
  {
    if k == 0 then "" else BigEndian(n / 256, k - 1) + [(n % 256) as char]
  }

  lemma {:induction false} BigEndianIsExact(a: nat, b: nat, k: nat)
    requires a < Power(k) && b < Power(k)
    requires BigEndian(a, k) == BigEndian(b, k)
    ensures a == b
  {
    if k > 0 {
      var x, y := BigEndian(a, k), BigEndian(b, k);
      assert x[k - 1] == (a % 256) as char && y[k - 1] == (b % 256) as char;
      assert x[..k - 1] == BigEndian(a / 256, k - 1) && y[..k - 1] == BigEndian(b / 256, k - 1);
      BigEndianIsExact(a / 256, b / 256, k - 1);
    }
  }

  /** Short enough for its length to be written in eight bytes, as every slice is. */
  predicate Fits(s: string) {
    |s| < Power(8)
  }

  function Field(s: string): string {
    BigEndian(|s|, 8) + s
  }

  function Fields(fs: seq<string>): string {
    if fs == [] then "" else Field(fs[0]) + Fields(fs[1..])
  }

  lemma FirstField(a: string, x: string, b: string, y: string)
    requires Fits(a) && Fits(b)
    requires Field(a) + x == Field(b) + y
    ensures a == b && x == y
  {
    hide Power, BigEndian;
    var s, t := Field(a) + x, Field(b) + y;
    assert s[..8] == BigEndian(|a|, 8) && t[..8] == BigEndian(|b|, 8);
    BigEndianIsExact(|a|, |b|, 8);
    assert s[8..8 + |a|] == a && t[8..8 + |b|] == b;
    assert s[8 + |a|..] == x && t[8 + |b|..] == y;
  }

  ghost predicate AllFit(fs: seq<string>) {
    forall f :: f in fs ==> Fits(f)
  }

  /** No two sequences of fields are written alike. */
  lemma {:induction false} FieldsAreExact(a: seq<string>, b: seq<string>)
    requires AllFit(a) && AllFit(b)
    requires Fields(a) == Fields(b)
    ensures a == b
  {
    hide Fits;
    if a != [] && b != [] {
      assert a[0] in a && b[0] in b;
      FirstField(a[0], Fields(a[1..]), b[0], Fields(b[1..]));
      FieldsAreExact(a[1..], b[1..]);
      assert a == [a[0]] + a[1..] && b == [b[0]] + b[1..];
    }
  }

  lemma {:induction false} FieldsJoin(a: seq<string>, b: seq<string>)
    ensures Fields(a + b) == Fields(a) + Fields(b)
  {
    hide Field;
    if a == [] {
      assert a + b == b;
    } else {
      FieldsJoin(a[1..], b);
      assert (a + b)[1..] == a[1..] + b;
      var first, x, y := Field(a[0]), Fields(a[1..]), Fields(b);
      assert Fields(a + b) == first + (x + y);
      hide Fields;
      assert first + (x + y) == first + x + y;
    }
  }

  // Hex.

  function Nibble(n: nat): char
    requires n < 16
  {
    if n <= 9 then '0' + n as char else 'a' + (n - 10) as char
  }

  function Hex(bytes: seq<Byte>): (s: string)
    ensures |s| == 2 * |bytes|
  {
    if bytes == [] then "" else [Nibble(bytes[0] / 16), Nibble(bytes[0] % 16)] + Hex(bytes[1..])
  }

  lemma {:induction false} HexIsExact(a: seq<Byte>, b: seq<Byte>)
    requires Hex(a) == Hex(b)
    ensures a == b
  {
    if a != [] && b != [] {
      var x, y := Hex(a), Hex(b);
      assert x[0] == Nibble(a[0] / 16) && y[0] == Nibble(b[0] / 16);
      assert x[1] == Nibble(a[0] % 16) && y[1] == Nibble(b[0] % 16);
      assert x[2..] == Hex(a[1..]) && y[2..] == Hex(b[1..]);
      HexIsExact(a[1..], b[1..]);
      assert a == [a[0]] + a[1..] && b == [b[0]] + b[1..];
    }
  }

  /** What a lower-case hexadecimal digit stands for. */
  function DigitValue(c: char): Option<nat> {
    if '0' <= c <= '9' then Some(c as int - '0' as int)
    else if 'a' <= c <= 'f' then Some(c as int - 'a' as int + 10)
    else None
  }

  /** Two lower-case digits for each byte, the higher one first. */
  lemma {:induction false} HexSpellsBytes(bytes: seq<Byte>, i: nat)
    requires i < |bytes|
    ensures
      var (high, low) := (DigitValue(Hex(bytes)[2 * i]), DigitValue(Hex(bytes)[2 * i + 1]));
      high.Some? && low.Some? && bytes[i] == 16 * high.value + low.value
  {
    if i > 0 {
      HexSpellsBytes(bytes[1..], i - 1);
      assert Hex(bytes)[2..] == Hex(bytes[1..]);
    }
  }

  /** The digest of these fields. */
  function DigestOf(hash: Hash, fields: seq<string>): string {
    Hex(hash(Fields(fields)))
  }

  /** Where the hash does not collide, two digests are one exactly when their fields are. */
  lemma DigestIsExact(hash: Hash, of: set<string>, a: seq<string>, b: seq<string>)
    requires CollisionFree(hash, of) && Fields(a) in of && Fields(b) in of
    requires AllFit(a) && AllFit(b)
    ensures DigestOf(hash, a) == DigestOf(hash, b) <==> a == b
  {
    if DigestOf(hash, a) == DigestOf(hash, b) {
      HexIsExact(hash(Fields(a)), hash(Fields(b)));
      FieldsAreExact(a, b);
    }
  }

  /** A digest being taken, field by field. */
  class Hasher {
    var fed: string
    ghost var fields: seq<string>

    ghost predicate Valid()
      reads this
    {
      fed == Fields(fields)
    }

    constructor (domain: string)
      ensures Valid() && fields == [domain]
    {
      fed := BigEndian(|domain|, 8) + domain;
      fields := [domain];
      new;
      assert Fields([domain]) == Field(domain) + "";
    }

    method Feed(s: string)
      requires Valid()
      modifies this
      ensures Valid() && fields == old(fields) + [s]
    {
      FieldsJoin(fields, [s]);
      assert Fields([s]) == Field(s) + "";
      hide BigEndian, Fields;
      ghost var was := fed;
      fed := fed + BigEndian(|s|, 8);
      fed := fed + s;
      assert fed == was + Field(s);
      fields := fields + [s];
    }

    method Finish(hash: Hash) returns (hex: string)
      requires Valid()
      ensures hex == DigestOf(hash, fields)
    {
      var bytes := hash(fed);
      hex := "";
      for i := 0 to |bytes|
        invariant hex + Hex(bytes[i..]) == Hex(bytes)
      {
        assert bytes[i..][1..] == bytes[i + 1..];
        hex := hex + [Nibble(bytes[i] / 16), Nibble(bytes[i] % 16)];
      }
      assert bytes[|bytes|..] == [];
    }
  }
}
