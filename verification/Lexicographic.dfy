/** Dictionary order over sequences, from an order over their elements. It is total and
    antisymmetric when the order of the elements is, which is what sorting by path, and by
    path, mode and id, needs. */
module Lexicographic {
  import opened Sorting

  predicate LexLeq<T(==)>(a: seq<T>, b: seq<T>, leq: (T, T) -> bool) {
    a == [] || (b != [] && (if a[0] == b[0] then LexLeq(a[1..], b[1..], leq) else leq(a[0], b[0])))
  }

  lemma {:induction false} LexConnected<T(!new)>(a: seq<T>, b: seq<T>, leq: (T, T) -> bool)
    requires Connected(leq)
    ensures LexLeq(a, b, leq) || LexLeq(b, a, leq)
  {
    if a != [] && b != [] && a[0] == b[0] {
      LexConnected(a[1..], b[1..], leq);
    }
  }

  lemma {:induction false} LexAntiSymmetric<T(!new)>(a: seq<T>, b: seq<T>, leq: (T, T) -> bool)
    requires AntiSymmetric(leq)
    requires LexLeq(a, b, leq) && LexLeq(b, a, leq)
    ensures a == b
  {
    if a != [] && b != [] {
      assert a[0] == b[0];
      LexAntiSymmetric(a[1..], b[1..], leq);
      assert a == [a[0]] + a[1..] && b == [b[0]] + b[1..];
    }
  }

  lemma {:induction false} LexTransitive<T(!new)>(a: seq<T>, b: seq<T>, c: seq<T>, leq: (T, T) -> bool)
    requires Transitive(leq) && AntiSymmetric(leq)
    requires LexLeq(a, b, leq) && LexLeq(b, c, leq)
    ensures LexLeq(a, c, leq)
  {
    if a != [] {
      if a[0] == b[0] && b[0] == c[0] {
        LexTransitive(a[1..], b[1..], c[1..], leq);
      }
    }
  }

  function LexOrder<T(==)>(leq: (T, T) -> bool): (seq<T>, seq<T>) -> bool {
    (a: seq<T>, b: seq<T>) => LexLeq(a, b, leq)
  }

  lemma LexIsTotalOrder<T(!new)>(leq: (T, T) -> bool)
    requires TotalOrder(leq)
    ensures TotalOrder(LexOrder(leq))
  {
    var lex := LexOrder(leq);
    forall a, b ensures lex(a, b) || lex(b, a) {
      LexConnected(a, b, leq);
    }
    forall a, b, c | lex(a, b) && lex(b, c) ensures lex(a, c) {
      LexTransitive(a, b, c, leq);
    }
    forall a, b | lex(a, b) && lex(b, a) ensures a == b {
      LexAntiSymmetric(a, b, leq);
    }
  }

  const CHAR_ORDER: (char, char) -> bool := (a: char, b: char) => a <= b

  /** Text, compared character by character. */
  const TEXT_ORDER: (string, string) -> bool := LexOrder(CHAR_ORDER)

  /** Paths, compared component by component. */
  const PATH_ORDER: (seq<string>, seq<string>) -> bool := LexOrder(TEXT_ORDER)

  lemma TextIsTotalOrder()
    ensures TotalOrder(TEXT_ORDER)
  {
    LexIsTotalOrder(CHAR_ORDER);
  }
}
