/** The order on strings used for `ORDER BY date ASC`: SQLite's BINARY
    collation compares UTF-8 bytes, which is code-point order, character by
    character, with a proper prefix before the longer string. */
module StringOrder {

  /** `a` sorts before or equal to `b`. */
  predicate LexLessEq(a: string, b: string)
    decreases |a|
  {
    a == [] || (b != [] && (a[0] < b[0] || (a[0] == b[0] && LexLessEq(a[1..], b[1..]))))
  }

  lemma {:induction false} LexReflexive(a: string)
    ensures LexLessEq(a, a)
    decreases |a|
  {
    if a != [] {
      LexReflexive(a[1..]);
    }
  }

  lemma {:induction false} LexTransitive(a: string, b: string, c: string)
    requires LexLessEq(a, b) && LexLessEq(b, c)
    ensures LexLessEq(a, c)
    decreases |a|
  {
    if a != [] && b != [] && c != [] && a[0] == b[0] && b[0] == c[0] {
      LexTransitive(a[1..], b[1..], c[1..]);
    }
  }

  lemma {:induction false} LexTotal(a: string, b: string)
    ensures LexLessEq(a, b) || LexLessEq(b, a)
    decreases |a|
  {
    if a != [] && b != [] && a[0] == b[0] {
      LexTotal(a[1..], b[1..]);
    }
  }

  /** A character at the same position in both strings (the `-` of an ISO
      date, the `:` of a time) does not affect the comparison. */
  lemma {:induction false} LexSkipCommon(a1: string, a2: string, b1: string, b2: string, c: char)
    requires |a1| == |b1|
    ensures LexLessEq(a1 + [c] + a2, b1 + [c] + b2) == LexLessEq(a1 + a2, b1 + b2)
    decreases |a1|
  {
    var x, y, u, v := a1 + [c] + a2, b1 + [c] + b2, a1 + a2, b1 + b2;
    if a1 == [] {
      assert x[0] == c && x[1..] == a2 && u == a2;
      assert y[0] == c && y[1..] == b2 && v == b2;
    } else {
      LexSkipCommon(a1[1..], a2, b1[1..], b2, c);
      assert x[0] == u[0] == a1[0] && y[0] == v[0] == b1[0];
      assert x[1..] == a1[1..] + [c] + a2 && y[1..] == b1[1..] + [c] + b2;
      assert u[1..] == a1[1..] + a2 && v[1..] == b1[1..] + b2;
    }
  }
}
