/** Decimal digits as the presentation code handles them: the digit run that
    `replace(/[^0-9]/g, '')` leaves, `parseInt` of such a run, `toString` of a
    small number, and `toLocaleString` grouping (a comma every three digits). */
module Numerals {
  import opened Optional
  import opened StringOrder

  predicate IsDigit(c: char) {
    '0' <= c <= '9'
  }

  function DigitValue(c: char): nat
    requires IsDigit(c)
  {
    c as int - '0' as int
  }

  function DigitChar(d: nat): (c: char)
    requires d < 10
    ensures IsDigit(c) && DigitValue(c) == d
  {
    ('0' as int + d) as char
  }

  predicate AllDigits(s: string) {
    forall i :: 0 <= i < |s| ==> IsDigit(s[i])
  }

  /** The characters of `s` matched by `[0-9]`, in their order. */
  function DigitsOf(s: string): (r: string)
    ensures AllDigits(r) && |r| <= |s|
    ensures r == [] <==> forall i :: 0 <= i < |s| ==> !IsDigit(s[i])
  {
    if s == [] then []
    else
      var rest := DigitsOf(s[1..]);
      assert forall i :: 1 <= i < |s| ==> s[i] == s[1..][i - 1];
      (if IsDigit(s[0]) then [s[0]] else []) + rest
  }

  function Pow10(n: nat): (r: nat)
    ensures r >= 1
  {
    if n == 0 then 1 else 10 * Pow10(n - 1)
  }

  /** The number a string of digits denotes in base 10 (leading zeros allowed). */
  function Value(s: string): nat
    requires AllDigits(s)
  {
    if s == [] then 0 else Value(s[..|s| - 1]) * 10 + DigitValue(s[|s| - 1])
  }

  /** `parseInt` applied to a run of digits: `NaN` (here `None`) for the empty
      run, its decimal value otherwise. */
  function ParseInt(d: string): (r: Option<nat>)
    requires AllDigits(d)
    ensures r.None? <==> d == []
    ensures r.Some? ==> r.value == Value(d) && r.value < Pow10(|d|)
  {
    if d == [] then None else ValueBound(d); Some(Value(d))
  }

  /** `n.toString()` for n below 1000: the shortest decimal numeral. */
  function ShortDecimal(n: nat): string
    requires n < 1000
  {
    if n < 10 then [DigitChar(n)]
    else if n < 100 then [DigitChar(n / 10), DigitChar(n % 10)]
    else Pad3(n)
  }

  /** A group of exactly three digits, zero-padded. */
  function Pad3(n: nat): string
    requires n < 1000
  {
    [DigitChar(n / 100), DigitChar(n / 10 % 10), DigitChar(n % 10)]
  }

  /** `n.toLocaleString()` with comma grouping every three digits: a
      well-grouped numeral without leading zero whose digits, read with the
      commas removed, are `n`. */
  function Grouped(n: nat): (r: string)
    ensures WellGrouped(r) && (r[0] == '0' <==> n == 0)
    ensures r[0] == '0' ==> r == "0"
    ensures DigitsOf(r) != [] && Value(DigitsOf(r)) == n
    decreases n
  {
    if n < 1000 then
      ShortDecimalFacts(n);
      DigitsOfAllDigits(ShortDecimal(n));
      assert n == 0 ==> ShortDecimal(n) == ['0'];
      ShortDecimal(n)
    else
      var q, m := n / 1000, n % 1000;
      var g := Grouped(q);
      Pad3Facts(m);
      AppendGroup(g, Pad3(m));
      DigitsOfGroups(g, Pad3(m));
      ValueConcat(DigitsOf(g), Pad3(m));
      assert Pow10(3) == 1000;
      assert Value(DigitsOf(g) + Pad3(m)) == q * 1000 + m;
      g + "," + Pad3(m)
  }

  /** Digits and commas, a digit first, and a comma exactly at the positions
      that are a multiple of four from the end: groups of three digits,
      the leading group of one to three. */
  predicate WellGrouped(r: string) {
    && |r| > 0
    && IsDigit(r[0])
    && forall i :: 0 <= i < |r| ==> (r[i] == ',' <==> (|r| - i) % 4 == 0) && (r[i] == ',' || IsDigit(r[i]))
  }

  // ---- digits of concatenations

  lemma {:induction false} DigitsOfConcat(a: string, b: string)
    ensures DigitsOf(a + b) == DigitsOf(a) + DigitsOf(b)
    decreases |a|
  {
    if a == [] {
      assert a + b == b;
    } else {
      var h := if IsDigit(a[0]) then [a[0]] else [];
      assert (a + b)[0] == a[0] && (a + b)[1..] == a[1..] + b;
      assert DigitsOf(a + b) == h + DigitsOf(a[1..] + b);
      assert DigitsOf(a) == h + DigitsOf(a[1..]);
      DigitsOfConcat(a[1..], b);
      assert h + (DigitsOf(a[1..]) + DigitsOf(b)) == (h + DigitsOf(a[1..])) + DigitsOf(b);
    }
  }

  lemma {:induction false} DigitsOfAllDigits(s: string)
    requires AllDigits(s)
    ensures DigitsOf(s) == s
    decreases |s|
  {
    if s != [] {
      DigitsOfAllDigits(s[1..]);
      assert s == [s[0]] + s[1..];
    }
  }

  // ---- value of digit strings

  lemma {:induction false} ValueConcat(a: string, b: string)
    requires AllDigits(a) && AllDigits(b)
    ensures AllDigits(a + b) && Value(a + b) == Value(a) * Pow10(|b|) + Value(b)
    decreases |b|
  {
    assert AllDigits(a + b) by {
      forall i | 0 <= i < |a + b| ensures IsDigit((a + b)[i]) {
        if i < |a| { assert (a + b)[i] == a[i]; } else { assert (a + b)[i] == b[i - |a|]; }
      }
    }
    if b == [] {
      assert a + b == a;
    } else {
      var b' := b[..|b| - 1];
      var d := DigitValue(b[|b| - 1]);
      assert (a + b)[..|a + b| - 1] == a + b';
      assert (a + b)[|a + b| - 1] == b[|b| - 1];
      ValueConcat(a, b');
      assert Value(a + b) == Value(a + b') * 10 + d;
      assert Value(b) == Value(b') * 10 + d;
      assert Pow10(|b|) == Pow10(|b'|) * 10;
      ShiftDigit(Value(a), Pow10(|b'|), Value(b'), d);
    }
  }

  lemma ShiftDigit(v: nat, p: nat, w: nat, d: nat)
    ensures (v * p + w) * 10 + d == v * (p * 10) + (w * 10 + d)
  {
  }

  lemma {:induction false} ValueBound(s: string)
    requires AllDigits(s)
    ensures Value(s) < Pow10(|s|)
    decreases |s|
  {
    if s != [] {
      ValueBound(s[..|s| - 1]);
    }
  }

  /** The leading digit weighs `Pow10(|s| - 1)`. */
  lemma ValueFront(s: string)
    requires AllDigits(s) && s != []
    ensures Value(s) == DigitValue(s[0]) * Pow10(|s| - 1) + Value(s[1..])
  {
    var h, t := [s[0]], s[1..];
    assert Value(h) == DigitValue(s[0]) by {
      assert h[..0] == [] && h[0] == s[0];
    }
    assert s == h + t;
    ValueConcat(h, t);
  }

  /** A smaller leading digit makes a smaller number, whatever follows it. */
  lemma LeadingDigitDecides(x: nat, y: nat, p: nat, u: nat, v: nat)
    requires x < y && u < p
    ensures x * p + u < y * p + v
  {
    assert (x + 1) * p <= y * p;
  }

  /** For digit strings of equal length the string order is the numeric order. */
  lemma {:induction false} DigitStringOrder(a: string, b: string)
    requires |a| == |b| && AllDigits(a) && AllDigits(b)
    ensures LexLessEq(a, b) <==> Value(a) <= Value(b)
    decreases |a|
  {
    if a != [] {
      var p := Pow10(|a| - 1);
      ValueFront(a);
      ValueFront(b);
      ValueBound(a[1..]);
      ValueBound(b[1..]);
      var x, y := DigitValue(a[0]), DigitValue(b[0]);
      if a[0] == b[0] {
        DigitStringOrder(a[1..], b[1..]);
      } else if a[0] < b[0] {
        LeadingDigitDecides(x, y, p, Value(a[1..]), Value(b[1..]));
      } else {
        LeadingDigitDecides(y, x, p, Value(b[1..]), Value(a[1..]));
      }
    }
  }

  // ---- grouping

  lemma ThreeDigits(m: nat)
    requires m < 1000
    ensures m == (m / 100) * 100 + (m / 10 % 10) * 10 + m % 10
  {
    var t, u := m / 10, m % 10;
    assert m == 10 * t + u;
    assert t == 10 * (t / 10) + t % 10;
    assert m == 100 * (t / 10) + (10 * (t % 10) + u);
    assert t / 10 == m / 100;
  }

  lemma ValueOfTwo(c0: char, c1: char)
    requires IsDigit(c0) && IsDigit(c1)
    ensures AllDigits([c0, c1]) && Value([c0, c1]) == DigitValue(c0) * 10 + DigitValue(c1)
  {
    assert [c0, c1][..1] == [c0] && [c0][..0] == [];
    assert Value([c0]) == DigitValue(c0);
  }

  lemma ValueOfThree(c0: char, c1: char, c2: char)
    requires IsDigit(c0) && IsDigit(c1) && IsDigit(c2)
    ensures AllDigits([c0, c1, c2])
    ensures Value([c0, c1, c2]) == DigitValue(c0) * 100 + DigitValue(c1) * 10 + DigitValue(c2)
  {
    assert [c0, c1, c2][..2] == [c0, c1];
    ValueOfTwo(c0, c1);
  }

  lemma Pad3Facts(m: nat)
    requires m < 1000
    ensures |Pad3(m)| == 3 && AllDigits(Pad3(m)) && Value(Pad3(m)) == m
  {
    ValueOfThree(DigitChar(m / 100), DigitChar(m / 10 % 10), DigitChar(m % 10));
    ThreeDigits(m);
  }

  lemma ShortDecimalFacts(n: nat)
    requires n < 1000
    ensures 1 <= |ShortDecimal(n)| <= 3 && AllDigits(ShortDecimal(n)) && Value(ShortDecimal(n)) == n
    ensures n > 0 ==> ShortDecimal(n)[0] != '0'
  {
    if n < 10 {
      assert ShortDecimal(n)[..0] == [];
    } else if n < 100 {
      ValueOfTwo(DigitChar(n / 10), DigitChar(n % 10));
    } else {
      Pad3Facts(n);
    }
  }

  lemma DigitsOfGroups(g: string, p: string)
    requires AllDigits(p)
    ensures DigitsOf(g + "," + p) == DigitsOf(g) + p
  {
    var comma: string := ",";
    assert DigitsOf(comma) == [] by {
      assert !IsDigit(comma[0]) && comma[1..] == [];
    }
    var gc := g + comma;
    assert g + "," + p == gc + p;
    DigitsOfConcat(gc, p);
    DigitsOfConcat(g, comma);
    assert DigitsOf(gc) == DigitsOf(g);
    DigitsOfAllDigits(p);
  }

  /** Appending a comma and a full group of three keeps the grouped shape. */
  lemma AppendGroup(g: string, p: string)
    requires WellGrouped(g) && |p| == 3 && AllDigits(p)
    ensures WellGrouped(g + "," + p) && (g + "," + p)[0] == g[0]
  {
    var r := g + "," + p;
    forall i | 0 <= i < |r|
      ensures (r[i] == ',' <==> (|r| - i) % 4 == 0) && (r[i] == ',' || IsDigit(r[i]))
    {
      if i < |g| {
        assert r[i] == g[i];
        assert |r| - i == (|g| - i) + 4;
      } else if i > |g| {
        assert r[i] == p[i - |g| - 1];
      }
    }
  }
}
