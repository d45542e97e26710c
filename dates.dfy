/** Calendar dates as the events store them: "YYYY-MM-DD". Comparing two
    such dates as JavaScript `Date`s compares the day they name, which is the
    order of the number YYYYMMDD. */
module Dates {
  import opened Optional
  import opened StringOrder
  import opened Numerals

  /** Four digits, '-', two digits, '-', two digits. */
  predicate IsIsoShape(s: string) {
    && |s| == 10 && s[4] == '-' && s[7] == '-'
    && AllDigits(s[..4]) && AllDigits(s[5..7]) && AllDigits(s[8..])
  }

  /** The number YYYYMMDD written by an ISO date string. */
  function DayNumber(s: string): nat
    requires IsIsoShape(s)
  {
    ValueConcat(s[..4], s[5..7]);
    ValueConcat(s[..4] + s[5..7], s[8..]);
    Value(s[..4] + s[5..7] + s[8..])
  }

  /** The day a date string names, if it names one: an ISO date with a month
      from 01 to 12 and a day from 01 to 31. */
  function CalendarDay(s: string): (r: Option<nat>)
    ensures r.Some? <==> IsIsoShape(s) && 1 <= Value(s[5..7]) <= 12 && 1 <= Value(s[8..]) <= 31
    ensures r.Some? ==> r.value == Value(s[..4]) * 10000 + Value(s[5..7]) * 100 + Value(s[8..])
  {
    if IsIsoShape(s) && 1 <= Value(s[5..7]) <= 12 && 1 <= Value(s[8..]) <= 31 then
      ValueConcat(s[..4], s[5..7]);
      ValueConcat(s[..4] + s[5..7], s[8..]);
      assert Pow10(2) == 100;
      Some(DayNumber(s))
    else None
  }

  /** Sorting ISO dates as strings sorts them chronologically. */
  lemma {:induction false} IsoOrderIsDayOrder(a: string, b: string)
    requires IsIsoShape(a) && IsIsoShape(b)
    ensures LexLessEq(a, b) <==> DayNumber(a) <= DayNumber(b)
  {
    var a1, a2, a3 := a[..4], a[5..7], a[8..];
    var b1, b2, b3 := b[..4], b[5..7], b[8..];
    assert a == a1 + ['-'] + (a2 + ['-'] + a3);
    assert b == b1 + ['-'] + (b2 + ['-'] + b3);
    LexSkipCommon(a1, a2 + ['-'] + a3, b1, b2 + ['-'] + b3, '-');
    assert a1 + (a2 + ['-'] + a3) == (a1 + a2) + ['-'] + a3;
    assert b1 + (b2 + ['-'] + b3) == (b1 + b2) + ['-'] + b3;
    LexSkipCommon(a1 + a2, a3, b1 + b2, b3, '-');
    ValueConcat(a1, a2);
    ValueConcat(a1 + a2, a3);
    ValueConcat(b1, b2);
    ValueConcat(b1 + b2, b3);
    DigitStringOrder(a1 + a2 + a3, b1 + b2 + b3);
  }
}
