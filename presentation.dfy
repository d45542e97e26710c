/** The pure presentation helpers of the schedule page (Schedule.tsx):
    the door-price fallback, currency formatting and the price inputs'
    normalisation, the weekday colour class and the table of time slots. */
module Presentation {
  import opened Optional
  import opened StringOrder
  import opened Numerals
  import opened EventModel

  // ---- currency

  lemma DigitsOfYen(s: string)
    ensures DigitsOf("¥" + s) == DigitsOf(s)
  {
    assert ("¥" + s)[0] == '¥' && ("¥" + s)[1..] == s;
  }

  /** The template `¥${n.toLocaleString()}`. */
  function YenAmount(n: nat): (r: string)
    ensures |r| > 1 && r[0] == '¥' && WellGrouped(r[1..]) && (r[1] == '0' <==> n == 0)
    ensures n == 0 ==> r == "¥0"
    ensures DigitsOf(r) != [] && Value(DigitsOf(r)) == n
  {
    var g := Grouped(n);
    DigitsOfYen(g);
    assert ("¥" + g)[1..] == g;
    assert n == 0 ==> "¥" + g == "¥0" by {
      if n == 0 {
        assert g == ['0'];
      }
    }
    "¥" + g
  }

  /** `formatCurrency`: the input's digits, read as one number, as a yen
      amount; an input without digits is returned as typed. */
  function FormatCurrency(value: string): (r: string)
    ensures DigitsOf(value) == [] ==> r == value
    ensures DigitsOf(value) != [] ==> r == YenAmount(Value(DigitsOf(value)))
  {
    match ParseInt(DigitsOf(value))
    case None => value
    case Some(n) => YenAmount(n)
  }

  /** A formatted amount reads back as the number of the input's digits. */
  lemma FormatCurrencyReadsBack(value: string)
    requires DigitsOf(value) != []
    ensures FormatCurrency(value)[0] == '¥' && WellGrouped(FormatCurrency(value)[1..])
    ensures Value(DigitsOf(FormatCurrency(value))) == Value(DigitsOf(value))
  {
  }

  /** Formatting an already formatted amount changes nothing. */
  lemma FormatCurrencyIdempotent(value: string)
    ensures FormatCurrency(FormatCurrency(value)) == FormatCurrency(value)
  {
    if DigitsOf(value) != [] {
      var n := Value(DigitsOf(value));
      assert FormatCurrency(YenAmount(n)) == YenAmount(n);
    }
  }

  /** The Adv./Door price inputs' `onChange`: keep the typed value when it
      has no digit, otherwise replace it by the yen amount of its digits. */
  function NormalisePriceInput(val: string): (r: string)
    ensures r == FormatCurrency(val)
  {
    var num := DigitsOf(val);
    if num != [] then YenAmount(Value(num)) else val
  }

  // ---- door price

  /** `getDoorPrice`: the stored door price when there is one, otherwise the
      advance price plus 500 yen, or "---" when the advance price has no
      number in it. */
  function DoorPrice(e: Event): (r: string)
    ensures Truthy(e.doorPrice) ==> r == e.doorPrice.value
    ensures !Truthy(e.doorPrice) && DigitsOf(e.ticketPrice.GetOr("")) == [] ==> r == "---"
    ensures !Truthy(e.doorPrice) && DigitsOf(e.ticketPrice.GetOr("")) != [] ==>
      |r| > 1 && r[0] == '¥' && WellGrouped(r[1..]) && r[1] != '0' &&
      Value(DigitsOf(r)) == Value(DigitsOf(e.ticketPrice.value)) + 500
  {
    if Truthy(e.doorPrice) then e.doorPrice.value
    else if !Truthy(e.ticketPrice) then "---"
    else match ParseInt(DigitsOf(e.ticketPrice.value))
      case None => "---"
      case Some(num) => YenAmount(num + 500)
  }

  /** A computed door price is already in the form the price inputs produce. */
  lemma DoorPriceFallbackIsFormatted(e: Event)
    requires !Truthy(e.doorPrice)
    ensures FormatCurrency(DoorPrice(e)) == DoorPrice(e)
  {
    if DoorPrice(e) == "---" {
      assert DigitsOf("---") == [] by {
        var t := "---";
        assert forall i :: 0 <= i < |t| ==> !IsDigit(t[i]);
      }
    } else {
      assert DigitsOf(e.ticketPrice.GetOr("")) != [];
      FormatCurrencyIdempotent(e.ticketPrice.value);
      assert DoorPrice(e) == YenAmount(Value(DigitsOf(e.ticketPrice.value)) + 500);
      assert FormatCurrency(YenAmount(Value(DigitsOf(e.ticketPrice.value)) + 500)) == DoorPrice(e);
    }
  }

  /** An advance price as the price input writes it, `¥` and the grouped
      amount n, gives the door price n + 500 written the same way. */
  lemma DoorPriceOfFormatted(e: Event, n: nat)
    requires !Truthy(e.doorPrice) && e.ticketPrice == Some(YenAmount(n))
    ensures DoorPrice(e) == YenAmount(n + 500)
  {
  }

  /** `toLocaleString` of a whole number of hundreds between 1,000 and 9,900. */
  lemma YenThousands(k: nat, h: nat)
    requires 1 <= k <= 9 && h <= 9
    ensures YenAmount(k * 1000 + h * 100) == ['¥', DigitChar(k), ',', DigitChar(h), '0', '0']
  {
    var n := k * 1000 + h * 100;
    assert n / 1000 == k && n % 1000 == h * 100;
    assert Pad3(h * 100) == [DigitChar(h), '0', '0'] by {
      assert h * 100 / 100 == h && h * 100 / 10 % 10 == 0 && h * 100 % 10 == 0;
    }
    assert Grouped(k) == [DigitChar(k)];
    assert Grouped(n) == Grouped(k) + "," + Pad3(h * 100);
  }

  /** The worked example: an advance price of "¥2,000" without a door price
      shows a door price of "¥2,500". */
  lemma DoorPriceExample(e: Event)
    requires e.ticketPrice == Some("¥2,000") && e.doorPrice == None
    ensures DoorPrice(e) == "¥2,500"
  {
    YenThousands(2, 0);
    YenThousands(2, 5);
    DoorPriceOfFormatted(e, 2000);
  }

  // ---- weekday colour

  datatype Weekday = Sunday | Monday | Tuesday | Wednesday | Thursday | Friday | Saturday

  /** `getDayColor`, given whether the date is a Japanese public holiday and
      its day of the week. */
  function DayColor(isHoliday: bool, day: Weekday): (r: string)
    ensures r in {"text-red-500", "text-blue-500", "text-zinc-500"}
    ensures r == "text-red-500" <==> isHoliday || day == Sunday
    ensures r == "text-blue-500" <==> !isHoliday && day == Saturday
  {
    if isHoliday then "text-red-500"
    else if day == Sunday then "text-red-500"
    else if day == Saturday then "text-blue-500"
    else "text-zinc-500"
  }

  // ---- time slots

  /** `s.padStart(2, '0')` */
  function PadStart2(s: string): string {
    if |s| >= 2 then s else seq(2 - |s|, _ => '0') + s
  }

  /** Entry `i` of `TIME_OPTIONS`: "HH:MM" with HH = i div 4 and
      MM = (i mod 4) * 15, each written with two digits. */
  function TimeOption(i: nat): (r: string)
    requires i < 96
    ensures |r| == 5 && r[2] == ':'
    ensures AllDigits(r[..2]) && Value(r[..2]) == i / 4
    ensures AllDigits(r[3..]) && Value(r[3..]) == i % 4 * 15
  {
    var h, m := PadStart2(ShortDecimal(i / 4)), PadStart2(ShortDecimal(i % 4 * 15));
    Pad2Facts(i / 4);
    Pad2Facts(i % 4 * 15);
    assert (h + ":" + m)[..2] == h && (h + ":" + m)[3..] == m;
    h + ":" + m
  }

  /** `TIME_OPTIONS`: the 96 quarter hours of a day. */
  function TimeOptions(): (r: seq<string>)
    ensures |r| == 96
    ensures forall i :: 0 <= i < 96 ==> r[i] == TimeOption(i)
  {
    seq(96, i requires 0 <= i < 96 => TimeOption(i))
  }

  lemma Pad2Facts(n: nat)
    requires n < 100
    ensures PadStart2(ShortDecimal(n)) == [DigitChar(n / 10), DigitChar(n % 10)]
    ensures AllDigits(PadStart2(ShortDecimal(n))) && Value(PadStart2(ShortDecimal(n))) == n
  {
    ValueOfTwo(DigitChar(n / 10), DigitChar(n % 10));
  }

  lemma TimeOptionsEnds()
    ensures TimeOptions()[0] == "00:00" && TimeOptions()[95] == "23:45"
  {
    Pad2Facts(0);
    Pad2Facts(23);
    Pad2Facts(45);
  }

  /** Minutes of the day of a slot written by `TimeOption`. */
  lemma SlotNumberOrder(i: nat, j: nat)
    requires i < j < 96
    ensures (i / 4) * 100 + i % 4 * 15 < (j / 4) * 100 + j % 4 * 15
  {
    var a, b, c, d := i / 4, i % 4, j / 4, j % 4;
    assert i == 4 * a + b && j == 4 * c + d;
    assert a < c || (a == c && b < d);
  }

  /** Two "HH:MM" strings compare as the times they write. */
  lemma ClockOrder(s: string, t: string)
    requires |s| == 5 && |t| == 5 && s[2] == ':' && t[2] == ':'
    requires AllDigits(s[..2]) && AllDigits(s[3..]) && AllDigits(t[..2]) && AllDigits(t[3..])
    requires Value(s[..2]) * 100 + Value(s[3..]) < Value(t[..2]) * 100 + Value(t[3..])
    ensures LexLessEq(s, t) && s != t
  {
    var sh, sm, th, tm := s[..2], s[3..], t[..2], t[3..];
    assert s == sh + [':'] + sm && t == th + [':'] + tm;
    LexSkipCommon(sh, sm, th, tm, ':');
    ValueConcat(sh, sm);
    ValueConcat(th, tm);
    assert Pow10(2) == 100;
    DigitStringOrder(sh + sm, th + tm);
  }

  /** The slots are strictly increasing in string order, so they are
      distinct and the list is sorted. */
  lemma {:induction false} TimeOptionsIncreasing(i: nat, j: nat)
    requires i < j < 96
    ensures LexLessEq(TimeOptions()[i], TimeOptions()[j]) && TimeOptions()[i] != TimeOptions()[j]
  {
    SlotNumberOrder(i, j);
    ClockOrder(TimeOptions()[i], TimeOptions()[j]);
  }
}
