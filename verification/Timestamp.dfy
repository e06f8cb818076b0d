/** The text of a timestamp: `YYYY-MM-DDTHH:MM:SSZ`, the profile of section 5.6 of RFC 3339 that has
    no fraction and no offset. */
module Timestamp {
  import opened Order
  import opened Calendar

  // ---------- decimal numerals ----------

  function Digit(d: nat): char
    requires d < 10
  {
    '0' + d as char
  }

  // The decimal numeral of `n`, filled with zeros on the left up to `width` digits and never cut.
  function Padded(n: nat, width: nat): (s: string)
    decreases n + width
  {
    if n < 10 && width <= 1 then [Digit(n)]
    else Padded(n / 10, if width == 0 then 0 else width - 1) + [Digit(n % 10)]
  }

  function Numeral(s: string): nat {
    if s == [] then 0
    else 10 * Numeral(s[..|s| - 1]) + DigitValue(s[|s| - 1])
  }

  function DigitValue(c: char): nat {
    if '0' <= c <= '9' then c as int - '0' as int else 0
  }

  function Power10(w: nat): nat {
    if w == 0 then 1 else 10 * Power10(w - 1)
  }

  lemma {:induction false} NumeralOfPadded(n: nat, width: nat)
    ensures Numeral(Padded(n, width)) == n
    decreases n + width
  {
    if n < 10 && width <= 1 {
      assert Padded(n, width)[..0] == [];
    } else {
      var w: nat := if width == 0 then 0 else width - 1;
      NumeralOfPadded(n / 10, w);
      var s := Padded(n, width);
      assert s[..|s| - 1] == Padded(n / 10, w);
    }
  }

  lemma {:induction false} PaddedLength(n: nat, width: nat)
    ensures |Padded(n, width)| >= width
    ensures width >= 1 && n < Power10(width) ==> |Padded(n, width)| == width
    decreases n + width
  {
    if !(n < 10 && width <= 1) {
      PaddedLength(n / 10, if width == 0 then 0 else width - 1);
      if width == 1 {
        assert Power10(1) == 10;
      }
    }
  }

  // Numerals of one length compare as their numbers.
  lemma {:induction false} PaddedOrder(a: nat, b: nat, width: nat)
    requires a < b && width >= 1 && b < Power10(width)
    ensures Less(Padded(a, width), Padded(b, width))
  {
    if width == 1 {
      assert Power10(1) == 10;
    } else {
      PaddedLength(a / 10, width - 1);
      PaddedLength(b / 10, width - 1);
      var x, y := Padded(a / 10, width - 1), Padded(b / 10, width - 1);
      if a / 10 < b / 10 {
        PaddedOrder(a / 10, b / 10, width - 1);
        EarlierDifference(x, [Digit(a % 10)], y, [Digit(b % 10)]);
      } else {
        CommonPrefix(x, [Digit(a % 10)], [Digit(b % 10)]);
      }
    }
  }

  // ---------- the formatter ----------

  datatype Moment = Moment(date: Date, ofDay: nat)

  function MomentOf(secs: nat): Moment {
    Moment(Civil(secs / 86_400), secs % 86_400)
  }

  // The fields of a timestamp, from the year down to the second.
  function Parts(t: Moment): (p: seq<nat>) {
    [t.date.year, t.date.month, t.date.day, t.ofDay / 3600, (t.ofDay / 60) % 60, t.ofDay % 60]
  }

  const WIDTHS: seq<nat> := [4, 2, 2, 2, 2, 2]
  const MARKS: string := "--T::Z"

  // The first `k` fields, each with the mark behind it.
  function Text(t: Moment, k: nat): string
    requires k <= 6
  {
    if k == 0 then ""
    else Text(t, k - 1) + (Padded(Parts(t)[k - 1], WIDTHS[k - 1]) + [MARKS[k - 1]])
  }

  function FormatRfc3339(secs: nat): string {
    Text(MomentOf(secs), 6)
  }

  /** Reads a timestamp back from its end: five fields of two digits and a mark, then the year. */
  function Parse(s: string): (t: Moment)
    requires |s| >= 16
  {
    Moment(
      Date(Numeral(Front(s, 5)[..|s| - 16]), LastField(Front(s, 4)), LastField(Front(s, 3))),
      3600 * LastField(Front(s, 2)) + 60 * LastField(Front(s, 1)) + LastField(s))
  }

  function LastField(s: string): nat
    requires |s| >= 3
  {
    Numeral(s[|s| - 3..|s| - 1])
  }

  function Front(s: string, fields: nat): (r: string)
    requires |s| >= 3 * fields
    ensures |r| == |s| - 3 * fields
  {
    s[..|s| - 3 * fields]
  }

  predicate ValidMoment(t: Moment) {
    Valid(t.date) && t.ofDay < 86_400
  }

  function Seconds(t: Moment): nat
    requires ValidMoment(t)
  {
    86_400 * DayNumber(t.date) + t.ofDay
  }

  lemma MomentIsSeconds(secs: nat)
    ensures ValidMoment(MomentOf(secs)) && Seconds(MomentOf(secs)) == secs
  {
    CivilIsDayNumber(secs / 86_400);
  }

  lemma PartsFit(t: Moment)
    requires ValidMoment(t)
    ensures Parts(t)[3] < 24 && Parts(t)[4] < 60 && Parts(t)[5] < 60
    ensures forall k :: 1 <= k < 6 ==> Parts(t)[k] < Power10(2) == 100
    ensures 3600 * Parts(t)[3] + 60 * Parts(t)[4] + Parts(t)[5] == t.ofDay
  {
    assert Power10(1) == 10;
  }

  lemma LastOfText(t: Moment, k: nat)
    requires ValidMoment(t) && 2 <= k <= 6
    ensures |Text(t, k)| == |Text(t, k - 1)| + 3
    ensures Front(Text(t, k), 1) == Text(t, k - 1)
    ensures LastField(Text(t, k)) == Parts(t)[k - 1]
  {
    PartsFit(t);
    var p := Padded(Parts(t)[k - 1], 2);
    PaddedLength(Parts(t)[k - 1], 2);
    NumeralOfPadded(Parts(t)[k - 1], 2);
    var s := Text(t, k);
    assert s == Text(t, k - 1) + (p + [MARKS[k - 1]]);
    assert s[|s| - 3..|s| - 1] == p;
  }

  lemma {:induction false} FrontOfText(t: Moment, k: nat, n: nat)
    requires ValidMoment(t) && n < k <= 6
    ensures |Text(t, k)| >= 3 * n
    ensures Front(Text(t, k), n) == Text(t, k - n)
  {
    if n > 0 {
      FrontOfText(t, k, n - 1);
      LastOfText(t, k - n + 1);
    }
  }

  // The number of fields is held in a variable: for a literal the verifier would spell out the text.
  lemma ReadYear(t: Moment, k: nat)
    requires ValidMoment(t) && k == 6
    ensures |Text(t, k)| >= 20
    ensures Numeral(Front(Text(t, k), 5)[..|Text(t, k)| - 16]) == t.date.year
  {
    var year := Padded(t.date.year, 4);
    assert Text(t, 0) == "";
    assert Text(t, 1) == year + "-";
    PaddedLength(t.date.year, 4);
    NumeralOfPadded(t.date.year, 4);
    FrontOfText(t, k, 5);
    assert (year + "-")[..|year|] == year;
  }

  lemma ReadField(t: Moment, k: nat, n: nat)
    requires ValidMoment(t) && k == 6 && n < 5
    ensures |Text(t, k)| >= 20 && LastField(Front(Text(t, k), n)) == Parts(t)[5 - n]
  {
    FrontOfText(t, k, n);
    LastOfText(t, k - n);
    ReadYear(t, k);
  }

  // The fields of a text, read one by one.
  ghost predicate Reads(s: string, n: nat, field: nat) {
    |s| >= 20 && n < 5 && LastField(Front(s, n)) == field
  }

  ghost predicate ReadsYear(s: string, year: nat) {
    |s| >= 20 && Numeral(Front(s, 5)[..|s| - 16]) == year
  }

  lemma ParseOfText(t: Moment, k: nat)
    requires ValidMoment(t) && k == 6
    ensures |Text(t, k)| >= 20 && Parse(Text(t, k)) == t
  {
    ReadYear(t, k);
    assert ReadsYear(Text(t, k), t.date.year);
    FieldReads(t, k, 4);
    FieldReads(t, k, 3);
    FieldReads(t, k, 2);
    FieldReads(t, k, 1);
    FieldReads(t, k, 0);
    ParseOfFields(t, Text(t, k));
  }

  lemma FieldReads(t: Moment, k: nat, n: nat)
    requires ValidMoment(t) && k == 6 && n < 5
    ensures Reads(Text(t, k), n, Parts(t)[5 - n])
  {
    ReadField(t, k, n);
  }

  lemma ParseOfFields(t: Moment, s: string)
    requires ValidMoment(t) && ReadsYear(s, t.date.year)
    requires Reads(s, 4, Parts(t)[1]) && Reads(s, 3, Parts(t)[2])
    requires Reads(s, 2, Parts(t)[3]) && Reads(s, 1, Parts(t)[4]) && Reads(s, 0, Parts(t)[5])
    ensures Parse(s) == t
  {
    assert Front(s, 0) == s;
    PartsFit(t);
  }

  /** Every timestamp, of whatever year, reads back as a date and time of day that exist, and these
      count up to the seconds it was made from. */
  lemma FormatRoundTrip(secs: nat)
    ensures |FormatRfc3339(secs)| >= 20
    ensures ValidMoment(Parse(FormatRfc3339(secs))) && Seconds(Parse(FormatRfc3339(secs))) == secs
  {
    MomentIsSeconds(secs);
    ParseOfText(MomentOf(secs), 6);
  }

  predicate IsDigit(c: char) {
    '0' <= c <= '9'
  }

  lemma {:induction false} PaddedIsDigits(n: nat, width: nat)
    ensures forall i :: 0 <= i < |Padded(n, width)| ==> IsDigit(Padded(n, width)[i])
    decreases n + width
  {
    if !(n < 10 && width <= 1) {
      PaddedIsDigits(n / 10, if width == 0 then 0 else width - 1);
    }
  }

  // Two digits and a mark that end before position `end`.
  predicate FieldAt(s: string, end: int, mark: char) {
    3 <= end <= |s| && IsDigit(s[end - 3]) && IsDigit(s[end - 2]) && s[end - 1] == mark
  }

  predicate YearAt(s: string, end: int) {
    5 <= end <= |s| && s[end - 1] == '-' && forall i :: 0 <= i < end - 1 ==> IsDigit(s[i])
  }

  /** The form of section 5.6 of RFC 3339, with as many digits of the year as it needs. */
  predicate Rfc3339Shape(s: string) {
    && YearAt(s, |s| - 15) && FieldAt(s, |s| - 12, '-') && FieldAt(s, |s| - 9, 'T')
    && FieldAt(s, |s| - 6, ':') && FieldAt(s, |s| - 3, ':') && FieldAt(s, |s|, 'Z')
  }

  lemma LastFieldShape(t: Moment, k: nat)
    requires ValidMoment(t) && 2 <= k <= 6
    ensures FieldAt(Text(t, k), |Text(t, k)|, MARKS[k - 1])
  {
    PartsFit(t);
    PaddedLength(Parts(t)[k - 1], 2);
    PaddedIsDigits(Parts(t)[k - 1], 2);
  }

  lemma YearShape(t: Moment)
    ensures YearAt(Text(t, 1), |Text(t, 1)|)
  {
    assert Text(t, 0) == "";
    PaddedLength(t.date.year, 4);
    PaddedIsDigits(t.date.year, 4);
  }

  // A shape at the end of the front of a string is a shape within the string.
  lemma ShapeWithin(s: string, front: string, mark: char)
    requires front <= s
    ensures FieldAt(front, |front|, mark) ==> FieldAt(s, |front|, mark)
    ensures YearAt(front, |front|) ==> YearAt(s, |front|)
  {
  }

  lemma FieldInText(t: Moment, k: nat, n: nat)
    requires ValidMoment(t) && k == 6 && n < 5
    ensures FieldAt(Text(t, k), |Text(t, k)| - 3 * n, MARKS[5 - n])
  {
    FrontOfText(t, k, n);
    ShapeWithin(Text(t, k), Text(t, k - n), MARKS[5 - n]);
    LastFieldShape(t, k - n);
  }

  lemma YearInText(t: Moment, k: nat)
    requires ValidMoment(t) && k == 6
    ensures YearAt(Text(t, k), |Text(t, k)| - 15)
  {
    FrontOfText(t, k, 5);
    ShapeWithin(Text(t, k), Text(t, k - 5), MARKS[0]);
    YearShape(t);
  }

  lemma TextHasShape(t: Moment, k: nat)
    requires ValidMoment(t) && k == 6
    ensures Rfc3339Shape(Text(t, k))
  {
    FieldInText(t, k, 0);
    FieldInText(t, k, 1);
    FieldInText(t, k, 2);
    FieldInText(t, k, 3);
    FieldInText(t, k, 4);
    YearInText(t, k);
  }

  /** Every timestamp has the form of RFC 3339: digits for the year, two digits for every other field,
      and the marks between them; through the year 9999 it is exactly twenty characters long. */
  lemma FormatShape(secs: nat)
    ensures Rfc3339Shape(FormatRfc3339(secs))
    ensures secs <= LAST_FOUR_DIGIT ==> |FormatRfc3339(secs)| == 20
  {
    MomentIsSeconds(secs);
    TextHasShape(MomentOf(secs), 6);
    FourDigitYears(MomentOf(secs));
    if secs <= LAST_FOUR_DIGIT {
      FourDigitLength(MomentOf(secs), 6);
    }
  }

  // ---------- string order and time order ----------

  // 9999-12-31T23:59:59Z is the last timestamp with a year of four digits.
  const LAST_FOUR_DIGIT := 253_402_300_799

  predicate FirstDifference(t: Moment, u: Moment, k: nat)
    requires k < 6
  {
    Parts(t)[k] < Parts(u)[k] && Parts(t)[..k] == Parts(u)[..k]
  }

  lemma LaterDiffers(t: Moment, u: Moment) returns (k: nat)
    requires ValidMoment(t) && ValidMoment(u) && Seconds(t) < Seconds(u)
    ensures k < 6 && FirstDifference(t, u, k)
  {
    EarlierIsSmaller(t.date, u.date);
    EarlierIsSmaller(u.date, t.date);
    var x, y := t.date, u.date;
    if x != y {
      k := if x.year < y.year then 0 else if x.month < y.month then 1 else 2;
    } else {
      LaterInTheDay(t.ofDay, u.ofDay);
      k := if t.ofDay / 3600 < u.ofDay / 3600 then 3
           else if (t.ofDay / 60) % 60 < (u.ofDay / 60) % 60 then 4 else 5;
    }
  }

  lemma LaterInTheDay(i: nat, j: nat)
    requires i < j
    ensures i / 3600 <= j / 3600
    ensures i / 3600 == j / 3600 ==> (i / 60) % 60 <= (j / 60) % 60
    ensures i / 3600 == j / 3600 && (i / 60) % 60 == (j / 60) % 60 ==> i % 60 < j % 60
  {
    HourOfMinute(i);
    HourOfMinute(j);
  }

  lemma HourOfMinute(i: nat)
    ensures (i / 60) / 60 == i / 3600
  {
  }

  predicate FourDigitYear(t: Moment) {
    t.date.year < 10_000
  }

  lemma PartLength(t: Moment, k: nat)
    requires ValidMoment(t) && FourDigitYear(t) && k < 6
    ensures Parts(t)[k] < Power10(WIDTHS[k])
    ensures |Padded(Parts(t)[k], WIDTHS[k])| == WIDTHS[k]
  {
    PartsFit(t);
    assert Power10(4) == 10_000 by {
      assert Power10(3) == 1000;
    }
    PaddedLength(Parts(t)[k], WIDTHS[k]);
  }

  lemma {:induction false} FourDigitLength(t: Moment, k: nat)
    requires ValidMoment(t) && FourDigitYear(t) && k <= 6
    ensures |Text(t, k)| == if k == 0 then 0 else 3 * k + 2
  {
    if k > 0 {
      FourDigitLength(t, k - 1);
      PartLength(t, k - 1);
    }
  }

  lemma {:induction false} EqualParts(t: Moment, u: Moment, k: nat)
    requires k <= 6 && Parts(t)[..k] == Parts(u)[..k]
    ensures Text(t, k) == Text(u, k)
  {
    if k > 0 {
      assert Parts(t)[k - 1] == Parts(t)[..k][k - 1] == Parts(u)[k - 1];
      assert Parts(t)[..k - 1] == Parts(t)[..k][..k - 1] == Parts(u)[..k - 1];
      EqualParts(t, u, k - 1);
    }
  }

  lemma {:induction false} DifferenceOrders(t: Moment, u: Moment, first: nat, k: nat)
    requires ValidMoment(t) && ValidMoment(u) && FourDigitYear(t) && FourDigitYear(u)
    requires first < k <= 6 && FirstDifference(t, u, first)
    ensures Less(Text(t, k), Text(u, k))
  {
    var j := k - 1;
    var x, y := Padded(Parts(t)[j], WIDTHS[j]), Padded(Parts(u)[j], WIDTHS[j]);
    if first < j {
      DifferenceOrders(t, u, first, j);
      FourDigitLength(t, j);
      FourDigitLength(u, j);
      EarlierDifference(Text(t, j), x + [MARKS[j]], Text(u, j), y + [MARKS[j]]);
    } else {
      PartLength(t, j);
      PartLength(u, j);
      PaddedOrder(Parts(t)[j], Parts(u)[j], WIDTHS[j]);
      EarlierDifference(x, [MARKS[j]], y, [MARKS[j]]);
      EqualParts(t, u, j);
      CommonPrefix(Text(t, j), x + [MARKS[j]], y + [MARKS[j]]);
    }
  }

  // Days are counted to a year held in a variable: for a literal year the verifier would compute
  // the count instead of reasoning about it.
  lemma YearStart(y: nat)
    requires 9999 <= y <= 10_001
    ensures DaysBeforeYear(y) == [2_932_532, 2_932_897, 2_933_263][y - 9999]
  {
    YearsFromMarch(y);
    LateEraDays(y - 1);
  }

  lemma LateEraDays(y: nat)
    requires 9998 <= y <= 10_000
    ensures EraDays(y) == [3_651_694, 3_652_059, 3_652_425][y - 9998]
  {
  }

  lemma YearByDay(t: Date, y: nat)
    requires Valid(t) && 9999 <= y <= 10_001
    ensures t.year < y <==> DayNumber(t) < [2_932_532, 2_932_897, 2_933_263][y - 9999]
  {
    YearStart(y);
    EarlierIsSmaller(t, Date(y, 1, 1));
  }

  lemma FourDigitYears(t: Moment)
    requires ValidMoment(t)
    ensures Seconds(t) <= LAST_FOUR_DIGIT <==> FourDigitYear(t)
  {
    YearByDay(t.date, 10_000);
  }

  lemma {:induction false} FirstCharacter(t: Moment, k: nat)
    requires 1 <= k <= 6
    ensures |Text(t, k)| >= 4 && Text(t, k)[0] == Padded(t.date.year, 4)[0]
  {
    PaddedLength(t.date.year, 4);
    if k > 1 {
      FirstCharacter(t, k - 1);
    }
  }

  lemma LeadingDigits()
    ensures |Padded(9999, 4)| > 0 && Padded(9999, 4)[0] == '9'
    ensures |Padded(10_000, 4)| > 0 && Padded(10_000, 4)[0] == '1'
  {
    assert Padded(99, 2) == Padded(9, 1) + "9";
    assert Padded(999, 3) == Padded(99, 2) + "9";
    assert Padded(10, 1) == Padded(1, 0) + "0";
    assert Padded(100, 2) == Padded(10, 1) + "0";
    assert Padded(1000, 3) == Padded(100, 2) + "0";
  }

  lemma YearAroundLimit(t: Moment)
    requires ValidMoment(t) && LAST_FOUR_DIGIT <= Seconds(t) <= LAST_FOUR_DIGIT + 1
    ensures t.date.year == if Seconds(t) == LAST_FOUR_DIGIT then 9999 else 10_000
  {
    YearByDay(t.date, 9999);
    YearByDay(t.date, 10_000);
    YearByDay(t.date, 10_001);
  }

  lemma FiveDigitYearSortsFirst(t: Moment, u: Moment)
    requires ValidMoment(t) && Seconds(t) == LAST_FOUR_DIGIT
    requires ValidMoment(u) && Seconds(u) == LAST_FOUR_DIGIT + 1
    ensures Less(Text(u, 6), Text(t, 6))
  {
    YearAroundLimit(t);
    YearAroundLimit(u);
    FirstCharacter(t, 6);
    FirstCharacter(u, 6);
    LeadingDigits();
  }

  /** Timestamps up to `end` sort as text in the order of time if and only if `end` lies within the
      year 9999. */
  lemma TextOrderIsTimeOrder(end: nat)
    ensures (forall a: nat, b: nat :: a < b <= end ==> Less(FormatRfc3339(a), FormatRfc3339(b)))
            <==> end <= LAST_FOUR_DIGIT
  {
    if end <= LAST_FOUR_DIGIT {
      forall a: nat, b: nat | a < b <= end
        ensures Less(FormatRfc3339(a), FormatRfc3339(b))
      {
        FourDigitOrder(a, b);
      }
    } else {
      FiveDigitYearIsOutOfOrder(LAST_FOUR_DIGIT);
    }
  }

  lemma FiveDigitYearIsOutOfOrder(last: nat)
    requires last == LAST_FOUR_DIGIT
    ensures !Less(FormatRfc3339(last), FormatRfc3339(last + 1))
  {
    MomentIsSeconds(last);
    MomentIsSeconds(last + 1);
    var t, u := MomentOf(last), MomentOf(last + 1);
    FiveDigitYearSortsFirst(t, u);
    if Less(Text(t, 6), Text(u, 6)) {
      Transitive(Text(t, 6), Text(u, 6), Text(t, 6));
      Irreflexive(Text(t, 6));
    }
  }

  lemma FourDigitOrder(a: nat, b: nat)
    requires a < b <= LAST_FOUR_DIGIT
    ensures Less(FormatRfc3339(a), FormatRfc3339(b))
  {
    MomentIsSeconds(a);
    MomentIsSeconds(b);
    FourDigitYears(MomentOf(a));
    FourDigitYears(MomentOf(b));
    var k := LaterDiffers(MomentOf(a), MomentOf(b));
    DifferenceOrders(MomentOf(a), MomentOf(b), k, 6);
  }
}
