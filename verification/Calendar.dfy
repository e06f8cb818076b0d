/** The timestamp formatter of the filesystem backend: seconds since the epoch to a UTC string.

    `Civil` is the closed form the program evaluates. Beside it stands the calendar itself, written
    the slow way: the leap-year rule of appendix C of RFC 3339, the lengths of months and years, and
    a date reached by taking whole years and then whole months off a count of days.
 */
module Calendar {

  datatype Date = Date(year: nat, month: nat, day: nat)

  // ---------- the program's closed form ----------

  // Every intermediate value is a `nat`: the program subtracts in unsigned arithmetic, so a
  // difference below zero would wrap.
  function YearOfEra(doe: nat): (yoe: nat)
    requires doe < 146_097
    ensures yoe < 400
    ensures EraDays(yoe) <= doe < EraDays(yoe + 1)
  {
    var leapless: nat := doe - doe / 1460 + doe / 36_524 - doe / 146_096;
    YearOfEraBounds(doe);
    leapless / 365
  }

  /** Days of an era before its year `yoe`, counting years from 1 March. The last year of the era
      ends with the leap day of a year divisible by 400. */
  function EraDays(yoe: nat): nat {
    365 * yoe + yoe / 4 - yoe / 100 + yoe / 400
  }

  lemma YearOfEraBounds(doe: nat)
    requires doe < 146_097
    ensures
      var leapless := doe - doe / 1460 + doe / 36_524 - doe / 146_096;
      && 0 <= leapless && leapless / 365 < 400
      && EraDays(leapless / 365) <= doe < EraDays(leapless / 365 + 1)
  {
    var century := doe / 36_524;
    if century < 4 {
      var doc := doe - 36_524 * century;
      var cycle, day := doc / 1461, doc % 1461;
      assert doe == 36_524 * century + 1461 * cycle + day;
      assert doe / 146_096 == 0;
      YearOfCycleBounds(century, cycle, day);
    } else {
      assert doe == 146_096 && doe / 146_096 == 1 && doe / 1460 == 100;
    }
  }

  // A day of the era as century, four-year cycle and day of the cycle. The correction terms of
  // the closed form leave `365 * year` plus a remainder that stays inside the year.
  lemma YearOfCycleBounds(century: nat, cycle: nat, day: nat)
    requires century < 4 && cycle < 25 && day < 1461 && (cycle == 24 ==> day < 1460)
    ensures
      var doe := 36_524 * century + 1461 * cycle + day;
      var yoe := (doe - doe / 1460 + century) / 365;
      && 100 * century <= yoe < 100 * century + 100
      && EraDays(yoe) <= doe < EraDays(yoe + 1)
  {
    var late := LateDay(century, cycle, day);
    var j := YearOfCycle(century, cycle, day, late);
    EraDaysOfCycle(century, cycle, j);
  }

  // The year of the cycle, the correction for the leap days taken off.
  lemma YearOfCycle(century: nat, cycle: nat, day: nat, late: nat) returns (j: nat)
    requires century < 4 && cycle < 25 && day < 1461 && (cycle == 24 ==> day < 1460)
    requires late == if 24 * century + cycle + day >= 1460 then 1 else 0
    ensures j < 4 && 365 * j <= day - late < 365 * j + 365
    ensures
      var doe := 36_524 * century + 1461 * cycle + day;
      (doe - (25 * century + cycle + late) + century) / 365 == 100 * century + 4 * cycle + j
  {
    j := (day - late) / 365;
    var rest := day - late - 365 * j;
    assert 36_524 * century + 1461 * cycle + day - (25 * century + cycle + late) + century
           == 365 * (100 * century + 4 * cycle + j) + rest;
  }

  lemma LateDay(century: nat, cycle: nat, day: nat) returns (late: nat)
    requires century < 4 && cycle < 25 && day < 1461 && (cycle == 24 ==> day < 1460)
    ensures late == if 24 * century + cycle + day >= 1460 then 1 else 0
    ensures (36_524 * century + 1461 * cycle + day) / 1460 == 25 * century + cycle + late
  {
    late := if 24 * century + cycle + day >= 1460 then 1 else 0;
  }

  lemma EraDaysOfCycle(century: nat, cycle: nat, j: nat)
    requires century < 4 && cycle < 25 && j < 4
    ensures
      var yoe := 100 * century + 4 * cycle + j;
      && EraDays(yoe) == 36_524 * century + 1461 * cycle + 365 * j
      && EraDays(yoe + 1) - EraDays(yoe) ==
           if j == 3 && (cycle < 24 || century == 3) then 366 else 365
  {
    var yoe := 100 * century + 4 * cycle + j;
    assert yoe / 4 == 25 * century + cycle && yoe / 100 == century && yoe / 400 == 0;
    if j < 3 {
      assert (yoe + 1) / 4 == yoe / 4 && (yoe + 1) / 100 == century && (yoe + 1) / 400 == 0;
    } else if cycle < 24 {
      assert (yoe + 1) / 4 == yoe / 4 + 1 && (yoe + 1) / 100 == century && (yoe + 1) / 400 == 0;
    } else {
      assert yoe + 1 == 100 * (century + 1);
    }
  }

  // Days before month `mp` of a year that starts on 1 March, `mp` counted from zero.
  function MarchDays(mp: nat): nat {
    (153 * mp + 2) / 5
  }

  function MonthFromMarch(doy: nat): (mp: nat)
    requires doy < 366
    ensures mp < 12
    ensures MarchDays(mp) <= doy < MarchDays(mp + 1)
  {
    (5 * doy + 2) / 153
  }

  /** The closed form: the date `days` days after 1970-01-01. */
  function Civil(days: nat): Date {
    var (y, doy) := MarchYear(days);
    FromMarch(y, doy)
  }

  // The year that starts on the 1 March before, and the day of that year.
  function MarchYear(days: nat): (r: (nat, nat))
    ensures r.1 < 366
    ensures r.0 >= 1969 && r.1 < YearLength(r.0 + 1)
    ensures days + 306 == DaysBeforeYear(r.0 + 1) + r.1
  {
    var z := days + 719_468;
    var era := z / 146_097;
    var doe: nat := z - era * 146_097;
    var yoe := YearOfEra(doe);
    var y := yoe + era * 400;
    DayOfYearInRange(doe, yoe);
    var doy: nat := doe - (365 * yoe + yoe / 4 - yoe / 100);
    DayInMarchYear(days, era, doe, yoe, doy);
    (y, doy)
  }

  /** Day `doy` of the year that starts on 1 March of `y`. */
  function FromMarch(y: nat, doy: nat): Date
    requires doy < 366
  {
    var mp := MonthFromMarch(doy);
    var d: nat := doy - (153 * mp + 2) / 5 + 1;
    var month: nat := if mp < 10 then mp + 3 else mp - 9;
    Date(if month <= 2 then y + 1 else y, month, d)
  }

  lemma DayOfYearInRange(doe: nat, yoe: nat)
    requires yoe < 400 && EraDays(yoe) <= doe < EraDays(yoe + 1)
    ensures 365 * yoe + yoe / 4 - yoe / 100 == EraDays(yoe)
    ensures doe - EraDays(yoe) < 366
  {
  }

  // ---------- the calendar itself ----------

  predicate IsLeap(y: nat) {
    y % 4 == 0 && (y % 100 != 0 || y % 400 == 0)
  }

  function YearLength(y: nat): nat {
    if IsLeap(y) then 366 else 365
  }

  function MonthLength(y: nat, m: nat): nat {
    if m == 2 then (if IsLeap(y) then 29 else 28)
    else if m in {4, 6, 9, 11} then 30
    else 31
  }

  predicate Valid(t: Date) {
    t.year >= 1970 && 1 <= t.month <= 12 && 1 <= t.day <= MonthLength(t.year, t.month)
  }

  function DaysBeforeYear(y: nat): nat
    requires y >= 1970
  {
    if y == 1970 then 0 else DaysBeforeYear(y - 1) + YearLength(y - 1)
  }

  function DaysBeforeMonth(y: nat, m: nat): nat
    requires 1 <= m <= 13
  {
    if m == 1 then 0 else DaysBeforeMonth(y, m - 1) + MonthLength(y, m - 1)
  }

  function DayNumber(t: Date): nat
    requires Valid(t)
  {
    DaysBeforeYear(t.year) + DaysBeforeMonth(t.year, t.month) + t.day - 1
  }

  /** Takes whole years off `rest`, then whole months. */
  function Reckon(days: nat): Date {
    var (y, rest) := TakeYears(1970, days);
    TakeMonths(y, 1, rest)
  }

  function TakeYears(y: nat, rest: nat): (r: (nat, nat))
    requires y >= 1970
    ensures r.0 >= 1970 && r.1 < YearLength(r.0)
    ensures DaysBeforeYear(r.0) + r.1 == DaysBeforeYear(y) + rest
    decreases rest
  {
    if rest < YearLength(y) then (y, rest) else TakeYears(y + 1, rest - YearLength(y))
  }

  function TakeMonths(y: nat, m: nat, rest: nat): (t: Date)
    requires y >= 1970 && 1 <= m <= 12
    requires DaysBeforeMonth(y, m) + rest < YearLength(y)
    ensures Valid(t) && t.year == y
    ensures DaysBeforeMonth(y, t.month) + t.day - 1 == DaysBeforeMonth(y, m) + rest
    decreases 12 - m
  {
    MonthTable(y);
    if rest < MonthLength(y, m) then Date(y, m, rest + 1)
    else TakeMonths(y, m + 1, rest - MonthLength(y, m))
  }

  // ---------- the closed form is the calendar ----------

  lemma MonthTable(y: nat)
    ensures
      var leap := YearLength(y) - 365;
      && DaysBeforeMonth(y, 1) == 0
      && DaysBeforeMonth(y, 2) == 31
      && (forall mp :: 0 <= mp < 10 ==> DaysBeforeMonth(y, mp + 3) == 59 + leap + MarchDays(mp))
      && DaysBeforeMonth(y, 13) == YearLength(y)
  {
    assert DaysBeforeMonth(y, 2) == 31;
    assert DaysBeforeMonth(y, 3) == 59 + YearLength(y) - 365;
    assert DaysBeforeMonth(y, 5) == 120 + YearLength(y) - 365;
    assert DaysBeforeMonth(y, 7) == 181 + YearLength(y) - 365;
    assert DaysBeforeMonth(y, 9) == 243 + YearLength(y) - 365;
    assert DaysBeforeMonth(y, 11) == 304 + YearLength(y) - 365;
  }

  // 719468 is the number of days from 0000-03-01 to 1970-01-01.
  lemma {:induction false} YearsFromMarch(y: nat)
    requires y >= 1970
    ensures DaysBeforeYear(y) + 719_468 == EraDays(y - 1) + 306
    ensures EraDays(y) == EraDays(y - 1) + YearLength(y)
  {
    EraDaysStep(y);
    if y > 1970 {
      YearsFromMarch(y - 1);
    }
  }

  lemma EraDaysStep(y: nat)
    requires y >= 1
    ensures EraDays(y) == EraDays(y - 1) + YearLength(y)
  {
    QuotientSteps(y);
    if y % 400 == 0 {
      MultipleOf400(y);
    }
    if y % 100 == 0 {
      MultipleOf100(y);
    }
  }

  lemma QuotientSteps(y: nat)
    requires y >= 1
    ensures y / 4 == (y - 1) / 4 + if y % 4 == 0 then 1 else 0
    ensures y / 100 == (y - 1) / 100 + if y % 100 == 0 then 1 else 0
    ensures y / 400 == (y - 1) / 400 + if y % 400 == 0 then 1 else 0
  {
  }

  lemma MultipleOf400(y: nat)
    requires y % 400 == 0
    ensures y % 100 == 0
  {
    var q := y / 400;
    assert y == 400 * q;
    Multiple(y, 100, 4 * q);
  }

  lemma MultipleOf100(y: nat)
    requires y % 100 == 0
    ensures y % 4 == 0
  {
    var q := y / 100;
    assert y == 100 * q;
    Multiple(y, 4, 25 * q);
  }

  lemma Multiple(x: nat, n: nat, q: nat)
    requires n >= 1 && x == n * q
    ensures x % n == 0
  {
    var d := q - x / n;
    assert n * d == x % n;
    assert d >= 1 ==> n * d >= n;
    assert d <= -1 ==> n * d <= 0 - n;
  }

  lemma EraDaysPeriodic(era: nat, yoe: nat)
    ensures EraDays(400 * era + yoe) == 146_097 * era + EraDays(yoe)
  {
    var y := 400 * era + yoe;
    assert y / 4 == 100 * era + yoe / 4;
    assert y / 100 == 4 * era + yoe / 100;
    assert y / 400 == era + yoe / 400;
  }

  /** The closed form yields a date of the calendar, and the right one. */
  lemma CivilIsDayNumber(days: nat)
    ensures Valid(Civil(days)) && DayNumber(Civil(days)) == days
  {
    var (y, doy) := MarchYear(days);
    FromMarchIsDayNumber(days, y, doy);
  }

  // The era period carries a day of the era over to the year that starts on 1 March of `y`.
  lemma DayInMarchYear(days: nat, era: nat, doe: nat, yoe: nat, doy: nat)
    requires days + 719_468 == era * 146_097 + doe
    requires EraDays(yoe) <= doe < EraDays(yoe + 1) && doy == doe - EraDays(yoe)
    ensures yoe + era * 400 >= 1969
    ensures days + 306 == DaysBeforeYear(yoe + era * 400 + 1) + doy
    ensures doy < YearLength(yoe + era * 400 + 1)
  {
    var y := yoe + era * 400;
    EraDaysPeriodic(era, yoe);
    EraDaysPeriodic(era, yoe + 1);
    YearsFromMarch(y + 1);
  }

  lemma FromMarchIsDayNumber(days: nat, y: nat, doy: nat)
    requires y >= 1969 && doy < YearLength(y + 1)
    requires days + 306 == DaysBeforeYear(y + 1) + doy
    ensures Valid(FromMarch(y, doy)) && DayNumber(FromMarch(y, doy)) == days
  {
    assert MarchDays(10) == 306;
    if MonthFromMarch(doy) < 10 {
      FromMarchSameYear(days, y, doy);
    } else {
      FromMarchNextYear(days, y, doy);
    }
  }

  lemma FromMarchSameYear(days: nat, y: nat, doy: nat)
    requires y >= 1969 && doy < YearLength(y + 1) && MonthFromMarch(doy) < 10
    requires days + 306 == DaysBeforeYear(y + 1) + doy
    ensures Valid(FromMarch(y, doy)) && DayNumber(FromMarch(y, doy)) == days
  {
    var mp := MonthFromMarch(doy);
    assert y != 1969 by {
      assert DaysBeforeYear(1970) == 0;
      assert doy < MarchDays(10) == 306;
    }
    MonthTable(y);
    assert DaysBeforeMonth(y, mp + 3) == 59 + YearLength(y) - 365 + MarchDays(mp);
    assert Valid(Date(y, mp + 3, doy - MarchDays(mp) + 1));
  }

  lemma FromMarchNextYear(days: nat, y: nat, doy: nat)
    requires y >= 1969 && doy < YearLength(y + 1) && MonthFromMarch(doy) >= 10
    requires days + 306 == DaysBeforeYear(y + 1) + doy
    ensures Valid(FromMarch(y, doy)) && DayNumber(FromMarch(y, doy)) == days
  {
    var mp := MonthFromMarch(doy);
    assert MarchDays(10) == 306 && MarchDays(11) == 337;
    assert DaysBeforeMonth(y + 1, 1) == 0 && DaysBeforeMonth(y + 1, 2) == 31;
    assert Valid(Date(y + 1, mp - 9, doy - MarchDays(mp) + 1));
  }

  // ---------- the day number names a date ----------

  predicate Earlier(a: Date, b: Date) {
    || a.year < b.year
    || (a.year == b.year && a.month < b.month)
    || (a.year == b.year && a.month == b.month && a.day < b.day)
  }

  lemma {:induction false} YearsGrow(y: nat, y': nat)
    requires 1970 <= y < y'
    ensures DaysBeforeYear(y) + YearLength(y) <= DaysBeforeYear(y')
    decreases y'
  {
    if y + 1 < y' {
      YearsGrow(y, y' - 1);
    }
  }

  lemma {:induction false} MonthsGrow(y: nat, m: nat, m': nat)
    requires 1 <= m < m' <= 13
    ensures DaysBeforeMonth(y, m) + MonthLength(y, m) <= DaysBeforeMonth(y, m')
    decreases m'
  {
    if m + 1 < m' {
      MonthsGrow(y, m, m' - 1);
    }
  }

  lemma EarlierIsSmaller(a: Date, b: Date)
    requires Valid(a) && Valid(b)
    ensures Earlier(a, b) <==> DayNumber(a) < DayNumber(b)
  {
    if Earlier(a, b) {
      EarlierThenSmaller(a, b);
    } else if a != b {
      EarlierThenSmaller(b, a);
    }
  }

  lemma EarlierThenSmaller(a: Date, b: Date)
    requires Valid(a) && Valid(b) && Earlier(a, b)
    ensures DayNumber(a) < DayNumber(b)
  {
    if a.year < b.year {
      YearsGrow(a.year, b.year);
      MonthsGrow(a.year, a.month, 13);
      MonthTable(a.year);
    } else if a.month < b.month {
      MonthsGrow(a.year, a.month, b.month);
    }
  }

  /** For every count of days the closed form is the date the calendar reckons. */
  lemma CivilIsReckon(days: nat)
    ensures Civil(days) == Reckon(days)
  {
    CivilIsDayNumber(days);
    EarlierIsSmaller(Civil(days), Reckon(days));
    EarlierIsSmaller(Reckon(days), Civil(days));
  }

  /** Civil and DayNumber are inverse to each other: no two days share a date, no date is missed. */
  lemma DayNumberIsInverse(t: Date)
    requires Valid(t)
    ensures Civil(DayNumber(t)) == t
  {
    CivilIsDayNumber(DayNumber(t));
    EarlierIsSmaller(Civil(DayNumber(t)), t);
    EarlierIsSmaller(t, Civil(DayNumber(t)));
  }

  /** Later days have later dates, and only they. */
  lemma CivilIsMonotone(a: nat, b: nat)
    ensures a < b <==> Earlier(Civil(a), Civil(b))
  {
    CivilIsDayNumber(a);
    CivilIsDayNumber(b);
    EarlierIsSmaller(Civil(a), Civil(b));
  }
}
