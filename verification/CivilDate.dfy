/** Civil time from a Unix epoch (`format_utc` in the build script). */
module CivilDate {
  datatype Date = Date(year: int, month: int, day: int)

  // ----- the Gregorian calendar, extended to all years -----

  /** Appendix C of RFC 3339. */
  predicate Leap(y: int) {
    y % 4 == 0 && (y % 100 != 0 || y % 400 == 0)
  }

  /** Section 5.7 of RFC 3339. */
  function MonthLength(y: int, m: int): int
    requires 1 <= m <= 12
  {
    if m == 2 then (if Leap(y) then 29 else 28)
    else if m == 4 || m == 6 || m == 9 || m == 11 then 30
    else 31
  }

  predicate ValidDate(d: Date) {
    1 <= d.month <= 12 && 1 <= d.day <= MonthLength(d.year, d.month)
  }

  function NextDay(d: Date): (r: Date)
    requires ValidDate(d)
    ensures ValidDate(r)
  {
    if d.day < MonthLength(d.year, d.month) then Date(d.year, d.month, d.day + 1)
    else if d.month < 12 then Date(d.year, d.month + 1, 1)
    else Date(d.year + 1, 1, 1)
  }

  /** Days of the year before the first of a month. */
  function MonthStart(y: int, m: int): int
    requires 1 <= m <= 12
  {
    if m == 1 then 0 else MonthStart(y, m - 1) + MonthLength(y, m - 1)
  }

  /** Days from 1 January 1970 to 1 January of a year: `YearStartIsCount` says that it counts years. */
  function YearStart(y: int): int {
    365 * (y - 1970) + ((y - 1) / 4 - (y - 1) / 100 + (y - 1) / 400) - 477
  }

  lemma YearStartIsCount(y: int)
    ensures YearStart(1970) == 0
    ensures YearStart(y + 1) == YearStart(y) + (if Leap(y) then 366 else 365)
  {
    Carries(y);
  }

  /** Which leap rules a year end crosses. */
  lemma Carries(y: int)
    ensures y / 4 == (y - 1) / 4 + (if y % 4 == 0 then 1 else 0)
    ensures y / 100 == (y - 1) / 100 + (if y % 100 == 0 then 1 else 0)
    ensures y / 400 == (y - 1) / 400 + (if y % 400 == 0 then 1 else 0)
    ensures (y % 400 == 0 ==> y % 100 == 0) && (y % 100 == 0 ==> y % 4 == 0)
  {
  }

  /** Month starts in closed form. From March on, the lengths 31, 30, 31, 30, 31 repeat: 153 days in five months. */
  lemma {:induction false} MonthStartIs(y: int, m: int)
    requires 1 <= m <= 12
    ensures MonthStart(y, m)
         == if m == 1 then 0 else if m == 2 then 31
            else (if Leap(y) then 60 else 59) + (153 * (m - 3) + 2) / 5
  {
    if m > 1 {
      hide Leap;
      MonthStartIs(y, m - 1);
    }
  }

  /** Days from 1 January 1970 to a date. */
  function DayNumber(d: Date): int
    requires ValidDate(d)
  {
    YearStart(d.year) + MonthStart(d.year, d.month) + d.day - 1
  }

  // ----- the conversion -----

  /** Rust's `/`, for a positive divisor. */
  function Trunc(a: int, b: int): int
    requires b > 0
  {
    if a >= 0 then a / b else -((-a) / b)
  }

  const ERA: int := 146_097

  function EraOf(z: int): int {
    Trunc(if z >= 0 then z else z - 146_096, ERA)
  }

  function YearOfEra(doe: int): int {
    (doe - doe / 1460 + doe / 36524 - doe / 146_096) / 365
  }

  function DayOfYear(doe: int): int {
    var yoe := YearOfEra(doe);
    doe - (365 * yoe + yoe / 4 - yoe / 100)
  }

  /** The date of a day of a year that begins on 1 March of year `y`. */
  function FromMarch(y: int, doy: int): Date {
    var mp := (5 * doy + 2) / 153;
    var d := doy - (153 * mp + 2) / 5 + 1;
    var mo := if mp < 10 then mp + 3 else mp - 9;
    Date(if mo <= 2 then y + 1 else y, mo, d)
  }

  /** The date of a day counted from 1 January 1970. */
  function FromDays(days: int): Date {
    var z := days + 719_468;
    var era := EraOf(z);
    var doe := z - era * ERA;
    FromMarch(YearOfEra(doe) + era * 400, DayOfYear(doe))
  }

  lemma EraIsFloor(z: int)
    ensures EraOf(z) == z / ERA && 0 <= z - EraOf(z) * ERA < ERA
  {
  }

  /** A day of an era by century, four-year block, year and day. */
  datatype EraDay = EraDay(c: int, q: int, a: int, s: int)

  function Split(doe: int): (e: EraDay)
    requires 0 <= doe < ERA
    ensures 0 <= e.c <= 3 && 0 <= e.q <= 24 && 0 <= e.a <= 3 && 0 <= e.s <= 365
    ensures doe == 36524 * e.c + 1461 * e.q + 365 * e.a + e.s
    ensures e.s == 365 ==> e.a == 3 && (e.q < 24 || e.c == 3)
  {
    var c := if doe == 146_096 then 3 else doe / 36524;
    var r := doe - 36524 * c;
    var q := r / 1461;
    var t := r - 1461 * q;
    var a := if t == 1460 then 3 else t / 365;
    EraDay(c, q, a, t - 365 * a)
  }

  lemma YearOfEraIs(doe: int)
    requires 0 <= doe < ERA
    ensures var e := Split(doe); YearOfEra(doe) == 100 * e.c + 4 * e.q + e.a
  {
    var e := Split(doe);
    hide Split;
    var rest := 24 * e.c + e.q + 365 * e.a + e.s;
    var carry := if rest >= 1460 then 1 else 0;
    assert doe / 1460 == 25 * e.c + e.q + carry;
    assert doe / 36524 - doe / 146_096 == e.c;
    assert doe - doe / 1460 + e.c == 365 * (100 * e.c + 4 * e.q + e.a) + e.s - carry;
  }

  lemma EraYearStartIs(c: int, q: int, a: int)
    requires 0 <= c <= 3 && 0 <= q <= 24 && 0 <= a <= 3
    ensures var yoe := 100 * c + 4 * q + a; yoe / 4 == 25 * c + q && yoe / 100 == c
  {
  }

  /** The year of the era that the formula gives is the one that contains the day. It has a 366th day only
      when the calendar year it ends in is a leap year. */
  lemma YearOfEraContains(doe: int)
    requires 0 <= doe < ERA
    ensures 0 <= YearOfEra(doe) < 400
    ensures 0 <= DayOfYear(doe) <= 365
    ensures doe == 365 * YearOfEra(doe) + YearOfEra(doe) / 4 - YearOfEra(doe) / 100 + DayOfYear(doe)
    ensures DayOfYear(doe) == 365 ==> Leap(YearOfEra(doe) + 1)
  {
    var e := Split(doe);
    YearOfEraIs(doe);
    EraYearStartIs(e.c, e.q, e.a);
    hide Split, YearOfEra;
    if e.s == 365 {
      LeapEnd(e.c, e.q);
    }
  }

  lemma LeapEnd(c: int, q: int)
    requires 0 <= c <= 3 && 0 <= q <= 24 && (q < 24 || c == 3)
    ensures Leap(100 * c + 4 * q + 4)
  {
  }

  /** The month counted from March, and the day in it. */
  lemma MonthOfDay(doy: int)
    requires 0 <= doy <= 365
    ensures var mp := (5 * doy + 2) / 153;
            var d := doy - (153 * mp + 2) / 5 + 1;
            && 0 <= mp <= 11
            && 1 <= d <= (if mp == 11 then 29 else (153 * (mp + 1) + 2) / 5 - (153 * mp + 2) / 5)
            && (mp == 11 && d == 29 <==> doy == 365)
  {
  }

  lemma LengthFromMarch(y: int, mp: int)
    requires 0 <= mp < 11
    ensures MonthLength(y, if mp < 10 then mp + 3 else mp - 9) == (153 * (mp + 1) + 2) / 5 - (153 * mp + 2) / 5
  {
  }

  lemma YearsOfEras(yoe: int, era: int)
    ensures var y := yoe + 400 * era;
            y / 4 == yoe / 4 + 100 * era && y / 100 == yoe / 100 + 4 * era && y / 400 == yoe / 400 + era
    ensures Leap(yoe + 400 * era) == Leap(yoe)
  {
  }

  lemma FromMarchIsRight(y: int, doy: int)
    requires 0 <= doy <= 365 && (doy == 365 ==> Leap(y + 1))
    ensures ValidDate(FromMarch(y, doy)) && DayNumber(FromMarch(y, doy)) == YearStart(y + 1) - 306 + doy
  {
    hide Leap, YearStart;
    MonthOfDay(doy);
    var mp := (5 * doy + 2) / 153;
    if mp < 11 {
      LengthFromMarch(if mp < 10 then y else y + 1, mp);
    }
    var date := FromMarch(y, doy);
    assert ValidDate(date);
    hide MonthLength, MonthStart;
    MonthStartIs(date.year, date.month);
    YearStartIsCount(y);
  }

  /** A year start by era: the constants of the conversion are those of the calendar. */
  lemma YearStartByEra(yoe: int, era: int)
    requires 0 <= yoe < 400
    ensures YearStart(yoe + 400 * era + 1) == 365 * yoe + yoe / 4 - yoe / 100 + era * ERA - 719_162
  {
    YearsOfEras(yoe, era);
  }

  /** The conversion gives a real date, and the right one: counting days to it gives the day back. */
  lemma FromDaysIsRight(days: int)
    ensures ValidDate(FromDays(days)) && DayNumber(FromDays(days)) == days
  {
    hide EraOf, YearOfEra, DayOfYear, FromMarch, Leap, YearStart, ValidDate, DayNumber;
    var z := days + 719_468;
    EraIsFloor(z);
    var era, doe := EraOf(z), z - EraOf(z) * ERA;
    YearOfEraContains(doe);
    var yoe, doy := YearOfEra(doe), DayOfYear(doe);
    assert FromDays(days) == FromMarch(yoe + 400 * era, doy);
    hide FromDays;
    YearsOfEras(yoe + 1, era);
    assert yoe + 1 + 400 * era == yoe + 400 * era + 1;
    FromMarchIsRight(yoe + 400 * era, doy);
    YearStartByEra(yoe, era);
  }

  // ----- dates are ordered and numbered without gaps -----

  predicate Earlier(a: Date, b: Date) {
    a.year < b.year || (a.year == b.year && (a.month < b.month || (a.month == b.month && a.day < b.day)))
  }

  lemma {:induction false} YearStartsGrow(y: int, z: int)
    requires y < z
    ensures YearStart(z) >= YearStart(y + 1)
    decreases z - y
  {
    if y + 1 < z {
      hide YearStart;
      YearStartsGrow(y, z - 1);
      YearStartIsCount(z - 1);
    }
  }

  lemma WithinMonth(d: Date)
    requires ValidDate(d)
    ensures 0 <= MonthStart(d.year, d.month) + d.day - 1 < if Leap(d.year) then 366 else 365
    ensures d.month < 12 ==> MonthStart(d.year, d.month) + d.day - 1 < MonthStart(d.year, d.month + 1)
  {
    MonthStartIs(d.year, d.month);
    hide Leap;
  }

  lemma MonthsGrow(y: int, m: int, n: int)
    requires 1 <= m <= n <= 12
    ensures MonthStart(y, m) <= MonthStart(y, n)
  {
    MonthStartIs(y, m);
    MonthStartIs(y, n);
    hide Leap, MonthStart;
  }

  lemma EarlierCountsLess(a: Date, b: Date)
    requires ValidDate(a) && ValidDate(b) && Earlier(a, b)
    ensures DayNumber(a) < DayNumber(b)
  {
    hide YearStart, Leap, MonthStart;
    WithinMonth(a);
    WithinMonth(b);
    YearStartIsCount(a.year);
    if a.year < b.year {
      YearStartsGrow(a.year, b.year);
    } else if a.month < b.month {
      MonthsGrow(a.year, a.month + 1, b.month);
    }
  }

  /** Dates and days correspond one to one. */
  lemma DateOfDayNumber(d: Date)
    requires ValidDate(d)
    ensures FromDays(DayNumber(d)) == d
  {
    hide DayNumber, FromDays, ValidDate;
    FromDaysIsRight(DayNumber(d));
    var e := FromDays(DayNumber(d));
    if Earlier(d, e) {
      EarlierCountsLess(d, e);
    } else if Earlier(e, d) {
      EarlierCountsLess(e, d);
    }
  }

  lemma NextDayCountsOne(d: Date)
    requires ValidDate(d)
    ensures DayNumber(NextDay(d)) == DayNumber(d) + 1
  {
    hide YearStart, Leap;
    YearStartIsCount(d.year);
    MonthStartIs(d.year, d.month);
  }

  /** Each next day is the calendar's successor, before the epoch as after it. */
  lemma FromDaysSteps(days: int)
    ensures ValidDate(FromDays(days)) && FromDays(days + 1) == NextDay(FromDays(days))
    ensures FromDays(0) == Date(1970, 1, 1)
  {
    hide FromDays, DayNumber;
    FromDaysIsRight(days);
    var d := FromDays(days);
    NextDayCountsOne(d);
    DateOfDayNumber(NextDay(d));
    EpochIsDayZero();
    DateOfDayNumber(Date(1970, 1, 1));
  }

  lemma EpochIsDayZero()
    ensures DayNumber(Date(1970, 1, 1)) == 0
  {
  }
}
