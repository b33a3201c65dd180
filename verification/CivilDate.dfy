/**
 * Day numbers and proleptic Gregorian dates (ISO 8601:2004, section 3.2.1): the closed-form `civil_from_days` against
 * a calendar that counts one day at a time.
 */
module CivilDate {
  import opened Alignment

  datatype Date = Date(year: int, month: int, day: int)

  // ---------- the calendar ----------

  predicate Leap(y: int) {
    y % 4 == 0 && (y % 100 != 0 || y % 400 == 0)
  }

  function MonthLength(y: int, m: int): int {
    if m == 2 then (if Leap(y) then 29 else 28)
    else if m == 4 || m == 6 || m == 9 || m == 11 then 30
    else 31
  }

  predicate Valid(d: Date) {
    1 <= d.month <= 12 && 1 <= d.day <= MonthLength(d.year, d.month)
  }

  /** The next calendar day. */
  function Successor(d: Date): Date {
    if d.day < MonthLength(d.year, d.month) then d.(day := d.day + 1)
    else if d.month < 12 then Date(d.year, d.month + 1, 1)
    else Date(d.year + 1, 1, 1)
  }

  function YearLength(y: int): int { if Leap(y) then 366 else 365 }

  /** Days from 1970-01-01 to January 1st of `y`, counted year by year. */
  function DaysToYear(y: int): int
    decreases if y >= 1970 then y - 1970 else 1970 - y
  {
    if y == 1970 then 0
    else if y > 1970 then DaysToYear(y - 1) + YearLength(y - 1)
    else DaysToYear(y + 1) - YearLength(y)
  }

  /** Days of year `y` before month `m`, counted month by month. */
  function DaysToMonth(y: int, m: int): int
    decreases m
  {
    if m <= 1 then 0 else DaysToMonth(y, m - 1) + MonthLength(y, m - 1)
  }

  /** Days since 1970-01-01, by counting. */
  function DayNumber(d: Date): int {
    DaysToYear(d.year) + DaysToMonth(d.year, d.month) + d.day - 1
  }

  // ---------- the code ----------

  const EPOCH_SHIFT := 719_468
  const ERA := 146_097

  /** Year of the era of a day of the era. */
  function YearOfEra(doe: int): int {
    (doe - doe / 1460 + doe / 36_524 - doe / 146_096) / 365
  }

  /** First day of the era's year `yoe`; years start on March 1st. */
  function YearStart(yoe: int): int { 365 * yoe + yoe / 4 - yoe / 100 }

  /** Month index (March = 0) of a day of the March-based year. */
  function MonthIndex(doy: int): int { (5 * doy + 2) / 153 }

  /** First day of a month of the March-based year. */
  function MonthStart(mp: int): int { (153 * mp + 2) / 5 }

  /** The month of the calendar year. */
  function MonthOf(mp: int): int { if mp < 10 then mp + 3 else mp - 9 }

  /**
   * Month and day of day `doy` of the March-based year `yoe` of an era; January and February belong to the next year.
   */
  function DateInEra(era: int, yoe: int, doy: int): Date {
    var y := yoe + era * 400;
    var mp := MonthIndex(doy);
    var d := doy - MonthStart(mp) + 1;
    var m := MonthOf(mp);
    Date(if m <= 2 then y + 1 else y, m, d)
  }

  /** The date of a day of an era. */
  function DateOfEra(era: int, doe: int): Date {
    var yoe := YearOfEra(doe);
    DateInEra(era, yoe, doe - YearStart(yoe))
  }

  /** `civil_from_days` */
  function CivilFromDays(z: int): Date {
    var z := z + EPOCH_SHIFT;
    var era := z / ERA;
    DateOfEra(era, z - era * ERA)
  }

  /**
   * A day of the era as century, four-year cycle and day of the cycle; the last cycle of the last century is longer.
   */
  lemma SplitEra(doe: int) returns (c: int, q: int, dq: int)
    requires 0 <= doe < ERA
    ensures 0 <= c <= 3 && 0 <= q <= 24 && 0 <= dq <= 1460 && doe == 36_524 * c + 1461 * q + dq
    ensures q == 24 && c < 3 ==> dq <= 1459
  {
    c := Min(doe / 36_524, 3);
    var dc := doe - 36_524 * c;
    q := dc / 1461;
    dq := dc - 1461 * q;
  }

  /** The closed form picks exactly the year found by splitting into centuries and four-year cycles. */
  lemma YearOfEraFormula(doe: int, c: int, q: int, dq: int)
    requires 0 <= doe < ERA
    requires 0 <= c <= 3 && 0 <= q <= 24 && 0 <= dq <= 1460 && doe == 36_524 * c + 1461 * q + dq
    requires q == 24 && c < 3 ==> dq <= 1459
    ensures YearOfEra(doe) == 100 * c + 4 * q + Min(dq / 365, 3)
  {
    var e := if 24 * c + q + dq >= 1460 then 1 else 0;
    assert doe == 1460 * (25 * c + q + e) + (24 * c + q + dq - 1460 * e);
    assert doe / 1460 == 25 * c + q + e;
    var last := if doe == 146_096 then 1 else 0;
    assert doe / 146_096 == last;
    assert doe / 36_524 == c + last;
    assert doe - doe / 1460 + doe / 36_524 - doe / 146_096 == 365 * (100 * c + 4 * q) + dq - e;
    assert (dq - e) / 365 == Min(dq / 365, 3);
  }

  lemma YearStartOf(c: int, q: int, r: int)
    requires 0 <= c <= 3 && 0 <= q <= 24 && 0 <= r <= 3
    ensures YearStart(100 * c + 4 * q + r) == 36_524 * c + 1461 * q + 365 * r
    ensures Leap(100 * c + 4 * q + r + 1) <==> r == 3 && (q < 24 || c == 3)
  {
    var y := 100 * c + 4 * q + r;
    assert y / 4 == 25 * c + q;
    assert y / 100 == c;
  }

  /** The March-based year `yoe` ends with February of year `yoe + 1`, which decides its length. */
  function MarchYearLength(yoe: int): int { if Leap(yoe + 1) then 366 else 365 }

  lemma YearOfEraBracket(doe: int)
    requires 0 <= doe < ERA
    ensures var yoe := YearOfEra(doe);
            0 <= yoe < 400 && YearStart(yoe) <= doe < YearStart(yoe) + MarchYearLength(yoe)
  {
    var c, q, dq := SplitEra(doe);
    YearOfEraFormula(doe, c, q, dq);
    YearStartOf(c, q, Min(dq / 365, 3));
  }

  /** Consecutive March-based years abut, and the era's last year ends the era. */
  lemma YearStartNext(yoe: int)
    requires 0 <= yoe < 400
    ensures YearStart(yoe) + MarchYearLength(yoe) == if yoe == 399 then ERA else YearStart(yoe + 1)
  {
    var c := yoe / 100;
    var inCentury := yoe - 100 * c;
    var q := inCentury / 4;
    var r := inCentury - 4 * q;
    YearStartOf(c, q, r);
    if yoe < 399 {
      if r < 3 { YearStartOf(c, q, r + 1); }
      else if q < 24 { YearStartOf(c, q + 1, 0); }
      else { YearStartOf(c + 1, 0, 0); }
    }
  }

  lemma MonthBracket(doy: int)
    requires 0 <= doy <= 366
    ensures var mp := MonthIndex(doy);
            && 0 <= mp <= 12 && (doy < 366 ==> mp < 12)
            && (153 * mp + 2) / 5 <= doy < (153 * (mp + 1) + 2) / 5
  {
  }

  /** Year `y` and year `y mod 400` have the same shape. */
  lemma LeapPeriod(y: int, era: int)
    ensures Leap(y + era * 400) == Leap(y)
  {
    RemainderIs(y + era * 400, 4, y / 4 + 100 * era, y % 4);
    RemainderIs(y + era * 400, 100, y / 100 + 4 * era, y % 100);
    RemainderIs(y + era * 400, 400, y / 400 + era, y % 400);
  }

  lemma YearStartBounds(yoe: int)
    requires 0 <= yoe < 400
    ensures 0 <= YearStart(yoe) && YearStart(yoe) + MarchYearLength(yoe) <= ERA
  {
    var c := yoe / 100;
    var inCentury := yoe - 100 * c;
    var q := inCentury / 4;
    YearStartOf(c, q, inCentury - 4 * q);
  }

  lemma YearStartMonotone(a: int, b: int)
    requires 0 <= a < b < 400 || a >= b
    ensures a < b ==> YearStart(a) + MarchYearLength(a) <= YearStart(b)
    decreases b - a
  {
    if a < b {
      YearStartNext(a);
      YearStartMonotone(a + 1, b);
    }
  }

  /** The closed form gives back the year that a day of the era was built from. */
  lemma YearOfEraIs(yoe: int, doy: int)
    requires 0 <= yoe < 400 && 0 <= doy < MarchYearLength(yoe)
    ensures 0 <= YearStart(yoe) + doy < ERA && YearOfEra(YearStart(yoe) + doy) == yoe
  {
    var doe := YearStart(yoe) + doy;
    YearStartBounds(yoe);
    YearOfEraBracket(doe);
    YearStartMonotone(yoe, YearOfEra(doe));
    YearStartMonotone(YearOfEra(doe), yoe);
  }

  lemma CivilIsDateInEra(z: int, era: int, yoe: int, doy: int)
    requires z + EPOCH_SHIFT == era * ERA + YearStart(yoe) + doy
    requires 0 <= yoe < 400 && 0 <= doy < MarchYearLength(yoe)
    ensures CivilFromDays(z) == DateInEra(era, yoe, doy)
  {
    var doe := YearStart(yoe) + doy;
    YearOfEraIs(yoe, doy);
    RemainderIs(z + EPOCH_SHIFT, ERA, era, doe);
    assert CivilFromDays(z) == DateOfEra(era, doe);
  }

  /** All months but February have the length that the closed form gives them. */
  lemma MonthSpan(y: int, mp: int)
    requires 0 <= mp < 11
    ensures MonthStart(mp + 1) - MonthStart(mp) == MonthLength(y, MonthOf(mp))
  {
  }

  lemma MonthIndexIs(doy: int, mp: int)
    requires 0 <= mp < 12 && MonthStart(mp) <= doy < MonthStart(mp + 1)
    ensures MonthIndex(doy) == mp
  {
    RemainderIs(5 * doy + 2, 153, mp, 5 * doy + 2 - 153 * mp);
  }

  /** The month of a day of the year, and its length. */
  lemma MonthAt(y: int, doy: int, mp: int)
    requires 0 <= doy < MarchYearLength(y) && mp == MonthIndex(doy)
    ensures 0 <= mp < 12 && MonthStart(mp) <= doy
    ensures if mp < 11 then doy < MonthStart(mp + 1) == MonthStart(mp) + MonthLength(y, MonthOf(mp))
            else MonthStart(mp) == 337 && MarchYearLength(y) == 337 + MonthLength(y + 1, 2)
  {
    MonthBracket(doy);
    if mp < 11 {
      MonthSpan(y, mp);
    }
  }

  /** Within the era's calendar, the date is valid and the next day's date is its successor. */
  lemma DateInEraSteps(era: int, yoe: int, doy: int)
    requires 0 <= yoe < 400 && 0 <= doy < MarchYearLength(yoe)
    ensures Valid(DateInEra(era, yoe, doy))
    ensures Successor(DateInEra(era, yoe, doy)) ==
            if doy + 1 < MarchYearLength(yoe) then DateInEra(era, yoe, doy + 1) else Date(yoe + 1 + era * 400, 3, 1)
  {
    var y, mp := yoe + era * 400, MonthIndex(doy);
    LeapPeriod(yoe + 1, era);
    MonthAt(yoe, doy, mp);
    if doy + 1 < MarchYearLength(yoe) {
      if mp == 11 || doy + 1 < MonthStart(mp + 1) {
        MonthIndexIs(doy + 1, mp);
      } else {
        MonthBracket(doy + 1);
        MonthIndexIs(doy + 1, mp + 1);
      }
    }
  }

  /** Every day number is one day of one year of one era. */
  lemma SplitDays(z: int) returns (era: int, yoe: int, doy: int)
    ensures z + EPOCH_SHIFT == era * ERA + YearStart(yoe) + doy
    ensures 0 <= yoe < 400 && 0 <= doy < MarchYearLength(yoe)
  {
    era := (z + EPOCH_SHIFT) / ERA;
    var doe := z + EPOCH_SHIFT - era * ERA;
    yoe := YearOfEra(doe);
    doy := doe - YearStart(yoe);
    YearOfEraBracket(doe);
  }

  /** The day after day `doy` of year `yoe`, which may open the next year or the next era. */
  lemma NextInEra(era: int, yoe: int, doy: int) returns (era': int, yoe': int, doy': int)
    requires 0 <= yoe < 400 && 0 <= doy < MarchYearLength(yoe)
    ensures 0 <= yoe' < 400 && 0 <= doy' < MarchYearLength(yoe')
    ensures era' * ERA + YearStart(yoe') + doy' == era * ERA + YearStart(yoe) + doy + 1
    ensures DateInEra(era', yoe', doy') == Successor(DateInEra(era, yoe, doy))
  {
    DateInEraSteps(era, yoe, doy);
    YearStartNext(yoe);
    if doy + 1 < MarchYearLength(yoe) {
      era', yoe', doy' := era, yoe, doy + 1;
    } else if yoe < 399 {
      era', yoe', doy' := era, yoe + 1, 0;
      assert DateInEra(era, yoe + 1, 0) == Date(yoe + 1 + era * 400, 3, 1);
    } else {
      era', yoe', doy' := era + 1, 0, 0;
      assert DateInEra(era + 1, 0, 0) == Date((era + 1) * 400, 3, 1);
    }
  }

  lemma ValidDay(z: int)
    ensures Valid(CivilFromDays(z))
  {
    var era, yoe, doy := SplitDays(z);
    CivilIsDateInEra(z, era, yoe, doy);
    DateInEraSteps(era, yoe, doy);
  }

  /** `civil_from_days` yields a real calendar date, and the next day number yields the next calendar day. */
  lemma NextDay(z: int)
    ensures Valid(CivilFromDays(z))
    ensures CivilFromDays(z + 1) == Successor(CivilFromDays(z))
  {
    ValidDay(z);
    var era, yoe, doy := SplitDays(z);
    CivilIsDateInEra(z, era, yoe, doy);
    var era', yoe', doy' := NextInEra(era, yoe, doy);
    CivilIsDateInEra(z + 1, era', yoe', doy');
  }

  lemma DaysOfWholeYear(y: int)
    ensures DaysToMonth(y, 12) + 31 == YearLength(y)
    ensures DaysToYear(y + 1) == DaysToYear(y) + YearLength(y)
  {
    assert DaysToMonth(y, 4) == DaysToMonth(y, 2) + MonthLength(y, 2) + 31;
    assert DaysToMonth(y, 7) == DaysToMonth(y, 4) + 30 + 31 + 30;
    assert DaysToMonth(y, 10) == DaysToMonth(y, 7) + 31 + 31 + 30;
    assert DaysToMonth(y, 12) == DaysToMonth(y, 10) + 31 + 30;
  }

  /** Counting to the successor counts one day more. */
  lemma DayNumberOfSuccessor(d: Date)
    requires Valid(d)
    ensures Valid(Successor(d)) && DayNumber(Successor(d)) == DayNumber(d) + 1
  {
    if d.day == MonthLength(d.year, d.month) && d.month == 12 {
      DaysOfWholeYear(d.year);
    }
  }

  /** `f` starts at the epoch and moves one calendar day per day number. */
  ghost predicate WalksTheCalendar(f: int -> Date) {
    f(0) == Date(1970, 1, 1) && forall z :: Valid(f(z)) && f(z + 1) == Successor(f(z))
  }

  lemma {:induction false} CountingInverts(f: int -> Date, z: int)
    requires WalksTheCalendar(f)
    ensures DayNumber(f(z)) == z
    decreases if z >= 0 then z else -z
  {
    if z > 0 {
      CountingInverts(f, z - 1);
      DayNumberOfSuccessor(f(z - 1));
      assert f(z - 1 + 1) == Successor(f(z - 1));
    } else if z < 0 {
      CountingInverts(f, z + 1);
      DayNumberOfSuccessor(f(z));
    }
  }

  /** Day 0 is 1970-01-01. */
  lemma EpochIsDayZero()
    ensures CivilFromDays(0) == Date(1970, 1, 1)
  {
    assert CivilFromDays(0) == DateInEra(4, 369, 306);
  }

  lemma CivilWalks()
    ensures WalksTheCalendar(CivilFromDays)
  {
    EpochIsDayZero();
    forall z ensures Valid(CivilFromDays(z)) && CivilFromDays(z + 1) == Successor(CivilFromDays(z)) {
      NextDay(z);
    }
  }

  /** Counting the days up to the date of `z` gives `z`: `civil_from_days` is right on every day number. */
  lemma CountingInvertsCivil(z: int)
    ensures Valid(CivilFromDays(z)) && DayNumber(CivilFromDays(z)) == z
  {
    CivilWalks();
    CountingInverts(CivilFromDays, z);
    assert Valid(CivilFromDays(z));
  }

  lemma {:induction false} MonthsApart(y: int, m: int, n: int)
    requires 1 <= m < n
    ensures DaysToMonth(y, m) + MonthLength(y, m) <= DaysToMonth(y, n)
    decreases n
  {
    if m + 1 < n {
      MonthsApart(y, m, n - 1);
    }
  }

  lemma {:induction false} DaysToMonthNonNegative(y: int, m: int)
    ensures DaysToMonth(y, m) >= 0
    decreases m
  {
    if m > 1 {
      DaysToMonthNonNegative(y, m - 1);
    }
  }

  lemma {:induction false} DaysToYearMonotone(y: int, w: int)
    requires y < w
    ensures DaysToYear(y) + YearLength(y) <= DaysToYear(w)
    decreases w - y
  {
    DaysOfWholeYear(y);
    if y + 1 < w {
      DaysToYearMonotone(y + 1, w);
    }
  }

  lemma YearsApart(a: Date, b: Date)
    requires Valid(a) && Valid(b) && a.year < b.year
    ensures DayNumber(a) < DayNumber(b)
  {
    DaysToYearMonotone(a.year, b.year);
    DaysOfWholeYear(a.year);
    if a.month < 12 {
      MonthsApart(a.year, a.month, 12);
    }
    DaysToMonthNonNegative(b.year, b.month);
  }

  /** Different dates have different day numbers. */
  lemma DayNumberInjective(a: Date, b: Date)
    requires Valid(a) && Valid(b) && DayNumber(a) == DayNumber(b)
    ensures a == b
  {
    if a.year != b.year {
      if a.year < b.year { YearsApart(a, b); } else { YearsApart(b, a); }
    } else if a.month < b.month {
      MonthsApart(a.year, a.month, b.month);
    } else if b.month < a.month {
      MonthsApart(a.year, b.month, a.month);
    }
  }

  /** Converting a counted day number gives back the date. */
  lemma CivilInvertsCounting(d: Date)
    requires Valid(d)
    ensures CivilFromDays(DayNumber(d)) == d
  {
    CountingInvertsCivil(DayNumber(d));
    DayNumberInjective(CivilFromDays(DayNumber(d)), d);
  }

  // ---------- seconds and machine widths ----------

  const SECONDS_PER_DAY := 86_400

  /** `y as i32`: the low 32 bits as a signed number. */
  function ToI32(y: int): int {
    var low := y % 0x1_0000_0000;
    if low >= 0x8000_0000 then low - 0x1_0000_0000 else low
  }

  function Narrow(d: Date): Date { d.(year := ToI32(d.year)) }

  function UnixToYmd(secs: int): Date {
    Narrow(CivilFromDays(secs / SECONDS_PER_DAY))
  }

  lemma NarrowExact(d: Date)
    ensures Narrow(d) == d <==> -0x8000_0000 <= d.year < 0x8000_0000
  {
  }

  /**
   * The date of a Unix time is the calendar date of the day that contains it, exactly when that date's year fits 32
   * bits; month and day are right for every time.
   */
  lemma UnixDateExact(secs: int) returns (date: Date)
    ensures Valid(date)
    ensures DayNumber(date) * SECONDS_PER_DAY <= secs < (DayNumber(date) + 1) * SECONDS_PER_DAY
    ensures UnixToYmd(secs).month == date.month && UnixToYmd(secs).day == date.day
    ensures UnixToYmd(secs) == date <==> -0x8000_0000 <= date.year < 0x8000_0000
  {
    date := CivilFromDays(secs / SECONDS_PER_DAY);
    CountingInvertsCivil(secs / SECONDS_PER_DAY);
    NarrowExact(date);
  }
}
