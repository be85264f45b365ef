/**
 * The Gregorian calendar arithmetic of JavaScript dates (section 21.4.1 of ECMA-262) over all days,
 * past and future. The host's zone is UTC, so a date's local fields are those of its time value.
 */
module Calendar {

  const MS_PER_DAY := 86_400_000

  /** The largest magnitude of a time value (section 21.4.1.1 of ECMA-262). */
  const TIME_LIMIT := 8_640_000_000_000_000

  function DayFromYear(y: int): int {
    365 * (y - 1970) + (y - 1969) / 4 - (y - 1901) / 100 + (y - 1601) / 400
  }

  predicate IsLeap(y: int) {
    y % 4 == 0 && (y % 100 != 0 || y % 400 == 0)
  }

  /** Days before month `m` (0 for January) in a common or a leap year. */
  function DaysBefore(m: int, leap: bool): int
    requires 0 <= m < 12
  {
    var common :=
      if m == 0 then 0 else if m == 1 then 31 else if m == 2 then 59 else if m == 3 then 90
      else if m == 4 then 120 else if m == 5 then 151 else if m == 6 then 181 else if m == 7 then 212
      else if m == 8 then 243 else if m == 9 then 273 else if m == 10 then 304 else 334;
    common + if leap && m >= 2 then 1 else 0
  }

  /** The first day of month `k`, months being numbered through: `k == 12 * year + month`. */
  function MonthStart(k: int): int {
    DayFromYear(k / 12) + DaysBefore(k % 12, IsLeap(k / 12))
  }

  /** `MakeDay` of ECMA-262: months and dates may overflow. */
  function MakeDay(year: int, month: int, date: int): int {
    MonthStart(12 * year + month) + date - 1
  }

  function MonthLength(k: int): int {
    var m := k % 12;
    if m == 1 then (if IsLeap(k / 12) then 29 else 28)
    else if m == 3 || m == 5 || m == 8 || m == 10 then 30
    else 31
  }

  lemma YearStep(y: int)
    ensures DayFromYear(y + 1) == DayFromYear(y) + if IsLeap(y) then 366 else 365
  {
    assert (y - 1968) / 4 == (y - 1969) / 4 + if y % 4 == 0 then 1 else 0;
    assert (y - 1900) / 100 == (y - 1901) / 100 + if y % 100 == 0 then 1 else 0;
    assert (y - 1600) / 400 == (y - 1601) / 400 + if y % 400 == 0 then 1 else 0;
    if y % 400 == 0 {
      assert y % 100 == 0 && y % 4 == 0;
    } else if y % 100 == 0 {
      assert y % 4 == 0;
    }
  }

  /** Four centuries have 146,097 days, and 1972 is the first leap year after 1970. */
  lemma GregorianCycle(y: int)
    ensures DayFromYear(y + 400) == DayFromYear(y) + 146_097
    ensures DayFromYear(1972) == 730 && DayFromYear(1973) == 1096
  {
  }

  /** Months follow each other without gap, each with its usual length, across leap years and centuries. */
  lemma MonthStep(k: int)
    ensures MonthStart(k + 1) == MonthStart(k) + MonthLength(k)
    ensures 28 <= MonthLength(k) <= 31
  {
    if k % 12 == 11 {
      YearStep(k / 12);
      assert (k + 1) / 12 == k / 12 + 1 && (k + 1) % 12 == 0;
    } else {
      assert (k + 1) / 12 == k / 12 && (k + 1) % 12 == k % 12 + 1;
    }
  }

  lemma {:induction false} MonthSpan(j: int, k: int)
    requires j <= k
    ensures 28 * (k - j) <= MonthStart(k) - MonthStart(j) <= 31 * (k - j)
    decreases k - j
  {
    hide MonthStart, MonthLength;
    if j < k {
      MonthStep(k - 1);
      MonthSpan(j, k - 1);
    }
  }

  /** The month a day falls in, found by walking up from an earlier month. */
  function MonthFrom(d: int, k: int): (r: int)
    requires MonthStart(k) <= d
    ensures MonthStart(r) <= d < MonthStart(r + 1)
    decreases d - MonthStart(k)
  {
    MonthStep(k);
    hide MonthStart, MonthLength;
    if d < MonthStart(k + 1) then k else MonthFrom(d, k + 1)
  }

  const EPOCH_MONTH := 12 * 1970

  lemma EpochStart()
    ensures MonthStart(EPOCH_MONTH) == 0
  {
  }

  function MonthOf(d: int): (k: int)
    ensures MonthStart(k) <= d < MonthStart(k + 1)
  {
    EpochStart();
    hide MonthStart;
    if d >= 0 then
      MonthSpan(EPOCH_MONTH, EPOCH_MONTH + d / 31);
      MonthFrom(d, EPOCH_MONTH + d / 31)
    else
      MonthSpan(EPOCH_MONTH + d / 28, EPOCH_MONTH);
      MonthFrom(d, EPOCH_MONTH + d / 28)
  }

  lemma MonthOfUnique(d: int, k: int)
    requires MonthStart(k) <= d < MonthStart(k + 1)
    ensures MonthOf(d) == k
  {
    hide MonthStart;
    var r := MonthOf(d);
    if r < k {
      MonthSpan(r + 1, k);
    } else if k < r {
      MonthSpan(k + 1, r);
    }
  }

  // Date fields

  function YearOf(d: int): int {
    MonthOf(d) / 12
  }

  function MonthInYear(d: int): (m: int)
    ensures 0 <= m < 12
  {
    MonthOf(d) % 12
  }

  function DateOf(d: int): (date: int)
    ensures 1 <= date <= 31
  {
    MonthStep(MonthOf(d));
    d - MonthStart(MonthOf(d)) + 1
  }

  /** Taking a day apart and making it again is the identity, for every day. */
  lemma FieldsRoundTrip(d: int)
    ensures MakeDay(YearOf(d), MonthInYear(d), DateOf(d)) == d
  {
    hide MonthStart;
    assert 12 * YearOf(d) + MonthInYear(d) == MonthOf(d);
  }

  /** Every proper calendar date is the date of the day it makes. */
  lemma MakeDayRoundTrip(year: int, month: int, date: int)
    requires 0 <= month < 12 && 1 <= date <= MonthLength(12 * year + month)
    ensures var d := MakeDay(year, month, date);
            YearOf(d) == year && MonthInYear(d) == month && DateOf(d) == date
  {
    var k := 12 * year + month;
    MonthStep(k);
    MonthOfUnique(MakeDay(year, month, date), k);
    assert k / 12 == year && k % 12 == month;
  }

  /** Dates are ordered as year, month and day of the month are. */
  lemma LaterMonthLaterDay(d: int, e: int)
    ensures MonthOf(d) < MonthOf(e) ==> d < e
    ensures MonthOf(d) == MonthOf(e) ==> (d < e <==> DateOf(d) < DateOf(e))
  {
    hide MonthStart;
    if MonthOf(d) < MonthOf(e) {
      MonthSpan(MonthOf(d) + 1, MonthOf(e));
    }
  }

  // Time values

  function Day(t: int): int {
    t / MS_PER_DAY
  }

  /** The year a `Date` constructor reads from its first argument: 0 to 99 stand for 1900 to 1999. */
  function FullYear(y: int): int {
    if 0 <= y <= 99 then 1900 + y else y
  }

  /** `new Date(y, m, d, 0, 0, 0, 0)` and `new Date(y, m, d, 23, 59, 59, 999)`. */
  function NewStart(y: int, m: int, d: int): int {
    MakeDay(FullYear(y), m, d) * MS_PER_DAY
  }

  function NewEnd(y: int, m: int, d: int): int {
    MakeDay(FullYear(y), m, d) * MS_PER_DAY + (MS_PER_DAY - 1)
  }

  /** A `Date` object: its setters change the time value in place and keep the time of day. */
  class Date {
    var time: int

    constructor (time: int)
      ensures this.time == time
    {
      this.time := time;
    }

    function Year(): int
      reads this
    {
      YearOf(Day(time))
    }

    function Month(): int
      reads this
    {
      MonthInYear(Day(time))
    }

    function DayOfMonth(): int
      reads this
    {
      DateOf(Day(time))
    }

    method SetDay(day: int)
      modifies this
      ensures Day(time) == day && time % MS_PER_DAY == old(time) % MS_PER_DAY
    {
      time := day * MS_PER_DAY + time % MS_PER_DAY;
    }

    /** `setDate`: the day of the month may overflow in both directions. */
    method SetDate(date: int)
      modifies this
      ensures Day(time) == old(Day(time)) - old(DayOfMonth()) + date
      ensures time % MS_PER_DAY == old(time) % MS_PER_DAY
    {
      hide MonthStart;
      FieldsRoundTrip(Day(time));
      SetDay(MakeDay(Year(), Month(), date));
    }

    method SetMonth(month: int)
      modifies this
      ensures Day(time) == old(MakeDay(Year(), month, DayOfMonth()))
      ensures time % MS_PER_DAY == old(time) % MS_PER_DAY
    {
      SetDay(MakeDay(Year(), month, DayOfMonth()));
    }

    method SetFullYear(year: int)
      modifies this
      ensures Day(time) == old(MakeDay(year, Month(), DayOfMonth()))
      ensures time % MS_PER_DAY == old(time) % MS_PER_DAY
    {
      SetDay(MakeDay(year, Month(), DayOfMonth()));
    }
  }
}
