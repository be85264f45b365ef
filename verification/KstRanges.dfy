/**
 * Ranges in Korean time (src/utils/time.ts): a range holds the UTC instants, in milliseconds, of its first
 * and last moment. Wall-clock time is UTC shifted by nine hours.
 */
module KstRanges {
  import opened Calendar

  const KST_OFFSET := 9 * 60 * 60 * 1000

  function ToKst(t: int): int {
    t + KST_OFFSET
  }

  function FromKst(t: int): int {
    t - KST_OFFSET
  }

  /** The Korean calendar day of an instant. */
  function KstDay(t: int): int {
    Day(ToKst(t))
  }

  function KstYear(t: int): int {
    YearOf(KstDay(t))
  }

  /** Years that the `Date` constructor cannot express: 0 to 99 are read as 1900 to 1999. */
  predicate IsTwoDigit(year: int) {
    0 <= year <= 99
  }

  datatype Range = Range(from: int, to: int)

  predicate Contains(r: Range, t: int) {
    r.from <= t <= r.to
  }

  /** `startOfDay` and `endOfDay` construct the day anew from its fields, and so may miss a two-digit year. */
  function Rebuilt(d: int): int {
    MakeDay(FullYear(YearOf(d)), MonthInYear(d), DateOf(d))
  }

  function StartOfDay(d: int): int {
    NewStart(YearOf(d), MonthInYear(d), DateOf(d))
  }

  function EndOfDay(d: int): int {
    NewEnd(YearOf(d), MonthInYear(d), DateOf(d))
  }

  function DaysRange(first: int, last: int): Range {
    Range(FromKst(StartOfDay(first)), FromKst(EndOfDay(last)))
  }

  function MonthRange(year: int, month: int): Range {
    Range(FromKst(NewStart(year, month, 1)), FromKst(NewEnd(year, month + 1, 0)))
  }

  function QuarterRange(year: int, quarter: int): Range {
    Range(FromKst(NewStart(year, (quarter - 1) * 3, 1)), FromKst(NewEnd(year, quarter * 3, 0)))
  }

  function YearRange(year: int): Range {
    Range(MonthRange(year, 0).from, MonthRange(year, 11).to)
  }

  // Months, quarters and years tile the time line

  lemma WithinDays(t: int, first: int, next: int)
    ensures first * MS_PER_DAY <= t < next * MS_PER_DAY <==> first <= Day(t) < next
  {
  }

  /** A month range holds exactly the instants whose Korean date is in that month. */
  lemma MonthRangeContains(year: int, month: int, t: int)
    requires 0 <= month < 12
    ensures Contains(MonthRange(year, month), t) <==> MonthOf(KstDay(t)) == 12 * FullYear(year) + month
  {
    hide MonthStart;
    var k := 12 * FullYear(year) + month;
    WithinDays(ToKst(t), MonthStart(k), MonthStart(k + 1));
    if MonthStart(k) <= KstDay(t) < MonthStart(k + 1) {
      MonthOfUnique(KstDay(t), k);
    }
  }

  lemma QuarterRangeContains(year: int, quarter: int, t: int)
    requires 1 <= quarter <= 4
    ensures Contains(QuarterRange(year, quarter), t) <==>
            exists m :: 3 * quarter - 3 <= m < 3 * quarter && Contains(MonthRange(year, m), t)
  {
    hide MonthStart, MonthRange;
    var k := 12 * FullYear(year) + 3 * quarter - 3;
    WithinDays(ToKst(t), MonthStart(k), MonthStart(k + 3));
    MonthSpan(k, k + 1);
    MonthSpan(k + 1, k + 2);
    MonthSpan(k + 2, k + 3);
    forall m | 3 * quarter - 3 <= m < 3 * quarter
      ensures Contains(MonthRange(year, m), t) <==> MonthOf(KstDay(t)) == k + m - (3 * quarter - 3)
    {
      MonthRangeContains(year, m, t);
    }
    if k <= MonthOf(KstDay(t)) < k + 3 {
      assert Contains(MonthRange(year, MonthOf(KstDay(t)) - k + (3 * quarter - 3)), t);
      MonthSpan(k, MonthOf(KstDay(t)));
      MonthSpan(MonthOf(KstDay(t)) + 1, k + 3);
    } else if MonthOf(KstDay(t)) < k {
      MonthSpan(MonthOf(KstDay(t)) + 1, k);
    } else {
      MonthSpan(k + 3, MonthOf(KstDay(t)));
    }
  }

  /** A year range holds exactly the instants whose Korean date is in that year. */
  lemma YearRangeContains(year: int, t: int)
    ensures Contains(YearRange(year), t) <==> KstYear(t) == FullYear(year)
  {
    hide MonthStart;
    var k := 12 * FullYear(year);
    WithinDays(ToKst(t), MonthStart(k), MonthStart(k + 12));
    var here := MonthOf(KstDay(t));
    if here < k {
      MonthSpan(here + 1, k);
    } else if here >= k + 12 {
      MonthSpan(k + 12, here);
    } else {
      MonthSpan(k, here);
      MonthSpan(here + 1, k + 12);
    }
  }

  /** Every instant outside the years 0 to 99 lies in one month range, and in no other of a proper year. */
  lemma MonthsTile(t: int)
    ensures (exists y, m :: 0 <= m < 12 && Contains(MonthRange(y, m), t)) <==> !IsTwoDigit(KstYear(t))
    ensures forall y, m, y', m' ::
              && 0 <= m < 12 && 0 <= m' < 12 && !IsTwoDigit(y) && !IsTwoDigit(y')
              && Contains(MonthRange(y, m), t) && Contains(MonthRange(y', m'), t)
              ==> y == y' && m == m'
  {
    hide MonthOf, MonthRange, Contains;
    forall y, m | 0 <= m < 12
      ensures Contains(MonthRange(y, m), t) <==> KstYear(t) == FullYear(y) && MonthInYear(KstDay(t)) == m
    {
      MonthRangeContains(y, m, t);
      assert (12 * FullYear(y) + m) / 12 == FullYear(y) && (12 * FullYear(y) + m) % 12 == m;
    }
    if !IsTwoDigit(KstYear(t)) {
      assert Contains(MonthRange(KstYear(t), MonthInYear(KstDay(t))), t);
    }
  }

  /**
   * The next month begins one millisecond after a month ends, except where the constructor's
   * two-digit years begin and end.
   */
  lemma MonthsMeet(year: int, month: int)
    requires 0 <= month < 12
    ensures var next := if month == 11 then MonthRange(year + 1, 0) else MonthRange(year, month + 1);
            MonthRange(year, month).to + 1 == next.from <==> !(month == 11 && (year == -1 || year == 99))
  {
    hide MonthStart;
    var k := 12 * FullYear(year) + month + 1;
    var n := if month == 11 then 12 * FullYear(year + 1) else k;
    if k < n {
      MonthSpan(k, n);
    } else if n < k {
      MonthSpan(n, k);
    }
  }

  /** Three months make each quarter and twelve each year. */
  lemma MonthsMakeUp(year: int, quarter: int)
    ensures QuarterRange(year, quarter)
         == Range(MonthRange(year, 3 * quarter - 3).from, MonthRange(year, 3 * quarter - 1).to)
    ensures YearRange(year) == Range(QuarterRange(year, 1).from, QuarterRange(year, 4).to)
  {
  }

  // Days

  /** Rebuilding a day changes it if and only if its year has one or two digits. */
  lemma RebuiltDay(d: int)
    ensures Rebuilt(d) == d <==> !IsTwoDigit(YearOf(d))
    ensures !IsTwoDigit(YearOf(Rebuilt(d)))
    ensures StartOfDay(d) == Rebuilt(d) * MS_PER_DAY
    ensures EndOfDay(d) == Rebuilt(d) * MS_PER_DAY + (MS_PER_DAY - 1)
    ensures Day(StartOfDay(d)) == Rebuilt(d) && Day(EndOfDay(d)) == Rebuilt(d)
  {
    hide MonthStart, MonthOf;
    FieldsRoundTrip(d);
    if IsTwoDigit(YearOf(d)) {
      assert 12 * FullYear(YearOf(d)) + MonthInYear(d) == MonthOf(d) + 12 * 1900;
      LaterCentury(d, MonthOf(d) + 12 * 1900);
    }
  }

  /** The same date in a later month is a later day, in that month or the one after it. */
  lemma LaterCentury(d: int, k: int)
    requires MonthOf(d) < k
    ensures var e := MonthStart(k) + DateOf(d) - 1;
            d < e && k <= MonthOf(e) <= k + 1
  {
    hide MonthStart;
    var e := MonthStart(k) + DateOf(d) - 1;
    MonthSpan(MonthOf(d) + 1, k);
    MonthSpan(k, k + 2);
    var r := MonthOf(e);
    if r < k {
      MonthSpan(r + 1, k);
    } else if k + 2 <= r {
      MonthSpan(k + 2, r);
    }
  }

  /** Today holds the present if and only if the year can be expressed. */
  lemma TodayContainsNow(t: int)
    ensures Contains(DaysRange(KstDay(t), KstDay(t)), t) <==> !IsTwoDigit(KstYear(t))
  {
    RebuiltDay(KstDay(t));
    WithinDays(ToKst(t), Rebuilt(KstDay(t)), Rebuilt(KstDay(t)) + 1);
  }

  lemma ThisMonthContainsNow(t: int)
    ensures Contains(MonthRange(KstYear(t), MonthInYear(KstDay(t))), t) <==> !IsTwoDigit(KstYear(t))
  {
    hide MonthOf;
    MonthRangeContains(KstYear(t), MonthInYear(KstDay(t)), t);
  }
}
