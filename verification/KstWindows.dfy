/**
 * The windows a search plan can name (src/utils/time.ts): presets such as yesterday or last month, and
 * relative windows of so many days, weeks, months or years up to the end of today, Korean time.
 */
module KstWindows {
  import opened Calendar
  import opened KstRanges
  import opened Options

  datatype TimeUnit = Days | Weeks | Months | Years | UnknownUnit

  // Presets; `d` is the Korean day of the base instant

  function Yesterday(d: int): Range {
    DaysRange(Rebuilt(d) - 1, Rebuilt(d) - 1)
  }

  function DaysBack(d: int, n: int): Range {
    DaysRange(Rebuilt(d) - (n - 1), d)
  }

  function ThisMonth(d: int): Range {
    MonthRange(YearOf(d), MonthInYear(d))
  }

  function LastMonth(d: int): Range {
    var m := MonthInYear(d);
    if m == 0 then MonthRange(YearOf(d) - 1, 11) else MonthRange(YearOf(d), m - 1)
  }

  /** A named preset; `None` for `all`, `all_time` and unknown names: no time filter. */
  function Preset(name: string, d: int): Option<Range> {
    if name == "today" then Some(DaysRange(d, d))
    else if name == "yesterday" then Some(Yesterday(d))
    else if name == "last_7_days" then Some(DaysBack(d, 7))
    else if name == "last_14_days" then Some(DaysBack(d, 14))
    else if name == "last_30_days" then Some(DaysBack(d, 30))
    else if name == "this_month" then Some(ThisMonth(d))
    else if name == "last_month" then Some(LastMonth(d))
    else None
  }

  /** Yesterday ends one millisecond before today begins, unless yesterday is in the year 99. */
  lemma YesterdayMeetsToday(d: int)
    ensures Yesterday(d).to + 1 == DaysRange(d, d).from <==> !IsTwoDigit(YearOf(Rebuilt(d) - 1))
  {
    hide YearOf, Rebuilt, StartOfDay, EndOfDay;
    RebuiltDay(d);
    RebuiltDay(Rebuilt(d) - 1);
  }

  /** Last month ends one millisecond before this month begins, January included, unless it is in the year -1 or 99. */
  lemma LastMonthMeetsThisMonth(d: int)
    ensures LastMonth(d).to + 1 == ThisMonth(d).from <==> !(MonthInYear(d) == 0 && (YearOf(d) == 0 || YearOf(d) == 100))
  {
    hide MonthRange, YearOf, MonthInYear;
    var m := MonthInYear(d);
    MonthsMeet(if m == 0 then YearOf(d) - 1 else YearOf(d), if m == 0 then 11 else m - 1);
  }

  // Relative windows

  /** The first day of a window of `value` units that ends with day `d`, as the `Date` setters compute it. */
  function WindowStart(unit: TimeUnit, value: int, d: int): int {
    match unit
    case Days => d - value + 1
    case Weeks => d - value * 7 + 1
    case Months => MakeDay(YearOf(d), MonthInYear(d) - value, DateOf(d))
    case Years => MakeDay(YearOf(d) - value, MonthInYear(d), DateOf(d))
    case UnknownUnit => d
  }

  function AtLeastOne(value: int): int {
    if value < 1 then 1 else value
  }

  function Window(unit: TimeUnit, value: int, d: int): Range {
    DaysRange(WindowStart(unit, AtLeastOne(value), Rebuilt(d)), d)
  }

  /** The months by which a window of calendar units goes back. */
  function MonthsIn(unit: TimeUnit, value: int): int {
    if unit == Years then 12 * value else value
  }

  lemma WindowStartByMonths(unit: TimeUnit, value: int, d: int)
    requires unit == Months || unit == Years
    ensures WindowStart(unit, value, d) == MonthStart(MonthOf(d) - MonthsIn(unit, value)) + DateOf(d) - 1
  {
    hide MonthStart, MonthOf;
    assert 12 * YearOf(d) + MonthInYear(d) == MonthOf(d);
  }

  /** A window of n years is the window of 12n months. */
  lemma YearsAreMonths(value: int, d: int)
    ensures WindowStart(Years, value, d) == WindowStart(Months, 12 * value, d)
  {
    hide MonthStart, MonthOf, WindowStart;
    WindowStartByMonths(Years, value, d);
    WindowStartByMonths(Months, 12 * value, d);
  }

  /** The more units, the earlier the window starts: by at least a day per unit, and never after its end. */
  lemma WindowsGrow(unit: TimeUnit, v: int, w: int, d: int)
    requires unit != UnknownUnit && 0 <= v < w
    ensures WindowStart(unit, w, d) <= WindowStart(unit, v, d) - (w - v)
    ensures WindowStart(unit, w, d) <= d
  {
    hide MonthStart, MonthOf;
    if unit == Months || unit == Years {
      WindowStartByMonths(unit, v, d);
      WindowStartByMonths(unit, w, d);
      MonthSpan(MonthOf(d) - MonthsIn(unit, w), MonthOf(d) - MonthsIn(unit, v));
      MonthSpan(MonthOf(d) - MonthsIn(unit, w), MonthOf(d));
      FieldsRoundTrip(d);
      assert MonthStart(MonthOf(d)) + DateOf(d) - 1 == d by {
        assert 12 * YearOf(d) + MonthInYear(d) == MonthOf(d);
      }
    }
  }

  /**
   * Going back by months keeps the day of the month where the target month has that day; otherwise the
   * surplus days (31st, 29 February) spill into the month after it.
   */
  lemma MonthOverflow(unit: TimeUnit, value: int, d: int)
    requires unit == Months || unit == Years
    ensures var k, start := MonthOf(d) - MonthsIn(unit, value), WindowStart(unit, value, d);
            if DateOf(d) <= MonthLength(k) then MonthOf(start) == k && DateOf(start) == DateOf(d)
            else MonthOf(start) == k + 1 && DateOf(start) == DateOf(d) - MonthLength(k)
  {
    hide MonthStart, MonthLength;
    WindowStartByMonths(unit, value, d);
    var k, start := MonthOf(d) - MonthsIn(unit, value), WindowStart(unit, value, d);
    MonthStep(k);
    MonthStep(k + 1);
    MonthOfUnique(start, if DateOf(d) <= MonthLength(k) then k else k + 1);
  }

  /**
   * A window of n days or weeks covers exactly n or 7n whole days, if and only if its first day has no two-digit
   * year.
   */
  lemma DayWindowsCover(unit: TimeUnit, value: int, d: int)
    requires (unit == Days || unit == Weeks) && value >= 1
    ensures var w := Window(unit, value, d);
            w.to - w.from + 1 == (if unit == Days then value else 7 * value) * MS_PER_DAY
            <==> !IsTwoDigit(YearOf(WindowStart(unit, value, Rebuilt(d))))
  {
    hide YearOf, Rebuilt, StartOfDay, EndOfDay;
    RebuiltDay(d);
    RebuiltDay(WindowStart(unit, value, Rebuilt(d)));
  }

  // Windows that begin in a two-digit year

  /** The same date 1900 years on, which is what the `Date` constructor makes of a two-digit year. */
  function CenturiesLater(d: int): int {
    MakeDay(1900 + YearOf(d), MonthInYear(d), DateOf(d))
  }

  /** The one date that does not exist 1900 years on; it becomes 1 March. */
  predicate IsLeapDayOfYearZero(d: int) {
    YearOf(d) == 0 && MonthInYear(d) == 1 && DateOf(d) == 29
  }

  lemma CenturiesLaterMonth(d: int)
    requires IsTwoDigit(YearOf(d))
    ensures CenturiesLater(d) == MonthStart(MonthOf(d) + 22_800) + DateOf(d) - 1
    ensures DateOf(d) <= MonthLength(MonthOf(d) + 22_800) <==> !IsLeapDayOfYearZero(d)
    ensures IsLeapDayOfYearZero(d) ==> CenturiesLater(d) == MonthStart(MonthOf(d) + 22_801)
  {
    var k := MonthOf(d);
    MonthStep(k);
    MonthStep(k + 22_800);
    hide MonthStart, MonthOf;
    assert 12 * YearOf(d) + MonthInYear(d) == k && (k + 22_800) % 12 == k % 12 && (k + 22_800) / 12 == k / 12 + 1900;
    LeapCenturies(k / 12);
    assert DateOf(d) <= MonthLength(k);
  }

  lemma LeapCenturies(y: int)
    requires 0 <= y <= 99
    ensures IsLeap(y) <==> y % 4 == 0
    ensures IsLeap(1900 + y) <==> y % 4 == 0 && y > 0
  {
  }

  lemma MonthsKeepOrder(j: int, k: int)
    requires j < k
    ensures MonthStart(j + 1) <= MonthStart(k) && (MonthStart(j + 1) == MonthStart(k) <==> k == j + 1)
  {
    hide MonthStart;
    MonthSpan(j + 1, k);
  }

  lemma DateInMonth(d: int)
    ensures d == MonthStart(MonthOf(d)) + DateOf(d) - 1
  {
  }

  lemma LeapDayIsLast(d: int)
    requires IsLeapDayOfYearZero(d)
    ensures MonthOf(d) == 1 && d + 1 == MonthStart(2)
  {
    hide MonthStart;
    assert d == MonthStart(MonthOf(d)) + 28;
    MonthStep(1);
  }

  /** Days of two-digit years keep their order 1900 years on, except that 29 February and 1 March of year 0 coincide. */
  lemma CenturiesLaterOrder(d: int, e: int)
    requires IsTwoDigit(YearOf(d)) && IsTwoDigit(YearOf(e)) && d < e
    ensures CenturiesLater(d) < CenturiesLater(e) <==> !(IsLeapDayOfYearZero(d) && e == d + 1)
  {
    hide MonthStart, MonthLength, MonthOf, CenturiesLater, DateOf, IsLeapDayOfYearZero, YearOf, IsTwoDigit;
    var j, k := MonthOf(d), MonthOf(e);
    CenturiesLaterMonth(d);
    CenturiesLaterMonth(e);
    LaterMonthLaterDay(e, d);
    LaterMonthLaterDay(d, e);
    DateInMonth(d);
    DateInMonth(e);
    if IsLeapDayOfYearZero(d) {
      LeapDayIsLast(d);
    }
    MonthStep(j + 22_800);
    if j < k {
      MonthsKeepOrder(j + 22_800, k + 22_800);
      MonthsKeepOrder(j, k);
    }
  }

  lemma TwoDigitMonths(d: int)
    ensures IsTwoDigit(YearOf(d)) <==> 0 <= MonthOf(d) < 1200
    ensures IsLeapDayOfYearZero(d) ==> MonthOf(d) == 1
    ensures MonthOf(d) < 24_000 <==> YearOf(d) < 2000
  {
    hide MonthOf;
  }

  lemma CenturiesLaterYear(d: int)
    requires IsTwoDigit(YearOf(d))
    ensures YearOf(CenturiesLater(d)) < 2000
  {
    hide MonthStart, MonthLength, MonthOf, CenturiesLater, DateOf, IsLeapDayOfYearZero, YearOf, IsTwoDigit;
    var k := MonthOf(d) + 22_800;
    CenturiesLaterMonth(d);
    TwoDigitMonths(d);
    MonthStep(k);
    MonthStep(k + 1);
    MonthOfUnique(CenturiesLater(d), if IsLeapDayOfYearZero(d) then k + 1 else k);
    TwoDigitMonths(CenturiesLater(d));
  }

  /**
   * A window is not empty, and then covers a whole day at least, if and only if it does not begin in a
   * two-digit year whose date 1900 years on is after its end; so windows that end in 2000 or later never are.
   */
  lemma WindowsNotEmpty(unit: TimeUnit, value: int, d: int)
    requires unit != UnknownUnit
    ensures var w, start := Window(unit, value, d), WindowStart(unit, AtLeastOne(value), Rebuilt(d));
            && (w.from <= w.to <==> !(IsTwoDigit(YearOf(start)) && CenturiesLater(start) > Rebuilt(d)))
            && (w.from <= w.to <==> w.from + MS_PER_DAY - 1 <= w.to)
            && (YearOf(Rebuilt(d)) >= 2000 ==> w.from <= w.to)
  {
    var start := WindowStart(unit, AtLeastOne(value), Rebuilt(d));
    RebuiltLater(start);
    if IsTwoDigit(YearOf(start)) {
      CenturiesLaterYear(start);
      LaterMonthLaterDay(CenturiesLater(start), Rebuilt(d));
    }
    hide Rebuilt, StartOfDay, EndOfDay, WindowStart, CenturiesLater, MonthOf;
    RebuiltDay(d);
    RebuiltDay(start);
    WindowsGrow(unit, 0, AtLeastOne(value), Rebuilt(d));
  }

  /**
   * A larger window strictly contains a smaller one of the same unit, if and only if it does not begin in a
   * two-digit year so late that its date 1900 years on is not before the start of the smaller one; when both
   * begin in such years, that is 29 February and 1 March of year 0.
   */
  lemma WindowsNest(unit: TimeUnit, v: int, w: int, d: int)
    requires unit != UnknownUnit && 1 <= v < w
    ensures Window(unit, w, d).to == Window(unit, v, d).to
    ensures var larger, smaller := WindowStart(unit, w, Rebuilt(d)), WindowStart(unit, v, Rebuilt(d));
            Window(unit, w, d).from < Window(unit, v, d).from
            <==> (IsTwoDigit(YearOf(larger)) ==>
                    if IsTwoDigit(YearOf(smaller)) then !(IsLeapDayOfYearZero(larger) && smaller == larger + 1)
                    else CenturiesLater(larger) < smaller)
  {
    var larger, smaller := WindowStart(unit, w, Rebuilt(d)), WindowStart(unit, v, Rebuilt(d));
    hide YearOf, StartOfDay, EndOfDay, WindowStart, CenturiesLater, IsLeapDayOfYearZero, MonthOf, Rebuilt;
    WindowsGrow(unit, v, w, Rebuilt(d));
    RebuiltDay(d);
    RebuiltDay(smaller);
    RebuiltDay(larger);
    RebuiltLater(larger);
    RebuiltLater(smaller);
    if IsTwoDigit(YearOf(larger)) && IsTwoDigit(YearOf(smaller)) {
      CenturiesLaterOrder(larger, smaller);
    }
  }

  lemma RebuiltLater(d: int)
    ensures IsTwoDigit(YearOf(d)) ==> Rebuilt(d) == CenturiesLater(d) && d < Rebuilt(d)
  {
    if IsTwoDigit(YearOf(d)) {
      CenturiesLaterMonth(d);
      hide MonthStart;
      LaterCentury(d, MonthOf(d) + 22_800);
    }
  }
}
