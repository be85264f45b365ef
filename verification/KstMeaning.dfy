/**
 * What a resolved time filter covers, stated about `Resolve` itself (src/utils/time.ts): which instants lie in
 * a named preset, a relative window, a month, a quarter, a year or a label, by their Korean dates.
 */
module KstMeaning {
  import opened Calendar
  import opened KstFilters
  import opened KstRanges
  import opened KstWindows
  import opened Options
  import opened TimeLabels

  /** 00:00 in Korea is 15:00 UTC of the day before. */
  const MIDNIGHT_UTC := 15 * 60 * 60 * 1000

  /** The range holds exactly the instants of one Korean day. */
  ghost predicate IsDay(r: Range, d: int) {
    forall u :: Contains(r, u) <==> KstDay(u) == d
  }

  /** The range holds exactly the instants of the Korean months from `k` up to, but not including, `next`. */
  ghost predicate IsMonths(r: Range, k: int, next: int) {
    forall u :: Contains(r, u) <==> k <= MonthOf(KstDay(u)) < next
  }

  lemma DayRangeIsDay(d: int)
    ensures var r := DaysRange(d, d);
            && IsDay(r, Rebuilt(d)) && r.to - r.from + 1 == MS_PER_DAY && r.from % MS_PER_DAY == MIDNIGHT_UTC
  {
    hide Rebuilt, StartOfDay, EndOfDay, YearOf;
    RebuiltDay(d);
    DayBounds(Rebuilt(d));
  }

  lemma DayBounds(n: int)
    ensures var r := Range(FromKst(n * MS_PER_DAY), FromKst(n * MS_PER_DAY + (MS_PER_DAY - 1)));
            && IsDay(r, n) && r.to - r.from + 1 == MS_PER_DAY && r.from % MS_PER_DAY == MIDNIGHT_UTC
  {
    var r := Range(FromKst(n * MS_PER_DAY), FromKst(n * MS_PER_DAY + (MS_PER_DAY - 1)));
    assert r.from == (n - 1) * MS_PER_DAY + MIDNIGHT_UTC;
    Midnight(n - 1);
    forall u ensures Contains(r, u) <==> KstDay(u) == n {
      WithinDays(ToKst(u), n, n + 1);
    }
  }

  lemma Midnight(n: int)
    ensures (n * MS_PER_DAY + MIDNIGHT_UTC) % MS_PER_DAY == MIDNIGHT_UTC
  {
  }

  /** Every day has an instant. */
  lemma DayHasInstant(d: int)
    ensures KstDay(FromKst(d * MS_PER_DAY)) == d
  {
  }

  lemma OneDay(r: Range, d: int, e: int)
    requires IsDay(r, d)
    ensures IsDay(r, e) <==> d == e
  {
    DayHasInstant(d);
    DayHasInstant(e);
    assert Contains(r, FromKst(d * MS_PER_DAY));
  }

  lemma MonthHasInstant(k: int) returns (u: int)
    ensures MonthOf(KstDay(u)) == k
  {
    hide MonthStart;
    u := FromKst(MonthStart(k) * MS_PER_DAY);
    DayHasInstant(MonthStart(k));
    MonthStep(k);
    MonthOfUnique(MonthStart(k), k);
  }

  lemma MonthRangeIsMonth(year: int, month: int)
    requires 0 <= month < 12
    ensures IsMonths(MonthRange(year, month), 12 * FullYear(year) + month, 12 * FullYear(year) + month + 1)
  {
    hide MonthRange, MonthOf, KstDay;
    forall u {
      MonthRangeContains(year, month, u);
    }
  }

  lemma OneMonth(r: Range, j: int, k: int)
    requires IsMonths(r, j, j + 1)
    ensures IsMonths(r, k, k + 1) <==> j == k
  {
    hide MonthOf, KstDay;
    var u := MonthHasInstant(j);
    assert Contains(r, u);
  }

  // Named presets

  lemma NamedIsPreset(name: string, d: int)
    ensures Resolve(Named(name), d) == PublishIf(Preset(LowerAll(name), d))
  {
    hide Preset, LowerAll;
  }

  lemma PresetsAre(d: int)
    ensures Preset("today", d) == Some(DaysRange(d, d))
    ensures Preset("yesterday", d) == Some(DaysRange(Rebuilt(d) - 1, Rebuilt(d) - 1)) == Some(Yesterday(d))
    ensures Preset("last_7_days", d) == Some(DaysRange(Rebuilt(d) - 6, d))
    ensures Preset("last_14_days", d) == Some(DaysRange(Rebuilt(d) - 13, d))
    ensures Preset("last_30_days", d) == Some(DaysRange(Rebuilt(d) - 29, d))
    ensures Preset("this_month", d) == Some(MonthRange(YearOf(d), MonthInYear(d)))
    ensures Preset("last_month", d) == Some(MonthRange((MonthOf(d) - 1) / 12, (MonthOf(d) - 1) % 12))
  {
    hide DaysRange, MonthRange, Rebuilt, MonthOf;
    MonthBefore(MonthOf(d));
  }

  lemma NamedValue(name: string, d: int, r: Range)
    requires Resolve(Named(name), d).Some? && Preset(LowerAll(name), d) == Some(r)
    ensures Resolve(Named(name), d).value == r
  {
    hide Preset, LowerAll;
  }

  lemma TodayIs(s: string, d: int)
    requires s == "today"
    ensures Preset(s, d) == Some(DaysRange(d, d))
  {
    hide DaysRange, MonthRange, Rebuilt;
  }

  lemma YesterdayIs(s: string, d: int)
    requires s == "yesterday"
    ensures Preset(s, d) == Some(DaysRange(Rebuilt(d) - 1, Rebuilt(d) - 1))
  {
    hide DaysRange, MonthRange, Rebuilt;
  }

  lemma YesterdayIsRange(d: int)
    ensures Yesterday(d) == DaysRange(Rebuilt(d) - 1, Rebuilt(d) - 1)
  {
    hide DaysRange, Rebuilt;
  }

  predicate IsLastDays(s: string, n: int) {
    (s == "last_7_days" && n == 7) || (s == "last_14_days" && n == 14) || (s == "last_30_days" && n == 30)
  }

  lemma LastDaysAre(s: string, n: int, d: int)
    requires IsLastDays(s, n)
    ensures Preset(s, d) == Some(DaysRange(Rebuilt(d) - (n - 1), d))
  {
    hide DaysRange, MonthRange, Rebuilt;
  }

  lemma MonthBefore(k: int)
    ensures k % 12 == 0 ==> (k - 1) / 12 == k / 12 - 1 && (k - 1) % 12 == 11
    ensures k % 12 != 0 ==> (k - 1) / 12 == k / 12 && (k - 1) % 12 == k % 12 - 1
  {
  }

  /** `today` holds exactly the instants of the base instant's Korean day, unless that is in a two-digit year. */
  lemma TodayIsToday(name: string, t: int)
    requires LowerAll(name) == "today" && Resolve(Named(name), KstDay(t)).Some?
    ensures var r := Resolve(Named(name), KstDay(t)).value;
            && r.to - r.from + 1 == MS_PER_DAY && r.from % MS_PER_DAY == MIDNIGHT_UTC
            && (IsDay(r, KstDay(t)) <==> !IsTwoDigit(KstYear(t)))
  {
    hide Resolve, Preset, DaysRange, Rebuilt, YearOf, KstDay, IsDay, LowerAll, Yesterday;
    var d := KstDay(t);
    var r := Resolve(Named(name), d).value;
    NamedIsPreset(name, d);
    PresetsAre(d);
    DayRangeIsDay(d);
    RebuiltDay(d);
    OneDay(r, Rebuilt(d), d);
  }

  /**
   * `yesterday` is a whole day; it ends one millisecond before `today` begins, and is the day before it, unless
   * that is in a two-digit year.
   */
  lemma YesterdayIsBefore(name: string, today: string, t: int)
    requires LowerAll(name) == "yesterday" && LowerAll(today) == "today"
    requires Resolve(Named(name), KstDay(t)).Some? && Resolve(Named(today), KstDay(t)).Some?
    ensures var r, now := Resolve(Named(name), KstDay(t)).value, Resolve(Named(today), KstDay(t)).value;
            && r.to - r.from + 1 == MS_PER_DAY && r.from % MS_PER_DAY == MIDNIGHT_UTC
            && (r.to + 1 == now.from <==> !IsTwoDigit(YearOf(Rebuilt(KstDay(t)) - 1)))
            && (IsDay(r, Rebuilt(KstDay(t)) - 1) <==> !IsTwoDigit(YearOf(Rebuilt(KstDay(t)) - 1)))
  {
    hide Resolve, Preset, DaysRange, Rebuilt, YearOf, KstDay, IsDay, LowerAll, Yesterday;
    var d := KstDay(t);
    var before := Rebuilt(d) - 1;
    var r := Resolve(Named(name), d).value;
    YesterdayIs(LowerAll(name), d);
    TodayIs(LowerAll(today), d);
    NamedValue(name, d, DaysRange(before, before));
    NamedValue(today, d, DaysRange(d, d));
    YesterdayMeetsToday(d);
    YesterdayIsRange(d);
    DayRangeIsDay(before);
    RebuiltDay(before);
    OneDay(r, Rebuilt(before), before);
  }

  /**
   * `last_7_days` and its like end with today and are so many whole days long, unless they begin in a two-digit
   * year.
   */
  lemma LastDaysAreDays(name: string, today: string, n: int, t: int)
    requires IsLastDays(LowerAll(name), n) && LowerAll(today) == "today"
    requires Resolve(Named(name), KstDay(t)).Some? && Resolve(Named(today), KstDay(t)).Some?
    ensures var r, now := Resolve(Named(name), KstDay(t)).value, Resolve(Named(today), KstDay(t)).value;
            && r.to == now.to
            && (r.to - r.from + 1 == n * MS_PER_DAY <==> !IsTwoDigit(YearOf(Rebuilt(KstDay(t)) - (n - 1))))
  {
    hide Resolve, Preset, Rebuilt, YearOf, KstDay, LowerAll, StartOfDay, EndOfDay, IsLastDays;
    var d := KstDay(t);
    var first := Rebuilt(d) - (n - 1);
    LastDaysAre(LowerAll(name), n, d);
    TodayIs(LowerAll(today), d);
    NamedValue(name, d, DaysRange(first, d));
    NamedValue(today, d, DaysRange(d, d));
    RebuiltDay(d);
    RebuiltDay(first);
  }

  /** `this_month` holds exactly the instants of the base instant's Korean month, unless that is in a two-digit year. */
  lemma ThisMonthIsThis(name: string, t: int)
    requires LowerAll(name) == "this_month" && Resolve(Named(name), KstDay(t)).Some?
    ensures var r, k := Resolve(Named(name), KstDay(t)).value, MonthOf(KstDay(t));
            IsMonths(r, k, k + 1) <==> !IsTwoDigit(KstYear(t))
  {
    hide Resolve, Preset, MonthRange, MonthOf, KstDay, IsMonths, LowerAll, DaysRange, Rebuilt, Yesterday;
    var d := KstDay(t);
    var r, k := Resolve(Named(name), d).value, MonthOf(d);
    NamedIsPreset(name, d);
    PresetsAre(d);
    assert 12 * YearOf(d) + MonthInYear(d) == k;
    MonthRangeIsMonth(YearOf(d), MonthInYear(d));
    OneMonth(r, 12 * FullYear(YearOf(d)) + MonthInYear(d), k);
  }

  /** `last_month` holds exactly those of the month before, unless that is in a two-digit year. */
  lemma LastMonthIsBefore(name: string, t: int)
    requires LowerAll(name) == "last_month" && Resolve(Named(name), KstDay(t)).Some?
    ensures var r, k := Resolve(Named(name), KstDay(t)).value, MonthOf(KstDay(t)) - 1;
            IsMonths(r, k, k + 1) <==> !IsTwoDigit(k / 12)
  {
    hide Resolve, Preset, MonthRange, MonthOf, KstDay, IsMonths, LowerAll, DaysRange, Rebuilt, Yesterday;
    var d := KstDay(t);
    var r, k := Resolve(Named(name), d).value, MonthOf(d) - 1;
    NamedIsPreset(name, d);
    PresetsAre(d);
    MonthRangeIsMonth(k / 12, k % 12);
    OneMonth(r, 12 * FullYear(k / 12) + k % 12, k);
  }

  predicate IsPresetName(s: string) {
    || s == "today" || s == "yesterday" || s == "last_7_days" || s == "last_14_days" || s == "last_30_days"
    || s == "this_month" || s == "last_month"
  }

  /** No other name is a filter, `all` and `all_time` included. */
  lemma OtherNamesAreNone(name: string, d: int)
    ensures !IsPresetName(LowerAll(name)) ==> Resolve(Named(name), d).None?
  {
    hide DaysRange, MonthRange;
  }

  /** A preset written as a label, in any case and with any white space, is that preset. */
  lemma LabelledPreset(text: string, name: string, d: int)
    requires Squeeze(text) == LowerAll(name)
    requires IsPresetName(LowerAll(name)) || LowerAll(name) == "all" || LowerAll(name) == "all_time"
    ensures Resolve(Labelled(text), d) == Resolve(Named(name), d)
  {
    hide Preset, Squeeze, LowerAll, MatchLabel;
  }

  /** A label that is neither a preset nor of a known form is no filter. */
  lemma UnknownLabelIsNone(text: string, d: int)
    requires !IsPresetName(Squeeze(text)) && MatchLabel(Squeeze(text)).None?
    ensures Resolve(Labelled(text), d).None?
  {
    hide DaysRange, MonthRange, Squeeze, MatchLabel;
  }

  // Relative windows

  lemma UnknownUnitIsToday(value: int, today: string, d: int)
    requires LowerAll(today) == "today"
    ensures Resolve(Relative(UnknownUnit, value), d) == Resolve(Named(today), d)
  {
    RebuiltDay(d);
    RebuiltDay(Rebuilt(d));
    hide Rebuilt, YearOf, LowerAll;
  }

  /** A relative window ends with today; fewer than one unit count as one. */
  lemma RelativeEndsToday(unit: TimeUnit, value: int, today: string, d: int)
    requires LowerAll(today) == "today"
    requires Resolve(Relative(unit, value), d).Some? && Resolve(Named(today), d).Some?
    ensures Resolve(Relative(unit, value), d).value.to == Resolve(Named(today), d).value.to
    ensures value < 1 ==> Resolve(Relative(unit, value), d) == Resolve(Relative(unit, 1), d)
  {
    hide StartOfDay, EndOfDay, LowerAll, WindowStart, Rebuilt;
  }

  /** Days and weeks: so many whole days. */
  lemma RelativeDays(unit: TimeUnit, value: int, d: int)
    requires (unit == Days || unit == Weeks) && value >= 1 && Resolve(Relative(unit, value), d).Some?
    ensures var r, n := Resolve(Relative(unit, value), d).value, if unit == Days then value else 7 * value;
            r.to - r.from + 1 == n * MS_PER_DAY <==> !IsTwoDigit(YearOf(Rebuilt(d) - n + 1))
  {
    hide DaysRange, YearOf, Rebuilt;
    DayWindowsCover(unit, value, d);
  }

  /**
   * Months and years: the window begins with the day `start` that has the same date so many months back, the
   * surplus days of a shorter month spilling into the next, or where the constructor puts that day.
   */
  lemma RelativeMonths(unit: TimeUnit, value: int, d: int) returns (start: int)
    requires (unit == Months || unit == Years) && value >= 1 && Resolve(Relative(unit, value), d).Some?
    ensures Resolve(Relative(unit, value), d).value.from == FromKst(Rebuilt(start) * MS_PER_DAY)
    ensures var today, k := Rebuilt(d), MonthOf(Rebuilt(d)) - (if unit == Months then value else 12 * value);
            if DateOf(today) <= MonthLength(k) then MonthOf(start) == k && DateOf(start) == DateOf(today)
            else MonthOf(start) == k + 1 && DateOf(start) == DateOf(today) - MonthLength(k)
  {
    hide YearOf, Rebuilt, StartOfDay, EndOfDay, WindowStart, MonthOf, MonthLength, DateOf;
    start := WindowStart(unit, value, Rebuilt(d));
    RebuiltDay(start);
    MonthOverflow(unit, value, Rebuilt(d));
  }

  // Months, quarters, years and labels

  /** The year a filter means: the one given, or the current one if none or 0 is. */
  predicate IsYearMeant(y: int, given: Option<int>, d: int) {
    if given.None? || given.value == 0 then y == YearOf(d) else y == given.value
  }

  /** The number between the bounds nearest to the one given. */
  predicate IsNearest(m: int, given: int, lo: int, hi: int) {
    && lo <= m <= hi && (lo <= given <= hi ==> m == given)
    && (given < lo ==> m == lo) && (given > hi ==> m == hi)
  }

  lemma MonthIsMonth(given: Option<int>, month: int, d: int, y: int, m: int)
    requires Resolve(OfMonth(given, month), d).Some? && IsYearMeant(y, given, d) && IsNearest(m, month, 1, 12)
    ensures var k := 12 * FullYear(y) + m - 1; IsMonths(Resolve(OfMonth(given, month), d).value, k, k + 1)
  {
    hide MonthRange, IsMonths, YearOf;
    assert Resolve(OfMonth(given, month), d).value == MonthRange(y, m - 1);
    hide Resolve;
    MonthRangeIsMonth(y, m - 1);
  }

  lemma QuarterIsQuarter(given: Option<int>, quarter: int, d: int, y: int, q: int)
    requires Resolve(OfQuarter(given, quarter), d).Some? && IsYearMeant(y, given, d) && IsNearest(q, quarter, 1, 4)
    ensures var k := 12 * FullYear(y) + 3 * q - 3; IsMonths(Resolve(OfQuarter(given, quarter), d).value, k, k + 3)
  {
    hide QuarterRange, IsMonths;
    QuarterRangeIsMonths(y, q);
  }

  lemma QuarterRangeIsMonths(y: int, q: int)
    requires 1 <= q <= 4
    ensures var k := 12 * FullYear(y) + 3 * q - 3; IsMonths(QuarterRange(y, q), k, k + 3)
  {
    var k, r := 12 * FullYear(y) + 3 * q - 3, QuarterRange(y, q);
    hide QuarterRange, MonthOf, KstDay, MonthRange;
    forall u ensures Contains(r, u) <==> k <= MonthOf(KstDay(u)) < k + 3 {
      QuarterRangeContains(y, q, u);
      forall m | 3 * q - 3 <= m < 3 * q
        ensures Contains(MonthRange(y, m), u) <==> MonthOf(KstDay(u)) == k + m - (3 * q - 3)
      {
        MonthRangeContains(y, m, u);
      }
      if k <= MonthOf(KstDay(u)) < k + 3 {
        assert Contains(MonthRange(y, MonthOf(KstDay(u)) - k + (3 * q - 3)), u);
      }
    }
  }

  lemma YearIsYear(y: int, d: int)
    requires Resolve(OfYear(y), d).Some?
    ensures var k := 12 * FullYear(y); IsMonths(Resolve(OfYear(y), d).value, k, k + 12)
  {
    var r := Resolve(OfYear(y), d).value;
    assert r == YearRange(y);
    hide YearRange, MonthOf, KstDay, Resolve;
    forall u ensures Contains(r, u) <==> 12 * FullYear(y) <= MonthOf(KstDay(u)) < 12 * FullYear(y) + 12 {
      YearRangeContains(y, u);
      YearByMonths(u, FullYear(y));
    }
  }

  lemma YearByMonths(u: int, y: int)
    ensures KstYear(u) == y <==> 12 * y <= MonthOf(KstDay(u)) < 12 * y + 12
  {
    hide MonthOf, KstDay;
  }

  /** An absolute filter is its own range, if both ends are dates that can be printed. */
  lemma AbsoluteIsItself(from: Option<int>, to: Option<int>, d: int)
    ensures Resolve(Absolute(from, to), d) ==
              if && from.Some? && -TIME_LIMIT <= from.value <= TIME_LIMIT
                 && to.Some? && -TIME_LIMIT <= to.value <= TIME_LIMIT
              then Some(Range(from.value, to.value)) else None
  {
  }

  /** `YYYY_to_now` begins with that year and ends with today; a year pair runs from the earlier year to the later. */
  lemma LabelledYears(first: nat, second: nat, separator: string, today: string, d: int)
    requires first < 10_000 && second < 10_000 && IsSqueezed(separator) && IsShortRun(separator)
    requires LowerAll(today) == "today"
    ensures var since := Resolve(Labelled(Pad4(first) + "_to_now"), d);
            since.Some? && Resolve(OfYear(first), d).Some? && Resolve(Named(today), d).Some? ==>
              since.value == Range(Resolve(OfYear(first), d).value.from, Resolve(Named(today), d).value.to)
    ensures var pair, a, b := Resolve(Labelled(PairLabel(first, separator, second)), d), Resolve(OfYear(first), d),
                              Resolve(OfYear(second), d);
            pair.Some? && a.Some? && b.Some? ==>
              pair.value == if first <= second then Range(a.value.from, b.value.to) else Range(b.value.from, a.value.to)
  {
    hide MatchLabel, Squeeze, PairLabel, Pad4, MonthRange, EndOfDay, StartOfDay, LowerAll;
    SinceLabelRoundTrip(first);
    PairLabelRoundTrip(first, separator, second);
    LabelIsNoPreset(Squeeze(Pad4(first) + "_to_now"));
    LabelIsNoPreset(Squeeze(PairLabel(first, separator, second)));
  }

  // Presence

  /** Some 27,000 years around 1970. */
  predicate IsNear(d: int) {
    -10_000_000 <= d <= 10_000_000
  }

  lemma NearbyIsPrintable(r: Range)
    requires -99_000_000 * MS_PER_DAY <= r.from <= 99_000_000 * MS_PER_DAY
    requires -99_000_000 * MS_PER_DAY <= r.to <= 99_000_000 * MS_PER_DAY
    ensures Publish(r) == Some(r)
  {
  }

  lemma RebuiltIsNear(d: int)
    ensures d <= Rebuilt(d) <= d + 706_831
  {
    hide MonthStart, MonthOf;
    FieldsRoundTrip(d);
    if IsTwoDigit(YearOf(d)) {
      assert 12 * FullYear(YearOf(d)) + MonthInYear(d) == MonthOf(d) + 22_800;
      MonthSpan(MonthOf(d), MonthOf(d) + 22_800);
    }
  }

  lemma DaysAreNear(first: int, last: int)
    requires -90_000_000 <= first <= 90_000_000 && -90_000_000 <= last <= 90_000_000
    ensures Publish(DaysRange(first, last)) == Some(DaysRange(first, last))
  {
    hide Rebuilt, StartOfDay, EndOfDay, YearOf, Publish;
    RebuiltDay(first);
    RebuiltDay(last);
    RebuiltIsNear(first);
    RebuiltIsNear(last);
    NearbyIsPrintable(DaysRange(first, last));
  }

  /** The bounds of a range that begins with month `j` and ends with month `k`. */
  lemma MonthsAreNear(year: int, month: int, year': int, month': int)
    requires 0 <= month < 12 && -100_000 <= year <= 100_000 && 0 <= month' < 12 && -100_000 <= year' <= 100_000
    ensures var r := Range(MonthRange(year, month).from, MonthRange(year', month').to); Publish(r) == Some(r)
  {
    var j, k := 12 * FullYear(year) + month, 12 * FullYear(year') + month' + 1;
    var r := Range(MonthRange(year, month).from, MonthRange(year', month').to);
    assert r == Range(FromKst(MonthStart(j) * MS_PER_DAY), FromKst(MonthStart(k) * MS_PER_DAY - 1));
    hide MonthStart, MonthRange, Publish;
    MonthStartIsNear(j);
    MonthStartIsNear(k);
    NearbyIsPrintable(r);
  }

  lemma MonthStartIsNear(k: int)
    requires -2_000_000 <= k <= 2_000_000
    ensures -70_000_000 <= MonthStart(k) <= 70_000_000
  {
    hide MonthStart;
    EpochStart();
    if k >= EPOCH_MONTH {
      MonthSpan(EPOCH_MONTH, k);
    } else {
      MonthSpan(k, EPOCH_MONTH);
    }
  }

  lemma MonthIsNear(d: int)
    requires IsNear(d)
    ensures -1_000_000 <= MonthOf(d) <= 1_000_000
  {
    hide MonthStart;
    EpochStart();
    var k := MonthOf(d);
    if k >= EPOCH_MONTH {
      MonthSpan(EPOCH_MONTH, k);
    } else {
      MonthSpan(k + 1, EPOCH_MONTH);
    }
  }

  /** Within that time every preset is a range, */
  lemma PresetsArePresent(name: string, d: int)
    requires IsPresetName(LowerAll(name)) && IsNear(d)
    ensures Resolve(Named(name), d).Some?
  {
    hide Resolve, Preset, Rebuilt, MonthInYear, LowerAll, MonthOf, DaysRange, Publish, Yesterday, MonthRange;
    NamedIsPreset(name, d);
    PresetsAre(d);
    RebuiltIsNear(d);
    DaysAreNear(d, d);
    DaysAreNear(Rebuilt(d) - 1, Rebuilt(d) - 1);
    DaysAreNear(Rebuilt(d) - 6, d);
    DaysAreNear(Rebuilt(d) - 13, d);
    DaysAreNear(Rebuilt(d) - 29, d);
    MonthIsNear(d);
    var k := MonthOf(d) - 1;
    MonthsAreNear(YearOf(d), MonthInYear(d), YearOf(d), MonthInYear(d));
    MonthsAreNear(k / 12, k % 12, k / 12, k % 12);
  }

  /** every relative window of up to 10,000 units, */
  lemma WindowsArePresent(unit: TimeUnit, value: int, d: int)
    requires IsNear(d) && value <= 10_000
    ensures Resolve(Relative(unit, value), d).Some?
  {
    hide Rebuilt, MonthOf, DaysRange, Publish, YearOf, MonthInYear, DateOf, MonthStart, MakeDay, WindowStart;
    var n := if value < 1 then 1 else value;
    RebuiltIsNear(d);
    WindowStartIsNear(unit, n, Rebuilt(d));
    DaysAreNear(WindowStart(unit, n, Rebuilt(d)), d);
  }

  lemma WindowStartIsNear(unit: TimeUnit, value: int, d: int)
    requires 1 <= value <= 10_000
    ensures d - 4_000_000 <= WindowStart(unit, value, d) <= d
  {
    hide MonthStart, MonthOf;
    if unit == Months || unit == Years {
      var k := MonthOf(d) - MonthsIn(unit, value);
      WindowStartByMonths(unit, value, d);
      MonthSpan(k, MonthOf(d));
      assert d == MonthStart(MonthOf(d)) + DateOf(d) - 1;
    }
  }

  /** and every month, quarter and year of the years -100,000 to 100,000. */
  lemma MonthsArePresent(given: Option<int>, n: int, y: int, d: int)
    requires -100_000 <= y <= 100_000 && IsYearMeant(y, given, d)
    ensures Resolve(OfMonth(given, n), d).Some? && Resolve(OfQuarter(given, n), d).Some? && Resolve(OfYear(y), d).Some?
  {
    hide MonthRange, QuarterRange, Publish, YearOf;
    var m, q := if n > 12 then 12 else if n < 1 then 1 else n, if n > 4 then 4 else if n < 1 then 1 else n;
    MonthsAreNear(y, m - 1, y, m - 1);
    MonthsMakeUp(y, q);
    MonthsAreNear(y, 3 * q - 3, y, 3 * q - 1);
    MonthsAreNear(y, 0, y, 11);
  }
}
