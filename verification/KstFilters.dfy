/**
 * Resolving a time filter to an absolute range (`toAbsoluteRangeKst` of src/utils/time.ts), and what the
 * different ways of naming a period have in common.
 */
module KstFilters {
  import opened Calendar
  import opened KstRanges
  import opened KstWindows
  import opened Options
  import opened TimeLabels

  datatype TimeFilter =
    | Named(preset: string)
    | Relative(unit: TimeUnit, value: int)
    | Absolute(from: Option<int>, to: Option<int>)  // instants; `None` where the text is not a date
    | OfMonth(year: Option<int>, month: int)
    | OfYear(wholeYear: int)
    | OfQuarter(year: Option<int>, quarter: int)
    | Labelled(text: string)
    | OtherFilter

  /** `toISOString` throws on a date out of range, and the filter is then dropped. */
  function Publish(r: Range): Option<Range> {
    if -TIME_LIMIT <= r.from <= TIME_LIMIT && -TIME_LIMIT <= r.to <= TIME_LIMIT then Some(r) else None
  }

  function PublishIf(r: Option<Range>): Option<Range> {
    if r.Some? then Publish(r.value) else None
  }

  function Clamp(n: int, lo: int, hi: int): int {
    if n > hi then hi else if n < lo then lo else n
  }

  /** A missing year, and the year 0, stand for the current one. */
  function YearOr(year: Option<int>, d: int): int {
    if year.Some? && year.value != 0 then year.value else YearOf(d)
  }

  function FormRange(form: LabelForm, d: int): Range {
    match form
    case SinceYear(y) => Range(MonthRange(y, 0).from, FromKst(EndOfDay(d)))
    case YearPair(y, z) => if y <= z then Range(MonthRange(y, 0).from, MonthRange(z, 11).to)
                                     else Range(MonthRange(z, 0).from, MonthRange(y, 11).to)
    case QuarterForm(y, q) => QuarterRange(y, q)
    case MonthForm(y, m) => MonthRange(y, m - 1)
    case YearForm(y) => YearRange(y)
  }

  function LabelRange(s: string, d: int): Option<Range> {
    if s in PRESET_NAMES then Preset(s, d)
    else
      match MatchLabel(s)
      case Some(form) => Some(FormRange(form, d))
      case None => None
  }

  function LowerAll(s: string): string {
    if s == "" then "" else [LowerChar(s[0])] + LowerAll(s[1..])
  }

  /** What a filter means on Korean day `d`. */
  function Resolve(input: TimeFilter, d: int): Option<Range> {
    PublishIf(
      match input
      case Named(preset) => Preset(LowerAll(preset), d)
      case Relative(unit, value) => Some(Window(unit, value, d))
      case Absolute(from, to) => if from.Some? && to.Some? then Some(Range(from.value, to.value)) else None
      case OfMonth(year, month) => Some(MonthRange(YearOr(year, d), Clamp(month, 1, 12) - 1))
      case OfYear(year) => Some(YearRange(year))
      case OfQuarter(year, quarter) => Some(QuarterRange(YearOr(year, d), Clamp(quarter, 1, 4)))
      case Labelled(text) => LabelRange(Squeeze(text), d)
      case OtherFilter => None)
  }

  // The resolver as the source computes it, changing dates in place

  method DaysBackRange(beginOfToday: int, endOfToday: int, n: int) returns (r: Range)
    ensures r == Range(FromKst(StartOfDay(Day(endOfToday) - (n - 1))), FromKst(endOfToday))
  {
    hide Day, DateOf, StartOfDay;
    var fromK := new Date(endOfToday);
    fromK.SetDate(fromK.DayOfMonth() - (n - 1));
    r := Range(FromKst(StartOfDay(Day(fromK.time))), FromKst(endOfToday));
  }

  method ResolvePreset(name: string, baseKst: int) returns (r: Option<Range>)
    ensures r == Preset(name, Day(baseKst))
  {
    hide Day, YearOf, MonthInYear, DateOf, StartOfDay, EndOfDay, Rebuilt, MonthRange;
    var d := Day(baseKst);
    RebuiltDay(d);
    var beginOfToday, endOfToday := StartOfDay(d), EndOfDay(d);
    if name == "today" {
      return Some(Range(FromKst(beginOfToday), FromKst(endOfToday)));
    }
    if name == "yesterday" {
      var yK := new Date(beginOfToday);
      yK.SetDate(yK.DayOfMonth() - 1);
      return Some(Range(FromKst(StartOfDay(Day(yK.time))), FromKst(EndOfDay(Day(yK.time)))));
    }
    if name == "last_7_days" || name == "last_14_days" || name == "last_30_days" {
      var n := if name == "last_7_days" then 7 else if name == "last_14_days" then 14 else 30;
      var back := DaysBackRange(beginOfToday, endOfToday, n);
      return Some(back);
    }
    if name == "this_month" {
      return Some(MonthRange(YearOf(d), MonthInYear(d)));
    }
    if name == "last_month" {
      var m := MonthInYear(d);
      var year := if m == 0 then YearOf(d) - 1 else YearOf(d);
      return Some(MonthRange(year, if m == 0 then 11 else m - 1));
    }
    return None;
  }

  method ResolveWindow(unit: TimeUnit, value: int, baseKst: int) returns (r: Range)
    ensures r == Window(unit, value, Day(baseKst))
  {
    hide Day, YearOf, MonthInYear, DateOf, StartOfDay, EndOfDay, MakeDay, Rebuilt;
    RebuiltDay(Day(baseKst));
    var n := if value < 1 then 1 else value;
    var toK := EndOfDay(Day(baseKst));
    var fromK := new Date(toK);
    match unit {
      case Days => fromK.SetDate(fromK.DayOfMonth() - n + 1);
      case Weeks => fromK.SetDate(fromK.DayOfMonth() - n * 7 + 1);
      case Months => fromK.SetMonth(fromK.Month() - n);
      case Years => fromK.SetFullYear(fromK.Year() - n);
      case UnknownUnit =>
    }
    r := Range(FromKst(StartOfDay(Day(fromK.time))), FromKst(toK));
  }

  method ToAbsoluteRangeKst(input: TimeFilter, base: int) returns (r: Option<Range>)
    ensures r == Resolve(input, KstDay(base))
  {
    hide YearOf, MonthRange, QuarterRange, YearRange, Window, Preset, MatchLabel, EndOfDay;
    var baseKst := ToKst(base);
    var year := YearOf(Day(baseKst));
    var found: Option<Range> := None;
    match input {
      case Named(preset) =>
        found := ResolvePreset(LowerAll(preset), baseKst);
      case Relative(unit, value) =>
        var w := ResolveWindow(unit, value, baseKst);
        found := Some(w);
      case Absolute(from, to) =>
        if from.Some? && to.Some? {
          found := Some(Range(from.value, to.value));
        }
      case OfMonth(given, month) =>
        var m := Clamp(month, 1, 12);
        var y := if given.Some? && given.value != 0 then given.value else year;
        found := Some(MonthRange(y, m - 1));
      case OfYear(y) =>
        found := Some(YearRange(y));
      case OfQuarter(given, quarter) =>
        var q := Clamp(quarter, 1, 4);
        var y := if given.Some? && given.value != 0 then given.value else year;
        found := Some(QuarterRange(y, q));
      case Labelled(text) =>
        var s := Squeeze(text);
        if s in PRESET_NAMES {
          found := ResolvePreset(s, baseKst);
        } else {
          match MatchLabel(s)
          case Some(form) => found := Some(FormRange(form, Day(baseKst)));
          case None =>
        }
      case OtherFilter =>
    }
    r := PublishIf(found);
  }

  // Round trips

  /** Printing a month, quarter or year as a label and resolving it gives the range of the structured filter. */
  lemma LabelsAgreeWithFilters(year: nat, month: nat, quarter: nat, d: int)
    requires 1 <= year < 10_000 && 1 <= month <= 12 && 1 <= quarter <= 4
    ensures Resolve(Labelled(MonthLabel(year, month)), d) == Resolve(OfMonth(Some(year), month), d)
    ensures Resolve(Labelled(QuarterLabel(year, quarter)), d) == Resolve(OfQuarter(Some(year), quarter), d)
    ensures Resolve(Labelled(YearLabel(year)), d) == Resolve(OfYear(year), d)
  {
    hide MonthRange, QuarterRange, YearRange, MatchLabel, Squeeze, MonthLabel, QuarterLabel, YearLabel;
    MonthLabelRoundTrip(year, month);
    QuarterLabelRoundTrip(year, quarter);
    YearLabelRoundTrip(year);
    LabelIsNoPreset(Squeeze(MonthLabel(year, month)));
    LabelIsNoPreset(Squeeze(QuarterLabel(year, quarter)));
    LabelIsNoPreset(Squeeze(YearLabel(year)));
  }

  lemma LabelIsNoPreset(s: string)
    ensures MatchLabel(s).Some? ==> s !in PRESET_NAMES
  {
    hide MatchSince, MatchPair, MatchYearQuarter, MatchQuarterYear, MatchMonth, MatchYear;
    PatternsExclusive(s);
  }

  /**
   * A pair of years names the hull of the two years, in either order, if and only if the two-digit rule
   * leaves the earlier year no later than the other.
   */
  lemma PairIsHull(first: nat, second: nat, d: int)
    requires first <= second
    ensures FormRange(YearPair(first, second), d) == FormRange(YearPair(second, first), d)
    ensures (forall t :: Contains(YearRange(first), t) || Contains(YearRange(second), t)
                     ==> Contains(FormRange(YearPair(first, second), d), t))
            <==> FullYear(first) <= FullYear(second)
  {
    hide MonthStart;
    var a, b := 12 * FullYear(first), 12 * FullYear(second);
    YearBounds(first);
    YearBounds(second);
    if a <= b {
      MonthSpan(a, b);
      MonthSpan(a + 12, b + 12);
    } else {
      MonthSpan(b, a);
      MonthSpan(b + 12, a);
      MonthSpan(a, a + 12);
      assert Contains(YearRange(second), YearRange(second).from) by {
        MonthSpan(b, b + 12);
      }
      assert !Contains(FormRange(YearPair(first, second), d), YearRange(second).from);
    }
  }

  lemma YearBounds(year: int)
    ensures var k := 12 * FullYear(year);
            YearRange(year) == Range(FromKst(MonthStart(k) * MS_PER_DAY), FromKst(MonthStart(k + 12) * MS_PER_DAY - 1))
  {
    hide MonthStart;
  }

  /** `YYYY_to_now` is a proper range if and only if that year has begun. */
  lemma SinceIsOrdered(year: nat, d: int)
    ensures var r := FormRange(SinceYear(year), d); r.from <= r.to <==> FullYear(year) <= YearOf(Rebuilt(d))
  {
    hide MonthStart, StartOfDay, EndOfDay, Rebuilt;
    YearBounds(year);
    RebuiltDay(d);
    var k, here := 12 * FullYear(year), MonthOf(Rebuilt(d));
    if k <= here {
      MonthSpan(k, here);
    } else {
      MonthSpan(here + 1, k);
    }
  }

  /** A resolved range is its own resolution, on any later day: resolving twice changes nothing. */
  lemma ResolvedIsStable(input: TimeFilter, d: int, later: int)
    requires Resolve(input, d).Some?
    ensures var r := Resolve(input, d).value;
            Resolve(Absolute(Some(r.from), Some(r.to)), later) == Some(r)
  {
    hide Preset, Window, MonthRange, QuarterRange, YearRange, LabelRange;
  }
}
