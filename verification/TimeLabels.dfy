/**
 * The label grammar of time filters (src/utils/time.ts): white space and case are ignored, and each pattern
 * is anchored at both ends. `\d` is an ASCII digit.
 */
module TimeLabels {
  import opened Decimals
  import opened Options
  import Sequences
  import Utf16

  datatype LabelForm =
    | SinceYear(year: nat)
    | YearPair(first: nat, second: nat)
    | QuarterForm(year: nat, quarter: nat)
    | MonthForm(year: nat, month: nat)
    | YearForm(year: nat)

  predicate IsSpaceChar(c: char) {
    c as int < 0x1_0000 && Utf16.IsSpace(c as int)
  }

  function LowerChar(c: char): char {
    if 'A' <= c <= 'Z' then c - 'A' + 'a' else c
  }

  /** The label without white space, in lower case; letters outside ASCII match no pattern in either case. */
  function Squeeze(text: string): string {
    if text == "" then ""
    else if IsSpaceChar(text[0]) then Squeeze(text[1..])
    else [LowerChar(text[0])] + Squeeze(text[1..])
  }

  predicate IsDigit(c: char) {
    '0' <= c <= '9'
  }

  predicate AllDigits(s: string) {
    forall c :: c in s ==> IsDigit(c)
  }

  function DigitValue(c: char): nat {
    if IsDigit(c) then c as int - '0' as int else 0
  }

  function Number(s: string): nat {
    if s == "" then 0 else 10 * Number(s[..|s| - 1]) + DigitValue(s[|s| - 1])
  }

  predicate StartsWithYear(s: string) {
    |s| >= 4 && IsDigit(s[0]) && IsDigit(s[1]) && IsDigit(s[2]) && IsDigit(s[3])
  }

  predicate IsSeparator(s: string) {
    s == "." || s == "_" || s == "-" || s == "to"
  }

  /** `(?:_|-|to)*` */
  predicate IsRun(s: string) {
    s == ""
    || (s[0] == '_' && IsRun(s[1..]))
    || (s[0] == '-' && IsRun(s[1..]))
    || (|s| >= 2 && s[..2] == "to" && IsRun(s[2..]))
  }

  /** `(?:\.|_|-|to){1,2}` */
  predicate IsShortRun(s: string) {
    IsSeparator(s) || exists i :: 0 <= i <= |s| && IsSeparator(s[..i]) && IsSeparator(s[i..])
  }

  predicate IsDash(c: char) {
    c == '-' || c == '_'
  }

  predicate IsQuarterDigit(c: char) {
    '1' <= c <= '4'
  }

  // The patterns, one by one

  function MatchSince(s: string): Option<LabelForm> {
    if StartsWithYear(s) && |s| >= 8 && s[|s| - 3..] == "now" && IsRun(s[4..|s| - 3])
    then Some(SinceYear(Number(s[..4]))) else None
  }

  function MatchPair(s: string): Option<LabelForm> {
    if StartsWithYear(s) && |s| >= 9 && StartsWithYear(s[|s| - 4..]) && IsShortRun(s[4..|s| - 4])
    then Some(YearPair(Number(s[..4]), Number(s[|s| - 4..]))) else None
  }

  function MatchYearQuarter(s: string): Option<LabelForm> {
    if StartsWithYear(s) && |s| == 7 && IsDash(s[4]) && s[5] == 'q' && IsQuarterDigit(s[6])
    then Some(QuarterForm(Number(s[..4]), DigitValue(s[6]))) else None
  }

  function MatchQuarterYear(s: string): Option<LabelForm> {
    if |s| >= 6 && s[0] == 'q' && IsQuarterDigit(s[1]) && StartsWithYear(s[|s| - 4..])
       && (|s| == 6 || (|s| == 7 && IsDash(s[2])))
    then Some(QuarterForm(Number(s[|s| - 4..]), DigitValue(s[1]))) else None
  }

  /** `clamp` of the month: 00 becomes 1, 13 to 99 become 12. */
  function ClampMonth(m: nat): nat {
    if m < 1 then 1 else if m > 12 then 12 else m
  }

  function MatchMonth(s: string): Option<LabelForm> {
    if StartsWithYear(s) && 5 <= |s| <= 7 then
      var rest := if IsDash(s[4]) then s[5..] else s[4..];
      if 1 <= |rest| <= 2 && AllDigits(rest) then Some(MonthForm(Number(s[..4]), ClampMonth(Number(rest)))) else None
    else None
  }

  function MatchYear(s: string): Option<LabelForm> {
    if StartsWithYear(s) && |s| == 4 then Some(YearForm(Number(s))) else None
  }

  /** The patterns in the order in which the source tries them. */
  function MatchLabel(s: string): Option<LabelForm> {
    if MatchSince(s).Some? then MatchSince(s)
    else if MatchPair(s).Some? then MatchPair(s)
    else if MatchYearQuarter(s).Some? then MatchYearQuarter(s)
    else if MatchQuarterYear(s).Some? then MatchQuarterYear(s)
    else if MatchMonth(s).Some? then MatchMonth(s)
    else MatchYear(s)
  }

  function Matches(s: string): nat {
    (if MatchSince(s).Some? then 1 else 0) + (if MatchPair(s).Some? then 1 else 0)
    + (if MatchYearQuarter(s).Some? then 1 else 0) + (if MatchQuarterYear(s).Some? then 1 else 0)
    + (if MatchMonth(s).Some? then 1 else 0) + (if MatchYear(s).Some? then 1 else 0)
  }

  const PRESET_NAMES := {
    "all", "all_time", "today", "yesterday", "last_7_days", "last_14_days", "last_30_days", "this_month", "last_month"}

  /** No label matches two patterns, and no preset name matches any: the order of the tests is immaterial. */
  lemma PatternsExclusive(s: string)
    ensures Matches(s) <= 1
    ensures s in PRESET_NAMES ==> Matches(s) == 0
  {
    hide IsRun, IsShortRun, Number;
    if MatchSince(s).Some? {
      assert s[|s| - 1] == s[|s| - 3..][2] == 'w';
    }
    if MatchPair(s).Some? {
      assert IsDigit(s[|s| - 4..][3]) && s[|s| - 4..][3] == s[|s| - 1];
    }
    if MatchMonth(s).Some? {
      var rest := if IsDash(s[4]) then s[5..] else s[4..];
      assert IsDigit(rest[|rest| - 1]) && rest[|rest| - 1] == s[|s| - 1];
      assert |s| == 7 ==> s[5] == rest[0] && IsDigit(rest[0]);
    }
  }

  // Printing

  function Pad4(n: nat): string
    requires n < 10_000
  {
    [DigitChar(n / 1000), DigitChar(n / 100 % 10), DigitChar(n / 10 % 10), DigitChar(n % 10)]
  }

  function Pad2(n: nat): string
    requires n < 100
  {
    [DigitChar(n / 10), DigitChar(n % 10)]
  }

  function MonthLabel(year: nat, month: nat): string
    requires year < 10_000 && 1 <= month <= 12
  {
    Pad4(year) + "-" + Pad2(month)
  }

  function QuarterLabel(year: nat, quarter: nat): string
    requires year < 10_000 && 1 <= quarter <= 4
  {
    Pad4(year) + "-Q" + [DigitChar(quarter)]
  }

  function YearLabel(year: nat): string
    requires year < 10_000
  {
    Pad4(year)
  }

  function PairLabel(first: nat, separator: string, second: nat): string
    requires first < 10_000 && second < 10_000
  {
    Pad4(first) + separator + Pad4(second)
  }

  lemma Pad4Number(n: nat)
    requires n < 10_000
    ensures Number(Pad4(n)) == n && AllDigits(Pad4(n))
  {
    Digits4(n);
    FourDigits(n / 1000, n / 100 % 10, n / 10 % 10, n % 10);
  }

  lemma Digits4(n: nat)
    ensures n == 1000 * (n / 1000) + 100 * (n / 100 % 10) + 10 * (n / 10 % 10) + n % 10
  {
    assert n / 10 == 10 * (n / 100) + n / 10 % 10;
    assert n / 100 == 10 * (n / 1000) + n / 100 % 10;
  }

  lemma FourDigits(a: nat, b: nat, c: nat, d: nat)
    requires a < 10 && b < 10 && c < 10 && d < 10
    ensures Number([DigitChar(a), DigitChar(b), DigitChar(c), DigitChar(d)]) == 1000 * a + 100 * b + 10 * c + d
  {
    var w, x, y, z := DigitChar(a), DigitChar(b), DigitChar(c), DigitChar(d);
    NumberOfFour(w, x, y, z);
  }

  lemma NumberOfFour(w: char, x: char, y: char, z: char)
    ensures Number([w, x, y, z]) == 1000 * DigitValue(w) + 100 * DigitValue(x) + 10 * DigitValue(y) + DigitValue(z)
  {
    hide Number, DigitValue;
    NumberEmpty();
    NumberSnoc("", w);
    NumberSnoc([w], x);
    NumberSnoc([w, x], y);
    NumberSnoc([w, x, y], z);
    assert "" + [w] == [w];
    assert [w] + [x] == [w, x];
    assert [w, x] + [y] == [w, x, y];
    assert [w, x, y] + [z] == [w, x, y, z];
  }

  lemma NumberEmpty()
    ensures Number("") == 0
  {
  }

  lemma Pad2Number(n: nat)
    requires n < 100
    ensures Number(Pad2(n)) == n && AllDigits(Pad2(n))
  {
    var s := Pad2(n);
    NumberSnoc(s[..1], s[1]);
    NumberSnoc("", s[0]);
    assert s[..1] + [s[1]] == s && "" + [s[0]] == s[..1];
  }

  lemma NumberSnoc(s: string, c: char)
    ensures Number(s + [c]) == 10 * Number(s) + DigitValue(c)
  {
    assert (s + [c])[..|s|] == s;
  }

  lemma {:induction false} SqueezeAppend(a: string, b: string)
    ensures Squeeze(a + b) == Squeeze(a) + Squeeze(b)
  {
    if a == "" {
      assert a + b == b;
    } else {
      hide LowerChar, IsSpaceChar;
      SqueezeAppend(a[1..], b);
      assert (a + b)[1..] == a[1..] + b;
      Sequences.SeqAssoc([LowerChar(a[0])], Squeeze(a[1..]), Squeeze(b));
    }
  }

  predicate IsSqueezed(s: string) {
    forall c :: c in s ==> !IsSpaceChar(c) && LowerChar(c) == c
  }

  lemma {:induction false} SqueezeIdentity(s: string)
    requires IsSqueezed(s)
    ensures Squeeze(s) == s
  {
    if s != "" {
      SqueezeIdentity(s[1..]);
    }
  }

  /** Printed labels read back as what was printed, in the form the source looks for. */
  lemma MonthLabelRoundTrip(year: nat, month: nat)
    requires year < 10_000 && 1 <= month <= 12
    ensures MatchLabel(Squeeze(MonthLabel(year, month))) == Some(MonthForm(year, month))
  {
    var s := MonthLabel(year, month);
    Pad4Number(year);
    Pad2Number(month);
    SqueezeIdentity(s);
    assert s[..4] == Pad4(year) && s[5..] == Pad2(month);
    PatternsExclusive(s);
    assert MatchMonth(s) == Some(MonthForm(year, month));
  }

  lemma SqueezeDashQ()
    ensures Squeeze("-Q") == "-q"
  {
    assert "-Q"[1..] == "Q" && "Q"[1..] == "";
  }

  lemma QuarterLabelSqueezed(year: nat, quarter: nat)
    requires year < 10_000 && 1 <= quarter <= 4
    ensures Squeeze(QuarterLabel(year, quarter)) == Pad4(year) + "-q" + [DigitChar(quarter)]
  {
    Pad4Number(year);
    SqueezeIdentity(Pad4(year));
    SqueezeIdentity([DigitChar(quarter)]);
    SqueezeDashQ();
    hide Pad4, Squeeze;
    SqueezeAppend(Pad4(year) + "-Q", [DigitChar(quarter)]);
    SqueezeAppend(Pad4(year), "-Q");
  }

  lemma QuarterLabelRoundTrip(year: nat, quarter: nat)
    requires year < 10_000 && 1 <= quarter <= 4
    ensures MatchLabel(Squeeze(QuarterLabel(year, quarter))) == Some(QuarterForm(year, quarter))
  {
    var s := Pad4(year) + "-q" + [DigitChar(quarter)];
    QuarterLabelSqueezed(year, quarter);
    Pad4Number(year);
    assert s[..4] == Pad4(year);
    PatternsExclusive(s);
    assert MatchYearQuarter(s) == Some(QuarterForm(year, quarter));
  }

  lemma YearLabelRoundTrip(year: nat)
    requires year < 10_000
    ensures MatchLabel(Squeeze(YearLabel(year))) == Some(YearForm(year))
  {
    var s := YearLabel(year);
    Pad4Number(year);
    SqueezeIdentity(s);
    PatternsExclusive(s);
    assert MatchYear(s) == Some(YearForm(year));
  }

  /** A pair of years is understood if and only if one or two separator pieces stand between them. */
  lemma PairLabelRoundTrip(first: nat, separator: string, second: nat)
    requires first < 10_000 && second < 10_000 && IsSqueezed(separator)
    ensures MatchLabel(Squeeze(PairLabel(first, separator, second))) == Some(YearPair(first, second))
            <==> IsShortRun(separator)
  {
    hide IsShortRun;
    var s := PairLabel(first, separator, second);
    Pad4Number(first);
    Pad4Number(second);
    SqueezeIdentity(s);
    assert s[..4] == Pad4(first) && s[|s| - 4..] == Pad4(second) && s[4..|s| - 4] == separator;
    PatternsExclusive(s);
    EmptyIsNoRun();
    assert MatchPair(s) == Some(YearPair(first, second)) <==> IsShortRun(separator);
  }

  lemma EmptyIsNoRun()
    ensures !IsShortRun("")
  {
  }

  lemma SinceLabelRoundTrip(year: nat)
    requires year < 10_000
    ensures MatchLabel(Squeeze(Pad4(year) + "_to_now")) == Some(SinceYear(year))
  {
    var s := Pad4(year) + "_to_now";
    Pad4Number(year);
    SqueezeIdentity(s);
    assert s[..4] == Pad4(year) && s[4..|s| - 3] == "_to_" && s[|s| - 3..] == "now";
    assert IsRun("_to_") by {
      assert "_to_"[1..] == "to_" && "to_"[..2] == "to" && "to_"[2..] == "_" && "_"[1..] == "";
    }
    assert MatchSince(s) == Some(SinceYear(year));
  }

  /**
   * The form `YYYY_to_YYYY` that the source's comment promises matches no pattern: its separator
   * is three pieces long, and the pattern allows two.
   */
  lemma UnderscoredPairIsUnknown(first: nat, second: nat)
    requires first < 10_000 && second < 10_000
    ensures MatchLabel(Squeeze(PairLabel(first, "_to_", second))) == None
  {
    var s := PairLabel(first, "_to_", second);
    Pad4Number(first);
    Pad4Number(second);
    SqueezeIdentity(s);
    assert s[4..|s| - 4] == "_to_";
    hide Squeeze, MatchLabel, Pad4;
    ThreePiecesMatchNothing(s);
  }

  lemma ThreePiecesMatchNothing(s: string)
    requires |s| == 12 && s[4..8] == "_to_" && IsDigit(s[11])
    ensures MatchLabel(s) == None
  {
    hide Number, IsShortRun;
    ThreePiecesAreNoRun();
    assert s[9..][2] == s[11];
    assert s[4] == s[4..8][0];
  }

  lemma ThreePiecesAreNoRun()
    ensures !IsShortRun("_to_")
  {
  }

  // Other ways to write a label

  predicate IsPiece(s: string) {
    s == "." || s == "_" || s == "-" || s == "to"
  }

  /** Between two years stand one or two of a dot, an underscore, a dash and the word "to". */
  lemma ShortRunsAre(s: string)
    ensures IsShortRun(s) <==> IsPiece(s) || exists a, b :: IsPiece(a) && IsPiece(b) && s == a + b
  {
    if IsShortRun(s) && !IsPiece(s) {
      var i :| 0 <= i <= |s| && IsSeparator(s[..i]) && IsSeparator(s[i..]);
      assert IsPiece(s[..i]) && IsPiece(s[i..]) && s == s[..i] + s[i..];
    }
    forall a, b | IsPiece(a) && IsPiece(b) ensures IsShortRun(a + b) {
      hide IsPiece, IsSeparator;
      PiecesSeparate(a);
      PiecesSeparate(b);
      assert (a + b)[..|a|] == a && (a + b)[|a|..] == b;
    }
  }

  lemma PiecesSeparate(s: string)
    ensures IsPiece(s) <==> IsSeparator(s)
  {
  }

  predicate IsOptionalDash(s: string) {
    s == "" || s == "-" || s == "_"
  }

  /** A quarter may also stand before its year, with or without a dash. */
  lemma QuarterFirstRoundTrip(year: nat, quarter: nat, dash: string)
    requires year < 10_000 && 1 <= quarter <= 4 && IsOptionalDash(dash)
    ensures MatchLabel("q" + [DigitChar(quarter)] + dash + Pad4(year)) == Some(QuarterForm(year, quarter))
  {
    var s := "q" + [DigitChar(quarter)] + dash + Pad4(year);
    Pad4Number(year);
    assert s[|s| - 4..] == Pad4(year);
    hide Number;
    PatternsExclusive(s);
    assert MatchQuarterYear(s) == Some(QuarterForm(year, quarter));
  }

  /** A month may have one digit or two, with or without a dash; 0 counts as January, 13 and more as December. */
  lemma LooseMonthRoundTrip(year: nat, month: nat, dash: string, short: bool)
    requires year < 10_000 && month < 100 && IsOptionalDash(dash) && (short ==> month < 10)
    ensures var digits := if short then [DigitChar(month)] else Pad2(month);
            var m := if month < 1 then 1 else if month > 12 then 12 else month;
            MatchLabel(Pad4(year) + dash + digits) == Some(MonthForm(year, m))
  {
    var digits := if short then [DigitChar(month)] else Pad2(month);
    var s := Pad4(year) + dash + digits;
    DigitsRead(month, short);
    YearRead(year, dash + digits);
    assert s == Pad4(year) + (dash + digits);
    hide Number, Pad2, Pad4, DigitChar, StartsWithYear, AllDigits;
    assert dash == "" ==> s[4..] == digits;
    assert dash != "" ==> s[4] == dash[0] && s[5..] == digits;
    MonthOfDigits(s, year, digits, dash);
    OnlyMonth(s);
  }

  lemma DigitsRead(month: nat, short: bool)
    requires month < 100 && (short ==> month < 10)
    ensures var digits := if short then [DigitChar(month)] else Pad2(month);
            AllDigits(digits) && Number(digits) == month && 1 <= |digits| <= 2
  {
    Pad2Number(month);
    if short {
      NumberSnoc("", DigitChar(month));
      NumberEmpty();
      assert "" + [DigitChar(month)] == [DigitChar(month)];
    }
  }

  lemma YearRead(year: nat, rest: string)
    requires year < 10_000
    ensures |Pad4(year)| == 4 && StartsWithYear(Pad4(year) + rest) && Number((Pad4(year) + rest)[..4]) == year
  {
    Pad4Number(year);
    hide Number;
    assert (Pad4(year) + rest)[..4] == Pad4(year);
  }

  lemma OnlyMonth(s: string)
    requires MatchMonth(s).Some?
    ensures MatchLabel(s) == MatchMonth(s)
  {
    hide MatchSince, MatchPair, MatchYearQuarter, MatchQuarterYear, MatchMonth, MatchYear;
    PatternsExclusive(s);
  }

  lemma MonthOfDigits(s: string, year: nat, digits: string, dash: string)
    requires StartsWithYear(s) && Number(s[..4]) == year && IsOptionalDash(dash) && |s| == 4 + |dash| + |digits|
    requires 1 <= |digits| <= 2 && AllDigits(digits)
    requires if dash == "" then s[4..] == digits else s[4] == dash[0] && s[5..] == digits
    ensures MatchMonth(s) == Some(MonthForm(year, ClampMonth(Number(digits))))
  {
    hide Number;
    if dash == "" {
      assert digits[0] in digits;
      assert s[4] == digits[0] && !IsDash(s[4]);
    }
  }

  /** Before "now" stands any run of underscores, dashes and the word "to". */
  lemma RunsGrow(run: string)
    ensures IsRun("") && (IsRun(run) ==> IsRun("_" + run) && IsRun("-" + run) && IsRun("to" + run))
  {
    assert ("_" + run)[1..] == run && ("-" + run)[1..] == run;
    assert ("to" + run)[..2] == "to" && ("to" + run)[2..] == run;
  }

  lemma SinceRunRoundTrip(year: nat, run: string)
    requires year < 10_000 && IsRun(run) && run != ""
    ensures MatchLabel(Pad4(year) + run + "now") == Some(SinceYear(year))
  {
    var s := Pad4(year) + run + "now";
    Pad4Number(year);
    hide IsRun, Number;
    assert s[..4] == Pad4(year) && s[4..|s| - 3] == run && s[|s| - 3..] == "now";
    assert MatchSince(s) == Some(SinceYear(year));
  }
}
