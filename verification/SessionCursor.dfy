/**
 * The paging cursor (src/controllers/session.controller.ts): an ISO date, in milliseconds, and an id, joined by
 * a bar. Base64 is a bijection on the text and is left aside.
 */
module SessionCursor {
  import opened Calendar
  import opened Decimals
  import opened KeysetPaging
  import opened Options
  import opened Sequences
  import opened TimeLabels

  function Pad3(n: nat): string
    requires n < 1000
  {
    [DigitChar(n / 100), DigitChar(n / 10 % 10), DigitChar(n % 10)]
  }

  function Pad6(n: nat): string
    requires n < 1_000_000
  {
    Pad3(n / 1000) + Pad3(n % 1000)
  }

  /** Years 0 to 9999 are printed with four digits, others with a sign and six (section 21.4.1.32 of ECMA-262). */
  function PrintYear(y: int): string
    requires -1_000_000 < y < 1_000_000
  {
    if 0 <= y < 10_000 then Pad4(y) else if y < 0 then "-" + Pad6(-y) else "+" + Pad6(y)
  }

  /** The twenty characters after the year, from the fields. */
  function PrintRest(month: nat, date: nat, hour: nat, minute: nat, second: nat, ms: nat): string
    requires month < 100 && date < 100 && hour < 100 && minute < 100 && second < 100 && ms < 1000
  {
    ['-', DigitChar(month / 10), DigitChar(month % 10), '-', DigitChar(date / 10), DigitChar(date % 10),
     'T', DigitChar(hour / 10), DigitChar(hour % 10), ':', DigitChar(minute / 10), DigitChar(minute % 10),
     ':', DigitChar(second / 10), DigitChar(second % 10),
     '.', DigitChar(ms / 100), DigitChar(ms / 10 % 10), DigitChar(ms % 10), 'Z']
  }

  function TimeInDay(t: int): (r: nat)
    ensures r < MS_PER_DAY
  {
    t % MS_PER_DAY
  }

  /** `toISOString`. */
  function Iso(t: int): string
    requires -1_000_000 < YearOf(Day(t)) < 1_000_000
  {
    var d, r := Day(t), TimeInDay(t);
    PrintYear(YearOf(d))
    + PrintRest(MonthInYear(d) + 1, DateOf(d), r / 3_600_000, r / 60_000 % 60, r / 1000 % 60, r % 1000)
  }

  /** `new Date(text)` on texts in that format. */
  function ReadIso(s: string): Option<int> {
    if |s| == 24 then Some(ReadRest(Number(s[..4]), s[4..]))
    else if |s| == 27 && s[0] == '-' then Some(ReadRest(0 - Number(s[1..7]), s[7..]))
    else if |s| == 27 && s[0] == '+' then Some(ReadRest(Number(s[1..7]), s[7..]))
    else None
  }

  function ReadRest(year: int, s: string): int
    requires |s| == 20
  {
    MakeDay(year, Number(s[1..3]) - 1, Number(s[4..6])) * MS_PER_DAY
    + Number(s[7..9]) * 3_600_000 + Number(s[10..12]) * 60_000 + Number(s[13..15]) * 1000 + Number(s[16..19])
  }

  /** The creation time of a row as a `Date` holds it, in milliseconds. */
  function DateMs(row: Row): int {
    row.createdAt / 1000
  }

  function Encode(row: Row): string
    requires -1_000_000 < YearOf(Day(DateMs(row))) < 1_000_000
  {
    Iso(DateMs(row)) + "|" + Decimal(row.id)
  }

  /** `None` where the handler answers "Invalid cursor". */
  function Decode(text: string): Option<Row> {
    var parts := Split(text, "|");
    if |parts| < 2 || parts[0] == "" || parts[1] == "" || !AllDigits(parts[1]) then None
    else
      match ReadIso(parts[0])
      case Some(t) => Some(Row(1000 * t, Number(parts[1])))
      case None => None
  }

  // Texts that are no cursors

  predicate IsFirstBar(text: string, bar: nat) {
    bar <= |text| && (forall i :: 0 <= i < bar ==> text[i] != '|') && (bar == |text| || text[bar] == '|')
  }

  lemma BarAt(text: string, i: nat)
    ensures OccursAt(text, "|", i) <==> i < |text| && text[i] == '|'
  {
    if i < |text| {
      assert text[i..i + 1] == [text[i]];
    }
  }

  lemma CutAtBar(text: string, bar: nat)
    requires IsFirstBar(text, bar)
    ensures Split(text, "|") == if bar == |text| then [text] else [text[..bar]] + Split(text[bar + 1..], "|")
  {
    hide Find, OccursAt;
    var i := Find(text, "|");
    BarAt(text, i);
    BarAt(text, bar);
  }

  lemma NotReadable(text: string, bar: nat)
    requires IsFirstBar(text, bar) && (bar == 0 || bar + 1 >= |text| || text[bar + 1] == '|')
    ensures Decode(text).None?
  {
    hide Find, Split, Number, AllDigits, ReadIso;
    CutAtBar(text, bar);
    if 0 < bar < |text| {
      CutAtBar(text[bar + 1..], 0);
    }
  }

  // Round trip

  lemma Pad3Number(n: nat)
    requires n < 1000
    ensures Number(Pad3(n)) == n
  {
    var a, b, c := DigitChar(n / 100), DigitChar(n / 10 % 10), DigitChar(n % 10);
    assert n == 100 * (n / 100) + 10 * (n / 10 % 10) + n % 10 by {
      assert n / 10 == 10 * (n / 100) + n / 10 % 10;
    }
    ThreeDigits(n / 100, n / 10 % 10, n % 10);
  }

  lemma ThreeDigits(a: nat, b: nat, c: nat)
    requires a < 10 && b < 10 && c < 10
    ensures Number([DigitChar(a), DigitChar(b), DigitChar(c)]) == 100 * a + 10 * b + c
  {
    var x, y, z := DigitChar(a), DigitChar(b), DigitChar(c);
    hide Number;
    NumberEmpty();
    NumberSnoc("", x);
    NumberSnoc([x], y);
    NumberSnoc([x, y], z);
    assert "" + [x] == [x] && [x] + [y] == [x, y] && [x, y] + [z] == [x, y, z];
  }

  lemma Pad6Number(n: nat)
    requires n < 1_000_000
    ensures Number(Pad6(n)) == n
  {
    var a, b := n / 1000, n % 1000;
    Pad3Number(a);
    Pad3Number(b);
    var s := Pad3(b);
    hide Pad3, Number;
    NumberThree(Pad3(a), s);
  }

  lemma NumberThree(s: string, t: string)
    requires |t| == 3
    ensures Number(s + t) == 1000 * Number(s) + Number(t)
  {
    var x, y, z := t[0], t[1], t[2];
    assert t == [x, y, z];
    hide Number;
    NumberEmpty();
    NumberSnoc("", x);
    NumberSnoc([x], y);
    NumberSnoc([x, y], z);
    assert "" + [x] == [x] && [x] + [y] == [x, y] && [x, y] + [z] == t;
    NumberSnoc(s, x);
    NumberSnoc(s + [x], y);
    NumberSnoc(s + [x] + [y], z);
    assert s + [x] + [y] + [z] == s + t;
  }

  lemma RestSlices(month: nat, date: nat, hour: nat, minute: nat, second: nat, ms: nat)
    requires month < 100 && date < 100 && hour < 100 && minute < 100 && second < 100 && ms < 1000
    ensures var s := PrintRest(month, date, hour, minute, second, ms);
            && |s| == 20 && s[1..3] == Pad2(month) && s[4..6] == Pad2(date) && s[7..9] == Pad2(hour)
            && s[10..12] == Pad2(minute) && s[13..15] == Pad2(second) && s[16..19] == Pad3(ms)
  {
    var s := PrintRest(month, date, hour, minute, second, ms);
    assert s[1..3] == [s[1], s[2]] && s[4..6] == [s[4], s[5]];
    assert s[7..9] == [s[7], s[8]] && s[10..12] == [s[10], s[11]];
    assert s[13..15] == [s[13], s[14]] && s[16..19] == [s[16], s[17], s[18]];
  }

  lemma ReadRestPrinted(year: int, month: nat, date: nat, hour: nat, minute: nat, second: nat, ms: nat)
    requires month < 100 && date < 100 && hour < 100 && minute < 100 && second < 100 && ms < 1000
    ensures |PrintRest(month, date, hour, minute, second, ms)| == 20
    ensures ReadRest(year, PrintRest(month, date, hour, minute, second, ms))
         == MakeDay(year, month - 1, date) * MS_PER_DAY + hour * 3_600_000 + minute * 60_000 + second * 1000 + ms
  {
    hide Pad2, Pad3, Number, MakeDay, PrintRest;
    RestSlices(month, date, hour, minute, second, ms);
    Pad2Number(month);
    Pad2Number(date);
    Pad2Number(hour);
    Pad2Number(minute);
    Pad2Number(second);
    Pad3Number(ms);
  }

  lemma TimeFields(r: nat)
    ensures r == (r / 3_600_000) * 3_600_000 + (r / 60_000 % 60) * 60_000 + (r / 1000 % 60) * 1000 + r % 1000
  {
    assert r / 1000 == 60 * (r / 60_000) + r / 1000 % 60;
    assert r / 60_000 == 60 * (r / 3_600_000) + r / 60_000 % 60;
  }

  /** A printed date reads back as the same instant, to the millisecond, before and after the year 0. */
  lemma IsoRoundTrip(t: int)
    requires -1_000_000 < YearOf(Day(t)) < 1_000_000
    ensures ReadIso(Iso(t)) == Some(t)
  {
    var d, r := Day(t), TimeInDay(t);
    var y := YearOf(d);
    var m, date := MonthInYear(d) + 1, DateOf(d);
    hide YearOf, MonthInYear, DateOf, Number, PrintRest, ReadRest, Pad4, Pad6;
    TimeFields(r);
    FieldsRoundTrip(d);
    ReadRestPrinted(y, m, date, r / 3_600_000, r / 60_000 % 60, r / 1000 % 60, r % 1000);
    var rest := PrintRest(m, date, r / 3_600_000, r / 60_000 % 60, r / 1000 % 60, r % 1000);
    var s := Iso(t);
    PadLengths(y);
    if 0 <= y < 10_000 {
      Pad4Number(y);
      assert s[..4] == Pad4(y) && s[4..] == rest;
    } else {
      var n := if y < 0 then -y else y;
      Pad6Number(n);
      assert s[1..7] == Pad6(n) && s[7..] == rest;
    }
  }

  lemma PadLengths(y: int)
    requires -1_000_000 < y < 1_000_000
    ensures 0 <= y < 10_000 ==> |Pad4(y)| == 4
    ensures y < 0 ==> |Pad6(-y)| == 6
    ensures y >= 0 ==> |Pad6(y)| == 6
  {
  }

  lemma {:induction false} DecimalReads(n: nat)
    ensures Number(Decimal(n)) == n && Decimal(n) != "" && AllDigits(Decimal(n))
  {
    if n < 10 {
      NumberSnoc("", DigitChar(n));
      assert "" + [DigitChar(n)] == [DigitChar(n)];
    } else {
      DecimalReads(n / 10);
      NumberSnoc(Decimal(n / 10), DigitChar(n % 10));
    }
  }

  lemma IsoHasNoBar(t: int)
    requires -1_000_000 < YearOf(Day(t)) < 1_000_000
    ensures '|' !in Iso(t) && Iso(t) != ""
  {
    var d, r := Day(t), TimeInDay(t);
    var y := YearOf(d);
    var rest :=
      PrintRest(MonthInYear(d) + 1, DateOf(d), r / 3_600_000, r / 60_000 % 60, r / 1000 % 60, r % 1000);
    hide PrintRest, PrintYear, YearOf;
    NoBarInYear(y);
    NoBarInRest(MonthInYear(d) + 1, DateOf(d), r / 3_600_000, r / 60_000 % 60, r / 1000 % 60, r % 1000);
  }

  lemma NoBarInYear(y: int)
    requires -1_000_000 < y < 1_000_000
    ensures '|' !in PrintYear(y) && PrintYear(y) != ""
  {
  }

  lemma NoBarInRest(month: nat, date: nat, hour: nat, minute: nat, second: nat, ms: nat)
    requires month < 100 && date < 100 && hour < 100 && minute < 100 && second < 100 && ms < 1000
    ensures '|' !in PrintRest(month, date, hour, minute, second, ms)
  {
  }

  lemma SplitAtBar(a: string, b: string)
    requires '|' !in a && '|' !in b
    ensures Split(a + "|" + b, "|") == [a, b]
  {
    var s := a + "|" + b;
    BarsOf(s);
    BarsOf(b);
    assert OccursAt(s, "|", |a|);
    assert Find(s, "|") == |a|;
    SplitFound(s, "|");
    assert s[..|a|] == a && s[|a| + 1..] == b;
    SplitNone(b, "|");
  }

  lemma BarsOf(s: string)
    ensures forall k :: OccursAt(s, "|", k) <==> 0 <= k < |s| && s[k] == '|'
  {
    forall k | 0 <= k < |s| ensures s[k..k + 1] == [s[k]] {}
  }

  /**
   * The cursor a client hands back stands for the row it was taken from, cut down to its millisecond; so for
   * the very row if and only if that was created on a whole millisecond.
   */
  lemma CursorRoundTrip(row: Row)
    requires -1_000_000 < YearOf(Day(DateMs(row))) < 1_000_000
    ensures Decode(Encode(row)) == Some(Sent(row))
    ensures Decode(Encode(row)) == Some(row) <==> IsWhole(row)
  {
    hide Iso, ReadIso, YearOf;
    IsoRoundTrip(DateMs(row));
    IsoHasNoBar(DateMs(row));
    DecimalReads(row.id);
    SplitAtBar(Iso(DateMs(row)), Decimal(row.id));
  }

  /** Every time value a date can hold can be printed. */
  lemma PrintableRange(t: int)
    requires -TIME_LIMIT <= t <= TIME_LIMIT
    ensures -1_000_000 < YearOf(Day(t)) < 1_000_000
  {
    hide MonthStart;
    EpochStart();
    var k := MonthOf(Day(t));
    if k >= EPOCH_MONTH {
      MonthSpan(EPOCH_MONTH, k);
    } else {
      MonthSpan(k + 1, EPOCH_MONTH);
    }
  }
}
