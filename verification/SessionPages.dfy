/**
 * The list handlers of src/controllers/session.controller.ts, and a client that follows their cursors: what it
 * sends back is the text it was given, and what it sees over all its requests is a walk of KeysetPaging.
 */
module SessionPages {
  import opened Calendar
  import opened KeysetPaging
  import opened Options
  import opened Sequences
  import opened SessionCursor

  datatype Response = InvalidCursor | Page(rows: seq<Row>, hasMore: bool, next: Option<string>)

  /** Ids are assigned from 1 on, and creation times are printable dates. */
  predicate IsTable(table: set<Row>) {
    forall r :: r in table ==> r.id > 0 && -TIME_LIMIT <= DateMs(r) <= TIME_LIMIT
  }

  lemma PageIsThere(dir: Direction, rows: set<Row>, limit: nat)
    ensures exists page :: IsPage(dir, page, rows, limit)
  {
    var page := PageExists(dir, rows, limit);
  }

  /** The rows of the query, in its order. */
  ghost function Query(dir: Direction, rows: set<Row>, limit: nat): (page: seq<Row>)
    ensures IsPage(dir, page, rows, limit)
  {
    PageIsThere(dir, rows, limit);
    var page :| IsPage(dir, page, rows, limit);
    page
  }

  /** The row a cursor text stands for, if any: an empty text is none, and sessions ignore an id of 0. */
  function CursorRow(l: Listing, cursor: Option<string>): Option<Row> {
    if cursor.GetOr("") == "" then None
    else
      var row := Decode(cursor.value);
      if l.Sessions? && row.Some? && row.value.id == 0 then None else row
  }

  /** The rows as the handler gets them: backward pages of messages are reversed. */
  ghost function Rows(l: Listing, table: set<Row>, at: Option<Row>, limit: nat): seq<Row> {
    var page := Query(QueryDirection(l), Eligible(QueryDirection(l), table, at), limit);
    if l == Messages(Backward) then Reversed(page) else page
  }

  /** A handler's answer to one request. */
  ghost function Respond(l: Listing, table: set<Row>, cursor: Option<string>, limit: nat): Response
    requires IsTable(table)
  {
    if cursor.GetOr("") != "" && Decode(cursor.value).None? then InvalidCursor
    else
      RowsAreThere(l, table, CursorRow(l, cursor), limit);
      Listed(Rows(l, table, CursorRow(l, cursor), limit), limit)
  }

  function Listed(rows: seq<Row>, limit: nat): Response
    requires forall r :: r in rows ==> -TIME_LIMIT <= DateMs(r) <= TIME_LIMIT
  {
    assert rows != [] ==> Last(rows) in rows;
    var hasMore := |rows| == limit;
    Page(rows, hasMore, if hasMore && rows != [] then Some(EncodeLast(rows)) else None)
  }

  lemma RowsAreThere(l: Listing, table: set<Row>, at: Option<Row>, limit: nat)
    ensures forall r :: r in Rows(l, table, at, limit) ==> r in table
  {
    hide Reversed, Ordered;
    var page := Query(QueryDirection(l), Eligible(QueryDirection(l), table, at), limit);
    forall r | r in Rows(l, table, at, limit) ensures r in page {
      InReversed(page, r);
    }
  }

  function EncodeLast(rows: seq<Row>): string
    requires rows != [] && -TIME_LIMIT <= DateMs(Last(rows)) <= TIME_LIMIT
  {
    PrintableRange(DateMs(Last(rows)));
    Encode(Last(rows))
  }

  // A client that follows the cursors

  /** One request and its response, with the table as it was then. */
  datatype Exchange = Exchange(table: set<Row>, response: Response)

  /** A client starts without a cursor and sends back each `next` it gets, until there is none. */
  ghost predicate IsClientRun(l: Listing, run: seq<Exchange>, cursor: Option<string>, limit: nat)
    decreases |run|
  {
    run == [] ||
    (var e := run[0];
     && IsTable(e.table) && e.response == Respond(l, e.table, cursor, limit)
     && (|run| > 1 ==> e.response.Page? && e.response.next.Some? && IsClientRun(l, run[1..], e.response.next, limit)))
  }

  function Shown(run: seq<Exchange>): seq<Row>
    decreases |run|
  {
    if run == [] then []
    else (if run[0].response.Page? then run[0].response.rows else []) + Shown(run[1..])
  }

  /** The client was told that there is no more. */
  predicate ToldTheEnd(run: seq<Exchange>) {
    run != [] && Last(run).response.Page? && Last(run).response.next.None?
  }

  /** The walk behind a run: the same tables, with pages in the order of the query. */
  function Visits(l: Listing, run: seq<Exchange>): (r: seq<Visit>)
    ensures |r| == |run|
    ensures forall i :: 0 <= i < |run| ==> r[i].table == run[i].table
    decreases |run|
  {
    if run == [] then []
    else
      var rows := if run[0].response.Page? then run[0].response.rows else [];
      [Visit(run[0].table, PageOf(l, rows))] + Visits(l, run[1..])
  }

  function PageOf(l: Listing, rows: seq<Row>): seq<Row> {
    if l == Messages(Backward) then Reversed(rows) else rows
  }

  lemma ReversedTwice(rows: seq<Row>)
    ensures Reversed(Reversed(rows)) == rows
  {
  }

  /** `text` is the cursor the server made of `row`; none stands for none. */
  predicate Stands(text: Option<string>, row: Option<Row>) {
    if text.None? then row.None?
    else
      && row.Some? && row.value.id > 0 && -TIME_LIMIT <= DateMs(row.value) <= TIME_LIMIT
      && (PrintableRange(DateMs(row.value)); text.value == Encode(row.value))
  }

  /**
   * A cursor the server made is never refused: the answer holds the page after the row it was made of, cut to
   * its millisecond, and a cursor made of its own last row exactly if the page is full.
   */
  lemma CursorIsUnderstood(l: Listing, table: set<Row>, text: Option<string>, row: Option<Row>, limit: nat)
    requires IsTable(table) && Stands(text, row)
    ensures var answer := Respond(l, table, text, limit);
            && answer.Page?
            && IsPage(QueryDirection(l), PageOf(l, answer.rows), After(QueryDirection(l), table, row), limit)
            && |answer.rows| <= limit
            && (answer.next.Some? <==> |answer.rows| == limit && limit > 0)
            && (answer.next.Some? ==> Stands(answer.next, Some(Last(answer.rows))))
  {
    StandsForRow(l, text, row);
    PageOfRows(l, table, Cut(row), limit);
    RowsAreThere(l, table, Cut(row), limit);
    hide Encode, Decode, Eligible, Cut, CursorRow, Stands, IsPage, PageOf, Rows, QueryDirection, EncodeLast;
    var rows := Rows(l, table, Cut(row), limit);
    assert Respond(l, table, text, limit) == Listed(rows, limit);
    hide Respond, IsTable;
    if rows != [] {
      assert Last(rows) in rows;
      EncodedStands(rows);
    }
  }

  lemma PageOfRows(l: Listing, table: set<Row>, at: Option<Row>, limit: nat)
    ensures var rows := Rows(l, table, at, limit);
            IsPage(QueryDirection(l), PageOf(l, rows), Eligible(QueryDirection(l), table, at), limit) && |rows| <= limit
  {
    hide Reversed, Ordered, Eligible;
    ReversedTwice(Query(QueryDirection(l), Eligible(QueryDirection(l), table, at), limit));
  }

  lemma EncodedStands(rows: seq<Row>)
    requires rows != [] && Last(rows).id > 0 && -TIME_LIMIT <= DateMs(Last(rows)) <= TIME_LIMIT
    ensures Stands(Some(EncodeLast(rows)), Some(Last(rows)))
  {
  }

  lemma StandsForRow(l: Listing, text: Option<string>, row: Option<Row>)
    requires Stands(text, row)
    ensures CursorRow(l, text) == Cut(row)
    ensures text.Some? ==> Decode(text.value).Some?
  {
    hide Encode, Decode;
    if text.Some? {
      PrintableRange(DateMs(row.value));
      CursorRoundTrip(row.value);
      EmptyIsRefused();
    }
  }

  /**
   * A text is refused that has no bar, nothing before its first bar, or nothing between that and the next bar
   * or the end.
   */
  lemma CursorIsRefused(l: Listing, table: set<Row>, text: string, bar: nat, limit: nat)
    requires IsTable(table) && text != "" && IsFirstBar(text, bar)
    requires bar == 0 || bar + 1 >= |text| || text[bar + 1] == '|'
    ensures Respond(l, table, Some(text), limit) == InvalidCursor
  {
    NotReadable(text, bar);
    hide Rows, Listed, Decode, IsTable;
  }

  /** The session list takes a cursor with id 0 for none. */
  lemma ZeroIdStartsOver(table: set<Row>, text: string, limit: nat)
    requires IsTable(table) && Decode(text).Some? && Decode(text).value.id == 0
    ensures Respond(Sessions, table, Some(text), limit) == Respond(Sessions, table, None, limit)
  {
    EmptyIsRefused();
    hide Rows, Listed, Decode, IsTable;
  }

  lemma EmptyIsRefused()
    ensures Decode("").None?
  {
  }

  lemma WalkCons(l: Listing, e: Exchange, cursor: Option<Row>, later: seq<Visit>, limit: nat)
    requires e.response.Page?
    requires IsPage(QueryDirection(l), PageOf(l, e.response.rows), After(QueryDirection(l), e.table, cursor), limit)
    requires
      || later == []
      || (|e.response.rows| == limit && limit > 0 && IsWalk(l, later, Some(Last(e.response.rows)), limit))
    ensures IsWalk(l, [Visit(e.table, PageOf(l, e.response.rows))] + later, cursor, limit)
  {
    hide IsPage, After, PageOf, CursorOf, QueryDirection;
    PageEnds(l, e.response.rows);
    var visits := [Visit(e.table, PageOf(l, e.response.rows))] + later;
    assert visits[1..] == later;
  }

  /** Every run of a client is a walk. */
  lemma {:induction false} RunIsWalk(l: Listing, run: seq<Exchange>, text: Option<string>, row: Option<Row>, limit: nat)
    requires IsClientRun(l, run, text, limit) && Stands(text, row)
    ensures IsWalk(l, Visits(l, run), row, limit)
    ensures forall e :: e in run ==> e.response.Page?
    decreases |run|
  {
    hide Stands, Respond, IsPage, After, IsTable, PageOf, QueryDirection, CursorOf;
    if run != [] {
      var e := run[0];
      CursorIsUnderstood(l, e.table, text, row, limit);
      if |run| > 1 {
        RunIsWalk(l, run[1..], e.response.next, Some(Last(e.response.rows)), limit);
      }
      hide IsWalk;
      WalkCons(l, e, row, Visits(l, run[1..]), limit);
    }
  }

  /** The client is told that there is no more exactly when its walk has ended. */
  lemma {:induction false} EndIsTold(l: Listing, run: seq<Exchange>, text: Option<string>, row: Option<Row>, limit: nat)
    requires IsClientRun(l, run, text, limit) && Stands(text, row) && limit > 0
    ensures ToldTheEnd(run) <==> Ended(Visits(l, run), limit)
    decreases |run|
  {
    hide Stands, Respond, IsPage, After, IsTable, PageOf, QueryDirection;
    if run != [] {
      var e := run[0];
      CursorIsUnderstood(l, e.table, text, row, limit);
      PageEnds(l, e.response.rows);
      if |run| > 1 {
        EndIsTold(l, run[1..], e.response.next, Some(Last(e.response.rows)), limit);
        assert Last(run) == Last(run[1..]) && Last(Visits(l, run)) == Last(Visits(l, run[1..]));
      }
    }
  }

  lemma PageEnds(l: Listing, rows: seq<Row>)
    ensures |PageOf(l, rows)| == |rows|
    ensures rows != [] ==> Last(rows) == CursorOf(l, PageOf(l, rows))
  {
  }

  lemma {:induction false} ShownIsWalked(l: Listing, run: seq<Exchange>)
    requires l != Messages(Backward)
    ensures Shown(run) == AllRows(Visits(l, run))
    decreases |run|
  {
    if run != [] {
      ShownIsWalked(l, run[1..]);
    }
  }

  lemma {:induction false} ShownIsWalkedBackward(run: seq<Exchange>, r: Row)
    ensures r in Shown(run) <==> r in AllRows(Visits(Messages(Backward), run))
    decreases |run|
  {
    if run != [] {
      ShownIsWalkedBackward(run[1..], r);
      var rows := if run[0].response.Page? then run[0].response.rows else [];
      InReversed(rows, r);
    }
  }

  lemma InReversed(rows: seq<Row>, r: Row)
    ensures r in Reversed(rows) <==> r in rows
  {
    if r in rows {
      var i :| 0 <= i < |rows| && rows[i] == r;
      assert Reversed(rows)[|rows| - 1 - i] == r;
    }
  }

  /** A run on a table that stays as it is. */
  ghost predicate IsRunOn(l: Listing, run: seq<Exchange>, table: set<Row>, limit: nat) {
    IsClientRun(l, run, None, limit) && forall e :: e in run ==> e.table == table
  }

  lemma RunVisits(l: Listing, run: seq<Exchange>, limit: nat)
    requires limit > 0 && IsClientRun(l, run, None, limit)
    ensures IsWalk(l, Visits(l, run), None, limit)
    ensures forall e :: e in run ==> e.response.Page?
    ensures ToldTheEnd(run) <==> Ended(Visits(l, run), limit)
    ensures forall v :: v in Visits(l, run) ==> exists e :: e in run && e.table == v.table
    ensures l != Messages(Backward) ==> Shown(run) == AllRows(Visits(l, run))
  {
    hide IsClientRun, IsWalk, Visits, Ended, ToldTheEnd, Shown, AllRows;
    RunIsWalk(l, run, None, None, limit);
    EndIsTold(l, run, None, None, limit);
    if l != Messages(Backward) {
      ShownIsWalked(l, run);
    }
    forall v | v in Visits(l, run) ensures exists e :: e in run && e.table == v.table {
      var i :| 0 <= i < |run| && Visits(l, run)[i] == v;
      assert run[i] in run;
    }
  }

  /**
   * Listing sessions, a client that only follows the cursors is never refused one and sees no row twice and
   * all in order, whatever comes and goes between its requests. When told that there is no more it has seen
   * a row that was there throughout if and only if no cursor it followed skips that row.
   */
  lemma ListingIsExact(run: seq<Exchange>, limit: nat)
    requires limit > 0 && IsClientRun(Sessions, run, None, limit)
    ensures forall e :: e in run ==> e.response.Page?
    ensures Ordered(Backward, Shown(run)) && NoRepeats(Shown(run))
    ensures ToldTheEnd(run) ==>
              forall r :: (forall e :: e in run ==> r in e.table) ==>
                            (r in Shown(run) <==> NeverSkipped(Visits(Sessions, run), r))
  {
    var visits := Visits(Sessions, run);
    hide IsWalk, IsClientRun, AllRows, Visits, Shown, Ended, ToldTheEnd, NeverSkipped;
    RunVisits(Sessions, run, limit);
    SessionWalkOrdered(visits, None, limit);
    OrderedHasNoRepeats(Backward, Shown(run));
    if ToldTheEnd(run) {
      forall r | forall e :: e in run ==> r in e.table ensures r in Shown(run) <==> NeverSkipped(visits, r) {
        SessionWalkShows(visits, None, limit, r);
      }
    }
  }

  /**
   * Listing messages forward, it has then seen every row that was there throughout; it sees rows in order, and
   * so none twice, if and only if no cursor it followed replays an older row.
   */
  lemma ForwardListing(run: seq<Exchange>, limit: nat)
    requires limit > 0 && IsClientRun(Messages(Forward), run, None, limit)
    ensures forall e :: e in run ==> e.response.Page?
    ensures ToldTheEnd(run) ==> forall r :: (forall e :: e in run ==> r in e.table) ==> r in Shown(run)
    ensures Ordered(Forward, Shown(run)) <==> NeverReplayed(Visits(Messages(Forward), run))
  {
    var visits := Visits(Messages(Forward), run);
    hide IsWalk, IsClientRun, AllRows, Visits, Shown, Ended, ToldTheEnd, NeverReplayed;
    RunVisits(Messages(Forward), run, limit);
    ForwardWalkOrdered(visits, limit, None);
    if ToldTheEnd(run) {
      forall r | forall e :: e in run ==> r in e.table ensures r in Shown(run) {
        ForwardWalkIsComplete(visits, None, limit, r);
      }
    }
  }

  /** On an unchanged table it sees no message twice if and only if all its cursors are on a whole millisecond. */
  lemma ForwardListingRepeats(run: seq<Exchange>, table: set<Row>, limit: nat)
    requires limit > 0 && IsRunOn(Messages(Forward), run, table, limit)
    ensures NoRepeats(Shown(run)) <==> WholeCursors(Visits(Messages(Forward), run))
  {
    hide IsWalk, IsClientRun, AllRows, Visits, Shown, Ended, ToldTheEnd, NoRepeats, WholeCursors;
    RunVisits(Messages(Forward), run, limit);
    ForwardWalkRepeats(Visits(Messages(Forward), run), table, limit);
  }

  /**
   * Listing messages backward, a client that was told that there is no more has seen every row that was there
   * throughout with, at each request, less than a page of newer rows in its millisecond or the newest of them
   * not skipping it; a row with a page or more of them, and skipped, at each request is never shown.
   */
  lemma BackwardListing(run: seq<Exchange>, limit: nat, r: Row)
    requires limit > 0 && IsClientRun(Messages(Backward), run, None, limit)
    requires forall e :: e in run ==> r in e.table
    ensures ToldTheEnd(run) && (forall e :: e in run ==> !IsBuried(e.table, limit, r)) ==> r in Shown(run)
    ensures (forall e :: e in run ==> IsBuried(e.table, limit, r)) ==> r !in Shown(run)
  {
    var visits := Visits(Messages(Backward), run);
    hide IsWalk, IsClientRun, AllRows, Visits, Shown, Ended, ToldTheEnd, NewerMsRows, NewestSkips;
    RunVisits(Messages(Backward), run, limit);
    ShownIsWalkedBackward(run, r);
    if ToldTheEnd(run) && forall e :: e in run ==> !IsBuried(e.table, limit, r) {
      BackwardWalkShows(visits, None, limit, r);
    }
    if forall e :: e in run ==> IsBuried(e.table, limit, r) {
      BackwardWalkHides(visits, None, limit, r);
    }
  }

  /** A page or more of newer rows share the row's millisecond, and the newest of them skips it. */
  ghost predicate IsBuried(table: set<Row>, limit: nat, r: Row) {
    |NewerMsRows(table, r)| >= limit && NewestSkips(table, r)
  }

  /** On an unchanged table it has seen exactly the rows that are not buried. */
  lemma BackwardListingIsComplete(run: seq<Exchange>, table: set<Row>, limit: nat, r: Row)
    requires limit > 0 && IsRunOn(Messages(Backward), run, table, limit) && ToldTheEnd(run) && r in table
    ensures r in Shown(run) <==> !IsBuried(table, limit, r)
  {
    hide IsClientRun, Shown, IsBuried;
    assert Last(run) in run;
    BackwardListing(run, limit, r);
  }

  /** A question and its answer are created at one instant; page by page of a single row, the question is lost. */
  lemma QuestionIsLost(run: seq<Exchange>, table: set<Row>, question: Row, answer: Row)
    requires IsRunOn(Messages(Backward), run, table, 1)
    requires question in table && answer in table && question.id < answer.id
    requires question.createdAt == answer.createdAt && !IsWhole(question)
    ensures question !in Shown(run)
  {
    hide IsClientRun, Shown, NewestSkips;
    assert answer in NewerMsRows(table, question);
    OffRowsAreSkipped(table, question);
    FewerRows({answer}, NewerMsRows(table, question));
    BackwardListing(run, 1, question);
  }

  // For every limit

  /** The client can always go on, up to any number of requests or until it is told that there is no more. */
  lemma {:induction false} RunOfLength(
    l: Listing, table: set<Row>, text: Option<string>, row: Option<Row>, limit: nat, n: nat)
    returns (run: seq<Exchange>)
    requires IsTable(table) && Stands(text, row) && limit > 0 && n > 0
    ensures IsClientRun(l, run, text, limit) && forall e :: e in run ==> e.table == table
    ensures 0 < |run| <= n && (|run| == n || ToldTheEnd(run))
    ensures run[0].response == Respond(l, table, text, limit)
    decreases n
  {
    hide Stands, Respond, IsTable;
    var e := Exchange(table, Respond(l, table, text, limit));
    CursorIsUnderstood(l, table, text, row, limit);
    if e.response.next.None? || n == 1 {
      run := [e];
    } else {
      var later := RunOfLength(l, table, e.response.next, Some(Last(e.response.rows)), limit, n - 1);
      run := [e] + later;
      assert run[1..] == later && Last(run) == Last(later);
    }
  }

  lemma NoneStands()
    ensures Stands(None, None)
  {
  }

  /** A run on an unchanged table on which runs are bounded reaches its end. */
  lemma RunToTheEnd(l: Listing, table: set<Row>, limit: nat) returns (run: seq<Exchange>)
    requires IsTable(table) && limit > 0
    requires forall any :: IsRunOn(l, any, table, limit) ==> |any| <= |table| + 1
    ensures IsRunOn(l, run, table, limit) && ToldTheEnd(run)
  {
    hide IsClientRun, ToldTheEnd, IsTable;
    NoneStands();
    run := RunOfLength(l, table, None, None, limit, |table| + 2);
    assert IsRunOn(l, run, table, limit);
  }

  /** On an unchanged table every backward run ends: it has at most one request more than there are rows. */
  lemma RunsEnd(l: Listing, run: seq<Exchange>, table: set<Row>, limit: nat)
    requires QueryDirection(l) == Backward && limit > 0 && IsRunOn(l, run, table, limit)
    ensures |run| <= |table| + 1
  {
    hide IsWalk, IsClientRun, Visits, Shown, AllRows;
    RunVisits(l, run, limit);
    BackwardWalksEnd(l, Visits(l, run), table, None, limit);
  }

  ghost predicate CanEnd(l: Listing, table: set<Row>, limit: nat) {
    exists run :: IsRunOn(l, run, table, limit) && ToldTheEnd(run)
  }

  /**
   * A forward run comes to its end if and only if every millisecond has less than a page of rows that cursors
   * do not keep apart; it then takes at most one request more than there are rows. For a table with rows on a
   * whole millisecond that have larger ids than others of it, less than a page of rows at all will do.
   */
  lemma ForwardRunsEnd(table: set<Row>, limit: nat)
    requires IsTable(table) && limit > 0
    ensures WholeFirst(table) ==>
              (CanEnd(Messages(Forward), table, limit) <==> forall ms :: |OffRows(table, ms)| < limit)
    ensures IsSparse(table, limit) ==>
              && CanEnd(Messages(Forward), table, limit)
              && forall run :: IsRunOn(Messages(Forward), run, table, limit) ==> |run| <= |table| + 1
  {
    hide IsWalk, IsClientRun, Visits, Shown, AllRows, Ended, ToldTheEnd, OffRows, MsRows, WholeFirst, IsTable;
    forall run | IsRunOn(Messages(Forward), run, table, limit)
      ensures IsSparse(table, limit) ==> |run| <= |table| + 1
      ensures ToldTheEnd(run) ==> forall ms :: |OffRows(table, ms)| < limit
    {
      RunVisits(Messages(Forward), run, limit);
      var visits := Visits(Messages(Forward), run);
      if IsSparse(table, limit) {
        ForwardWalksEnd(visits, table, None, limit);
      }
      if ms :| |OffRows(table, ms)| >= limit {
        ForwardWalkIsStuck(visits, table, None, limit, ms);
      }
    }
    if IsSparse(table, limit) {
      var run := RunToTheEnd(Messages(Forward), table, limit);
    }
  }

  /** The limits the handlers accept. */
  predicate IsLimit(limit: nat) {
    1 <= limit <= 50
  }

  /**
   * With every limit that is accepted the session list shows all of an unchanged table, if and only if no row
   * of it is skipped by another.
   */
  lemma SessionListMissesNothing(table: set<Row>)
    requires IsTable(table)
    ensures (forall limit: nat, run :: IsLimit(limit) && IsRunOn(Sessions, run, table, limit) && ToldTheEnd(run) ==>
                                         forall r :: r in table ==> r in Shown(run))
            <==> forall c, r :: c in table && r in table ==> !Skips(c, r)
  {
    hide IsTable, IsClientRun, IsWalk, Visits, Shown, ToldTheEnd, Skips;
    forall limit: nat, run | IsLimit(limit) && IsRunOn(Sessions, run, table, limit) && ToldTheEnd(run)
      ensures (forall c, r :: c in table && r in table ==> !Skips(c, r)) ==> forall r :: r in table ==> r in Shown(run)
    {
      SkipFreeShows(run, table, limit);
    }
    if c, r :| c in table && r in table && Skips(c, r) {
      var run, lost := LosingRun(table, c, r);
      assert IsLimit(1);
    }
  }

  lemma SkipFreeShows(run: seq<Exchange>, table: set<Row>, limit: nat)
    requires limit > 0 && IsRunOn(Sessions, run, table, limit) && ToldTheEnd(run)
    ensures (forall c, r :: c in table && r in table ==> !Skips(c, r)) ==> forall r :: r in table ==> r in Shown(run)
  {
    hide IsClientRun, IsWalk, Visits, Shown, ToldTheEnd, Skips, AllRows;
    RunVisits(Sessions, run, limit);
    ListingIsExact(run, limit);
    var visits := Visits(Sessions, run);
    forall i | 0 <= i < |visits| - 1 && visits[i].page != [] ensures Last(visits[i].page) in table {
      PagesFromTable(Sessions, visits, None, limit, i);
      assert visits[i] in visits && Last(visits[i].page) in visits[i].page;
    }
  }

  lemma {:induction false} PagesFromTable(l: Listing, visits: seq<Visit>, cursor: Option<Row>, limit: nat, i: nat)
    requires IsWalk(l, visits, cursor, limit) && i < |visits|
    ensures forall r :: r in visits[i].page ==> r in visits[i].table
    decreases |visits|
  {
    if i > 0 {
      PagesFromTable(l, visits[1..], Some(CursorOf(l, visits[0].page)), limit, i - 1);
    }
  }

  /** A row that is skipped by no row of the table is shown, and then a cursor is made of it if pages hold one row. */
  lemma {:induction false} CursorOfShown(visits: seq<Visit>, c: Row) returns (i: nat)
    requires Ended(visits, 1) && c in AllRows(visits)
    requires forall v :: v in visits ==> |v.page| <= 1
    ensures i + 1 < |visits| && visits[i].page == [c]
    decreases |visits|
  {
    if c in visits[0].page {
      i := 0;
      assert visits[0] in visits;
      assert |visits| > 1;
    } else {
      assert Last(visits) == Last(visits[1..]);
      i := CursorOfShown(visits[1..], c);
      i := i + 1;
    }
  }

  lemma {:induction false} SmallPages(l: Listing, visits: seq<Visit>, cursor: Option<Row>, limit: nat)
    requires IsWalk(l, visits, cursor, limit)
    ensures forall v :: v in visits ==> |v.page| <= limit
    decreases |visits|
  {
    if |visits| > 1 {
      SmallPages(l, visits[1..], Some(CursorOf(l, visits[0].page)), limit);
    }
  }

  /** The newest row of a millisecond in which a row is skipped skips that row or the one that skips it. */
  lemma NewestSkipsOne(table: set<Row>, c: Row, r: Row) returns (newest: Row, lost: Row)
    requires c in table && r in table && Skips(c, r)
    ensures newest in table && lost in table && Skips(newest, lost)
    ensures forall x :: x in table ==> !Skips(x, newest)
  {
    assert c in MsRows(table, r.createdAt / 1000);
    newest := LeastRow(Backward, MsRows(table, r.createdAt / 1000));
    BeforeIsOrder(Backward, newest, c, r);
    lost := if Skips(newest, r) then r else c;
    forall x | x in table ensures !Skips(x, newest) {
      BeforeIsOrder(Backward, newest, x, newest);
    }
  }

  /** Where a row is skipped by another, page by page of a single row a run ends without having shown all. */
  lemma LosingRun(table: set<Row>, c: Row, r: Row) returns (run: seq<Exchange>, lost: Row)
    requires IsTable(table) && c in table && r in table && Skips(c, r)
    ensures IsRunOn(Sessions, run, table, 1) && ToldTheEnd(run) && lost in table && lost !in Shown(run)
  {
    hide IsTable, IsClientRun, IsWalk, Shown, ToldTheEnd, Skips, Visits, AllRows, Ended;
    forall any | IsRunOn(Sessions, any, table, 1) ensures |any| <= |table| + 1 {
      RunsEnd(Sessions, any, table, 1);
    }
    run := RunToTheEnd(Sessions, table, 1);
    var newest: Row;
    newest, lost := NewestSkipsOne(table, c, r);
    RunVisits(Sessions, run, 1);
    ListingIsExact(run, 1);
    var visits := Visits(Sessions, run);
    forall i | 0 <= i < |visits| - 1 && visits[i].page != [] ensures Last(visits[i].page) in table {
      PagesFromTable(Sessions, visits, None, 1, i);
      assert visits[i] in visits && Last(visits[i].page) in visits[i].page;
    }
    assert newest in Shown(run);
    SmallPages(Sessions, visits, None, 1);
    var i := CursorOfShown(visits, newest);
    assert Last(visits[i].page) == newest;
  }

  lemma {:induction false} FullPages(l: Listing, visits: seq<Visit>, cursor: Option<Row>)
    requires IsWalk(l, visits, cursor, 1) && !Ended(visits, 1)
    ensures |AllRows(visits)| == |visits|
    decreases |visits|
  {
    hide IsPage, After;
    if |visits| == 1 {
      SmallPages(l, visits, cursor, 1);
      assert visits[0] in visits;
      assert visits[1..] == [] && AllRows(visits) == visits[0].page + [];
    } else if |visits| > 1 {
      assert Last(visits) == Last(visits[1..]);
      FullPages(l, visits[1..], Some(CursorOf(l, visits[0].page)));
    }
  }

  lemma {:induction false} AllFromTable(l: Listing, visits: seq<Visit>, cursor: Option<Row>, table: set<Row>,
                                        limit: nat)
    requires IsWalk(l, visits, cursor, limit) && forall v :: v in visits ==> v.table == table
    ensures RowSet(AllRows(visits)) <= table
    decreases |visits|
  {
    if visits != [] {
      assert visits[0] in visits;
      if |visits| > 1 {
        AllFromTable(l, visits[1..], Some(CursorOf(l, visits[0].page)), table, limit);
      }
    }
  }

  lemma TooManyRows(rows: seq<Row>, table: set<Row>)
    requires RowSet(rows) <= table && |rows| > |table|
    ensures !NoRepeats(rows)
  {
    if NoRepeats(rows) {
      DistinctRows(rows);
      FewerRows(RowSet(rows), table);
      assert false;
    }
  }

  /** With a row off the whole millisecond, page by page of a single row a forward run comes to repeat one. */
  lemma RepeatingRun(table: set<Row>, r: Row) returns (run: seq<Exchange>)
    requires IsTable(table) && r in table && !IsWhole(r)
    ensures IsRunOn(Messages(Forward), run, table, 1) && !NoRepeats(Shown(run))
  {
    hide IsTable, IsClientRun, IsWalk, Shown, ToldTheEnd, Visits, AllRows, Ended;
    hide NoRepeats, OffRows, Stands, Respond, RowSet;
    var l := Messages(Forward);
    NoneStands();
    run := RunOfLength(l, table, None, None, 1, |table| + 1);
    var visits := Visits(l, run);
    RunVisits(l, run, 1);
    OneOffRow(table, r);
    ForwardWalkIsStuck(visits, table, None, 1, r.createdAt / 1000);
    FullPages(l, visits, None);
    AllFromTable(l, visits, None, table, 1);
    TooManyRows(Shown(run), table);
  }

  lemma OneOffRow(table: set<Row>, r: Row)
    requires r in table && !IsWhole(r)
    ensures |OffRows(table, r.createdAt / 1000)| >= 1
  {
    FewerRows({r}, OffRows(table, r.createdAt / 1000));
  }

  /**
   * With every limit that is accepted, forward messages of an unchanged table come without repeats, and as well
   * come to an end, if and only if all are on whole milliseconds.
   */
  lemma ForwardListingNeverRepeats(table: set<Row>)
    requires IsTable(table)
    ensures (forall limit: nat, run :: IsLimit(limit) && IsRunOn(Messages(Forward), run, table, limit) ==>
                                         NoRepeats(Shown(run)))
            <==> forall r :: r in table ==> IsWhole(r)
    ensures (forall limit: nat :: IsLimit(limit) ==> CanEnd(Messages(Forward), table, limit))
            <==> forall r :: r in table ==> IsWhole(r)
  {
    hide IsTable, IsClientRun, IsWalk, Visits, Shown, NoRepeats, IsWhole, AllRows, ToldTheEnd;
    forall limit: nat, run | IsLimit(limit) && IsRunOn(Messages(Forward), run, table, limit)
      ensures (forall r :: r in table ==> IsWhole(r)) ==> NoRepeats(Shown(run))
    {
      WholeNeverRepeats(table, run, limit);
    }
    assert IsLimit(1);
    if r :| r in table && !IsWhole(r) {
      var run := RepeatingRun(table, r);
      OffNeverEnds(table, r);
    } else {
      forall limit: nat | IsLimit(limit) ensures CanEnd(Messages(Forward), table, limit) {
        WholeEnds(table, limit);
      }
    }
  }

  lemma WholeNeverRepeats(table: set<Row>, run: seq<Exchange>, limit: nat)
    requires limit > 0 && IsRunOn(Messages(Forward), run, table, limit)
    ensures (forall r :: r in table ==> IsWhole(r)) ==> NoRepeats(Shown(run))
  {
    hide IsClientRun, IsWalk, Visits, Shown, NoRepeats, IsWhole, AllRows;
    var l := Messages(Forward);
    var visits := Visits(l, run);
    RunVisits(l, run, limit);
    ForwardListingRepeats(run, table, limit);
    forall i | 0 <= i < |visits| - 1 && visits[i].page != [] ensures Last(visits[i].page) in table {
      PagesFromTable(l, visits, None, limit, i);
      assert visits[i] in visits && Last(visits[i].page) in visits[i].page;
    }
  }

  lemma OffNeverEnds(table: set<Row>, r: Row)
    requires IsTable(table) && r in table && !IsWhole(r)
    ensures !CanEnd(Messages(Forward), table, 1)
  {
    hide IsTable, IsClientRun, IsWalk, Visits, Shown, AllRows, Ended, ToldTheEnd;
    OneOffRow(table, r);
    forall run | IsRunOn(Messages(Forward), run, table, 1) ensures !ToldTheEnd(run) {
      RunVisits(Messages(Forward), run, 1);
      ForwardWalkIsStuck(Visits(Messages(Forward), run), table, None, 1, r.createdAt / 1000);
    }
  }

  lemma WholeEnds(table: set<Row>, limit: nat)
    requires IsTable(table) && limit > 0 && forall r :: r in table ==> IsWhole(r)
    ensures CanEnd(Messages(Forward), table, limit)
  {
    hide IsTable, IsRunOn, ToldTheEnd;
    forall ms ensures |OffRows(table, ms)| < limit {
      assert OffRows(table, ms) == {};
    }
    assert WholeFirst(table);
    ForwardRunsEnd(table, limit);
  }

  /**
   * Sessions are sent newest first, messages oldest first in either direction; there is more exactly if the page
   * is full.
   */
  lemma PageIsSent(l: Listing, table: set<Row>, text: Option<string>, row: Option<Row>, limit: nat)
    requires IsTable(table) && Stands(text, row)
    ensures var answer := Respond(l, table, text, limit);
            && answer.Page? && (answer.hasMore <==> |answer.rows| == limit)
            && Ordered(if l == Sessions then Backward else Forward, answer.rows)
            && forall r :: r in answer.rows ==> r in table
  {
    var rows := Rows(l, table, Cut(row), limit);
    RespondsWith(l, table, text, row, limit);
    hide Respond, Rows, Stands, IsTable, Eligible, Cut, PageOf, Ordered;
    PageOfRows(l, table, Cut(row), limit);
    RowsAreThere(l, table, Cut(row), limit);
    SentOrder(l, rows);
  }

  lemma SentOrder(l: Listing, rows: seq<Row>)
    requires Ordered(QueryDirection(l), PageOf(l, rows))
    ensures Ordered(if l == Sessions then Backward else Forward, rows)
  {
    hide Ordered, Reversed;
    match l
    case Sessions =>
    case Messages(Forward) =>
    case Messages(Backward) =>
      ReversedOrder(Reversed(rows));
      ReversedTwice(rows);
  }

  lemma RespondsWith(l: Listing, table: set<Row>, text: Option<string>, row: Option<Row>, limit: nat)
    requires IsTable(table) && Stands(text, row)
    ensures var answer, rows := Respond(l, table, text, limit), Rows(l, table, Cut(row), limit);
            answer.Page? && answer.rows == rows && (answer.hasMore <==> |rows| == limit)
  {
    StandsForRow(l, text, row);
    hide Rows, Encode, Decode, CursorRow, Stands, Cut;
  }

  lemma ReversedOrder(rows: seq<Row>)
    requires Ordered(Backward, rows)
    ensures Ordered(Forward, Reversed(rows))
  {
    hide Reversed;
    forall i, j | 0 <= i < j < |rows| ensures Before(Forward, Reversed(rows)[i], Reversed(rows)[j]) {
      assert Before(Backward, rows[|rows| - 1 - j], rows[|rows| - 1 - i]);
    }
  }
}
