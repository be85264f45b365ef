/**
 * Walking through sessions and messages page by page (src/repositories/ask-session.repository.ts and
 * ask-message.repository.ts, src/controllers/session.controller.ts), while rows come and go between requests.
 * A row is known by its creation time, in microseconds as the database keeps it, and its id; a cursor keeps
 * the time in milliseconds only.
 */
module KeysetPaging {
  import opened Options
  import opened Sequences

  datatype Row = Row(createdAt: int, id: nat)

  datatype Direction = Forward | Backward

  /** What is listed: a requester's sessions, newest first, or a session's messages in either direction. */
  datatype Listing = Sessions | Messages(dir: Direction)

  function QueryDirection(l: Listing): Direction {
    if l == Messages(Forward) then Forward else Backward
  }

  /** `a` comes before `b`: oldest first going forward, newest first going backward. Sessions go backward. */
  predicate Before(dir: Direction, a: Row, b: Row) {
    match dir
    case Forward => a.createdAt < b.createdAt || (a.createdAt == b.createdAt && a.id < b.id)
    case Backward => a.createdAt > b.createdAt || (a.createdAt == b.createdAt && a.id > b.id)
  }

  /** The rows the query admits: those after the cursor. */
  function Eligible(dir: Direction, table: set<Row>, cursor: Option<Row>): set<Row> {
    if cursor.Some? then set r | r in table && Before(dir, cursor.value, r) else table
  }

  ghost predicate Ordered(dir: Direction, rows: seq<Row>) {
    forall i, j :: 0 <= i < j < |rows| ==> Before(dir, rows[i], rows[j])
  }

  /** `ORDER BY created_at, id LIMIT n`: an ordered choice of at most `limit` rows that leaves out only later ones. */
  ghost predicate IsPage(dir: Direction, page: seq<Row>, rows: set<Row>, limit: nat) {
    && Ordered(dir, page)
    && (forall r :: r in page ==> r in rows)
    && |page| <= limit
    && (forall r :: r in rows && r !in page ==> |page| == limit && forall p :: p in page ==> Before(dir, p, r))
  }

  lemma BeforeIsOrder(dir: Direction, a: Row, b: Row, c: Row)
    ensures !Before(dir, a, a)
    ensures a != b ==> Before(dir, a, b) || Before(dir, b, a)
    ensures Before(dir, a, b) && Before(dir, b, c) ==> Before(dir, a, c)
  {
  }

  /** The query has one answer. */
  lemma PageUnique(dir: Direction, a: seq<Row>, b: seq<Row>, rows: set<Row>, limit: nat)
    requires IsPage(dir, a, rows, limit) && IsPage(dir, b, rows, limit)
    ensures a == b
  {
    ShorterPage(dir, a, b, rows, limit, limit);
    ShorterPage(dir, b, a, rows, limit, limit);
  }

  /** And it always has one. */
  lemma {:induction false} PageExists(dir: Direction, rows: set<Row>, limit: nat) returns (page: seq<Row>)
    ensures IsPage(dir, page, rows, limit)
    decreases limit
  {
    if limit == 0 || rows == {} {
      page := [];
    } else {
      var least := LeastRow(dir, rows);
      var later := PageExists(dir, rows - {least}, limit - 1);
      page := [least] + later;
      forall i | 0 <= i < |later| ensures Before(dir, least, later[i]) {
        assert later[i] in later;
      }
      forall r | r in rows && r !in page ensures |page| == limit && forall p :: p in page ==> Before(dir, p, r) {
        assert r in rows - {least} && r !in later;
      }
    }
  }

  lemma {:induction false} LeastRow(dir: Direction, rows: set<Row>) returns (least: Row)
    requires rows != {}
    ensures least in rows && forall r :: r in rows && r != least ==> Before(dir, least, r)
    decreases |rows|
  {
    least :| least in rows;
    if rows != {least} {
      var other := LeastRow(dir, rows - {least});
      BeforeIsOrder(dir, least, other, other);
      if Before(dir, other, least) {
        least := other;
      } else {
        forall r | r in rows && r != least ensures Before(dir, least, r) {
          BeforeIsOrder(dir, least, other, r);
        }
      }
    }
  }

  lemma FirstIsLeast(dir: Direction, page: seq<Row>, rows: set<Row>, limit: nat)
    requires IsPage(dir, page, rows, limit) && page != []
    ensures forall r :: r in rows ==> r == page[0] || Before(dir, page[0], r)
  {
    assert page[0] in page;
  }

  lemma PageTail(dir: Direction, page: seq<Row>, rows: set<Row>, limit: nat)
    requires IsPage(dir, page, rows, limit) && page != []
    ensures limit > 0 && IsPage(dir, page[1..], rows - {page[0]}, limit - 1)
  {
    assert page == [page[0]] + page[1..];
    forall r | r in page[1..] ensures r in rows - {page[0]} {
      var i :| 0 <= i < |page[1..]| && page[1..][i] == r;
      assert Before(dir, page[0], page[i + 1]);
    }
  }

  /** A page with a smaller limit is a prefix of the page with the larger one. */
  lemma {:induction false} ShorterPage(dir: Direction, a: seq<Row>, b: seq<Row>, rows: set<Row>, m: nat, n: nat)
    requires m <= n && IsPage(dir, a, rows, m) && IsPage(dir, b, rows, n)
    ensures a <= b
    decreases |a|
  {
    if a != [] {
      assert b != [] by {
        assert a[0] in a;
      }
      FirstIsLeast(dir, a, rows, m);
      FirstIsLeast(dir, b, rows, n);
      assert a[0] in a && b[0] in b;
      BeforeIsOrder(dir, a[0], b[0], a[0]);
      PageTail(dir, a, rows, m);
      PageTail(dir, b, rows, n);
      ShorterPage(dir, a[1..], b[1..], rows - {a[0]}, m - 1, n - 1);
    }
  }

  // What the millisecond of a cursor does

  /** What a cursor keeps of the row it is made of. */
  function Sent(c: Row): Row {
    Row(c.createdAt / 1000 * 1000, c.id)
  }

  /** The creation time loses nothing in a cursor. */
  predicate IsWhole(r: Row) {
    r.createdAt % 1000 == 0
  }

  predicate SameMs(a: Row, b: Row) {
    a.createdAt / 1000 == b.createdAt / 1000
  }

  function Cut(cursor: Option<Row>): Option<Row> {
    if cursor.Some? then Some(Sent(cursor.value)) else None
  }

  /** The rows after a cursor made of row `cursor`. */
  function After(dir: Direction, table: set<Row>, cursor: Option<Row>): set<Row> {
    Eligible(dir, table, Cut(cursor))
  }

  /** Row `r` is older than `c`, and yet a cursor made of `c` passes it over. */
  predicate Skips(c: Row, r: Row) {
    Before(Backward, c, r) && SameMs(c, r) && (!IsWhole(r) || r.id >= c.id)
  }

  /** Row `r` is `c` or older, and yet a forward cursor made of `c` admits it again. */
  predicate Replays(c: Row, r: Row) {
    !Before(Forward, c, r) && SameMs(c, r) && (!IsWhole(r) || r.id > c.id)
  }

  /** Exactly what a cut cursor does: going backward it may skip older rows, going forward it may replay some. */
  lemma CutCursor(table: set<Row>, c: Row, r: Row)
    requires r in table
    ensures r in After(Backward, table, Some(c)) <==> Before(Backward, c, r) && !Skips(c, r)
    ensures r in After(Forward, table, Some(c)) <==> Before(Forward, c, r) || Replays(c, r)
  {
  }

  /** A forward cursor admits the very row it was made of, unless that row is on a whole millisecond. */
  lemma CursorAdmitsItself(table: set<Row>, c: Row)
    requires c in table
    ensures c in After(Forward, table, Some(c)) <==> !IsWhole(c)
    ensures c !in After(Backward, table, Some(c))
  {
  }

  /** Backward cursors move on even when cut. */
  lemma SentAdvances(c: Row, d: Row)
    requires Before(Backward, Sent(c), d)
    ensures Before(Backward, c, d) && Before(Backward, Sent(c), Sent(d))
  {
  }

  // Walks

  /** One request: the table as it was then, and the page it returned. */
  datatype Visit = Visit(table: set<Row>, page: seq<Row>)

  /** The handlers make the cursor of the last row they send; backward pages of messages are sent newest last. */
  function CursorOf(l: Listing, page: seq<Row>): Row
    requires page != []
  {
    if l == Messages(Backward) then page[0] else Last(page)
  }

  /** A client follows `next_cursor`, which is there as long as pages are full. */
  ghost predicate IsWalk(l: Listing, visits: seq<Visit>, cursor: Option<Row>, limit: nat)
    decreases |visits|
  {
    visits == [] ||
    (var v, dir := visits[0], QueryDirection(l);
     && IsPage(dir, v.page, After(dir, v.table, cursor), limit)
     && (|visits| > 1 ==> |v.page| == limit && limit > 0 && IsWalk(l, visits[1..], Some(CursorOf(l, v.page)), limit)))
  }

  function AllRows(visits: seq<Visit>): seq<Row>
    decreases |visits|
  {
    if visits == [] then [] else visits[0].page + AllRows(visits[1..])
  }

  /** The walk is over: its last page was not full, so there is no next cursor. */
  ghost predicate Ended(visits: seq<Visit>, limit: nat) {
    visits != [] && |Last(visits).page| < limit
  }

  lemma OrderedHasNoRepeats(dir: Direction, rows: seq<Row>)
    requires Ordered(dir, rows)
    ensures NoRepeats(rows)
  {
    forall i, j | 0 <= i < j < |rows| ensures rows[i] != rows[j] {
      BeforeIsOrder(dir, rows[i], rows[j], rows[j]);
    }
  }

  function RowSet(rows: seq<Row>): set<Row> {
    set r | r in rows
  }

  lemma {:induction false} DistinctRows(rows: seq<Row>)
    requires NoRepeats(rows)
    ensures |RowSet(rows)| == |rows|
  {
    if rows != [] {
      DistinctRows(rows[1..]);
      assert rows == [rows[0]] + rows[1..];
      assert rows[0] !in rows[1..];
      assert RowSet(rows) == RowSet(rows[1..]) + {rows[0]};
    }
  }

  lemma FewerRows(a: set<Row>, b: set<Row>)
    requires a <= b
    ensures |a| <= |b|
  {
    assert b == a + (b - a);
  }

  /** A page is as large as the set of its rows. */
  lemma PageSize(dir: Direction, page: seq<Row>, rows: set<Row>)
    requires Ordered(dir, page) && forall r :: r in page ==> r in rows
    ensures |page| <= |rows|
  {
    OrderedHasNoRepeats(dir, page);
    DistinctRows(page);
    FewerRows(RowSet(page), rows);
  }

  // The session list: backward, with the oldest row of a page as cursor

  lemma {:induction false} SessionWalkOrdered(visits: seq<Visit>, cursor: Option<Row>, limit: nat)
    requires IsWalk(Sessions, visits, cursor, limit)
    ensures Ordered(Backward, AllRows(visits))
    ensures cursor.Some? ==> forall r :: r in AllRows(visits) ==> Before(Backward, cursor.value, r)
    decreases |visits|
  {
    if visits != [] {
      var v, page := visits[0], visits[0].page;
      forall r | r in page && cursor.Some? ensures Before(Backward, cursor.value, r) {
        CutCursor(v.table, cursor.value, r);
      }
      if |visits| > 1 {
        SessionWalkOrdered(visits[1..], Some(Last(page)), limit);
        OrderedAppend(Backward, page, AllRows(visits[1..]));
        forall r | r in AllRows(visits[1..]) && cursor.Some? ensures Before(Backward, cursor.value, r) {
          assert Last(page) in page;
          BeforeIsOrder(Backward, cursor.value, Last(page), r);
        }
      } else {
        assert AllRows(visits) == page + [] == page;
      }
    }
  }

  lemma OrderedAppend(dir: Direction, a: seq<Row>, b: seq<Row>)
    requires Ordered(dir, a) && Ordered(dir, b) && a != []
    requires forall r :: r in b ==> Before(dir, Last(a), r)
    ensures Ordered(dir, a + b)
  {
    forall i, j | 0 <= i < |a| && 0 <= j < |b| ensures Before(dir, a[i], b[j]) {
      assert b[j] in b;
      BeforeIsOrder(dir, a[i], Last(a), b[j]);
    }
  }

  /** A row that a backward cursor has passed is not shown any more. */
  lemma {:induction false} PassedForGood(l: Listing, visits: seq<Visit>, c: Row, limit: nat, r: Row)
    requires QueryDirection(l) == Backward && IsWalk(l, visits, Some(c), limit)
    requires !Before(Backward, Sent(c), r)
    ensures r !in AllRows(visits)
    decreases |visits|
  {
    if visits != [] {
      var page := visits[0].page;
      assert r !in page;
      if |visits| > 1 {
        var d := CursorOf(l, page);
        assert d in page;
        SentAdvances(c, d);
        if Before(Backward, Sent(d), r) {
          BeforeIsOrder(Backward, Sent(c), Sent(d), r);
        }
        PassedForGood(l, visits[1..], d, limit, r);
      }
    }
  }

  /** No cursor that was followed skips `r`. */
  ghost predicate NeverSkipped(visits: seq<Visit>, r: Row) {
    forall i :: 0 <= i < |visits| - 1 && visits[i].page != [] ==> !Skips(Last(visits[i].page), r)
  }

  lemma NeverSkippedTail(visits: seq<Visit>, r: Row)
    requires |visits| > 1 && visits[0].page != []
    ensures NeverSkipped(visits, r) <==> !Skips(Last(visits[0].page), r) && NeverSkipped(visits[1..], r)
  {
    var later := visits[1..];
    if NeverSkipped(later, r) && !Skips(Last(visits[0].page), r) {
      forall i | 0 < i < |visits| - 1 && visits[i].page != [] ensures !Skips(Last(visits[i].page), r) {
        assert visits[i] == later[i - 1];
      }
    }
    if NeverSkipped(visits, r) {
      forall i | 0 <= i < |later| - 1 && later[i].page != [] ensures !Skips(Last(later[i].page), r) {
        assert later[i] == visits[i + 1];
      }
    }
  }

  lemma {:induction false} ShownIsNotSkipped(visits: seq<Visit>, c: Row, limit: nat, r: Row)
    requires IsWalk(Sessions, visits, Some(c), limit) && !Before(Backward, c, r)
    ensures NeverSkipped(visits, r)
  {
    SessionWalkOrdered(visits, Some(c), limit);
    forall i | 0 <= i < |visits| - 1 && visits[i].page != [] ensures !Skips(Last(visits[i].page), r) {
      InAllRows(visits, i, Last(visits[i].page));
      BeforeIsOrder(Backward, c, Last(visits[i].page), r);
    }
  }

  lemma {:induction false} InAllRows(visits: seq<Visit>, i: nat, r: Row)
    requires i < |visits| && r in visits[i].page
    ensures r in AllRows(visits)
    decreases |visits|
  {
    if i > 0 {
      InAllRows(visits[1..], i - 1, r);
    }
  }

  /**
   * When a walk through the session list ends, a row that was there throughout has been shown if and only if
   * no cursor skipped it.
   */
  lemma {:induction false} SessionWalkShows(visits: seq<Visit>, cursor: Option<Row>, limit: nat, r: Row)
    requires IsWalk(Sessions, visits, cursor, limit) && Ended(visits, limit)
    requires forall v :: v in visits ==> r in v.table && r in After(Backward, v.table, cursor)
    ensures r in AllRows(visits) <==> NeverSkipped(visits, r)
    decreases |visits|
  {
    var v := visits[0];
    assert v in visits;
    if |visits| > 1 {
      var c, later := Last(v.page), visits[1..];
      assert c in v.page;
      NeverSkippedTail(visits, r);
      assert forall x :: x in later ==> x in visits;
      if r in v.page {
        NotBeforeLast(v.page, r);
        ShownIsNotSkipped(later, c, limit, r);
      } else if Skips(c, r) {
        CutCursor(v.table, c, r);
        PassedForGood(Sessions, later, c, limit, r);
      } else {
        forall x | x in later ensures r in After(Backward, x.table, Some(c)) {
          CutCursor(x.table, c, r);
        }
        assert Last(later) == Last(visits);
        SessionWalkShows(later, Some(c), limit, r);
      }
    }
  }

  lemma NotBeforeLast(page: seq<Row>, r: Row)
    requires Ordered(Backward, page) && r in page
    ensures !Before(Backward, Last(page), r)
  {
    var i :| 0 <= i < |page| && page[i] == r;
    BeforeIsOrder(Backward, r, Last(page), r);
  }

  // Messages going forward

  /** Whatever comes and goes, a forward walk that ends has shown every row that was there throughout. */
  lemma {:induction false} ForwardWalkIsComplete(visits: seq<Visit>, cursor: Option<Row>, limit: nat, r: Row)
    requires IsWalk(Messages(Forward), visits, cursor, limit) && Ended(visits, limit)
    requires cursor.Some? ==> Before(Forward, cursor.value, r)
    requires forall v :: v in visits ==> r in v.table
    ensures r in AllRows(visits)
    decreases |visits|
  {
    var v := visits[0];
    assert r in v.table;
    if cursor.Some? {
      CutCursor(v.table, cursor.value, r);
    }
    if r !in v.page {
      assert Last(v.page) in v.page;
      assert Last(visits[1..]) == Last(visits);
      ForwardWalkIsComplete(visits[1..], Some(Last(v.page)), limit, r);
    }
  }

  /** No cursor that was followed found an older row to replay. */
  ghost predicate NeverReplayed(visits: seq<Visit>) {
    forall i, r :: 0 <= i < |visits| - 1 && visits[i].page != [] && r in visits[i + 1].table ==>
                     !Replays(Last(visits[i].page), r)
  }

  lemma NeverReplayedTail(visits: seq<Visit>)
    requires |visits| > 1 && visits[0].page != []
    ensures NeverReplayed(visits)
            <==> (forall r :: r in visits[1].table ==> !Replays(Last(visits[0].page), r)) && NeverReplayed(visits[1..])
  {
    var later := visits[1..];
    if NeverReplayed(visits) {
      forall i, r | 0 <= i < |later| - 1 && later[i].page != [] && r in later[i + 1].table
        ensures !Replays(Last(later[i].page), r)
      {
        assert later[i] == visits[i + 1] && later[i + 1] == visits[i + 2];
      }
      forall r | r in visits[1].table ensures !Replays(Last(visits[0].page), r) {
        assert visits[0 + 1] == visits[1];
      }
    }
    if NeverReplayed(later) && forall r :: r in visits[1].table ==> !Replays(Last(visits[0].page), r) {
      forall i, r | 0 <= i < |visits| - 1 && visits[i].page != [] && r in visits[i + 1].table
        ensures !Replays(Last(visits[i].page), r)
      {
        if i > 0 {
          assert visits[i] == later[i - 1] && visits[i + 1] == later[i - 1 + 1];
        }
      }
    }
  }

  /** A forward walk shows rows in order, and so none twice, if and only if no cursor replays an older row. */
  lemma {:induction false} ForwardWalkOrdered(visits: seq<Visit>, limit: nat, cursor: Option<Row>)
    requires IsWalk(Messages(Forward), visits, cursor, limit)
    ensures Ordered(Forward, AllRows(visits)) <==> NeverReplayed(visits)
    ensures visits != [] && AllRows(visits) != [] ==> visits[0].page != [] && AllRows(visits)[0] == visits[0].page[0]
    decreases |visits|
  {
    if |visits| == 1 {
      assert AllRows(visits) == visits[0].page + [] == visits[0].page;
    } else if |visits| > 1 {
      var page, c, later := visits[0].page, Last(visits[0].page), visits[1..];
      ForwardWalkOrdered(later, limit, Some(c));
      NeverReplayedTail(visits);
      OrderedParts(Forward, page, AllRows(later));
      NothingReplayed(later[0], c, limit);
      if later[0].page == [] {
        assert |later| == 1 && AllRows(later) == [];
      } else {
        assert AllRows(later)[0] == later[0].page[0];
      }
    }
  }

  lemma OrderedParts(dir: Direction, a: seq<Row>, b: seq<Row>)
    requires Ordered(dir, a) && a != []
    ensures Ordered(dir, a + b) <==> Ordered(dir, b) && (b == [] || Before(dir, Last(a), b[0]))
  {
    if Ordered(dir, a + b) {
      forall i, j | 0 <= i < j < |b| ensures Before(dir, b[i], b[j]) {
        assert (a + b)[|a| + i] == b[i] && (a + b)[|a| + j] == b[j];
      }
      assert b != [] ==> (a + b)[|a| - 1] == Last(a) && (a + b)[|a|] == b[0];
    }
    if Ordered(dir, b) && b != [] && Before(dir, Last(a), b[0]) {
      forall r | r in b ensures Before(dir, Last(a), r) {
        var i :| 0 <= i < |b| && b[i] == r;
        BeforeIsOrder(dir, Last(a), b[0], r);
      }
      OrderedAppend(dir, a, b);
    }
    assert b == [] ==> a + b == a;
  }

  /** The next page begins after the cursor's row exactly if there is nothing to replay. */
  lemma NothingReplayed(v: Visit, c: Row, limit: nat)
    requires limit > 0 && IsPage(Forward, v.page, After(Forward, v.table, Some(c)), limit)
    ensures v.page == [] || Before(Forward, c, v.page[0]) <==> forall r :: r in v.table ==> !Replays(c, r)
  {
    var rows := After(Forward, v.table, Some(c));
    forall r | r in v.table ensures r in rows <==> Before(Forward, c, r) || Replays(c, r) {
      CutCursor(v.table, c, r);
    }
    if v.page != [] {
      assert v.page[0] in v.page;
      FirstIsLeast(Forward, v.page, rows, limit);
      forall r | r in v.table && Before(Forward, c, v.page[0]) ensures !Replays(c, r) {
        BeforeIsOrder(Forward, c, v.page[0], r);
      }
    }
  }

  /** Every cursor that was followed was made of a row on a whole millisecond. */
  ghost predicate WholeCursors(visits: seq<Visit>) {
    forall i :: 0 <= i < |visits| - 1 && visits[i].page != [] ==> IsWhole(Last(visits[i].page))
  }

  /** On an unchanged table a forward walk shows no row twice if and only if all its cursors are whole. */
  lemma ForwardWalkRepeats(visits: seq<Visit>, table: set<Row>, limit: nat)
    requires IsWalk(Messages(Forward), visits, None, limit) && forall v :: v in visits ==> v.table == table
    ensures NoRepeats(AllRows(visits)) <==> WholeCursors(visits)
  {
    if WholeCursors(visits) {
      forall i, r | 0 <= i < |visits| - 1 && visits[i].page != [] && r in visits[i + 1].table
        ensures !Replays(Last(visits[i].page), r)
      {
        assert IsWhole(Last(visits[i].page));
      }
      ForwardWalkOrdered(visits, limit, None);
      OrderedHasNoRepeats(Forward, AllRows(visits));
    } else {
      var i :| 0 <= i < |visits| - 1 && visits[i].page != [] && !IsWhole(Last(visits[i].page));
      var x := ReplayedRow(visits, table, None, limit, i);
    }
  }

  /** After a cursor that is not whole, the first row of the next page was shown before. */
  lemma {:induction false} ReplayedRow(visits: seq<Visit>, table: set<Row>, cursor: Option<Row>, limit: nat, i: nat)
    returns (x: Row)
    requires IsWalk(Messages(Forward), visits, cursor, limit) && forall v :: v in visits ==> v.table == table
    requires i + 1 < |visits| && visits[i].page != [] && !IsWhole(Last(visits[i].page))
    ensures x in table && x in AllRows(visits)
    ensures NoRepeats(AllRows(visits)) ==> cursor.Some? && !Before(Forward, cursor.value, x)
    decreases |visits|
  {
    var page, c, later := visits[0].page, Last(visits[0].page), visits[1..];
    assert c in page && visits[0] in visits && visits[1] in visits;
    if i == 0 {
      CursorAdmitsItself(table, c);
      NothingReplayed(later[0], c, limit);
      assert Replays(c, c);
      x := later[0].page[0];
      assert x in later[0].page;
    } else {
      x := ReplayedRow(later, table, Some(c), limit, i - 1);
    }
    if NoRepeats(AllRows(visits)) {
      RepeatedParts(page, AllRows(later));
      assert !Before(Forward, c, x) && x !in page;
      assert x !in After(Forward, table, cursor);
      CutCursor(table, cursor.value, x);
    }
  }

  lemma RepeatedParts(a: seq<Row>, b: seq<Row>)
    ensures NoRepeats(a + b) ==> NoRepeats(b) && forall x :: x in a ==> x !in b
  {
    if NoRepeats(a + b) {
      forall i, j | 0 <= i < j < |b| ensures b[i] != b[j] {
        assert (a + b)[|a| + i] == b[i] && (a + b)[|a| + j] == b[j];
      }
      forall i, j | 0 <= i < |a| && 0 <= j < |b| ensures a[i] != b[j] {
        assert (a + b)[i] == a[i] && (a + b)[|a| + j] == b[j];
      }
    }
  }

  // Messages going backward: pages are reversed, and the cursor is taken from the newest row

  /** The rows of a millisecond that a cursor does not keep apart. */
  function OffRows(table: set<Row>, ms: int): set<Row> {
    set r | r in table && r.createdAt / 1000 == ms && !IsWhole(r)
  }

  /** Within a millisecond, a row exactly on it has a smaller id than the rows after it. */
  ghost predicate WholeFirst(table: set<Row>) {
    forall a, b :: a in table && b in table && SameMs(a, b) && IsWhole(a) && !IsWhole(b) ==> a.id < b.id
  }

  function MsRows(table: set<Row>, ms: int): set<Row> {
    set r | r in table && r.createdAt / 1000 == ms
  }

  function NewerMsRows(table: set<Row>, r: Row): set<Row> {
    set x | x in MsRows(table, r.createdAt / 1000) && Before(Backward, x, r)
  }

  /** The newest row of the millisecond of `r` skips `r`. */
  ghost predicate NewestSkips(table: set<Row>, r: Row) {
    exists c :: c in NewerMsRows(table, r) && Skips(c, r)
                && forall x :: x in MsRows(table, r.createdAt / 1000) ==> x == c || Before(Backward, c, x)
  }

  /** The walk has not yet come to the millisecond of `r`. */
  predicate Ahead(cursor: Option<Row>, r: Row) {
    cursor.Some? ==> cursor.value.createdAt / 1000 > r.createdAt / 1000
  }

  /** The newest row still to come is, once it is of the millisecond of `r`, the newest of that millisecond. */
  lemma NewestComesFirst(v: Visit, cursor: Option<Row>, limit: nat, r: Row)
    requires IsPage(Backward, v.page, After(Backward, v.table, cursor), limit) && v.page != []
    requires Ahead(cursor, r) && r in v.table && r !in v.page
    ensures v.page[0] in v.table && Before(Backward, v.page[0], r)
    ensures SameMs(v.page[0], r) ==>
              forall x :: x in MsRows(v.table, r.createdAt / 1000) ==> x == v.page[0] || Before(Backward, v.page[0], x)
  {
    var rows := After(Backward, v.table, cursor);
    assert v.page[0] in v.page;
    assert MsRows(v.table, r.createdAt / 1000) <= rows;
    FirstIsLeast(Backward, v.page, rows, limit);
    assert r in MsRows(v.table, r.createdAt / 1000);
  }

  /** All rows of a page whose first row is of the millisecond of a later row are. */
  lemma PageOfOneMs(v: Visit, cursor: Option<Row>, limit: nat, r: Row)
    requires IsPage(Backward, v.page, After(Backward, v.table, cursor), limit) && v.page != []
    requires r in After(Backward, v.table, cursor) && r !in v.page && SameMs(v.page[0], r)
    ensures |v.page| == limit <= |NewerMsRows(v.table, r)|
  {
    forall p | p in v.page ensures p in NewerMsRows(v.table, r) {
      FirstIsLeast(Backward, v.page, RowSet(v.page), |v.page|);
    }
    PageSize(Backward, v.page, NewerMsRows(v.table, r));
  }

  /**
   * A backward walk that ends has shown every row that was there throughout and had, at each request, less
   * than a page of newer rows in its own millisecond, or was not skipped by the newest of them.
   */
  lemma {:induction false} BackwardWalkShows(visits: seq<Visit>, cursor: Option<Row>, limit: nat, r: Row)
    requires IsWalk(Messages(Backward), visits, cursor, limit) && Ended(visits, limit) && limit > 0
    requires forall v :: v in visits ==>
                           r in v.table && (|NewerMsRows(v.table, r)| < limit || !NewestSkips(v.table, r))
    requires Ahead(cursor, r)
    ensures r in AllRows(visits)
    decreases |visits|
  {
    var v := visits[0];
    assert v in visits;
    assert r in MsRows(v.table, r.createdAt / 1000);
    assert MsRows(v.table, r.createdAt / 1000) <= After(Backward, v.table, cursor);
    if r !in v.page {
      var c, later := v.page[0], visits[1..];
      assert c in v.page;
      NewestComesFirst(v, cursor, limit, r);
      assert Last(later) == Last(visits);
      if !SameMs(c, r) {
        BackwardWalkShows(later, Some(c), limit, r);
      } else {
        PageOfOneMs(v, cursor, limit, r);
        assert Skips(c, r) ==> NewestSkips(v.table, r);
        CutCursor(v.table, c, r);
        AfterItsMs(later, c, limit, r);
      }
    }
  }

  /** A row with a page of them or more, skipped by the newest, at each request is never shown. */
  lemma {:induction false} BackwardWalkHides(visits: seq<Visit>, cursor: Option<Row>, limit: nat, r: Row)
    requires IsWalk(Messages(Backward), visits, cursor, limit) && limit > 0
    requires forall v :: v in visits ==>
                           r in v.table && |NewerMsRows(v.table, r)| >= limit && NewestSkips(v.table, r)
    requires Ahead(cursor, r)
    ensures r !in AllRows(visits)
    decreases |visits|
  {
    if visits != [] {
      var v := visits[0];
      assert v in visits;
      if r in v.page {
        NewerComeFirst(v, cursor, limit, r);
        assert false;
      }
      if |visits| > 1 {
        var c := v.page[0];
        NewestComesFirst(v, cursor, limit, r);
        if SameMs(c, r) {
          TheNewestSkips(v.table, c, r);
          PassedForGood(Messages(Backward), visits[1..], c, limit, r);
        } else {
          BackwardWalkHides(visits[1..], Some(c), limit, r);
        }
      }
    }
  }

  lemma NewerComeFirst(v: Visit, cursor: Option<Row>, limit: nat, r: Row)
    requires IsPage(Backward, v.page, After(Backward, v.table, cursor), limit) && r in v.page && Ahead(cursor, r)
    ensures |NewerMsRows(v.table, r)| < limit
  {
    var newer := NewerMsRows(v.table, r);
    forall x | x in newer ensures x in v.page {
      assert x in After(Backward, v.table, cursor);
      BeforeIsOrder(Backward, r, x, r);
    }
    OrderedHasNoRepeats(Backward, v.page);
    DistinctRows(v.page);
    BeforeIsOrder(Backward, r, r, r);
    FewerRows(newer + {r}, RowSet(v.page));
  }

  lemma TheNewestSkips(table: set<Row>, c: Row, r: Row)
    requires NewestSkips(table, r) && c in table && SameMs(c, r)
    requires forall x :: x in MsRows(table, r.createdAt / 1000) ==> x == c || Before(Backward, c, x)
    ensures Skips(c, r) && !Before(Backward, Sent(c), r)
  {
    if !Skips(c, r) {
      NotTheNewest(table, c, r);
      assert false;
    }
    CutCursor({r}, c, r);
  }

  /**
   * On an unchanged table, an ended backward walk has shown a row if and only if there was less than a page of
   * newer rows in its millisecond, or the newest of them does not skip it.
   */
  lemma BackwardWalkExact(visits: seq<Visit>, table: set<Row>, limit: nat, r: Row)
    requires IsWalk(Messages(Backward), visits, None, limit) && Ended(visits, limit) && limit > 0
    requires r in table && forall v :: v in visits ==> v.table == table
    ensures r in AllRows(visits) <==> |NewerMsRows(table, r)| < limit || !NewestSkips(table, r)
  {
    if |NewerMsRows(table, r)| < limit || !NewestSkips(table, r) {
      BackwardWalkShows(visits, None, limit, r);
    } else {
      BackwardWalkHides(visits, None, limit, r);
    }
  }

  /** Off the whole millisecond a row is skipped by the newest of its millisecond, if that is another. */
  lemma OffRowsAreSkipped(table: set<Row>, r: Row)
    requires r in table && !IsWhole(r) && NewerMsRows(table, r) != {}
    ensures NewestSkips(table, r)
  {
    var newer := NewerMsRows(table, r);
    var x :| x in newer;
    var c := LeastRow(Backward, MsRows(table, r.createdAt / 1000));
    BeforeIsOrder(Backward, c, x, r);
    assert c in newer && Skips(c, r);
  }

  lemma NotTheNewest(table: set<Row>, c: Row, r: Row)
    requires !Skips(c, r) && c in MsRows(table, r.createdAt / 1000)
    requires forall x :: x in MsRows(table, r.createdAt / 1000) ==> x == c || Before(Backward, c, x)
    ensures !NewestSkips(table, r)
  {
    forall d | d in NewerMsRows(table, r) && Skips(d, r)
      ensures exists x :: x in MsRows(table, r.createdAt / 1000) && x != d && !Before(Backward, d, x)
    {
      BeforeIsOrder(Backward, c, d, c);
    }
  }

  /** Once the cursor is in the millisecond of a row and admits it, the row is not skipped any more. */
  lemma {:induction false} AfterItsMs(visits: seq<Visit>, c: Row, limit: nat, r: Row)
    requires IsWalk(Messages(Backward), visits, Some(c), limit) && Ended(visits, limit)
    requires forall v :: v in visits ==> r in v.table
    requires SameMs(c, r) && Before(Backward, Sent(c), r)
    ensures r in AllRows(visits)
    decreases |visits|
  {
    var v := visits[0];
    assert r in v.table;
    if r !in v.page {
      var d := v.page[0];
      assert d in v.page;
      CutCursor(v.table, d, r);
      assert Last(visits[1..]) == Last(visits);
      AfterItsMs(visits[1..], d, limit, r);
    }
  }

  /**
   * On an unchanged table the page after a backward page repeats exactly those of its rows that its cursor,
   * the newest, does not skip; so the two are disjoint if and only if all others share its millisecond and
   * are skipped.
   */
  lemma BackwardPagesOverlap(table: set<Row>, cursor: Option<Row>, first: seq<Row>, second: seq<Row>, limit: nat)
    requires limit > 0
    requires IsPage(Backward, first, After(Backward, table, cursor), limit) && |first| == limit
    requires IsPage(Backward, second, After(Backward, table, Some(first[0])), limit)
    ensures forall r :: r in first ==> (r in second <==> r != first[0] && !Skips(first[0], r))
    ensures (forall r :: r in first ==> r !in second) <==> forall i :: 0 < i < |first| ==> Skips(first[0], first[i])
  {
    var c, rest := first[0], After(Backward, table, Some(first[0]));
    assert c in first;
    forall r | r in first ensures r in second <==> r != c && !Skips(c, r) {
      FirstIsLeast(Backward, first, RowSet(first), |first|);
      CutCursor(table, c, r);
      BeforeIsOrder(Backward, c, c, c);
      if r != c && !Skips(c, r) && r !in second {
        StillThere(table, cursor, first, second, limit, r);
        assert false;
      }
    }
    forall i | 0 <= i < |first| ensures first[i] in first && (i > 0 ==> first[i] != c) {
      OrderedHasNoRepeats(Backward, first);
    }
  }

  lemma StillThere(table: set<Row>, cursor: Option<Row>, first: seq<Row>, second: seq<Row>, limit: nat, r: Row)
    requires limit > 0
    requires IsPage(Backward, first, After(Backward, table, cursor), limit) && |first| == limit
    requires IsPage(Backward, second, After(Backward, table, Some(first[0])), limit)
    requires r in first && r in After(Backward, table, Some(first[0]))
    ensures r in second
  {
    if r !in second {
      assert first[0] in first;
      forall x | x in second ensures x in RowSet(first) - {first[0], r} {
        if cursor.Some? {
          SentAdvances(cursor.value, first[0]);
          BeforeIsOrder(Backward, Sent(cursor.value), Sent(first[0]), x);
        }
        BeforeIsOrder(Backward, x, r, x);
        CursorAdmitsItself(table, first[0]);
      }
      OrderedHasNoRepeats(Backward, first);
      DistinctRows(first);
      PageSize(Backward, second, RowSet(first) - {first[0], r});
      assert false;
    }
  }

  // Walks come to an end

  /** Going backward, each cursor leaves fewer rows than the one before. */
  lemma AfterShrinks(table: set<Row>, cursor: Option<Row>, r: Row)
    requires r in After(Backward, table, cursor)
    ensures |After(Backward, table, Some(r))| < |After(Backward, table, cursor)|
  {
    var before, after := After(Backward, table, cursor), After(Backward, table, Some(r));
    forall x | x in after ensures x in before - {r} {
      CursorAdmitsItself(table, r);
      if cursor.Some? {
        SentAdvances(cursor.value, r);
        BeforeIsOrder(Backward, Sent(cursor.value), Sent(r), x);
      }
    }
    FewerRows(after, before - {r});
  }

  /** On an unchanged table a backward walk ends, after at most one page more than there are rows. */
  lemma {:induction false} BackwardWalksEnd(l: Listing, visits: seq<Visit>, table: set<Row>, cursor: Option<Row>,
                                            limit: nat)
    requires QueryDirection(l) == Backward && forall v :: v in visits ==> v.table == table
    requires IsWalk(l, visits, cursor, limit)
    ensures |visits| <= |After(Backward, table, cursor)| + 1
    decreases |visits|
  {
    if |visits| > 1 {
      var v := visits[0];
      assert v in visits;
      var next := CursorOf(l, v.page);
      assert next in v.page;
      AfterShrinks(table, cursor, next);
      BackwardWalksEnd(l, visits[1..], table, Some(next), limit);
    }
  }

  /** A forward walk never ends on a table with a page or more of such rows in one millisecond not yet passed. */
  lemma {:induction false} ForwardWalkIsStuck(visits: seq<Visit>, table: set<Row>, cursor: Option<Row>, limit: nat,
                                              ms: int)
    requires IsWalk(Messages(Forward), visits, cursor, limit) && forall v :: v in visits ==> v.table == table
    requires |OffRows(table, ms)| >= limit && (cursor.Some? ==> cursor.value.createdAt / 1000 <= ms)
    ensures !Ended(visits, limit)
    decreases |visits|
  {
    if visits != [] {
      var v, off := visits[0], OffRows(table, ms);
      assert v in visits;
      assert off <= After(Forward, table, cursor);
      OrderedHasNoRepeats(Forward, v.page);
      DistinctRows(v.page);
      if |v.page| < limit {
        FewerRows(off, RowSet(v.page));
        assert false;
      }
      if |visits| > 1 {
        var c := Last(v.page);
        assert c in v.page;
        if c.createdAt / 1000 > ms {
          forall r | r in off ensures r in v.page {
            BeforeIsOrder(Forward, r, c, r);
          }
          FewerRows(off + {c}, RowSet(v.page));
          assert false;
        }
        ForwardWalkIsStuck(visits[1..], table, Some(c), limit, ms);
        assert Last(visits) == Last(visits[1..]);
      }
    }
  }

  /** The rows whose cursors lie beyond the one made of `cursor`. */
  function Beyond(table: set<Row>, cursor: Option<Row>): set<Row> {
    if cursor.Some? then set r | r in table && Before(Forward, Sent(cursor.value), Sent(r)) else table
  }

  /** Every millisecond has less than a page of rows that cursors do not keep apart, or of rows at all. */
  ghost predicate IsSparse(table: set<Row>, limit: nat) {
    || (WholeFirst(table) && forall ms :: |OffRows(table, ms)| < limit)
    || forall ms :: |MsRows(table, ms)| < limit
  }

  /** Then a full page moves the cursor on. */
  lemma ForwardCursorAdvances(table: set<Row>, page: seq<Row>, cursor: Row, limit: nat)
    requires limit > 0 && |page| == limit && IsPage(Forward, page, After(Forward, table, Some(cursor)), limit)
    requires IsSparse(table, limit) && cursor in table
    ensures Before(Forward, Sent(cursor), Sent(Last(page)))
  {
    var c := Last(page);
    assert c in page;
    if !Before(Forward, Sent(cursor), Sent(c)) {
      forall p | p in page
        ensures p in MsRows(table, cursor.createdAt / 1000)
        ensures WholeFirst(table) ==> p in OffRows(table, cursor.createdAt / 1000)
      {
        var i :| 0 <= i < |page| && page[i] == p;
        assert i < |page| - 1 ==> Before(Forward, p, c);
        assert SameMs(p, cursor);
      }
      PageSize(Forward, page, MsRows(table, cursor.createdAt / 1000));
      if WholeFirst(table) {
        PageSize(Forward, page, OffRows(table, cursor.createdAt / 1000));
      }
      assert false;
    }
  }

  /** And the walk ends, after at most one page more than there are rows. */
  lemma {:induction false} ForwardWalksEnd(visits: seq<Visit>, table: set<Row>, cursor: Option<Row>, limit: nat)
    requires IsWalk(Messages(Forward), visits, cursor, limit) && forall v :: v in visits ==> v.table == table
    requires IsSparse(table, limit) && (cursor.Some? ==> cursor.value in table)
    ensures |visits| <= |Beyond(table, cursor)| + 1
    decreases |visits|
  {
    if |visits| > 1 {
      var v := visits[0];
      assert v in visits;
      var next := Last(v.page);
      assert next in v.page;
      if cursor.Some? {
        ForwardCursorAdvances(table, v.page, cursor.value, limit);
        forall r | r in Beyond(table, Some(next)) ensures r in Beyond(table, cursor) {
          BeforeIsOrder(Forward, Sent(cursor.value), Sent(next), Sent(r));
        }
      }
      FewerRows(Beyond(table, Some(next)), Beyond(table, cursor) - {next});
      ForwardWalksEnd(visits[1..], table, Some(next), limit);
    }
  }
}
