/** Pages of the evaluation history: the query, the page the service makes of its rows, and walks over pages while the
    table changes. */
module HistoryPaging {
  import opened Wrappers
  import opened HistoryRow
  import HistoryFilter
  import opened Cursor

  // ---------------------------------------------------------------------------------------------------------------
  // The query

  /** The parameters that come from the cursor, and the limit. */
  datatype Bounds = Bounds(next: Option<Time>, prev: Option<Time>, size: nat)

  function ToSQLCursor(cursor: Option<ListEvaluationCursor>, size: nat): Bounds {
    match cursor
    case None => Bounds(None, None, size)
    case Some(c) =>
      match c.direction
      case Next => Bounds(Some(c.time), None, size)
      case Prev => Bounds(None, Some(c.time), size)
  }

  predicate WithinBounds(b: Bounds, row: Row) {
    && (b.next.None? || b.next.value > row.evaluatedAt)
    && (b.prev.None? || b.prev.value < row.evaluatedAt)
  }

  /** `row` may stand before `later`: ordered by the time ascending unless `next` is set, then by the time descending
      unless `prev` is set. */
  predicate MayPrecede(b: Bounds, row: Row, later: Row) {
    if b.next.None? && row.evaluatedAt != later.evaluatedAt then row.evaluatedAt < later.evaluatedAt
    else b.prev.None? ==> row.evaluatedAt >= later.evaluatedAt
  }

  /** The rows of the history that the filter keeps. */
  function Kept(table: set<Row>, filter: HistoryFilter.SqlParams): set<Row> {
    set row | row in table && HistoryFilter.Selects(filter, row)
  }

  predicate Distinct(rows: seq<Row>) {
    forall i, j :: 0 <= i < j < |rows| ==> rows[i] != rows[j]
  }

  /** `rows` is a possible answer of the database: rows with equal times can come in any order, and any of them can
      fall behind the limit. */
  ghost predicate IsQueryResult(kept: set<Row>, b: Bounds, rows: seq<Row>) {
    && Distinct(rows)
    && (forall row :: row in rows ==> row in kept && WithinBounds(b, row))
    && (forall i, j :: 0 <= i < j < |rows| ==> MayPrecede(b, rows[i], rows[j]))
    && |rows| <= b.size
    && (forall row :: row in kept && WithinBounds(b, row) && row !in rows ==>
          |rows| == b.size && forall listed :: listed in rows ==> MayPrecede(b, listed, row))
  }

  // ---------------------------------------------------------------------------------------------------------------
  // The page

  datatype Page = Page(data: seq<Row>, next: Option<ListEvaluationCursor>, prev: Option<ListEvaluationCursor>)

  function Newest(page: Page): Row
    requires page.data != []
  {
    page.data[0]
  }

  function Oldest(page: Page): Row
    requires page.data != []
  {
    page.data[|page.data| - 1]
  }

  /** The rows on the cursor's side of its time, the time itself excluded. */
  predicate Beyond(c: ListEvaluationCursor, row: Row) {
    if c.direction.Next? then row.evaluatedAt < c.time else row.evaluatedAt > c.time
  }

  predicate AtLeastAsNear(c: ListEvaluationCursor, row: Row, other: Row) {
    if c.direction.Next? then row.evaluatedAt >= other.evaluatedAt else row.evaluatedAt <= other.evaluatedAt
  }

  /** What a page promises: newest first, the `size` rows next to the cursor on its side or all of them if there are
      fewer, and cursors for what lies on either end. */
  ghost predicate IsPage(kept: set<Row>, c: ListEvaluationCursor, size: nat, page: Page) {
    && Distinct(page.data)
    && (forall i, j :: 0 <= i < j < |page.data| ==> page.data[i].evaluatedAt >= page.data[j].evaluatedAt)
    && (forall row :: row in page.data ==> row in kept && Beyond(c, row))
    && |page.data| <= size
    && (forall row :: row in kept && Beyond(c, row) && row !in page.data ==>
          |page.data| == size && forall listed :: listed in page.data ==> AtLeastAsNear(c, listed, row))
    && page.next == (if page.data == [] then None
                     else Some(ListEvaluationCursor(Oldest(page).evaluatedAt, Next)))
    && page.prev == (if page.data == [] then None
                     else Some(ListEvaluationCursor(Newest(page).evaluatedAt, Prev)))
  }

  lemma InReverse(rows: seq<Row>)
    ensures forall row :: row in Reverse(rows) <==> row in rows
  {
    var r := Reverse(rows);
    forall row ensures row in r <==> row in rows {
      if i :| 0 <= i < |r| && r[i] == row {
        assert rows[|rows| - 1 - i] == row;
      }
      if i :| 0 <= i < |rows| && rows[i] == row {
        assert r[|rows| - 1 - i] == row;
      }
    }
  }

  /** The page without any cursor: the `size` oldest rows, or all of them, oldest first. Its cursors are its ends all
      the same, so that the cursor for the next page lies at its newest row. */
  ghost predicate IsFirstPage(kept: set<Row>, size: nat, page: Page) {
    && Distinct(page.data)
    && (forall i, j :: 0 <= i < j < |page.data| ==> page.data[i].evaluatedAt <= page.data[j].evaluatedAt)
    && (forall row :: row in page.data ==> row in kept)
    && |page.data| <= size
    && (forall row :: row in kept && row !in page.data ==>
          |page.data| == size && forall listed :: listed in page.data ==> listed.evaluatedAt <= row.evaluatedAt)
    && page.next == (if page.data == [] then None
                     else Some(ListEvaluationCursor(page.data[|page.data| - 1].evaluatedAt, Next)))
    && page.prev == (if page.data == [] then None else Some(ListEvaluationCursor(page.data[0].evaluatedAt, Prev)))
  }

  predicate HasEndCursors(page: Page) {
    && page.next == (if page.data == [] then None
                     else Some(ListEvaluationCursor(page.data[|page.data| - 1].evaluatedAt, Next)))
    && page.prev == (if page.data == [] then None else Some(ListEvaluationCursor(page.data[0].evaluatedAt, Prev)))
  }

  lemma AnswerForNext(kept: set<Row>, time: Time, size: nat, page: Page)
    requires IsQueryResult(kept, Bounds(Some(time), None, size), page.data) && HasEndCursors(page)
    ensures IsPage(kept, ListEvaluationCursor(time, Next), size, page)
  {
  }

  lemma AnswerForPrev(kept: set<Row>, time: Time, size: nat, rows: seq<Row>, page: Page)
    requires IsQueryResult(kept, Bounds(None, Some(time), size), rows) && HasEndCursors(page)
    requires page.data == Reverse(rows)
    ensures IsPage(kept, ListEvaluationCursor(time, Prev), size, page)
  {
    InReverse(rows);
  }

  lemma AnswerWithoutCursor(kept: set<Row>, size: nat, page: Page)
    requires IsQueryResult(kept, Bounds(None, None, size), page.data) && HasEndCursors(page)
    ensures IsFirstPage(kept, size, page)
  {
  }

  /** The database's answer, reversed for the page before, with its ends as cursors. */
  lemma AnswerIsPage(
    kept: set<Row>, cursor: Option<ListEvaluationCursor>, size: nat, rows: seq<Row>, page: Page)
    requires IsQueryResult(kept, ToSQLCursor(cursor, size), rows) && HasEndCursors(page)
    requires page.data == if cursor.Some? && cursor.value.direction.Prev? then Reverse(rows) else rows
    ensures cursor.Some? ==> IsPage(kept, cursor.value, size, page)
    ensures cursor.None? ==> IsFirstPage(kept, size, page)
  {
    hide IsQueryResult, HasEndCursors, IsPage, IsFirstPage;
    match cursor
    case None => AnswerWithoutCursor(kept, size, page);
    case Some(ListEvaluationCursor(time, Next)) => AnswerForNext(kept, time, size, page);
    case Some(ListEvaluationCursor(time, Prev)) => AnswerForPrev(kept, time, size, rows, page);
  }

  /** Makes a page of the database's answer `rows`: reverses it when the page before is asked for, and derives both
      cursors from its ends. Without any cursor the rows come oldest first. */
  method ListEvaluationHistory(
    ghost kept: set<Row>, cursor: Option<ListEvaluationCursor>, size: nat, rows: seq<Row>) returns (page: Page)
    requires IsQueryResult(kept, ToSQLCursor(cursor, size), rows)
    ensures cursor.Some? ==> IsPage(kept, cursor.value, size, page)
    ensures cursor.None? ==> IsFirstPage(kept, size, page)
  {
    var data := rows;
    if cursor.Some? && cursor.value.direction == Prev {
      data := Reverse(rows);
    }
    page := Page(data, None, None);
    if |data| > 0 {
      var newest := data[0];
      var oldest := data[|data| - 1];
      page := Page(data, Some(ListEvaluationCursor(oldest.evaluatedAt, Next)),
                   Some(ListEvaluationCursor(newest.evaluatedAt, Prev)));
    }
    AnswerIsPage(kept, cursor, size, rows, page);
  }

  lemma Smaller<T>(a: set<T>, b: set<T>)
    requires a <= b
    ensures |a| <= |b|
  {
    assert |b| == |a| + |b - a| by {
      assert b == a + (b - a);
    }
  }

  function RowsOf(rows: seq<Row>): set<Row> {
    set row | row in rows
  }

  lemma {:induction false} RowCount(rows: seq<Row>)
    requires Distinct(rows)
    ensures |RowsOf(rows)| == |rows|
  {
    if rows == [] {
    } else {
      var n := |rows| - 1;
      RowCount(rows[..n]);
      assert RowsOf(rows) == RowsOf(rows[..n]) + {rows[n]};
    }
  }

  /** The first request, which has no payload, gets the newest rows: `size` of them, or all if there are fewer. */
  lemma FirstPageHoldsTheNewest(kept: set<Row>, size: nat, page: Page)
    requires forall row :: row in kept ==> row.evaluatedAt < 999_999_999_999_999_999
    requires ParseListEvaluationCursor("").Ok? && IsPage(kept, ParseListEvaluationCursor("").value, size, page)
    ensures forall row :: row in page.data ==> row in kept
    ensures forall i, j :: 0 <= i < j < |page.data| ==> page.data[i].evaluatedAt >= page.data[j].evaluatedAt
    ensures |page.data| == if |kept| < size then |kept| else size
    ensures forall row, listed :: row in kept && row !in page.data && listed in page.data ==>
              listed.evaluatedAt >= row.evaluatedAt
  {
    EmptyPayloadAsksForTheNewest();
    var c := ParseListEvaluationCursor("").value;
    RowCount(page.data);
    Smaller(RowsOf(page.data), kept);
    forall row | row in kept && row !in page.data
      ensures |page.data| == size && forall listed :: listed in page.data ==> listed.evaluatedAt >= row.evaluatedAt
    {
      assert Beyond(c, row);
      assert forall listed :: listed in page.data ==> AtLeastAsNear(c, listed, row);
    }
    if |page.data| < size {
      assert RowsOf(page.data) == kept;
    }
  }

  // ---------------------------------------------------------------------------------------------------------------
  // Walking forward while the table changes

  /** The cursor with which page `k` of a walk is fetched. */
  ghost function CursorAt(pages: seq<Page>, k: nat): ListEvaluationCursor
    requires k <= |pages|
  {
    if k == 0 || pages[k - 1].next.None? then DEFAULT else pages[k - 1].next.value
  }

  ghost predicate FetchedAt(kept: seq<set<Row>>, size: nat, pages: seq<Page>, k: nat)
    requires k < |pages| == |kept|
  {
    IsPage(kept[k], CursorAt(pages, k), size, pages[k])
  }

  /** Page `k` is fetched from what the filter keeps of the table at that moment, `kept[k]`. No page is empty, except
      possibly the last, where the walk ends. */
  ghost predicate IsWalk(kept: seq<set<Row>>, size: nat, pages: seq<Page>) {
    && |kept| == |pages|
    && (forall k :: 0 <= k < |pages| - 1 ==> pages[k].data != [])
    && (forall k :: 0 <= k < |pages| ==> FetchedAt(kept, size, pages, k))
  }

  /** The walk has reached its end: an empty page. */
  ghost predicate IsCompleteWalk(kept: seq<set<Row>>, size: nat, pages: seq<Page>) {
    IsWalk(kept, size, pages) && pages != [] && pages[|pages| - 1].data == []
  }

  ghost predicate ReturnedAt(pages: seq<Page>, row: Row, k: int, i: int) {
    0 <= k < |pages| && 0 <= i < |pages[k].data| && pages[k].data[i] == row
  }

  /** The row falls behind page `k` although it has the time of the page's last row. */
  ghost predicate CutOffAt(pages: seq<Page>, row: Row, k: int) {
    && 0 <= k < |pages| && pages[k].data != [] && row !in pages[k].data
    && row.evaluatedAt == Oldest(pages[k]).evaluatedAt
  }

  /** Every row of a page is older than all rows of earlier pages. */
  lemma {:induction false} PagesDescend(kept: seq<set<Row>>, size: nat, pages: seq<Page>, k: nat, m: nat, row: Row)
    requires IsWalk(kept, size, pages) && k < m < |pages| && row in pages[m].data
    ensures row.evaluatedAt < Oldest(pages[k]).evaluatedAt
  {
    assert FetchedAt(kept, size, pages, m);
    assert Beyond(CursorAt(pages, m), row);
    assert FetchedAt(kept, size, pages, m - 1);
    if k < m - 1 {
      PagesDescend(kept, size, pages, k, m - 1, Oldest(pages[m - 1]));
    }
  }

  /** However the table changes, a walk returns no row twice, and its rows come newest first. */
  lemma WalkIsSortedWithoutDuplicates(
    kept: seq<set<Row>>, size: nat, pages: seq<Page>, k: nat, i: nat, m: nat, j: nat)
    requires IsWalk(kept, size, pages)
    requires k < |pages| && i < |pages[k].data| && m < |pages| && j < |pages[m].data|
    requires k < m || (k == m && i < j)
    ensures pages[k].data[i] != pages[m].data[j]
    ensures pages[k].data[i].evaluatedAt >= pages[m].data[j].evaluatedAt
    ensures k < m ==> pages[k].data[i].evaluatedAt > pages[m].data[j].evaluatedAt
  {
    assert FetchedAt(kept, size, pages, k);
    if k < m {
      PagesDescend(kept, size, pages, k, m, pages[m].data[j]);
      assert pages[k].data[i].evaluatedAt >= Oldest(pages[k]).evaluatedAt;
    }
  }

  lemma CursorsPointToNext(kept: seq<set<Row>>, size: nat, pages: seq<Page>, k: nat)
    requires IsWalk(kept, size, pages) && k < |pages|
    ensures CursorAt(pages, k).direction == Next
    ensures k > 0 ==> CursorAt(pages, k).time == Oldest(pages[k - 1]).evaluatedAt
  {
    if k > 0 {
      assert FetchedAt(kept, size, pages, k - 1);
    }
  }

  /** A row that is there all the time and is neither returned nor cut off stays ahead of the walk. */
  lemma {:induction false} StaysAhead(kept: seq<set<Row>>, size: nat, pages: seq<Page>, row: Row, k: nat)
    requires IsWalk(kept, size, pages) && k < |pages|
    requires forall m :: 0 <= m < |pages| ==> row in kept[m]
    requires row.evaluatedAt < 999_999_999_999_999_999
    requires forall m :: 0 <= m < k ==> row !in pages[m].data && !CutOffAt(pages, row, m)
    ensures Beyond(CursorAt(pages, k), row)
  {
    if k > 0 {
      StaysAhead(kept, size, pages, row, k - 1);
      CursorsPointToNext(kept, size, pages, k - 1);
      CursorsPointToNext(kept, size, pages, k);
      assert FetchedAt(kept, size, pages, k - 1);
      var o := Oldest(pages[k - 1]);
      assert o in pages[k - 1].data && AtLeastAsNear(CursorAt(pages, k - 1), o, row);
      assert !CutOffAt(pages, row, k - 1);
    }
  }

  lemma CutOffIsLost(kept: seq<set<Row>>, size: nat, pages: seq<Page>, row: Row, k: nat, m: nat)
    requires IsWalk(kept, size, pages) && CutOffAt(pages, row, k) && m < |pages|
    ensures row !in pages[m].data
  {
    if row in pages[m].data {
      assert FetchedAt(kept, size, pages, m);
      if m < k {
        PagesDescend(kept, size, pages, m, k, Oldest(pages[k]));
      } else {
        PagesDescend(kept, size, pages, k, m, row);
      }
    }
  }

  /** A row that is in the table during the whole walk is returned exactly when no page ends at its time without it;
      and then exactly once, by `WalkIsSortedWithoutDuplicates`. Whatever else is stored or purged between the pages
      does not matter. */
  lemma LastingRowsAreReturned(kept: seq<set<Row>>, size: nat, pages: seq<Page>, row: Row)
    requires IsCompleteWalk(kept, size, pages) && size >= 1
    requires forall k :: 0 <= k < |pages| ==> row in kept[k]
    requires row.evaluatedAt < 999_999_999_999_999_999
    ensures (exists k, i :: ReturnedAt(pages, row, k, i)) <==> !exists k :: CutOffAt(pages, row, k)
  {
    if k :| CutOffAt(pages, row, k) {
      forall m, i | ReturnedAt(pages, row, m, i) ensures false {
        CutOffIsLost(kept, size, pages, row, k, m);
      }
    } else {
      var last := |pages| - 1;
      if forall m :: 0 <= m < last ==> row !in pages[m].data {
        assert FetchedAt(kept, size, pages, last);
        StaysAhead(kept, size, pages, row, last);
        assert false;
      } else {
        var m :| 0 <= m < last && row in pages[m].data;
        var i :| 0 <= i < |pages[m].data| && pages[m].data[i] == row;
        assert ReturnedAt(pages, row, m, i);
      }
    }
  }

  ghost predicate DistinctTimes(kept: set<Row>) {
    forall a, b :: a in kept && b in kept && a.evaluatedAt == b.evaluatedAt ==> a == b
  }

  /** No other of the kept rows has the time of this one. */
  ghost predicate HasOwnTime(kept: set<Row>, row: Row) {
    forall other :: other in kept && other.evaluatedAt == row.evaluatedAt ==> other == row
  }

  /** A row that lasts through the walk, and shares its time with no other, is returned exactly once. */
  lemma OwnTimeLosesNothing(kept: seq<set<Row>>, size: nat, pages: seq<Page>, row: Row)
    requires IsCompleteWalk(kept, size, pages) && size >= 1
    requires forall k :: 0 <= k < |pages| ==> row in kept[k] && HasOwnTime(kept[k], row)
    requires row.evaluatedAt < 999_999_999_999_999_999
    ensures exists k, i :: ReturnedAt(pages, row, k, i)
                           && forall m, j :: ReturnedAt(pages, row, m, j) ==> m == k && j == i
  {
    forall k | 0 <= k < |pages| ensures !CutOffAt(pages, row, k) {
      assert FetchedAt(kept, size, pages, k);
    }
    LastingRowsAreReturned(kept, size, pages, row);
    var k, i :| ReturnedAt(pages, row, k, i);
    forall m, j | ReturnedAt(pages, row, m, j) ensures m == k && j == i {
      if k < m || (k == m && i < j) {
        WalkIsSortedWithoutDuplicates(kept, size, pages, k, i, m, j);
      } else if m < k || (m == k && j < i) {
        WalkIsSortedWithoutDuplicates(kept, size, pages, m, j, k, i);
      }
    }
  }

  /** Two rows of the same time and pages of one row: the walk over this table ends without the second row. */
  lemma TiesAreLost(a: Row, b: Row) returns (pages: seq<Page>)
    requires a != b && a.evaluatedAt == b.evaluatedAt < 999_999_999_999_999_999
    ensures IsCompleteWalk([{a, b}, {a, b}], 1, pages)
    ensures forall k, i :: !ReturnedAt(pages, b, k, i)
  {
    var first := Page([a], Some(ListEvaluationCursor(a.evaluatedAt, Next)),
                      Some(ListEvaluationCursor(a.evaluatedAt, Prev)));
    pages := [first, Page([], None, None)];
    assert CursorAt(pages, 1) == ListEvaluationCursor(a.evaluatedAt, Next);
  }

  // ---------------------------------------------------------------------------------------------------------------
  // The walk over a fixed table

  function Concat(pages: seq<Page>): seq<Row> {
    if pages == [] then [] else Concat(pages[..|pages| - 1]) + pages[|pages| - 1].data
  }

  ghost predicate NewestFirst(kept: set<Row>, rows: seq<Row>) {
    && (forall row :: row in rows <==> row in kept)
    && (forall i, j :: 0 <= i < j < |rows| ==> rows[i].evaluatedAt > rows[j].evaluatedAt)
  }

  /** There is only one way to list rows newest first. */
  lemma {:induction false} OneListing(kept: set<Row>, p: seq<Row>, q: seq<Row>)
    requires NewestFirst(kept, p) && NewestFirst(kept, q)
    ensures p == q
    decreases |p|
  {
    if q != [] {
      assert q[0] in q && q[0] in p;
    }
    if p == [] {
    } else {
      assert p[0] in p && p[0] in q;
      assert p[0] == q[0];
      var rest := kept - {p[0]};
      assert p == [p[0]] + p[1..] && q == [q[0]] + q[1..];
      assert forall row :: row in p[1..] <==> row in rest;
      assert forall row :: row in q[1..] <==> row in rest;
      OneListing(rest, p[1..], q[1..]);
    }
  }

  lemma {:induction false} ConcatMembers(pages: seq<Page>, row: Row)
    ensures row in Concat(pages) <==> exists k, i :: ReturnedAt(pages, row, k, i)
  {
    if pages == [] {
    } else {
      var n := |pages| - 1;
      ConcatMembers(pages[..n], row);
      if k, i :| ReturnedAt(pages[..n], row, k, i) {
        assert ReturnedAt(pages, row, k, i);
      }
      if i :| 0 <= i < |pages[n].data| && pages[n].data[i] == row {
        assert ReturnedAt(pages, row, n, i);
      }
      if k, i :| ReturnedAt(pages, row, k, i) {
        assert k < n ==> ReturnedAt(pages[..n], row, k, i);
        assert k == n ==> row in pages[n].data;
      }
    }
  }

  lemma {:induction false} WalkPrefix(kept: seq<set<Row>>, size: nat, pages: seq<Page>)
    requires IsWalk(kept, size, pages) && pages != []
    ensures IsWalk(kept[..|pages| - 1], size, pages[..|pages| - 1])
  {
    var n := |pages| - 1;
    forall k | 0 <= k < n ensures FetchedAt(kept[..n], size, pages[..n], k) {
      assert FetchedAt(kept, size, pages, k);
      assert CursorAt(pages[..n], k) == CursorAt(pages, k);
    }
  }

  /** Sorted, and free of repetitions. */
  ghost predicate Descends(rows: seq<Row>) {
    Distinct(rows) && forall i, j :: 0 <= i < j < |rows| ==> rows[i].evaluatedAt >= rows[j].evaluatedAt
  }

  lemma DescendsTogether(p: seq<Row>, q: seq<Row>)
    requires Descends(p) && Descends(q)
    requires forall a, b :: a in p && b in q ==> a.evaluatedAt > b.evaluatedAt
    ensures Descends(p + q)
  {
    forall i, j | 0 <= i < j < |p + q|
      ensures (p + q)[i] != (p + q)[j] && (p + q)[i].evaluatedAt >= (p + q)[j].evaluatedAt
    {
      if i < |p| <= j {
        assert p[i] in p && q[j - |p|] in q;
      }
    }
  }

  lemma EarlierIsNewer(kept: seq<set<Row>>, size: nat, pages: seq<Page>, a: Row, b: Row)
    requires IsWalk(kept, size, pages) && pages != []
    requires a in Concat(pages[..|pages| - 1]) && b in pages[|pages| - 1].data
    ensures a.evaluatedAt > b.evaluatedAt
  {
    var n := |pages| - 1;
    ConcatMembers(pages[..n], a);
    var k, i :| ReturnedAt(pages[..n], a, k, i);
    var j :| 0 <= j < |pages[n].data| && pages[n].data[j] == b;
    WalkIsSortedWithoutDuplicates(kept, size, pages, k, i, n, j);
  }

  /** Also with equal times, and with a table that changes between the pages, the pages one after the other are sorted
      and free of repetitions. */
  lemma {:induction false} ConcatDescends(kept: seq<set<Row>>, size: nat, pages: seq<Page>)
    requires IsWalk(kept, size, pages)
    ensures Descends(Concat(pages))
  {
    if pages == [] {
    } else {
      var n := |pages| - 1;
      assert FetchedAt(kept, size, pages, n);
      WalkPrefix(kept, size, pages);
      ConcatDescends(kept[..n], size, pages[..n]);
      forall a, b | a in Concat(pages[..n]) && b in pages[n].data ensures a.evaluatedAt > b.evaluatedAt {
        EarlierIsNewer(kept, size, pages, a, b);
      }
      DescendsTogether(Concat(pages[..n]), pages[n].data);
    }
  }

  /** On a fixed table with distinct times the pages, one after the other, are the kept rows newest first. */
  lemma PagesAreTheSortedTable(kept: set<Row>, size: nat, pages: seq<Page>)
    requires size >= 1 && DistinctTimes(kept) && forall row :: row in kept ==> row.evaluatedAt < 999_999_999_999_999_999
    requires IsCompleteWalk(seq(|pages|, _ => kept), size, pages)
    ensures NewestFirst(kept, Concat(pages))
    ensures forall rows :: NewestFirst(kept, rows) ==> Concat(pages) == rows
  {
    var tables := seq(|pages|, _ => kept);
    ConcatDescends(tables, size, pages);
    forall row ensures row in Concat(pages) <==> row in kept {
      ConcatMembers(pages, row);
      if row in kept {
        assert HasOwnTime(kept, row);
        OwnTimeLosesNothing(tables, size, pages, row);
      }
      if k, i :| ReturnedAt(pages, row, k, i) {
        assert FetchedAt(tables, size, pages, k);
        assert row in pages[k].data;
      }
    }
    StrictlyDescending(kept, Concat(pages));
    assert RowsOf(Concat(pages)) == kept;
    forall rows | NewestFirst(kept, rows) ensures Concat(pages) == rows {
      OneListing(kept, Concat(pages), rows);
    }
  }

  // ---------------------------------------------------------------------------------------------------------------
  // Which tables a walk returns as a whole

  function Newer(kept: set<Row>, t: Time): set<Row> {
    set row | row in kept && row.evaluatedAt > t
  }

  function NotOlder(kept: set<Row>, t: Time): set<Row> {
    set row | row in kept && row.evaluatedAt >= t
  }

  /** In the order of the listing, the rows with time `t` lie on both sides of the end of page `m`. */
  predicate Straddles(kept: set<Row>, size: nat, t: Time, m: nat) {
    |Newer(kept, t)| < m * size < |NotOlder(kept, t)|
  }

  ghost predicate ReturnsAll(kept: set<Row>, pages: seq<Page>) {
    forall row :: row in kept ==> exists k, i :: ReturnedAt(pages, row, k, i)
  }

  ghost predicate IsFixedWalk(kept: set<Row>, size: nat, pages: seq<Page>) {
    && size >= 1 && (forall row :: row in kept ==> row.evaluatedAt < 999_999_999_999_999_999)
    && IsCompleteWalk(seq(|pages|, _ => kept), size, pages)
  }

  lemma NoneCutOff(kept: set<Row>, size: nat, pages: seq<Page>)
    requires IsFixedWalk(kept, size, pages)
    ensures ReturnsAll(kept, pages) <==>
            forall k: nat, row: Row :: k < |pages| && row in kept ==> !CutOffAt(pages, row, k)
  {
    forall row | row in kept
      ensures (exists k, i :: ReturnedAt(pages, row, k, i)) <==> !exists k :: CutOffAt(pages, row, k)
    {
      LastingRowsAreReturned(seq(|pages|, _ => kept), size, pages, row);
    }
  }

  /** The rows on this side of the cursor of page `k`. */
  ghost function Behind(kept: set<Row>, pages: seq<Page>, k: nat): set<Row>
    requires k <= |pages|
  {
    NotOlder(kept, CursorAt(pages, k).time)
  }

  lemma FixedPage(kept: set<Row>, size: nat, pages: seq<Page>, k: nat)
    requires IsFixedWalk(kept, size, pages) && k < |pages|
    ensures IsPage(kept, CursorAt(pages, k), size, pages[k]) && CursorAt(pages, k).direction == Next
    ensures k == 0 ==> Behind(kept, pages, k) == {}
    ensures k + 1 < |pages| ==> pages[k].data != [] && CursorAt(pages, k + 1).time == Oldest(pages[k]).evaluatedAt
    ensures k + 1 == |pages| ==> pages[k].data == []
  {
    var tables := seq(|pages|, _ => kept);
    assert FetchedAt(tables, size, pages, k);
    CursorsPointToNext(tables, size, pages, k);
    if k + 1 < |pages| {
      CursorsPointToNext(tables, size, pages, k + 1);
    }
  }

  /** Without a cut, a page moves its rows, and no others, behind the cursor. */
  lemma PageMovesBehind(kept: set<Row>, size: nat, pages: seq<Page>, k: nat)
    requires IsFixedWalk(kept, size, pages) && k + 1 < |pages|
    requires forall row :: row in kept ==> !CutOffAt(pages, row, k)
    ensures |Behind(kept, pages, k + 1)| == |Behind(kept, pages, k)| + |pages[k].data|
  {
    FixedPage(kept, size, pages, k);
    var page, behind := pages[k], Behind(kept, pages, k);
    assert Oldest(page) in page.data;
    forall row | row in Behind(kept, pages, k + 1) ensures row in behind || row in page.data {
      assert !CutOffAt(pages, row, k);
    }
    assert Behind(kept, pages, k + 1) == behind + RowsOf(page.data);
    RowCount(page.data);
  }

  /** A page is full if more rows than fit lie ahead, and not empty if there is any. */
  lemma SomeAreLeft(kept: set<Row>, size: nat, pages: seq<Page>, k: nat)
    requires IsFixedWalk(kept, size, pages) && k < |pages|
    ensures |Behind(kept, pages, k)| < |kept| ==> pages[k].data != []
    ensures |Behind(kept, pages, k)| + size <= |kept| ==> |pages[k].data| == size
  {
    FixedPage(kept, size, pages, k);
    var page, behind := pages[k], Behind(kept, pages, k);
    if |page.data| < size {
      forall row | row in kept && row !in behind ensures row in page.data {
        assert Beyond(CursorAt(pages, k), row);
      }
      assert kept == behind + RowsOf(page.data);
      RowCount(page.data);
    }
  }

  /** As long as nothing was cut off and rows are left, the pages are full. */
  lemma {:induction false} PagesAreFull(kept: set<Row>, size: nat, pages: seq<Page>, k: nat)
    requires IsFixedWalk(kept, size, pages) && k * size < |kept|
    requires forall m: nat, row: Row :: m < k && m < |pages| && row in kept ==> !CutOffAt(pages, row, m)
    ensures k < |pages| && |Behind(kept, pages, k)| == k * size && pages[k].data != []
  {
    if k > 0 {
      assert (k - 1) * size + size == k * size;
      PagesAreFull(kept, size, pages, k - 1);
      FixedPage(kept, size, pages, k - 1);
      SomeAreLeft(kept, size, pages, k - 1);
      PageMovesBehind(kept, size, pages, k - 1);
    }
    FixedPage(kept, size, pages, k);
    SomeAreLeft(kept, size, pages, k);
  }

  /** Of two times, either the rows not older than the first are among those not older than the second, or the latter
      are newer than the first. */
  lemma Nested(kept: set<Row>, t: Time, c: Time)
    ensures |NotOlder(kept, t)| <= |NotOlder(kept, c)| || |NotOlder(kept, c)| <= |Newer(kept, t)|
  {
    if c <= t {
      Smaller(NotOlder(kept, t), NotOlder(kept, c));
    } else {
      Smaller(NotOlder(kept, c), Newer(kept, t));
    }
  }

  lemma StraddlingIsCut(kept: set<Row>, size: nat, pages: seq<Page>, t: Time, m: nat)
    requires IsFixedWalk(kept, size, pages) && Straddles(kept, size, t, m)
    ensures !ReturnsAll(kept, pages)
  {
    NoneCutOff(kept, size, pages);
    Smaller(NotOlder(kept, t), kept);
    if ReturnsAll(kept, pages) {
      PagesAreFull(kept, size, pages, m);
      Nested(kept, t, CursorAt(pages, m).time);
      assert false;
    }
  }

  lemma FullBeforeMore(kept: set<Row>, size: nat, pages: seq<Page>, k: nat)
    requires IsFixedWalk(kept, size, pages) && k + 1 < |pages| && pages[k + 1].data != []
    ensures |pages[k].data| == size
  {
    FixedPage(kept, size, pages, k);
    FixedPage(kept, size, pages, k + 1);
    var q := Newest(pages[k + 1]);
    assert q in pages[k + 1].data && Oldest(pages[k]) in pages[k].data;
    assert Beyond(CursorAt(pages, k + 1), q) && Beyond(CursorAt(pages, k), Oldest(pages[k]));
    assert q !in pages[k].data;
  }

  lemma BehindIs(kept: set<Row>, pages: seq<Page>, k: nat)
    requires k <= |pages|
    ensures Behind(kept, pages, k) == NotOlder(kept, CursorAt(pages, k).time)
  {
  }

  lemma CutPageIsFull(kept: set<Row>, c: ListEvaluationCursor, size: nat, pages: seq<Page>, k: nat, row: Row)
    requires k < |pages| && CutOffAt(pages, row, k) && IsPage(kept, c, size, pages[k]) && row in kept
    ensures pages[k].data != [] && row !in pages[k].data && row.evaluatedAt == Oldest(pages[k]).evaluatedAt
    ensures |pages[k].data| == size
  {
    assert Oldest(pages[k]) in pages[k].data && Beyond(c, Oldest(pages[k]));
    assert Beyond(c, row);
  }

  /** The rows newer than the last of a page lie behind its cursor or on the page, and the last row is not one of
      them. */
  lemma NewerThanCut(kept: set<Row>, c: ListEvaluationCursor, size: nat, page: Page, row: Row)
    requires IsPage(kept, c, size, page) && c.direction.Next? && page.data != []
    requires row.evaluatedAt == Oldest(page).evaluatedAt
    ensures |Newer(kept, row.evaluatedAt)| < |NotOlder(kept, c.time)| + |page.data|
  {
    var o := Oldest(page);
    assert o in page.data;
    RowCount(page.data);
    forall r | r in Newer(kept, row.evaluatedAt) ensures r in NotOlder(kept, c.time) + (RowsOf(page.data) - {o}) {
      assert r !in page.data && Beyond(c, r) ==> AtLeastAsNear(c, o, r);
    }
    Smaller(Newer(kept, row.evaluatedAt), NotOlder(kept, c.time) + (RowsOf(page.data) - {o}));
  }

  lemma NotOlderThanCut(kept: set<Row>, c: ListEvaluationCursor, size: nat, page: Page, row: Row)
    requires IsPage(kept, c, size, page) && c.direction.Next? && page.data != []
    requires row in kept && row !in page.data && row.evaluatedAt == Oldest(page).evaluatedAt
    ensures |NotOlder(kept, c.time)| + |page.data| < |NotOlder(kept, row.evaluatedAt)|
  {
    var behind, rows := NotOlder(kept, c.time), RowsOf(page.data);
    assert Oldest(page) in page.data && Beyond(c, Oldest(page));
    RowCount(page.data);
    assert behind !! rows by {
      assert forall r :: r in page.data ==> Beyond(c, r);
    }
    assert |behind + rows + {row}| == |behind| + |rows| + 1;
    Smaller(behind + rows + {row}, NotOlder(kept, row.evaluatedAt));
  }

  lemma CutStraddles(kept: set<Row>, size: nat, pages: seq<Page>, k: nat, row: Row)
    requires IsFixedWalk(kept, size, pages) && k < |pages| && row in kept && CutOffAt(pages, row, k)
    requires |Behind(kept, pages, k)| == k * size
    ensures Straddles(kept, size, row.evaluatedAt, k + 1)
  {
    hide Behind, NotOlder, Newer, CutOffAt;
    FixedPage(kept, size, pages, k);
    CutPageIsFull(kept, CursorAt(pages, k), size, pages, k, row);
    NewerThanCut(kept, CursorAt(pages, k), size, pages[k], row);
    NotOlderThanCut(kept, CursorAt(pages, k), size, pages[k], row);
    assert Behind(kept, pages, k) == NotOlder(kept, CursorAt(pages, k).time) by { BehindIs(kept, pages, k); }
    assert (k + 1) * size == k * size + size;
  }

  /** Without straddling, the pages before a page that is not empty are full, and nothing is cut off. */
  lemma {:induction false} NotCutOff(kept: set<Row>, size: nat, pages: seq<Page>, k: nat, row: Row)
    requires IsFixedWalk(kept, size, pages) && k < |pages| && row in kept
    requires forall t: Time, m: nat :: !Straddles(kept, size, t, m)
    ensures !CutOffAt(pages, row, k)
    ensures pages[k].data != [] ==> |Behind(kept, pages, k)| == k * size
  {
    FixedPage(kept, size, pages, k);
    if k > 0 && pages[k].data != [] {
      forall other | other in kept ensures !CutOffAt(pages, other, k - 1) {
        NotCutOff(kept, size, pages, k - 1, other);
      }
      NotCutOff(kept, size, pages, k - 1, row);
      PageMovesBehind(kept, size, pages, k - 1);
      FullBeforeMore(kept, size, pages, k - 1);
      assert (k - 1) * size + size == k * size;
    }
    if CutOffAt(pages, row, k) {
      CutStraddles(kept, size, pages, k, row);
    }
  }

  /** Of a fixed table a walk returns every row exactly if no rows of one time straddle the end of a page. */
  lemma AllReturnedUnlessStraddling(kept: set<Row>, size: nat, pages: seq<Page>)
    requires IsFixedWalk(kept, size, pages)
    ensures ReturnsAll(kept, pages) <==> !exists t: Time, m: nat :: Straddles(kept, size, t, m)
  {
    hide Straddles, IsFixedWalk;
    NoneCutOff(kept, size, pages);
    if t: Time, m: nat :| Straddles(kept, size, t, m) {
      StraddlingIsCut(kept, size, pages, t, m);
    } else {
      forall k: nat, row: Row | k < |pages| && row in kept ensures !CutOffAt(pages, row, k) {
        NotCutOff(kept, size, pages, k, row);
      }
    }
  }

  // ---------------------------------------------------------------------------------------------------------------
  // The walk ends

  ghost function Ahead(kept: set<Row>, c: ListEvaluationCursor): set<Row> {
    set row | row in kept && Beyond(c, row)
  }

  lemma LeavesOneBehind(kept: seq<set<Row>>, size: nat, pages: seq<Page>, n: nat)
    requires IsWalk(kept, size, pages) && 0 < n < |pages| && pages[n - 1].data != []
    requires Ahead(kept[n], CursorAt(pages, n)) <= kept[n - 1]
    ensures |Ahead(kept[n], CursorAt(pages, n))| < |Ahead(kept[n - 1], CursorAt(pages, n - 1))|
  {
    var here, previous := Ahead(kept[n], CursorAt(pages, n)), Ahead(kept[n - 1], CursorAt(pages, n - 1));
    CursorsPointToNext(kept, size, pages, n - 1);
    CursorsPointToNext(kept, size, pages, n);
    assert FetchedAt(kept, size, pages, n - 1);
    var o := Oldest(pages[n - 1]);
    assert o in pages[n - 1].data && o in previous && o !in here;
    assert here <= previous - {o};
    Smaller(here, previous - {o});
  }

  /** If what is stored between two pages is not older than the cursor, a walk has no more non-empty pages than the
      first table had rows ahead of it. */
  lemma {:induction false} WalksEnd(kept: seq<set<Row>>, size: nat, pages: seq<Page>)
    requires IsWalk(kept, size, pages) && pages != []
    requires forall k :: 0 <= k < |pages| ==> pages[k].data != []
    requires forall k :: 0 < k < |pages| ==> Ahead(kept[k], CursorAt(pages, k)) <= kept[k - 1]
    ensures |pages| - 1 + |Ahead(kept[|pages| - 1], CursorAt(pages, |pages| - 1))| <= |Ahead(kept[0], DEFAULT)|
    ensures |pages| <= |Ahead(kept[0], DEFAULT)|
    decreases |pages|
  {
    var n := |pages| - 1;
    var here := Ahead(kept[n], CursorAt(pages, n));
    assert FetchedAt(kept, size, pages, n);
    assert Oldest(pages[n]) in pages[n].data && Oldest(pages[n]) in here;
    if n > 0 {
      WalkPrefix(kept, size, pages);
      forall k | 0 < k < n ensures Ahead(kept[..n][k], CursorAt(pages[..n], k)) <= kept[..n][k - 1] {
        assert CursorAt(pages[..n], k) == CursorAt(pages, k);
      }
      WalksEnd(kept[..n], size, pages[..n]);
      assert CursorAt(pages[..n], n - 1) == CursorAt(pages, n - 1);
      LeavesOneBehind(kept, size, pages, n);
    }
  }

  // ---------------------------------------------------------------------------------------------------------------
  // Going back

  /** A kept row whose time lies within a page is on the page. */
  lemma PagesAreContiguous(kept: set<Row>, c: ListEvaluationCursor, size: nat, page: Page, row: Row, above: Row)
    requires IsPage(kept, c, size, page) && DistinctTimes(kept) && row in kept && above in page.data
    requires Oldest(page).evaluatedAt <= row.evaluatedAt <= above.evaluatedAt
    ensures row in page.data
  {
    assert Oldest(page) in page.data;
  }

  lemma StrictlyDescending(kept: set<Row>, rows: seq<Row>)
    requires DistinctTimes(kept) && Distinct(rows) && forall row :: row in rows ==> row in kept
    requires forall i, j :: 0 <= i < j < |rows| ==> rows[i].evaluatedAt >= rows[j].evaluatedAt
    ensures NewestFirst(RowsOf(rows), rows)
  {
    forall i, j | 0 <= i < j < |rows| ensures rows[i].evaluatedAt > rows[j].evaluatedAt {
      assert rows[i] in rows && rows[j] in rows;
    }
  }

  /** Two pages of the same rows are equal. */
  lemma SamePage(
    kept: set<Row>, c: ListEvaluationCursor, d: ListEvaluationCursor, size: nat, page: Page, other: Page)
    requires DistinctTimes(kept) && IsPage(kept, c, size, page) && IsPage(kept, d, size, other)
    requires RowsOf(page.data) == RowsOf(other.data)
    ensures page == other
  {
    hide Beyond, AtLeastAsNear, DistinctTimes;
    StrictlyDescending(kept, page.data);
    StrictlyDescending(kept, other.data);
    OneListing(RowsOf(page.data), page.data, other.data);
  }

  /** Between a page and the cursor it was fetched with there is no kept row. */
  lemma NoneBetween(kept: set<Row>, c: ListEvaluationCursor, size: nat, page: Page, row: Row)
    requires IsPage(kept, c, size, page) && page.data != [] && c.direction.Next? && row in kept
    requires row.evaluatedAt > Newest(page).evaluatedAt
    ensures row.evaluatedAt >= c.time
  {
    assert Newest(page) in page.data;
    assert row !in page.data;
  }

  /** `back` is the page of the rows from the oldest of `page` upwards; `q` is a kept row below `page`. */
  lemma FewerRows(some: seq<Row>, all: seq<Row>, row: Row)
    requires Distinct(some) && Distinct(all) && row in all && row !in some
    requires forall b :: b in some ==> b in all
    ensures |some| < |all|
  {
    RowCount(all);
    RowCount(some);
    assert RowsOf(some) <= RowsOf(all) - {row};
    Smaller(RowsOf(some), RowsOf(all) - {row});
  }

  lemma GoesBackTo(kept: set<Row>, c: ListEvaluationCursor, size: nat, page: Page, q: Row, back: Page, row: Row)
    requires DistinctTimes(kept) && IsPage(kept, c, size, page) && row in page.data
    requires q in kept && q.evaluatedAt < Oldest(page).evaluatedAt
    requires IsPage(kept, ListEvaluationCursor(q.evaluatedAt, Prev), size, back)
    requires forall row :: row in kept && row.evaluatedAt > q.evaluatedAt ==>
               row.evaluatedAt >= Oldest(page).evaluatedAt
    ensures row in back.data
  {
    var up := ListEvaluationCursor(q.evaluatedAt, Prev);
    if row !in back.data {
      assert Beyond(up, row);
      forall b | b in back.data ensures b in page.data {
        assert Beyond(up, b) && AtLeastAsNear(up, b, row);
        PagesAreContiguous(kept, c, size, page, b, row);
      }
      FewerRows(back.data, page.data, row);
    }
  }

  /** As many rows, among them all of the other page: the same rows. */
  lemma SameIfAsMany(some: seq<Row>, all: seq<Row>)
    requires Distinct(some) && Distinct(all) && |all| <= |some| && forall row :: row in some ==> row in all
    ensures RowsOf(some) == RowsOf(all)
  {
    if row :| row in all && row !in some {
      FewerRows(some, all, row);
    }
  }

  /** A page that is not full holds all rows on its side of the cursor. */
  lemma ShortHoldsAll(kept: set<Row>, c: ListEvaluationCursor, size: nat, page: Page, q: Row, back: Page)
    requires IsPage(kept, c, size, page) && page.data != [] && |page.data| < size
    requires q in kept && q.evaluatedAt < Oldest(page).evaluatedAt
    requires IsPage(kept, ListEvaluationCursor(q.evaluatedAt, Prev), size, back)
    requires forall row :: row in kept && row.evaluatedAt > q.evaluatedAt ==>
               row.evaluatedAt >= Oldest(page).evaluatedAt
    ensures forall b :: b in back.data ==> b in page.data
  {
    assert Oldest(page) in page.data;
    forall row | row in page.data ensures Oldest(page).evaluatedAt <= row.evaluatedAt {
    }
    assert q !in page.data;
    forall b | b in back.data ensures b in page.data {
      assert Beyond(ListEvaluationCursor(q.evaluatedAt, Prev), b);
      assert Beyond(c, b);
    }
  }

  lemma SameRows(kept: set<Row>, c: ListEvaluationCursor, size: nat, page: Page, q: Row, back: Page)
    requires DistinctTimes(kept) && IsPage(kept, c, size, page) && page.data != []
    requires q in kept && q.evaluatedAt < Oldest(page).evaluatedAt
    requires IsPage(kept, ListEvaluationCursor(q.evaluatedAt, Prev), size, back)
    requires forall row :: row in kept && row.evaluatedAt > q.evaluatedAt ==>
               row.evaluatedAt >= Oldest(page).evaluatedAt
    ensures RowsOf(page.data) == RowsOf(back.data)
  {
    hide Beyond, AtLeastAsNear, DistinctTimes;
    forall row | row in page.data ensures row in back.data {
      GoesBackTo(kept, c, size, page, q, back, row);
    }
    if |page.data| == size {
      SameIfAsMany(page.data, back.data);
    } else {
      ShortHoldsAll(kept, c, size, page, q, back);
    }
  }

  lemma PrevHasSameRows(kept: set<Row>, c: ListEvaluationCursor, size: nat, page: Page, after: Page, back: Page)
    requires DistinctTimes(kept)
    requires IsPage(kept, c, size, page) && page.data != []
    requires IsPage(kept, page.next.value, size, after) && after.data != []
    requires IsPage(kept, after.prev.value, size, back)
    ensures RowsOf(page.data) == RowsOf(back.data)
  {
    var q := Newest(after);
    assert q in after.data;
    forall row | row in kept && row.evaluatedAt > q.evaluatedAt ensures row.evaluatedAt >= Oldest(page).evaluatedAt {
      NoneBetween(kept, page.next.value, size, after, row);
    }
    SameRows(kept, c, size, page, q, back);
  }

  /** Fetching the page before the page after a page gives the page itself: the same rows in the same order, and the
      same cursors. `c` can be a cursor of either direction. */
  lemma PrevUndoesNext(kept: set<Row>, c: ListEvaluationCursor, size: nat, page: Page, after: Page, back: Page)
    requires DistinctTimes(kept)
    requires IsPage(kept, c, size, page) && page.data != []
    requires IsPage(kept, page.next.value, size, after) && after.data != []
    requires IsPage(kept, after.prev.value, size, back)
    ensures back == page
  {
    hide Beyond, AtLeastAsNear;
    PrevHasSameRows(kept, c, size, page, after, back);
    SamePage(kept, c, after.prev.value, size, page, back);
  }
}
