/**
 * The legacy pull: the same page loop, but over rows in (received_at, id) order and resumed from a
 * cursor. Receipt times are taken before commit, so unlike the sync sequence this order does not
 * follow commits: a row that commits while a client pages on may come to lie behind its cursor.
 */
module CursorPull {
  import opened Wrappers
  import opened Ordering
  import opened LogModel
  import opened PageCut
  import opened TimestampResolution
  import SyncPull

  datatype Cursor = Cursor(receivedAt: int, id: string)

  function CursorOf(r: Row): Cursor { Cursor(r.receivedAt, r.id) }

  /** Character-wise order of ids. */
  predicate LexLe(a: string, b: string) {
    a == [] || (b != [] && (a[0] < b[0] || (a[0] == b[0] && LexLe(a[1..], b[1..]))))
  }

  predicate CursorLe(a: Cursor, b: Cursor) {
    a.receivedAt < b.receivedAt || (a.receivedAt == b.receivedAt && LexLe(a.id, b.id))
  }

  predicate RowLe(a: Row, b: Row) { CursorLe(CursorOf(a), CursorOf(b)) }

  predicate RowLt(a: Row, b: Row) { !RowLe(b, a) }

  predicate Beyond(after: Option<Cursor>, r: Row) {
    after.Some? ==> !CursorLe(CursorOf(r), after.value)
  }

  datatype TimeRange = TimeRange(startTs: int, endTs: Option<int>)

  /** A start without ISO text is compared as null, which no row satisfies; such an end is no bound. */
  predicate InRange(range: TimeRange, r: Row) {
    && IsDate(range.startTs) && r.receivedAt >= range.startTs
    && (range.endTs.Some? && IsDate(range.endTs.value) ==> r.receivedAt <= range.endTs.value)
  }

  /** All matching rows beyond the cursor, in cursor order. */
  function CursorRows(t: Table, q: Query, range: TimeRange, after: Option<Cursor>): seq<Row> {
    Sort(RowLe, Select((r: Row) => Matches(q, r) && InRange(range, r) && Beyond(after, r), t))
  }

  // The order is total.

  lemma {:induction false} LexTotal(a: string, b: string)
    ensures LexLe(a, b) || LexLe(b, a)
    ensures LexLe(a, b) && LexLe(b, a) ==> a == b
  {
    if a != [] && b != [] && a[0] == b[0] {
      LexTotal(a[1..], b[1..]);
      assert a == [a[0]] + a[1..] && b == [b[0]] + b[1..];
    }
  }

  lemma {:induction false} LexTransitive(a: string, b: string, c: string)
    requires LexLe(a, b) && LexLe(b, c)
    ensures LexLe(a, c)
  {
    if a != [] && a[0] == b[0] == c[0] {
      LexTransitive(a[1..], b[1..], c[1..]);
    }
  }

  /** One id is before another if it is a proper start of it, or smaller where they first differ. */
  ghost predicate FirstDiffersAt(a: string, b: string, k: nat) {
    && k <= |a| && k < |b| && (forall i | 0 <= i < k :: a[i] == b[i])
    && (k == |a| || a[k] < b[k])
  }

  lemma {:induction false} LexIsFirstDifference(a: string, b: string)
    ensures !LexLe(b, a) <==> exists k: nat :: FirstDiffersAt(a, b, k)
  {
    if b == [] {
    } else if a == [] || a[0] != b[0] {
      assert FirstDiffersAt(a, b, 0) <==> a == [] || a[0] < b[0];
    } else {
      LexIsFirstDifference(a[1..], b[1..]);
      forall k: nat | FirstDiffersAt(a[1..], b[1..], k) ensures FirstDiffersAt(a, b, k + 1) {
        assert forall i | 0 < i < k + 1 :: a[i] == a[1..][i - 1] && b[i] == b[1..][i - 1];
      }
      forall k: nat | FirstDiffersAt(a, b, k) ensures k > 0 && FirstDiffersAt(a[1..], b[1..], k - 1) {
      }
    }
  }

  /** The listing is by receipt time, then by id, and resumes strictly behind the cursor. */
  lemma ListingInColumns(t: Table, q: Query, range: TimeRange, after: Option<Cursor>)
    requires UniqueIds(t)
    ensures var rows := CursorRows(t, q, range, after);
            && (forall i, j | 0 <= i < j < |rows| ::
                  || rows[i].receivedAt < rows[j].receivedAt
                  || (rows[i].receivedAt == rows[j].receivedAt
                      && exists k: nat :: FirstDiffersAt(rows[i].id, rows[j].id, k)))
            && (forall r :: r in rows <==>
                  && r in t && r.community == q.community
                  && (q.hash.Some? ==> r.id == q.hash.value) && (q.hashedDbId.Some? ==> r.hashedDbId == q.hashedDbId)
                  && (q.endSeq.Some? ==> r.syncSeq <= q.endSeq.value)
                  && -8_640_000_000_000_000 <= range.startTs <= 8_640_000_000_000_000
                  && range.startTs <= r.receivedAt
                  && (range.endTs.Some? && -8_640_000_000_000_000 <= range.endTs.value <= 8_640_000_000_000_000 ==>
                        r.receivedAt <= range.endTs.value)
                  && (after.Some? ==>
                        || after.value.receivedAt < r.receivedAt
                        || (after.value.receivedAt == r.receivedAt
                            && exists k: nat :: FirstDiffersAt(after.value.id, r.id, k))))
  {
    hide CursorRows, FirstDiffersAt, LexLe;
    var rows := CursorRows(t, q, range, after);
    CursorRowsListing(t, q, range, after);
    forall i, j | 0 <= i < j < |rows|
      ensures rows[i].receivedAt < rows[j].receivedAt
              || (rows[i].receivedAt == rows[j].receivedAt
                  && exists k: nat :: FirstDiffersAt(rows[i].id, rows[j].id, k))
    {
      assert RowLt(rows[i], rows[j]);
      LexIsFirstDifference(rows[i].id, rows[j].id);
    }
    if after.Some? {
      forall r: Row ensures !LexLe(r.id, after.value.id) <==> exists k: nat :: FirstDiffersAt(after.value.id, r.id, k) {
        LexIsFirstDifference(after.value.id, r.id);
      }
    }
  }

  lemma RowOrderIsTotal()
    ensures TotalPreorder(RowLe)
    ensures forall x, y :: !(RowLt(x, y) && RowLt(y, x))
    ensures forall x, y :: RowLe(x, y) && RowLe(y, x) ==> x.id == y.id
  {
    forall x: Row, y: Row
      ensures RowLe(x, y) || RowLe(y, x)
      ensures RowLe(x, y) && RowLe(y, x) ==> x.id == y.id
    {
      LexTotal(x.id, y.id);
    }
    forall x: Row, y: Row, z: Row | RowLe(x, y) && RowLe(y, z)
      ensures RowLe(x, z)
    {
      if x.receivedAt == y.receivedAt == z.receivedAt {
        LexTransitive(x.id, y.id, z.id);
      }
    }
  }

  lemma CursorRowsListing(t: Table, q: Query, range: TimeRange, after: Option<Cursor>)
    requires UniqueIds(t)
    ensures Strict(RowLt, CursorRows(t, q, range, after))
    ensures forall r :: r in CursorRows(t, q, range, after) <==>
              r in t && Matches(q, r) && InRange(range, r) && Beyond(after, r)
  {
    hide RowLe;
    var p := (r: Row) => Matches(q, r) && InRange(range, r) && Beyond(after, r);
    var rows := CursorRows(t, q, range, after);
    RowOrderIsTotal();
    SortSorted(RowLe, Select(p, t));
    SortMembers(RowLe, Select(p, t));
    SortSelectNoRepeats(RowLe, p, t);
    forall i, j | 0 <= i < j < |rows|
      ensures RowLt(rows[i], rows[j])
    {
      assert rows[i] in t && rows[j] in t && rows[i] != rows[j] && RowLe(rows[i], rows[j]);
    }
  }

  lemma RowCut(s: seq<Row>, i: nat)
    requires Strict(RowLt, s) && i < |s|
    ensures Strict(RowLt, s[i + 1..])
    ensures forall r :: r in s[i + 1..] <==> r in s && !RowLe(r, s[i])
  {
    hide RowLe;
    RowOrderIsTotal();
    forall r | r in s && !RowLe(r, s[i]) ensures r in s[i + 1..] {
      var k :| 0 <= k < |s| && s[k] == r;
      assert forall j | 0 <= j < i :: RowLt(s[j], s[i]);
      assert RowLe(s[i], s[i]);
    }
  }

  /** Resuming after the cursor of row i leaves exactly the rows after it. */
  lemma ResumeAfterRow(t: Table, q: Query, range: TimeRange, after: Option<Cursor>, i: nat)
    requires UniqueIds(t) && i < |CursorRows(t, q, range, after)|
    ensures var all := CursorRows(t, q, range, after);
            CursorRows(t, q, range, Some(CursorOf(all[i]))) == all[i + 1..]
  {
    hide CursorLe;
    var all := CursorRows(t, q, range, after);
    var cursor := CursorOf(all[i]);
    RowOrderIsTotal();
    CursorRowsListing(t, q, range, after);
    CursorRowsListing(t, q, range, Some(cursor));
    RowCut(all, i);
    assert all[i] in all;
    forall r | r in t && Beyond(Some(cursor), r)
      ensures Beyond(after, r)
    {
      if after.Some? && CursorLe(CursorOf(r), after.value) {
        CursorTransitive(CursorOf(r), after.value, cursor);
      }
    }
    StrictUnique(RowLt, CursorRows(t, q, range, Some(cursor)), all[i + 1..]);
  }

  lemma CursorTransitive(a: Cursor, b: Cursor, c: Cursor)
    requires CursorLe(a, b) && !CursorLe(c, b)
    ensures CursorLe(a, c)
  {
    LexTotal(b.id, c.id);
    if a.receivedAt == b.receivedAt == c.receivedAt {
      LexTransitive(a.id, b.id, c.id);
    }
  }

  // The pull.

  datatype CursorResponse = CursorResponse(
    entries: seq<Bytes>,
    cursor: Option<Cursor>,
    hasNextPage: bool,
    highestSyncSeq: Option<int>,
    resolvedStartSeq: int
  )

  /** JSON metadata of a page that ends at this row; `text` is the opaque encoding of cursors. */
  function CursorMetadata(text: Cursor -> string, resolved: int): MetadataSize {
    (r: Row, more: bool) =>
      |"{\"cursor\":\"" + text(CursorOf(r)) + "\",\"highestSyncSeq\":" + Decimal(r.syncSeq)
       + ",\"resolvedStartSeq\":" + Decimal(resolved) + ",\"hasNextPage\":" + BoolText(more) + "}"|
  }

  lemma CursorMetadataReads(text: Cursor -> string, resolved: int, r: Row)
    ensures CursorMetadata(text, resolved)(r, true)
         == 66 + |text(CursorOf(r))| + |Decimal(r.syncSeq)| + |Decimal(resolved)| + |"true"|
    ensures CursorMetadata(text, resolved)(r, false)
         == 66 + |text(CursorOf(r))| + |Decimal(r.syncSeq)| + |Decimal(resolved)| + |"false"|
  {
    hide Decimal;
  }

  /** A keyset page in forward direction. `atZero` is the page size the database library gives to `first: 0`. */
  function FetchCursorPage(t: Table, q: Query, range: TimeRange, after: Option<Cursor>, first: nat, atZero: nat): Page {
    var rows := CursorRows(t, q, range, after);
    var size := if first == 0 then atZero else first;
    Page(rows[..SyncPull.Min(size, |rows|)], |rows| > size)
  }

  /** The limit that the loop ends up with: once a page has rows, a limit of 0 lets the first one through. */
  function Effective(limit: Option<nat>, atZero: nat): Option<nat> {
    if limit == Some(0) && atZero > 0 then Some(1) else limit
  }

  lemma ZeroCutsAfterOne(all: seq<Row>, tail: bool, size: MetadataSize, limit: Option<nat>, atZero: nat, taken: nat)
    requires taken <= |all|
    ensures CutPage(all, tail, size, limit, taken) == CutPage(all, tail, size, Effective(limit, atZero), taken)
  {
  }

  ghost predicate IsCursorCut(
    all: seq<Row>, size: MetadataSize, limit: Option<nat>, cursor: Option<Cursor>, rows: seq<Row>, resp: CursorResponse)
  {
    var (n, more) := Cut(all, size, limit);
    && n <= |all| && rows == all[..n]
    && resp.entries == SyncPull.Bodies(rows) && resp.hasNextPage == more
    && resp.cursor == (if rows == [] then cursor else Some(CursorOf(rows[|rows| - 1])))
    && resp.highestSyncSeq == (if rows == [] then None else Some(rows[|rows| - 1].syncSeq))
  }

  ghost predicate CursorInvariant(
    t: Table, q: Query, range: TimeRange, cursor: Option<Cursor>, size: MetadataSize, limit: Option<nat>,
    entries: seq<Row>, usedBytes: nat, next: Option<Cursor>)
  {
    var all := CursorRows(t, q, range, cursor);
    && usedBytes == TotalBytes(entries)
    && CutSoFar(all, size, limit, entries)
    && all == entries + CursorRows(t, q, range, next)
    && (if entries == [] then next == cursor else CursorRows(t, q, range, next) != [])
  }

  lemma CursorStart(t: Table, q: Query, range: TimeRange, cursor: Option<Cursor>, size: MetadataSize,
      limit: Option<nat>)
    ensures CursorInvariant(t, q, range, cursor, size, limit, [], 0, cursor)
  {
    hide CursorRows, CutFrom;
    EmptyPass(size, limit);
  }

  lemma CursorStep(
    t: Table, q: Query, range: TimeRange, cursor: Option<Cursor>, size: MetadataSize, limit: Option<nat>,
    entries: seq<Row>, usedBytes: nat, next: Option<Cursor>, page: Page, grown: seq<Row>, used: nat, cut: PageOutcome)
    requires UniqueIds(t) && limit != Some(0)
    requires CursorInvariant(t, q, range, cursor, size, limit, entries, usedBytes, next)
    requires PageOf(CursorRows(t, q, range, next), page)
    requires cut == CutPage(entries + page.items, page.hasNextPage, size, limit, |entries|)
    requires grown == (entries + page.items)[..cut.count] && used == TotalBytes(grown)
    ensures grown != []
    ensures var all := CursorRows(t, q, range, cursor);
            var last := Some(CursorOf(grown[|grown| - 1]));
            if cut.stop.PageDone? && cut.hasNextPage
            then && CursorInvariant(t, q, range, cursor, size, limit, grown, used, last)
                 && |CursorRows(t, q, range, last)| < |CursorRows(t, q, range, next)|
            else cut.count <= |all| && grown == all[..cut.count]
                 && CutFrom(all, size, limit, 0) == (cut.count, cut.hasNextPage)
  {
    hide CursorRows, CutFrom, CutPage, BytesUpTo, TotalBytes, UniqueIds;
    var all := CursorRows(t, q, range, cursor);
    var following := CursorRows(t, q, range, next);
    CutStep(all, size, limit, entries, following, page, cut, grown);
    FirstIsTaken(entries, page, size, limit, cut);
    if cut.stop.PageDone? && cut.hasNextPage {
      assert all[cut.count - 1] == grown[|grown| - 1];
      ResumeAfterRow(t, q, range, cursor, cut.count - 1);
      DropPast(entries, following, cut.count);
      SplitAt(all, cut.count);
    }
  }

  lemma DropPast(a: seq<Row>, b: seq<Row>, n: nat)
    requires |a| < n <= |a| + |b|
    ensures (a + b)[n..] == b[n - |a|..]
    ensures |(a + b)[n..]| < |b|
  {
  }

  lemma SplitAt(s: seq<Row>, n: nat)
    requires n <= |s|
    ensures s == s[..n] + s[n..]
  {
  }

  lemma FirstIsTaken(entries: seq<Row>, page: Page, size: MetadataSize, limit: Option<nat>, cut: PageOutcome)
    requires page.items != [] && cut == CutPage(entries + page.items, page.hasNextPage, size, limit, |entries|)
    ensures cut.count > 0
    ensures cut.stop.PageDone? ==> cut.count > |entries|
  {
  }

  lemma CursorEmpty(all: seq<Row>, size: MetadataSize, limit: Option<nat>, cursor: Option<Cursor>, resp: CursorResponse)
    requires resp == CursorResponse(SyncPull.Bodies([]), cursor, false, None, resp.resolvedStartSeq)
    requires all == [] || limit == Some(0)
    ensures IsCursorCut(all, size, limit, cursor, [], resp)
  {
    EmptyPass(size, limit);
  }

  lemma CursorExit(
    all: seq<Row>, size: MetadataSize, limit: Option<nat>, cursor: Option<Cursor>, rows: seq<Row>, resp: CursorResponse)
    requires 0 < |rows| <= |all| && rows == all[..|rows|] && limit != Some(0)
    requires CutFrom(all, size, limit, 0) == (|rows|, resp.hasNextPage) && resp.entries == SyncPull.Bodies(rows)
    requires resp.cursor == Some(CursorOf(rows[|rows| - 1])) && resp.highestSyncSeq == Some(rows[|rows| - 1].syncSeq)
    ensures IsCursorCut(all, size, limit, cursor, rows, resp)
  {
    hide CutFrom, SyncPull.Bodies;
  }

  // Writers may commit between two page reads.

  /** Successive snapshots of an append-only log. */
  ghost predicate Growing(history: seq<Table>) {
    && history != []
    && (forall i, j | 0 <= i <= j < |history| :: history[i] <= history[j])
    && (forall i | 0 <= i < |history| :: UniqueIds(history[i]))
  }

  /**
   * The rows of one pull, when `t` is what its last page read saw: in cursor order, all matching, and of the
   * rows that were there at its first read, `first`, only those beyond the cursor it reached are missing.
   */
  ghost predicate Passed(
    first: Table, t: Table, q: Query, range: TimeRange, cursor: Option<Cursor>, rows: seq<Row>, next: Option<Cursor>)
  {
    && next == (if rows == [] then cursor else Some(CursorOf(rows[|rows| - 1])))
    && Strict(RowLt, rows)
    && (forall r | r in rows :: r in CursorRows(t, q, range, cursor))
    && (forall r | r in CursorRows(first, q, range, cursor) :: r in rows || r in CursorRows(t, q, range, next))
  }

  ghost predicate CursorGathered(
    first: Table, t: Table, q: Query, range: TimeRange, cursor: Option<Cursor>, size: MetadataSize,
    limit: Option<nat>, rows: seq<Row>, next: Option<Cursor>, more: bool)
  {
    && Passed(first, t, q, range, cursor, rows, next)
    && (if rows == [] then !more else more <==> CursorRows(t, q, range, next) != [])
    && (limit.Some? ==> |rows| <= limit.value)
    && WithinBudget(rows, |rows|, size, more)
  }

  /** What one pull returns, against the snapshots of its first and its last page read. */
  ghost predicate CursorOutcome(
    first: Table, seen: Table, q: Query, range: TimeRange, cursor: Option<Cursor>, size: MetadataSize,
    limit: Option<nat>, rows: seq<Row>, resp: CursorResponse)
  {
    && resp.entries == SyncPull.Bodies(rows)
    && resp.highestSyncSeq == (if rows == [] then None else Some(rows[|rows| - 1].syncSeq))
    && Passed(first, seen, q, range, cursor, rows, resp.cursor)
    && (resp.hasNextPage ==> rows != [] && CursorRows(seen, q, range, resp.cursor) != [])
    && (!resp.hasNextPage && limit != Some(0) ==> CursorRows(seen, q, range, resp.cursor) == [])
    && (limit.Some? ==> |rows| <= limit.value)
    && WithinBudget(rows, |rows|, size, resp.hasNextPage)
  }

  lemma CursorRowsGrow(t: Table, later: Table, q: Query, range: TimeRange, after: Option<Cursor>)
    requires UniqueIds(t) && UniqueIds(later) && t <= later
    ensures forall r | r in CursorRows(t, q, range, after) :: r in CursorRows(later, q, range, after)
    ensures CursorRows(t, q, range, after) != [] ==> CursorRows(later, q, range, after) != []
  {
    hide CursorRows;
    CursorRowsListing(t, q, range, after);
    CursorRowsListing(later, q, range, after);
    assert later == t + later[|t|..];
    var some := CursorRows(t, q, range, after);
    assert some != [] ==> some[0] in some;
  }

  lemma GatheredGrows(
    first: Table, t: Table, later: Table, q: Query, range: TimeRange, cursor: Option<Cursor>, size: MetadataSize,
    limit: Option<nat>, rows: seq<Row>, next: Option<Cursor>, more: bool)
    requires UniqueIds(t) && UniqueIds(later) && t <= later && (rows != [] ==> more)
    requires CursorGathered(first, t, q, range, cursor, size, limit, rows, next, more)
    ensures CursorGathered(first, later, q, range, cursor, size, limit, rows, next, more)
  {
    hide CursorRows;
    CursorRowsGrow(t, later, q, range, cursor);
    CursorRowsGrow(t, later, q, range, next);
  }

  /** Taking the first k of the rows that follow. */
  lemma PassedAdvances(
    first: Table, t: Table, q: Query, range: TimeRange, cursor: Option<Cursor>, rows: seq<Row>,
    next: Option<Cursor>, k: nat)
    requires UniqueIds(t) && Passed(first, t, q, range, cursor, rows, next)
    requires 0 < k <= |CursorRows(t, q, range, next)|
    ensures var following := CursorRows(t, q, range, next);
            var last := Some(CursorOf(following[k - 1]));
            && Passed(first, t, q, range, cursor, rows + following[..k], last)
            && CursorRows(t, q, range, last) == following[k..]
  {
    hide CursorRows, CursorOf, Strict;
    var following := CursorRows(t, q, range, next);
    ResumeAfterRow(t, q, range, next, k - 1);
    assert following == following[..k] + following[k..];
    forall r | r in following ensures r in CursorRows(t, q, range, cursor) {
      BeyondNext(t, q, range, cursor, rows, next, r);
    }
    GrownIsStrict(t, q, range, rows, next, k);
  }

  lemma GrownIsStrict(t: Table, q: Query, range: TimeRange, rows: seq<Row>, next: Option<Cursor>, k: nat)
    requires UniqueIds(t) && Strict(RowLt, rows) && k <= |CursorRows(t, q, range, next)|
    requires rows != [] ==> next == Some(CursorOf(rows[|rows| - 1]))
    ensures Strict(RowLt, rows + CursorRows(t, q, range, next)[..k])
  {
    hide CursorRows, CursorOf, RowLe;
    var following := CursorRows(t, q, range, next);
    var grown := rows + following[..k];
    CursorRowsListing(t, q, range, next);
    forall i, j | 0 <= i < j < |grown| ensures RowLt(grown[i], grown[j]) {
      if i < |rows| <= j {
        assert grown[j] == following[j - |rows|] && grown[j] in following;
        BehindNext(rows, next, i, grown[j]);
      } else if i >= |rows| {
        assert grown[i] == following[i - |rows|] && grown[j] == following[j - |rows|];
      }
    }
  }

  /** What lies beyond the last row gathered lies beyond all of them. */
  lemma BehindNext(rows: seq<Row>, next: Option<Cursor>, i: nat, r: Row)
    requires Strict(RowLt, rows) && i < |rows| && next == Some(CursorOf(rows[|rows| - 1])) && Beyond(next, r)
    ensures RowLt(rows[i], r)
  {
    hide CursorLe;
    var last := rows[|rows| - 1];
    if i < |rows| - 1 && RowLe(r, rows[i]) {
      assert RowLt(rows[i], last);
      CursorTransitive(CursorOf(r), CursorOf(rows[i]), CursorOf(last));
    }
  }

  lemma BeyondNext(
    t: Table, q: Query, range: TimeRange, cursor: Option<Cursor>, rows: seq<Row>, next: Option<Cursor>, r: Row)
    requires UniqueIds(t) && r in CursorRows(t, q, range, next)
    requires next == if rows == [] then cursor else Some(CursorOf(rows[|rows| - 1]))
    requires forall x | x in rows :: x in CursorRows(t, q, range, cursor)
    ensures r in CursorRows(t, q, range, cursor)
  {
    hide CursorRows, CursorLe;
    CursorRowsListing(t, q, range, next);
    CursorRowsListing(t, q, range, cursor);
    if rows != [] {
      assert rows[|rows| - 1] in rows;
      if cursor.Some? && CursorLe(CursorOf(r), cursor.value) {
        CursorTransitive(CursorOf(r), cursor.value, next.value);
      }
    }
  }

  /** One page read and one run of the inner loop. */
  lemma CursorPageStep(
    first: Table, t: Table, q: Query, range: TimeRange, cursor: Option<Cursor>, size: MetadataSize,
    limit: Option<nat>, rows: seq<Row>, next: Option<Cursor>, more: bool, page: Page, grown: seq<Row>,
    cut: PageOutcome)
    requires UniqueIds(t) && !LimitReached(limit, |rows|) && (rows != [] ==> more)
    requires CursorGathered(first, t, q, range, cursor, size, limit, rows, next, more)
    requires PageOf(CursorRows(t, q, range, next), page)
    requires cut == CutPage(rows + page.items, page.hasNextPage, size, limit, |rows|)
    requires grown == (rows + page.items)[..cut.count]
    ensures grown != []
    ensures var last := Some(CursorOf(grown[|grown| - 1]));
            && CursorGathered(first, t, q, range, cursor, size, limit, grown, last, cut.hasNextPage)
            && (cut.stop.PageDone? ==>
                  !LimitReached(limit, |grown|) && grown[|grown| - 1] in CursorRows(t, q, range, next))
  {
    hide CursorRows, CutPage, BytesUpTo, Strict;
    var following := CursorRows(t, q, range, next);
    PageSizes(rows, following, page, size, limit, cut, grown);
    var k := cut.count - |rows|;
    if k > 0 {
      PassedAdvances(first, t, q, range, cursor, rows, next, k);
      assert grown[|grown| - 1] == following[k - 1];
      assert following[k - 1] in following;
    } else {
      assert grown == rows;
    }
  }

  /** Reading on strictly shrinks what the final table still holds beyond the cursor. */
  lemma CursorRemainderShrinks(t: Table, final: Table, q: Query, range: TimeRange, next: Option<Cursor>, r: Row)
    requires UniqueIds(t) && UniqueIds(final) && t <= final && r in CursorRows(t, q, range, next)
    ensures |CursorRows(final, q, range, Some(CursorOf(r)))| < |CursorRows(final, q, range, next)|
  {
    hide CursorRows;
    CursorRowsGrow(t, final, q, range, next);
    var all := CursorRows(final, q, range, next);
    var i :| 0 <= i < |all| && all[i] == r;
    ResumeAfterRow(final, q, range, next, i);
  }

  lemma CursorPageSplits(
    t: Table, q: Query, range: TimeRange, after: Option<Cursor>, limit: Option<nat>, pageCap: nat, atZero: nat)
    requires pageCap >= 1
    ensures var page := FetchCursorPage(t, q, range, after, SyncPull.Min(limit.GetOr(pageCap), pageCap), atZero);
            var all := CursorRows(t, q, range, after);
            if Effective(limit, atZero) == Some(0) then page.items == []
            else if all == [] then page.items == [] else PageOf(all, page)
  {
    hide CursorRows;
  }

  /** What holds between two page reads; `fixed` says the store is known not to change. */
  ghost predicate CursorLoop(
    first: Table, t: Table, fixed: bool, q: Query, range: TimeRange, cursor: Option<Cursor>, size: MetadataSize,
    limit: Option<nat>, entries: seq<Row>, usedBytes: nat, next: Option<Cursor>, more: bool)
  {
    && CursorGathered(first, t, q, range, cursor, size, limit, entries, next, more)
    && usedBytes == TotalBytes(entries) && (entries != [] ==> more)
    && (LimitReached(limit, |entries|) ==> limit == Some(0) && entries == [])
    && (fixed ==> CursorInvariant(t, q, range, cursor, size, limit, entries, usedBytes, next))
  }

  /** What holds when the loop ends with rows gathered. */
  ghost predicate CursorLoopResult(
    first: Table, t: Table, fixed: bool, q: Query, range: TimeRange, cursor: Option<Cursor>, size: MetadataSize,
    limit: Option<nat>, entries: seq<Row>, more: bool)
  {
    && entries != [] && limit != Some(0)
    && CursorGathered(first, t, q, range, cursor, size, limit, entries, Some(CursorOf(entries[|entries| - 1])), more)
    && (fixed ==>
      var all := CursorRows(t, q, range, cursor);
      && |entries| <= |all| && entries == all[..|entries|]
      && CutFrom(all, size, limit, 0) == (|entries|, more))
  }

  lemma CursorLoopStart(
    t: Table, fixed: bool, q: Query, range: TimeRange, cursor: Option<Cursor>, size: MetadataSize,
    limit: Option<nat>)
    ensures CursorLoop(t, t, fixed, q, range, cursor, size, limit, [], 0, cursor, false)
  {
    hide CursorRows, CursorInvariant;
    CursorStart(t, q, range, cursor, size, limit);
    EmptyPass(size, limit);
  }

  /** Between two reads other writers may commit. */
  lemma CursorLoopRead(
    first: Table, t: Table, later: Table, fixed: bool, q: Query, range: TimeRange, cursor: Option<Cursor>,
    size: MetadataSize, limit: Option<nat>, entries: seq<Row>, usedBytes: nat, next: Option<Cursor>, more: bool)
    requires UniqueIds(t) && UniqueIds(later) && t <= later && (fixed ==> t == later)
    requires CursorLoop(first, t, fixed, q, range, cursor, size, limit, entries, usedBytes, next, more)
    ensures CursorLoop(first, later, fixed, q, range, cursor, size, limit, entries, usedBytes, next, more)
    ensures usedBytes == TotalBytes(entries)
    ensures entries == [] ==> usedBytes == 0 && next == cursor && !more
    ensures entries != [] ==> limit != Some(0) && CursorRows(later, q, range, next) != []
  {
    hide CursorRows, CursorInvariant, Strict, WithinBudget;
    GatheredGrows(first, t, later, q, range, cursor, size, limit, entries, next, more);
  }

  lemma CursorLoopStep(
    first: Table, t: Table, fixed: bool, q: Query, range: TimeRange, cursor: Option<Cursor>, size: MetadataSize,
    limit: Option<nat>, entries: seq<Row>, usedBytes: nat, next: Option<Cursor>, more: bool, page: Page,
    grown: seq<Row>, used: nat, cut: PageOutcome)
    requires UniqueIds(t) && limit != Some(0)
    requires CursorLoop(first, t, fixed, q, range, cursor, size, limit, entries, usedBytes, next, more)
    requires PageOf(CursorRows(t, q, range, next), page)
    requires cut == CutPage(entries + page.items, page.hasNextPage, size, limit, |entries|)
    requires grown == (entries + page.items)[..cut.count] && used == TotalBytes(grown)
    ensures grown != []
    ensures if cut.stop.PageDone? && cut.hasNextPage
            then CursorLoop(first, t, fixed, q, range, cursor, size, limit, grown, used,
                            Some(CursorOf(grown[|grown| - 1])), true)
            else CursorLoopResult(first, t, fixed, q, range, cursor, size, limit, grown, cut.hasNextPage)
    ensures cut.stop.PageDone? ==> grown[|grown| - 1] in CursorRows(t, q, range, next)
  {
    hide CursorRows, CursorInvariant, CursorGathered, CutPage, CutFrom, BytesUpTo;
    CursorPageStep(first, t, q, range, cursor, size, limit, entries, next, more, page, grown, cut);
    if fixed {
      CursorStep(t, q, range, cursor, size, limit, entries, usedBytes, next, page, grown, used, cut);
    }
  }

  lemma CursorLoopExit(
    first: Table, t: Table, fixed: bool, q: Query, range: TimeRange, cursor: Option<Cursor>, size: MetadataSize,
    limit: Option<nat>, rows: seq<Row>, resp: CursorResponse)
    requires CursorLoopResult(first, t, fixed, q, range, cursor, size, limit, rows, resp.hasNextPage)
    requires resp.entries == SyncPull.Bodies(rows)
    requires resp.cursor == Some(CursorOf(rows[|rows| - 1])) && resp.highestSyncSeq == Some(rows[|rows| - 1].syncSeq)
    ensures CursorOutcome(first, t, q, range, cursor, size, limit, rows, resp)
    ensures fixed ==> IsCursorCut(CursorRows(t, q, range, cursor), size, limit, cursor, rows, resp)
  {
    hide CursorRows, CutFrom, SyncPull.Bodies, IsCursorCut, Passed, WithinBudget;
    if fixed {
      CursorExit(CursorRows(t, q, range, cursor), size, limit, cursor, rows, resp);
    }
  }

  lemma CursorLoopEmpty(
    first: Table, t: Table, fixed: bool, q: Query, range: TimeRange, cursor: Option<Cursor>, size: MetadataSize,
    limit: Option<nat>, resp: CursorResponse)
    requires CursorLoop(first, t, fixed, q, range, cursor, size, limit, [], 0, cursor, false)
    requires resp == CursorResponse(SyncPull.Bodies([]), cursor, false, None, resp.resolvedStartSeq)
    requires CursorRows(t, q, range, cursor) == [] || limit == Some(0)
    ensures CursorOutcome(first, t, q, range, cursor, size, limit, [], resp)
    ensures fixed ==> IsCursorCut(CursorRows(t, q, range, cursor), size, limit, cursor, [], resp)
  {
    hide CursorRows, SyncPull.Bodies, IsCursorCut, CursorInvariant, Passed;
    CursorEmpty(CursorRows(t, q, range, cursor), size, limit, cursor, resp);
  }

  /**
   * For every limit, 0 included, and whatever the library answers to `first: 0`. Access 0 resolves the
   * start, and every later access reads one page.
   */
  method PullByCursor(
    history: seq<Table>, q: Query, range: TimeRange, cursor: Option<Cursor>, limit: Option<nat>, pageCap: nat,
    atZero: nat, text: Cursor -> string)
    returns (resp: CursorResponse, ghost rows: seq<Row>, ghost seen: nat)
    requires Growing(history) && pageCap >= 1
    ensures resp.resolvedStartSeq == ResolveSyncSeq(history[0], q.community, Millis(range.startTs))
    ensures seen < |history|
    ensures CursorOutcome(SyncPull.At(history, 1), history[seen], q, range, cursor,
                          CursorMetadata(text, resp.resolvedStartSeq), Effective(limit, atZero), rows, resp)
    ensures |history| == 1 ==>
              IsCursorCut(CursorRows(history[0], q, range, cursor), CursorMetadata(text, resp.resolvedStartSeq),
                          Effective(limit, atZero), cursor, rows, resp)
  {
    hide CursorRows, CursorLoop, CursorLoopResult, CursorOutcome, IsCursorCut, CutPage, CursorMetadata, BytesUpTo,
         ResolveSyncSeq, SyncPull.Bodies, UniqueIds, FetchCursorPage, Effective;
    var resolved := ResolveSyncSeq(history[0], q.community, Millis(range.startTs));
    var size := CursorMetadata(text, resolved);
    var entries, usedBytes, hasNextPage, nextCursor, access := [], 0, false, cursor, 1;
    var first := SyncPull.Min(limit.GetOr(pageCap), pageCap);
    ghost var start, final := SyncPull.At(history, 1), history[|history| - 1];
    ghost var cap, fixed := Effective(limit, atZero), |history| == 1;
    seen := SyncPull.Min(1, |history| - 1);
    CursorLoopStart(start, fixed, q, range, cursor, size, cap);
    while true
      invariant seen < |history| && seen <= access
      invariant CursorLoop(start, history[seen], fixed, q, range, cursor, size, cap, entries, usedBytes, nextCursor,
                           hasNextPage)
      decreases |CursorRows(final, q, range, nextCursor)|
    {
      ghost var before := seen;
      seen := SyncPull.Min(access, |history| - 1);
      ghost var t := history[seen];
      CursorLoopRead(start, history[before], t, fixed, q, range, cursor, size, cap, entries, usedBytes, nextCursor,
                     hasNextPage);
      var page := FetchCursorPage(SyncPull.At(history, access), q, range, nextCursor, first, atZero);
      access := access + 1;
      CursorPageSplits(t, q, range, nextCursor, limit, pageCap, atZero);
      if page.items == [] {
        if entries == [] {
          rows := [];
          resp := CursorResponse(SyncPull.Bodies([]), cursor, false, None, resolved);
          CursorLoopEmpty(start, t, fixed, q, range, cursor, size, cap, resp);
          return;
        }
        assert false; // rows are never removed, so the rest a page announced is still there
      }
      var grown, used, more, stop := TakePage(page, entries, usedBytes, size, limit);
      ZeroCutsAfterOne(entries + page.items, page.hasNextPage, size, limit, atZero, |entries|);
      CursorLoopStep(start, t, fixed, q, range, cursor, size, cap, entries, usedBytes, nextCursor, hasNextPage, page,
                     grown, used, PageOutcome(|grown|, more, stop));
      if stop == PageDone {
        CursorRemainderShrinks(t, final, q, range, nextCursor, grown[|grown| - 1]);
      }
      entries, usedBytes, hasNextPage := grown, used, more;
      if stop != PageDone || !page.hasNextPage {
        break;
      }
      nextCursor := Some(CursorOf(entries[|entries| - 1]));
    }
    rows := entries;
    var last := entries[|entries| - 1];
    resp := CursorResponse(SyncPull.Bodies(entries), Some(CursorOf(last)), hasNextPage, Some(last.syncSeq), resolved);
    CursorLoopExit(start, history[seen], fixed, q, range, cursor, size, cap, rows, resp);
  }
}
