/**
 * A client that resumes each legacy pull from the cursor of the one before: over a growing store it gets
 * what was there when it began, each row once, but can miss what commits meanwhile; over a store that
 * does not change it gets everything.
 */
module CursorDraining {
  import opened Wrappers
  import opened Ordering
  import opened LogModel
  import opened PageCut
  import opened TimestampResolution
  import opened CursorPull
  import SyncPull
  import Draining

  /** One pull of a chain: the snapshots of its first and of its last page read, and what it returned. */
  datatype CursorRead = CursorRead(first: Table, seen: Table, rows: seq<Row>, resp: CursorResponse)

  /** Each pull resumes from the cursor of the one before it, on a table that only grew since. */
  ghost predicate CursorChain(
    pulls: seq<CursorRead>, q: Query, range: TimeRange, text: Cursor -> string, limit: Option<nat>,
    cursor: Option<Cursor>)
  {
    pulls != [] ==>
      var p := pulls[0];
      && UniqueIds(p.seen) && p.first <= p.seen && (|pulls| > 1 ==> p.seen <= pulls[1].first)
      && CursorOutcome(p.first, p.seen, q, range, cursor, CursorMetadata(text, p.resp.resolvedStartSeq), limit, p.rows,
                       p.resp)
      && CursorChain(pulls[1..], q, range, text, limit, p.resp.cursor)
  }

  ghost function Gained(pulls: seq<CursorRead>): seq<Row> {
    if pulls == [] then [] else pulls[0].rows + Gained(pulls[1..])
  }

  lemma PrefixIsUnique(t: Table, later: Table)
    requires t <= later && UniqueIds(later)
    ensures UniqueIds(t)
  {
    assert forall i | 0 <= i < |t| :: t[i] == later[i];
  }

  /** Two stretches of reading in a row are one. */
  lemma PassedComposes(
    first: Table, t: Table, resumed: Table, later: Table, q: Query, range: TimeRange, cursor: Option<Cursor>,
    rows: seq<Row>, mid: Option<Cursor>, more: seq<Row>, next: Option<Cursor>)
    requires UniqueIds(t) && UniqueIds(resumed) && UniqueIds(later) && t <= resumed <= later
    requires Passed(first, t, q, range, cursor, rows, mid) && Passed(resumed, later, q, range, mid, more, next)
    ensures Passed(first, later, q, range, cursor, rows + more, next)
  {
    hide CursorRows, CursorOf, CursorLe;
    CursorRowsGrow(t, later, q, range, cursor);
    CursorRowsGrow(t, resumed, q, range, mid);
    forall r | r in more ensures r in CursorRows(later, q, range, cursor) {
      CursorRowsGrow(t, later, q, range, cursor);
      BeyondNext(later, q, range, cursor, rows, mid, r);
    }
    CursorRowsListing(later, q, range, mid);
    var all := rows + more;
    forall i, j | 0 <= i < j < |all| ensures RowLt(all[i], all[j]) {
      if i < |rows| <= j {
        assert all[j] in more;
        BehindNext(rows, mid, i, all[j]);
      }
    }
  }

  /**
   * However writers interleave with a chain of pulls, the client has each row once, in cursor order, and of
   * the rows that were there at its first read only those beyond the cursor it reached are missing.
   */
  lemma {:induction false} ChainsPass(
    pulls: seq<CursorRead>, q: Query, range: TimeRange, text: Cursor -> string, limit: Option<nat>,
    cursor: Option<Cursor>)
    requires pulls != [] && CursorChain(pulls, q, range, text, limit, cursor)
    ensures var last := pulls[|pulls| - 1];
            && pulls[0].first <= last.seen && UniqueIds(last.seen)
            && Passed(pulls[0].first, last.seen, q, range, cursor, Gained(pulls), last.resp.cursor)
            && (!last.resp.hasNextPage && limit != Some(0) ==> CursorRows(last.seen, q, range, last.resp.cursor) == [])
  {
    hide CursorRows, Passed, UniqueIds, WithinBudget, CursorMetadata, SyncPull.Bodies;
    var p, rest := pulls[0], pulls[1..];
    if rest == [] {
      assert Gained(rest) == [] && p.rows + [] == p.rows;
    } else {
      ChainsPass(rest, q, range, text, limit, p.resp.cursor);
      var last := rest[|rest| - 1];
      assert last == pulls[|pulls| - 1];
      PrefixIsUnique(rest[0].first, last.seen);
      PassedComposes(p.first, p.seen, rest[0].first, last.seen, q, range, cursor, p.rows, p.resp.cursor, Gained(rest),
                     last.resp.cursor);
    }
  }

  /** A finished chain has every matching row that was there when it began, and only rows beyond where it began. */
  lemma FinishedChainsMissNothingOld(
    pulls: seq<CursorRead>, q: Query, range: TimeRange, text: Cursor -> string, limit: Option<nat>,
    cursor: Option<Cursor>, r: Row)
    requires pulls != [] && CursorChain(pulls, q, range, text, limit, cursor)
    requires !pulls[|pulls| - 1].resp.hasNextPage && limit != Some(0)
    requires r in pulls[0].first && Matches(q, r) && InRange(range, r)
    ensures r in Gained(pulls) <==> Beyond(cursor, r)
  {
    hide CursorRows, CursorChain, Gained, Matches, InRange, Beyond, UniqueIds;
    ChainsPass(pulls, q, range, text, limit, cursor);
    var last := pulls[|pulls| - 1];
    PrefixIsUnique(pulls[0].first, last.seen);
    CursorRowsListing(pulls[0].first, q, range, cursor);
    CursorRowsListing(last.seen, q, range, cursor);
  }

  /** What a client has from a chain was stored by its last read and lies beyond where it began. */
  lemma GainedIsBeyond(
    pulls: seq<CursorRead>, q: Query, range: TimeRange, text: Cursor -> string, limit: Option<nat>,
    cursor: Option<Cursor>, r: Row)
    requires pulls != [] && CursorChain(pulls, q, range, text, limit, cursor) && r in Gained(pulls)
    ensures r in pulls[|pulls| - 1].seen && Beyond(cursor, r)
  {
    hide CursorRows, CursorChain, Gained, Beyond, UniqueIds;
    ChainsPass(pulls, q, range, text, limit, cursor);
    CursorRowsListing(pulls[|pulls| - 1].seen, q, range, cursor);
  }

  /** A row that commits while a client is at a cursor reaches it if and only if the row lies beyond that cursor. */
  lemma LateRowArrivesIffBeyond(
    before: seq<CursorRead>, tail: seq<CursorRead>, q: Query, range: TimeRange, text: Cursor -> string,
    limit: Option<nat>, cursor: Option<Cursor>, r: Row)
    requires before != [] && CursorChain(before, q, range, text, limit, cursor)
    requires var reached := before[|before| - 1].resp.cursor;
             tail != [] && CursorChain(tail, q, range, text, limit, reached)
    requires !tail[|tail| - 1].resp.hasNextPage && limit != Some(0)
    requires r !in before[|before| - 1].seen && r in tail[0].first && Matches(q, r) && InRange(range, r)
    ensures r in Gained(before) + Gained(tail) <==> Beyond(before[|before| - 1].resp.cursor, r)
  {
    hide CursorChain, Gained, Beyond, Matches, InRange;
    if r in Gained(before) {
      GainedIsBeyond(before, q, range, text, limit, cursor, r);
    }
    FinishedChainsMissNothingOld(tail, q, range, text, limit, before[|before| - 1].resp.cursor, r);
  }

  // A store that does not change.

  lemma CursorCutFacts(
    all: seq<Row>, size: MetadataSize, limit: Option<nat>, cursor: Option<Cursor>, rows: seq<Row>, resp: CursorResponse)
    requires IsCursorCut(all, size, limit, cursor, rows, resp) && limit != Some(0)
    ensures |rows| <= |all| && rows == all[..|rows|] && resp.entries == SyncPull.Bodies(rows)
    ensures (resp.hasNextPage <==> |rows| < |all|) && (rows == [] <==> all == [])
    ensures resp.cursor == if rows == [] then cursor else Some(CursorOf(rows[|rows| - 1]))
  {
    hide SyncPull.Bodies, FitsThroughout, Fits;
    CutIsLongestFit(all, size, limit);
  }

  lemma CursorDrainStep(
    t: Table, q: Query, range: TimeRange, size: MetadataSize, limit: Option<nat>, cursor: Option<Cursor>,
    rows: seq<Row>,
    resp: CursorResponse, done: seq<Row>)
    requires UniqueIds(t) && limit != Some(0)
    requires IsCursorCut(CursorRows(t, q, range, cursor), size, limit, cursor, rows, resp)
    requires CursorRows(t, q, range, None) == done + CursorRows(t, q, range, cursor)
    ensures CursorRows(t, q, range, None) == done + rows + CursorRows(t, q, range, resp.cursor)
    ensures resp.hasNextPage <==> CursorRows(t, q, range, resp.cursor) != []
    ensures resp.hasNextPage ==>
              rows != [] && |CursorRows(t, q, range, resp.cursor)| < |CursorRows(t, q, range, cursor)|
  {
    hide CursorRows, IsCursorCut, CursorOf;
    var all := CursorRows(t, q, range, cursor);
    CursorCutFacts(all, size, limit, cursor, rows, resp);
    if rows != [] {
      ResumeAfterRow(t, q, range, cursor, |rows| - 1);
      SplitAt(all, |rows|);
      assert done + (rows + all[|rows|..]) == done + rows + all[|rows|..];
    }
  }

  method DrainByCursor(
    t: Table, q: Query, range: TimeRange, limit: Option<nat>, pageCap: nat, atZero: nat, text: Cursor -> string)
    returns (bodies: seq<Bytes>)
    requires UniqueIds(t) && pageCap >= 1 && Effective(limit, atZero) != Some(0)
    ensures bodies == SyncPull.Bodies(CursorRows(t, q, range, None))
  {
    hide CursorRows, SyncPull.Bodies, IsCursorCut, Effective;
    bodies := SyncPull.Bodies([]);
    ghost var rows: seq<Row> := [];
    ghost var cap := Effective(limit, atZero);
    var cursor: Option<Cursor> := None;
    while true
      invariant bodies == SyncPull.Bodies(rows)
      invariant CursorRows(t, q, range, None) == rows + CursorRows(t, q, range, cursor)
      decreases |CursorRows(t, q, range, cursor)|
    {
      var resp, page, seen := PullByCursor([t], q, range, cursor, limit, pageCap, atZero, text);
      CursorDrainStep(t, q, range, CursorMetadata(text, resp.resolvedStartSeq), cap, cursor, page, resp, rows);
      CursorCutFacts(CursorRows(t, q, range, cursor), CursorMetadata(text, resp.resolvedStartSeq), cap, cursor, page,
                     resp);
      Draining.BodiesConcatenate(rows, page);
      bodies, rows, cursor := bodies + resp.entries, rows + page, resp.cursor;
      if !resp.hasNextPage {
        break;
      }
    }
  }

  /**
   * Both drains deliver the same rows: the cursor drain, in (received_at, id) order and each row once,
   * is a permutation of the sync-sequence drain from the beginning.
   */
  lemma DrainsArePermutations(t: Table, q: Query, range: TimeRange)
    requires UniqueIds(t) && UniquePositions(t) && Positive(t)
    requires range.endTs == None && q.endSeq == None
    requires IsDate(range.startTs) && forall r | r in t :: range.startTs <= r.receivedAt
    ensures multiset(CursorRows(t, q, range, None)) == multiset(RowsAfter(t, q, 0))
    ensures Strict(RowLt, CursorRows(t, q, range, None)) && Strict(SeqLt, RowsAfter(t, q, 0))
  {
    CursorRowsListing(t, q, range, None);
    RowsAfterListing(t, q, 0);
    var p := (r: Row) => Matches(q, r) && InRange(range, r) && Beyond(None, r);
    var s := (r: Row) => Matches(q, r) && r.syncSeq > 0;
    forall x ensures multiset(Select(p, t))[x] == multiset(Select(s, t))[x] {
      SelectMultiset(p, t, x);
      SelectMultiset(s, t, x);
      assert multiset(t)[x] > 0 ==> x in t;
    }
  }
}
