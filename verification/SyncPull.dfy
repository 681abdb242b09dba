/**
 * The sync-sequence pull: a loop of page reads, each against whatever the table holds when that
 * read runs. `history` lists the committed table at successive database accesses of one pull;
 * writers may commit between any two of them.
 */
module SyncPull {
  import opened Wrappers
  import opened Ordering
  import opened LogModel
  import opened PageCut
  import opened TimestampResolution

  const PAGE_CAP: nat := 200

  datatype PullRequest = PullRequest(
    query: Query,
    startSeq: Option<int>,
    startTs: Option<Timestamp>,
    limit: Option<nat>
  )

  datatype PullResponse = PullResponse(
    entries: seq<Bytes>,
    hasNextPage: bool,
    highestSyncSeq: Option<int>,
    resolvedStartSeq: int
  )

  function Min(a: nat, b: nat): nat { if a <= b then a else b }

  function Bodies(rows: seq<Row>): (b: seq<Bytes>)
    ensures |b| == |rows| && forall i | 0 <= i < |rows| :: b[i] == rows[i].entry
  {
    if rows == [] then [] else Bodies(rows[..|rows| - 1]) + [rows[|rows| - 1].entry]
  }

  /** One storage read: a page of rows above `startSeq`, with one row of lookahead. */
  function FetchPage(t: Table, q: Query, startSeq: int, pageSize: nat): Page {
    var matching := RowsAfter(t, q, startSeq);
    var rows := matching[..Min(pageSize + 1, |matching|)];
    Page(rows[..Min(pageSize, |rows|)], |rows| > pageSize)
  }

  /** Successive snapshots of an append-only log whose commit order is sequence order. */
  ghost predicate History(history: seq<Table>) {
    && history != []
    && (forall i, j | 0 <= i <= j < |history| :: Extends(history[i], history[j]))
    && (forall i | 0 <= i < |history| :: UniquePositions(history[i]))
  }

  function At(history: seq<Table>, access: nat): Table
    requires history != []
  {
    history[Min(access, |history| - 1)]
  }

  /** What one pull returns, against the last snapshot `final` and the snapshot `seen` of its last page read. */
  ghost predicate PullOutcome(
    final: Table, seen: Table, q: Query, limit: Option<nat>, start: int, rows: seq<Row>, resp: PullResponse)
  {
    && resp.entries == Bodies(rows)
    && (rows == [] ==> resp.highestSyncSeq == None && !resp.hasNextPage)
    && (rows != [] ==>
      && resp.highestSyncSeq == Some(rows[|rows| - 1].syncSeq)
      && rows[|rows| - 1].syncSeq > start
      && rows == RowsBetween(final, q, start, rows[|rows| - 1].syncSeq))
    && (resp.hasNextPage ==> RowsAfter(final, q, Reached(start, resp)) != [])
    && (!resp.hasNextPage && limit != Some(0) ==> RowsAfter(seen, q, Reached(start, resp)) == [])
    && (limit.Some? ==> |rows| <= limit.value)
    && WithinBudget(rows, |rows|, SyncMetadataSize, resp.hasNextPage)
  }

  /** Where the client resumes: the highest sequence delivered, or where it already was. */
  function Reached(start: int, resp: PullResponse): int {
    resp.highestSyncSeq.GetOr(start)
  }

  lemma FetchPageSplits(t: Table, q: Query, startSeq: int, pageSize: nat)
    requires UniquePositions(t) && pageSize > 0
    ensures var page := FetchPage(t, q, startSeq, pageSize);
            var all := RowsAfter(t, q, startSeq);
            && |page.items| <= |all| && page.items == all[..|page.items|]
            && (page.hasNextPage <==> |page.items| < |all|)
            && (page.items == [] <==> all == [])
  {
  }

  /** The rows gathered so far are exactly the range the client has passed, as snapshot `t` shows it. */
  ghost predicate Progress(t: Table, q: Query, start: int, rows: seq<Row>, next: int) {
    && rows == RowsBetween(t, q, start, next)
    && (rows == [] ==> next == start)
    && (rows != [] ==>
          rows[|rows| - 1] in t && Matches(q, rows[|rows| - 1]) && next == rows[|rows| - 1].syncSeq > start)
  }

  lemma NothingGathered(t: Table, q: Query, start: int)
    requires UniquePositions(t)
    ensures Progress(t, q, start, [], start)
  {
    RowsBetweenListing(t, q, start, start);
    StrictUnique(SeqLt, RowsBetween(t, q, start, start), []);
  }

  /** Later commits do not disturb what was gathered. */
  lemma ProgressSurvives(t: Table, later: Table, q: Query, start: int, rows: seq<Row>, next: int)
    requires UniquePositions(t) && UniquePositions(later) && Extends(t, later)
    requires Progress(t, q, start, rows, next)
    ensures Progress(later, q, start, rows, next)
  {
    if rows == [] {
      NothingGathered(later, q, start);
    } else {
      RangesAreFinal(t, later, q, start, rows[|rows| - 1]);
    }
  }

  /** Taking the first k of the rows that follow moves the gathered range on. */
  lemma ProgressAdvances(t: Table, q: Query, start: int, rows: seq<Row>, next: int, k: nat)
    requires UniquePositions(t) && Progress(t, q, start, rows, next)
    requires 0 < k <= |RowsAfter(t, q, next)|
    ensures var following := RowsAfter(t, q, next);
            var last := following[k - 1].syncSeq;
            && Progress(t, q, start, rows + following[..k], last)
            && RowsAfter(t, q, last) == following[k..]
  {
    hide RowsAfter, RowsBetween;
    var following := RowsAfter(t, q, next);
    var last := following[k - 1];
    RowsAfterListing(t, q, next);
    assert last in following;
    ListingSplits(t, q, next, k - 1);
    RangesConcatenate(t, q, start, next, last.syncSeq);
  }

  /** Reading on strictly shrinks what the final table still holds beyond the client. */
  lemma RemainderShrinks(t: Table, final: Table, q: Query, next: int, r: Row)
    requires UniquePositions(final) && Extends(t, final)
    requires r in t && Matches(q, r) && r.syncSeq > next
    ensures |RowsAfter(final, q, r.syncSeq)| < |RowsAfter(final, q, next)|
  {
    var all := RowsAfter(final, q, next);
    RowsAfterListing(final, q, next);
    assert r in final;
    var i :| 0 <= i < |all| && all[i] == r;
    ListingSplits(final, q, next, i);
  }

  /** The state of the pull between page reads, as snapshot `t` shows it. */
  ghost predicate Gathered(
    t: Table, q: Query, start: int, size: MetadataSize, limit: Option<nat>, rows: seq<Row>, next: int, more: bool)
  {
    && Progress(t, q, start, rows, next)
    && (if rows == [] then !more else more <==> RowsAfter(t, q, next) != [])
    && (limit.Some? ==> |rows| <= limit.value)
    && WithinBudget(rows, |rows|, size, more)
  }

  lemma RemainderGrows(t: Table, later: Table, q: Query, lo: int)
    requires UniquePositions(t) && UniquePositions(later) && Extends(t, later)
    ensures RowsAfter(t, q, lo) != [] ==> RowsAfter(later, q, lo) != []
  {
    RowsAfterListing(t, q, lo);
    RowsAfterListing(later, q, lo);
    var some := RowsAfter(t, q, lo);
    if some != [] {
      assert some[0] in some;
      assert some[0] in later;
      assert some[0] in RowsAfter(later, q, lo);
    }
  }

  lemma GatheredSurvives(
    t: Table, later: Table, q: Query, start: int, size: MetadataSize, limit: Option<nat>, rows: seq<Row>, next: int,
    more: bool)
    requires UniquePositions(t) && UniquePositions(later) && Extends(t, later)
    requires Gathered(t, q, start, size, limit, rows, next, more) && (rows != [] ==> more)
    ensures Gathered(later, q, start, size, limit, rows, next, more)
  {
    ProgressSurvives(t, later, q, start, rows, next);
    RemainderGrows(t, later, q, next);
  }

  /** One page read and one run of the inner loop. */
  lemma PageStep(
    t: Table, q: Query, start: int, size: MetadataSize, limit: Option<nat>, rows: seq<Row>, next: int, more: bool,
    grown: seq<Row>, k: nat, grownMore: bool)
    requires UniquePositions(t) && Gathered(t, q, start, size, limit, rows, next, more) && (rows != [] ==> more)
    requires k <= |RowsAfter(t, q, next)| && grown == rows + RowsAfter(t, q, next)[..k] && grown != []
    requires grownMore <==> k < |RowsAfter(t, q, next)|
    requires limit.Some? ==> |grown| <= limit.value
    requires WithinBudget(grown, |grown|, size, grownMore)
    ensures var last := grown[|grown| - 1].syncSeq;
            && Gathered(t, q, start, size, limit, grown, last, grownMore)
            && (k > 0 ==> last > next)
            && RowsAfter(t, q, last) == RowsAfter(t, q, next)[k..]
  {
    hide RowsAfter, RowsBetween, BytesUpTo;
    var following := RowsAfter(t, q, next);
    if k > 0 {
      ProgressAdvances(t, q, start, rows, next, k);
      RowsAfterListing(t, q, next);
      assert following[k - 1] in following;
    } else {
      assert grown == rows;
    }
  }

  lemma GatheredIsOutcome(
    t: Table, final: Table, q: Query, start: int, limit: Option<nat>, rows: seq<Row>, next: int, resp: PullResponse)
    requires UniquePositions(t) && UniquePositions(final) && Extends(t, final)
    requires rows != [] && Gathered(t, q, start, SyncMetadataSize, limit, rows, next, resp.hasNextPage)
    requires resp == PullResponse(Bodies(rows), resp.hasNextPage, Some(next), start)
    ensures PullOutcome(final, t, q, limit, start, rows, resp)
  {
    RangesAreFinal(t, final, q, start, rows[|rows| - 1]);
    RemainderGrows(t, final, q, next);
  }

  /** What holds between two page reads; `fixed` says the store is known not to change. */
  ghost predicate LoopInvariant(
    t: Table, fixed: bool, q: Query, start: int, limit: Option<nat>, entries: seq<Row>, usedBytes: nat, next: int,
    more: bool)
  {
    && Gathered(t, q, start, SyncMetadataSize, limit, entries, next, more)
    && usedBytes == TotalBytes(entries) && (entries != [] ==> more)
    && (LimitReached(limit, |entries|) ==> limit == Some(0) && entries == [])
    && (fixed ==>
      && CutSoFar(RowsAfter(t, q, start), SyncMetadataSize, limit, entries)
      && RowsAfter(t, q, start) == entries + RowsAfter(t, q, next))
  }

  /** What holds when the loop ends with rows gathered. */
  ghost predicate LoopResult(
    t: Table, fixed: bool, q: Query, start: int, limit: Option<nat>, entries: seq<Row>, more: bool)
  {
    && entries != [] && limit != Some(0)
    && Gathered(t, q, start, SyncMetadataSize, limit, entries, entries[|entries| - 1].syncSeq, more)
    && (fixed ==>
      var all := RowsAfter(t, q, start);
      && |entries| <= |all| && entries == all[..|entries|]
      && CutFrom(all, SyncMetadataSize, limit, 0) == (|entries|, more))
  }

  lemma LoopStart(t: Table, fixed: bool, q: Query, start: int, limit: Option<nat>)
    requires UniquePositions(t)
    ensures LoopInvariant(t, fixed, q, start, limit, [], 0, start, false)
  {
    hide RowsAfter, RowsBetween, CutFrom, SyncMetadataSize;
    NothingGathered(t, q, start);
    EmptyPass(SyncMetadataSize, limit);
  }

  /** Between two reads other writers may commit. */
  lemma LoopRead(
    t: Table, later: Table, fixed: bool, q: Query, start: int, limit: Option<nat>, entries: seq<Row>, usedBytes: nat,
    next: int, more: bool)
    requires UniquePositions(t) && UniquePositions(later) && Extends(t, later) && (fixed ==> t == later)
    requires LoopInvariant(t, fixed, q, start, limit, entries, usedBytes, next, more)
    ensures LoopInvariant(later, fixed, q, start, limit, entries, usedBytes, next, more)
    ensures usedBytes == TotalBytes(entries)
    ensures entries == [] ==> next == start
    ensures entries != [] ==> limit != Some(0) && RowsAfter(later, q, next) != []
  {
    hide RowsAfter, RowsBetween, CutFrom, SyncMetadataSize, BytesUpTo;
    GatheredSurvives(t, later, q, start, SyncMetadataSize, limit, entries, next, more);
  }

  lemma GatherPage(
    t: Table, q: Query, start: int, limit: Option<nat>, entries: seq<Row>, next: int, more: bool, page: Page,
    grown: seq<Row>, cut: PageOutcome)
    requires UniquePositions(t) && !LimitReached(limit, |entries|) && (entries != [] ==> more)
    requires Gathered(t, q, start, SyncMetadataSize, limit, entries, next, more)
    requires PageOf(RowsAfter(t, q, next), page)
    requires cut == CutPage(entries + page.items, page.hasNextPage, SyncMetadataSize, limit, |entries|)
    requires grown == (entries + page.items)[..cut.count]
    ensures grown != []
    ensures var last := grown[|grown| - 1];
            && Gathered(t, q, start, SyncMetadataSize, limit, grown, last.syncSeq, cut.hasNextPage)
            && last in t && Matches(q, last)
            && (cut.stop.PageDone? ==> last.syncSeq > next && !LimitReached(limit, |grown|))
  {
    hide RowsAfter, RowsBetween, CutPage, SyncMetadataSize, BytesUpTo;
    PageSizes(entries, RowsAfter(t, q, next), page, SyncMetadataSize, limit, cut, grown);
    PageStep(t, q, start, SyncMetadataSize, limit, entries, next, more, grown, |grown| - |entries|, cut.hasNextPage);
  }

  lemma LoopStep(
    t: Table, fixed: bool, q: Query, start: int, limit: Option<nat>, entries: seq<Row>, usedBytes: nat, next: int,
    more: bool, page: Page, grown: seq<Row>, used: nat, cut: PageOutcome)
    requires UniquePositions(t) && limit != Some(0)
    requires LoopInvariant(t, fixed, q, start, limit, entries, usedBytes, next, more)
    requires PageOf(RowsAfter(t, q, next), page)
    requires cut == CutPage(entries + page.items, page.hasNextPage, SyncMetadataSize, limit, |entries|)
    requires grown == (entries + page.items)[..cut.count] && used == TotalBytes(grown)
    ensures grown != []
    ensures if cut.stop.PageDone? && cut.hasNextPage
            then LoopInvariant(t, fixed, q, start, limit, grown, used, grown[|grown| - 1].syncSeq, true)
            else LoopResult(t, fixed, q, start, limit, grown, cut.hasNextPage)
    ensures cut.stop.PageDone? ==> grown[|grown| - 1].syncSeq > next
    ensures grown[|grown| - 1] in t && Matches(q, grown[|grown| - 1])
  {
    hide RowsAfter, CutFrom, CutPage, SyncMetadataSize, BytesUpTo, Gathered;
    GatherPage(t, q, start, limit, entries, next, more, page, grown, cut);
    if fixed {
      var following := RowsAfter(t, q, next);
      var all := RowsAfter(t, q, start);
      CutStep(all, SyncMetadataSize, limit, entries, following, page, cut, grown);
      FixedRemainder(t, q, start, grown);
    }
  }

  /** On a store that does not change, what follows the grown rows is what follows them in the whole list. */
  lemma FixedRemainder(t: Table, q: Query, start: int, grown: seq<Row>)
    requires UniquePositions(t) && 0 < |grown| <= |RowsAfter(t, q, start)|
    requires grown == RowsAfter(t, q, start)[..|grown|]
    ensures RowsAfter(t, q, start) == grown + RowsAfter(t, q, grown[|grown| - 1].syncSeq)
  {
    hide RowsAfter, RowsBetween;
    var all := RowsAfter(t, q, start);
    ListingSplits(t, q, start, |grown| - 1);
    assert all[|grown| - 1] == grown[|grown| - 1];
    assert all == all[..|grown|] + all[|grown|..];
  }

  lemma LoopExit(
    t: Table, final: Table, fixed: bool, q: Query, start: int, limit: Option<nat>, entries: seq<Row>, more: bool,
    resp: PullResponse)
    requires UniquePositions(t) && UniquePositions(final) && Extends(t, final) && (fixed ==> t == final)
    requires LoopResult(t, fixed, q, start, limit, entries, more)
    requires resp == PullResponse(Bodies(entries), more, Some(entries[|entries| - 1].syncSeq), start)
    ensures PullOutcome(final, t, q, limit, start, entries, resp)
    ensures fixed ==> IsCut(final, q, limit, start, entries, more)
  {
    hide RowsAfter, RowsBetween, CutFrom, SyncMetadataSize, BytesUpTo, Bodies;
    GatheredIsOutcome(t, final, q, start, limit, entries, entries[|entries| - 1].syncSeq, resp);
  }

  /** The rows and flag of one greedy pass over everything the store holds beyond `start`. */
  ghost predicate IsCut(t: Table, q: Query, limit: Option<nat>, start: int, rows: seq<Row>, more: bool) {
    var all := RowsAfter(t, q, start);
    var (n, rest) := Cut(all, SyncMetadataSize, limit);
    n <= |all| && rows == all[..n] && more == rest
  }

  lemma LoopEmpty(t: Table, final: Table, q: Query, start: int, limit: Option<nat>, resp: PullResponse)
    requires resp == PullResponse([], false, None, start)
    requires limit != Some(0) ==> RowsAfter(t, q, start) == []
    ensures PullOutcome(final, t, q, limit, start, [], resp)
    ensures IsCut(t, q, limit, start, [], false)
  {
    hide RowsAfter, RowsBetween, SyncMetadataSize;
  }

  /** What a pull returns, in the columns of the rows: only what was asked for, and all of it up to where it stands. */
  lemma OutcomeInColumns(
    final: Table, seen: Table, q: Query, limit: Option<nat>, start: int, rows: seq<Row>, resp: PullResponse)
    requires UniquePositions(final) && UniquePositions(seen) && Extends(seen, final)
    requires PullOutcome(final, seen, q, limit, start, rows, resp)
    ensures forall r | r in rows ::
              && r in final && r.community == q.community && start < r.syncSeq
              && (q.hash.Some? ==> r.id == q.hash.value) && (q.hashedDbId.Some? ==> r.hashedDbId == q.hashedDbId)
              && (q.endSeq.Some? ==> r.syncSeq <= q.endSeq.value)
    ensures forall r | r in seen && r.community == q.community && start < r.syncSeq
                       && (q.hash.Some? ==> r.id == q.hash.value)
                       && (q.hashedDbId.Some? ==> r.hashedDbId == q.hashedDbId)
                       && (q.endSeq.Some? ==> r.syncSeq <= q.endSeq.value) ::
              r in rows || (resp.highestSyncSeq.Some? ==> resp.highestSyncSeq.value < r.syncSeq)
    ensures forall r | r in seen && r.community == q.community && start < r.syncSeq
                       && (q.hash.Some? ==> r.id == q.hash.value)
                       && (q.hashedDbId.Some? ==> r.hashedDbId == q.hashedDbId)
                       && (q.endSeq.Some? ==> r.syncSeq <= q.endSeq.value) ::
              r in rows || resp.hasNextPage || limit == Some(0)
    ensures |rows| >= 2 ==> TotalBytes(rows) + SyncMetadataSize(rows[|rows| - 1], resp.hasNextPage) <= 800_000
  {
    hide RowsAfter, RowsBetween, SyncMetadataSize, BytesUpTo;
    RowsAfterListing(seen, q, Reached(start, resp));
    if rows != [] {
      RowsBetweenListing(final, q, start, rows[|rows| - 1].syncSeq);
    }
    forall r | r in seen ensures r in final {
      assert final == seen + final[|seen|..];
    }
  }

  method PullBySyncSeq(history: seq<Table>, req: PullRequest, pageCap: nat)
    returns (resp: PullResponse, ghost rows: seq<Row>, ghost seen: nat)
    requires History(history) && pageCap >= 1
    ensures resp.resolvedStartSeq ==
            req.startSeq.GetOr(ResolveSyncSeq(history[0], req.query.community, req.startTs.GetOr(Millis(0))))
    ensures seen < |history|
    ensures PullOutcome(history[|history| - 1], history[seen], req.query, req.limit, resp.resolvedStartSeq, rows, resp)
    ensures forall r | r in rows ::
              && r in history[|history| - 1] && r.community == req.query.community && resp.resolvedStartSeq < r.syncSeq
              && (req.query.hash.Some? ==> r.id == req.query.hash.value)
              && (req.query.hashedDbId.Some? ==> r.hashedDbId == req.query.hashedDbId)
              && (req.query.endSeq.Some? ==> r.syncSeq <= req.query.endSeq.value)
    ensures |history| == 1 ==> IsCut(history[0], req.query, req.limit, resp.resolvedStartSeq, rows, resp.hasNextPage)
  {
    hide RowsAfter, LoopInvariant, LoopResult, PullOutcome, IsCut, CutPage, SyncMetadataSize, Bodies, BytesUpTo;
    var q, limit := req.query, req.limit;
    var access := 0;
    var start: int;
    if req.startSeq.Some? {
      start := req.startSeq.value;
    } else {
      start := ResolveSyncSeq(At(history, access), q.community, req.startTs.GetOr(Millis(0)));
      access := access + 1;
    }
    var entries, usedBytes, hasNextPage, nextStartSeq := [], 0, false, start;
    var pageSize := Min(limit.GetOr(pageCap), pageCap);
    ghost var final := history[|history| - 1];
    ghost var fixed := |history| == 1;
    seen := 0;
    LoopStart(history[0], fixed, q, start, limit);
    while true
      invariant seen < |history| && seen <= access
      invariant LoopInvariant(history[seen], fixed, q, start, limit, entries, usedBytes, nextStartSeq, hasNextPage)
      decreases |RowsAfter(final, q, nextStartSeq)|
    {
      ghost var before := seen;
      seen := Min(access, |history| - 1);
      ghost var t := history[seen];
      LoopRead(history[before], t, fixed, q, start, limit, entries, usedBytes, nextStartSeq, hasNextPage);
      var page := FetchPage(At(history, access), q, nextStartSeq, pageSize);
      access := access + 1;
      if pageSize > 0 {
        FetchPageSplits(t, q, nextStartSeq, pageSize);
      }
      if page.items == [] {
        if entries == [] {
          rows := [];
          resp := PullResponse([], false, None, start);
          LoopEmpty(t, final, q, start, limit, resp);
          assert rows == [];
          return;
        }
        assert false; // rows are never removed, so the rest a page announced is still there
      }
      var grown, used, more, stop := TakePage(page, entries, usedBytes, SyncMetadataSize, limit);
      LoopStep(t, fixed, q, start, limit, entries, usedBytes, nextStartSeq, hasNextPage, page, grown, used,
               PageOutcome(|grown|, more, stop));
      if stop == PageDone {
        RemainderShrinks(t, final, q, nextStartSeq, grown[|grown| - 1]);
      }
      entries, usedBytes, hasNextPage := grown, used, more;
      nextStartSeq := entries[|entries| - 1].syncSeq;
      if stop != PageDone || !page.hasNextPage {
        break;
      }
    }
    rows := entries;
    resp := PullResponse(Bodies(entries), hasNextPage, Some(entries[|entries| - 1].syncSeq), start);
    LoopExit(history[seen], final, fixed, q, start, limit, rows, hasNextPage, resp);
    OutcomeInColumns(final, history[seen], q, limit, start, rows, resp);
  }
}
