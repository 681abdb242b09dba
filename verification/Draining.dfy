/**
 * A client that resumes each pull where the previous one ended: over a growing store it never misses
 * or repeats a row, over a fixed store it ends with everything, and so does the one-shot read.
 */
module Draining {
  import opened Wrappers
  import opened LogModel
  import opened TimestampResolution
  import opened SyncPull

  /** One pull of a chain: the snapshot of its last page read, the last snapshot it knew of, and what it returned. */
  datatype Pull = Pull(final: Table, seen: Table, rows: seq<Row>, resp: PullResponse)

  /** Each pull starts where the one before it left the client. */
  ghost predicate Chain(pulls: seq<Pull>, q: Query, limit: Option<nat>, start: int) {
    pulls != [] ==>
      && PullOutcome(pulls[0].final, pulls[0].seen, q, limit, start, pulls[0].rows, pulls[0].resp)
      && Chain(pulls[1..], q, limit, Reached(start, pulls[0].resp))
  }

  ghost function Delivered(pulls: seq<Pull>): seq<Row> {
    if pulls == [] then [] else pulls[0].rows + Delivered(pulls[1..])
  }

  ghost function Position(pulls: seq<Pull>, start: int): int {
    if pulls == [] then start else Position(pulls[1..], Reached(start, pulls[0].resp))
  }

  lemma PullIsExactLater(t: Table, p: Pull, q: Query, limit: Option<nat>, start: int)
    requires PullOutcome(p.final, p.seen, q, limit, start, p.rows, p.resp)
    requires UniquePositions(p.final) && UniquePositions(t) && Extends(p.final, t)
    ensures start <= Reached(start, p.resp)
    ensures p.rows == RowsBetween(t, q, start, Reached(start, p.resp))
  {
    hide RowsBetween, RowsAfter, Extends;
    if p.rows == [] {
      NothingGathered(t, q, start);
    } else {
      RowsBetweenListing(p.final, q, start, p.rows[|p.rows| - 1].syncSeq);
      assert p.rows[|p.rows| - 1] in p.rows;
      RangesAreFinal(p.final, t, q, start, p.rows[|p.rows| - 1]);
    }
  }

  /**
   * However writers interleave with a chain of pulls, what the client has is exactly the rows of the
   * final store between where it began and where it stands, ascending, each once.
   */
  lemma {:induction false} ChainsDeliverExactly(t: Table, pulls: seq<Pull>, q: Query, limit: Option<nat>, start: int)
    requires Chain(pulls, q, limit, start) && UniquePositions(t)
    requires forall p | p in pulls :: UniquePositions(p.final) && Extends(p.final, t)
    ensures start <= Position(pulls, start)
    ensures Delivered(pulls) == RowsBetween(t, q, start, Position(pulls, start))
  {
    hide RowsBetween, RowsAfter, Extends, UniquePositions, PullOutcome;
    if pulls == [] {
      NothingGathered(t, q, start);
    } else {
      var next := Reached(start, pulls[0].resp);
      assert pulls[0] in pulls;
      PullIsExactLater(t, pulls[0], q, limit, start);
      assert forall p | p in pulls[1..] :: p in pulls;
      ChainsDeliverExactly(t, pulls[1..], q, limit, next);
      RangesConcatenate(t, q, start, next, Position(pulls, start));
    }
  }

  /** The last pull of a chain, and where it started. */
  lemma {:induction false} LastOfChain(pulls: seq<Pull>, q: Query, limit: Option<nat>, start: int) returns (from: int)
    requires pulls != [] && Chain(pulls, q, limit, start)
    ensures var p := pulls[|pulls| - 1];
            && PullOutcome(p.final, p.seen, q, limit, from, p.rows, p.resp)
            && Position(pulls, start) == Reached(from, p.resp)
  {
    hide PullOutcome;
    var next := Reached(start, pulls[0].resp);
    if |pulls| == 1 {
      from := start;
      assert Position(pulls[1..], next) == next;
    } else {
      from := LastOfChain(pulls[1..], q, limit, next);
    }
  }

  lemma {:induction false} ChainPush(pulls: seq<Pull>, q: Query, limit: Option<nat>, start: int, p: Pull)
    requires Chain(pulls, q, limit, start)
    requires PullOutcome(p.final, p.seen, q, limit, Position(pulls, start), p.rows, p.resp)
    ensures Chain(pulls + [p], q, limit, start)
    ensures Position(pulls + [p], start) == Reached(Position(pulls, start), p.resp)
  {
    hide PullOutcome, Reached;
    if pulls == [] {
      assert [p][1..] == [];
      assert pulls + [p] == [p];
    } else {
      assert (pulls + [p])[1..] == pulls[1..] + [p];
      ChainPush(pulls[1..], q, limit, Reached(start, pulls[0].resp), p);
    }
  }

  /** When a pull says there is no next page, nothing its last read could see is missing. */
  lemma FinishedChainsMissNothing(t: Table, pulls: seq<Pull>, q: Query, limit: Option<nat>, start: int, r: Row)
    requires pulls != [] && Chain(pulls, q, limit, start) && UniquePositions(t) && limit != Some(0)
    requires forall p | p in pulls :: UniquePositions(p.final) && Extends(p.final, t)
    requires var last := pulls[|pulls| - 1];
             && !last.resp.hasNextPage && UniquePositions(last.seen) && Extends(last.seen, t)
             && r in last.seen && Matches(q, r) && r.syncSeq > start
    ensures r in Delivered(pulls)
  {
    hide RowsBetween, RowsAfter, UniquePositions, PullOutcome, Chain, Delivered, Position;
    var last := pulls[|pulls| - 1];
    var at := Position(pulls, start);
    ChainsDeliverExactly(t, pulls, q, limit, start);
    var from := LastOfChain(pulls, q, limit, start);
    NothingBeyond(last, q, limit, from);
    RowsAfterListing(last.seen, q, at);
    RowsBetweenListing(t, q, start, at);
    assert r in t;
    assert r !in RowsAfter(last.seen, q, at);
  }

  lemma NothingBeyond(p: Pull, q: Query, limit: Option<nat>, start: int)
    requires PullOutcome(p.final, p.seen, q, limit, start, p.rows, p.resp) && limit != Some(0) && !p.resp.hasNextPage
    ensures RowsAfter(p.seen, q, Reached(start, p.resp)) == []
  {
  }

  function Concat(responses: seq<PullResponse>): seq<Bytes> {
    if responses == [] then [] else Concat(responses[..|responses| - 1]) + responses[|responses| - 1].entries
  }

  lemma {:induction false} BodiesConcatenate(a: seq<Row>, b: seq<Row>)
    ensures Bodies(a + b) == Bodies(a) + Bodies(b)
  {
    if b == [] {
      assert a + b == a;
    } else {
      var last := |b| - 1;
      assert (a + b)[..|a + b| - 1] == a + b[..last];
      BodiesConcatenate(a, b[..last]);
    }
  }

  lemma ConcatPush(responses: seq<PullResponse>, r: PullResponse)
    ensures Concat(responses + [r]) == Concat(responses) + r.entries
  {
    assert (responses + [r])[..|responses|] == responses;
  }

  /** What one pull of an unchanging store leaves for the next. */
  lemma DrainStep(
    t: Table, q: Query, limit: Option<nat>, start: int, at: int, rows: seq<Row>, resp: PullResponse, done: seq<Bytes>)
    requires UniquePositions(t) && limit != Some(0) && start <= at
    requires PullOutcome(t, t, q, limit, at, rows, resp)
    requires done == Bodies(RowsBetween(t, q, start, at))
    ensures start <= Reached(at, resp)
    ensures done + resp.entries == Bodies(RowsBetween(t, q, start, Reached(at, resp)))
    ensures resp.hasNextPage <==> RowsAfter(t, q, Reached(at, resp)) != []
    ensures !resp.hasNextPage ==> done + resp.entries == Bodies(RowsAfter(t, q, start))
    ensures resp.hasNextPage ==>
              resp.entries != [] && |RowsAfter(t, q, Reached(at, resp))| < |RowsAfter(t, q, at)|
  {
    hide RowsBetween, RowsAfter, Bodies, Extends, UniquePositions;
    var reached := Reached(at, resp);
    ExtendsReflexive(t);
    PullIsExactLater(t, Pull(t, t, rows, resp), q, limit, at);
    RangesConcatenate(t, q, start, at, reached);
    BodiesConcatenate(RowsBetween(t, q, start, at), rows);
    RangeThenRest(t, q, start, reached);
    RangeThenRest(t, q, at, reached);
    if RowsAfter(t, q, reached) == [] {
      assert RowsBetween(t, q, start, reached) + [] == RowsBetween(t, q, start, reached);
    }
  }

  /**
   * Repeating the pull from the previous highest sequence until there is no next page. The rows that
   * remain bound the number of pulls, and the pulls form a chain.
   */
  method Drain(t: Table, q: Query, limit: Option<nat>, start: int, pageCap: nat)
    returns (responses: seq<PullResponse>, ghost pulls: seq<Pull>)
    requires UniquePositions(t) && limit != Some(0) && pageCap >= 1
    ensures Concat(responses) == Bodies(RowsAfter(t, q, start))
    ensures responses != [] && !responses[|responses| - 1].hasNextPage
    ensures forall i | 0 <= i < |responses| - 1 :: responses[i].hasNextPage && responses[i].entries != []
    ensures limit.Some? ==> forall i | 0 <= i < |responses| :: |responses[i].entries| <= limit.value
    ensures Chain(pulls, q, limit, start) && |pulls| == |responses|
    ensures forall i | 0 <= i < |pulls| :: pulls[i].resp == responses[i] && pulls[i].final == t && pulls[i].seen == t
  {
    hide RowsBetween, RowsAfter, Bodies, Extends, UniquePositions, PullOutcome, IsCut, ResolveSyncSeq, Concat, Reached,
         Chain, Position;
    responses, pulls := [], [];
    EmptyChain(q, limit, start);
    var at := start;
    NothingGathered(t, q, start);
    ExtendsReflexive(t);
    EmptyBodies();
    while true
      invariant start <= at && Concat(responses) == Bodies(RowsBetween(t, q, start, at))
      invariant forall i | 0 <= i < |responses| :: responses[i].hasNextPage && responses[i].entries != []
      invariant limit.Some? ==> forall i | 0 <= i < |responses| :: |responses[i].entries| <= limit.value
      invariant Chain(pulls, q, limit, start) && Position(pulls, start) == at && |pulls| == |responses|
      invariant forall i | 0 <= i < |pulls| ::
                  pulls[i].resp == responses[i] && pulls[i].final == t && pulls[i].seen == t
      decreases |RowsAfter(t, q, at)|
    {
      var resp, rows, seen := PullBySyncSeq([t], PullRequest(q, Some(at), None, limit), pageCap);
      OutcomeCounts(t, q, limit, at, rows, resp);
      DrainStep(t, q, limit, start, at, rows, resp, Concat(responses));
      ConcatPush(responses, resp);
      ChainPush(pulls, q, limit, start, Pull(t, t, rows, resp));
      responses, pulls := responses + [resp], pulls + [Pull(t, t, rows, resp)];
      at := Reached(at, resp);
      if !resp.hasNextPage {
        break;
      }
    }
  }

  lemma EmptyChain(q: Query, limit: Option<nat>, start: int)
    ensures Chain([], q, limit, start) && Position([], start) == start
  {
  }

  lemma EmptyBodies()
    ensures Bodies([]) == [] && Concat([]) == []
  {
  }

  lemma OutcomeCounts(t: Table, q: Query, limit: Option<nat>, start: int, rows: seq<Row>, resp: PullResponse)
    requires PullOutcome(t, t, q, limit, start, rows, resp)
    ensures limit.Some? ==> |resp.entries| <= limit.value
  {
  }

  // The one-shot read.

  datatype NseError = TeamMismatch

  datatype NseResponse = NseResponse(entries: seq<Row>, resolvedAfterSeq: int)

  function Unfiltered(community: string): Query { Query(community, None, None, None) }

  /** `afterSeq` and `since` are the query parameters after number parsing; None where that gave NaN. */
  function GetLogEntries(t: Table, teamId: string, tokenTeamId: string, afterSeq: Option<int>, since: Option<int>)
    : Result<NseResponse, NseError>
  {
    if tokenTeamId != teamId then Failure(TeamMismatch)
    else
      var after := if afterSeq.Some? then afterSeq.value
                   else ResolveSyncSeq(t, teamId, Millis(since.GetOr(0)));
      Success(NseResponse(RowsAfter(t, Unfiltered(teamId), after), after))
  }

  /** A token reads the log of its own team only. */
  lemma OtherTeamsAreRefused(t: Table, teamId: string, tokenTeamId: string, afterSeq: Option<int>, since: Option<int>)
    ensures GetLogEntries(t, teamId, tokenTeamId, afterSeq, since) == Failure(TeamMismatch) <==> tokenTeamId != teamId
  {
  }

  /** The one-shot read is the whole of what chained unfiltered pulls from the same start deliver. */
  method OneShotEqualsDrain(
    t: Table, teamId: string, afterSeq: Option<int>, since: Option<int>, limit: Option<nat>, pageCap: nat)
    returns (oneShot: NseResponse, responses: seq<PullResponse>)
    requires UniquePositions(t) && limit != Some(0) && pageCap >= 1
    ensures GetLogEntries(t, teamId, teamId, afterSeq, since) == Success(oneShot)
    ensures oneShot.resolvedAfterSeq == afterSeq.GetOr(ResolveSyncSeq(t, teamId, Millis(since.GetOr(0))))
    ensures forall r :: r in oneShot.entries <==>
              r in t && r.community == teamId && oneShot.resolvedAfterSeq < r.syncSeq
    ensures Bodies(oneShot.entries) == Concat(responses)
    ensures responses != [] && !responses[|responses| - 1].hasNextPage
  {
    oneShot := GetLogEntries(t, teamId, teamId, afterSeq, since).value;
    UnfilteredIsCommunity(t, teamId, oneShot.resolvedAfterSeq);
    ghost var pulls;
    responses, pulls := Drain(t, Unfiltered(teamId), limit, oneShot.resolvedAfterSeq, pageCap);
  }
}
