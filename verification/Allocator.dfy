/**
 * Writing one log entry: a single statement that reads a snapshot of the log, takes a sequence from
 * the community's counter row under that row's lock, and inserts. Writers run concurrently, and an
 * operator may change counter rows between writes.
 */
module Allocator {
  import opened Wrappers
  import opened Ordering
  import opened LogModel

  datatype Payload = Payload(cid: string, communityId: string, hashedDbId: string, entry: Bytes, receivedAt: int)

  datatype Position = Position(receivedAtMs: int, syncSeq: int)

  function RowOf(p: Payload, seqNo: int): Row {
    Row(p.cid, p.communityId, Some(p.hashedDbId), p.entry, p.receivedAt, seqNo)
  }

  /** A row holds what the client sent, column by column. */
  predicate Carries(r: Row, p: Payload) {
    && r.id == p.cid && r.community == p.communityId && r.hashedDbId == Some(p.hashedDbId)
    && r.entry == p.entry && r.receivedAt == p.receivedAt
  }

  function PositionOf(r: Row): Position { Position(r.receivedAt, r.syncSeq) }

  predicate SeqGe(a: Row, b: Row) { a.syncSeq >= b.syncSeq }

  function CommunityRows(log: Table, c: string): seq<Row> {
    Sort(SeqGe, Select((r: Row) => r.community == c, log))
  }

  /** The sequence a snapshot of the log suggests: one above the highest stored, or 1. */
  function Recovered(log: Table, c: string): int {
    var rows := CommunityRows(log, c);
    if rows == [] then 1 else rows[0].syncSeq + 1
  }

  function Greatest(a: int, b: int): int { if a >= b then a else b }

  /** The counter row the upsert leaves behind; it returns that value minus one. */
  function UpsertedCounter(counters: map<string, int>, c: string, recovered: int): int {
    var excluded := recovered + 1;
    if c in counters then Greatest(counters[c], excluded - 1) + 1 else excluded
  }

  function AllocatedSeq(counters: map<string, int>, c: string, recovered: int): int {
    UpsertedCounter(counters, c, recovered) - 1
  }

  predicate HasId(log: Table, cid: string) { exists i | 0 <= i < |log| :: log[i].id == cid }

  predicate HasPosition(log: Table, c: string, seqNo: int) {
    exists i | 0 <= i < |log| :: log[i].community == c && log[i].syncSeq == seqNo
  }

  /** The row stored under a primary key, as a lookup by id answers. */
  function FindById(log: Table, cid: string): (r: Option<Row>)
    ensures r.Some? <==> HasId(log, cid)
    ensures r.Some? ==> r.value in log && r.value.id == cid
  {
    if log == [] then None
    else if log[|log| - 1].id == cid then Some(log[|log| - 1])
    else FindById(log[..|log| - 1], cid)
  }

  function StoredPosition(log: Table, cid: string): Option<Position> {
    match FindById(log, cid)
    case Some(r) => Some(PositionOf(r))
    case None => None
  }

  // Facts about the queries.

  lemma RecoveredIsAboveAll(log: Table, c: string)
    ensures forall r | r in log && r.community == c :: r.syncSeq < Recovered(log, c)
    ensures if exists r :: r in log && r.community == c then HasPosition(log, c, Recovered(log, c) - 1)
            else Recovered(log, c) == 1
  {
    var picked := Select((r: Row) => r.community == c, log);
    var rows := CommunityRows(log, c);
    SortMembers(SeqGe, picked);
    SortSorted(SeqGe, picked);
    if rows != [] {
      assert rows[0] in rows && rows[0] in picked;
      forall r | r in log && r.community == c
        ensures r.syncSeq <= rows[0].syncSeq
      {
        assert r in rows;
        var k :| 0 <= k < |rows| && rows[k] == r;
        assert k > 0 ==> SeqGe(rows[0], rows[k]);
      }
    } else {
      forall r | r in log ensures r.community != c {
        assert r !in rows;
      }
    }
  }

  // The tables as the service sees them.

  class LogTables {
    var log: Table
    var counters: map<string, int>

    constructor ()
      ensures log == [] && counters == map[]
    {
      log, counters := [], map[];
    }

    /**
     * One write with nothing else running. A new id gets a sequence above everything its community
     * has stored, whatever the counter row says; a stored id is answered with its original position.
     */
    method AddLogEntry(p: Payload) returns (stored: Option<Position>)
      modifies this
      ensures HasId(old(log), p.cid) ==>
        && log == old(log) && counters == old(counters)
        && stored == StoredPosition(old(log), p.cid)
      ensures !HasId(old(log), p.cid) ==>
        && stored.Some? && stored.value.receivedAtMs == p.receivedAt
        && stored.value.syncSeq == AllocatedSeq(old(counters), p.communityId, Recovered(old(log), p.communityId))
        && (forall r | r in old(log) && r.community == p.communityId :: r.syncSeq < stored.value.syncSeq)
        && |log| == |old(log)| + 1 && log[..|old(log)|] == old(log)
        && Carries(log[|old(log)|], p) && log[|old(log)|].syncSeq == stored.value.syncSeq
        && counters == old(counters)[p.communityId := stored.value.syncSeq + 1]
    {
      hide Recovered, FindById;
      RecoveredIsAboveAll(log, p.communityId);
      var recovered := Recovered(log, p.communityId);
      var next := UpsertedCounter(counters, p.communityId, recovered);
      if HasId(log, p.cid) {
        return StoredPosition(log, p.cid);
      }
      assert !HasPosition(log, p.communityId, next - 1) by {
        assert forall i | 0 <= i < |log| :: log[i] in log;
      }
      counters := counters[p.communityId := next];
      log := log + [RowOf(p, next - 1)];
      stored := Some(Position(p.receivedAt, next - 1));
    }

    method ClearRepository()
      modifies this
      ensures log == [] && counters == map[]
    {
      log := [];
      counters := map[];
    }
  }
}
