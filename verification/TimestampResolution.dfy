/** Turning a client's wall-clock position into a sync-sequence position. */
module TimestampResolution {
  import opened Ordering
  import opened LogModel

  /** A JS number used as a timestamp: an integral millisecond count, or NaN and the infinities. */
  datatype Timestamp = Millis(ms: int) | NotFinite

  /** Milliseconds from 1970 to the last instant a date can name; beyond it a time has no ISO text. */
  const MAX_DATE_MS: int := 8_640_000_000_000_000

  predicate IsDate(ms: int) { -MAX_DATE_MS <= ms <= MAX_DATE_MS }

  predicate LatestFirst(a: Row, b: Row) {
    a.receivedAt > b.receivedAt || (a.receivedAt == b.receivedAt && a.syncSeq >= b.syncSeq)
  }

  /** A time without ISO text is compared as null, which no row satisfies. */
  function ReceivedBy(t: Table, community: string, ms: int): seq<Row> {
    if IsDate(ms) then Sort(LatestFirst, Select((r: Row) => r.community == community && r.receivedAt <= ms, t))
    else []
  }

  function ResolveSyncSeq(t: Table, community: string, ts: Timestamp): int {
    if ts.NotFinite? || ts.ms <= 0 then 0
    else
      var found := ReceivedBy(t, community, ts.ms);
      if found == [] then 0 else found[0].syncSeq
  }

  /** What every stored row satisfies: sequences start at 1, and clocks are past 1970 and tell dates. */
  ghost predicate Positive(t: Table) {
    forall r | r in t :: r.syncSeq > 0 && 0 < r.receivedAt <= MAX_DATE_MS
  }

  /** Receipt times follow sequence order within the community. */
  ghost predicate ReceivedInOrder(t: Table, community: string) {
    forall r, s | r in t && s in t && r.community == s.community == community ::
      r.syncSeq < s.syncSeq ==> r.receivedAt <= s.receivedAt
  }

  /** Resuming after `ts` delivers exactly what was received after `ts`. */
  ghost predicate ResolvesExactly(t: Table, community: string, ts: Timestamp)
    requires ts.Millis?
  {
    forall r | r in t && r.community == community ::
      r.syncSeq > ResolveSyncSeq(t, community, ts) <==> r.receivedAt > ts.ms
  }

  ghost predicate IsLatestBy(t: Table, community: string, ms: int, r: Row) {
    && r in t && r.community == community && r.receivedAt <= ms
    && forall s :: s in t && s.community == community && s.receivedAt <= ms ==> LatestFirst(r, s)
  }

  lemma LatestFirstIsTotal()
    ensures TotalPreorder(LatestFirst)
  {
  }

  lemma ResolvedRow(t: Table, community: string, ms: int)
    requires 0 < ms <= MAX_DATE_MS
    ensures var seqNo := ResolveSyncSeq(t, community, Millis(ms));
            if exists r :: r in t && r.community == community && r.receivedAt <= ms
            then exists r :: IsLatestBy(t, community, ms, r) && r.syncSeq == seqNo
            else seqNo == 0
  {
    LatestFirstIsTotal();
    hide LatestFirst;
    var picked := Select((r: Row) => r.community == community && r.receivedAt <= ms, t);
    var found := ReceivedBy(t, community, ms);
    SortMembers(LatestFirst, picked);
    SortSorted(LatestFirst, picked);
    if found != [] {
      assert found[0] in found && found[0] in picked;
      forall s | s in t && s.community == community && s.receivedAt <= ms
        ensures LatestFirst(found[0], s)
      {
        assert s in found;
        var k :| 0 <= k < |found| && found[k] == s;
        assert LatestFirst(found[0], found[k]);
      }
    } else {
      forall r | r in t && r.community == community
        ensures r.receivedAt > ms
      {
        assert r !in found;
      }
    }
  }

  lemma ResolvesToStart(t: Table, community: string, ts: Timestamp)
    requires ts.Millis? ==> ts.ms <= 0 || ts.ms > MAX_DATE_MS
    ensures ResolveSyncSeq(t, community, ts) == 0
  {
  }

  /** A time past the last date, such as the largest safe integer, resolves exactly only where nothing is stored. */
  lemma PastDatesResolveToStart(t: Table, community: string, ts: Timestamp)
    requires ts.Millis? && ts.ms > MAX_DATE_MS && Positive(t)
    ensures ResolveSyncSeq(t, community, ts) == 0
    ensures ResolvesExactly(t, community, ts) <==> forall r | r in t :: r.community != community
  {
    hide ResolveSyncSeq;
    ResolvesToStart(t, community, ts);
  }

  lemma OrderedResolvesExactly(t: Table, community: string, ts: Timestamp)
    requires ts.Millis? && ts.ms <= MAX_DATE_MS && Positive(t) && ReceivedInOrder(t, community)
    requires UniquePositions(t)
    ensures ResolvesExactly(t, community, ts)
  {
    hide ResolveSyncSeq;
    if ts.ms <= 0 {
      ResolvesToStart(t, community, ts);
    } else {
      ResolvedRow(t, community, ts.ms);
      var seqNo := ResolveSyncSeq(t, community, ts);
      forall r | r in t && r.community == community
        ensures r.syncSeq > seqNo <==> r.receivedAt > ts.ms
      {
        if r.receivedAt <= ts.ms {
          var top :| IsLatestBy(t, community, ts.ms, top) && top.syncSeq == seqNo;
          assert LatestFirst(top, r);
        } else if exists s :: s in t && s.community == community && s.receivedAt <= ts.ms {
          var top :| IsLatestBy(t, community, ts.ms, top) && top.syncSeq == seqNo;
          assert top in t && r in t;
        }
      }
    }
  }

  /** Every time up to the last date resolves exactly precisely when receipt times never run against sequence order. */
  lemma ResolutionIsExactIffOrdered(t: Table, community: string)
    requires Positive(t) && UniquePositions(t)
    ensures ReceivedInOrder(t, community) <==>
              forall ts: Timestamp | ts.Millis? && ts.ms <= MAX_DATE_MS :: ResolvesExactly(t, community, ts)
  {
    hide ResolveSyncSeq;
    if ReceivedInOrder(t, community) {
      forall ts: Timestamp | ts.Millis? && ts.ms <= MAX_DATE_MS
        ensures ResolvesExactly(t, community, ts)
      {
        OrderedResolvesExactly(t, community, ts);
      }
    } else {
      var r, s :| r in t && s in t && r.community == s.community == community
                  && r.syncSeq < s.syncSeq && r.receivedAt > s.receivedAt;
      ResolvedRow(t, community, s.receivedAt);
      var top :| IsLatestBy(t, community, s.receivedAt, top)
                 && top.syncSeq == ResolveSyncSeq(t, community, Millis(s.receivedAt));
      assert LatestFirst(top, s);
      assert !ResolvesExactly(t, community, Millis(s.receivedAt));
    }
  }
}
