/**
 * The per-community log table and the keyset queries the service runs on it.
 * A table is a sequence of rows in commit order; a query sorts what it selects.
 */
module LogModel {
  import opened Wrappers
  import opened Ordering

  datatype Row = Row(
    id: string,
    community: string,
    hashedDbId: Option<string>,
    entry: Bytes,
    receivedAt: int,
    syncSeq: int
  )

  type Table = seq<Row>

  /** The filters that both paged readers share. */
  datatype Query = Query(
    community: string,
    hashedDbId: Option<string>,
    hash: Option<string>,
    endSeq: Option<int>
  )

  predicate Matches(q: Query, r: Row) {
    && (q.hash.Some? ==> r.id == q.hash.value)
    && r.community == q.community
    && (q.hashedDbId.Some? ==> r.hashedDbId == q.hashedDbId)
    && (q.endSeq.Some? ==> r.syncSeq <= q.endSeq.value)
  }

  predicate SeqLe(a: Row, b: Row) { a.syncSeq <= b.syncSeq }

  predicate SeqLt(a: Row, b: Row) { a.syncSeq < b.syncSeq }

  /** The unique index on (community, sync_seq). */
  ghost predicate UniquePositions(t: Table) {
    forall i, j | 0 <= i < j < |t| :: t[i].community == t[j].community ==> t[i].syncSeq != t[j].syncSeq
  }

  /** The primary key. */
  ghost predicate UniqueIds(t: Table) {
    forall i, j | 0 <= i < j < |t| :: t[i].id != t[j].id
  }

  /** All matching rows with a sequence above `lo`, ascending. */
  function RowsAfter(t: Table, q: Query, lo: int): seq<Row> {
    Sort(SeqLe, Select((r: Row) => Matches(q, r) && r.syncSeq > lo, t))
  }

  /** All matching rows with a sequence in (lo, hi], ascending. */
  function RowsBetween(t: Table, q: Query, lo: int, hi: int): seq<Row> {
    Sort(SeqLe, Select((r: Row) => Matches(q, r) && lo < r.syncSeq <= hi, t))
  }

  /** Every row of `later` that `earlier` lacks has a sequence above all earlier ones of its community. */
  ghost predicate Extends(earlier: Table, later: Table) {
    && earlier <= later
    && forall r, s | r in earlier && s in later[|earlier|..] && r.community == s.community :: r.syncSeq < s.syncSeq
  }

  lemma SelectionIsStrict(t: Table, p: Row -> bool, community: string)
    requires UniquePositions(t)
    requires forall r :: p(r) ==> r.community == community
    ensures Strict(SeqLt, Sort(SeqLe, Select(p, t)))
    ensures forall r :: r in Sort(SeqLe, Select(p, t)) <==> r in t && p(r)
  {
    var s := Sort(SeqLe, Select(p, t));
    SortSorted(SeqLe, Select(p, t));
    SortMembers(SeqLe, Select(p, t));
    SortSelectNoRepeats(SeqLe, p, t);
    forall i, j | 0 <= i < j < |s|
      ensures SeqLt(s[i], s[j])
    {
      assert s[i] in t && s[j] in t && s[i] != s[j];
      assert SeqLe(s[i], s[j]);
    }
  }

  lemma RowsAfterListing(t: Table, q: Query, lo: int)
    requires UniquePositions(t)
    ensures Strict(SeqLt, RowsAfter(t, q, lo))
    ensures forall r :: r in RowsAfter(t, q, lo) <==> r in t && Matches(q, r) && r.syncSeq > lo
  {
    SelectionIsStrict(t, (r: Row) => Matches(q, r) && r.syncSeq > lo, q.community);
  }

  lemma RowsBetweenListing(t: Table, q: Query, lo: int, hi: int)
    requires UniquePositions(t)
    ensures Strict(SeqLt, RowsBetween(t, q, lo, hi))
    ensures forall r :: r in RowsBetween(t, q, lo, hi) <==> r in t && Matches(q, r) && lo < r.syncSeq <= hi
  {
    SelectionIsStrict(t, (r: Row) => Matches(q, r) && lo < r.syncSeq <= hi, q.community);
  }

  lemma StrictCut(s: seq<Row>, i: nat)
    requires Strict(SeqLt, s) && i < |s|
    ensures Strict(SeqLt, s[..i + 1]) && Strict(SeqLt, s[i + 1..])
    ensures forall r :: r in s[..i + 1] <==> r in s && r.syncSeq <= s[i].syncSeq
    ensures forall r :: r in s[i + 1..] <==> r in s && r.syncSeq > s[i].syncSeq
  {
    assert s == s[..i + 1] + s[i + 1..];
    forall r | r in s[..i + 1] ensures r.syncSeq <= s[i].syncSeq {
      var k :| 0 <= k <= i && s[k] == r;
      assert k < i ==> SeqLt(s[k], s[i]);
    }
    forall r | r in s[i + 1..] ensures r.syncSeq > s[i].syncSeq {
      var k :| i < k < |s| && s[k] == r;
      assert SeqLt(s[i], s[k]);
    }
  }

  /** Cutting an ascending listing after position i cuts the sequence range at that row. */
  lemma ListingSplits(t: Table, q: Query, lo: int, i: nat)
    requires UniquePositions(t)
    requires i < |RowsAfter(t, q, lo)|
    ensures var all := RowsAfter(t, q, lo);
            && all[..i + 1] == RowsBetween(t, q, lo, all[i].syncSeq)
            && all[i + 1..] == RowsAfter(t, q, all[i].syncSeq)
  {
    var all := RowsAfter(t, q, lo);
    var cut := all[i].syncSeq;
    RowsAfterListing(t, q, lo);
    RowsBetweenListing(t, q, lo, cut);
    RowsAfterListing(t, q, cut);
    StrictCut(all, i);
    StrictUnique(SeqLt, all[..i + 1], RowsBetween(t, q, lo, cut));
    StrictUnique(SeqLt, all[i + 1..], RowsAfter(t, q, cut));
  }

  lemma RangesConcatenate(t: Table, q: Query, lo: int, mid: int, hi: int)
    requires UniquePositions(t) && lo <= mid <= hi
    ensures RowsBetween(t, q, lo, mid) + RowsBetween(t, q, mid, hi) == RowsBetween(t, q, lo, hi)
  {
    RowsBetweenListing(t, q, lo, mid);
    RowsBetweenListing(t, q, mid, hi);
    RowsBetweenListing(t, q, lo, hi);
    var both := RowsBetween(t, q, lo, mid) + RowsBetween(t, q, mid, hi);
    forall i, j | 0 <= i < j < |both|
      ensures SeqLt(both[i], both[j])
    {
      assert i < |RowsBetween(t, q, lo, mid)| ==> both[i] in RowsBetween(t, q, lo, mid);
      assert j >= |RowsBetween(t, q, lo, mid)| ==> both[j] in RowsBetween(t, q, mid, hi);
    }
    StrictUnique(SeqLt, both, RowsBetween(t, q, lo, hi));
  }

  lemma RangeThenRest(t: Table, q: Query, lo: int, mid: int)
    requires UniquePositions(t) && lo <= mid
    ensures RowsBetween(t, q, lo, mid) + RowsAfter(t, q, mid) == RowsAfter(t, q, lo)
  {
    RowsBetweenListing(t, q, lo, mid);
    RowsAfterListing(t, q, mid);
    RowsAfterListing(t, q, lo);
    var both := RowsBetween(t, q, lo, mid) + RowsAfter(t, q, mid);
    forall i, j | 0 <= i < j < |both|
      ensures SeqLt(both[i], both[j])
    {
      assert i < |RowsBetween(t, q, lo, mid)| ==> both[i] in RowsBetween(t, q, lo, mid);
      assert j >= |RowsBetween(t, q, lo, mid)| ==> both[j] in RowsAfter(t, q, mid);
    }
    StrictUnique(SeqLt, both, RowsAfter(t, q, lo));
  }

  /** No lower sequence becomes visible later: a range that ends at a stored row never changes. */
  lemma RangesAreFinal(earlier: Table, later: Table, q: Query, lo: int, last: Row)
    requires Extends(earlier, later) && UniquePositions(later)
    requires last in earlier && last.community == q.community
    ensures RowsBetween(earlier, q, lo, last.syncSeq) == RowsBetween(later, q, lo, last.syncSeq)
  {
    assert earlier == later[..|earlier|];
    assert later == earlier + later[|earlier|..];
    assert UniquePositions(earlier) by {
      assert forall i | 0 <= i < |earlier| :: earlier[i] == later[i];
    }
    RowsBetweenListing(earlier, q, lo, last.syncSeq);
    RowsBetweenListing(later, q, lo, last.syncSeq);
    StrictUnique(SeqLt, RowsBetween(earlier, q, lo, last.syncSeq), RowsBetween(later, q, lo, last.syncSeq));
  }

  lemma ExtendsReflexive(a: Table)
    ensures Extends(a, a)
  {
  }

  lemma ExtendsTransitive(a: Table, b: Table, c: Table)
    requires Extends(a, b) && Extends(b, c)
    ensures Extends(a, c)
  {
    assert b == a + b[|a|..];
    assert c == b + c[|b|..];
    assert c[|a|..] == b[|a|..] + c[|b|..];
  }

  // What each filter does.

  /** An upper bound cuts the listing off there. */
  lemma EndBoundIsARange(t: Table, q: Query, lo: int, e: int)
    requires UniquePositions(t)
    ensures RowsAfter(t, q.(endSeq := Some(e)), lo) == RowsBetween(t, q.(endSeq := None), lo, e)
  {
    RowsAfterListing(t, q.(endSeq := Some(e)), lo);
    RowsBetweenListing(t, q.(endSeq := None), lo, e);
    StrictUnique(SeqLt, RowsAfter(t, q.(endSeq := Some(e)), lo), RowsBetween(t, q.(endSeq := None), lo, e));
  }

  lemma {:induction false} SelectionStaysStrict(p: Row -> bool, s: seq<Row>)
    requires Strict(SeqLt, s)
    ensures Strict(SeqLt, Select(p, s))
  {
    if s != [] {
      SelectionStaysStrict(p, s[1..]);
      var rest := Select(p, s[1..]);
      forall r | r in rest ensures SeqLt(s[0], r) {
        var k :| 0 <= k < |s[1..]| && s[1..][k] == r;
        assert SeqLt(s[0], s[k + 1]);
      }
    }
  }

  /** A hash keeps, of the rows listed without it, exactly those with that id. */
  lemma HashPicksRows(t: Table, q: Query, lo: int, hash: string)
    requires UniquePositions(t)
    ensures RowsAfter(t, q.(hash := Some(hash)), lo)
         == Select((r: Row) => r.id == hash, RowsAfter(t, q.(hash := None), lo))
  {
    var p := (r: Row) => r.id == hash;
    RowsAfterListing(t, q.(hash := Some(hash)), lo);
    RowsAfterListing(t, q.(hash := None), lo);
    SelectionStaysStrict(p, RowsAfter(t, q.(hash := None), lo));
    StrictUnique(SeqLt, RowsAfter(t, q.(hash := Some(hash)), lo), Select(p, RowsAfter(t, q.(hash := None), lo)));
  }

  /** A hashed database id keeps exactly the rows stored under it. */
  lemma HashedDbPicksRows(t: Table, q: Query, lo: int, db: string)
    requires UniquePositions(t)
    ensures RowsAfter(t, q.(hashedDbId := Some(db)), lo)
         == Select((r: Row) => r.hashedDbId == Some(db), RowsAfter(t, q.(hashedDbId := None), lo))
  {
    var p := (r: Row) => r.hashedDbId == Some(db);
    RowsAfterListing(t, q.(hashedDbId := Some(db)), lo);
    RowsAfterListing(t, q.(hashedDbId := None), lo);
    SelectionStaysStrict(p, RowsAfter(t, q.(hashedDbId := None), lo));
    StrictUnique(SeqLt, RowsAfter(t, q.(hashedDbId := Some(db)), lo),
                 Select(p, RowsAfter(t, q.(hashedDbId := None), lo)));
  }

  /** Without filters the listing is the community's rows above the start, ascending, each once. */
  lemma UnfilteredIsCommunity(t: Table, community: string, lo: int)
    requires UniquePositions(t)
    ensures var rows := RowsAfter(t, Query(community, None, None, None), lo);
            && (forall r :: r in rows <==> r in t && r.community == community && lo < r.syncSeq)
            && forall i, j | 0 <= i < j < |rows| :: rows[i].syncSeq < rows[j].syncSeq
  {
    RowsAfterListing(t, Query(community, None, None, None), lo);
  }
}
