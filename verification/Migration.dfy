/**
 * The migration that introduces sequences: it numbers the stored entries of each community in
 * (received_at, id) order and seeds the counters, so that the allocator's invariant holds from the
 * first write on.
 */
module Migration {
  import opened Wrappers
  import opened Ordering
  import opened LogModel
  import opened CursorPull
  import opened TimestampResolution
  import opened WriterProtocol

  /** An entry as stored before the sync_seq column exists. */
  datatype LegacyRow = LegacyRow(id: string, community: string, hashedDbId: Option<string>, entry: Bytes,
                                 receivedAt: int)

  function KeyOf(r: LegacyRow): Cursor { Cursor(r.receivedAt, r.id) }

  predicate LegacyLe(a: LegacyRow, b: LegacyRow) { CursorLe(KeyOf(a), KeyOf(b)) }

  predicate LegacyLt(a: LegacyRow, b: LegacyRow) { !LegacyLe(b, a) }

  ghost predicate DistinctIds(rows: seq<LegacyRow>) {
    forall i, j | 0 <= i < j < |rows| :: rows[i].id != rows[j].id
  }

  /** One partition of the window: a community's entries in (received_at, id) order. */
  function Partition(rows: seq<LegacyRow>, c: string): seq<LegacyRow> {
    Sort(LegacyLe, Select((r: LegacyRow) => r.community == c, rows))
  }

  function IndexOf(s: seq<LegacyRow>, r: LegacyRow): (k: nat)
    requires r in s
    ensures k < |s| && s[k] == r
  {
    if s[0] == r then 0 else 1 + IndexOf(s[1..], r)
  }

  function RowNumber(rows: seq<LegacyRow>, r: LegacyRow): int
    requires r in rows
  {
    SortMembers(LegacyLe, Select((x: LegacyRow) => x.community == r.community, rows));
    IndexOf(Partition(rows, r.community), r) + 1
  }

  function WithSeq(r: LegacyRow, seqNo: int): Row {
    Row(r.id, r.community, r.hashedDbId, r.entry, r.receivedAt, seqNo)
  }

  /** The table the migration leaves behind. */
  function Numbered(rows: seq<LegacyRow>): (t: Table)
    ensures |t| == |rows|
    ensures forall i | 0 <= i < |rows| ::
              && t[i].syncSeq == RowNumber(rows, rows[i]) && t[i].id == rows[i].id
              && t[i].community == rows[i].community && t[i].hashedDbId == rows[i].hashedDbId
              && t[i].entry == rows[i].entry && t[i].receivedAt == rows[i].receivedAt
  {
    seq(|rows|, i requires 0 <= i < |rows| => WithSeq(rows[i], RowNumber(rows, rows[i])))
  }

  lemma LegacyOrderIsTotal()
    ensures TotalPreorder(LegacyLe)
    ensures forall x, y :: !(LegacyLt(x, y) && LegacyLt(y, x))
    ensures forall x, y :: LegacyLe(x, y) && LegacyLe(y, x) ==> x.id == y.id
  {
    forall x: LegacyRow, y: LegacyRow
      ensures LegacyLe(x, y) || LegacyLe(y, x)
      ensures LegacyLe(x, y) && LegacyLe(y, x) ==> x.id == y.id
    {
      LexTotal(x.id, y.id);
    }
    forall x: LegacyRow, y: LegacyRow, z: LegacyRow | LegacyLe(x, y) && LegacyLe(y, z)
      ensures LegacyLe(x, z)
    {
      if x.receivedAt == y.receivedAt == z.receivedAt {
        LexTransitive(x.id, y.id, z.id);
      }
    }
  }

  lemma PartitionListing(rows: seq<LegacyRow>, c: string)
    requires DistinctIds(rows)
    ensures Strict(LegacyLt, Partition(rows, c))
    ensures forall r :: r in Partition(rows, c) <==> r in rows && r.community == c
  {
    hide LegacyLe;
    var p := (r: LegacyRow) => r.community == c;
    var part := Partition(rows, c);
    LegacyOrderIsTotal();
    SortSorted(LegacyLe, Select(p, rows));
    SortMembers(LegacyLe, Select(p, rows));
    SortSelectNoRepeats(LegacyLe, p, rows);
    forall i, j | 0 <= i < j < |part|
      ensures LegacyLt(part[i], part[j])
    {
      assert part[i] in rows && part[j] in rows && part[i] != part[j] && LegacyLe(part[i], part[j]);
    }
  }

  /** The row number is the position in the partition, and so determines the row. */
  lemma NumberIsPosition(rows: seq<LegacyRow>, c: string, k: nat)
    requires DistinctIds(rows) && k < |Partition(rows, c)|
    ensures var r := Partition(rows, c)[k]; r in rows && r.community == c && RowNumber(rows, r) == k + 1
  {
    hide LegacyLe;
    var part := Partition(rows, c);
    LegacyOrderIsTotal();
    PartitionListing(rows, c);
    assert part[k] in part;
    var j := RowNumber(rows, part[k]) - 1;
    assert forall x: LegacyRow :: LegacyLe(x, x);
    assert NoRepeats(part) by {
      assert forall a, b | 0 <= a < b < |part| :: LegacyLt(part[a], part[b]);
    }
    assert part[j] == part[k];
  }

  lemma {:induction false} SelectConcat<T(!new)>(p: T -> bool, a: seq<T>, b: seq<T>)
    ensures Select(p, a + b) == Select(p, a) + Select(p, b)
  {
    if a == [] {
      assert a + b == b;
    } else {
      assert (a + b)[1..] == a[1..] + b;
      SelectConcat(p, a[1..], b);
    }
  }

  lemma {:induction false} CountIsSelectionSize(rows: seq<LegacyRow>, t: Table, c: string, n: nat)
    requires n <= |rows| == |t| && forall i | 0 <= i < |t| :: t[i].community == rows[i].community
    ensures CountUpTo(t, c, n) == |Select((r: LegacyRow) => r.community == c, rows[..n])|
  {
    if n > 0 {
      var p := (r: LegacyRow) => r.community == c;
      CountIsSelectionSize(rows, t, c, n - 1);
      assert rows[..n] == rows[..n - 1] + [rows[n - 1]];
      SelectConcat(p, rows[..n - 1], [rows[n - 1]]);
    }
  }

  lemma PartitionSize(rows: seq<LegacyRow>, c: string)
    ensures |Partition(rows, c)| == Count(Numbered(rows), c)
  {
    hide RowNumber;
    CountIsSelectionSize(rows, Numbered(rows), c, |rows|);
    assert rows[..|rows|] == rows;
    SortMembers(LegacyLe, Select((r: LegacyRow) => r.community == c, rows));
  }

  lemma NumberingIsConsecutive(rows: seq<LegacyRow>, c: string)
    requires DistinctIds(rows)
    ensures Consecutive(Numbered(rows), c)
  {
    hide RowNumber, Partition;
    var t := Numbered(rows);
    PartitionListing(rows, c);
    PartitionSize(rows, c);
    forall r | r in t && r.community == c
      ensures 1 <= r.syncSeq <= Count(t, c)
    {
      var i :| 0 <= i < |t| && t[i] == r;
      assert rows[i] in rows && rows[i] in Partition(rows, c);
      var k :| 0 <= k < |Partition(rows, c)| && Partition(rows, c)[k] == rows[i];
      NumberIsPosition(rows, c, k);
    }
    forall k | 1 <= k <= Count(t, c)
      ensures Allocator.HasPosition(t, c, k)
    {
      NumberIsPosition(rows, c, k - 1);
      var i :| 0 <= i < |rows| && rows[i] == Partition(rows, c)[k - 1];
      assert t[i].syncSeq == k && t[i].community == c;
    }
  }

  /** Within a community the numbers follow (received_at, id), strictly. */
  lemma NumberingFollowsReceipt(rows: seq<LegacyRow>, i: nat, j: nat)
    requires DistinctIds(rows) && i < |rows| && j < |rows| && rows[i].community == rows[j].community
    ensures Numbered(rows)[i].syncSeq < Numbered(rows)[j].syncSeq <==> LegacyLt(rows[i], rows[j])
    ensures Numbered(rows)[i].syncSeq == Numbered(rows)[j].syncSeq <==> i == j
  {
    hide RowNumber, Partition, LegacyLe;
    var c := rows[i].community;
    var part := Partition(rows, c);
    LegacyOrderIsTotal();
    PartitionListing(rows, c);
    assert rows[i] in part && rows[j] in part;
    var a :| 0 <= a < |part| && part[a] == rows[i];
    var b :| 0 <= b < |part| && part[b] == rows[j];
    NumberIsPosition(rows, c, a);
    NumberIsPosition(rows, c, b);
    assert forall x: LegacyRow :: LegacyLe(x, x);
    assert forall x, y | 0 <= x < y < |part| :: LegacyLt(part[x], part[y]);
  }

  /** What the migration leaves behind is a state every writer run can start from. */
  lemma MigratedStateIsOrdered(rows: seq<LegacyRow>, counters: map<string, int>)
    requires DistinctIds(rows)
    requires forall c ::
      if c in counters then counters[c] == Count(Numbered(rows), c) + 1 else Count(Numbered(rows), c) == 0
    ensures var s := State(Numbered(rows), counters, map[]); Ordered(s) && Synced(s) && Sound(s)
    ensures UniquePositions(Numbered(rows))
    ensures forall c :: ReceivedInOrder(Numbered(rows), c)
  {
    hide RowNumber, Consecutive;
    var t := Numbered(rows);
    forall c ensures Consecutive(t, c) {
      NumberingIsConsecutive(rows, c);
    }
    forall i, j | 0 <= i < j < |t| && t[i].community == t[j].community
      ensures t[i].syncSeq != t[j].syncSeq
    {
      NumberingFollowsReceipt(rows, i, j);
    }
    forall r, s | r in t && s in t && r.community == s.community && r.syncSeq < s.syncSeq
      ensures r.receivedAt <= s.receivedAt
    {
      var i :| 0 <= i < |t| && t[i] == r;
      var j :| 0 <= j < |t| && t[j] == s;
      NumberingFollowsReceipt(rows, i, j);
    }
  }

  /** `counters` is one above the highest sequence of each community in t; `top` says where it stands. */
  ghost predicate Highest(t: Table, counters: map<string, int>, top: map<string, nat>) {
    && top.Keys == counters.Keys
    && (forall k | 0 <= k < |t| :: t[k].community in counters && t[k].syncSeq < counters[t[k].community])
    && (forall c | c in counters :: top[c] < |t| && t[top[c]].community == c && t[top[c]].syncSeq + 1 == counters[c])
  }

  lemma NothingSeen()
    ensures Highest([], map[], map[])
  {
  }

  lemma SeeOneMore(t: Table, r: Row, counters: map<string, int>, top: map<string, nat>)
    requires Highest(t, counters, top)
    ensures var c, next := r.community, r.syncSeq + 1;
            if c !in counters || counters[c] < next then Highest(t + [r], counters[c := next], top[c := |t|])
            else Highest(t + [r], counters, top)
  {
  }

  datatype Outcome = Migrated | NullSequence | DuplicateSequence

  /** The two tables during the migration; a null sync_seq is None. */
  class MigrationTables {
    var rows: seq<LegacyRow>
    var syncSeq: seq<Option<int>>
    var counters: map<string, int>

    constructor (stored: seq<LegacyRow>)
      ensures rows == stored && syncSeq == [] && counters == map[]
    {
      rows, syncSeq, counters := stored, [], map[];
    }

    method Up() returns (outcome: Outcome)
      requires DistinctIds(rows)
      modifies this
      ensures rows == old(rows) && outcome == Migrated
      ensures |syncSeq| == |rows|
      ensures forall i | 0 <= i < |rows| :: syncSeq[i] == Some(Numbered(rows)[i].syncSeq)
      ensures var s := State(Numbered(rows), counters, map[]); Ordered(s) && Synced(s) && Sound(s)
      ensures forall c :: ReceivedInOrder(Numbered(rows), c)
    {
      hide RowNumber, Count, Ordered, Synced, Sound, ReceivedInOrder;
      ghost var t := Numbered(rows);
      counters := map[];
      syncSeq := seq(|rows|, _ => None);
      for i := 0 to |rows|
        invariant rows == old(rows) && counters == map[] && |syncSeq| == |rows|
        invariant forall k | 0 <= k < i :: syncSeq[k] == Some(t[k].syncSeq)
      {
        syncSeq := syncSeq[i := Some(RowNumber(rows, rows[i]))];
      }
      SeedCounters();
      MigratedStateIsOrdered(rows, counters);
      assert forall i, j | 0 <= i < j < |rows| && t[i].community == t[j].community :: t[i].syncSeq != t[j].syncSeq;
      if exists i :: 0 <= i < |syncSeq| && syncSeq[i] == None {
        return NullSequence;
      }
      if exists i, j :: 0 <= i < j < |rows| && rows[i].community == rows[j].community && syncSeq[i] == syncSeq[j] {
        return DuplicateSequence;
      }
      return Migrated;
    }

    /** One counter per community with entries: one above its highest sequence. */
    method SeedCounters()
      requires DistinctIds(rows) && |syncSeq| == |rows| && counters == map[]
      requires forall i | 0 <= i < |rows| :: syncSeq[i] == Some(Numbered(rows)[i].syncSeq)
      modifies this`counters
      ensures forall c ::
        if c in counters then counters[c] == Count(Numbered(rows), c) + 1 else Count(Numbered(rows), c) == 0
    {
      NumberingKeepsCommunities(rows);
      hide RowNumber, Consecutive, CountUpTo, Count, Numbered, DistinctIds, Highest;
      ghost var t := Numbered(rows);
      ghost var top: map<string, nat> := map[];
      NothingSeen();
      for i := 0 to |rows|
        invariant Highest(t[..i], counters, top)
      {
        var c, next := rows[i].community, syncSeq[i].value + 1;
        assert t[..i + 1] == t[..i] + [t[i]];
        SeeOneMore(t[..i], t[i], counters, top);
        if c !in counters || counters[c] < next {
          counters, top := counters[c := next], top[c := i];
        }
      }
      assert t[..|rows|] == t;
      HighestAreCounts(rows, counters, top);
    }
  }

  lemma NumberingKeepsCommunities(rows: seq<LegacyRow>)
    ensures |Numbered(rows)| == |rows| && forall i | 0 <= i < |rows| :: Numbered(rows)[i].community == rows[i].community
  {
  }

  lemma HighestAreCounts(rows: seq<LegacyRow>, counters: map<string, int>, top: map<string, nat>)
    requires DistinctIds(rows) && Highest(Numbered(rows), counters, top)
    ensures forall c ::
      if c in counters then counters[c] == Count(Numbered(rows), c) + 1 else Count(Numbered(rows), c) == 0
  {
    hide Numbered, Count, DistinctIds;
    forall c
      ensures if c in counters then counters[c] == Count(Numbered(rows), c) + 1 else Count(Numbered(rows), c) == 0
    {
      HighestIsCount(rows, c, counters);
    }
  }

  lemma HighestIsCount(rows: seq<LegacyRow>, c: string, counters: map<string, int>)
    requires DistinctIds(rows)
    requires var t := Numbered(rows);
             && (forall k | 0 <= k < |t| :: t[k].community in counters && t[k].syncSeq < counters[t[k].community])
             && (c in counters ==> exists k :: 0 <= k < |t| && t[k].community == c && t[k].syncSeq + 1 == counters[c])
    ensures if c in counters then counters[c] == Count(Numbered(rows), c) + 1 else Count(Numbered(rows), c) == 0
  {
    hide RowNumber, CountUpTo;
    var t := Numbered(rows);
    NumberingIsConsecutive(rows, c);
    if Count(t, c) > 0 {
      assert Allocator.HasPosition(t, c, Count(t, c));
    }
    if c in counters {
      var k :| 0 <= k < |t| && t[k].community == c && t[k].syncSeq + 1 == counters[c];
      assert t[k] in t;
    }
  }
}
