/**
 * Writers and readers together: when an entry whose position was answered to its sender reaches every client
 * that afterwards pulls to the end.
 */
module Delivery {
  import opened Wrappers
  import opened Ordering
  import opened LogModel
  import opened Allocator
  import opened PageCut
  import opened WriterProtocol
  import opened CommitOrder
  import opened SyncPull
  import opened Draining

  lemma {:induction false} StatesAreAfter(s: State, steps: seq<Step>, i: nat)
    requires Runs(s, steps) && i <= |steps|
    ensures Runs(s, steps[..i]) && After(s, steps[..i]) == States(s, steps)[i]
    ensures Logs(s, steps)[i] == States(s, steps)[i].log
    decreases |steps|
  {
    hide Enabled, Apply;
    if i > 0 {
      StatesAreAfter(Apply(s, steps[0]), steps[1..], i - 1);
      assert steps[..i][1..] == steps[1..][..i - 1];
      assert steps[..i][0] == steps[0];
    } else {
      assert steps[..i] == [];
    }
  }

  /** A row that a history shows by its i-th table reaches a client that pulls to the end from then on. */
  lemma RowArrives(
    logs: seq<Table>, i: nat, lastRead: nat, pulls: seq<Pull>, q: Query, limit: Option<nat>, start: int, row: Row)
    requires History(logs) && i <= lastRead < |logs| && row in logs[i]
    requires pulls != [] && Chain(pulls, q, limit, start) && limit != Some(0)
    requires forall p | p in pulls :: p.final in logs
    requires var last := pulls[|pulls| - 1]; !last.resp.hasNextPage && last.seen == logs[lastRead]
    ensures Matches(q, row) && row.syncSeq > start ==> row in Delivered(pulls)
  {
    hide Extends, UniquePositions, Chain, Delivered, Matches;
    var final := logs[|logs| - 1];
    forall p | p in pulls ensures UniquePositions(p.final) && Extends(p.final, final) {
      var k :| 0 <= k < |logs| && logs[k] == p.final;
    }
    StillThere(logs[i], logs[lastRead], row);
    if Matches(q, row) && row.syncSeq > start {
      FinishedChainsMissNothing(final, pulls, q, limit, start, row);
    }
  }

  lemma StillThere(earlier: Table, later: Table, row: Row)
    requires Extends(earlier, later) && row in earlier
    ensures row in later
  {
    assert later == earlier + later[|earlier|..];
  }

  /** The pulls of one client read the logs of this run. */
  ghost predicate ReadsRun(s: State, steps: seq<Step>, pulls: seq<Pull>)
    requires Runs(s, steps)
  {
    forall p | p in pulls :: p.final in Logs(s, steps)
  }

  lemma QuietLogsAreAHistory(s: State, steps: seq<Step>)
    requires Ordered(s) && Runs(s, steps) && forall step | step in steps :: !step.Raise?
    ensures History(Logs(s, steps))
  {
    hide Extends, UniquePositions, Ordered, Runs;
    var logs := Logs(s, steps);
    forall i, j | 0 <= i <= j < |logs| ensures Extends(logs[i], logs[j]) && UniquePositions(logs[i]) {
      LogsExtend(s, steps, i, j);
    }
  }

  /**
   * By step i writer w was answered with a position. A client that pulls until there is no next page,
   * its last read being at or after that step, has the row stored under the entry's id, if the client
   * asked for that row at all.
   */
  lemma AnsweredEntriesArrive(
    s: State, steps: seq<Step>, i: nat, w: nat, pulls: seq<Pull>, lastRead: nat, q: Query, limit: Option<nat>,
    start: int)
    returns (row: Row)
    requires Ordered(s) && Sound(s) && Runs(s, steps) && forall step | step in steps :: !step.Raise?
    requires i <= lastRead <= |steps| && Runs(s, steps[..i])
    requires var t := After(s, steps[..i]); w in t.writers && t.writers[w].Done? && t.writers[w].result.Some?
    requires pulls != [] && Chain(pulls, q, limit, start) && limit != Some(0) && ReadsRun(s, steps, pulls)
    requires var last := pulls[|pulls| - 1]; !last.resp.hasNextPage && last.seen == Logs(s, steps)[lastRead]
    ensures var answered := After(s, steps[..i]).writers[w];
            row in After(s, steps[..i]).log && row.id == answered.payload.cid
                && PositionOf(row) == answered.result.value
    ensures Matches(q, row) && row.syncSeq > start ==> row in Delivered(pulls)
  {
    hide Enabled, Apply, Runs, After, Logs, States, History, Chain, Delivered, Matches, Ordered;
    RunsAreSound(s, steps[..i]);
    var t := After(s, steps[..i]);
    row := FindById(t.log, t.writers[w].payload.cid).value;
    StatesAreAfter(s, steps, i);
    QuietLogsAreAHistory(s, steps);
    RowArrives(Logs(s, steps), i, lastRead, pulls, q, limit, start, row);
  }

  lemma {:induction false} DeliveredIsAnswered(
    pulls: seq<Pull>, q: Query, limit: Option<nat>, start: int, row: Row)
    requires Chain(pulls, q, limit, start) && row in Delivered(pulls)
    ensures exists k | 0 <= k < |pulls| :: row.entry in pulls[k].resp.entries
  {
    hide PullOutcome;
    if row in pulls[0].rows {
      EntriesAreBodies(pulls[0], q, limit, start);
      var i :| 0 <= i < |pulls[0].rows| && pulls[0].rows[i] == row;
      assert pulls[0].resp.entries[i] == row.entry;
    } else {
      DeliveredIsAnswered(pulls[1..], q, limit, Reached(start, pulls[0].resp), row);
      var k :| 0 <= k < |pulls[1..]| && row.entry in pulls[1..][k].resp.entries;
      assert row.entry in pulls[k + 1].resp.entries;
    }
  }

  lemma EntriesAreBodies(p: Pull, q: Query, limit: Option<nat>, start: int)
    requires PullOutcome(p.final, p.seen, q, limit, start, p.rows, p.resp)
    ensures |p.resp.entries| == |p.rows| && forall i | 0 <= i < |p.rows| :: p.resp.entries[i] == p.rows[i].entry
  {
    hide RowsAfter, RowsBetween;
  }

  /** In its own columns: the payload is one that this client asks for, beyond where it starts. */
  predicate AsksFor(q: Query, p: Payload, seqNo: int, start: int) {
    && p.communityId == q.community && start < seqNo
    && (q.hash.Some? ==> p.cid == q.hash.value) && (q.hashedDbId.Some? ==> p.hashedDbId == q.hashedDbId.value)
    && (q.endSeq.Some? ==> seqNo <= q.endSeq.value)
  }

  /** The row under this id holds what this payload sent. It does, unless another payload came first with its id. */
  ghost predicate StoredAsSent(log: Table, p: Payload) { exists r | r in log :: Carries(r, p) }

  /** Nothing else was ever sent or stored under this id, as where ids are hashes of what they name. */
  ghost predicate NamesOnly(base: Table, s: State, p: Payload) {
    && (forall w | w in s.writers && s.writers[w].payload.cid == p.cid :: s.writers[w].payload == p)
    && (forall r | r in base && r.id == p.cid :: Carries(r, p))
  }

  lemma OnlyNameIsStoredAsSent(s: State, steps: seq<Step>, w: nat)
    requires Sound(s) && Runs(s, steps)
    requires var t := After(s, steps);
             && w in t.writers && t.writers[w].Done? && t.writers[w].result.Some?
             && NamesOnly(s.log, t, t.writers[w].payload)
    ensures StoredAsSent(After(s, steps).log, After(s, steps).writers[w].payload)
  {
    hide Runs, After;
    var t := After(s, steps);
    RunsAreSound(s, steps);
    RunsStoreWhatWasSent(s.log, s, steps);
    var row := FindById(t.log, t.writers[w].payload.cid).value;
    assert Carries(row, t.writers[w].payload);
  }

  /** A writer whose own commit stored a row. */
  lemma OwnCommitIsStoredAsSent(s: State, steps: seq<Step>, w: nat, rest: seq<Step>)
    requires Sound(s) && Runs(s, steps) && Enabled(After(s, steps), Commit(w))
    requires Apply(After(s, steps), Commit(w)).log != After(s, steps).log
    requires Runs(Apply(After(s, steps), Commit(w)), rest)
    ensures StoredAsSent(After(Apply(After(s, steps), Commit(w)), rest).log, After(s, steps).writers[w].payload)
  {
    hide Runs, After, Carries;
    var t := After(s, steps);
    RunsAreSound(s, steps);
    StepKeepsSound(t, Commit(w));
    CommitStoresPayload(t, w);
    var stored := Apply(t, Commit(w));
    RunsAreSound(stored, rest);
    assert After(stored, rest).log[|t.log|] == stored.log[|t.log|];
  }

  /** The very bytes that were sent arrive in one of the client's responses, where they are what was stored. */
  lemma AnsweredBytesArrive(
    s: State, steps: seq<Step>, i: nat, w: nat, pulls: seq<Pull>, lastRead: nat, q: Query, limit: Option<nat>,
    start: int)
    requires Ordered(s) && Sound(s) && Runs(s, steps) && forall step | step in steps :: !step.Raise?
    requires i <= lastRead <= |steps| && Runs(s, steps[..i])
    requires var t := After(s, steps[..i]);
             && w in t.writers && t.writers[w].Done? && t.writers[w].result.Some?
             && StoredAsSent(t.log, t.writers[w].payload)
             && AsksFor(q, t.writers[w].payload, t.writers[w].result.value.syncSeq, start)
    requires pulls != [] && Chain(pulls, q, limit, start) && limit != Some(0) && ReadsRun(s, steps, pulls)
    requires var last := pulls[|pulls| - 1]; !last.resp.hasNextPage && last.seen == Logs(s, steps)[lastRead]
    ensures var p := After(s, steps[..i]).writers[w].payload;
            exists k | 0 <= k < |pulls| :: p.entry in pulls[k].resp.entries
  {
    hide Enabled, Apply, Runs, After, Logs, Chain, Delivered, Ordered, Sound, ReadsRun;
    var t := After(s, steps[..i]);
    var p := t.writers[w].payload;
    var row := AnsweredEntriesArrive(s, steps, i, w, pulls, lastRead, q, limit, start);
    RunsAreSound(s, steps[..i]);
    SameIdSameRow(t, p, row);
    DeliveredIsAnswered(pulls, q, limit, start, row);
  }

  lemma SameIdSameRow(s: State, p: Payload, row: Row)
    requires Sound(s) && StoredAsSent(s.log, p) && row in s.log && row.id == p.cid
    ensures Carries(row, p)
  {
    var r :| r in s.log && Carries(r, p);
    var i :| 0 <= i < |s.log| && s.log[i] == r;
    var j :| 0 <= j < |s.log| && s.log[j] == row;
    assert !(i < j) && !(j < i);
  }

  const FirstSent := Payload("x", "c", "db", [1], 1)
  const SecondSent := Payload("x", "c", "db", [2], 2)

  /** Where two payloads share an id both are answered, with one position, and only the first one's bytes are stored. */
  lemma DuplicateIdKeepsFirstBytes() returns (steps: seq<Step>)
    ensures Runs(Empty, steps)
    ensures var t := After(Empty, steps);
            && |t.log| == 1 && Carries(t.log[0], FirstSent) && !StoredAsSent(t.log, SecondSent)
            && 0 in t.writers && t.writers[0] == Done(FirstSent, Some(Position(1, 1)))
            && 1 in t.writers && t.writers[1] == Done(SecondSent, Some(Position(1, 1)))
  {
    hide Recovered, Runs, After;
    RecoveredIsAboveAll([], "c");
    var s1 := Apply(Empty, Start(0, FirstSent));
    var s2 := Apply(s1, Allocate(0));
    assert s2.writers[0] == Allocated(FirstSent, 1);
    var s3 := Apply(s2, Commit(0));
    var s4, s5, s6, s7 := AnswerSecond(s3);
    steps := [Start(0, FirstSent), Allocate(0), Commit(0), Start(1, SecondSent), Allocate(1), Commit(1), ReadBack(1)];
    RunNone(s7);
    RunOne(s6, steps[6..]);
    RunOne(s5, steps[5..]);
    RunOne(s4, steps[4..]);
    RunOne(s3, steps[3..]);
    RunOne(s2, steps[2..]);
    RunOne(s1, steps[1..]);
    RunOne(Empty, steps);
  }

  lemma AnswerSecond(s3: State) returns (s4: State, s5: State, s6: State, s7: State)
    requires |s3.log| == 1 && s3.log[0] == Row("x", "c", Some("db"), [1], 1, 1)
    requires s3.writers == map[0 := Done(FirstSent, Some(Position(1, 1)))]
    ensures Enabled(s3, Start(1, SecondSent)) && s4 == Apply(s3, Start(1, SecondSent))
    ensures Enabled(s4, Allocate(1)) && s5 == Apply(s4, Allocate(1))
    ensures Enabled(s5, Commit(1)) && s6 == Apply(s5, Commit(1))
    ensures Enabled(s6, ReadBack(1)) && s7 == Apply(s6, ReadBack(1))
    ensures s7.log == s3.log && s7.writers[0] == Done(FirstSent, Some(Position(1, 1))) && s7.writers.Keys == {0, 1}
    ensures s7.writers[1] == Done(SecondSent, Some(Position(1, 1)))
  {
    hide Recovered;
    s4 := Apply(s3, Start(1, SecondSent));
    s5 := Apply(s4, Allocate(1));
    s6 := Apply(s5, Commit(1));
    s7 := Apply(s6, ReadBack(1));
  }

  // Whatever operators do to the counters.

  /**
   * Writer w was answered with the position of `row` by step i, and a client that asked for the row and pulled
   * to the end, its last read being at or after that step, does not have it.
   */
  ghost predicate Missed(
    s: State, steps: seq<Step>, i: nat, w: nat, row: Row, pulls: seq<Pull>, lastRead: nat, q: Query,
    limit: Option<nat>, start: int)
    requires Runs(s, steps)
  {
    && i <= lastRead <= |steps|
    && var t := States(s, steps)[i];
    && row in t.log && w in t.writers && t.writers[w] == Done(t.writers[w].payload, Some(PositionOf(row)))
    && t.writers[w].payload.cid == row.id
    && pulls != [] && Chain(pulls, q, limit, start) && limit != Some(0) && ReadsRun(s, steps, pulls)
    && var last := pulls[|pulls| - 1];
    && !last.resp.hasNextPage && last.seen == Logs(s, steps)[lastRead]
    && Matches(q, row) && row.syncSeq > start && row !in Delivered(pulls)
  }

  lemma {:induction false} UpToDateMissesNothing(
    s: State, steps: seq<Step>, i: nat, w: nat, row: Row, pulls: seq<Pull>, lastRead: nat, q: Query,
    limit: Option<nat>, start: int)
    requires Runs(s, steps) && History(Logs(s, steps))
    ensures !Missed(s, steps, i, w, row, pulls, lastRead, q, limit, start)
  {
    hide Runs, Logs, States, History, Chain, Delivered, Matches;
    if Missed(s, steps, i, w, row, pulls, lastRead, q, limit, start) {
      StatesAreAfter(s, steps, i);
      RowArrives(Logs(s, steps), i, lastRead, pulls, q, limit, start, row);
    }
  }

  /** One pull without a limit, of a store that does not change. */
  lemma PullOf(t: Table, q: Query, start: int) returns (p: Pull)
    requires UniquePositions(t)
    ensures p.final == p.seen == t && PullOutcome(t, t, q, None, start, p.rows, p.resp)
  {
    hide RowsAfter, RowsBetween, SyncMetadataSize, BytesUpTo;
    var all := RowsAfter(t, q, start);
    var (n, more) := Cut(all, SyncMetadataSize, None);
    CutIsLongestFit(all, SyncMetadataSize, None);
    if n == 0 {
      p := Pull(t, t, [], PullResponse([], false, None, start));
    } else {
      var rows := all[..n];
      ListingSplits(t, q, start, n - 1);
      RowsAfterListing(t, q, start);
      assert all[n - 1] in all;
      assert Fits(all, SyncMetadataSize, n);
      BudgetOfPrefix(all, rows, n, SyncMetadataSize, more);
      p := Pull(t, t, rows, PullResponse(Bodies(rows), more, Some(rows[n - 1].syncSeq), start));
    }
  }

  /** A client can pull a store that does not change to its end. */
  lemma {:induction false} PullsToTheEnd(t: Table, q: Query, start: int) returns (pulls: seq<Pull>)
    requires UniquePositions(t)
    ensures Chain(pulls, q, None, start) && forall p | p in pulls :: p.final == p.seen == t
    ensures RowsAfter(t, q, Draining.Position(pulls, start)) == []
    decreases |RowsAfter(t, q, start)|
  {
    hide RowsAfter, PullOutcome, UniquePositions;
    var p := PullOf(t, q, start);
    var next := Reached(start, p.resp);
    pulls := [p];
    assert pulls[1..] == [];
    if p.resp.hasNextPage {
      PullAdvances(t, q, start, p);
      var rest := PullsToTheEnd(t, q, next);
      pulls := [p] + rest;
      assert pulls[1..] == rest;
    } else {
      NothingBeyond(p, q, None, start);
      assert Draining.Position(pulls[1..], next) == next;
    }
  }

  lemma PullAdvances(t: Table, q: Query, start: int, p: Pull)
    requires UniquePositions(t) && p.final == p.seen == t && p.resp.hasNextPage
    requires PullOutcome(t, t, q, None, start, p.rows, p.resp)
    ensures |RowsAfter(t, q, Reached(start, p.resp))| < |RowsAfter(t, q, start)|
  {
    hide RowsAfter, RowsBetween;
    var last := p.rows[|p.rows| - 1];
    assert last in p.rows;
    RowsBetweenListing(t, q, start, last.syncSeq);
    ExtendsReflexive(t);
    RemainderShrinks(t, t, q, start, last);
  }

  lemma {:induction false} DeliveredPush(pulls: seq<Pull>, p: Pull)
    ensures Delivered(pulls + [p]) == Delivered(pulls) + p.rows
  {
    if pulls == [] {
      assert pulls + [p] == [p] && [p][1..] == [];
    } else {
      assert (pulls + [p])[1..] == pulls[1..] + [p];
      DeliveredPush(pulls[1..], p);
    }
  }

  /** A row stored behind the others of its community: who had pulled to the end before it never gets it. */
  lemma LateRowIsMissed(t: Table, r: Row, x: Row) returns (pulls: seq<Pull>, q: Query)
    requires UniquePositions(t) && UniquePositions(t + [r])
    requires x in t && x.community == r.community && x.syncSeq >= r.syncSeq >= 1
    ensures pulls != [] && Chain(pulls, q, None, 0) && forall p | p in pulls :: p.final in [t, t + [r]]
    ensures pulls[|pulls| - 1].seen == t + [r] && !pulls[|pulls| - 1].resp.hasNextPage
    ensures Matches(q, r) && r !in Delivered(pulls)
  {
    hide RowsAfter, RowsBetween, Chain, Delivered, Draining.Position, UniquePositions, Extends;
    q := Query(r.community, None, None, None);
    var later := t + [r];
    var before := PullsToTheEnd(t, q, 0);
    var at := Draining.Position(before, 0);
    ExtendsReflexive(t);
    ChainsDeliverExactly(t, before, q, None, 0);
    RowsBetweenListing(t, q, 0, at);
    RowsAfterListing(t, q, at);
    RowsAfterListing(later, q, at);
    assert x !in RowsAfter(t, q, at);
    forall y ensures y !in RowsAfter(later, q, at) {
      assert y !in RowsAfter(t, q, at);
    }
    StrictUnique(SeqLt, RowsAfter(later, q, at), []);
    var p := Pull(later, later, [], PullResponse([], false, None, at));
    ChainPush(before, q, None, 0, p);
    DeliveredPush(before, p);
    pulls := before + [p];
    NewRow(t, r);
  }

  lemma NewRow(t: Table, r: Row)
    requires UniquePositions(t + [r])
    ensures r !in t
  {
    var later := t + [r];
    forall i | 0 <= i < |t| ensures t[i] != r {
      assert later[i] == t[i] && later[|t|] == r;
    }
  }

  /** A step that breaks the order of the log stores a row behind another of its community. */
  lemma DisorderedCommit(s: State, step: Step) returns (r: Row, x: Row)
    requires Locking(s) && Sound(s) && Enabled(s, step) && !Extends(s.log, Apply(s, step).log)
    ensures step.Commit? && Apply(s, step).log == s.log + [r] && r.syncSeq >= 1
    ensures var p := s.writers[step.w].payload;
            && p.cid == r.id && step.w in Apply(s, step).writers
            && Apply(s, step).writers[step.w] == Done(p, Some(PositionOf(r)))
    ensures x in s.log && x.community == r.community && x.syncSeq >= r.syncSeq
  {
    hide Recovered, HasId, HasPosition, StoredPosition;
    ExtendsReflexive(s.log);
    var t := Apply(s, step);
    assert step.Commit? && t.log != s.log;
    r := RowOf(s.writers[step.w].payload, s.writers[step.w].seqNo);
    assert t.log[|s.log|..] == [r];
    x :| x in s.log && x.community == r.community && x.syncSeq >= r.syncSeq;
  }

  lemma {:induction false} DisorderMisses(s: State, steps: seq<Step>, i: nat)
    returns (w: nat, row: Row, pulls: seq<Pull>, q: Query)
    requires Runs(s, steps) && Sound(s) && Locking(s) && i < |steps|
    requires !Extends(States(s, steps)[i].log, States(s, steps)[i + 1].log)
    ensures Missed(s, steps, i + 1, w, row, pulls, i + 1, q, None, 0)
  {
    hide Runs, States, Logs, Enabled, Apply, Sound, Locking, Extends, Chain, Delivered, Matches;
    StatesFollow(s, steps, i);
    StatesAreSound(s, steps, i);
    StatesAreSound(s, steps, i + 1);
    var t := States(s, steps)[i];
    var x;
    row, x := DisorderedCommit(t, steps[i]);
    w := steps[i].w;
    SoundIsUnique(t);
    SoundIsUnique(States(s, steps)[i + 1]);
    pulls, q := LateRowIsMissed(t.log, row, x);
    StatesAreAfter(s, steps, i);
    StatesAreAfter(s, steps, i + 1);
    assert Logs(s, steps)[i] in Logs(s, steps) && Logs(s, steps)[i + 1] in Logs(s, steps);
    assert row in t.log + [row];
  }

  /**
   * In a run tampered with in any way, every answered entry reaches every client that pulls to the end
   * afterwards, if and only if every write that stored a row was up to date when it allocated.
   */
  lemma {:induction false} EntriesArriveIffUpToDate(s: State, steps: seq<Step>)
    requires Runs(s, steps) && Sound(s) && Locking(s) && forall v | v in s.writers :: !s.writers[v].Allocated?
    ensures WritesUpToDate(s, steps) <==>
              forall i: nat, w: nat, row, pulls, lastRead: nat, q, limit, start ::
                !Missed(s, steps, i, w, row, pulls, lastRead, q, limit, start)
  {
    hide Runs, States, Logs, Sound, Locking, WritesUpToDate, Extends, Missed, History;
    if WritesUpToDate(s, steps) {
      RunIsHistoryIffUpToDate(s, steps);
      LogsAreOfStates(s, steps);
      forall i: nat, w: nat, row, pulls, lastRead: nat, q, limit, start
        ensures !Missed(s, steps, i, w, row, pulls, lastRead, q, limit, start)
      {
        UpToDateMissesNothing(s, steps, i, w, row, pulls, lastRead, q, limit, start);
      }
    } else {
      RunKeepsOrderIffUpToDate(s, steps);
      var i :| 0 <= i < |steps| && !Extends(States(s, steps)[i].log, States(s, steps)[i + 1].log);
      var w, row, pulls, q := DisorderMisses(s, steps, i);
    }
  }

  lemma {:induction false} LogsAreOfStates(s: State, steps: seq<Step>)
    requires Runs(s, steps)
    ensures Logs(s, steps) == LogsOf(States(s, steps))
  {
    hide Runs, States, Logs;
    forall i | 0 <= i <= |steps| ensures Logs(s, steps)[i] == States(s, steps)[i].log {
      StatesAreAfter(s, steps, i);
    }
  }

  /** Lowering and deleting counters never makes a write out of date. */
  lemma QuietRunsAreUpToDate(s: State, steps: seq<Step>)
    requires Ordered(s) && Runs(s, steps) && forall step | step in steps :: !step.Raise?
    requires Sound(s) && Locking(s) && forall v | v in s.writers :: !s.writers[v].Allocated?
    ensures WritesUpToDate(s, steps)
  {
    hide Runs, States, Logs, Sound, Locking, WritesUpToDate, History, Ordered;
    QuietLogsAreAHistory(s, steps);
    LogsAreOfStates(s, steps);
    RunIsHistoryIffUpToDate(s, steps);
  }
}
