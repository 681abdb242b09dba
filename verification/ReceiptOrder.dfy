/**
 * Receipt times against commit order: writers take the receipt time before they commit, so a run can store
 * rows against the order of their receipt. When a run does, exactly then do some timestamps resolve wrongly,
 * and a client that pages by receipt time can miss a row for good.
 */
module ReceiptOrder {
  import opened Wrappers
  import opened Ordering
  import opened LogModel
  import opened Allocator
  import opened PageCut
  import opened WriterProtocol
  import opened CommitOrder
  import opened TimestampResolution
  import opened CursorPull
  import opened CursorDraining
  import SyncPull

  ghost predicate CommitsFollowReceipt(log: Table, c: string) {
    forall i, j | 0 <= i < j < |log| && log[i].community == log[j].community == c ::
      log[i].receivedAt <= log[j].receivedAt
  }

  ghost predicate InSequenceOrder(log: Table) {
    forall i, j | 0 <= i < j < |log| && log[i].community == log[j].community :: log[i].syncSeq < log[j].syncSeq
  }

  lemma AppendedInOrder(log: Table, later: Table)
    requires InSequenceOrder(log) && Extends(log, later) && |later| <= |log| + 1
    ensures InSequenceOrder(later)
  {
    forall i, j | 0 <= i < j < |later| && later[i].community == later[j].community
      ensures later[i].syncSeq < later[j].syncSeq
    {
      assert later[i] == log[i] && log[i] in log;
      assert j == |log| ==> later[j] == later[|log|..][0];
    }
  }

  lemma StepAppendsOne(s: State, step: Step)
    requires Enabled(s, step)
    ensures |Apply(s, step).log| <= |s.log| + 1
  {
    hide Recovered, HasId, HasPosition, StoredPosition, AllocatedSeq;
  }

  lemma {:induction false} RunsCommitInSequence(steps: seq<Step>, i: nat)
    requires Runs(Empty, steps) && ExtendsInOrder(Empty, steps) && i <= |steps|
    ensures InSequenceOrder(States(Empty, steps)[i].log) && Locking(States(Empty, steps)[i])
  {
    hide Runs, States, Extends, Locking, Enabled, Apply, InSequenceOrder;
    EmptyIsLocking();
    if i == 0 {
      assert InSequenceOrder(Empty.log) by { EmptyIsInOrder(); }
    } else {
      RunsCommitInSequence(steps, i - 1);
      StatesFollow(Empty, steps, i - 1);
      StepKeepsLocking(States(Empty, steps)[i - 1], steps[i - 1]);
      StepAppendsOne(States(Empty, steps)[i - 1], steps[i - 1]);
      assert Extends(States(Empty, steps)[i - 1].log, States(Empty, steps)[i - 1 + 1].log);
      AppendedInOrder(States(Empty, steps)[i - 1].log, States(Empty, steps)[i].log);
    }
  }

  lemma EmptyIsInOrder()
    ensures InSequenceOrder(Empty.log)
  {
  }

  /** After any run that keeps commit order, all times resolve exactly if and only if rows committed as received. */
  lemma ResolutionIsExactIffCommitsFollowReceipt(steps: seq<Step>, c: string)
    requires Runs(Empty, steps) && WritesUpToDate(Empty, steps)
    requires forall r | r in After(Empty, steps).log :: 0 < r.receivedAt <= MAX_DATE_MS
    ensures var log := After(Empty, steps).log;
            CommitsFollowReceipt(log, c) <==>
              forall ts: Timestamp | ts.Millis? && ts.ms <= MAX_DATE_MS :: ResolvesExactly(log, c, ts)
  {
    hide Runs, After, States, Sound, Extends, InSequenceOrder, WritesUpToDate, ResolvesExactly;
    EmptyIsOrderedAndSound();
    EmptyIsLocking();
    RunKeepsOrderIffUpToDate(Empty, steps);
    RunsCommitInSequence(steps, |steps|);
    RunsAreSound(Empty, steps);
    var log := After(Empty, steps).log;
    SoundIsUnique(After(Empty, steps));
    assert Positive(log);
    ResolutionIsExactIffOrdered(log, c);
    ReceiptIsCommitOrder(log, c);
  }

  lemma ReceiptIsCommitOrder(log: Table, c: string)
    requires InSequenceOrder(log)
    ensures ReceivedInOrder(log, c) <==> CommitsFollowReceipt(log, c)
  {
    if ReceivedInOrder(log, c) {
      forall i, j | 0 <= i < j < |log| && log[i].community == log[j].community == c
        ensures log[i].receivedAt <= log[j].receivedAt
      {
        assert log[i] in log && log[j] in log;
      }
    }
    if CommitsFollowReceipt(log, c) {
      forall r, s | r in log && s in log && r.community == s.community == c && r.syncSeq < s.syncSeq
        ensures r.receivedAt <= s.receivedAt
      {
        var i :| 0 <= i < |log| && log[i] == r;
        var j :| 0 <= j < |log| && log[j] == s;
      }
    }
  }

  // A run that commits against the order of receipt: `a` is received first and `b` is written first.

  const EarlyEntry := Payload("a", "c", "db", [], 1)
  const LateEntry := Payload("b", "c", "db", [], 2)

  lemma WriteLateFirst() returns (s1: State, s2: State, s3: State, s4: State)
    ensures Enabled(Empty, Start(0, EarlyEntry)) && s1 == Apply(Empty, Start(0, EarlyEntry))
    ensures Enabled(s1, Start(1, LateEntry)) && s2 == Apply(s1, Start(1, LateEntry))
    ensures Enabled(s2, Allocate(1)) && s3 == Apply(s2, Allocate(1))
    ensures Enabled(s3, Commit(1)) && s4 == Apply(s3, Commit(1))
    ensures s4.log == [RowOf(LateEntry, 1)] && s4.counters == map["c" := 2] && s4.writers.Keys == {0, 1}
    ensures s4.writers[0] == Scanned(EarlyEntry, 1) && s4.writers[1].Done?
  {
    hide Recovered;
    RecoveredIsAboveAll([], "c");
    s1 := Apply(Empty, Start(0, EarlyEntry));
    s2 := Apply(s1, Start(1, LateEntry));
    s3 := Apply(s2, Allocate(1));
    assert s3.writers[1] == Allocated(LateEntry, 1);
    s4 := Apply(s3, Commit(1));
  }

  lemma WriteEarlyLast(s4: State) returns (s5: State)
    requires s4.log == [RowOf(LateEntry, 1)] && s4.counters == map["c" := 2] && s4.writers.Keys == {0, 1}
    requires s4.writers[0] == Scanned(EarlyEntry, 1) && s4.writers[1].Done?
    ensures Enabled(s4, Allocate(0)) && s5 == Apply(s4, Allocate(0))
    ensures Enabled(s5, Commit(0)) && Apply(s5, Commit(0)).log == [RowOf(LateEntry, 1), RowOf(EarlyEntry, 2)]
  {
    s5 := Apply(s4, Allocate(0));
    assert s5.writers[0] == Allocated(EarlyEntry, 2);
  }

  /** Two writers and no operator: who resumes at time 1 skips the row received at 2, which has the lower sequence. */
  lemma LateCommitResolvesWrongly() returns (steps: seq<Step>)
    ensures Runs(Empty, steps) && forall step | step in steps :: !Tampers(step)
    ensures var log := After(Empty, steps).log;
            && log == [RowOf(LateEntry, 1), RowOf(EarlyEntry, 2)] && !ReceivedInOrder(log, "c")
            && ResolveSyncSeq(log, "c", Millis(1)) == 2 && !ResolvesExactly(log, "c", Millis(1))
  {
    hide Enabled, Apply, ResolveSyncSeq;
    var s1, s2, s3, s4 := WriteLateFirst();
    var s5 := WriteEarlyLast(s4);
    steps := [Start(0, EarlyEntry), Start(1, LateEntry), Allocate(1), Commit(1), Allocate(0), Commit(0)];
    RunSix(Empty, steps, s1, s2, s3, s4, s5);
    var log := After(Empty, steps).log;
    assert log[0] in log && log[1] in log;
    ResolvedRow(log, "c", 1);
    var top :| IsLatestBy(log, "c", 1, top) && top.syncSeq == ResolveSyncSeq(log, "c", Millis(1));
    assert top == log[1];
  }

  lemma RunSix(s: State, steps: seq<Step>, s1: State, s2: State, s3: State, s4: State, s5: State)
    requires |steps| == 6
    requires Enabled(s, steps[0]) && s1 == Apply(s, steps[0]) && Enabled(s1, steps[1]) && s2 == Apply(s1, steps[1])
    requires Enabled(s2, steps[2]) && s3 == Apply(s2, steps[2]) && Enabled(s3, steps[3]) && s4 == Apply(s3, steps[3])
    requires Enabled(s4, steps[4]) && s5 == Apply(s4, steps[4]) && Enabled(s5, steps[5])
    ensures Runs(s, steps) && After(s, steps) == Apply(s5, steps[5])
  {
    hide Enabled, Apply;
    RunOne(s5, steps[5..]);
    RunOne(s4, steps[4..]);
    RunOne(s3, steps[3..]);
    RunOne(s2, steps[2..]);
    RunOne(s1, steps[1..]);
    RunOne(s, steps);
  }

  /**
   * On the log of that run: a client that pulled by cursor to the end between the two commits has the first
   * row, and whatever it pulls from its cursor afterwards, it never gets the second.
   */
  lemma LateCommitIsMissed(text: Cursor -> string) returns (p: CursorRead, q: Query, range: TimeRange)
    ensures var first, second := RowOf(LateEntry, 1), RowOf(EarlyEntry, 2);
            && p.seen == [first] && p.rows == [first] && !p.resp.hasNextPage
            && CursorChain([p], q, range, text, None, None)
            && Matches(q, second) && InRange(range, second)
            && forall tail | tail != [] && CursorChain(tail, q, range, text, None, p.resp.cursor) ::
                 second !in Gained(tail)
  {
    hide Gained, CursorMetadata, CursorRows, Beyond, CursorOutcome, SyncPull.Bodies, BytesUpTo;
    var first, second := RowOf(LateEntry, 1), RowOf(EarlyEntry, 2);
    q, range := Query("c", None, None, None), TimeRange(0, None);
    p := CursorRead([first], [first], [first],
                    CursorResponse(SyncPull.Bodies([first]), Some(CursorOf(first)), false, Some(1), 0));
    OneRowIsPulled(first, q, range, CursorMetadata(text, 0), p.resp);
    assert [p][1..] == [];
    assert !Beyond(p.resp.cursor, second) by { SecondIsBehind(); }
    forall tail | tail != [] && CursorChain(tail, q, range, text, None, p.resp.cursor)
      ensures second !in Gained(tail)
    {
      if second in Gained(tail) {
        GainedIsBeyond(tail, q, range, text, None, p.resp.cursor, second);
      }
    }
  }

  lemma SecondIsBehind()
    ensures !Beyond(Some(CursorOf(RowOf(LateEntry, 1))), RowOf(EarlyEntry, 2))
  {
  }

  lemma OneRowIsPulled(r: Row, q: Query, range: TimeRange, size: MetadataSize, resp: CursorResponse)
    requires Matches(q, r) && InRange(range, r)
    requires resp == CursorResponse(SyncPull.Bodies([r]), Some(CursorOf(r)), false, Some(r.syncSeq),
                                    resp.resolvedStartSeq)
    ensures UniqueIds([r]) && CursorOutcome([r], [r], q, range, None, size, None, [r], resp)
  {
    hide CursorRows, BytesUpTo, SyncPull.Bodies;
    var t := [r];
    CursorRowsListing(t, q, range, None);
    CursorRowsListing(t, q, range, Some(CursorOf(r)));
    RowOrderIsTotal();
    var rest := CursorRows(t, q, range, Some(CursorOf(r)));
    assert RowLe(r, r);
    StrictUnique(RowLt, rest, []);
  }
}
