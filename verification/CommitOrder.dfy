/**
 * When commit order is sequence order although operators change counter rows: sufficient rules for whole
 * runs, the exact condition, and a run that breaks it.
 */
module CommitOrder {
  import opened LogModel
  import opened Allocator
  import opened WriterProtocol

  // Raised counters leave gaps; order then needs lowering to wait for writers in flight.

  /** No write to the community lies between its snapshot and its allocation. */
  ghost predicate NoneScanned(s: State, c: string) {
    forall w | w in s.writers && s.writers[w].Scanned? :: s.writers[w].payload.communityId != c
  }

  /** Counters are lowered or deleted only while no write to their community is in flight. */
  ghost predicate LowersQuietly(s: State, steps: seq<Step>)
    requires Runs(s, steps)
    decreases |steps|
  {
    steps != [] ==>
      && (steps[0].Lower? || steps[0].Delete? ==> NoneScanned(s, steps[0].c))
      && LowersQuietly(Apply(s, steps[0]), steps[1..])
  }

  /** Whoever allocates next gets a sequence above everything its community has stored. */
  ghost predicate Ascending(s: State) {
    && UniquePositions(s.log)
    && (forall w | w in s.writers && s.writers[w].Scanned? ::
          var c := s.writers[w].payload.communityId;
          (c in s.counters && s.counters[c] >= Recovered(s.log, c)) || s.writers[w].recovered == Recovered(s.log, c))
    && (forall w | w in s.writers && s.writers[w].Allocated? ::
          s.writers[w].seqNo >= Recovered(s.log, s.writers[w].payload.communityId))
    && (forall v, w | v in s.writers && w in s.writers && s.writers[v].Allocated? && s.writers[w].Allocated? ::
          s.writers[v].payload.communityId == s.writers[w].payload.communityId ==> v == w)
  }

  lemma RecoveredAfterAppend(log: Table, r: Row, c: string)
    requires r.community == c ==> r.syncSeq >= Recovered(log, c)
    ensures Recovered(log + [r], c) == if r.community == c then r.syncSeq + 1 else Recovered(log, c)
  {
    hide Recovered;
    var grown := log + [r];
    RecoveredIsAboveAll(log, c);
    RecoveredIsAboveAll(grown, c);
    assert r in grown;
    if r.community == c {
      var i :| 0 <= i < |grown| && grown[i].community == c && grown[i].syncSeq == Recovered(grown, c) - 1;
      assert grown[i] in grown;
      assert forall x | x in grown :: x == r || x in log;
    } else if exists x :: x in log && x.community == c {
      var x :| x in log && x.community == c;
      assert x in grown;
      var i :| 0 <= i < |log| && log[i].community == c && log[i].syncSeq == Recovered(log, c) - 1;
      var j :| 0 <= j < |grown| && grown[j].community == c && grown[j].syncSeq == Recovered(grown, c) - 1;
      assert log[i] in log && grown[i] == log[i] && grown[i] in grown && log[j] in log;
    }
  }

  lemma CommitKeepsAscending(s: State, w: nat)
    requires Ascending(s) && Enabled(s, Commit(w))
    ensures Ascending(Apply(s, Commit(w))) && Extends(s.log, Apply(s, Commit(w)).log)
  {
    hide Recovered, HasId;
    var t := Apply(s, Commit(w));
    if t.log != s.log {
      var r := RowOf(s.writers[w].payload, s.writers[w].seqNo);
      RecoveredIsAboveAll(s.log, r.community);
      forall c ensures Recovered(t.log, c) == if r.community == c then r.syncSeq + 1 else Recovered(s.log, c) {
        RecoveredAfterAppend(s.log, r, c);
      }
    }
  }

  /** A writer that takes its snapshot or its number, gives up, or reads back. */
  lemma WriterKeepsAscending(s: State, step: Step)
    requires Ascending(s) && Enabled(s, step)
    requires step.Start? || step.Allocate? || step.Abort? || step.ReadBack?
    ensures Ascending(Apply(s, step)) && Extends(s.log, Apply(s, step).log)
  {
    hide Recovered, UniquePositions, Extends, StoredPosition, HasId, HasPosition;
    ExtendsReflexive(s.log);
    var t := Apply(s, step);
    assert t.log == s.log && t.counters == s.counters;
  }

  lemma CounterKeepsAscending(s: State, step: Step)
    requires Ascending(s) && Enabled(s, step)
    requires step.Lower? || step.Delete? || step.Raise?
    requires step.Lower? || step.Delete? ==> NoneScanned(s, step.c)
    ensures Ascending(Apply(s, step)) && Extends(s.log, Apply(s, step).log)
  {
    hide Recovered, UniquePositions, Extends;
    ExtendsReflexive(s.log);
    var t := Apply(s, step);
    assert t.log == s.log && t.writers == s.writers;
  }

  lemma StepKeepsAscending(s: State, step: Step)
    requires Ascending(s) && Enabled(s, step)
    requires step.Lower? || step.Delete? ==> NoneScanned(s, step.c)
    ensures Ascending(Apply(s, step)) && Extends(s.log, Apply(s, step).log)
  {
    hide Ascending, Enabled, Apply, Extends, NoneScanned;
    match step
    case Commit(w) => CommitKeepsAscending(s, w);
    case Lower(_, _) => CounterKeepsAscending(s, step);
    case Delete(_) => CounterKeepsAscending(s, step);
    case Raise(_, _) => CounterKeepsAscending(s, step);
    case _ => WriterKeepsAscending(s, step);
  }

  /**
   * Commit order is sequence order even when counters are raised at will, provided none is lowered
   * or deleted while a write to its community is in flight.
   */
  lemma {:induction false} QuietRunsAscend(s: State, steps: seq<Step>)
    requires Ascending(s) && Runs(s, steps) && LowersQuietly(s, steps)
    ensures Ascending(After(s, steps)) && Extends(s.log, After(s, steps).log)
    decreases |steps|
  {
    if steps != [] {
      var t := Apply(s, steps[0]);
      StepKeepsAscending(s, steps[0]);
      QuietRunsAscend(t, steps[1..]);
      ExtendsTransitive(s.log, t.log, After(s, steps).log);
    }
  }

  /** The counter row or the writer's own snapshot knows everything its community has stored. */
  ghost predicate UpToDate(s: State, w: nat)
    requires w in s.writers && s.writers[w].Scanned?
  {
    var c := s.writers[w].payload.communityId;
    (c in s.counters && s.counters[c] >= Recovered(s.log, c)) || s.writers[w].recovered >= Recovered(s.log, c)
  }

  /** A row goes in order behind a log exactly when its sequence is not below what the log suggests. */
  lemma AppendExtendsIff(log: Table, r: Row)
    requires r.syncSeq >= 1
    ensures Extends(log, log + [r]) <==> r.syncSeq >= Recovered(log, r.community)
  {
    hide Recovered;
    var c, t := r.community, log + [r];
    RecoveredIsAboveAll(log, c);
    assert t[|log|..] == [r] && r in t[|log|..];
    if HasPosition(log, c, Recovered(log, c) - 1) {
      var i :| 0 <= i < |log| && log[i].community == c && log[i].syncSeq == Recovered(log, c) - 1;
      assert log[i] in log;
    }
  }

  /** A row of another community leaves what the log suggests for this one. */
  lemma RecoveredOfOthers(log: Table, r: Row, c: string)
    requires r.community != c
    ensures Recovered(log + [r], c) == Recovered(log, c)
  {
    RecoveredAfterAppend(log, r, c);
  }

  /** One lock holder per community, and nothing below sequence 1. */
  ghost predicate Locking(s: State) {
    && (forall v, w | v in s.writers && w in s.writers && s.writers[v].Allocated? && s.writers[w].Allocated? ::
          s.writers[v].payload.communityId == s.writers[w].payload.communityId ==> v == w)
    && (forall r | r in s.log :: r.syncSeq >= 1)
    && (forall w | w in s.writers && s.writers[w].Scanned? :: s.writers[w].recovered >= 1)
    && (forall w | w in s.writers && s.writers[w].Allocated? :: s.writers[w].seqNo >= 1)
  }

  lemma EmptyIsLocking()
    ensures Locking(Empty)
  {
  }

  lemma StepKeepsLocking(s: State, step: Step)
    requires Locking(s) && Enabled(s, step)
    ensures Locking(Apply(s, step))
  {
    hide Recovered, HasId, HasPosition, StoredPosition;
    if step.Start? {
      RecoveredIsAboveAll(s.log, step.p.communityId);
      if HasPosition(s.log, step.p.communityId, Recovered(s.log, step.p.communityId) - 1) {
        FoundPosition(s.log, step.p.communityId, Recovered(s.log, step.p.communityId) - 1);
      }
    }
  }

  lemma FoundPosition(log: Table, c: string, seqNo: int)
    requires HasPosition(log, c, seqNo)
    ensures exists r :: r in log && r.syncSeq == seqNo
  {
    var i :| 0 <= i < |log| && log[i].community == c && log[i].syncSeq == seqNo;
    assert log[i] in log;
  }

  /** The states of a run, one before each step and one after the last. */
  ghost function States(s: State, steps: seq<Step>): (states: seq<State>)
    requires Runs(s, steps)
    ensures |states| == |steps| + 1 && states[0] == s && states[|steps|] == After(s, steps)
    decreases |steps|
  {
    if steps == [] then [s] else [s] + States(Apply(s, steps[0]), steps[1..])
  }

  lemma {:induction false} StatesFollow(s: State, steps: seq<Step>, i: nat)
    requires Runs(s, steps) && i < |steps| && Locking(s)
    ensures Enabled(States(s, steps)[i], steps[i]) && States(s, steps)[i + 1] == Apply(States(s, steps)[i], steps[i])
    ensures Locking(States(s, steps)[i])
    decreases |steps|
  {
    hide Enabled, Apply, Locking;
    if i > 0 {
      StepKeepsLocking(s, steps[0]);
      StatesFollow(Apply(s, steps[0]), steps[1..], i - 1);
    }
  }

  /** While a writer holds the lock of its community, its number and what the log suggests stay. */
  lemma HolderIsUndisturbed(s: State, step: Step, w: nat)
    requires Locking(s) && Enabled(s, step) && w in s.writers && s.writers[w].Allocated?
    requires w in Apply(s, step).writers && Apply(s, step).writers[w].Allocated?
    ensures Apply(s, step).writers[w] == s.writers[w]
    ensures var c := s.writers[w].payload.communityId; Recovered(Apply(s, step).log, c) == Recovered(s.log, c)
  {
    hide Recovered, HasId, HasPosition, StoredPosition;
    var c, t := s.writers[w].payload.communityId, Apply(s, step);
    if step.Commit? && t.log != s.log {
      RecoveredOfOthers(s.log, RowOf(s.writers[step.w].payload, s.writers[step.w].seqNo), c);
    }
  }

  /** A writer that is allocated at i allocated at some k before it, unless it held its lock from the start. */
  lemma {:induction false} SinceAllocation(s: State, steps: seq<Step>, i: nat, w: nat) returns (k: nat)
    requires Runs(s, steps) && i <= |steps| && Locking(s)
    requires forall v | v in s.writers :: !s.writers[v].Allocated?
    requires var t := States(s, steps)[i]; w in t.writers && t.writers[w].Allocated?
    ensures k < i && steps[k] == Allocate(w)
    ensures var a, t := States(s, steps)[k], States(s, steps)[i];
            && Enabled(a, Allocate(w)) && a.writers[w].payload == t.writers[w].payload
            && t.writers[w].seqNo == AllocatedSeq(a.counters, t.writers[w].payload.communityId, a.writers[w].recovered)
            && Recovered(t.log, t.writers[w].payload.communityId) == Recovered(a.log, t.writers[w].payload.communityId)
    ensures forall j | k < j <= i :: w in States(s, steps)[j].writers && States(s, steps)[j].writers[w].Allocated?
    decreases i
  {
    hide Recovered, HasId, HasPosition, StoredPosition, Locking, Runs, AllocatedSeq;
    var states := States(s, steps);
    StatesFollow(s, steps, i - 1);
    var before := states[i - 1];
    if w in before.writers && before.writers[w].Allocated? {
      k := SinceAllocation(s, steps, i - 1, w);
      HolderIsUndisturbed(before, steps[i - 1], w);
    } else {
      k := i - 1;
      OnlyAllocateAllocates(before, steps[i - 1], w);
    }
  }

  lemma OnlyAllocateAllocates(s: State, step: Step, w: nat)
    requires Enabled(s, step) && !(w in s.writers && s.writers[w].Allocated?)
    requires w in Apply(s, step).writers && Apply(s, step).writers[w].Allocated?
    ensures step == Allocate(w) && Apply(s, step).log == s.log
    ensures Apply(s, step).writers[w]
         == Allocated(s.writers[w].payload,
                      AllocatedSeq(s.counters, s.writers[w].payload.communityId, s.writers[w].recovered))
  {
    hide Recovered, HasId, HasPosition, StoredPosition, AllocatedSeq;
  }

  /** Every commit that stored a row put it behind all earlier rows of its community. */
  ghost predicate ExtendsInOrder(s: State, steps: seq<Step>)
    requires Runs(s, steps)
  {
    forall i | 0 <= i < |steps| :: Extends(States(s, steps)[i].log, States(s, steps)[i + 1].log)
  }

  /** Step i stores a row of a writer that allocated at step k. */
  ghost predicate StoresSince(s: State, steps: seq<Step>, k: nat, i: nat)
    requires Runs(s, steps) && k < i < |steps|
  {
    && steps[k].Allocate? && steps[i] == Commit(steps[k].w)
    && States(s, steps)[i + 1].log != States(s, steps)[i].log
  }

  /** Every write that stored a row allocated when its counter row or its snapshot was up to date. */
  ghost predicate WritesUpToDate(s: State, steps: seq<Step>)
    requires Runs(s, steps)
  {
    forall k, i | 0 <= k < i < |steps| && StoresSince(s, steps, k, i) ::
      AllocatesUpToDate(States(s, steps)[k], steps[k].w)
  }

  ghost predicate AllocatesUpToDate(s: State, w: nat) { w in s.writers && s.writers[w].Scanned? && UpToDate(s, w) }

  /** One commit, judged when its writer allocated. */
  lemma CommitExtendsIff(s: State, steps: seq<Step>, i: nat) returns (k: nat)
    requires Runs(s, steps) && i < |steps| && Locking(s) && steps[i].Commit?
    requires forall v | v in s.writers :: !s.writers[v].Allocated?
    ensures k < i && steps[k] == Allocate(steps[i].w)
    ensures States(s, steps)[i + 1].log != States(s, steps)[i].log ==>
              (Extends(States(s, steps)[i].log, States(s, steps)[i + 1].log)
               <==> AllocatesUpToDate(States(s, steps)[k], steps[k].w))
    ensures forall j | k < j <= i ::
              steps[i].w in States(s, steps)[j].writers && States(s, steps)[j].writers[steps[i].w].Allocated?
  {
    hide Recovered, HasId, HasPosition, StoredPosition, Runs, Extends, States;
    var w := steps[i].w;
    StatesFollow(s, steps, i);
    var t := States(s, steps)[i];
    k := SinceAllocation(s, steps, i, w);
    if States(s, steps)[i + 1].log != t.log {
      AppendExtendsIff(t.log, RowOf(t.writers[w].payload, t.writers[w].seqNo));
    }
  }

  /**
   * A run of writers, tampered with in any way, keeps commit order if and only if every write that went
   * through found its counter row or its own snapshot up to date when it allocated.
   */
  lemma {:induction false} RunKeepsOrderIffUpToDate(s: State, steps: seq<Step>)
    requires Runs(s, steps) && Locking(s) && forall v | v in s.writers :: !s.writers[v].Allocated?
    ensures ExtendsInOrder(s, steps) <==> WritesUpToDate(s, steps)
  {
    hide Runs, Extends, States, Locking, AllocatesUpToDate;
    if WritesUpToDate(s, steps) {
      forall i | 0 <= i < |steps|
        ensures Extends(States(s, steps)[i].log, States(s, steps)[i + 1].log)
      {
        StatesFollow(s, steps, i);
        ExtendsReflexive(States(s, steps)[i].log);
        if States(s, steps)[i + 1].log != States(s, steps)[i].log {
          var k := CommitExtendsIff(s, steps, i);
          assert StoresSince(s, steps, k, i);
        }
      }
    }
    if ExtendsInOrder(s, steps) {
      forall k, i | 0 <= k < i < |steps| && StoresSince(s, steps, k, i)
        ensures AllocatesUpToDate(States(s, steps)[k], steps[k].w)
      {
        var first := CommitExtendsIff(s, steps, i);
        AllocatesOnce(s, steps, k, first, i);
      }
    }
  }

  /** A writer takes one snapshot: once past it, it never allocates again. */
  lemma {:induction false} PastSnapshotForGood(s: State, steps: seq<Step>, j: nat, m: nat, w: nat)
    requires Runs(s, steps) && Locking(s) && j <= m <= |steps|
    requires w in States(s, steps)[j].writers && !States(s, steps)[j].writers[w].Scanned?
    ensures w in States(s, steps)[m].writers && !States(s, steps)[m].writers[w].Scanned?
    decreases m
  {
    hide Recovered, HasId, HasPosition, StoredPosition, Locking, Runs, States;
    if j < m {
      PastSnapshotForGood(s, steps, j, m - 1, w);
      StatesFollow(s, steps, m - 1);
    }
  }

  lemma AllocatesOnce(s: State, steps: seq<Step>, k: nat, first: nat, i: nat)
    requires Runs(s, steps) && Locking(s) && k < i < |steps| && first < i && steps[k] == steps[first]
             && steps[k].Allocate?
    requires var w := steps[k].w;
             forall j | first < j <= i :: w in States(s, steps)[j].writers && States(s, steps)[j].writers[w].Allocated?
    ensures k == first
  {
    hide Recovered, Locking, Runs, States, AllocatedSeq;
    var w := steps[k].w;
    StatesFollow(s, steps, k);
    StatesFollow(s, steps, first);
    if k < first {
      PastSnapshotForGood(s, steps, k + 1, first, w);
    }
  }

  lemma {:induction false} StatesAreSound(s: State, steps: seq<Step>, i: nat)
    requires Sound(s) && Runs(s, steps) && Locking(s) && i <= |steps|
    ensures Sound(States(s, steps)[i])
  {
    hide Runs, States, Locking, Enabled, Apply, Sound;
    if i > 0 {
      StatesAreSound(s, steps, i - 1);
      StatesFollow(s, steps, i - 1);
      StepKeepsSound(States(s, steps)[i - 1], steps[i - 1]);
    }
  }

  lemma {:induction false} OrderIsTransitive(s: State, steps: seq<Step>, i: nat, j: nat)
    requires Runs(s, steps) && ExtendsInOrder(s, steps) && i <= j <= |steps|
    ensures Extends(States(s, steps)[i].log, States(s, steps)[j].log)
    decreases j
  {
    hide Runs, States, Extends;
    if i == j {
      ExtendsReflexive(States(s, steps)[i].log);
    } else {
      OrderIsTransitive(s, steps, i, j - 1);
      assert Extends(States(s, steps)[j - 1].log, States(s, steps)[j - 1 + 1].log);
      ExtendsTransitive(States(s, steps)[i].log, States(s, steps)[j - 1].log, States(s, steps)[j].log);
    }
  }

  ghost function LogsOf(states: seq<State>): seq<Table> { seq(|states|, i requires 0 <= i < |states| => states[i].log) }

  /** The readers' premise, that they see a history, holds of a run if and only if its writes were up to date. */
  lemma RunIsHistoryIffUpToDate(s: State, steps: seq<Step>)
    requires Runs(s, steps) && Sound(s) && Locking(s) && forall v | v in s.writers :: !s.writers[v].Allocated?
    ensures SyncPull.History(LogsOf(States(s, steps))) <==> WritesUpToDate(s, steps)
  {
    hide Runs, States, Extends, Locking, Sound, WritesUpToDate;
    var logs := LogsOf(States(s, steps));
    RunKeepsOrderIffUpToDate(s, steps);
    if ExtendsInOrder(s, steps) {
      forall i, j | 0 <= i <= j < |logs| ensures Extends(logs[i], logs[j]) {
        OrderIsTransitive(s, steps, i, j);
      }
      forall i | 0 <= i < |logs| ensures UniquePositions(logs[i]) {
        StatesAreSound(s, steps, i);
        SoundIsUnique(States(s, steps)[i]);
      }
    }
    if SyncPull.History(logs) {
      forall i | 0 <= i < |steps| ensures Extends(States(s, steps)[i].log, States(s, steps)[i + 1].log) {
        assert Extends(logs[i], logs[i + 1]);
      }
    }
  }

  /** Interleaving, whatever operators do: reads at any increasing points of an up-to-date run see a history. */
  lemma ReadsOfUpToDateRunsAreAHistory(s: State, steps: seq<Step>, at: seq<nat>)
    requires Runs(s, steps) && Sound(s) && Locking(s) && forall v | v in s.writers :: !s.writers[v].Allocated?
    requires WritesUpToDate(s, steps)
    requires at != [] && (forall i | 0 <= i < |at| :: at[i] <= |steps|)
             && forall i, j | 0 <= i <= j < |at| :: at[i] <= at[j]
    ensures SyncPull.History(seq(|at|, i requires 0 <= i < |at| => States(s, steps)[at[i]].log))
  {
    hide Runs, States, Extends, Locking, Sound, WritesUpToDate, UniquePositions;
    RunIsHistoryIffUpToDate(s, steps);
    var logs := LogsOf(States(s, steps));
    forall i, j | 0 <= i <= j < |at|
      ensures Extends(States(s, steps)[at[i]].log, States(s, steps)[at[j]].log)
      ensures UniquePositions(States(s, steps)[at[i]].log)
    {
      assert Extends(logs[at[i]], logs[at[j]]);
    }
  }

  lemma SoundIsUnique(s: State)
    requires Sound(s)
    ensures UniquePositions(s.log)
  {
  }

  // A run in which order is lost: a writer of `a` takes its snapshot, the counter is raised to 5,
  // `b` is written at 5, the counter is deleted, and the writer of `a` falls back on its snapshot.

  const EntryA := Payload("a", "c", "db", [], 1)
  const EntryB := Payload("b", "c", "db", [], 1)

  lemma RaisedWrite() returns (s1: State, s2: State, s3: State, s4: State, s5: State)
    ensures Enabled(Empty, Start(0, EntryA)) && s1 == Apply(Empty, Start(0, EntryA))
    ensures Enabled(s1, Raise("c", 5)) && s2 == Apply(s1, Raise("c", 5))
    ensures Enabled(s2, Start(1, EntryB)) && s3 == Apply(s2, Start(1, EntryB))
    ensures Enabled(s3, Allocate(1)) && s4 == Apply(s3, Allocate(1))
    ensures Enabled(s4, Commit(1)) && s5 == Apply(s4, Commit(1))
    ensures s5.log == [RowOf(EntryB, 5)] && s5.writers.Keys == {0, 1}
    ensures s5.writers[0] == Scanned(EntryA, 1) && s5.writers[1].Done?
  {
    hide Recovered;
    RecoveredIsAboveAll([], "c");
    s1 := Apply(Empty, Start(0, EntryA));
    s2 := Apply(s1, Raise("c", 5));
    s3 := Apply(s2, Start(1, EntryB));
    s4 := Apply(s3, Allocate(1));
    assert s4.writers[1] == Allocated(EntryB, 5);
    s5 := Apply(s4, Commit(1));
  }

  lemma StaleWrite(s5: State) returns (s6: State, s7: State)
    requires s5.log == [RowOf(EntryB, 5)] && s5.writers.Keys == {0, 1}
    requires s5.writers[0] == Scanned(EntryA, 1) && s5.writers[1].Done?
    ensures Enabled(s5, Delete("c")) && s6 == Apply(s5, Delete("c"))
    ensures Enabled(s6, Allocate(0)) && s7 == Apply(s6, Allocate(0))
    ensures Enabled(s7, Commit(0)) && Apply(s7, Commit(0)).log == [RowOf(EntryB, 5), RowOf(EntryA, 1)]
  {
    s6 := Apply(s5, Delete("c"));
    s7 := Apply(s6, Allocate(0));
    assert s7.writers[0] == Allocated(EntryA, 1);
  }

  /** Both conditions together are needed: raising, then deleting under a stale snapshot, commits 5 before 1. */
  lemma RaiseThenDeleteBreaksOrder() returns (steps: seq<Step>)
    ensures Runs(Empty, steps)
    ensures var log := After(Empty, steps).log;
            |log| == 2 && log[0].community == log[1].community && log[0].syncSeq == 5 && log[1].syncSeq == 1
  {
    hide Enabled, Apply;
    var s1, s2, s3, s4, s5 := RaisedWrite();
    var s6, s7 := StaleWrite(s5);
    steps := [Start(0, EntryA), Raise("c", 5), Start(1, EntryB), Allocate(1), Commit(1), Delete("c"), Allocate(0),
              Commit(0)];
    RunEight(Empty, steps, s1, s2, s3, s4, s5, s6, s7);
  }

  lemma RunEight(s: State, steps: seq<Step>, s1: State, s2: State, s3: State, s4: State, s5: State, s6: State,
      s7: State)
    requires |steps| == 8
    requires Enabled(s, steps[0]) && s1 == Apply(s, steps[0]) && Enabled(s1, steps[1]) && s2 == Apply(s1, steps[1])
    requires Enabled(s2, steps[2]) && s3 == Apply(s2, steps[2]) && Enabled(s3, steps[3]) && s4 == Apply(s3, steps[3])
    requires Enabled(s4, steps[4]) && s5 == Apply(s4, steps[4]) && Enabled(s5, steps[5]) && s6 == Apply(s5, steps[5])
    requires Enabled(s6, steps[6]) && s7 == Apply(s6, steps[6]) && Enabled(s7, steps[7])
    ensures Runs(s, steps) && After(s, steps) == Apply(s7, steps[7])
  {
    hide Enabled, Apply;
    RunOne(s7, steps[7..]);
    RunOne(s6, steps[6..]);
    RunOne(s5, steps[5..]);
    RunOne(s4, steps[4..]);
    RunOne(s3, steps[3..]);
    RunOne(s2, steps[2..]);
    RunOne(s1, steps[1..]);
    RunOne(s, steps);
  }
}
