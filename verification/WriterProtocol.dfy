/**
 * Every interleaving of concurrent writers. Each writer starts by taking a statement snapshot, later
 * allocates under the counter-row lock, and finally commits or aborts; operators may lower, delete
 * or raise counter rows that no writer holds.
 */
module WriterProtocol {
  import opened Wrappers
  import opened LogModel
  import opened Allocator
  import SyncPull

  datatype Phase =
    | Scanned(payload: Payload, recovered: int)
    | Allocated(payload: Payload, seqNo: int)
    | Duplicate(payload: Payload)
    | Done(payload: Payload, result: Option<Position>)

  datatype State = State(log: Table, counters: map<string, int>, writers: map<nat, Phase>)

  datatype Step =
    | Start(w: nat, p: Payload)
    | Allocate(w: nat)
    | Commit(w: nat)
    | Abort(w: nat)
    | ReadBack(w: nat)
    | Lower(c: string, value: int)
    | Delete(c: string)
    | Raise(c: string, value: int)

  /** The counter row of `c` is locked by a statement that has not finished. */
  ghost predicate Locked(s: State, c: string) {
    exists w | w in s.writers :: s.writers[w].Allocated? && s.writers[w].payload.communityId == c
  }

  ghost predicate Enabled(s: State, step: Step) {
    match step
    case Start(w, _) => w !in s.writers
    case Allocate(w) => w in s.writers && s.writers[w].Scanned? && !Locked(s, s.writers[w].payload.communityId)
    case Commit(w) => w in s.writers && s.writers[w].Allocated?
    case Abort(w) => w in s.writers && !s.writers[w].Done?
    case ReadBack(w) => w in s.writers && s.writers[w].Duplicate?
    case Lower(c, value) => c in s.counters && value <= s.counters[c] && !Locked(s, c)
    case Delete(c) => !Locked(s, c)
    case Raise(c, value) => (c in s.counters ==> value > s.counters[c]) && !Locked(s, c)
  }

  function Apply(s: State, step: Step): State
    requires Enabled(s, step)
  {
    match step
    case Start(w, p) => s.(writers := s.writers[w := Scanned(p, Recovered(s.log, p.communityId))])
    case Allocate(w) =>
      var p := s.writers[w].payload;
      s.(writers := s.writers[w := Allocated(p, AllocatedSeq(s.counters, p.communityId, s.writers[w].recovered))])
    case Commit(w) =>
      var p, seqNo := s.writers[w].payload, s.writers[w].seqNo;
      if HasId(s.log, p.cid) then s.(writers := s.writers[w := Duplicate(p)])
      else if HasPosition(s.log, p.communityId, seqNo) then s.(writers := s.writers[w := Done(p, None)])
      else State(s.log + [RowOf(p, seqNo)], s.counters[p.communityId := seqNo + 1],
                 s.writers[w := Done(p, Some(Position(p.receivedAt, seqNo)))])
    case Abort(w) => s.(writers := s.writers[w := Done(s.writers[w].payload, None)])
    case ReadBack(w) =>
      s.(writers := s.writers[w := Done(s.writers[w].payload, StoredPosition(s.log, s.writers[w].payload.cid))])
    case Lower(c, value) => s.(counters := s.counters[c := value])
    case Delete(c) => s.(counters := s.counters - {c})
    case Raise(c, value) => s.(counters := s.counters[c := value])
  }

  ghost predicate Runs(s: State, steps: seq<Step>)
    decreases |steps|
  {
    steps != [] ==> Enabled(s, steps[0]) && Runs(Apply(s, steps[0]), steps[1..])
  }

  ghost function After(s: State, steps: seq<Step>): State
    requires Runs(s, steps)
    decreases |steps|
  {
    if steps == [] then s else After(Apply(s, steps[0]), steps[1..])
  }

  lemma RunOne(s: State, steps: seq<Step>)
    requires steps != [] && Enabled(s, steps[0]) && Runs(Apply(s, steps[0]), steps[1..])
    ensures Runs(s, steps) && After(s, steps) == After(Apply(s, steps[0]), steps[1..])
  {
  }

  lemma RunNone(s: State)
    ensures Runs(s, []) && After(s, []) == s
  {
  }

  const Empty := State([], map[], map[])

  // Whatever operators do to the counters.

  /** Keys hold, and every answer given to a client is the position of the row stored under its id. */
  ghost predicate Sound(s: State) {
    && UniqueIds(s.log) && UniquePositions(s.log)
    && (forall w | w in s.writers ::
          match s.writers[w]
          case Duplicate(p) => HasId(s.log, p.cid)
          case Done(p, Some(pos)) => StoredPosition(s.log, p.cid) == Some(pos)
          case _ => true)
  }

  lemma {:induction false} FoundAtIndex(log: Table, cid: string, i: nat)
    requires UniqueIds(log) && i < |log| && log[i].id == cid
    ensures FindById(log, cid) == Some(log[i])
  {
    var last := |log| - 1;
    if log[last].id == cid {
      assert i == last;
    } else {
      assert log[..last][i] == log[i];
      FoundAtIndex(log[..last], cid, i);
    }
  }

  lemma FindIsStable(log: Table, later: Table, cid: string)
    requires UniqueIds(later) && log <= later && HasId(log, cid)
    ensures FindById(later, cid) == FindById(log, cid)
  {
    var i :| 0 <= i < |log| && log[i].id == cid;
    assert later[i] == log[i];
    assert UniqueIds(log) by {
      assert forall k | 0 <= k < |log| :: log[k] == later[k];
    }
    FoundAtIndex(log, cid, i);
    FoundAtIndex(later, cid, i);
  }

  lemma AppendKeepsKeys(log: Table, r: Row)
    requires UniqueIds(log) && UniquePositions(log)
    requires !HasId(log, r.id) && !HasPosition(log, r.community, r.syncSeq)
    ensures UniqueIds(log + [r]) && UniquePositions(log + [r])
    ensures FindById(log + [r], r.id) == Some(r)
  {
    assert (log + [r])[|log|] == r;
  }

  lemma StoringKeepsSound(s: State, w: nat)
    requires Sound(s) && Enabled(s, Commit(w)) && Apply(s, Commit(w)).log != s.log
    ensures Sound(Apply(s, Commit(w))) && s.log <= Apply(s, Commit(w)).log
  {
    hide FindById, HasPosition, UniquePositions;
    var t := Apply(s, Commit(w));
    AppendKeepsKeys(s.log, RowOf(s.writers[w].payload, s.writers[w].seqNo));
    forall v | v in s.writers && v != w && HasId(s.log, s.writers[v].payload.cid)
      ensures FindById(t.log, s.writers[v].payload.cid) == FindById(s.log, s.writers[v].payload.cid)
    {
      FindIsStable(s.log, t.log, s.writers[v].payload.cid);
    }
  }

  lemma ReadingBackKeepsSound(s: State, w: nat)
    requires Sound(s) && Enabled(s, ReadBack(w))
    ensures Sound(Apply(s, ReadBack(w)))
  {
    hide FindById, HasPosition, UniquePositions, UniqueIds;
  }

  lemma StepKeepsSound(s: State, step: Step)
    requires Sound(s) && Enabled(s, step)
    ensures Sound(Apply(s, step)) && s.log <= Apply(s, step).log
  {
    hide FindById, HasPosition, HasId, StoredPosition, UniquePositions, UniqueIds, Recovered;
    if step.Commit? && s.log != Apply(s, step).log {
      StoringKeepsSound(s, step.w);
    } else if step.ReadBack? {
      ReadingBackKeepsSound(s, step.w);
    }
  }

  /**
   * Over any run, tampering included: nothing stored is lost or moved, ids and (community, sequence)
   * pairs stay distinct, and every position a writer was answered is the one stored under its id.
   */
  lemma {:induction false} RunsAreSound(s: State, steps: seq<Step>)
    requires Sound(s) && Runs(s, steps)
    ensures Sound(After(s, steps)) && s.log <= After(s, steps).log
    decreases |steps|
  {
    if steps != [] {
      StepKeepsSound(s, steps[0]);
      RunsAreSound(Apply(s, steps[0]), steps[1..]);
    }
  }

  /** While an id is stored, no step of a writer that carries it touches either table. */
  lemma StoredIdChangesNothing(s: State, w: nat, step: Step)
    requires Enabled(s, step) && w in s.writers && HasId(s.log, s.writers[w].payload.cid)
    requires step in {Allocate(w), Commit(w), Abort(w), ReadBack(w)}
    ensures Apply(s, step).log == s.log && Apply(s, step).counters == s.counters
  {
  }

  /** A commit that stores a row stores what its client sent, and answers with where it is. */
  lemma CommitStoresPayload(s: State, w: nat)
    requires Enabled(s, Commit(w))
    ensures var t, p := Apply(s, Commit(w)), s.writers[w].payload;
            t.log == s.log ||
            (&& |t.log| == |s.log| + 1 && t.log[..|s.log|] == s.log && Carries(t.log[|s.log|], p)
             && t.writers[w] == Done(p, Some(Position(p.receivedAt, t.log[|s.log|].syncSeq))))
  {
  }

  /** Every row beyond `base` holds what some writer's client sent. */
  ghost predicate RowsWereSent(base: Table, s: State) {
    forall r | r in s.log && r !in base :: exists w | w in s.writers :: Carries(r, s.writers[w].payload)
  }

  lemma StepKeepsSent(base: Table, s: State, step: Step)
    requires RowsWereSent(base, s) && Enabled(s, step)
    ensures RowsWereSent(base, Apply(s, step))
    ensures forall w | w in s.writers :: w in Apply(s, step).writers
                                         && Apply(s, step).writers[w].payload == s.writers[w].payload
  {
    hide Recovered, HasId, HasPosition, StoredPosition, AllocatedSeq, Carries;
    var t := Apply(s, step);
    if step.Commit? { CommitStoresPayload(s, step.w); }
    forall r | r in t.log && r !in base ensures exists w | w in t.writers :: Carries(r, t.writers[w].payload) {
      if r in s.log {
        var w :| w in s.writers && Carries(r, s.writers[w].payload);
        assert Carries(r, t.writers[w].payload);
      } else {
        assert step.Commit? && r == t.log[|s.log|];
        assert Carries(r, t.writers[step.w].payload);
      }
    }
  }

  /** Over any run, tampering included, what is stored is what was sent, column by column. */
  lemma {:induction false} RunsStoreWhatWasSent(base: Table, s: State, steps: seq<Step>)
    requires Runs(s, steps) && RowsWereSent(base, s)
    ensures RowsWereSent(base, After(s, steps))
    decreases |steps|
  {
    hide Enabled, Apply, RowsWereSent;
    if steps != [] {
      StepKeepsSent(base, s, steps[0]);
      RunsStoreWhatWasSent(base, Apply(s, steps[0]), steps[1..]);
    }
  }

  // Sequences are consecutive as long as no counter is raised from outside.

  /** How many of the first n rows belong to the community. */
  function CountUpTo(log: Table, c: string, n: nat): nat
    requires n <= |log|
  {
    if n == 0 then 0 else CountUpTo(log, c, n - 1) + if log[n - 1].community == c then 1 else 0
  }

  function Count(log: Table, c: string): nat { CountUpTo(log, c, |log|) }

  /** The community's rows carry exactly the sequences 1..n. */
  ghost predicate Consecutive(log: Table, c: string) {
    && (forall r | r in log && r.community == c :: 1 <= r.syncSeq <= Count(log, c))
    && (forall k | 1 <= k <= Count(log, c) :: HasPosition(log, c, k))
  }

  /** Row i was committed with the sequence that follows everything its community had then. */
  ghost predicate CommittedInOrder(log: Table, i: nat)
    requires i < |log|
  {
    log[i].syncSeq == CountUpTo(log, log[i].community, i) + 1
  }

  ghost predicate Ordered(s: State) {
    && UniquePositions(s.log)
    && (forall c :: Consecutive(s.log, c))
    && (forall c | c in s.counters :: s.counters[c] <= Count(s.log, c) + 1)
    && (forall w | w in s.writers && s.writers[w].Scanned? ::
          1 <= s.writers[w].recovered <= Count(s.log, s.writers[w].payload.communityId) + 1)
    && (forall w | w in s.writers && s.writers[w].Allocated? ::
          1 <= s.writers[w].seqNo <= Count(s.log, s.writers[w].payload.communityId) + 1)
  }

  lemma {:induction false} CountOfPrefix(a: Table, b: Table, c: string, n: nat)
    requires n <= |a| && a <= b
    ensures CountUpTo(a, c, n) == CountUpTo(b, c, n)
  {
    if n > 0 {
      CountOfPrefix(a, b, c, n - 1);
    }
  }

  lemma CountAfterAppend(log: Table, r: Row, c: string)
    ensures Count(log + [r], c) == Count(log, c) + if r.community == c then 1 else 0
  {
    CountOfPrefix(log, log + [r], c, |log|);
  }

  lemma {:induction false} CountIsZero(log: Table, c: string, n: nat)
    requires n <= |log| && forall i | 0 <= i < n :: log[i].community != c
    ensures CountUpTo(log, c, n) == 0
  {
    if n > 0 {
      CountIsZero(log, c, n - 1);
    }
  }

  lemma RecoveredFollowsCount(log: Table, c: string)
    requires Consecutive(log, c)
    ensures Recovered(log, c) == Count(log, c) + 1
  {
    RecoveredIsAboveAll(log, c);
    if Count(log, c) > 0 {
      assert HasPosition(log, c, Count(log, c));
      var i :| 0 <= i < |log| && log[i].community == c && log[i].syncSeq == Count(log, c);
      assert log[i] in log;
      var j :| 0 <= j < |log| && log[j].community == c && log[j].syncSeq == Recovered(log, c) - 1;
      assert log[j] in log;
    } else {
      assert forall r | r in log :: r.community != c;
    }
  }

  lemma AppendKeepsConsecutive(log: Table, r: Row, c: string)
    requires Consecutive(log, c) && (r.community == c ==> r.syncSeq == Count(log, c) + 1)
    ensures Consecutive(log + [r], c)
  {
    var grown := log + [r];
    CountAfterAppend(log, r, c);
    forall k | 1 <= k <= Count(grown, c)
      ensures HasPosition(grown, c, k)
    {
      if k <= Count(log, c) {
        assert HasPosition(log, c, k);
        var i :| 0 <= i < |log| && log[i].community == c && log[i].syncSeq == k;
        assert grown[i] == log[i];
      } else {
        assert grown[|log|] == r;
      }
    }
  }

  lemma CommitKeepsOrdered(s: State, w: nat)
    requires Ordered(s) && Enabled(s, Commit(w))
    ensures Ordered(Apply(s, Commit(w)))
    ensures var t := Apply(s, Commit(w));
            t.log == s.log ||
            (&& t.log == s.log + [t.log[|s.log|]]
             && CommittedInOrder(t.log, |s.log|))
  {
    var p, seqNo := s.writers[w].payload, s.writers[w].seqNo;
    var t := Apply(s, Commit(w));
    if t.log != s.log {
      var r := RowOf(p, seqNo);
      assert Consecutive(s.log, p.communityId);
      assert seqNo <= Count(s.log, p.communityId) ==> HasPosition(s.log, p.communityId, seqNo);
      assert seqNo == Count(s.log, p.communityId) + 1;
      forall c ensures Consecutive(t.log, c)
          && Count(t.log, c) == Count(s.log, c) + if c == p.communityId then 1 else 0 {
        AppendKeepsConsecutive(s.log, r, c);
        CountAfterAppend(s.log, r, c);
      }
      CountOfPrefix(s.log, t.log, p.communityId, |s.log|);
      assert t.log[|s.log|] == r;
    }
  }

  lemma StepKeepsOrdered(s: State, step: Step)
    requires Ordered(s) && Enabled(s, step) && !step.Raise?
    ensures Ordered(Apply(s, step))
    ensures var t := Apply(s, step);
            t.log == s.log ||
            (t.log == s.log + [t.log[|s.log|]] && CommittedInOrder(t.log, |s.log|))
  {
    match step
    case Start(w, p) => RecoveredFollowsCount(s.log, p.communityId);
    case Commit(w) => CommitKeepsOrdered(s, w);
    case _ =>
  }

  /** Commit order is sequence order, with no gap, in the part of the log a run adds. */
  ghost predicate AddsInOrder(earlier: Table, later: Table) {
    earlier <= later && forall i | |earlier| <= i < |later| :: CommittedInOrder(later, i)
  }

  lemma AddsInOrderTransitive(a: Table, b: Table, c: Table)
    requires AddsInOrder(a, b) && AddsInOrder(b, c)
    ensures AddsInOrder(a, c)
  {
    forall i | |a| <= i < |c|
      ensures CommittedInOrder(c, i)
    {
      if i < |b| {
        assert CommittedInOrder(b, i) && c[i] == b[i];
        CountOfPrefix(b, c, c[i].community, i);
      }
    }
  }

  /**
   * With stale snapshots, aborts, duplicate ids, and counters lowered or deleted between writes, a
   * community's sequences are always exactly 1..n and every commit takes the next one.
   */
  lemma {:induction false} RunsAreOrdered(s: State, steps: seq<Step>)
    requires Ordered(s) && Runs(s, steps) && forall step | step in steps :: !step.Raise?
    ensures Ordered(After(s, steps)) && AddsInOrder(s.log, After(s, steps).log)
    decreases |steps|
  {
    if steps != [] {
      var t := Apply(s, steps[0]);
      assert steps[0] in steps;
      StepKeepsOrdered(s, steps[0]);
      assert forall step | step in steps[1..] :: step in steps;
      RunsAreOrdered(t, steps[1..]);
      AddsInOrderTransitive(s.log, t.log, After(s, steps).log);
    }
  }

  lemma EmptyIsOrderedAndSound()
    ensures Ordered(Empty) && Sound(Empty) && Synced(Empty)
  {
  }

  lemma {:induction false} CountGrows(log: Table, c: string, m: nat, n: nat)
    requires m <= n <= |log|
    ensures CountUpTo(log, c, m) <= CountUpTo(log, c, n)
  {
    if m < n {
      CountGrows(log, c, m, n - 1);
    }
  }

  lemma OrderedLogsExtend(s: State, later: Table)
    requires Ordered(s) && AddsInOrder(s.log, later)
    ensures Extends(s.log, later)
  {
    forall r, t | r in s.log && t in later[|s.log|..] && r.community == t.community
      ensures r.syncSeq < t.syncSeq
    {
      var i :| |s.log| <= i < |later| && later[i] == t;
      assert CommittedInOrder(later, i) && Consecutive(s.log, r.community);
      CountOfPrefix(s.log, later, r.community, |s.log|);
      CountGrows(later, r.community, |s.log|, i);
    }
  }

  /** The committed log before the first step and after each one. */
  ghost function Logs(s: State, steps: seq<Step>): (logs: seq<Table>)
    requires Runs(s, steps)
    ensures |logs| == |steps| + 1 && logs[0] == s.log && logs[|steps|] == After(s, steps).log
    decreases |steps|
  {
    if steps == [] then [s.log] else [s.log] + Logs(Apply(s, steps[0]), steps[1..])
  }

  lemma {:induction false} LogsExtend(s: State, steps: seq<Step>, i: nat, j: nat)
    requires Ordered(s) && Runs(s, steps) && (forall step | step in steps :: !step.Raise?) && i <= j <= |steps|
    ensures Extends(Logs(s, steps)[i], Logs(s, steps)[j]) && UniquePositions(Logs(s, steps)[i])
    decreases |steps|
  {
    hide Enabled, Apply, Extends, AddsInOrder;
    ExtendsReflexive(s.log);
    if steps != [] && j > 0 {
      var t := Apply(s, steps[0]);
      assert steps[0] in steps;
      assert forall step | step in steps[1..] :: step in steps;
      StepKeepsOrdered(s, steps[0]);
      if i > 0 {
        LogsExtend(t, steps[1..], i - 1, j - 1);
      } else {
        OrderedLogsExtend(s, t.log);
        LogsExtend(t, steps[1..], 0, j - 1);
        ExtendsTransitive(s.log, t.log, Logs(s, steps)[j]);
      }
    }
  }

  /**
   * Interleaving: database reads that fall at any increasing points of any run of the writers see a
   * history in which every pull is exact.
   */
  lemma ReadsOfARunAreAHistory(s: State, steps: seq<Step>, at: seq<nat>)
    requires Ordered(s) && Runs(s, steps) && forall step | step in steps :: !step.Raise?
    requires at != [] && (forall i | 0 <= i < |at| :: at[i] <= |steps|)
             && forall i, j | 0 <= i <= j < |at| :: at[i] <= at[j]
    ensures SyncPull.History(seq(|at|, i requires 0 <= i < |at| => Logs(s, steps)[at[i]]))
  {
    forall i, j | 0 <= i <= j < |at|
      ensures Extends(Logs(s, steps)[at[i]], Logs(s, steps)[at[j]]) && UniquePositions(Logs(s, steps)[at[i]])
    {
      LogsExtend(s, steps, at[i], at[j]);
    }
  }

  // With the counters left alone, no fresh entry is refused.

  /** Each counter row, where there is one, is one above its community's rows; the lock holder has the next sequence. */
  ghost predicate Synced(s: State) {
    && (forall c :: if c in s.counters then s.counters[c] == Count(s.log, c) + 1 else Count(s.log, c) == 0)
    && (forall w | w in s.writers && s.writers[w].Allocated? ::
          s.writers[w].seqNo == Count(s.log, s.writers[w].payload.communityId) + 1)
    && (forall v, w | v in s.writers && w in s.writers && s.writers[v].Allocated? && s.writers[w].Allocated? ::
          s.writers[v].payload.communityId == s.writers[w].payload.communityId ==> v == w)
  }

  predicate Tampers(step: Step) { step.Lower? || step.Delete? || step.Raise? }

  lemma StepKeepsSynced(s: State, step: Step)
    requires Ordered(s) && Synced(s) && Enabled(s, step) && !Tampers(step)
    ensures Synced(Apply(s, step))
    ensures step.Commit? && !HasId(s.log, s.writers[step.w].payload.cid) ==>
              var done := Apply(s, step).writers[step.w];
              done.result.Some? && done.result.value.syncSeq == Count(s.log, done.payload.communityId) + 1
  {
    hide UniquePositions, Recovered;
    if step.Commit? {
      var p, seqNo := s.writers[step.w].payload, s.writers[step.w].seqNo;
      assert Consecutive(s.log, p.communityId);
      assert !HasPosition(s.log, p.communityId, seqNo);
      forall c ensures Count(s.log + [RowOf(p, seqNo)], c) == Count(s.log, c) + if c == p.communityId then 1 else 0 {
        CountAfterAppend(s.log, RowOf(p, seqNo), c);
      }
    }
  }

  /** In a run that leaves the counters alone, every commit of an id not yet stored stores it. */
  lemma {:induction false} NoFreshEntryIsRefused(s: State, steps: seq<Step>, w: nat)
    requires Ordered(s) && Synced(s) && Runs(s, steps) && forall step | step in steps :: !Tampers(step)
    ensures var t := After(s, steps);
            Synced(t) && (Enabled(t, Commit(w)) && !HasId(t.log, t.writers[w].payload.cid) ==>
              var done := Apply(t, Commit(w)).writers[w];
              done.result.Some? && done.result.value.syncSeq == Count(t.log, done.payload.communityId) + 1)
    decreases |steps|
  {
    if steps == [] {
      if Enabled(s, Commit(w)) {
        StepKeepsSynced(s, Commit(w));
      }
    } else {
      assert steps[0] in steps;
      assert forall step | step in steps[1..] :: step in steps;
      StepKeepsOrdered(s, steps[0]);
      StepKeepsSynced(s, steps[0]);
      NoFreshEntryIsRefused(Apply(s, steps[0]), steps[1..], w);
    }
  }

  // One writer at a time.

  ghost predicate AnsweredAlone(s: State, t: State, w: nat, p: Payload) {
    && w in t.writers && t.writers[w].Done? && t.writers[w].payload == p
    && if HasId(s.log, p.cid)
       then t.log == s.log && t.counters == s.counters && t.writers[w].result == StoredPosition(s.log, p.cid)
       else
         var seqNo := AllocatedSeq(s.counters, p.communityId, Recovered(s.log, p.communityId));
         && t.log == s.log + [RowOf(p, seqNo)] && t.counters == s.counters[p.communityId := seqNo + 1]
         && t.writers[w].result == Some(Position(p.receivedAt, seqNo))
  }

  /** With no writer in between, the steps of one write have the effect of `LogTables.AddLogEntry`. */
  lemma {:induction false} LoneWriterIsAddLogEntry(s: State, w: nat, p: Payload) returns (steps: seq<Step>)
    requires w !in s.writers && !Locked(s, p.communityId)
    ensures Runs(s, steps) && AnsweredAlone(s, After(s, steps), w, p)
    ensures steps == [Start(w, p), Allocate(w), Commit(w)] + if HasId(s.log, p.cid) then [ReadBack(w)] else []
  {
    hide Recovered, StoredPosition, HasId, Runs, After;
    RecoveredIsAboveAll(s.log, p.communityId);
    var s1 := Apply(s, Start(w, p));
    assert !Locked(s1, p.communityId) by {
      assert forall v | v in s1.writers && s1.writers[v].Allocated? :: v in s.writers && s.writers[v] == s1.writers[v];
    }
    var s2 := Apply(s1, Allocate(w));
    assert !HasPosition(s.log, p.communityId, s2.writers[w].seqNo) by {
      assert forall i | 0 <= i < |s.log| :: s.log[i] in s.log;
    }
    var s3 := Apply(s2, Commit(w));
    steps := [Start(w, p), Allocate(w), Commit(w)];
    if HasId(s.log, p.cid) {
      steps := steps + [ReadBack(w)];
      RunNone(Apply(s3, ReadBack(w)));
      assert steps[3..] == [ReadBack(w)] && steps[3..][1..] == [];
      RunOne(s3, steps[3..]);
    } else {
      RunNone(s3);
      assert steps[3..] == [];
    }
    assert steps[2..][1..] == steps[3..] && steps[1..][1..] == steps[2..];
    RunOne(s2, steps[2..]);
    RunOne(s1, steps[1..]);
    RunOne(s, steps);
  }
}
