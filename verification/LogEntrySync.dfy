/**
 * A pull request as the service takes it: who may ask, which of the two readers answers, and what is
 * missing when neither can.
 */
module LogEntrySync {
  import opened Wrappers
  import opened LogModel
  import opened TimestampResolution
  import opened CursorPull
  import CommunityCache

  datatype PullPayload = PullPayload(
    userId: string,
    query: Query,
    startSeq: Option<int>,
    startTs: Option<int>,
    endTs: Option<int>,
    cursor: Option<Cursor>,
    limit: Option<nat>
  )

  datatype PullReply = BySequence(sync: SyncPull.PullResponse) | ByCursor(legacy: CursorResponse)

  datatype SyncError =
    | CommunityNotFound
    | NotSignedIn
    | OtherSocket
    | AuthenticationPending
    | NotAuthenticated
    | StartRequired

  /** Either bound on the sequence selects the sequence reader. */
  predicate UsesSequence(p: PullPayload) { p.startSeq.Some? || p.query.endSeq.Some? }

  /** The check before anything else: the user's own connection, on this socket, with its sign-in finished. */
  function Permission(
    managed: Option<CommunityCache.Managed>, connections: CommunityCache.Connections, userId: string, socketId: string)
    : Option<SyncError>
    requires managed.Some? ==> managed.value.authConnections.Values <= connections.Keys
  {
    if managed == None then Some(CommunityNotFound)
    else if userId !in managed.value.authConnections then Some(NotSignedIn)
    else
      var connection := connections[CommunityCache.OldConnection(managed.value.authConnections, connections, userId)];
      if connection.socketId != socketId then Some(OtherSocket)
      else
        match connection.status
        case Pending => Some(AuthenticationPending)
        case Joining => Some(AuthenticationPending)
        case RejectedOrClosed => Some(NotAuthenticated)
        case Joined => None
  }

  /** A user is let through exactly when the connection registered for them is joined, on the asking socket. */
  lemma PermittedIffJoinedHere(
    managed: Option<CommunityCache.Managed>, connections: CommunityCache.Connections, userId: string, socketId: string)
    requires managed.Some? ==> managed.value.authConnections.Values <= connections.Keys
    ensures Permission(managed, connections, userId, socketId) == None <==>
              exists c | c in connections ::
                && managed.Some? && userId in managed.value.authConnections
                    && managed.value.authConnections[userId] == c
                && connections[c].socketId == socketId && connections[c].status == CommunityCache.Joined
  {
  }

  /** Which refusal a user gets, by what is registered for them. */
  lemma RefusalNamesReason(
    managed: Option<CommunityCache.Managed>, connections: CommunityCache.Connections, userId: string, socketId: string)
    requires managed.Some? ==> managed.value.authConnections.Values <= connections.Keys
    ensures Permission(managed, connections, userId, socketId) == Some(CommunityNotFound) <==> managed == None
    ensures Permission(managed, connections, userId, socketId) == Some(NotSignedIn) <==>
              managed.Some? && userId !in managed.value.authConnections
    ensures forall c | c in connections && managed.Some? && userId in managed.value.authConnections
                       && managed.value.authConnections[userId] == c ::
              var refused := Permission(managed, connections, userId, socketId);
              && (refused == Some(OtherSocket) <==> connections[c].socketId != socketId)
              && (refused == Some(AuthenticationPending) <==>
                    && connections[c].socketId == socketId
                    && connections[c].status in {CommunityCache.Pending, CommunityCache.Joining})
              && (refused == Some(NotAuthenticated) <==>
                    && connections[c].socketId == socketId
                    && connections[c].status == CommunityCache.RejectedOrClosed)
  {
  }

  /**
   * A user who starts a connection may pull on its socket, and on no other, from when the peer reports the
   * connection joined until it disconnects; before that they are told to wait.
   */
  lemma JoinedUserIsPermitted(
    w: CommunityCache.World, userId: string, teamId: string, socketId: string, c: nat, stopNotifies: bool, now: int,
    later: int, asking: string)
    requires CommunityCache.ConnectionsAreKnown(w) && teamId in w.communities
    requires var start :=
               CommunityCache.Start(userId, teamId, socketId, c, CommunityCache.Started, stopNotifies, now);
             CommunityCache.Enabled(w, start) && CommunityCache.Step(w, start).connections != w.connections
    requires now <= later
    ensures var started := CommunityCache.Step(
              w, CommunityCache.Start(userId, teamId, socketId, c, CommunityCache.Started, stopNotifies, now));
            && CommunityCache.Enabled(started, CommunityCache.Connected(c))
            && var joined := CommunityCache.Step(started, CommunityCache.Connected(c));
               && CommunityCache.Enabled(joined, CommunityCache.Disconnected(c, later))
               && var left := CommunityCache.Step(joined, CommunityCache.Disconnected(c, later));
                  && CommunityCache.ConnectionsAreKnown(started) && CommunityCache.ConnectionsAreKnown(joined)
                  && CommunityCache.ConnectionsAreKnown(left)
                  && Permission(Lookup(started.communities, teamId), started.connections, userId, socketId)
                     == Some(AuthenticationPending)
                  && (Permission(Lookup(joined.communities, teamId), joined.connections, userId, asking) == None
                      <==> asking == socketId)
                  && Permission(Lookup(left.communities, teamId), left.connections, userId, asking)
                     == Some(NotSignedIn)
  {
    hide CommunityCache.Step, CommunityCache.Reusable;
    var start := CommunityCache.Start(userId, teamId, socketId, c, CommunityCache.Started, stopNotifies, now);
    CommunityCache.StartKeepsConnectionIff(w, userId, teamId, socketId, c, CommunityCache.Started, stopNotifies, now);
    CommunityCache.StepKeepsConnectionsKnown(w, start);
    var started := CommunityCache.Step(w, start);
    CommunityCache.ConnectedIsJoined(started, c);
    CommunityCache.StepKeepsConnectionsKnown(started, CommunityCache.Connected(c));
    var joined := CommunityCache.Step(started, CommunityCache.Connected(c));
    CommunityCache.StepTellsTime(w, start);
    CommunityCache.StepTellsTime(started, CommunityCache.Connected(c));
    CommunityCache.DisconnectRemovesUser(joined, c, later);
    CommunityCache.StepKeepsConnectionsKnown(joined, CommunityCache.Disconnected(c, later));
  }

  lemma SnapshotsGrow(history: seq<Table>)
    requires SyncPull.History(history) && forall i | 0 <= i < |history| :: UniqueIds(history[i])
    ensures Growing(history)
  {
    hide UniqueIds, UniquePositions;
    forall i, j | 0 <= i <= j < |history| ensures history[i] <= history[j] {
      assert Extends(history[i], history[j]);
    }
  }

  function Lookup(communities: CommunityCache.Communities, teamId: string): Option<CommunityCache.Managed> {
    if teamId in communities then Some(communities[teamId]) else None
  }

  /**
   * Writers may commit between any two page reads of either reader. A community that is not cached is loaded
   * first, if storage has it and its keys can be read (`stored`); nobody is signed in to it then.
   */
  method GetPaginatedLogEntries(
    history: seq<Table>, p: PullPayload, communities: CommunityCache.Communities, stored: bool,
    connections: CommunityCache.Connections, socketId: string, atZero: nat, text: Cursor -> string)
    returns (reply: Result<PullReply, SyncError>, after: CommunityCache.Communities, ghost rows: seq<Row>,
      ghost seen: nat)
    requires SyncPull.History(history) && forall t | t in history :: UniqueIds(t)
    requires forall t | t in communities :: communities[t].authConnections.Values <= connections.Keys
    ensures after == if stored then CommunityCache.Loaded(communities, p.query.community) else communities
    ensures p.query.community !in communities ==> reply == Failure(if stored then NotSignedIn else CommunityNotFound)
    ensures var refused := Permission(Lookup(after, p.query.community), connections, p.userId, socketId);
            if refused.Some? then reply == Failure(refused.value)
            else if p.startSeq == p.query.endSeq == p.startTs == None then reply == Failure(StartRequired)
            else reply.Success?
    ensures reply.Success? ==> (reply.value.BySequence? <==> p.startSeq.Some? || p.query.endSeq.Some?)
    ensures seen < |history|
    ensures reply.Success? && reply.value.BySequence? ==>
      var resp := reply.value.sync;
      && resp.resolvedStartSeq
         == p.startSeq.GetOr(ResolveSyncSeq(history[0], p.query.community, Millis(p.startTs.GetOr(0))))
      && SyncPull.PullOutcome(history[|history| - 1], history[seen], p.query, p.limit, resp.resolvedStartSeq, rows,
                              resp)
      && (|history| == 1 ==>
           SyncPull.IsCut(history[0], p.query, p.limit, resp.resolvedStartSeq, rows, resp.hasNextPage))
    ensures reply.Success? && reply.value.ByCursor? ==>
      && p.startTs.Some?
      && var range, resp := TimeRange(p.startTs.value, p.endTs), reply.value.legacy;
         && resp.resolvedStartSeq == ResolveSyncSeq(history[0], p.query.community, Millis(range.startTs))
         && CursorOutcome(SyncPull.At(history, 1), history[seen], p.query, range, p.cursor,
                          CursorMetadata(text, resp.resolvedStartSeq), Effective(p.limit, atZero), rows, resp)
         && (|history| == 1 ==>
              IsCursorCut(CursorRows(history[0], p.query, range, p.cursor),
                          CursorMetadata(text, resp.resolvedStartSeq), Effective(p.limit, atZero), p.cursor, rows,
                          resp))
  {
    hide RowsAfter, CursorRows, SyncPull.PullOutcome, SyncPull.IsCut, IsCursorCut, CursorOutcome, CursorMetadata,
         SyncPull.Bodies, ResolveSyncSeq, UniqueIds, UniquePositions, Extends, Effective;
    rows, seen := [], 0;
    after := if stored then CommunityCache.Loaded(communities, p.query.community) else communities;
    var refused := Permission(Lookup(after, p.query.community), connections, p.userId, socketId);
    if refused.Some? {
      return Failure(refused.value), after, rows, seen;
    }
    if !UsesSequence(p) && p.startTs == None {
      return Failure(StartRequired), after, rows, seen;
    }
    if !UsesSequence(p) {
      var range := TimeRange(p.startTs.value, p.endTs);
      var legacy;
      forall i | 0 <= i < |history| ensures UniqueIds(history[i]) {
        assert history[i] in history;
      }
      SnapshotsGrow(history);
      legacy, rows, seen := PullByCursor(history, p.query, range, p.cursor, p.limit, SyncPull.PAGE_CAP, atZero, text);
      return Success(ByCursor(legacy)), after, rows, seen;
    }
    var startTs := if p.startTs.Some? then Some(Millis(p.startTs.value)) else None;
    var sync;
    sync, rows, seen :=
      SyncPull.PullBySyncSeq(history, SyncPull.PullRequest(p.query, p.startSeq, startTs, p.limit), SyncPull.PAGE_CAP);
    return Success(BySequence(sync)), after, rows, seen;
  }
}
