/**
 * Communities kept in memory. Each holds a map of authenticated connections, by user; losing the last
 * one starts an expiry, and a sweep evicts what has expired.
 */
module CommunityCache {
  import opened Wrappers

  const MANAGED_COMMUNITY_TTL_MS := 300_000

  datatype AuthStatus = Pending | Joining | Joined | RejectedOrClosed

  /** A connection object; it goes on emitting events after its community has replaced it. */
  datatype AuthConnection = AuthConnection(userId: string, teamId: string, socketId: string, status: AuthStatus)

  /** `authConnections` maps users to connection objects; a missing map is an empty one. */
  datatype Managed = Managed(authConnections: map<string, nat>, expiryMs: Option<int>)

  type Communities = map<string, Managed>

  type Connections = map<nat, AuthConnection>

  /** How starting the peer connection went: it threw, it disconnected while starting, or neither. */
  datatype StartOutcome = Started | Threw | DroppedWhileStarting

  /** The disconnect handler removes whatever connection the user has now. */
  function OnAuthDisconnected(communities: Communities, userId: string, teamId: string, now: int): (after: Communities)
    ensures after.Keys == communities.Keys
  {
    if teamId !in communities then communities
    else
      var left := communities[teamId].authConnections - {userId};
      communities[teamId := Managed(left, if left == map[] then Some(now + MANAGED_COMMUNITY_TTL_MS)
                                          else communities[teamId].expiryMs)]
  }

  /** A community fetched from storage joins the cache without connections; one that is there already stays. */
  function Loaded(communities: Communities, teamId: string): Communities {
    if teamId in communities then communities else communities[teamId := Managed(map[], None)]
  }

  function WithStatus(connections: Connections, c: nat, status: AuthStatus): Connections
    requires c in connections
  {
    connections[c := connections[c].(status := status)]
  }

  /** An existing connection that a new sign-in on this socket may keep using. */
  predicate Reusable(communities: Communities, connections: Connections, userId: string, teamId: string,
                     socketId: string)
    requires teamId in communities
  {
    && userId in communities[teamId].authConnections
    && communities[teamId].authConnections[userId] in connections
    && connections[communities[teamId].authConnections[userId]].socketId == socketId
    && connections[communities[teamId].authConnections[userId]].status != RejectedOrClosed
  }

  /** The cache after connection `c` has been put in the map and started. */
  function Registered(
    communities: Communities, userId: string, teamId: string, c: nat, outcome: StartOutcome, now: int): Communities
    requires teamId in communities
  {
    var users := communities[teamId].authConnections[userId := c];
    var registered := communities[teamId := communities[teamId].(authConnections := users)];
    match outcome
    case Threw => registered
    case Started => registered[teamId := registered[teamId].(expiryMs := None)]
    case DroppedWhileStarting =>
      var dropped := OnAuthDisconnected(registered, userId, teamId, now);
      dropped[teamId := dropped[teamId].(expiryMs := None)]
  }

  function StatusAfter(outcome: StartOutcome): AuthStatus {
    if outcome == DroppedWhileStarting then RejectedOrClosed else Joining
  }

  /** The cache after a user's old connection, if any, has been stopped and a new one `c` started. */
  function AfterStart(
    communities: Communities, userId: string, teamId: string, c: nat, outcome: StartOutcome, now: int): Communities
    requires teamId in communities
  {
    var stopped := if userId in communities[teamId].authConnections
                   then OnAuthDisconnected(communities, userId, teamId, now) else communities;
    Registered(stopped, userId, teamId, c, outcome, now)
  }

  /**
   * The connection objects after the same start. Stopping the user's old connection closes it at once if
   * the peer library says so while stopping (`stopNotifies`).
   */
  function ConnectionsAfterStart(
    communities: Communities, connections: Connections, userId: string, teamId: string, socketId: string, c: nat,
    outcome: StartOutcome, stopNotifies: bool): Connections
    requires teamId in communities && communities[teamId].authConnections.Values <= connections.Keys
  {
    var users := communities[teamId].authConnections;
    var stopped := if userId in users && stopNotifies
                   then WithStatus(connections, OldConnection(users, connections, userId), RejectedOrClosed)
                   else connections;
    stopped[c := AuthConnection(userId, teamId, socketId, StatusAfter(outcome))]
  }

  function OldConnection(users: map<string, nat>, connections: Connections, userId: string): (c: nat)
    requires userId in users && users.Values <= connections.Keys
    ensures c in connections && c == users[userId]
  {
    assert users[userId] in users.Values;
    users[userId]
  }

  /** A sweep clears expiries of communities in use and evicts unused ones whose time has come. */
  predicate Evicted(m: Managed, now: int) {
    m.expiryMs.Some? && m.authConnections == map[] && m.expiryMs.value <= now
  }

  function Swept(communities: Communities, now: int): Communities {
    map teamId | teamId in communities && !Evicted(communities[teamId], now) ::
      if communities[teamId].authConnections != map[] then communities[teamId].(expiryMs := None)
      else communities[teamId]
  }

  class CommunitiesManagerService {
    var communities: Communities
    var connections: Connections

    constructor ()
      ensures communities == map[] && connections == map[]
    {
      communities, connections := map[], map[];
    }

    /** A fetch from storage: merges with what is cached, which keeps its connections and expiry. */
    method ProcessCommunity(teamId: string)
      modifies this`communities
      ensures communities == if teamId in old(communities) then old(communities)
                             else old(communities)[teamId := Managed(map[], None)]
    {
      if teamId !in communities {
        communities := communities[teamId := Managed(map[], None)];
      }
    }

    method HandleAuthDisconnected(userId: string, teamId: string, now: int)
      modifies this`communities
      ensures communities == OnAuthDisconnected(old(communities), userId, teamId, now)
    {
      if teamId !in communities {
        return;
      }
      var managed := communities[teamId];
      managed := managed.(authConnections := managed.authConnections - {userId});
      if managed.authConnections == map[] {
        managed := managed.(expiryMs := Some(now + MANAGED_COMMUNITY_TTL_MS));
      }
      communities := communities[teamId := managed];
    }

    /** False when the community is not cached; `c` names the connection object this call makes. */
    method StartAuthSyncConnection(
      userId: string, teamId: string, socketId: string, c: nat, outcome: StartOutcome, stopNotifies: bool, now: int)
      returns (found: bool)
      requires c !in connections
      requires teamId in communities ==> communities[teamId].authConnections.Values <= connections.Keys
      modifies this
      ensures found == (teamId in old(communities))
      ensures !found || Reusable(old(communities), old(connections), userId, teamId, socketId) ==>
        communities == old(communities) && connections == old(connections)
      ensures found && !Reusable(old(communities), old(connections), userId, teamId, socketId) ==>
        && communities == AfterStart(old(communities), userId, teamId, c, outcome, now)
        && connections
           == ConnectionsAfterStart(old(communities), old(connections), userId, teamId, socketId, c, outcome,
                                    stopNotifies)
    {
      hide OnAuthDisconnected, Registered, StatusAfter;
      if teamId !in communities {
        return false;
      }
      found := true;
      if userId in communities[teamId].authConnections {
        var existing := communities[teamId].authConnections[userId];
        assert existing in communities[teamId].authConnections.Values;
        if connections[existing].socketId == socketId && connections[existing].status != RejectedOrClosed {
          return;
        }
        StopConnection(existing, userId, teamId, stopNotifies, now);
      }
      RegisterAndStart(userId, teamId, socketId, c, outcome, now);
    }

    /** Closing a connection object tells the service, whether or not the peer library does so too. */
    method StopConnection(c: nat, userId: string, teamId: string, stopNotifies: bool, now: int)
      requires c in connections
      modifies this
      ensures communities == OnAuthDisconnected(old(communities), userId, teamId, now)
      ensures connections
           == if stopNotifies then WithStatus(old(connections), c, RejectedOrClosed) else old(connections)
    {
      if stopNotifies {
        connections := WithStatus(connections, c, RejectedOrClosed);
      }
      HandleAuthDisconnected(userId, teamId, now);
    }

    method RegisterAndStart(userId: string, teamId: string, socketId: string, c: nat, outcome: StartOutcome, now: int)
      requires teamId in communities
      modifies this
      ensures communities == Registered(old(communities), userId, teamId, c, outcome, now)
      ensures connections == old(connections)[c := AuthConnection(userId, teamId, socketId, StatusAfter(outcome))]
    {
      hide OnAuthDisconnected;
      connections := connections[c := AuthConnection(userId, teamId, socketId, Pending)];
      var managed := communities[teamId];
      communities := communities[teamId := managed.(authConnections := managed.authConnections[userId := c])];
      connections := connections[c := connections[c].(status := Joining)];
      if outcome == Threw {
        return;
      }
      if outcome == DroppedWhileStarting {
        connections := connections[c := connections[c].(status := RejectedOrClosed)];
        HandleAuthDisconnected(userId, teamId, now);
      }
      communities := communities[teamId := communities[teamId].(expiryMs := None)];
    }

    method ClearUnusedCommunitiesFromMemory(now: int)
      modifies this`communities
      ensures communities == Swept(old(communities), now)
    {
      var teams := communities.Keys;
      ghost var before := communities;
      while teams != {}
        invariant teams <= communities.Keys <= before.Keys
        invariant forall t | t in teams :: communities[t] == before[t]
        invariant forall t | t in before.Keys - teams ::
          if Evicted(before[t], now) then t !in communities
          else t in communities && communities[t] == Swept(before, now)[t]
        decreases |teams|
      {
        var t :| t in teams;
        var managed := communities[t];
        if managed.expiryMs.Some? {
          if managed.authConnections != map[] {
            communities := communities[t := managed.(expiryMs := None)];
          } else if managed.expiryMs.value <= now {
            communities := communities - {t};
          }
        }
        teams := teams - {t};
      }
    }
  }

  // Whole runs.

  datatype Event =
    | Load(teamId: string)
    | Start(userId: string, teamId: string, socketId: string, c: nat, outcome: StartOutcome, stopNotifies: bool,
            now: int)
    | Connected(c: nat)
    | Disconnected(c: nat, now: int)
    | Sweep(now: int)

  /** The cache, with when each community's connection map last went from non-empty to empty. */
  datatype World = World(communities: Communities, connections: Connections, emptiedAt: map<string, int>, clock: int)

  function Users(communities: Communities, teamId: string): map<string, nat> {
    if teamId in communities then communities[teamId].authConnections else map[]
  }

  predicate Enabled(w: World, e: Event) {
    match e
    case Load(_) => true
    case Start(_, teamId, _, c, _, _, now) =>
      && c !in w.connections && w.clock <= now
      && (teamId in w.communities ==> w.communities[teamId].authConnections.Values <= w.connections.Keys)
    case Connected(c) => c in w.connections
    case Disconnected(c, now) => c in w.connections && w.clock <= now
    case Sweep(now) => w.clock <= now
  }

  function Step(w: World, e: Event): World
    requires Enabled(w, e)
  {
    match e
    case Load(teamId) => w.(communities := Loaded(w.communities, teamId))
    case Start(userId, teamId, socketId, c, outcome, stopNotifies, now) =>
      if teamId !in w.communities || Reusable(w.communities, w.connections, userId, teamId, socketId) then w
      else
        var after := AfterStart(w.communities, userId, teamId, c, outcome, now);
        World(after,
              ConnectionsAfterStart(w.communities, w.connections, userId, teamId, socketId, c, outcome, stopNotifies),
              if Users(after, teamId) == map[] then w.emptiedAt[teamId := now] else w.emptiedAt, now)
    case Connected(c) => w.(connections := WithStatus(w.connections, c, Joined))
    case Disconnected(c, now) =>
      var teamId := w.connections[c].teamId;
      var after := OnAuthDisconnected(w.communities, w.connections[c].userId, teamId, now);
      World(after, WithStatus(w.connections, c, RejectedOrClosed),
            if Users(w.communities, teamId) != map[] && Users(after, teamId) == map[]
            then w.emptiedAt[teamId := now] else w.emptiedAt, now)
    case Sweep(now) => w.(communities := Swept(w.communities, now), clock := now)
  }

  ghost predicate Runs(w: World, events: seq<Event>)
    decreases |events|
  {
    events != [] ==> Enabled(w, events[0]) && Runs(Step(w, events[0]), events[1..])
  }

  ghost function After(w: World, events: seq<Event>): World
    requires Runs(w, events)
    decreases |events|
  {
    if events == [] then w else After(Step(w, events[0]), events[1..])
  }

  function Initial(clock: int): World { World(map[], map[], map[], clock) }

  /** An unused community's expiry lies a full period after its last connection went away. */
  ghost predicate Timely(w: World) {
    && (forall t | t in w.emptiedAt :: w.emptiedAt[t] <= w.clock)
    && (forall t | t in w.communities && t in w.emptiedAt ::
          var m := w.communities[t];
          m.authConnections == map[] && m.expiryMs.Some? ==>
                m.expiryMs.value >= w.emptiedAt[t] + MANAGED_COMMUNITY_TTL_MS)
  }

  /** A community in use has no expiry. */
  ghost predicate InUseIsKept(w: World) {
    forall t | t in w.communities :: w.communities[t].authConnections != map[] ==> w.communities[t].expiryMs == None
  }

  lemma StepKeepsTimely(w: World, e: Event)
    requires Timely(w) && Enabled(w, e)
    ensures Timely(Step(w, e))
  {
    match e
    case Start(userId, teamId, socketId, c, outcome, _, now) =>
      if teamId in w.communities {
        StartLeavesConnection(w.communities, userId, teamId, c, outcome, now);
      }
    case _ =>
  }

  /** Only a connection that dropped while starting can leave the community without any. */
  lemma StartLeavesConnection(
    communities: Communities, userId: string, teamId: string, c: nat, outcome: StartOutcome, now: int)
    requires teamId in communities
    ensures var after := AfterStart(communities, userId, teamId, c, outcome, now);
            && after.Keys == communities.Keys
            && (forall t | t in communities && t != teamId :: after[t] == communities[t])
            && (outcome != DroppedWhileStarting ==> after[teamId].authConnections != map[])
            && (outcome != Threw ==> after[teamId].expiryMs == None)
  {
    var after := AfterStart(communities, userId, teamId, c, outcome, now);
    assert outcome != DroppedWhileStarting ==> userId in after[teamId].authConnections;
  }

  lemma StepKeepsInUse(w: World, e: Event)
    requires InUseIsKept(w) && Enabled(w, e) && !(e.Start? && e.outcome == Threw)
    ensures InUseIsKept(Step(w, e))
  {
  }

  /**
   * Over every run with a clock that never goes back, a sweep evicts no community that has a
   * connection, and none earlier than the full period after its connection map last became empty.
   */
  lemma {:induction false} EvictionIsTimely(w: World, events: seq<Event>, now: int, teamId: string)
    requires Timely(w) && Runs(w, events)
    ensures var t := After(w, events);
            && Timely(t)
            && (Enabled(t, Sweep(now)) && teamId in t.communities && teamId !in Step(t, Sweep(now)).communities ==>
                  && t.communities[teamId].authConnections == map[]
                  && (teamId in t.emptiedAt ==> now >= t.emptiedAt[teamId] + MANAGED_COMMUNITY_TTL_MS))
    decreases |events|
  {
    if events != [] {
      StepKeepsTimely(w, events[0]);
      EvictionIsTimely(Step(w, events[0]), events[1..], now, teamId);
    }
  }

  /** Between events, when starting never throws, a community in use carries no expiry. */
  lemma {:induction false} InUseHasNoExpiry(w: World, events: seq<Event>)
    requires InUseIsKept(w) && Runs(w, events)
    requires forall e | e in events :: !(e.Start? && e.outcome == Threw)
    ensures InUseIsKept(After(w, events))
    decreases |events|
  {
    if events != [] {
      assert events[0] in events && forall e | e in events[1..] :: e in events;
      StepKeepsInUse(w, events[0]);
      InUseHasNoExpiry(Step(w, events[0]), events[1..]);
    }
  }

  /**
   * A start leaves some community in use with an expiry exactly when it throws and the community was
   * waiting to expire, or this user's old connection was its only one.
   */
  lemma StartKeepsInUseIff(
    w: World, userId: string, teamId: string, socketId: string, c: nat, outcome: StartOutcome, stopNotifies: bool,
    now: int)
    requires InUseIsKept(w) && Enabled(w, Start(userId, teamId, socketId, c, outcome, stopNotifies, now))
    requires teamId in w.communities
    requires !Reusable(w.communities, w.connections, userId, teamId, socketId)
    ensures InUseIsKept(Step(w, Start(userId, teamId, socketId, c, outcome, stopNotifies, now)))
            <==> (outcome == Threw ==>
                    w.communities[teamId].expiryMs == None && w.communities[teamId].authConnections.Keys != {userId})
  {
    var m := w.communities[teamId];
    var left := m.authConnections - {userId};
    var after := Step(w, Start(userId, teamId, socketId, c, outcome, stopNotifies, now)).communities;
    assert left.Keys == m.authConnections.Keys - {userId};
    assert left == map[] <==> left.Keys == {};
    StartLeavesConnection(w.communities, userId, teamId, c, outcome, now);
    assert teamId in after;
  }

  /** A start leaves the community without connections exactly when it drops at once and no other user had one. */
  lemma StartEmptiesIffOnlyOneDropped(
    communities: Communities, userId: string, teamId: string, c: nat, outcome: StartOutcome, now: int)
    requires teamId in communities
    ensures var m := AfterStart(communities, userId, teamId, c, outcome, now)[teamId];
            && (m.authConnections == map[] <==>
                  outcome == DroppedWhileStarting && communities[teamId].authConnections.Keys <= {userId})
            && (m.authConnections == map[] ==> m == Managed(map[], None))
  {
    var m := AfterStart(communities, userId, teamId, c, outcome, now)[teamId];
    StartLeavesConnection(communities, userId, teamId, c, outcome, now);
    if outcome == DroppedWhileStarting {
      assert m.authConnections.Keys == communities[teamId].authConnections.Keys - {userId};
      assert m.authConnections == map[] <==> m.authConnections.Keys == {};
    }
  }

  /** Neither a start for this community nor a disconnect of one of its connections. */
  predicate Spares(w: World, e: Event, teamId: string) {
    match e
    case Start(_, t, _, _, _, _, _) => t != teamId
    case Disconnected(c, _) => c in w.connections ==> w.connections[c].teamId != teamId
    case _ => true
  }

  ghost predicate RunSpares(w: World, events: seq<Event>, teamId: string)
    requires Runs(w, events)
    decreases |events|
  {
    events != [] ==> Spares(w, events[0], teamId) && RunSpares(Step(w, events[0]), events[1..], teamId)
  }

  lemma StepKeepsUnexpiring(w: World, e: Event, teamId: string)
    requires Enabled(w, e) && Spares(w, e, teamId)
    requires teamId in w.communities && w.communities[teamId] == Managed(map[], None)
    ensures teamId in Step(w, e).communities && Step(w, e).communities[teamId] == Managed(map[], None)
  {
    match e
    case Start(userId, t, _, c, outcome, _, now) =>
      if t in w.communities { StartLeavesConnection(w.communities, userId, t, c, outcome, now); }
    case _ =>
  }

  /**
   * A community left without connections and without an expiry, as such a start leaves it, stays in memory
   * however often it is swept, until a start for it or a disconnect of one of its connections.
   */
  lemma {:induction false} UnexpiringIsNeverSwept(w: World, events: seq<Event>, teamId: string)
    requires Runs(w, events) && RunSpares(w, events, teamId)
    requires teamId in w.communities && w.communities[teamId] == Managed(map[], None)
    ensures teamId in After(w, events).communities && After(w, events).communities[teamId] == Managed(map[], None)
    decreases |events|
  {
    if events != [] {
      StepKeepsUnexpiring(w, events[0], teamId);
      UnexpiringIsNeverSwept(Step(w, events[0]), events[1..], teamId);
    }
  }

  /** A dropped start whose user was alone, and any run after it that spares the community. */
  lemma DroppedStartIsNeverSwept(
    w: World, userId: string, teamId: string, socketId: string, c: nat, outcome: StartOutcome, stopNotifies: bool,
    now: int,
    events: seq<Event>)
    requires teamId in w.communities && !Reusable(w.communities, w.connections, userId, teamId, socketId)
    requires Enabled(w, Start(userId, teamId, socketId, c, outcome, stopNotifies, now))
    ensures var t := Step(w, Start(userId, teamId, socketId, c, outcome, stopNotifies, now));
            && teamId in t.communities
            && (Users(t.communities, teamId) == map[] <==>
                  outcome == DroppedWhileStarting && w.communities[teamId].authConnections.Keys <= {userId})
            && (Users(t.communities, teamId) == map[] && Runs(t, events) && RunSpares(t, events, teamId) ==>
                  teamId in After(t, events).communities)
  {
    hide AfterStart, ConnectionsAfterStart;
    var t := Step(w, Start(userId, teamId, socketId, c, outcome, stopNotifies, now));
    StartEmptiesIffOnlyOneDropped(w.communities, userId, teamId, c, outcome, now);
    StartLeavesConnection(w.communities, userId, teamId, c, outcome, now);
    if Users(t.communities, teamId) == map[] && Runs(t, events) && RunSpares(t, events, teamId) {
      UnexpiringIsNeverSwept(t, events, teamId);
    }
  }

  lemma InitialIsTimely(clock: int)
    ensures Timely(Initial(clock)) && InUseIsKept(Initial(clock)) && ConnectionsAreKnown(Initial(clock))
  {
  }

  /** Every registered connection is an object the service made. */
  ghost predicate ConnectionsAreKnown(w: World) {
    forall t | t in w.communities :: w.communities[t].authConnections.Values <= w.connections.Keys
  }

  lemma StepKeepsConnectionsKnown(w: World, e: Event)
    requires ConnectionsAreKnown(w) && Enabled(w, e)
    ensures ConnectionsAreKnown(Step(w, e))
  {
    forall t, u | t in Step(w, e).communities && u in Step(w, e).communities[t].authConnections
      ensures Step(w, e).communities[t].authConnections[u] in Step(w, e).connections
    {
      if t in w.communities && u in w.communities[t].authConnections {
        assert w.communities[t].authConnections[u] in w.communities[t].authConnections.Values;
      }
    }
  }

  /** So after any run a start finds every connection it looks up; it needs a new connection and a later clock only. */
  lemma {:induction false} StartsFindTheirConnections(w: World, events: seq<Event>, e: Event)
    requires ConnectionsAreKnown(w) && Runs(w, events)
    ensures ConnectionsAreKnown(After(w, events))
    ensures e.Start? ==>
              (Enabled(After(w, events), e) <==>
                e.c !in After(w, events).connections && After(w, events).clock <= e.now)
    decreases |events|
  {
    hide Step;
    if events != [] {
      StepKeepsConnectionsKnown(w, events[0]);
      StartsFindTheirConnections(Step(w, events[0]), events[1..], e);
    }
  }

  // What one event does, on the connections and statuses.

  /**
   * A start keeps the user's connection if and only if it is on the same socket and not closed; otherwise the
   * user's connection is the new one, unless that dropped at once. Nobody else's changes.
   */
  lemma StartKeepsConnectionIff(
    w: World, userId: string, teamId: string, socketId: string, c: nat, outcome: StartOutcome, stopNotifies: bool,
    now: int)
    requires Enabled(w, Start(userId, teamId, socketId, c, outcome, stopNotifies, now)) && teamId in w.communities
    ensures var t := Step(w, Start(userId, teamId, socketId, c, outcome, stopNotifies, now));
            var users := w.communities[teamId].authConnections;
            && (t.connections == w.connections <==>
                  exists k | k in w.connections ::
                    && userId in users && users[userId] == k && w.connections[k].socketId == socketId
                    && w.connections[k].status in {Pending, Joining, Joined})
            && (t.connections == w.connections ==> t.communities == w.communities)
            && teamId in t.communities
            && (t.connections != w.connections ==>
                  && c in t.connections && t.connections[c].userId == userId && t.connections[c].teamId == teamId
                  && t.connections[c].socketId == socketId
                  && t.connections[c].status == (if outcome == DroppedWhileStarting then RejectedOrClosed else Joining)
                  && (if outcome == DroppedWhileStarting then userId !in t.communities[teamId].authConnections
                      else userId in t.communities[teamId].authConnections
                           && t.communities[teamId].authConnections[userId] == c))
            && (forall u | u != userId ::
                  && (u in t.communities[teamId].authConnections <==> u in users)
                  && (u in users ==> t.communities[teamId].authConnections[u] == users[u]))
            && (forall other | other in w.communities && other != teamId ::
                  other in t.communities && t.communities[other] == w.communities[other])
  {
    hide OldConnection;
    var t := Step(w, Start(userId, teamId, socketId, c, outcome, stopNotifies, now));
    if !Reusable(w.communities, w.connections, userId, teamId, socketId) {
      assert c in t.connections && c !in w.connections;
    }
  }

  /** A disconnect takes the user out of their community and nobody else, and the last one starts the expiry. */
  lemma DisconnectRemovesUser(w: World, c: nat, now: int)
    requires Enabled(w, Disconnected(c, now)) && w.connections[c].teamId in w.communities
    ensures var t, teamId, userId := Step(w, Disconnected(c, now)), w.connections[c].teamId, w.connections[c].userId;
            && t.communities.Keys == w.communities.Keys
            && t.communities[teamId].authConnections == w.communities[teamId].authConnections - {userId}
            && t.communities[teamId].expiryMs
               == (if w.communities[teamId].authConnections.Keys <= {userId} then Some(now + 300_000)
                   else w.communities[teamId].expiryMs)
            && (forall other | other in w.communities && other != teamId ::
                  t.communities[other] == w.communities[other])
            && t.connections == w.connections[c := AuthConnection(userId, teamId, w.connections[c].socketId,
                                                                  RejectedOrClosed)]
  {
    var left := w.communities[w.connections[c].teamId].authConnections - {w.connections[c].userId};
    assert left.Keys == w.communities[w.connections[c].teamId].authConnections.Keys - {w.connections[c].userId};
    assert left == map[] <==> left.Keys == {};
  }

  lemma StepTellsTime(w: World, e: Event)
    requires Enabled(w, e)
    ensures Step(w, e).clock <= (if e.Load? || e.Connected? then w.clock else e.now)
  {
  }

  lemma ConnectedIsJoined(w: World, c: nat)
    requires Enabled(w, Connected(c))
    ensures var t, k := Step(w, Connected(c)), w.connections[c];
            && t.communities == w.communities
            && t.connections == w.connections[c := AuthConnection(k.userId, k.teamId, k.socketId, Joined)]
  {
  }

  /** Loading a community that is cached changes nothing; one that is not joins unused and without an expiry. */
  lemma LoadKeepsCached(w: World, teamId: string)
    ensures var t := Step(w, Load(teamId));
            && t.communities.Keys == w.communities.Keys + {teamId} && t.connections == w.connections
            && (forall other | other in w.communities :: t.communities[other] == w.communities[other])
            && (teamId !in w.communities ==> t.communities[teamId] == Managed(map[], None))
  {
  }

  /** Whatever starts left behind, after a sweep no community in use carries an expiry, and no connection is gone. */
  lemma SweepRestoresInUse(w: World, now: int)
    requires w.clock <= now
    ensures var t := Step(w, Sweep(now));
            && InUseIsKept(t) && t.connections == w.connections
            && (forall teamId | teamId in w.communities && w.communities[teamId].authConnections != map[] ::
                  && teamId in t.communities
                  && t.communities[teamId].authConnections == w.communities[teamId].authConnections)
            && (forall teamId | teamId in w.communities && w.communities[teamId].authConnections == map[] ::
                  match w.communities[teamId].expiryMs
                  case Some(expiry) => teamId in t.communities <==> now < expiry
                  case None => teamId in t.communities && t.communities[teamId].expiryMs == None)
            && t.communities.Keys <= w.communities.Keys
  {
  }

  // An unused community is evicted by the first sweep after its time.

  /** Nothing loads or starts the community, and none of its connections disconnects. */
  predicate LeavesAlone(w: World, e: Event, teamId: string) {
    e != Load(teamId) && Spares(w, e, teamId)
  }

  ghost predicate RunLeavesAlone(w: World, events: seq<Event>, teamId: string)
    requires Runs(w, events)
    decreases |events|
  {
    events != [] ==> LeavesAlone(w, events[0], teamId) && RunLeavesAlone(Step(w, events[0]), events[1..], teamId)
  }

  predicate SweepsFrom(events: seq<Event>, deadline: int) {
    exists i | 0 <= i < |events| :: events[i].Sweep? && deadline <= events[i].now
  }

  lemma StepLeavesExpiring(w: World, e: Event, teamId: string, deadline: int)
    requires Enabled(w, e) && LeavesAlone(w, e, teamId)
    requires teamId in w.communities ==> w.communities[teamId] == Managed(map[], Some(deadline))
    ensures var t := Step(w, e);
            && (teamId in t.communities ==> t.communities[teamId] == Managed(map[], Some(deadline)))
            && (teamId in t.communities <==> teamId in w.communities && !(e.Sweep? && deadline <= e.now))
  {
    match e
    case Start(userId, t, _, c, outcome, _, now) =>
      if t in w.communities { StartLeavesConnection(w.communities, userId, t, c, outcome, now); }
    case _ =>
  }

  lemma {:induction false} EvictedByFirstSweep(w: World, events: seq<Event>, teamId: string, deadline: int)
    requires Runs(w, events) && RunLeavesAlone(w, events, teamId)
    requires teamId in w.communities ==> w.communities[teamId] == Managed(map[], Some(deadline))
    ensures teamId in After(w, events).communities <==> teamId in w.communities && !SweepsFrom(events, deadline)
    decreases |events|
  {
    hide Step, Enabled;
    if events != [] {
      StepLeavesExpiring(w, events[0], teamId, deadline);
      EvictedByFirstSweep(Step(w, events[0]), events[1..], teamId, deadline);
      SweepsStep(events, deadline);
    }
  }

  lemma SweepsStep(events: seq<Event>, deadline: int)
    requires events != []
    ensures SweepsFrom(events, deadline) <==>
              (events[0].Sweep? && deadline <= events[0].now) || SweepsFrom(events[1..], deadline)
  {
    forall i | 0 < i < |events| ensures events[i] == events[1..][i - 1] {}
    if i :| 0 <= i < |events[1..]| && events[1..][i].Sweep? && deadline <= events[1..][i].now {
      assert events[i + 1] == events[1..][i];
    }
  }

  /**
   * The last user of a community disconnects at `at`. In every run that then leaves it alone it is gone if and only
   * if some sweep came at or after 300000 ms later.
   */
  lemma UnusedIsEvictedInTime(w: World, c: nat, at: int, events: seq<Event>)
    requires Enabled(w, Disconnected(c, at)) && w.connections[c].teamId in w.communities
    requires w.communities[w.connections[c].teamId].authConnections.Keys <= {w.connections[c].userId}
    requires Runs(Step(w, Disconnected(c, at)), events)
             && RunLeavesAlone(Step(w, Disconnected(c, at)), events, w.connections[c].teamId)
    ensures w.connections[c].teamId !in After(Step(w, Disconnected(c, at)), events).communities
            <==> exists i | 0 <= i < |events| :: events[i].Sweep? && at + 300_000 <= events[i].now
  {
    hide Step, RunLeavesAlone, Runs, After;
    var teamId, left := w.connections[c].teamId, w.communities[w.connections[c].teamId].authConnections;
    DisconnectRemovesUser(w, c, at);
    assert (left - {w.connections[c].userId}).Keys == {};
    EvictedByFirstSweep(Step(w, Disconnected(c, at)), events, teamId, at + 300_000);
  }
}
