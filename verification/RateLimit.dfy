/**
 * Admission of websocket connections: a sliding window of attempts per client address, pruned on a
 * timer and on every connection, and a cap on live sockets per address.
 */
module RateLimit {
  import opened Ordering

  datatype Config = Config(windowMs: nat, maxAttemptsInWindow: nat, maxConcurrentPerIp: nat)

  type Rates = map<string, seq<int>>

  function Recent(timestamps: seq<int>, windowStart: int): seq<int> {
    Select((t: int) => t >= windowStart, timestamps)
  }

  function TimestampsOf(rates: Rates, ip: string): seq<int> {
    if ip in rates then rates[ip] else []
  }

  /** The table after pruning: only recent timestamps, and no address without any. */
  function Pruned(rates: Rates, windowStart: int): Rates {
    map ip | ip in rates && Recent(rates[ip], windowStart) != [] :: Recent(rates[ip], windowStart)
  }

  function Recorded(rates: Rates, ip: string, now: int, windowMs: nat): Rates {
    rates[ip := Recent(TimestampsOf(rates, ip), now - windowMs) + [now]]
  }

  function SocketsOf(socketIps: map<string, string>, ip: string): set<string> {
    set id | id in socketIps && socketIps[id] == ip
  }

  datatype Verdict = TooManySockets | TooManyAttempts | Admitted

  /** What the gateway keeps. */
  datatype Gateway = Gateway(rates: Rates, socketIps: map<string, string>)

  function Judge(g: Gateway, config: Config, ip: string, now: int): Verdict {
    var pruned := Pruned(g.rates, now - config.windowMs);
    if |SocketsOf(g.socketIps, ip)| >= config.maxConcurrentPerIp then TooManySockets
    else if |Recorded(pruned, ip, now, config.windowMs)[ip]| > config.maxAttemptsInWindow then TooManyAttempts
    else Admitted
  }

  function Connected(g: Gateway, config: Config, id: string, ip: string, now: int): Gateway {
    var pruned := Pruned(g.rates, now - config.windowMs);
    match Judge(g, config, ip, now)
    case TooManySockets => g.(rates := pruned)
    case TooManyAttempts => g.(rates := Recorded(pruned, ip, now, config.windowMs))
    case Admitted => Gateway(Recorded(pruned, ip, now, config.windowMs), g.socketIps[id := ip])
  }

  // The service's own loops and tables.

  method CountConcurrentConnections(socketIps: map<string, string>, ip: string) returns (count: nat)
    ensures count == |SocketsOf(socketIps, ip)|
  {
    count := 0;
    var ids := socketIps.Keys;
    ghost var counted: set<string> := {};
    while ids != {}
      invariant ids <= socketIps.Keys && counted == SocketsOf(socketIps, ip) - ids && count == |counted|
      decreases |ids|
    {
      var id :| id in ids;
      if socketIps[id] == ip {
        assert SocketsOf(socketIps, ip) - (ids - {id}) == counted + {id};
        counted := counted + {id};
        count := count + 1;
      } else {
        assert SocketsOf(socketIps, ip) - (ids - {id}) == counted;
      }
      ids := ids - {id};
    }
    assert SocketsOf(socketIps, ip) - {} == SocketsOf(socketIps, ip);
  }

  class WebsocketGateway {
    const config: Config
    var connectionRates: Rates
    var socketIps: map<string, string>

    constructor (config: Config)
      ensures this.config == config && Contents() == Gateway(map[], map[])
    {
      this.config := config;
      connectionRates, socketIps := map[], map[];
    }

    function Contents(): Gateway
      reads this
    {
      Gateway(connectionRates, socketIps)
    }

    method RecordConnectionAttempt(ip: string, now: int) returns (attempts: nat)
      modifies this`connectionRates
      ensures connectionRates == Recorded(old(connectionRates), ip, now, config.windowMs)
      ensures attempts == |connectionRates[ip]|
    {
      var recent := Recent(TimestampsOf(connectionRates, ip), now - config.windowMs);
      recent := recent + [now];
      connectionRates := connectionRates[ip := recent];
      return |recent|;
    }

    method PruneConnectionRates(now: int)
      modifies this`connectionRates
      ensures connectionRates == Pruned(old(connectionRates), now - config.windowMs)
    {
      hide Recent;
      var windowStart := now - config.windowMs;
      var ips := connectionRates.Keys;
      ghost var before := connectionRates;
      while ips != {}
        invariant ips <= connectionRates.Keys <= before.Keys
        invariant forall ip | ip in ips :: connectionRates[ip] == before[ip]
        invariant forall ip | ip in before.Keys - ips ::
          if Recent(before[ip], windowStart) == [] then ip !in connectionRates
          else ip in connectionRates && connectionRates[ip] == Recent(before[ip], windowStart)
        decreases |ips|
      {
        var ip :| ip in ips;
        var recent := Recent(connectionRates[ip], windowStart);
        if recent == [] {
          connectionRates := connectionRates - {ip};
        } else {
          connectionRates := connectionRates[ip := recent];
        }
        ips := ips - {ip};
      }
    }

    method HandleConnection(id: string, ip: string, now: int) returns (verdict: Verdict)
      modifies this
      ensures verdict == Judge(old(Contents()), config, ip, now)
      ensures Contents() == Connected(old(Contents()), config, id, ip, now)
      ensures socketIps == if verdict == Admitted then old(socketIps)[id := ip] else old(socketIps)
    {
      hide Pruned, Recent, SocketsOf;
      PruneConnectionRates(now);
      var concurrent := CountConcurrentConnections(socketIps, ip);
      if concurrent >= config.maxConcurrentPerIp {
        return TooManySockets;
      }
      var attempts := RecordConnectionAttempt(ip, now);
      if attempts > config.maxAttemptsInWindow {
        return TooManyAttempts;
      }
      socketIps := socketIps[id := ip];
      return Admitted;
    }

    method HandleDisconnect(id: string)
      modifies this`socketIps
      ensures Contents() == old(Contents()).(socketIps := old(socketIps) - {id})
    {
      socketIps := socketIps - {id};
    }
  }

  // Full history.

  datatype Mark = Mark(ip: string, at: int)

  datatype Event = Connect(id: string, ip: string, now: int) | Disconnect(id: string) | PruneTimer(now: int)

  /** The gateway with everything that ever happened: attempts recorded and connections admitted. */
  datatype World = World(gateway: Gateway, attempts: seq<Mark>, admitted: seq<Mark>, clock: int)

  function Step(w: World, config: Config, e: Event): World {
    match e
    case Connect(id, ip, now) =>
      var verdict := Judge(w.gateway, config, ip, now);
      World(Connected(w.gateway, config, id, ip, now),
            if verdict == TooManySockets then w.attempts else w.attempts + [Mark(ip, now)],
            if verdict == Admitted then w.admitted + [Mark(ip, now)] else w.admitted,
            now)
    case Disconnect(id) => w.(gateway := w.gateway.(socketIps := w.gateway.socketIps - {id}))
    case PruneTimer(now) =>
      w.(gateway := w.gateway.(rates := Pruned(w.gateway.rates, now - config.windowMs)), clock := now)
  }

  predicate InOrder(w: World, e: Event) { !e.Disconnect? ==> w.clock <= e.now }

  function Run(w: World, config: Config, events: seq<Event>): World
    decreases |events|
  {
    if events == [] then w else Run(Step(w, config, events[0]), config, events[1..])
  }

  ghost predicate ClockOrdered(w: World, config: Config, events: seq<Event>)
    decreases |events|
  {
    events != [] ==> InOrder(w, events[0]) && ClockOrdered(Step(w, config, events[0]), config, events[1..])
  }

  function CountSince(marks: seq<Mark>, ip: string, lo: int): nat {
    if marks == [] then 0
    else CountSince(marks[..|marks| - 1], ip, lo)
         + if marks[|marks| - 1].ip == ip && marks[|marks| - 1].at >= lo then 1 else 0
  }

  function CountWithin(marks: seq<Mark>, ip: string, lo: int, hi: int): nat {
    if marks == [] then 0
    else CountWithin(marks[..|marks| - 1], ip, lo, hi)
         + if marks[|marks| - 1].ip == ip && lo <= marks[|marks| - 1].at <= hi then 1 else 0
  }

  /**
   * The table forgets only what no later window can contain; admitted connections are recorded
   * attempts; limits hold in every window and for every address.
   */
  ghost predicate Faithful(w: World, config: Config) {
    && (forall ip, lo | lo >= w.clock - config.windowMs ::
          |Recent(TimestampsOf(w.gateway.rates, ip), lo)| == CountSince(w.attempts, ip, lo))
    && (forall ip, lo :: CountSince(w.admitted, ip, lo) <= CountSince(w.attempts, ip, lo))
    && (forall m | m in w.admitted :: m.at <= w.clock)
    && (forall ip, lo, hi | hi == lo + config.windowMs ::
          CountWithin(w.admitted, ip, lo, hi) <= config.maxAttemptsInWindow)
    && (forall ip :: |SocketsOf(w.gateway.socketIps, ip)| <= config.maxConcurrentPerIp)
  }

  lemma {:induction false} RecentOfRecent(timestamps: seq<int>, lo: int, start: int)
    requires start <= lo
    ensures Recent(Recent(timestamps, start), lo) == Recent(timestamps, lo)
  {
    if timestamps != [] {
      RecentOfRecent(timestamps[1..], lo, start);
    }
  }

  lemma {:induction false} RecentPush(timestamps: seq<int>, t: int, lo: int)
    ensures Recent(timestamps + [t], lo) == Recent(timestamps, lo) + if t >= lo then [t] else []
  {
    if timestamps == [] {
      assert timestamps + [t] == [t];
    } else {
      assert (timestamps + [t])[1..] == timestamps[1..] + [t];
      RecentPush(timestamps[1..], t, lo);
    }
  }

  lemma RecentOfPruned(rates: Rates, ip: string, start: int, lo: int)
    requires start <= lo
    ensures Recent(TimestampsOf(Pruned(rates, start), ip), lo) == Recent(TimestampsOf(rates, ip), lo)
  {
    RecentOfRecent(TimestampsOf(rates, ip), lo, start);
  }

  lemma RecentOfRecorded(rates: Rates, ip: string, now: int, windowMs: nat, other: string, lo: int)
    requires lo >= now - windowMs
    ensures |Recent(TimestampsOf(Recorded(rates, ip, now, windowMs), other), lo)|
         == |Recent(TimestampsOf(rates, other), lo)| + if other == ip && now >= lo then 1 else 0
  {
    var kept := Recent(TimestampsOf(rates, ip), now - windowMs);
    RecentOfRecent(TimestampsOf(rates, ip), lo, now - windowMs);
    RecentPush(kept, now, lo);
  }

  lemma CountsPush(marks: seq<Mark>, m: Mark, ip: string, lo: int, hi: int)
    ensures CountSince(marks + [m], ip, lo) == CountSince(marks, ip, lo) + if m.ip == ip && m.at >= lo then 1 else 0
    ensures CountWithin(marks + [m], ip, lo, hi)
         == CountWithin(marks, ip, lo, hi) + if m.ip == ip && lo <= m.at <= hi then 1 else 0
  {
    assert (marks + [m])[..|marks|] == marks;
  }

  lemma {:induction false} WithinIsSince(marks: seq<Mark>, ip: string, lo: int, hi: int, since: int)
    requires since <= lo
    ensures CountWithin(marks, ip, lo, hi) <= CountSince(marks, ip, since)
  {
    if marks != [] {
      WithinIsSince(marks[..|marks| - 1], ip, lo, hi, since);
    }
  }

  /** The count a connection is judged by is the number of attempts ever recorded in its closed window. */
  lemma AttemptsMatchHistory(w: World, config: Config, ip: string, now: int)
    requires Faithful(w, config) && w.clock <= now
    ensures |Recorded(Pruned(w.gateway.rates, now - config.windowMs), ip, now, config.windowMs)[ip]|
         == CountSince(w.attempts + [Mark(ip, now)], ip, now - config.windowMs)
  {
    hide Recent, Pruned;
    var start := now - config.windowMs;
    RecentOfPruned(w.gateway.rates, ip, start, start);
    CountsPush(w.attempts, Mark(ip, now), ip, start, now);
  }

  lemma SocketsPush(socketIps: map<string, string>, id: string, ip: string, other: string)
    ensures |SocketsOf(socketIps[id := ip], other)| <= |SocketsOf(socketIps, other)| + if other == ip then 1 else 0
    ensures |SocketsOf(socketIps - {id}, other)| <= |SocketsOf(socketIps, other)|
  {
    var before, after := SocketsOf(socketIps, other), SocketsOf(socketIps[id := ip], other);
    assert after <= before + if other == ip then {id} else {};
    SmallerSet(after, before + if other == ip then {id} else {});
    SmallerSet(SocketsOf(socketIps - {id}, other), before);
  }

  lemma {:induction false} SmallerSet(a: set<string>, b: set<string>)
    requires a <= b
    ensures |a| <= |b|
  {
    if a != {} {
      var x :| x in a;
      SmallerSet(a - {x}, b - {x});
    }
  }

  /** Pruning at a later time forgets nothing a later window contains. */
  lemma PruneKeepsFaithful(w: World, config: Config, now: int)
    requires Faithful(w, config) && w.clock <= now
    ensures Faithful(Step(w, config, PruneTimer(now)), config)
  {
    hide Recent, Pruned;
    forall ip, lo | lo >= now - config.windowMs
      ensures |Recent(TimestampsOf(Pruned(w.gateway.rates, now - config.windowMs), ip), lo)|
              == CountSince(w.attempts, ip, lo)
    {
      RecentOfPruned(w.gateway.rates, ip, now - config.windowMs, lo);
    }
  }

  lemma RecordKeepsCounts(w: World, config: Config, ip: string, now: int, other: string, lo: int)
    requires Faithful(w, config) && w.clock <= now && lo >= now - config.windowMs
    ensures var rates := Recorded(Pruned(w.gateway.rates, now - config.windowMs), ip, now, config.windowMs);
            |Recent(TimestampsOf(rates, other), lo)| == CountSince(w.attempts + [Mark(ip, now)], other, lo)
  {
    hide Recent, Pruned;
    var pruned := Pruned(w.gateway.rates, now - config.windowMs);
    RecentOfRecorded(pruned, ip, now, config.windowMs, other, lo);
    RecentOfPruned(w.gateway.rates, other, now - config.windowMs, lo);
    CountsPush(w.attempts, Mark(ip, now), other, lo, now);
  }

  /** Admitting keeps every window within the limit: those that end later than now contain no more than this one. */
  lemma AdmitKeepsWindows(w: World, config: Config, ip: string, now: int, other: string, lo: int, hi: int)
    requires Faithful(w, config) && w.clock <= now && hi == lo + config.windowMs
    requires CountSince(w.attempts + [Mark(ip, now)], ip, now - config.windowMs) <= config.maxAttemptsInWindow
    ensures CountWithin(w.admitted + [Mark(ip, now)], other, lo, hi) <= config.maxAttemptsInWindow
    ensures CountSince(w.admitted + [Mark(ip, now)], other, lo) <= CountSince(w.attempts + [Mark(ip, now)], other, lo)
  {
    var m := Mark(ip, now);
    CountsPush(w.admitted, m, other, lo, hi);
    CountsPush(w.attempts, m, other, lo, hi);
    CountsPush(w.attempts, m, ip, now - config.windowMs, hi);
    if other == ip && lo <= now <= hi {
      WithinIsSince(w.admitted, ip, lo, hi, now - config.windowMs);
    }
  }

  lemma ConnectKeepsFaithful(w: World, config: Config, id: string, ip: string, now: int)
    requires Faithful(w, config) && w.clock <= now
    ensures Faithful(Step(w, config, Connect(id, ip, now)), config)
  {
    hide Recent, Pruned, CountSince, CountWithin, Recorded, SocketsOf;
    var t := Step(w, config, Connect(id, ip, now));
    if Judge(w.gateway, config, ip, now) == TooManySockets {
      PruneKeepsFaithful(w, config, now);
    } else {
      AttemptsMatchHistory(w, config, ip, now);
      forall other, lo | lo >= now - config.windowMs
        ensures |Recent(TimestampsOf(t.gateway.rates, other), lo)| == CountSince(t.attempts, other, lo)
      {
        RecordKeepsCounts(w, config, ip, now, other, lo);
      }
      forall other, lo
        ensures CountSince(w.attempts, other, lo) <= CountSince(t.attempts, other, lo)
      {
        CountsPush(w.attempts, Mark(ip, now), other, lo, lo);
      }
      if Judge(w.gateway, config, ip, now) == Admitted {
        forall other, lo, hi | hi == lo + config.windowMs
          ensures CountWithin(t.admitted, other, lo, hi) <= config.maxAttemptsInWindow
          ensures CountSince(t.admitted, other, lo) <= CountSince(t.attempts, other, lo)
        {
          AdmitKeepsWindows(w, config, ip, now, other, lo, hi);
        }
        forall other, lo
          ensures CountSince(t.admitted, other, lo) <= CountSince(t.attempts, other, lo)
        {
          AdmitKeepsWindows(w, config, ip, now, other, lo, lo + config.windowMs);
        }
        forall other
          ensures |SocketsOf(t.gateway.socketIps, other)| <= config.maxConcurrentPerIp
        {
          SocketsPush(w.gateway.socketIps, id, ip, other);
        }
      }
    }
  }

  lemma StepKeepsFaithful(w: World, config: Config, e: Event)
    requires Faithful(w, config) && InOrder(w, e)
    ensures Faithful(Step(w, config, e), config)
  {
    hide Recent, Pruned, CountSince, CountWithin, Recorded, SocketsOf;
    match e
    case Connect(id, ip, now) => ConnectKeepsFaithful(w, config, id, ip, now);
    case PruneTimer(now) => PruneKeepsFaithful(w, config, now);
    case Disconnect(id) =>
      forall other
        ensures |SocketsOf(w.gateway.socketIps - {id}, other)| <= config.maxConcurrentPerIp
      {
        SocketsPush(w.gateway.socketIps, id, "", other);
      }
  }

  function Start(clock: int): World { World(Gateway(map[], map[]), [], [], clock) }

  /**
   * Over every run with a clock that never goes back, whenever the table is pruned: every closed
   * window admits at most the configured number of connections per address, and live sockets per
   * address never exceed their cap.
   */
  lemma {:induction false} LimitsHold(w: World, config: Config, events: seq<Event>)
    requires Faithful(w, config) && ClockOrdered(w, config, events)
    ensures var t := Run(w, config, events);
            && Faithful(t, config)
            && (forall ip, lo, hi | hi == lo + config.windowMs ::
                  CountWithin(t.admitted, ip, lo, hi) <= config.maxAttemptsInWindow)
            && (forall ip :: |SocketsOf(t.gateway.socketIps, ip)| <= config.maxConcurrentPerIp)
    decreases |events|
  {
    hide Recent, Pruned, CountSince, CountWithin, Recorded, SocketsOf, Step;
    if events != [] {
      StepKeepsFaithful(w, config, events[0]);
      LimitsHold(Step(w, config, events[0]), config, events[1..]);
    }
  }

  lemma StartIsFaithful(config: Config, clock: int)
    ensures Faithful(Start(clock), config)
  {
    assert forall ip :: SocketsOf(map[], ip) == {};
  }

  // Who is admitted.

  /** The attempts from an address that were recorded at or after this time, by their place in the history. */
  function Since(attempts: seq<Mark>, ip: string, lo: int): set<nat> {
    set i | 0 <= i < |attempts| && attempts[i].ip == ip && attempts[i].at >= lo
  }

  lemma {:induction false} CountIsSize(attempts: seq<Mark>, ip: string, lo: int)
    ensures CountSince(attempts, ip, lo) == |Since(attempts, ip, lo)|
  {
    if attempts == [] {
      assert Since(attempts, ip, lo) == {};
    } else {
      var n := |attempts| - 1;
      CountIsSize(attempts[..n], ip, lo);
      assert Since(attempts, ip, lo)
          == Since(attempts[..n], ip, lo) + if attempts[n].ip == ip && attempts[n].at >= lo then {n} else {};
    }
  }

  /**
   * In every run a connection is admitted if and only if its address has fewer live sockets than the cap and
   * fewer recorded attempts in the window before it than the limit. It counts as an attempt unless the cap refused it.
   */
  lemma AdmittedIff(w: World, config: Config, id: string, ip: string, now: int)
    requires Faithful(w, config) && w.clock <= now
    ensures var t := Step(w, config, Connect(id, ip, now));
            var live := set s | s in w.gateway.socketIps && w.gateway.socketIps[s] == ip;
            var recent := set i | 0 <= i < |w.attempts| && w.attempts[i].ip == ip
                                  && now - config.windowMs <= w.attempts[i].at;
            var admitted := |live| < config.maxConcurrentPerIp && |recent| < config.maxAttemptsInWindow;
            && t.admitted == (if admitted then w.admitted + [Mark(ip, now)] else w.admitted)
            && t.gateway.socketIps == (if admitted then w.gateway.socketIps[id := ip] else w.gateway.socketIps)
            && t.attempts
               == (if |live| < config.maxConcurrentPerIp then w.attempts + [Mark(ip, now)] else w.attempts)
  {
    hide Recent, Pruned, Recorded, CountSince, CountWithin;
    var lo := now - config.windowMs;
    AttemptsMatchHistory(w, config, ip, now);
    CountsPush(w.attempts, Mark(ip, now), ip, lo, now);
    CountIsSize(w.attempts, ip, lo);
    assert SocketsOf(w.gateway.socketIps, ip) == set s | s in w.gateway.socketIps && w.gateway.socketIps[s] == ip;
    assert Since(w.attempts, ip, lo) == set i | 0 <= i < |w.attempts| && w.attempts[i].ip == ip
                                                 && now - config.windowMs <= w.attempts[i].at;
  }
}
