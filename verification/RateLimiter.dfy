/** The rate limiter's clients (middlewares/limiter.go): one bucket per client, dropped by a
    cleanup pass when the client has been idle for more than three minutes. */
module RateLimiters {
  import opened Strings
  import opened Sweeps
  import opened TokenBuckets

  /** Three minutes, in seconds. */
  const IDLE: real := 180.0

  datatype Entry = Entry(tokens: real, lastCheck: real, lastSeen: real)

  type Table = map<string, Entry>

  /** One request as one step: look the client up, making it if need be, then its bucket. */
  function Served(rate: real, burst: int, table: Table, ip: string, now: real): (Table, bool) {
    var entry := if ip in table then table[ip] else Entry(burst as real, now, now);
    var (tokens, ok) := Take(rate, burst, entry.tokens, entry.lastCheck, now);
    (table[ip := Entry(tokens, now, now)], ok)
  }

  predicate Idle(entry: Entry, now: real) {
    now - entry.lastSeen > IDLE
  }

  class Client {
    const limiter: Bucket
    var lastSeen: real

    constructor (rate: real, burst: int, now: real)
      ensures fresh(limiter) && limiter.rate == rate && limiter.burst == burst
      ensures limiter.tokens == burst as real && limiter.lastCheck == now && lastSeen == now
    {
      limiter := new Bucket(rate, burst, now);
      lastSeen := now;
    }
  }

  class RateLimiter {
    const rate: real
    const burst: int
    var clients: map<string, Client>
    /** The clients' present fields. */
    ghost var table: Table
    ghost var repr: set<object>

    ghost predicate Valid()
      reads this, repr
    {
      && this in repr && table.Keys == clients.Keys
      && (forall ip :: ip in clients ==>
            var c := clients[ip];
            && c in repr && c.limiter in repr && c.limiter.rate == rate && c.limiter.burst == burst
            && table[ip] == Entry(c.limiter.tokens, c.limiter.lastCheck, c.lastSeen))
      && (forall a, b :: a in clients && b in clients && a != b ==>
            clients[a] != clients[b] && clients[a].limiter != clients[b].limiter)
    }

    constructor (rate: real, burst: int)
      ensures Valid() && fresh(repr) && table == map[]
      ensures this.rate == rate && this.burst == burst
    {
      this.rate := rate;
      this.burst := burst;
      clients := map[];
      table := map[];
      repr := {this};
    }

    /** The client of an address, made with a full bucket if need be. */
    method FindClient(ip: string, now: real) returns (client: Client)
      requires Valid()
      modifies this
      ensures Valid() && fresh(repr - old(repr))
      ensures ip in clients && clients[ip] == client
      ensures table == if ip in old(table) then old(table) else old(table)[ip := Entry(burst as real, now, now)]
    {
      if ip in clients {
        client := clients[ip];
      } else {
        client := new Client(rate, burst, now);
        clients := clients[ip := client];
        table := table[ip := Entry(burst as real, now, now)];
        repr := repr + {client, client.limiter};
      }
    }

    method Handle(ip: string, now: real) returns (ok: bool)
      requires Valid()
      modifies repr
      ensures Valid() && fresh(repr - old(repr))
      ensures (table, ok) == Served(rate, burst, old(table), ip, now)
    {
      var _ := FindClient(ip, now);
      ServedFromFound(rate, burst, old(table), table, ip, now);
      ok := ServeClient(ip, now);
    }

    method ServeClient(ip: string, now: real) returns (ok: bool)
      requires Valid() && ip in clients
      modifies this`table, clients[ip], clients[ip].limiter
      ensures Valid()
      ensures var (tokens, taken) := Take(rate, burst, old(table)[ip].tokens, old(table)[ip].lastCheck, now);
              ok == taken && table == old(table)[ip := Entry(tokens, now, now)]
    {
      var client := clients[ip];
      client.lastSeen := now;
      ok := client.limiter.Allow(now);
      table := table[ip := Entry(client.limiter.tokens, now, now)];
    }

    /** The body of the cleanup loop. */
    method Visit(ip: string, now: real)
      requires Valid() && ip in clients
      modifies this`clients, this`table
      ensures Valid() && table == Dropped(old(table), ip, now, Idle)
    {
      if now - clients[ip].lastSeen > IDLE {
        clients := clients - {ip};
        table := table - {ip};
      }
    }

    /** One pass of the cleanup loop, over the clients in some order. */
    method Cleanup(clock: seq<real>) returns (ghost order: seq<string>)
      requires Valid() && |clock| == |table|
      modifies this`clients, this`table
      ensures Valid() && Orders(order, old(table).Keys) && |order| == |clock|
      ensures table == Visited(old(table), order, clock, Idle)
    {
      var ips, i := clients.Keys, 0;
      order := [];
      assert PartlyVisited(table, table, order, clock, Idle, ips);
      while ips != {}
        invariant Valid() && i == |order| && PartlyVisited(old(table), table, order, clock, Idle, ips)
        decreases ips
      {
        var ip :| ip in ips;
        VisitOneMore(old(table), table, order, clock, Idle, ips, ip);
        Visit(ip, clock[i]);
        ips, order, i := ips - {ip}, order + [ip], i + 1;
      }
      AllVisited(old(table), table, order, clock, Idle);
    }
  }

  /** Making the client if need be and then serving it is one request. */
  lemma ServedFromFound(rate: real, burst: int, table: Table, found: Table, ip: string, now: real)
    requires found == if ip in table then table else table[ip := Entry(burst as real, now, now)]
    ensures var (tokens, taken) := Take(rate, burst, found[ip].tokens, found[ip].lastCheck, now);
            Served(rate, burst, table, ip, now) == (found[ip := Entry(tokens, now, now)], taken)
  {
    var (tokens, taken) := Take(rate, burst, found[ip].tokens, found[ip].lastCheck, now);
    assert found[ip := Entry(tokens, now, now)] == table[ip := Entry(tokens, now, now)];
  }

  /** A pass drops exactly the clients last seen more than three minutes before the reading of
      the clock at their visit. */
  lemma CleanupDropsIdle(table: Table, order: seq<string>, clock: seq<real>, i: nat)
    requires Orders(order, table.Keys) && |order| == |clock| && i < |order|
    ensures order[i] in Visited(table, order, clock, Idle) <==> clock[i] - table[order[i]].lastSeen <= 180.0
    ensures order[i] in Visited(table, order, clock, Idle) ==>
              Visited(table, order, clock, Idle)[order[i]] == table[order[i]]
  {
    VisitedDropsStale(table, order, clock, Idle, order[i]);
  }

  // ----- Runs -----

  /** A cleanup pass is a Sweep of every client. */
  datatype Event = Request(ip: string, now: real) | Sweep(ip: string, now: real)

  function Step(rate: real, burst: int, table: Table, event: Event): Table {
    match event
    case Request(ip, now) => Served(rate, burst, table, ip, now).0
    case Sweep(ip, now) => Dropped(table, ip, now, Idle)
  }

  function Run(rate: real, burst: int, events: seq<Event>): Table {
    if events == [] then map[]
    else Step(rate, burst, Run(rate, burst, events[..|events| - 1]), events[|events| - 1])
  }

  /** The decision for a request that comes after a run. */
  function Decision(rate: real, burst: int, events: seq<Event>, ip: string, now: real): bool {
    Served(rate, burst, Run(rate, burst, events), ip, now).1
  }

  /** The clock does not run backwards. */
  ghost predicate Ordered(events: seq<Event>) {
    forall i, j :: 0 <= i <= j < |events| ==> events[i].now <= events[j].now
  }

  lemma RunOfMore(rate: real, burst: int, events: seq<Event>, event: Event)
    ensures Run(rate, burst, events + [event]) == Step(rate, burst, Run(rate, burst, events), event)
  {
    var run := events + [event];
    assert run[..|run| - 1] == events;
  }

  /** When one client's requests came. */
  function TimesOf(events: seq<Event>, ip: string): seq<real> {
    if events == [] then []
    else
      var event := events[|events| - 1];
      TimesOf(events[..|events| - 1], ip)
      + (if event.Request? && event.ip == ip then [event.now] else [])
  }

  lemma {:induction false} TimesInOrder(events: seq<Event>, ip: string)
    requires Ordered(events)
    ensures Ascending(TimesOf(events, ip))
    ensures forall t :: t in TimesOf(events, ip) ==> events != [] && t <= events[|events| - 1].now
  {
    if events != [] {
      var earlier := events[..|events| - 1];
      TimesInOrder(earlier, ip);
      assert earlier != [] ==> earlier[|earlier| - 1].now <= events[|events| - 1].now;
      var before := TimesOf(earlier, ip);
      assert forall i :: 0 <= i < |before| ==> before[i] in before;
    }
  }

  /** What the table has for a client whose requests came at `times`, `now` being the time of
      the last event: the bucket that was never dropped, or nothing after a long rest. */
  ghost predicate AsNeverDropped(rate: real, burst: int, table: Table, ip: string, times: seq<real>, now: real) {
    if ip in table then
      times != [] && table[ip] == Entry(Left(rate, burst, times), times[|times| - 1], times[|times| - 1])
    else
      times == [] || now - times[|times| - 1] > IDLE
  }

  /** A request is decided as the client's never-dropped bucket would. */
  lemma ServedAsNeverDropped(rate: real, burst: int, table: Table, ip: string, times: seq<real>, before: real,
                             now: real)
    requires burst >= 1 && burst as real <= IDLE * rate
    requires AsNeverDropped(rate, burst, table, ip, times, before) && before <= now && Ascending(times)
    ensures var (table', ok) := Served(rate, burst, table, ip, now);
            ok == Admits(rate, burst, times + [now]) && AsNeverDropped(rate, burst, table', ip, times + [now], now)
  {
    FirstTakeFollows(rate, burst, now);
    if times == [] {
      assert times + [now] == [now];
    } else if ip in table {
      TakeFollows(rate, burst, times, now);
    } else {
      RestedBucketIsFull(rate, burst, times, now);
    }
  }

  /** After more than three minutes the bucket is full again, as a new one is. */
  lemma RestedBucketIsFull(rate: real, burst: int, times: seq<real>, now: real)
    requires burst >= 1 && burst as real <= IDLE * rate
    requires times != [] && Ascending(times) && now - times[|times| - 1] > IDLE
    ensures Level(rate, burst, times + [now]) == burst as real == Level(rate, burst, [now])
    ensures Left(rate, burst, times + [now]) == Left(rate, burst, [now])
  {
    NeverNegative(rate, burst, times);
    var longer := times + [now];
    assert longer[..|times|] == times;
    var last := times[|times| - 1];
    LevelOfMore(rate, burst, times, now);
    GainIsMonotone(rate, last, last + IDLE, now);
    assert Gain(rate, last, last + IDLE) == IDLE * rate;
  }

  lemma {:induction false} RunAsNeverDropped(rate: real, burst: int, events: seq<Event>, ip: string)
    requires burst >= 1 && burst as real <= IDLE * rate
    requires Ordered(events) && events != []
    ensures AsNeverDropped(rate, burst, Run(rate, burst, events), ip, TimesOf(events, ip), events[|events| - 1].now)
  {
    var n := |events|;
    var earlier, event := events[..n - 1], events[n - 1];
    var table := Run(rate, burst, earlier);
    var times := TimesOf(earlier, ip);
    if n == 1 {
      assert times == [] && table == map[];
      if event.Request? && event.ip == ip {
        ServedAsNeverDropped(rate, burst, table, ip, [], event.now, event.now);
        assert [] + [event.now] == [event.now];
      }
    } else {
      RunAsNeverDropped(rate, burst, earlier, ip);
      TimesInOrder(earlier, ip);
      if event.Request? && event.ip == ip {
        ServedAsNeverDropped(rate, burst, table, ip, times, earlier[n - 2].now, event.now);
      } else {
        assert times + [] == times;
      }
    }
  }

  /** Eviction is invisible: if burst does not exceed what three minutes refill (or there is
      no burst at all), a request is decided as if no client was ever dropped, and from its
      own client's requests alone. */
  lemma EvictionIsInvisible(rate: real, burst: int, events: seq<Event>, ip: string, now: real)
    requires burst <= 0 || burst as real <= 180.0 * rate
    requires Ordered(events + [Request(ip, now)])
    ensures Decision(rate, burst, events, ip, now) == Admits(rate, burst, TimesOf(events, ip) + [now])
  {
    var times := TimesOf(events, ip);
    if burst <= 0 {
      LevelAtMostBurst(rate, burst, times + [now]);
    } else if events == [] {
      ServedAsNeverDropped(rate, burst, map[], ip, [], now, now);
      assert times + [now] == [] + [now];
    } else {
      var longer := events + [Request(ip, now)];
      assert longer[..|events|] == events && longer[|events| - 1] == events[|events| - 1];
      assert Ordered(events) by {
        forall i, j | 0 <= i <= j < |events| ensures events[i].now <= events[j].now {
          assert longer[i].now <= longer[j].now;
        }
      }
      assert longer[|events| - 1].now <= longer[|events|].now;
      RunAsNeverDropped(rate, burst, events, ip);
      TimesInOrder(events, ip);
      ServedAsNeverDropped(rate, burst, Run(rate, burst, events), ip, times, events[|events| - 1].now, now);
    }
  }

  // ----- When eviction shows -----

  function Repeated(now: real, n: nat): seq<real> {
    seq(n, _ => now)
  }

  function Burst(ip: string, now: real, n: nat): seq<Event> {
    seq(n, _ => Request(ip, now))
  }

  lemma BurstOfMore(events: seq<Event>, ip: string, now: real, n: nat)
    requires n > 0
    ensures events + Burst(ip, now, n) == events + Burst(ip, now, n - 1) + [Request(ip, now)]
    ensures events + Burst(ip, now, 0) == events
  {
  }

  /** A client that has no entry gets its whole burst at once. */
  lemma {:induction false} BurstIsServed(rate: real, burst: int, events: seq<Event>, ip: string, now: real, n: nat)
    requires ip !in Run(rate, burst, events) && n <= burst
    ensures var table := Run(rate, burst, events + Burst(ip, now, n));
            if n == 0 then ip !in table else ip in table && table[ip] == Entry((burst - n) as real, now, now)
    ensures n < burst ==> Decision(rate, burst, events + Burst(ip, now, n), ip, now)
  {
    if n == 0 {
      assert events + Burst(ip, now, n) == events;
    } else {
      BurstIsServed(rate, burst, events, ip, now, n - 1);
      AtOnce(rate, burst, (burst - n + 1) as real, now);
      BurstOfMore(events, ip, now, n);
      RunOfMore(rate, burst, events + Burst(ip, now, n - 1), Request(ip, now));
    }
    AtOnce(rate, burst, burst as real, now);
    AtOnce(rate, burst, (burst - n) as real, now);
  }

  lemma AtOnce(rate: real, burst: int, tokens: real, now: real)
    requires tokens <= burst as real
    ensures Take(rate, burst, tokens, now, now) == if tokens >= 1.0 then (tokens - 1.0, true) else (tokens, false)
  {
    GainOfNoTime(rate, now);
  }

  lemma TimesOfMore(events: seq<Event>, event: Event, ip: string)
    ensures TimesOf(events + [event], ip)
         == TimesOf(events, ip) + (if event.Request? && event.ip == ip then [event.now] else [])
  {
    var run := events + [event];
    assert run[..|run| - 1] == events;
  }

  lemma {:induction false} TimesOfBurst(events: seq<Event>, ip: string, now: real, n: nat)
    ensures TimesOf(events + Burst(ip, now, n), ip) == TimesOf(events, ip) + Repeated(now, n)
  {
    if n == 0 {
      assert events + Burst(ip, now, n) == events;
    } else {
      TimesOfBurst(events, ip, now, n - 1);
      BurstOfMore(events, ip, now, n);
      TimesOfMore(events + Burst(ip, now, n - 1), Request(ip, now), ip);
    }
  }

  /** A burst at time zero, a pass at `rest`, and another burst then: the first n requests. */
  function TwoBursts(ip: string, burst: nat, rest: real, n: nat): seq<Event> {
    if n < burst then Burst(ip, 0.0, n)
    else Burst(ip, 0.0, burst) + [Sweep(ip, rest)] + Burst(ip, rest, n - burst)
  }

  function TwoBurstTimes(burst: nat, rest: real): seq<real> {
    Repeated(0.0, burst) + Repeated(rest, burst)
  }

  function TwoBurstNow(burst: nat, rest: real, n: nat): real {
    if n < burst then 0.0 else rest
  }

  lemma TwoBurstsInOrder(ip: string, burst: nat, rest: real, n: nat)
    requires n < 2 * burst && rest >= 0.0
    ensures Ordered(TwoBursts(ip, burst, rest, n) + [Request(ip, TwoBurstNow(burst, rest, n))])
  {
    var run := TwoBursts(ip, burst, rest, n) + [Request(ip, TwoBurstNow(burst, rest, n))];
    forall i | 0 <= i < |run| ensures run[i].now == if i < burst then 0.0 else rest {
    }
  }

  lemma TwoBurstTimesPrefix(burst: nat, rest: real, n: nat)
    requires n < 2 * burst
    ensures TwoBurstTimes(burst, rest)[..n + 1]
         == (if n < burst then Repeated(0.0, n) else Repeated(0.0, burst) + Repeated(rest, n - burst))
            + [TwoBurstNow(burst, rest, n)]
  {
  }

  lemma TwoBurstsTimes(ip: string, burst: nat, rest: real, n: nat)
    requires n < 2 * burst
    ensures TimesOf(TwoBursts(ip, burst, rest, n), ip)
         == if n < burst then Repeated(0.0, n) else Repeated(0.0, burst) + Repeated(rest, n - burst)
  {
    TimesOfFirst(ip, if n < burst then n else burst);
    if n >= burst {
      var first := Burst(ip, 0.0, burst);
      TimesOfMore(first, Sweep(ip, rest), ip);
      TimesOfBurst(first + [Sweep(ip, rest)], ip, rest, n - burst);
      assert TimesOf(first, ip) + [] == TimesOf(first, ip);
    }
  }

  lemma TimesOfFirst(ip: string, n: nat)
    ensures TimesOf(Burst(ip, 0.0, n), ip) == Repeated(0.0, n)
  {
    TimesOfBurst([], ip, 0.0, n);
    assert [] + Burst(ip, 0.0, n) == Burst(ip, 0.0, n);
    assert [] + Repeated(0.0, n) == Repeated(0.0, n);
  }

  /** After one whole burst and a long rest the client is gone. */
  lemma RestedIsDropped(rate: real, burst: nat, ip: string, rest: real)
    requires rest > IDLE
    ensures ip !in Run(rate, burst, Burst(ip, 0.0, burst) + [Sweep(ip, rest)])
  {
    var first := Burst(ip, 0.0, burst);
    BurstIsServed(rate, burst, [], ip, 0.0, burst);
    assert [] + first == first;
    RunOfMore(rate, burst, first, Sweep(ip, rest));
  }

  /** The rest is long enough to be dropped: every request of both bursts is let through. */
  lemma TwoBurstsAreServed(rate: real, burst: nat, ip: string, rest: real, n: nat)
    requires n < 2 * burst && rest > IDLE
    ensures Decision(rate, burst, TwoBursts(ip, burst, rest, n), ip, TwoBurstNow(burst, rest, n))
  {
    if n < burst {
      BurstIsServed(rate, burst, [], ip, 0.0, n);
      assert [] + Burst(ip, 0.0, n) == Burst(ip, 0.0, n);
    } else {
      RestedIsDropped(rate, burst, ip, rest);
      BurstIsServed(rate, burst, Burst(ip, 0.0, burst) + [Sweep(ip, rest)], ip, rest, n - burst);
    }
  }

  /** Either some of the first k requests is denied, or all k are counted. */
  lemma {:induction false} DeniedOrAllAdmitted(rate: real, burst: int, times: seq<real>, k: nat) returns (i: nat)
    requires k <= |times|
    ensures if i < k then !Admits(rate, burst, times[..i + 1]) else Admitted(rate, burst, times, 0, k) == k
  {
    i := 0;
    if k > 0 {
      i := DeniedOrAllAdmitted(rate, burst, times, k - 1);
      if i >= k - 1 {
        i := if Admits(rate, burst, times[..k]) then k else k - 1;
      }
    }
  }

  /** A bucket that was kept denies one of the two bursts. */
  lemma SecondBurstIsDenied(rate: real, burst: nat, rest: real) returns (i: nat)
    requires burst >= 1 && Gain(rate, 0.0, rest) < burst as real
    ensures i < 2 * burst && !Admits(rate, burst, TwoBurstTimes(burst, rest)[..i + 1])
  {
    var times := TwoBurstTimes(burst, rest);
    var k := |times| - 1;
    i := DeniedOrAllAdmitted(rate, burst, times, k);
    if i >= k {
      assert WindowFull(rate, burst, times, 0) by {
        assert times[k] == rest && times[0] == 0.0;
        assert Admitted(rate, burst, times, 0, k) == 2 * burst - 1;
      }
      DeniedIffWindowFull(rate, burst, times);
      assert times[..k + 1] == times;
      i := k;
    }
  }

  /** A rest longer than three minutes that refills less than the burst. */
  lemma RestBelowRefill(rate: real, burst: nat) returns (rest: real)
    requires burst as real > IDLE * rate && burst >= 1
    ensures rest > IDLE && Gain(rate, 0.0, rest) < burst as real
  {
    if rate <= 0.0 {
      rest := IDLE + 1.0;
      GainIsNonNegative(-rate, 0.0, rest);
    } else {
      var full := burst as real / rate;
      assert full * rate == burst as real;
      assert full > IDLE by {
        if full <= IDLE {
          GainIsMonotone(rate, 0.0, full, IDLE);
        }
      }
      rest := (full + IDLE) / 2.0;
      assert Gain(rate, 0.0, rest) == (full * rate + IDLE * rate) / 2.0;
    }
  }

  /** Whether dropping clients never changes a decision, for any run of any clients. */
  ghost predicate NeverShows(rate: real, burst: int) {
    forall events: seq<Event>, ip: string, now: real :: Ordered(events + [Request(ip, now)]) ==>
      Decision(rate, burst, events, ip, now) == Admits(rate, burst, TimesOf(events, ip) + [now])
  }

  /** Dropping clients is invisible exactly when three minutes refill the whole burst, or
      there is no burst to refill. */
  lemma NeverShowsIffRefilled(rate: real, burst: int)
    ensures NeverShows(rate, burst) <==> burst <= 0 || burst as real <= 180.0 * rate
  {
    if burst <= 0 || burst as real <= IDLE * rate {
      forall events: seq<Event>, ip: string, now: real | Ordered(events + [Request(ip, now)])
        ensures Decision(rate, burst, events, ip, now) == Admits(rate, burst, TimesOf(events, ip) + [now])
      {
        EvictionIsInvisible(rate, burst, events, ip, now);
      }
    } else {
      var rest := RestBelowRefill(rate, burst);
      var i := SecondBurstIsDenied(rate, burst, rest);
      TwoBurstsAreServed(rate, burst, "", rest, i);
      TwoBurstsInOrder("", burst, rest, i);
      TwoBurstsTimes("", burst, rest, i);
      TwoBurstTimesPrefix(burst, rest, i);
      var now := TwoBurstNow(burst, rest, i);
      assert !(Decision(rate, burst, TwoBursts("", burst, rest, i), "", now)
               == Admits(rate, burst, TimesOf(TwoBursts("", burst, rest, i), "") + [now]));
    }
  }
}
