/** Pages and sessions in one store: runs in which the requests of both, and the cleanup,
    take their steps in any order. */
module SharedStores {
  import opened Strings
  import opened MemoryCaches
  import opened PageCaches
  import opened Sessions

  datatype Config<T> = Config(pageTtl: int, sessionTtl: int, zero: T)

  /** Request `r` starts and goes on; the clock reading of each step is part of it. */
  datatype Event<T> =
    | PageStart(r: nat, url: string, header: Header, now: int)
    | PageEnd(r: nat, actions: seq<Action>, failed: bool, now: int)
    | SessionStart(r: nat, cookie: string, random: string, now: int)
    | SessionSave(r: nat, data: T, now: int)
    | SessionDelete(r: nat, now: int)
    | CleanupVisit(key: string, now: int)

  datatype Miss = Miss(key: string, header: Header)

  /** The cache operations so far, the page requests whose handler is running, and the
      session identifier of each session request. */
  datatype State<T> = State(log: seq<Op<Stored<T>>>, misses: map<nat, Miss>, visits: map<nat, string>) {
    function Items(): Items<Stored<T>> {
      Run(log)
    }

    function Log(op: Op<Stored<T>>): State<T> {
      this.(log := log + [op])
    }
  }

  function Next<T>(config: Config<T>, state: State<T>, event: Event<T>): State<T> {
    match event
    case PageStart(r, url, header, now) =>
      var key := DefaultKey(url);
      var looked := state.Log(Get(key, now));
      if Found(state.Items(), key, now).Some? then looked
      else looked.(misses := state.misses[r := Miss(key, header)])
    case PageEnd(r, actions, failed, now) =>
      if r !in state.misses then state
      else
        var page := Captured(NewWire(state.misses[r].header), actions);
        var ended := state.(misses := state.misses - {r});
        if Keeps(page, failed) then ended.Log(Set(state.misses[r].key, Bytes(page), config.pageTtl, now)) else ended
    case SessionStart(r, cookie, random, now) =>
      var visit := Opened(state.Items(), cookie, random, config.zero, now);
      state.Log(Get(cookie, now)).(visits := state.visits[r := visit.id])
    case SessionSave(r, data, now) =>
      if r in state.visits then state.Log(Set(state.visits[r], Data(data), config.sessionTtl, now)) else state
    case SessionDelete(r, now) =>
      if r in state.visits then state.Log(Delete(state.visits[r], now)) else state
    case CleanupVisit(key, now) => state.Log(Sweep(key, now))
  }

  function After<T>(config: Config<T>, events: seq<Event<T>>): State<T> {
    if events == [] then State([], map[], map[])
    else Next(config, After(config, events[..|events| - 1]), events[|events| - 1])
  }

  function ItemsAfter<T>(config: Config<T>, events: seq<Event<T>>): Items<Stored<T>> {
    After(config, events).Items()
  }

  /** The clock reads Unix time and does not run backwards. */
  ghost predicate Clocked<T>(events: seq<Event<T>>) {
    && (forall i :: 0 <= i < |events| ==> 0 < events[i].now)
    && (forall i, j :: 0 <= i <= j < |events| ==> events[i].now <= events[j].now)
  }

  ghost predicate UpTo<T>(events: seq<Event<T>>, now: int) {
    Clocked(events) && (events != [] ==> events[|events| - 1].now <= now)
  }

  lemma UpToEarlier<T>(events: seq<Event<T>>, now: int)
    requires UpTo(events, now) && events != []
    ensures var n := |events| - 1;
            UpTo(events[..n], events[n].now) && 0 < events[n].now <= now
  {
    var n := |events| - 1;
    assert n > 0 ==> events[n - 1].now <= events[n].now;
  }

  lemma UpToLater<T>(events: seq<Event<T>>, event: Event<T>)
    requires UpTo(events, event.now) && 0 < event.now
    ensures UpTo(events + [event], event.now)
  {
    var longer := events + [event];
    forall i | 0 <= i < |longer| ensures longer[i].now <= event.now {
      if i < |events| {
        assert events[i].now <= events[|events| - 1].now;
      }
    }
  }

  lemma NotAfterLater<V>(ops: seq<Op<V>>, op: Op<V>)
    requires NotAfter(ops, op.now)
    ensures NotAfter(ops + [op], op.now)
  {
    var longer := ops + [op];
    forall i | 0 <= i < |longer| ensures longer[i].now <= op.now {
      if i < |ops| {
        assert ops[i].now <= ops[|ops| - 1].now;
      }
    }
  }

  /** A step adds at most one operation to the log, with the step's clock reading. */
  lemma LogOfNext<T>(config: Config<T>, state: State<T>, event: Event<T>) returns (op: Op<Stored<T>>)
    ensures op.now == event.now
    ensures Next(config, state, event).log == state.log || Next(config, state, event).log == state.log + [op]
  {
    var log := Next(config, state, event).log;
    op := if |log| > |state.log| then log[|log| - 1] else Get("", event.now);
  }

  lemma {:induction false} LogIsOrdered<T>(config: Config<T>, events: seq<Event<T>>, now: int)
    requires UpTo(events, now)
    ensures NotAfter(After(config, events).log, now)
  {
    if events != [] {
      var n := |events| - 1;
      UpToEarlier(events, now);
      LogIsOrdered(config, events[..n], events[n].now);
      var state := After(config, events[..n]);
      var op := LogOfNext(config, state, events[n]);
      NotAfterLater(state.log, op);
    }
  }

  // ----- What the store holds -----

  /** A session identifier is in the alphabet of its encoding, which has no colon. */
  predicate Generated(id: string) {
    ':' !in id
  }

  lemma GeneratedIsNoPage(id: string)
    requires Generated(id)
    ensures !(PREFIX <= id)
  {
    assert PREFIX[11] == ':';
    if |id| > 11 {
      assert id[11] in id;
    }
  }

  ghost predicate GeneratesIds<T>(events: seq<Event<T>>) {
    forall i :: 0 <= i < |events| && events[i].SessionStart? ==> Generated(events[i].random)
  }

  /** `id` was generated for one of the session requests. */
  ghost predicate Issued<T>(events: seq<Event<T>>, id: string) {
    exists i :: 0 <= i < |events| && events[i].SessionStart? && events[i].random == id
  }

  /** A step of the cache that keeps pages under page keys and session data under issued
      identifiers. */
  ghost predicate Proper<T>(events: seq<Event<T>>, op: Op<Stored<T>>) {
    match op
    case Set(key, value, _, _) => if value.Bytes? then PREFIX <= key else Issued(events, key)
    case Delete(key, _) => Issued(events, key)
    case Flush(_) => false
    case _ => true
  }

  ghost predicate Separate<T>(events: seq<Event<T>>, state: State<T>) {
    && (forall i :: 0 <= i < |state.log| ==> Proper(events, state.log[i]))
    && (forall r :: r in state.misses ==> PREFIX <= state.misses[r].key)
    && (forall r :: r in state.visits ==> Issued(events, state.visits[r]))
  }

  lemma IssuedLater<T>(events: seq<Event<T>>, event: Event<T>, id: string)
    requires Issued(events, id)
    ensures Issued(events + [event], id)
  {
    var i :| 0 <= i < |events| && events[i].SessionStart? && events[i].random == id;
    assert (events + [event])[i] == events[i];
  }

  lemma SeparateLater<T>(events: seq<Event<T>>, event: Event<T>, state: State<T>)
    requires Separate(events, state)
    ensures Separate(events + [event], state)
  {
    forall id | Issued(events, id) ensures Issued(events + [event], id) {
      IssuedLater(events, event, id);
    }
  }

  /** What LastSet gives was set by an operation of the run. */
  lemma {:induction false} LastSetIsOp<V>(ops: seq<Op<V>>, key: string) returns (i: nat)
    requires LastSet(ops, key).Some?
    ensures i < |ops| && ops[i].Set? && ops[i].key == key
    ensures LastSet(ops, key).value == NewItem(ops[i].value, ops[i].ttl, ops[i].now)
  {
    var n := |ops| - 1;
    if ops[n].Set? && ops[n].key == key {
      i := n;
    } else {
      i := LastSetIsOp(ops[..n], key);
    }
  }

  /** A value seen under a key was set there. */
  lemma SeenWasSet<T>(events: seq<Event<T>>, state: State<T>, key: string)
    requires Separate(events, state)
    ensures key in state.Items() ==>
              if state.Items()[key].value.Bytes? then PREFIX <= key else Issued(events, key)
  {
    if key in state.Items() {
      RunIsLastSet(state.log, key);
      var i := LastSetIsOp(state.log, key);
      assert Proper(events, state.log[i]);
    }
  }

  /** A session opens under an identifier generated for it or for an earlier one. */
  lemma OpenedIsIssued<T>(config: Config<T>, events: seq<Event<T>>, event: Event<T>, state: State<T>)
    requires Separate(events, state) && event.SessionStart?
    ensures Issued(events + [event], Opened(state.Items(), event.cookie, event.random, config.zero, event.now).id)
  {
    SeenWasSet(events, state, event.cookie);
    var visit := Opened(state.Items(), event.cookie, event.random, config.zero, event.now);
    if visit.isNew {
      assert (events + [event])[|events|].random == visit.id;
    } else {
      IssuedLater(events, event, visit.id);
    }
  }

  lemma SeparateAfterNext<T>(config: Config<T>, events: seq<Event<T>>, event: Event<T>, state: State<T>)
    requires Separate(events + [event], state)
    requires event.SessionStart? ==>
      Issued(events + [event], Opened(state.Items(), event.cookie, event.random, config.zero, event.now).id)
    ensures Separate(events + [event], Next(config, state, event))
  {
  }

  lemma {:induction false} StaysSeparate<T>(config: Config<T>, events: seq<Event<T>>)
    ensures Separate(events, After(config, events))
  {
    if events != [] {
      var n := |events| - 1;
      var earlier, event := events[..n], events[n];
      var state := After(config, earlier);
      StaysSeparate(config, earlier);
      assert earlier + [event] == events;
      SeparateLater(earlier, event, state);
      if event.SessionStart? {
        OpenedIsIssued(config, earlier, event, state);
      }
      SeparateAfterNext(config, earlier, event, state);
    }
  }

  /** Whatever the cookies and the clock: page keys hold pages only, and every other key is an identifier
      generated for a session, holding session data. */
  lemma StoreIsSeparate<T>(config: Config<T>, events: seq<Event<T>>, key: string)
    requires GeneratesIds(events) && key in ItemsAfter(config, events)
    ensures PREFIX <= key <==> ItemsAfter(config, events)[key].value.Bytes?
    ensures PREFIX <= key || Issued(events, key)
  {
    StaysSeparate(config, events);
    SeenWasSet(events, After(config, events), key);
    if Issued(events, key) {
      GeneratedIsNoPage(key);
    }
  }

  // ----- Each client as if alone -----

  function PagesOf<T>(events: seq<Event<T>>): seq<Event<T>> {
    if events == [] then []
    else
      var event := events[|events| - 1];
      PagesOf(events[..|events| - 1])
      + (if event.SessionStart? || event.SessionSave? || event.SessionDelete? then [] else [event])
  }

  function SessionsOf<T>(events: seq<Event<T>>): seq<Event<T>> {
    if events == [] then []
    else
      var event := events[|events| - 1];
      SessionsOf(events[..|events| - 1]) + (if event.PageStart? || event.PageEnd? then [] else [event])
  }

  lemma {:induction false} PagesInOrder<T>(events: seq<Event<T>>, now: int)
    requires UpTo(events, now)
    ensures UpTo(PagesOf(events), now)
  {
    if events != [] {
      var n := |events| - 1;
      UpToEarlier(events, now);
      PagesInOrder(events[..n], events[n].now);
      UpToLater(PagesOf(events[..n]), events[n]);
    }
  }

  lemma {:induction false} SessionsInOrder<T>(events: seq<Event<T>>, now: int)
    requires UpTo(events, now)
    ensures UpTo(SessionsOf(events), now)
  {
    if events != [] {
      var n := |events| - 1;
      UpToEarlier(events, now);
      SessionsInOrder(events[..n], events[n].now);
      UpToLater(SessionsOf(events[..n]), events[n]);
    }
  }

  /** The two runs have the same items, as far as a reader can tell, under one key. */
  lemma SameLastSetSameSeen<V>(ops: seq<Op<V>>, others: seq<Op<V>>, key: string, now: int)
    requires NotAfter(ops, now) && NotAfter(others, now)
    requires LastSet(ops, key) == LastSet(others, key)
    ensures Seen(Run(ops), key, now) == Seen(Run(others), key, now)
  {
    GetIsLastSet(ops, key, now);
    GetIsLastSet(others, key, now);
  }

  /** One more operation of the log. */
  lemma LastSetOfLog<T>(state: State<T>, op: Op<Stored<T>>, key: string)
    ensures LastSet(state.Log(op).log, key)
         == match op
            case Set(k, value, ttl, now) => if k == key then Some(NewItem(value, ttl, now)) else LastSet(state.log, key)
            case Delete(k, _) => if k == key then None else LastSet(state.log, key)
            case Flush(_) => None
            case _ => LastSet(state.log, key)
  {
    var log := state.log + [op];
    assert log[..|log| - 1] == state.log;
  }

  ghost predicate SamePages<T>(state: State<T>, alone: State<T>) {
    && state.misses == alone.misses
    && forall key: string :: PREFIX <= key ==> LastSet(state.log, key) == LastSet(alone.log, key)
  }

  ghost predicate SameSessions<T>(state: State<T>, alone: State<T>) {
    && state.visits == alone.visits
    && forall key: string :: !(PREFIX <= key) ==> LastSet(state.log, key) == LastSet(alone.log, key)
  }

  /** The same operation on both sides keeps what is last set the same. */
  lemma SameAfterOp<T>(state: State<T>, alone: State<T>, op: Op<Stored<T>>, key: string)
    requires LastSet(state.log, key) == LastSet(alone.log, key)
    ensures LastSet(state.Log(op).log, key) == LastSet(alone.Log(op).log, key)
  {
    LastSetOfLog(state, op, key);
    LastSetOfLog(alone, op, key);
  }

  lemma FoundAlike<T>(state: State<T>, alone: State<T>, key: string, now: int)
    requires SamePages(state, alone) && PREFIX <= key
    requires NotAfter(state.log, now) && NotAfter(alone.log, now)
    ensures Found(state.Items(), key, now) == Found(alone.Items(), key, now)
  {
    SameLastSetSameSeen(state.log, alone.log, key, now);
  }

  lemma PageStep<T>(config: Config<T>, state: State<T>, alone: State<T>, event: Event<T>)
    requires SamePages(state, alone)
    requires NotAfter(state.log, event.now) && NotAfter(alone.log, event.now)
    requires event.PageStart? || event.PageEnd? || event.CleanupVisit?
    ensures SamePages(Next(config, state, event), Next(config, alone, event))
  {
    if event.PageStart? {
      FoundAlike(state, alone, DefaultKey(event.url), event.now);
    }
    var op: Op<Stored<T>> :=
      if event.PageStart? then Get(DefaultKey(event.url), event.now)
      else if event.PageEnd? && event.r in state.misses then
        var miss := state.misses[event.r];
        Set(miss.key, Bytes(Captured(NewWire(miss.header), event.actions)), config.pageTtl, event.now)
      else if event.CleanupVisit? then Sweep(event.key, event.now)
      else Get("", event.now);
    var next, nextAlone := Next(config, state, event), Next(config, alone, event);
    assert next.misses == nextAlone.misses;
    assert (next.log == state.log && nextAlone.log == alone.log)
        || (next.log == state.Log(op).log && nextAlone.log == alone.Log(op).log);
    forall key: string | PREFIX <= key ensures LastSet(next.log, key) == LastSet(nextAlone.log, key) {
      SameAfterOp(state, alone, op, key);
    }
  }

  /** A session's step leaves the pages alone. */
  lemma SessionStepKeepsPages<T>(config: Config<T>, events: seq<Event<T>>, state: State<T>, alone: State<T>,
                                 event: Event<T>)
    requires SamePages(state, alone) && Separate(events, state) && GeneratesIds(events)
    requires event.SessionStart? || event.SessionSave? || event.SessionDelete?
    ensures SamePages(Next(config, state, event), alone)
  {
    forall id | Issued(events, id) ensures !(PREFIX <= id) {
      GeneratedIsNoPage(id);
    }
    forall op: Op<Stored<T>>, key: string
      | PREFIX <= key && (op.Get? || ((op.Set? || op.Delete?) && op.key != key))
      ensures LastSet(state.Log(op).log, key) == LastSet(state.log, key)
    {
      LastSetOfLog(state, op, key);
    }
  }

  lemma {:induction false} PagesProject<T>(config: Config<T>, events: seq<Event<T>>, now: int)
    requires UpTo(events, now) && GeneratesIds(events)
    ensures SamePages(After(config, events), After(config, PagesOf(events)))
  {
    if events != [] {
      var n := |events| - 1;
      var earlier, event := events[..n], events[n];
      UpToEarlier(events, now);
      PagesProject(config, earlier, event.now);
      var state, alone := After(config, earlier), After(config, PagesOf(earlier));
      if event.SessionStart? || event.SessionSave? || event.SessionDelete? {
        StaysSeparate(config, earlier);
        SessionStepKeepsPages(config, earlier, state, alone, event);
        assert PagesOf(events) == PagesOf(earlier);
      } else {
        LogIsOrdered(config, earlier, event.now);
        PagesInOrder(earlier, event.now);
        LogIsOrdered(config, PagesOf(earlier), event.now);
        PageStep(config, state, alone, event);
        var pages := PagesOf(events);
        assert pages[..|pages| - 1] == PagesOf(earlier);
      }
    }
  }

  /** The page cache answers as if it had the store to itself. */
  lemma PagesAreAlone<T>(config: Config<T>, events: seq<Event<T>>, url: string, now: int)
    requires UpTo(events, now) && GeneratesIds(events)
    ensures Found(ItemsAfter(config, events), DefaultKey(url), now)
         == Found(ItemsAfter(config, PagesOf(events)), DefaultKey(url), now)
  {
    PagesProject(config, events, now);
    LogIsOrdered(config, events, now);
    PagesInOrder(events, now);
    LogIsOrdered(config, PagesOf(events), now);
    FoundAlike(After(config, events), After(config, PagesOf(events)), DefaultKey(url), now);
  }

  /** A page under a page key opens no session, whoever asks for it. */
  lemma OpenedAlike<T>(config: Config<T>, events: seq<Event<T>>, others: seq<Event<T>>, state: State<T>,
                       alone: State<T>, cookie: string, random: string, now: int)
    requires SameSessions(state, alone) && Separate(events, state) && Separate(others, alone)
    requires GeneratesIds(events) && GeneratesIds(others)
    requires NotAfter(state.log, now) && NotAfter(alone.log, now)
    ensures Opened(state.Items(), cookie, random, config.zero, now)
         == Opened(alone.Items(), cookie, random, config.zero, now)
  {
    if PREFIX <= cookie {
      SeenWasSet(events, state, cookie);
      SeenWasSet(others, alone, cookie);
      if Issued(events, cookie) || Issued(others, cookie) {
        GeneratedIsNoPage(cookie);
      }
    } else {
      SameLastSetSameSeen(state.log, alone.log, cookie, now);
    }
  }

  lemma SessionStep<T>(config: Config<T>, state: State<T>, alone: State<T>, event: Event<T>)
    requires SameSessions(state, alone)
    requires event.SessionStart? || event.SessionSave? || event.SessionDelete? || event.CleanupVisit?
    requires event.SessionStart? ==>
               Opened(state.Items(), event.cookie, event.random, config.zero, event.now)
               == Opened(alone.Items(), event.cookie, event.random, config.zero, event.now)
    ensures SameSessions(Next(config, state, event), Next(config, alone, event))
  {
    forall op: Op<Stored<T>>, key: string | !(PREFIX <= key)
      ensures LastSet(state.Log(op).log, key) == LastSet(alone.Log(op).log, key)
    {
      SameAfterOp(state, alone, op, key);
    }
  }

  /** A page request's step leaves the sessions alone. */
  lemma PageStepKeepsSessions<T>(config: Config<T>, events: seq<Event<T>>, state: State<T>, alone: State<T>,
                                 event: Event<T>)
    requires SameSessions(state, alone) && Separate(events, state)
    requires event.PageStart? || event.PageEnd?
    ensures SameSessions(Next(config, state, event), alone)
  {
    forall op: Op<Stored<T>>, key: string
      | !(PREFIX <= key) && (op.Get? || (op.Set? && op.key != key))
      ensures LastSet(state.Log(op).log, key) == LastSet(state.log, key)
    {
      LastSetOfLog(state, op, key);
    }
  }

  lemma {:induction false} SessionsGenerate<T>(events: seq<Event<T>>)
    requires GeneratesIds(events)
    ensures GeneratesIds(SessionsOf(events))
  {
    if events != [] {
      SessionsGenerate(events[..|events| - 1]);
    }
  }

  lemma SessionsOpenAlike<T>(config: Config<T>, events: seq<Event<T>>, cookie: string, random: string, now: int)
    requires UpTo(events, now) && GeneratesIds(events)
    requires SameSessions(After(config, events), After(config, SessionsOf(events)))
    ensures Opened(ItemsAfter(config, events), cookie, random, config.zero, now)
         == Opened(ItemsAfter(config, SessionsOf(events)), cookie, random, config.zero, now)
  {
    var alone := SessionsOf(events);
    SessionsInOrder(events, now);
    SessionsGenerate(events);
    LogIsOrdered(config, events, now);
    LogIsOrdered(config, alone, now);
    StaysSeparate(config, events);
    StaysSeparate(config, alone);
    OpenedAlike(config, events, alone, After(config, events), After(config, alone), cookie, random, now);
  }

  lemma {:induction false} SessionsProject<T>(config: Config<T>, events: seq<Event<T>>, now: int)
    requires UpTo(events, now) && GeneratesIds(events)
    ensures SameSessions(After(config, events), After(config, SessionsOf(events)))
  {
    if events != [] {
      var n := |events| - 1;
      var earlier, event := events[..n], events[n];
      UpToEarlier(events, now);
      SessionsProject(config, earlier, event.now);
      var state, alone := After(config, earlier), After(config, SessionsOf(earlier));
      if event.PageStart? || event.PageEnd? {
        StaysSeparate(config, earlier);
        PageStepKeepsSessions(config, earlier, state, alone, event);
        assert SessionsOf(events) == SessionsOf(earlier);
      } else {
        if event.SessionStart? {
          SessionsOpenAlike(config, earlier, event.cookie, event.random, event.now);
        }
        SessionStep(config, state, alone, event);
        var sessions := SessionsOf(events);
        assert sessions[..|sessions| - 1] == SessionsOf(earlier);
      }
    }
  }

  /** Sessions open as if they had the store to themselves, whatever the cookie says. */
  lemma SessionsAreAlone<T>(config: Config<T>, events: seq<Event<T>>, cookie: string, random: string, now: int)
    requires UpTo(events, now) && GeneratesIds(events)
    ensures Opened(ItemsAfter(config, events), cookie, random, config.zero, now)
         == Opened(ItemsAfter(config, SessionsOf(events)), cookie, random, config.zero, now)
  {
    SessionsProject(config, events, now);
    SessionsOpenAlike(config, events, cookie, random, now);
  }

  // ----- Where a page comes from -----

  /** Event `i` is a page request that finds no page. */
  predicate Missed<T>(config: Config<T>, events: seq<Event<T>>, i: nat, r: nat, miss: Miss)
    requires i < |events|
  {
    && events[i].PageStart? && events[i].r == r
    && Miss(DefaultKey(events[i].url), events[i].header) == miss
    && Found(ItemsAfter(config, events[..i]), miss.key, events[i].now).None?
  }

  /** Event `m` is another miss, or the end, of request `r`. */
  predicate Interrupts<T>(config: Config<T>, events: seq<Event<T>>, m: nat, r: nat)
    requires m < |events|
  {
    || (events[m].PageEnd? && events[m].r == r)
    || (events[m].PageStart?
        && Missed(config, events, m, r, Miss(DefaultKey(events[m].url), events[m].header)))
  }

  /** What was so before the last event is so after it. */
  lemma SameSoFar<T>(config: Config<T>, events: seq<Event<T>>, r: nat)
    requires events != []
    ensures forall m, miss :: 0 <= m < |events| - 1 ==>
              Missed(config, events[..|events| - 1], m, r, miss) == Missed(config, events, m, r, miss)
    ensures forall m :: 0 <= m < |events| - 1 ==>
              Interrupts(config, events[..|events| - 1], m, r) == Interrupts(config, events, m, r)
  {
    var earlier := events[..|events| - 1];
    forall m | 0 <= m < |earlier| ensures earlier[..m] == events[..m] && earlier[m] == events[m] {
    }
  }

  lemma MissOfStep<T>(config: Config<T>, state: State<T>, event: Event<T>, r: nat)
    requires r in Next(config, state, event).misses
    ensures var miss := Next(config, state, event).misses[r];
            if event.PageStart? && event.r == r
               && Found(state.Items(), DefaultKey(event.url), event.now).None?
            then miss == Miss(DefaultKey(event.url), event.header)
            else !(event.PageEnd? && event.r == r) && r in state.misses && state.misses[r] == miss
  {
  }

  /** A request that is waiting after the last event started with it, or was waiting before. */
  lemma MissOfNext<T>(config: Config<T>, events: seq<Event<T>>, r: nat)
    requires events != [] && r in After(config, events).misses
    ensures var n := |events| - 1;
            var before, miss := After(config, events[..n]).misses, After(config, events).misses[r];
            || Missed(config, events, n, r, miss)
            || (!Interrupts(config, events, n, r) && r in before && before[r] == miss)
  {
    var n := |events| - 1;
    MissOfStep(config, After(config, events[..n]), events[n], r);
  }

  lemma {:induction false} MissWasStarted<T>(config: Config<T>, events: seq<Event<T>>, r: nat) returns (i: nat)
    requires r in After(config, events).misses
    ensures i < |events| && Missed(config, events, i, r, After(config, events).misses[r])
    ensures forall m :: i < m < |events| ==> !Interrupts(config, events, m, r)
  {
    var n := |events| - 1;
    MissOfNext(config, events, r);
    if Missed(config, events, n, r, After(config, events).misses[r]) {
      i := n;
    } else {
      i := MissWasStarted(config, events[..n], r);
      SameSoFar(config, events, r);
    }
  }

  /** Event `k` ends, without an error, the request that started with the miss at `i` (no
      other miss and no end of that request comes in between), and leaves this page. */
  ghost predicate Left<T>(config: Config<T>, events: seq<Event<T>>, i: nat, k: nat, key: string, page: CachedResponse)
    requires i < k < |events|
  {
    && events[k].PageEnd? && !events[k].failed && page.status < 400
    && (forall m :: i < m < k ==> !Interrupts(config, events, m, events[k].r))
    && events[i].PageStart?
    && Missed(config, events, i, events[k].r, Miss(key, events[i].header))
    && page == Captured(NewWire(events[i].header), events[k].actions)
  }

  lemma {:induction false} PageWasLeft<T>(config: Config<T>, events: seq<Event<T>>, j: nat) returns (i: nat, k: nat)
    requires j < |After(config, events).log|
    requires var op := After(config, events).log[j]; op.Set? && op.value.Bytes?
    ensures i < k < |events|
    ensures var op := After(config, events).log[j];
            && Left(config, events, i, k, op.key, op.value.page)
            && op.ttl == config.pageTtl && op.now == events[k].now
  {
    var n := |events| - 1;
    var earlier := events[..n];
    var state := After(config, earlier);
    if j < |state.log| {
      assert After(config, events).log[j] == state.log[j];
      i, k := PageWasLeft(config, earlier, j);
      SameSoFar(config, events, events[k].r);
    } else {
      i := MissWasStarted(config, earlier, events[n].r);
      k := n;
      SameSoFar(config, events, events[n].r);
    }
  }

  /** Every hit shows the page that an earlier GET of the same address left when it ended
      without an error and with a status below 400, after it had missed, and not longer ago
      than the time to live. */
  lemma HitIsEarlierMiss<T>(config: Config<T>, events: seq<Event<T>>, url: string, now: int) returns (i: nat, k: nat)
    requires config.pageTtl > 0 && Found(ItemsAfter(config, events), DefaultKey(url), now).Some?
    ensures i < k < |events| && events[i].PageStart? && events[i].url == url
    ensures Left(config, events, i, k, DefaultKey(url), Found(ItemsAfter(config, events), DefaultKey(url), now).value)
    ensures now <= events[k].now + config.pageTtl || events[k].now + config.pageTtl == 0
    ensures UpTo(events, now) ==> now - config.pageTtl <= events[k].now <= now
  {
    var log := After(config, events).log;
    var key := DefaultKey(url);
    RunIsLastSet(log, key);
    var j := LastSetIsOp(log, key);
    i, k := PageWasLeft(config, events, j);
    KeyTellsUrl(events[i].url, url);
    if UpTo(events, now) {
      assert events[k].now <= events[|events| - 1].now;
    }
  }

  // ----- A page that was left is found -----

  lemma SameUpTo<T>(config: Config<T>, events: seq<Event<T>>, k: nat, m: nat, r: nat)
    requires m < k <= |events|
    ensures Interrupts(config, events[..k], m, r) == Interrupts(config, events, m, r)
  {
    assert events[..k][..m] == events[..m];
  }

  lemma SameMiss<T>(config: Config<T>, events: seq<Event<T>>, k: nat, m: nat, r: nat, miss: Miss)
    requires m < k <= |events|
    ensures Missed(config, events[..k], m, r, miss) == Missed(config, events, m, r, miss)
  {
    assert events[..k][..m] == events[..m];
  }

  /** A request that missed and was not interrupted since is still waiting. */
  lemma {:induction false} MissStays<T>(config: Config<T>, events: seq<Event<T>>, i: nat, r: nat, miss: Miss)
    requires i < |events| && Missed(config, events, i, r, miss)
    requires forall m :: i < m < |events| ==> !Interrupts(config, events, m, r)
    ensures r in After(config, events).misses && After(config, events).misses[r] == miss
  {
    var n := |events| - 1;
    if i < n {
      forall m | i < m < n ensures !Interrupts(config, events[..n], m, r) {
        SameUpTo(config, events, n, m, r);
      }
      SameMiss(config, events, n, i, r, miss);
      MissStays(config, events[..n], i, r, miss);
      assert !Interrupts(config, events, n, r);
      WaitingStays(config, After(config, events[..n]), events[n], r);
    }
  }

  lemma WaitingStays<T>(config: Config<T>, state: State<T>, event: Event<T>, r: nat)
    requires r in state.misses && !(event.PageEnd? && event.r == r)
    requires event.PageStart? && event.r == r ==> Found(state.Items(), DefaultKey(event.url), event.now).Some?
    ensures r in Next(config, state, event).misses && Next(config, state, event).misses[r] == state.misses[r]
  {
  }

  /** Event `k` leaves a page under the key. */
  ghost predicate Leaves<T>(config: Config<T>, events: seq<Event<T>>, k: nat, key: string, page: CachedResponse)
    requires k < |events|
  {
    exists i: nat :: i < k && Left(config, events, i, k, key, page)
  }

  /** It does if the request was waiting with a miss of the key and ends well. */
  lemma LeavesIff<T>(config: Config<T>, events: seq<Event<T>>, k: nat, key: string, page: CachedResponse)
    requires k < |events|
    ensures Leaves(config, events, k, key, page) <==>
              && events[k].PageEnd? && events[k].r in After(config, events[..k]).misses
              && var miss := After(config, events[..k]).misses[events[k].r];
              && miss.key == key && !events[k].failed && page.status < 400
              && page == Captured(NewWire(miss.header), events[k].actions)
  {
    var earlier := events[..k];
    if events[k].PageEnd? && events[k].r in After(config, earlier).misses {
      var r := events[k].r;
      var i := MissWasStarted(config, earlier, r);
      var miss := After(config, earlier).misses[r];
      SameMiss(config, events, k, i, r, miss);
      forall m | i < m < k ensures !Interrupts(config, events, m, r) {
        SameUpTo(config, events, k, m, r);
      }
      if miss.key == key && page == Captured(NewWire(miss.header), events[k].actions) {
        assert !events[k].failed && page.status < 400 ==> Left(config, events, i, k, key, page);
      }
    }
    if i: nat :| i < k && Left(config, events, i, k, key, page) {
      SameMiss(config, events, k, i, events[k].r, Miss(key, events[i].header));
      forall m | i < m < k ensures !Interrupts(config, earlier, m, events[k].r) {
        SameUpTo(config, events, k, m, events[k].r);
      }
      MissStays(config, earlier, i, events[k].r, Miss(key, events[i].header));
    }
  }

  /** Event `k` is the last to leave a page under the key, and leaves this one. */
  ghost predicate LeavesLast<T>(config: Config<T>, events: seq<Event<T>>, k: nat, key: string, page: CachedResponse) {
    && k < |events| && Leaves(config, events, k, key, page)
    && forall l, other :: k < l < |events| ==> !Leaves(config, events, l, key, other)
  }

  lemma LeavesSoFar<T>(config: Config<T>, events: seq<Event<T>>, k: nat, key: string, page: CachedResponse)
    requires k < |events| - 1
    ensures Leaves(config, events[..|events| - 1], k, key, page) == Leaves(config, events, k, key, page)
  {
    assert events[..|events| - 1][..k] == events[..k];
    LeavesIff(config, events[..|events| - 1], k, key, page);
    LeavesIff(config, events, k, key, page);
  }

  /** What was last kept under a key. */
  function LastKept<T>(config: Config<T>, events: seq<Event<T>>, key: string): (kept: Option<Item<Stored<T>>>)
    ensures kept.Some? ==> kept.value.value.Bytes?
  {
    if events == [] then None
    else
      var n := |events| - 1;
      var misses, event := After(config, events[..n]).misses, events[n];
      if event.PageEnd? && event.r in misses && misses[event.r].key == key
         && Keeps(Captured(NewWire(misses[event.r].header), event.actions), event.failed)
      then
        var page := Captured(NewWire(misses[event.r].header), event.actions);
        Some(NewItem(Bytes(page), config.pageTtl, event.now))
      else LastKept(config, events[..n], key)
  }

  lemma {:induction false} KeptIsLastSet<T>(config: Config<T>, events: seq<Event<T>>, key: string)
    requires GeneratesIds(events) && PREFIX <= key
    ensures LastSet(After(config, events).log, key) == LastKept(config, events, key)
  {
    if events != [] {
      var n := |events| - 1;
      var earlier, event := events[..n], events[n];
      var state := After(config, earlier);
      KeptIsLastSet(config, earlier, key);
      StaysSeparate(config, earlier);
      forall id | Issued(earlier, id) ensures id != key {
        GeneratedIsNoPage(id);
      }
      var op := LogOfNext(config, state, event);
      if Next(config, state, event).log != state.log {
        assert Next(config, state, event).log == state.Log(op).log;
        LastSetOfLog(state, op, key);
      }
    }
  }

  lemma {:induction false} LastKeptLeaves<T>(config: Config<T>, events: seq<Event<T>>, key: string) returns (k: nat)
    requires LastKept(config, events, key).Some?
    ensures LeavesLast(config, events, k, key, LastKept(config, events, key).value.value.page)
  {
    var n := |events| - 1;
    var page := LastKept(config, events, key).value.value.page;
    LeavesIff(config, events, n, key, page);
    if Leaves(config, events, n, key, page) {
      k := n;
    } else {
      k := LastKeptLeaves(config, events[..n], key);
      LeavesSoFar(config, events, k, key, page);
      forall l, other | k < l < |events| ensures !Leaves(config, events, l, key, other) {
        LeavesIff(config, events, n, key, other);
        if l < n {
          LeavesSoFar(config, events, l, key, other);
        }
      }
    }
  }

  lemma {:induction false} LeavesLastIsKept<T>(config: Config<T>, events: seq<Event<T>>, k: nat, key: string,
                                               page: CachedResponse)
    requires LeavesLast(config, events, k, key, page)
    ensures LastKept(config, events, key) == Some(NewItem(Bytes(page), config.pageTtl, events[k].now))
  {
    var n := |events| - 1;
    LeavesIff(config, events, k, key, page);
    if k < n {
      LeavesLastSoFar(config, events, k, key, page);
      LeavesLastIsKept(config, events[..n], k, key, page);
      NoPageLeft(config, events, n, key);
    }
  }

  lemma LeavesLastSoFar<T>(config: Config<T>, events: seq<Event<T>>, k: nat, key: string, page: CachedResponse)
    requires LeavesLast(config, events, k, key, page) && k < |events| - 1
    ensures LeavesLast(config, events[..|events| - 1], k, key, page)
  {
    LeavesSoFar(config, events, k, key, page);
    var earlier := events[..|events| - 1];
    forall l, other | k < l < |earlier| ensures !Leaves(config, earlier, l, key, other) {
      LeavesSoFar(config, events, l, key, other);
    }
  }

  lemma NoPageLeft<T>(config: Config<T>, events: seq<Event<T>>, n: nat, key: string)
    requires n + 1 == |events| && forall other :: !Leaves(config, events, n, key, other)
    ensures LastKept(config, events, key) == LastKept(config, events[..n], key)
  {
    var misses, event := After(config, events[..n]).misses, events[n];
    if event.PageEnd? && event.r in misses && misses[event.r].key == key {
      LeavesIff(config, events, n, key, Captured(NewWire(misses[event.r].header), event.actions));
    }
  }

  /** A GET finds a page if and only if that is what the last request for the address to end
      well, after a miss, left, and its time to live, if it has one, has not passed: a page
      that was kept is hit until then, and nothing else is. */
  lemma PageIsLastLeft<T>(config: Config<T>, events: seq<Event<T>>, url: string, now: int, page: CachedResponse)
    requires UpTo(events, now) && GeneratesIds(events)
    ensures Found(ItemsAfter(config, events), "route_cache:" + url, now) == Some(page) <==>
              exists k: nat :: LeavesLast(config, events, k, "route_cache:" + url, page)
                && (config.pageTtl <= 0 || now <= events[k].now + config.pageTtl)
  {
    var key := DefaultKey(url);
    LogIsOrdered(config, events, now);
    KeptIsLastSet(config, events, key);
    GetIsLastSet(After(config, events).log, key, now);
    if LastKept(config, events, key).Some? {
      var k := LastKeptLeaves(config, events, key);
      LeavesLastIsKept(config, events, k, key, LastKept(config, events, key).value.value.page);
    }
    if k: nat :| LeavesLast(config, events, k, key, page) {
      LeavesLastIsKept(config, events, k, key, page);
    }
  }

  lemma KeyTellsUrl(a: string, b: string)
    requires DefaultKey(a) == DefaultKey(b)
    ensures a == b
  {
    assert a == DefaultKey(a)[|PREFIX|..] && b == DefaultKey(b)[|PREFIX|..];
  }

  /** And a hit repeats that request's reply, after the header lines already on the writer,
      if and only if the handler's actions were settled. */
  lemma HitRepeatsReply<T>(config: Config<T>, events: seq<Event<T>>, url: string, now: int, outer: Header)
    returns (i: nat, k: nat)
    requires config.pageTtl > 0 && Found(ItemsAfter(config, events), DefaultKey(url), now).Some?
    ensures i < k < |events| && events[i].PageStart? && events[i].url == url && events[k].PageEnd?
    ensures var page := Found(ItemsAfter(config, events), DefaultKey(url), now).value;
            var original := ReplyOf(DoAll(NewWire(events[i].header), events[k].actions));
            && Left(config, events, i, k, DefaultKey(url), page)
            && (ReplyOf(Replayed(NewWire(outer), page)) == Repeated(original, outer)
                <==> Settled(events[i].header, events[k].actions))
  {
    i, k := HitIsEarlierMiss(config, events, url, now);
    ReplayIsOriginalIffSettled(events[i].header, events[k].actions, outer);
  }

  /** The handler leaves the values of this header name alone. */
  predicate LeavesAlone(actions: seq<Action>, name: string) {
    forall i :: 0 <= i < |actions| && (actions[i].AddHeader? || actions[i].SetHeader?) ==> actions[i].name != name
  }

  lemma {:induction false} ValuesLeftAlone(header: Header, actions: seq<Action>, name: string)
    requires LeavesAlone(actions, name)
    ensures ValuesOf(HeaderAfter(header, actions), name) == ValuesOf(header, name)
  {
    if actions != [] {
      ValuesLeftAlone(header, actions[..|actions| - 1], name);
    }
  }

  /** What a hit sends under a name (Set-Cookie, say): the values on its own writer, and then
      those that the request that left the page had when it ended. */
  ghost predicate CarriesValues<T>(request: Event<T>, end: Event<T>, outer: Header, name: string, sent: seq<string>)
    requires request.PageStart? && end.PageEnd?
  {
    && sent == ValuesOf(outer, name) + ValuesOf(HeaderAfter(request.header, end.actions), name)
    && (LeavesAlone(end.actions, name) ==> sent == ValuesOf(outer, name) + ValuesOf(request.header, name))
  }

  /** So a hit sends a line that its own writer did not have if and only if the request that
      left the page had it when it ended: from its handler or, if the handler leaves the name
      alone, from a middleware around the page cache, such as that of the sessions. */
  lemma HitCarriesLineIff<T>(config: Config<T>, events: seq<Event<T>>, url: string, now: int, outer: Header,
                             name: string, line: string)
    returns (i: nat, k: nat)
    requires config.pageTtl > 0 && Found(ItemsAfter(config, events), DefaultKey(url), now).Some?
    requires name != "X-Cache" && line !in ValuesOf(outer, name)
    ensures var page := Found(ItemsAfter(config, events), DefaultKey(url), now).value;
            var sent := ValuesOf(ReplyOf(Replayed(NewWire(outer), page)).header, name);
            && i < k < |events| && Left(config, events, i, k, DefaultKey(url), page)
            && CarriesValues(events[i], events[k], outer, name, sent)
            && (line in sent <==> line in ValuesOf(HeaderAfter(events[i].header, events[k].actions), name))
            && (LeavesAlone(events[k].actions, name) ==> (line in sent <==> line in ValuesOf(events[i].header, name)))
  {
    i, k := HitIsEarlierMiss(config, events, url, now);
    var page := Found(ItemsAfter(config, events), DefaultKey(url), now).value;
    ReplyOfReplayed(outer, page);
    ReplyOfHandler(events[i].header, events[k].actions);
    HitHeaderValues(outer, page.header, name);
    if LeavesAlone(events[k].actions, name) {
      ValuesLeftAlone(events[i].header, events[k].actions, name);
    }
  }

  /** With the session middleware around the page cache each request has its own cookie line
      on the writer; a hit sends that of the request that left the page after its own. */
  lemma SecondCookieExample<T>(config: Config<T>, first: string, second: string)
    requires config.pageTtl > 0
    ensures var events: seq<Event<T>> :=
              [PageStart(1, "/", map["Set-Cookie" := [first]], 1), PageEnd(1, [Write("a")], false, 1)];
            var found := Found(ItemsAfter(config, events), DefaultKey("/"), 1);
            && found.Some?
            && ValuesOf(ReplyOf(Replayed(NewWire(map["Set-Cookie" := [second]]), found.value)).header, "Set-Cookie")
               == [second, first]
  {
    var header: Header := map["Set-Cookie" := [first]];
    var events: seq<Event<T>> := [PageStart(1, "/", header, 1), PageEnd(1, [Write("a")], false, 1)];
    var start: State<T> := State([], map[], map[]);
    var one := events[..1];
    assert one == [events[0]] && one[..0] == [] && start.Items() == map[];
    assert After(config, one[..0]) == start;
    var started := After(config, one);
    assert started == Next(config, start, one[0]);
    assert started.misses == map[1 := Miss(DefaultKey("/"), header)];
    ReplyOfHandler(header, [Write("a")]);
    assert [Write("a")][..0] == [];
    var page := Captured(NewWire(header), [Write("a")]);
    var ended := After(config, events);
    assert ended.log == started.log + [Set(DefaultKey("/"), Bytes(page), config.pageTtl, 1)];
    assert ended.log[..|started.log|] == started.log;
    assert Found(ended.Items(), DefaultKey("/"), 1) == Some(page);
    ReplyOfReplayed(map["Set-Cookie" := [second]], page);
    HitHeaderValues(map["Set-Cookie" := [second]], page.header, "Set-Cookie");
    assert ValuesOf(page.header, "Set-Cookie") == [first];
  }

  // ----- What a session keeps -----

  /** What was last saved under a session identifier, unless the session was deleted since. */
  function LastSaved<T>(config: Config<T>, events: seq<Event<T>>, id: string): (saved: Option<Item<Stored<T>>>)
    ensures saved.Some? ==> saved.value.value.Data?
  {
    if events == [] then None
    else
      var earlier, event := events[..|events| - 1], events[|events| - 1];
      var visits := After(config, earlier).visits;
      if event.SessionSave? && event.r in visits && visits[event.r] == id then
        Some(NewItem(Data(event.data), config.sessionTtl, event.now))
      else if event.SessionDelete? && event.r in visits && visits[event.r] == id then None
      else LastSaved(config, earlier, id)
  }

  lemma {:induction false} SavedIsLastSet<T>(config: Config<T>, events: seq<Event<T>>, id: string)
    requires !(PREFIX <= id)
    ensures LastSet(After(config, events).log, id) == LastSaved(config, events, id)
  {
    if events != [] {
      var n := |events| - 1;
      var earlier, event := events[..n], events[n];
      var state := After(config, earlier);
      SavedIsLastSet(config, earlier, id);
      StaysSeparate(config, earlier);
      var op := LogOfNext(config, state, event);
      if Next(config, state, event).log != state.log {
        assert Next(config, state, event).log == state.Log(op).log;
        LastSetOfLog(state, op, id);
      }
    }
  }

  lemma {:induction false} SavedIsIssued<T>(config: Config<T>, events: seq<Event<T>>, id: string)
    requires LastSaved(config, events, id).Some?
    ensures Issued(events, id)
  {
    var n := |events| - 1;
    var earlier, event := events[..n], events[n];
    StaysSeparate(config, earlier);
    var visits := After(config, earlier).visits;
    if !(event.SessionSave? && event.r in visits && visits[event.r] == id) {
      SavedIsIssued(config, earlier, id);
    }
    IssuedLater(earlier, event, id);
    assert earlier + [event] == events;
  }

  lemma OpenedIsLastSaved<T>(config: Config<T>, events: seq<Event<T>>, cookie: string, random: string, now: int)
    requires UpTo(events, now) && GeneratesIds(events)
    ensures var saved := LastSaved(config, events, cookie);
            Opened(ItemsAfter(config, events), cookie, random, config.zero, now)
            == if saved.Some? && !saved.value.IsExpired(now) then Visit(cookie, saved.value.value.data, false)
               else Visit(random, config.zero, true)
  {
    var state := After(config, events);
    LogIsOrdered(config, events, now);
    if PREFIX <= cookie {
      StaysSeparate(config, events);
      SeenWasSet(events, state, cookie);
      if LastSaved(config, events, cookie).Some? {
        SavedIsIssued(config, events, cookie);
      }
      if Issued(events, cookie) {
        GeneratedIsNoPage(cookie);
      }
    } else {
      SavedIsLastSet(config, events, cookie);
      GetIsLastSet(state.log, cookie, now);
    }
  }

  // ----- Saving and deleting a session -----

  predicate Saves<T>(config: Config<T>, events: seq<Event<T>>, i: nat, id: string)
    requires i < |events|
  {
    var visits := After(config, events[..i]).visits;
    events[i].SessionSave? && events[i].r in visits && visits[events[i].r] == id
  }

  predicate Deletes<T>(config: Config<T>, events: seq<Event<T>>, i: nat, id: string)
    requires i < |events|
  {
    var visits := After(config, events[..i]).visits;
    events[i].SessionDelete? && events[i].r in visits && visits[events[i].r] == id
  }

  /** A time to live that is not positive is none. */
  predicate SavedAndLive<T>(config: Config<T>, events: seq<Event<T>>, i: nat, id: string, now: int)
    requires i < |events|
  {
    && Saves(config, events, i, id)
    && (config.sessionTtl <= 0 || events[i].now + config.sessionTtl == 0 || now <= events[i].now + config.sessionTtl)
  }

  /** The save at `i` is the last under the session identifier, and no deletion came after. */
  ghost predicate SavedLast<T>(config: Config<T>, events: seq<Event<T>>, i: nat, id: string) {
    && i < |events| && Saves(config, events, i, id)
    && forall j :: i < j < |events| ==> !Saves(config, events, j, id) && !Deletes(config, events, j, id)
  }

  lemma {:induction false} LastSavedIsSavedLast<T>(config: Config<T>, events: seq<Event<T>>, id: string)
    returns (i: nat)
    requires LastSaved(config, events, id).Some?
    ensures SavedLast(config, events, i, id)
  {
    var n := |events| - 1;
    if Saves(config, events, n, id) {
      i := n;
    } else {
      i := LastSavedIsSavedLast(config, events[..n], id);
      SavesSoFar(config, events, id, 0);
    }
  }

  lemma {:induction false} SavedLastIsLastSaved<T>(config: Config<T>, events: seq<Event<T>>, i: nat, id: string)
    requires SavedLast(config, events, i, id)
    ensures LastSaved(config, events, id) == Some(NewItem(Data(events[i].data), config.sessionTtl, events[i].now))
  {
    var n := |events| - 1;
    if i < n {
      SavesSoFar(config, events, id, 0);
      assert !Saves(config, events, n, id) && !Deletes(config, events, n, id);
      SavedLastIsLastSaved(config, events[..n], i, id);
    }
  }

  /** A session cookie opens the data last saved under it, by whichever request, exactly as
      long as that is live and the session was not deleted since; any other cookie, with a
      page key in it or not, opens an empty session under a new identifier. */
  lemma SessionIsLastSaved<T>(config: Config<T>, events: seq<Event<T>>, cookie: string, random: string, now: int,
                              data: T)
    requires UpTo(events, now) && GeneratesIds(events)
    ensures var visit := Opened(ItemsAfter(config, events), cookie, random, config.zero, now);
            && (visit == Visit(cookie, data, false) <==>
                  exists i: nat :: SavedLast(config, events, i, cookie) && events[i].data == data
                    && (config.sessionTtl <= 0 || now <= events[i].now + config.sessionTtl))
            && (visit.isNew ==> visit == Visit(random, config.zero, true))
            && (!visit.isNew ==> visit.id == cookie)
  {
    OpenedIsLastSaved(config, events, cookie, random, now);
    if LastSaved(config, events, cookie).Some? {
      var i := LastSavedIsSavedLast(config, events, cookie);
      SavedLastIsLastSaved(config, events, i, cookie);
    }
    if i: nat :| SavedLast(config, events, i, cookie) {
      SavedLastIsLastSaved(config, events, i, cookie);
    }
  }

  lemma SavesSoFar<T>(config: Config<T>, events: seq<Event<T>>, id: string, now: int)
    requires events != []
    ensures var earlier := events[..|events| - 1];
            forall i :: 0 <= i < |earlier| ==>
              && Saves(config, earlier, i, id) == Saves(config, events, i, id)
              && Deletes(config, earlier, i, id) == Deletes(config, events, i, id)
              && SavedAndLive(config, earlier, i, id, now) == SavedAndLive(config, events, i, id, now)
  {
    var earlier := events[..|events| - 1];
    forall i | 0 <= i < |earlier| ensures earlier[..i] == events[..i] && earlier[i] == events[i] {
    }
  }

  predicate HasLive<T>(config: Config<T>, events: seq<Event<T>>, id: string, now: int) {
    var saved := LastSaved(config, events, id);
    saved.Some? && !saved.value.IsExpired(now)
  }

  /** If an earlier save is live then so is a later one. */
  lemma LaterSaveIsLive<T>(config: Config<T>, events: seq<Event<T>>, id: string, i: nat, j: nat, now: int)
    requires Clocked(events) && i <= j < |events|
    requires SavedAndLive(config, events, i, id, now) && Saves(config, events, j, id)
    ensures SavedAndLive(config, events, j, id, now)
  {
    assert 0 < events[i].now <= events[j].now;
  }

  lemma NewestSaveDecides<T>(config: Config<T>, events: seq<Event<T>>, id: string, d: nat, now: int)
    requires Clocked(events) && d + 1 < |events| && Saves(config, events, |events| - 1, id)
    ensures LiveSince(config, events, id, d, now) <==> SavedAndLive(config, events, |events| - 1, id, now)
  {
    forall i | d < i < |events| && SavedAndLive(config, events, i, id, now)
      ensures SavedAndLive(config, events, |events| - 1, id, now)
    {
      LaterSaveIsLive(config, events, id, i, |events| - 1, now);
    }
  }

  /** `d` is the last deletion of the session. */
  ghost predicate LastDeleted<T>(config: Config<T>, events: seq<Event<T>>, id: string, d: nat) {
    && d < |events| && Deletes(config, events, d, id)
    && forall i :: d < i < |events| ==> !Deletes(config, events, i, id)
  }

  ghost predicate LiveSince<T>(config: Config<T>, events: seq<Event<T>>, id: string, d: nat, now: int) {
    exists i :: d < i < |events| && SavedAndLive(config, events, i, id, now)
  }

  lemma LiveSinceSoFar<T>(config: Config<T>, events: seq<Event<T>>, id: string, d: nat, now: int)
    requires LastDeleted(config, events, id, d) && d + 1 < |events| && !Saves(config, events, |events| - 1, id)
    ensures LastDeleted(config, events[..|events| - 1], id, d)
    ensures LiveSince(config, events, id, d, now) <==> LiveSince(config, events[..|events| - 1], id, d, now)
  {
    SavesSoFar(config, events, id, now);
    var earlier := events[..|events| - 1];
    if i :| d < i < |events| && SavedAndLive(config, events, i, id, now) {
      assert SavedAndLive(config, earlier, i, id, now);
    }
    if i :| d < i < |earlier| && SavedAndLive(config, earlier, i, id, now) {
      assert SavedAndLive(config, events, i, id, now);
    }
  }

  lemma HasLiveOfNext<T>(config: Config<T>, events: seq<Event<T>>, id: string, now: int)
    requires events != []
    ensures var n := |events| - 1;
            HasLive(config, events, id, now)
            == if Saves(config, events, n, id) then SavedAndLive(config, events, n, id, now)
               else !Deletes(config, events, n, id) && HasLive(config, events[..n], id, now)
  {
  }

  /** After its last deletion at `d` a session has live saved data exactly if a save after
      `d` is live. */
  lemma {:induction false} HasLiveSince<T>(config: Config<T>, events: seq<Event<T>>, id: string, d: nat, now: int)
    requires Clocked(events) && LastDeleted(config, events, id, d)
    ensures HasLive(config, events, id, now) <==> LiveSince(config, events, id, d, now)
  {
    var n := |events| - 1;
    HasLiveOfNext(config, events, id, now);
    if d < n {
      if Saves(config, events, n, id) {
        NewestSaveDecides(config, events, id, d, now);
      } else {
        LiveSinceSoFar(config, events, id, d, now);
        HasLiveSince(config, events[..n], id, d, now);
      }
    }
  }

  /** A deleted session opens nothing if and only if no save after its last deletion is live. */
  lemma DeletedOpensNothingIff<T>(config: Config<T>, events: seq<Event<T>>, id: string, d: nat, random: string,
                                  now: int)
    requires UpTo(events, now) && GeneratesIds(events) && LastDeleted(config, events, id, d)
    ensures Opened(ItemsAfter(config, events), id, random, config.zero, now).isNew
       <==> !LiveSince(config, events, id, d, now)
  {
    HasLiveSince(config, events, id, d, now);
    OpenedIsLastSaved(config, events, id, random, now);
  }

  /** The middleware saves the session when the handler returns, so a session its handler
      deleted is there again. */
  lemma DeletedIsSavedAgainExample<T>(config: Config<T>, id: string, data: T, random: string)
    requires Generated(id) && config.sessionTtl > 0
    ensures var events := [SessionStart(1, "", id, 1), SessionDelete(1, 1), SessionSave(1, data, 1)];
            Deletes(config, events, 1, id)
            && Opened(ItemsAfter(config, events), id, random, config.zero, 1) == Visit(id, data, false)
  {
    var events := [SessionStart(1, "", id, 1), SessionDelete(1, 1), SessionSave(1, data, 1)];
    var one, two := events[..1], events[..2];
    assert one[..0] == [] && two[..1] == one;
    assert After(config, one).visits == map[1 := id];
    assert After(config, two).visits == map[1 := id];
    assert Clocked(events);
    OpenedIsLastSaved(config, events, id, random, 1);
  }

  // ----- The steps are those of the middlewares -----

  lemma ItemsOfLog<T>(state: State<T>, op: Op<Stored<T>>)
    ensures state.Log(op).Items() == Apply(state.Items(), op)
  {
    var log := state.log + [op];
    assert log[..|log| - 1] == state.log;
  }

  /** A page request whose steps nothing interrupts does to the store what PageCaches.Serve does. */
  lemma ServeIsItsSteps<T>(config: Config<T>, state: State<T>, r: nat, url: string, header: Header,
                           actions: seq<Action>, failed: bool, now: int, later: int)
    requires r !in state.misses
    ensures var started := Next(config, state, PageStart(r, url, header, now));
            Next(config, started, PageEnd(r, actions, failed, later)).Items()
            == PageCaches.Served(state.Items(), config.pageTtl, NewWire(header), DefaultKey(url),
                                 actions, failed, now, later)
  {
    var key := DefaultKey(url);
    ItemsOfLog(state, Get(key, now));
    var started := Next(config, state, PageStart(r, url, header, now));
    ItemsOfLog(started, Set(key, Bytes(Captured(NewWire(header), actions)), config.pageTtl, later));
  }

  /** And a session request does what Sessions.Manager.Start does. */
  lemma StartIsItsSteps<T>(config: Config<T>, state: State<T>, r: nat, cookie: string, random: string,
                           data: T, now: int, later: int)
    ensures var visit := Opened(state.Items(), cookie, random, config.zero, now);
            Next(config, Next(config, state, SessionStart(r, cookie, random, now)), SessionSave(r, data, later)).Items()
            == Purged(state.Items(), cookie, now)[visit.id := NewItem(Data(data), config.sessionTtl, later)]
  {
    var visit := Opened(state.Items(), cookie, random, config.zero, now);
    var looked := state.Log(Get(cookie, now));
    ItemsOfLog(state, Get(cookie, now));
    var started := Next(config, state, SessionStart(r, cookie, random, now));
    assert started.log == looked.log && started.visits[r] == visit.id;
    var saved := Next(config, started, SessionSave(r, data, later));
    var op: Op<Stored<T>> := Set(visit.id, Data(data), config.sessionTtl, later);
    assert saved == started.Log(op);
    ItemsOfLog(started, op);
    assert started.Items() == looked.Items();
  }
}
