/** The in-memory cache (addons/cache/cache.go), with the clock reading as an input. */
module MemoryCaches {
  import opened Strings
  import opened Sweeps

  /** A stored value; expiration 0 stands for never. */
  datatype Item<V> = Item(value: V, expiration: int) {
    predicate IsExpired(now: int) {
      expiration != 0 && now > expiration
    }
  }

  type Items<V> = map<string, Item<V>>

  function NewItem<V>(value: V, ttl: int, now: int): Item<V> {
    Item(value, if ttl > 0 then now + ttl else 0)
  }

  function Seen<V>(items: Items<V>, key: string, now: int): Option<V> {
    if key in items && !items[key].IsExpired(now) then Some(items[key].value) else None
  }

  predicate Expired<V>(item: Item<V>, now: int) {
    item.IsExpired(now)
  }

  /** Without an expired item under `key`. */
  function Purged<V>(items: Items<V>, key: string, now: int): Items<V> {
    Dropped(items, key, now, Expired)
  }

  class MemoryCache<V> {
    var items: Items<V>

    constructor ()
      ensures items == map[]
    {
      items := map[];
    }

    method Get(key: string, now: int) returns (value: Option<V>)
      modifies this
      ensures value == Seen(old(items), key, now)
      ensures items == Purged(old(items), key, now)
    {
      if key !in items {
        return None;
      }
      var item := items[key];
      if item.IsExpired(now) {
        items := items - {key};
        return None;
      }
      return Some(item.value);
    }

    method Set(key: string, value: V, ttl: int, now: int)
      modifies this
      ensures items == old(items)[key := NewItem(value, ttl, now)]
    {
      var expiration := 0;
      if ttl > 0 {
        expiration := now + ttl;
      }
      items := items[key := Item(value, expiration)];
    }

    method Delete(key: string)
      modifies this
      ensures items == old(items) - {key}
    {
      items := items - {key};
    }

    method Flush()
      modifies this
      ensures items == map[]
    {
      items := map[];
    }

    /** One pass of the cleanup loop. */
    method Cleanup(clock: seq<int>) returns (ghost order: seq<string>)
      requires |clock| == |items|
      modifies this
      ensures Orders(order, old(items).Keys) && |order| == |clock|
      ensures items == Visited(old(items), order, clock, Expired)
    {
      var keys, i := items.Keys, 0;
      order := [];
      while keys != {}
        invariant i == |order| && PartlyVisited(old(items), items, order, clock, Expired, keys)
        decreases keys
      {
        var key :| key in keys;
        VisitOneMore(old(items), items, order, clock, Expired, keys, key);
        if items[key].IsExpired(clock[i]) {
          items := items - {key};
        }
        keys, order, i := keys - {key}, order + [key], i + 1;
      }
      AllVisited(old(items), items, order, clock, Expired);
    }
  }

  // ----- Runs: one operation at a time -----

  /** A cleanup pass is a Sweep of every key. */
  datatype Op<V> =
    | Get(key: string, now: int)
    | Set(key: string, value: V, ttl: int, now: int)
    | Delete(key: string, now: int)
    | Flush(now: int)
    | Sweep(key: string, now: int)

  function Apply<V>(items: Items<V>, op: Op<V>): Items<V> {
    match op
    case Get(key, now) => Purged(items, key, now)
    case Set(key, value, ttl, now) => items[key := NewItem(value, ttl, now)]
    case Delete(key, _) => items - {key}
    case Flush(_) => map[]
    case Sweep(key, now) => Purged(items, key, now)
  }

  function Run<V>(ops: seq<Op<V>>): Items<V> {
    if ops == [] then map[] else Apply(Run(ops[..|ops| - 1]), ops[|ops| - 1])
  }

  /** The clock does not run backwards. */
  ghost predicate Ordered<V>(ops: seq<Op<V>>) {
    forall i, j :: 0 <= i <= j < |ops| ==> ops[i].now <= ops[j].now
  }

  ghost predicate NotAfter<V>(ops: seq<Op<V>>, now: int) {
    Ordered(ops) && (ops != [] ==> ops[|ops| - 1].now <= now)
  }

  /** What the last Set under `key` stored, if no Delete or Flush took it away since. Reads,
      lazy deletion and cleanup play no part in it. */
  function LastSet<V>(ops: seq<Op<V>>, key: string): Option<Item<V>> {
    if ops == [] then None
    else
      match ops[|ops| - 1]
      case Set(k, value, ttl, now) =>
        if k == key then Some(NewItem(value, ttl, now)) else LastSet(ops[..|ops| - 1], key)
      case Delete(k, _) => if k == key then None else LastSet(ops[..|ops| - 1], key)
      case Flush(_) => None
      case _ => LastSet(ops[..|ops| - 1], key)
  }

  /** Since the last Set under `key` some Get or Sweep of it found it expired. */
  predicate Swept<V>(ops: seq<Op<V>>, key: string) {
    if ops == [] then false
    else
      var earlier, op := ops[..|ops| - 1], ops[|ops| - 1];
      if op.Flush? || ((op.Set? || op.Delete?) && op.key == key) then false
      else
        || Swept(earlier, key)
        || ((op.Get? || op.Sweep?) && op.key == key
            && LastSet(earlier, key).Some? && LastSet(earlier, key).value.IsExpired(op.now))
  }

  /** Whatever the clock does, the store has what was last set unless it was swept. */
  lemma {:induction false} RunIsLastSet<V>(ops: seq<Op<V>>, key: string)
    ensures key in Run(ops) <==> LastSet(ops, key).Some? && !Swept(ops, key)
    ensures key in Run(ops) ==> LastSet(ops, key) == Some(Run(ops)[key])
  {
    if ops != [] {
      RunIsLastSet(ops[..|ops| - 1], key);
    }
  }

  /** What a Get owes: the value last set, until it expires. */
  function Current<V>(ops: seq<Op<V>>, key: string, now: int): Option<V> {
    match LastSet(ops, key)
    case None => None
    case Some(item) => if item.IsExpired(now) then None else Some(item.value)
  }

  /** A Get answers with it if and only if the item, not expired by this reading of the
      clock, was not swept by an earlier one. */
  lemma {:induction false} GetIsCurrentIff<V>(ops: seq<Op<V>>, key: string, now: int)
    ensures Seen(Run(ops), key, now) == Current(ops, key, now) <==>
              !(Swept(ops, key) && LastSet(ops, key).Some? && !LastSet(ops, key).value.IsExpired(now))
  {
    RunIsLastSet(ops, key);
  }

  /** With a clock that does not run backwards what was swept stays expired. */
  lemma {:induction false} SweptIsExpired<V>(ops: seq<Op<V>>, key: string)
    requires Ordered(ops) && Swept(ops, key)
    ensures LastSet(ops, key).Some? && LastSet(ops, key).value.IsExpired(ops[|ops| - 1].now)
  {
    var earlier := ops[..|ops| - 1];
    if Swept(earlier, key) {
      SweptIsExpired(earlier, key);
      assert earlier[|earlier| - 1].now <= ops[|ops| - 1].now;
    }
  }

  /** So then a Get answers with the value last set, exactly as long as it has not expired:
      removing expired items, on reading or by cleanup, never shows. */
  lemma {:induction false} GetIsLastSet<V>(ops: seq<Op<V>>, key: string, now: int)
    requires NotAfter(ops, now)
    ensures Seen(Run(ops), key, now) == Current(ops, key, now)
  {
    GetIsCurrentIff(ops, key, now);
    if Swept(ops, key) {
      SweptIsExpired(ops, key);
    }
  }

  // ----- In numbers -----

  /** Operation `i` sets the key, and none after it sets or deletes the key or flushes. */
  ghost predicate Stands<V>(ops: seq<Op<V>>, key: string, i: nat) {
    && i < |ops| && ops[i].Set? && ops[i].key == key
    && forall j :: i < j < |ops| ==> !ops[j].Flush? && !((ops[j].Set? || ops[j].Delete?) && ops[j].key == key)
  }

  lemma {:induction false} LastSetStands<V>(ops: seq<Op<V>>, key: string) returns (i: nat)
    requires LastSet(ops, key).Some?
    ensures Stands(ops, key, i)
  {
    var n := |ops| - 1;
    if ops[n].Set? && ops[n].key == key {
      i := n;
    } else {
      i := LastSetStands(ops[..n], key);
    }
  }

  lemma {:induction false} StandingIsLastSet<V>(ops: seq<Op<V>>, key: string, i: nat)
    requires Stands(ops, key, i)
    ensures LastSet(ops, key) == Some(NewItem(ops[i].value, ops[i].ttl, ops[i].now))
    ensures !Swept(ops, key) <==>
              forall j :: i < j < |ops| && (ops[j].Get? || ops[j].Sweep?) && ops[j].key == key ==>
                ops[i].ttl <= 0 || ops[i].now + ops[i].ttl == 0 || ops[j].now <= ops[i].now + ops[i].ttl
  {
    var n := |ops| - 1;
    if i < n {
      StandingIsLastSet(ops[..n], key, i);
    }
  }

  /** A Get answers `v` if and only if `v` was set, nothing set, deleted or flushed it since,
      and neither this reading of the clock nor that of any Get or Sweep of the key since is
      past its time to live, if it has one. */
  lemma GetAnswersIff<V>(ops: seq<Op<V>>, key: string, now: int, v: V)
    ensures Seen(Run(ops), key, now) == Some(v) <==>
              exists i: nat :: Stands(ops, key, i) && ops[i].value == v
                && (ops[i].ttl <= 0 || ops[i].now + ops[i].ttl == 0 || now <= ops[i].now + ops[i].ttl)
                && forall j :: i < j < |ops| && (ops[j].Get? || ops[j].Sweep?) && ops[j].key == key ==>
                     ops[i].ttl <= 0 || ops[i].now + ops[i].ttl == 0 || ops[j].now <= ops[i].now + ops[i].ttl
  {
    RunIsLastSet(ops, key);
    if key in Run(ops) {
      var i := LastSetStands(ops, key);
      StandingIsLastSet(ops, key, i);
    }
    if i: nat :| Stands(ops, key, i) {
      StandingIsLastSet(ops, key, i);
    }
  }

  /** With a clock that does not run backwards only this reading counts. */
  lemma GetAnswersInOrder<V>(ops: seq<Op<V>>, key: string, now: int, v: V)
    requires NotAfter(ops, now)
    ensures Seen(Run(ops), key, now) == Some(v) <==>
              exists i: nat :: Stands(ops, key, i) && ops[i].value == v
                && (ops[i].ttl <= 0 || ops[i].now + ops[i].ttl == 0 || now <= ops[i].now + ops[i].ttl)
  {
    GetAnswersIff(ops, key, now, v);
    assert forall j :: 0 <= j < |ops| ==> ops[j].now <= now;
  }

  /** A cleanup pass drops exactly what expires, and is not kept for ever, before the reading
      of the clock at its visit. */
  lemma CleanupDropsExpired<V>(items: Items<V>, order: seq<string>, clock: seq<int>, i: nat)
    requires Orders(order, items.Keys) && |order| == |clock| && i < |order|
    ensures var item := items[order[i]];
            order[i] in Visited(items, order, clock, Expired) <==> item.expiration == 0 || clock[i] <= item.expiration
    ensures order[i] in Visited(items, order, clock, Expired) ==>
              Visited(items, order, clock, Expired)[order[i]] == items[order[i]]
  {
    VisitedDropsStale(items, order, clock, Expired, order[i]);
  }

  /** With a clock that runs backwards it can show: a Get that finds the item expired hides
      it from a Get whose clock reads earlier. */
  lemma ClockMattersExample<V>(value: V)
    ensures var ops := [Set("k", value, 10, 100), Get("k", 111)];
            Swept(ops, "k") && Seen(Run(ops), "k", 110) == None && Current(ops, "k", 110) == Some(value)
  {
    var ops := [Set("k", value, 10, 100), Get("k", 111)];
    var first := ops[..1];
    assert first == [Set("k", value, 10, 100)] && first[..0] == [];
    assert Run(first) == map["k" := Item(value, 110)];
    assert LastSet(first, "k") == Some(Item(value, 110)) && LastSet(ops, "k") == LastSet(first, "k");
    RunIsLastSet(ops, "k");
  }
}

/** The same cache under interleaving: a Get, or the visit of one key by a cleanup pass, loads
    the item, checks its expiration and deletes the key in separate steps, so that steps of
    others may come in between. */
module CacheRaces {
  import opened Strings
  import opened MemoryCaches

  /** What a Get or a cleanup visit holds between its steps; `since` counts the steps that
      came before its load, and `doomed` says that it found the item expired. */
  datatype Held<V> = Held(key: string, item: Item<V>, since: nat, doomed: bool)

  datatype State<V> = State(items: Items<V>, held: map<nat, Held<V>>)

  datatype Step<V> =
    | Load(id: nat, key: string, now: int)
    | Check(id: nat, now: int)
    | Remove(id: nat, now: int)
    | Store(key: string, value: V, ttl: int, now: int)
    | Delete(key: string, now: int)
    | Flush(now: int)

  /** The n-th step; a step that its process cannot take changes nothing. */
  function Next<V>(state: State<V>, step: Step<V>, n: nat): State<V> {
    match step
    case Load(id, key, _) =>
      if id in state.held || key !in state.items then state
      else state.(held := state.held[id := Held(key, state.items[key], n, false)])
    case Check(id, now) =>
      if id !in state.held || state.held[id].doomed then state
      else if state.held[id].item.IsExpired(now) then
        state.(held := state.held[id := state.held[id].(doomed := true)])
      else state.(held := state.held - {id})
    case Remove(id, _) =>
      if id !in state.held || !state.held[id].doomed then state
      else State(state.items - {state.held[id].key}, state.held - {id})
    case Store(key, value, ttl, now) => state.(items := state.items[key := NewItem(value, ttl, now)])
    case Delete(key, _) => state.(items := state.items - {key})
    case Flush(_) => state.(items := map[])
  }

  function After<V>(steps: seq<Step<V>>): State<V> {
    if steps == [] then State(map[], map[])
    else Next(After(steps[..|steps| - 1]), steps[|steps| - 1], |steps| - 1)
  }

  /** The step that last stored under `key`, if no Delete or Flush came after it. */
  function LastStore<V>(steps: seq<Step<V>>, key: string): (i: Option<nat>)
    ensures i.Some? ==> i.value < |steps| && steps[i.value].Store? && steps[i.value].key == key
  {
    if steps == [] then None
    else
      var last := steps[|steps| - 1];
      if last.Flush? || (last.Delete? && last.key == key) then None
      else if last.Store? && last.key == key then Some(|steps| - 1)
      else LastStore(steps[..|steps| - 1], key)
  }

  /** It is the store that no later store or deletion of the key and no later flush follows. */
  lemma {:induction false} LastStoreIff<V>(steps: seq<Step<V>>, key: string, i: nat)
    ensures LastStore(steps, key) == Some(i) <==>
              && i < |steps| && steps[i].Store? && steps[i].key == key
              && forall j :: i < j < |steps| ==>
                   !steps[j].Flush? && !((steps[j].Store? || steps[j].Delete?) && steps[j].key == key)
  {
    if steps != [] {
      LastStoreIff(steps[..|steps| - 1], key, i);
    }
  }

  function StoredAt<V>(steps: seq<Step<V>>, i: nat): Item<V>
    requires i < |steps| && steps[i].Store?
  {
    NewItem(steps[i].value, steps[i].ttl, steps[i].now)
  }

  /** No check has read the clock later than `now`. */
  ghost predicate ChecksUpTo<V>(steps: seq<Step<V>>, now: int) {
    forall i :: 0 <= i < |steps| && steps[i].Check? ==> steps[i].now <= now
  }

  lemma {:induction false} ItemIsLastStore<V>(steps: seq<Step<V>>, key: string)
    requires key in After(steps).items
    ensures LastStore(steps, key).Some?
    ensures After(steps).items[key] == StoredAt(steps, LastStore(steps, key).value)
  {
    var n := |steps| - 1;
    var earlier := steps[..n];
    if !(steps[n].Store? && steps[n].key == key) {
      ItemIsLastStore(earlier, key);
    }
  }

  /** What was loaded is what had last been stored before the load. */
  lemma {:induction false} HeldIsLastStore<V>(steps: seq<Step<V>>, id: nat)
    requires id in After(steps).held
    ensures var held := After(steps).held[id];
            && held.since < |steps|
            && LastStore(steps[..held.since], held.key).Some?
            && held.item == StoredAt(steps, LastStore(steps[..held.since], held.key).value)
  {
    var n := |steps| - 1;
    var earlier := steps[..n];
    var step := steps[n];
    if step.Load? && step.id == id && id !in After(earlier).held {
      ItemIsLastStore(earlier, step.key);
    } else {
      HeldIsLastStore(earlier, id);
      var held := After(earlier).held[id];
      assert earlier[..held.since] == steps[..held.since];
    }
  }

  /** A hit: the check of an undoomed load that finds the item unexpired. */
  predicate Hits<V>(steps: seq<Step<V>>, id: nat, now: int) {
    var held := After(steps).held;
    id in held && !held[id].doomed && !held[id].item.IsExpired(now)
  }

  /** Whatever the interleaving, a hit gives the value last stored under the key before the
      load, not deleted or flushed before the load, and unexpired when it is checked. */
  lemma HitIsLastStore<V>(steps: seq<Step<V>>, id: nat, now: int)
    requires Hits(steps, id, now)
    ensures var held := After(steps).held[id];
            && held.since < |steps|
            && LastStore(steps[..held.since], held.key).Some?
            && var stored := steps[LastStore(steps[..held.since], held.key).value];
            && stored.value == held.item.value
            && (stored.ttl <= 0 || now <= stored.now + stored.ttl || stored.now + stored.ttl == 0)
  {
    HeldIsLastStore(steps, id);
  }

  /** Step `r` removes `key` for a process that found what it had loaded expired. */
  predicate Removal<V>(steps: seq<Step<V>>, key: string, r: nat)
    requires r < |steps|
  {
    var held := After(steps[..r]).held;
    && steps[r].Remove? && steps[r].id in held && held[steps[r].id].doomed && held[steps[r].id].key == key
  }

  /** And that process had loaded it before step `i`. */
  predicate StaleRemoval<V>(steps: seq<Step<V>>, key: string, i: nat, r: nat)
    requires i < r < |steps|
  {
    Removal(steps, key, r) && After(steps[..r]).held[steps[r].id].since <= i
  }

  lemma {:induction false} MissMeansRemoval<V>(steps: seq<Step<V>>, key: string) returns (r: nat)
    requires LastStore(steps, key).Some? && key !in After(steps).items
    ensures LastStore(steps, key).value < r < |steps| && Removal(steps, key, r)
  {
    var earlier := steps[..|steps| - 1];
    if key in After(earlier).items {
      r := |steps| - 1;
    } else {
      r := MissMeansRemoval(earlier, key);
      assert earlier[..r] == steps[..r];
    }
  }

  lemma {:induction false} RemovalMeansMiss<V>(steps: seq<Step<V>>, key: string, r: nat)
    requires LastStore(steps, key).Some? && LastStore(steps, key).value < r < |steps| && Removal(steps, key, r)
    ensures key !in After(steps).items
  {
    var n := |steps| - 1;
    var earlier := steps[..n];
    if r < n {
      assert earlier[..r] == steps[..r];
      RemovalMeansMiss(earlier, key, r);
    }
  }

  /** Whatever the clocks read: a value stored and not deleted is missing if and only if the
      key was removed since for a reader or the cleanup. */
  lemma MissIffRemoved<V>(steps: seq<Step<V>>, key: string)
    requires LastStore(steps, key).Some?
    ensures key !in After(steps).items <==>
              exists r :: LastStore(steps, key).value < r < |steps| && Removal(steps, key, r)
  {
    if key !in After(steps).items {
      var r := MissMeansRemoval(steps, key);
    }
    if r :| LastStore(steps, key).value < r < |steps| && Removal(steps, key, r) {
      RemovalMeansMiss(steps, key, r);
    }
  }

  lemma {:induction false} DoomedIsExpired<V>(steps: seq<Step<V>>, id: nat, now: int)
    requires ChecksUpTo(steps, now) && id in After(steps).held && After(steps).held[id].doomed
    ensures After(steps).held[id].item.IsExpired(now)
  {
    var earlier := steps[..|steps| - 1];
    if id in After(earlier).held && After(earlier).held[id].doomed {
      DoomedIsExpired(earlier, id, now);
    }
  }

  /** A removal of a key whose last value is not expired by any check so far is stale. */
  lemma RemovalIsStale<V>(steps: seq<Step<V>>, key: string, r: nat, now: int)
    requires ChecksUpTo(steps, now) && LastStore(steps, key).Some?
    requires var stored := steps[LastStore(steps, key).value];
             stored.ttl <= 0 || stored.now + stored.ttl == 0 || now <= stored.now + stored.ttl
    requires LastStore(steps, key).value < r < |steps| && Removal(steps, key, r)
    ensures StaleRemoval(steps, key, LastStore(steps, key).value, r)
  {
    var i := LastStore(steps, key).value;
    var earlier := steps[..r];
    var held := After(earlier).held[steps[r].id];
    HeldIsLastStore(earlier, steps[r].id);
    DoomedIsExpired(earlier, steps[r].id, now);
    assert earlier[..held.since] == steps[..held.since];
    if held.since > i {
      NothingSince(steps, key, held.since);
    }
  }

  /** A value stored, not deleted and not expired by any reading so far is missing if and
      only if a reader or the cleanup, holding an older value, removed the key after the
      value was stored. A store may have read the clock long before it takes place. */
  lemma MissIffRace<V>(steps: seq<Step<V>>, key: string, now: int)
    requires ChecksUpTo(steps, now) && LastStore(steps, key).Some?
    requires var stored := steps[LastStore(steps, key).value];
             stored.ttl <= 0 || stored.now + stored.ttl == 0 || now <= stored.now + stored.ttl
    ensures key !in After(steps).items <==>
              exists r :: LastStore(steps, key).value < r < |steps|
                          && StaleRemoval(steps, key, LastStore(steps, key).value, r)
  {
    MissIffRemoved(steps, key);
    if r :| LastStore(steps, key).value < r < |steps| && Removal(steps, key, r) {
      RemovalIsStale(steps, key, r, now);
    }
  }

  /** If the last store came before step `k`, it was the last store at step `k` too. */
  lemma {:induction false} NothingSince<V>(steps: seq<Step<V>>, key: string, k: nat)
    requires LastStore(steps, key).Some? && LastStore(steps, key).value < k <= |steps|
    ensures LastStore(steps[..k], key) == LastStore(steps, key)
  {
    if k < |steps| {
      NothingSince(steps[..|steps| - 1], key, k);
      assert steps[..|steps| - 1][..k] == steps[..k];
    } else {
      assert steps[..k] == steps;
    }
  }

  lemma AfterMore<V>(steps: seq<Step<V>>, step: Step<V>)
    ensures After(steps + [step]) == Next(After(steps), step, |steps|)
  {
    var longer := steps + [step];
    assert longer[..|longer| - 1] == steps;
  }

  /** The steps of a slow reader around a store. */
  function SlowReader<V>(older: V, newer: V): seq<Step<V>> {
    [Store("k", older, 10, 100)] + [Load(1, "k", 111)] + [Check(1, 111)]
    + [Store("k", newer, 0, 112)] + [Remove(1, 113)]
  }

  lemma DoomedExample<V>(older: V)
    ensures var steps := [Store("k", older, 10, 100)] + [Load(1, "k", 111)] + [Check(1, 111)];
            After(steps) == State(map["k" := Item(older, 110)], map[1 := Held("k", Item(older, 110), 1, true)])
  {
    var first := [Store("k", older, 10, 100)];
    AfterMore([], first[0]);
    assert [] + first == first;
    var item := Item(older, 110);
    assert After(first).items == map["k" := item] && After(first).held == map[];
    AfterMore(first, Load(1, "k", 111));
    assert After(first + [Load(1, "k", 111)]).held == map[1 := Held("k", item, 1, false)];
    AfterMore(first + [Load(1, "k", 111)], Check(1, 111));
  }

  /** It does happen: a value stored for ever is gone right after a slow reader. */
  lemma FreshValueIsLostExample<V>(older: V, newer: V)
    ensures var steps := SlowReader(older, newer);
            LastStore(steps, "k") == Some(3) && "k" !in After(steps).items
  {
    var doomed := [Store("k", older, 10, 100)] + [Load(1, "k", 111)] + [Check(1, 111)];
    DoomedExample(older);
    AfterMore(doomed, Store("k", newer, 0, 112));
    AfterMore(doomed + [Store("k", newer, 0, 112)], Remove(1, 113));
    LastStoreIff(SlowReader(older, newer), "k", 3);
  }
}
