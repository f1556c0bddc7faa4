/** A cleanup pass over a map, as the cache (addons/cache/cache.go) and the rate limiter
    (middlewares/limiter.go) make it: each key is visited once, in some order, with a reading
    of the clock for each, and what is stale by that reading is dropped. */
module Sweeps {
  import opened Strings

  function Dropped<E, C>(entries: map<string, E>, key: string, reading: C, stale: (E, C) -> bool): map<string, E> {
    if key in entries && stale(entries[key], reading) then entries - {key} else entries
  }

  function Visited<E, C>(entries: map<string, E>, keys: seq<string>, clock: seq<C>, stale: (E, C) -> bool)
    : map<string, E>
    requires |keys| == |clock|
  {
    if keys == [] then entries
    else
      var n := |keys| - 1;
      Dropped(Visited(entries, keys[..n], clock[..n], stale), keys[n], clock[n], stale)
  }

  /** A pass drops exactly what is stale by its reading, and changes nothing else. */
  lemma {:induction false} VisitedDropsStale<E, C>(entries: map<string, E>, keys: seq<string>, clock: seq<C>,
                                                   stale: (E, C) -> bool, key: string)
    requires |keys| == |clock| && forall i, j :: 0 <= i < j < |keys| ==> keys[i] != keys[j]
    ensures key in Visited(entries, keys, clock, stale) <==>
              key in entries && forall i :: 0 <= i < |keys| && keys[i] == key ==> !stale(entries[key], clock[i])
    ensures key in Visited(entries, keys, clock, stale) ==> Visited(entries, keys, clock, stale)[key] == entries[key]
  {
    if keys != [] {
      var n := |keys| - 1;
      VisitedDropsStale(entries, keys[..n], clock[..n], stale, key);
      assert forall i :: 0 <= i < n ==> keys[..n][i] == keys[i] && clock[..n][i] == clock[i];
    }
  }

  /** A pass that has yet to visit `rest`. */
  ghost predicate PartlyVisited<E, C>(before: map<string, E>, now: map<string, E>, order: seq<string>, clock: seq<C>,
                                      stale: (E, C) -> bool, rest: set<string>)
  {
    && |order| + |rest| == |clock| == |before| && rest <= before.Keys && Orders(order, before.Keys - rest)
    && now == Visited(before, order, clock[..|order|], stale)
  }

  lemma VisitOneMore<E, C>(before: map<string, E>, now: map<string, E>, order: seq<string>, clock: seq<C>,
                           stale: (E, C) -> bool, rest: set<string>, key: string)
    requires PartlyVisited(before, now, order, clock, stale, rest) && key in rest
    ensures key in now && now[key] == before[key] && |order| < |clock|
    ensures PartlyVisited(before, Dropped(now, key, clock[|order|], stale), order + [key], clock, stale, rest - {key})
  {
    VisitedDropsStale(before, order, clock[..|order|], stale, key);
    assert (order + [key])[..|order|] == order && clock[..|order| + 1][..|order|] == clock[..|order|];
  }

  lemma AllVisited<E, C>(before: map<string, E>, now: map<string, E>, order: seq<string>, clock: seq<C>,
                         stale: (E, C) -> bool)
    requires PartlyVisited(before, now, order, clock, stale, {})
    ensures |order| == |clock| && Orders(order, before.Keys) && now == Visited(before, order, clock, stale)
  {
    assert clock[..|clock|] == clock;
  }
}
