/** Contexts shared through a pool by requests in flight at the same time (amaro.go,
    context.go): as good as a new context for every request. */
module ContextPools {
  import opened RouteTable

  type RequestId = nat
  type ContextId = nat

  datatype ContextState = ContextState(request: RequestId, params: seq<Capture>, keys: map<string, nat>)

  /** The contexts that exist, those resting in the pool, and the one each request in
      flight has. */
  datatype System = System(contexts: map<ContextId, ContextState>, pool: set<ContextId>,
                           inFlight: map<RequestId, ContextId>)

  const START := System(map[], {}, map[])

  /** One step of one request, or of the pool, which may drop what rests in it. */
  datatype Step =
    | Begin(r: RequestId, context: ContextId)
    | Look(r: RequestId, verb: string, path: string)
    | Set(r: RequestId, key: string, value: nat)
    | End(r: RequestId)
    | Drop(context: ContextId)

  predicate Enabled(s: System, step: Step) {
    match step
    case Begin(r, c) => r !in s.inFlight && (c in s.pool || c !in s.contexts)
    case Look(r, _, _) => r in s.inFlight
    case Set(r, _, _) => r in s.inFlight
    case End(r) => r in s.inFlight
    case Drop(c) => c in s.pool
  }

  predicate WellFormed(s: System) {
    && s.pool <= s.contexts.Keys
    && (forall r :: r in s.inFlight ==> s.inFlight[r] in s.contexts)
  }

  /** `Get` and `Reset`, the lookup of dispatch, `Set`, and the deferred `Put`. */
  ghost function Next(tables: Tables, s: System, step: Step): System
    requires WellFormed(s) && Enabled(s, step)
  {
    match step
    case Begin(r, c) =>
      System(s.contexts[c := ContextState(r, [], map[])], s.pool - {c}, s.inFlight[r := c])
    case Look(r, verb, path) =>
      var c := s.inFlight[r];
      var params := s.contexts[c].params + CapturesIn(tables, verb, path);
      s.(contexts := s.contexts[c := s.contexts[c].(params := params)])
    case Set(r, key, value) =>
      var c := s.inFlight[r];
      s.(contexts := s.contexts[c := s.contexts[c].(keys := s.contexts[c].keys[key := value])])
    case End(r) =>
      s.(pool := s.pool + {s.inFlight[r]}, inFlight := s.inFlight - {r})
    case Drop(c) =>
      s.(contexts := s.contexts - {c}, pool := s.pool - {c})
  }

  /** Contexts in flight are pairwise distinct and none of them is in the pool. */
  ghost predicate Separate(s: System) {
    && WellFormed(s)
    && (forall r :: r in s.inFlight ==> s.inFlight[r] !in s.pool)
    && (forall r, q :: r in s.inFlight && q in s.inFlight && s.inFlight[r] == s.inFlight[q] ==> r == q)
  }

  lemma NextKeepsSeparate(tables: Tables, s: System, step: Step)
    requires Separate(s) && Enabled(s, step)
    ensures Separate(Next(tables, s, step))
  {
  }

  /** The same run without a pool: every request has a context of its own. */
  type Fresh = map<RequestId, ContextState>

  ghost function FreshNext(tables: Tables, f: Fresh, step: Step): Fresh {
    match step
    case Begin(r, _) => f[r := ContextState(r, [], map[])]
    case Look(r, verb, path) =>
      if r in f then f[r := f[r].(params := f[r].params + CapturesIn(tables, verb, path))] else f
    case Set(r, key, value) => if r in f then f[r := f[r].(keys := f[r].keys[key := value])] else f
    case End(r) => f - {r}
    case Drop(_) => f
  }

  /** What each request in flight sees. */
  function Seen(s: System): Fresh
    requires WellFormed(s)
  {
    map r | r in s.inFlight :: s.contexts[s.inFlight[r]]
  }

  /** Each step shows every request what it would see on a context of its own. */
  lemma NextRefinesFresh(tables: Tables, s: System, step: Step)
    requires Separate(s) && Enabled(s, step)
    ensures Separate(Next(tables, s, step))
    ensures Seen(Next(tables, s, step)) == FreshNext(tables, Seen(s), step)
  {
    NextKeepsSeparate(tables, s, step);
    var s' := Next(tables, s, step);
    var f := FreshNext(tables, Seen(s), step);
    assert Seen(s').Keys == s'.inFlight.Keys;
    assert Seen(s').Keys == f.Keys;
    forall r | r in s'.inFlight ensures Seen(s')[r] == f[r] {
    }
  }

  /** The system after steps that were all possible, None if one was not. */
  datatype Outcome = Possible(system: System) | Impossible

  ghost function Run(tables: Tables, steps: seq<Step>): (outcome: Outcome)
    ensures outcome.Possible? ==> Separate(outcome.system)
  {
    if steps == [] then Possible(START)
    else
      var before := Run(tables, steps[..|steps| - 1]);
      var step := steps[|steps| - 1];
      if before.Possible? && Enabled(before.system, step) then
        NextKeepsSeparate(tables, before.system, step);
        Possible(Next(tables, before.system, step))
      else Impossible
  }

  ghost function FreshRun(tables: Tables, steps: seq<Step>): Fresh {
    if steps == [] then map[]
    else FreshNext(tables, FreshRun(tables, steps[..|steps| - 1]), steps[|steps| - 1])
  }

  /** Any interleaving of requests on pooled contexts is an interleaving on fresh ones. */
  lemma {:induction false} RunRefinesFresh(tables: Tables, steps: seq<Step>)
    requires Run(tables, steps).Possible?
    ensures Seen(Run(tables, steps).system) == FreshRun(tables, steps)
  {
    if steps == [] {
      assert Seen(START) == map[];
    } else {
      var earlier := steps[..|steps| - 1];
      RunRefinesFresh(tables, earlier);
      NextRefinesFresh(tables, Run(tables, earlier).system, steps[|steps| - 1]);
    }
  }

  // ----- What one request sees -----

  predicate IsOf(step: Step, r: RequestId) {
    !step.Drop? && step.r == r
  }

  /** The captures of a request's own lookups, since it began. */
  ghost function OwnParams(tables: Tables, steps: seq<Step>, r: RequestId): seq<Capture> {
    if steps == [] then []
    else
      var step, earlier := steps[|steps| - 1], OwnParams(tables, steps[..|steps| - 1], r);
      if !IsOf(step, r) then earlier
      else if step.Begin? then []
      else if step.Look? then earlier + CapturesIn(tables, step.verb, step.path)
      else earlier
  }

  /** The keys a request itself has set since it began. */
  function OwnKeys(steps: seq<Step>, r: RequestId): map<string, nat> {
    if steps == [] then map[]
    else
      var step, earlier := steps[|steps| - 1], OwnKeys(steps[..|steps| - 1], r);
      if !IsOf(step, r) then earlier
      else if step.Begin? then map[]
      else if step.Set? then earlier[step.key := step.value]
      else earlier
  }

  lemma {:induction false} FreshRunIsOwn(tables: Tables, steps: seq<Step>, r: RequestId)
    requires r in FreshRun(tables, steps)
    ensures FreshRun(tables, steps)[r] == ContextState(r, OwnParams(tables, steps, r), OwnKeys(steps, r))
  {
    if !(IsOf(steps[|steps| - 1], r) && steps[|steps| - 1].Begin?) {
      FreshRunIsOwn(tables, steps[..|steps| - 1], r);
    }
  }

  /** Through any interleaving a request in flight has the captures of its own lookups and
      the keys it has set itself, and none of an earlier or a concurrent request. */
  lemma RequestsAreIsolated(tables: Tables, steps: seq<Step>, r: RequestId)
    requires Run(tables, steps).Possible? && r in Run(tables, steps).system.inFlight
    ensures Seen(Run(tables, steps).system)[r]
         == ContextState(r, OwnParams(tables, steps, r), OwnKeys(steps, r))
  {
    RunRefinesFresh(tables, steps);
    FreshRunIsOwn(tables, steps, r);
  }

  /** The one lookup of `r` since it last began is at `l`. */
  predicate LooksOnce(steps: seq<Step>, r: RequestId, b: nat, l: nat) {
    && b < l < |steps| && IsOf(steps[b], r) && steps[b].Begin? && IsOf(steps[l], r) && steps[l].Look?
    && forall j :: b < j < |steps| && j != l && IsOf(steps[j], r) ==> !steps[j].Begin? && !steps[j].Look?
  }

  lemma {:induction false} NothingLooked(tables: Tables, steps: seq<Step>, r: RequestId, b: nat)
    requires b < |steps| && IsOf(steps[b], r) && steps[b].Begin?
    requires forall j :: b < j < |steps| && IsOf(steps[j], r) ==> !steps[j].Begin? && !steps[j].Look?
    ensures OwnParams(tables, steps, r) == []
  {
    if b < |steps| - 1 {
      NothingLooked(tables, steps[..|steps| - 1], r, b);
    }
  }

  lemma {:induction false} OneLookup(tables: Tables, steps: seq<Step>, r: RequestId, b: nat, l: nat)
    requires LooksOnce(steps, r, b, l)
    ensures OwnParams(tables, steps, r) == CapturesIn(tables, steps[l].verb, steps[l].path)
  {
    var earlier := steps[..|steps| - 1];
    if l < |steps| - 1 {
      OneLookup(tables, earlier, r, b, l);
    } else {
      NothingLooked(tables, earlier, r, b);
    }
  }

  /** So the handler, which runs after the one lookup of its request, sees exactly the
      captures of its own `Find`, whatever the pool and other requests have done. */
  lemma HandlerSeesOwnFind(tables: Tables, steps: seq<Step>, r: RequestId, b: nat, l: nat)
    requires Run(tables, steps).Possible? && r in Run(tables, steps).system.inFlight
    requires LooksOnce(steps, r, b, l)
    ensures Seen(Run(tables, steps).system)[r]
         == ContextState(r, CapturesIn(tables, steps[l].verb, steps[l].path), OwnKeys(steps, r))
  {
    RequestsAreIsolated(tables, steps, r);
    OneLookup(tables, steps, r, b, l);
  }
}
