/** Lists of registrations: when they are all accepted, what they leave in the tables,
    and what does not matter about them (their order, which trie they went through). */
module Registrations {
  import opened Strings
  import opened Handlers
  import opened Patterns
  import opened RouteTable
  import opened TrieShape
  import opened Listings

  datatype Registration = Registration(verb: string, path: string, handler: Handler, middlewares: seq<Middleware>)

  function PositionOf(config: RouterConfig, r: Registration): Position {
    Position(r.verb, Tokens(config, r.path))
  }

  function RouteOf(globals: seq<Middleware>, r: Registration): Route {
    var all := globals + r.middlewares;
    Route(r.verb, Normalize(r.path), Compiled(r.handler, all), all)
  }

  ghost function RegisterOne(tables: Tables, config: RouterConfig, globals: seq<Middleware>, r: Registration)
    : (result: Option<Tables>)
    ensures var at := PositionOf(config, r);
            result == if Conflicts(TableOf(tables, at.verb), at.pattern) then None
                      else Some(Filed(tables, at, RouteOf(globals, r)))
  {
    Register(tables, config, globals, r.verb, r.path, r.handler, r.middlewares)
  }

  /** Registering one after the other, giving up at the first failure. */
  datatype Outcome = Outcome(tables: Tables, ok: bool)

  ghost function Attempt(tables: Tables, config: RouterConfig, globals: seq<Middleware>, rs: seq<Registration>)
    : Outcome
    decreases |rs|
  {
    if rs == [] then Outcome(tables, true)
    else
      match RegisterOne(tables, config, globals, rs[0])
      case None => Outcome(tables, false)
      case Some(tables') => Attempt(tables', config, globals, rs[1..])
  }

  lemma {:induction false} AttemptConcat(tables: Tables, config: RouterConfig, globals: seq<Middleware>,
                                         a: seq<Registration>, b: seq<Registration>)
    ensures var first := Attempt(tables, config, globals, a);
            Attempt(tables, config, globals, a + b)
            == if first.ok then Attempt(first.tables, config, globals, b) else first
    decreases |a|
  {
    if a == [] {
      assert a + b == b;
    } else {
      assert (a + b)[1..] == a[1..] + b;
      match RegisterOne(tables, config, globals, a[0])
      case None =>
      case Some(tables') => AttemptConcat(tables', config, globals, a[1..], b);
    }
  }

  // ----- Order -----

  /** A position tells which registration it comes from. */
  ghost predicate PositionsTell(config: RouterConfig, rs: seq<Registration>) {
    forall r, s :: r in rs && s in rs && PositionOf(config, r) == PositionOf(config, s) ==> r == s
  }

  /** No two of them name the same parameter or wildcard differently. */
  ghost predicate NamesAgree(config: RouterConfig, rs: seq<Registration>) {
    forall r, s :: r in rs && s in rs && r.verb == s.verb ==>
      Compatible(PositionOf(config, r).pattern, PositionOf(config, s).pattern)
  }

  /** The tables hold exactly these registrations. */
  ghost predicate Holds(tables: Tables, config: RouterConfig, globals: seq<Middleware>, rs: seq<Registration>) {
    && (forall verb :: verb in tables ==> tables[verb] != map[])
    && (forall r :: r in rs ==>
          Registered(tables, PositionOf(config, r)) && EntryAt(tables, PositionOf(config, r)) == RouteOf(globals, r))
    && (forall at :: Registered(tables, at) ==> exists r :: r in rs && PositionOf(config, r) == at)
  }

  lemma HoldsIsUnique(a: Tables, b: Tables, config: RouterConfig, globals: seq<Middleware>, rs: seq<Registration>)
    requires Holds(a, config, globals, rs) && Holds(b, config, globals, rs)
    ensures a == b
  {
    HoldsWithin(a, b, config, globals, rs);
    HoldsWithin(b, a, config, globals, rs);
    forall verb | verb in a ensures a[verb] == b[verb] {
      forall k | k in a[verb] ensures k in b[verb] && a[verb][k] == b[verb][k] {
        assert Registered(a, Position(verb, k));
      }
      forall k | k in b[verb] ensures k in a[verb] {
        assert Registered(b, Position(verb, k));
      }
    }
  }

  lemma HoldsWithin(a: Tables, b: Tables, config: RouterConfig, globals: seq<Middleware>, rs: seq<Registration>)
    requires Holds(a, config, globals, rs) && Holds(b, config, globals, rs)
    ensures forall verb :: verb in a ==> verb in b
    ensures forall at :: Registered(a, at) ==> Registered(b, at) && EntryAt(a, at) == EntryAt(b, at)
  {
    forall verb | verb in a ensures verb in b {
      var k :| k in a[verb];
      assert Registered(a, Position(verb, k));
    }
  }

  /** Registering one more. */
  lemma HoldsOneMore(tables: Tables, config: RouterConfig, globals: seq<Middleware>,
                     rs: seq<Registration>, r: Registration)
    requires Holds(tables, config, globals, rs) && PositionsTell(config, rs + [r])
    requires RegisterOne(tables, config, globals, r).Some?
    ensures Holds(RegisterOne(tables, config, globals, r).value, config, globals, rs + [r])
  {
    var at := PositionOf(config, r);
    var tables' := RegisterOne(tables, config, globals, r).value;
    forall s | s in rs + [r]
      ensures Registered(tables', PositionOf(config, s))
      ensures EntryAt(tables', PositionOf(config, s)) == RouteOf(globals, s)
    {
      if PositionOf(config, s) == at {
        assert r in rs + [r];
        assert s == r;
      }
    }
    forall b | Registered(tables', b) ensures exists s :: s in rs + [r] && PositionOf(config, s) == b {
      if b == at {
        assert r in rs + [r];
      } else {
        assert Registered(tables, b);
        var s :| s in rs && PositionOf(config, s) == b;
        assert s in rs + [r];
      }
    }
  }

  lemma ConflictsWithHeld(tables: Tables, config: RouterConfig, globals: seq<Middleware>,
                          rs: seq<Registration>, r: Registration)
    requires Holds(tables, config, globals, rs)
    ensures RegisterOne(tables, config, globals, r).None? <==>
              exists s :: s in rs && s.verb == r.verb
                          && !Compatible(PositionOf(config, s).pattern, PositionOf(config, r).pattern)
  {
    var at := PositionOf(config, r);
    var table := TableOf(tables, at.verb);
    if k :| k in table && !Compatible(k, at.pattern) {
      assert Registered(tables, Position(at.verb, k));
    }
    if s :| s in rs && s.verb == r.verb && !Compatible(PositionOf(config, s).pattern, at.pattern) {
      assert Registered(tables, PositionOf(config, s));
    }
  }

  /** Having registered `done`, the rest goes through exactly when all names agree. */
  lemma {:induction false} AttemptFrom(tables: Tables, config: RouterConfig, globals: seq<Middleware>,
                                       done: seq<Registration>, rest: seq<Registration>)
    requires Holds(tables, config, globals, done)
    requires PositionsTell(config, done + rest) && NamesAgree(config, done)
    ensures Attempt(tables, config, globals, rest).ok <==> NamesAgree(config, done + rest)
    ensures Attempt(tables, config, globals, rest).ok ==>
              Holds(Attempt(tables, config, globals, rest).tables, config, globals, done + rest)
    decreases |rest|
  {
    if rest == [] {
      assert done + rest == done;
    } else {
      var r := rest[0];
      var done' := done + [r];
      assert done' + rest[1..] == done + rest;
      assert PositionsTell(config, done') by {
        assert forall s :: s in done' ==> s in done + rest;
      }
      ConflictsWithHeld(tables, config, globals, done, r);
      if RegisterOne(tables, config, globals, r).None? {
        var s :| s in done && s.verb == r.verb
                 && !Compatible(PositionOf(config, s).pattern, PositionOf(config, r).pattern);
        assert s in done + rest && r in done + rest;
      } else {
        NamesAgreeWith(config, done, r);
        HoldsOneMore(tables, config, globals, done, r);
        AttemptFrom(RegisterOne(tables, config, globals, r).value, config, globals, done', rest[1..]);
      }
    }
  }

  lemma NamesAgreeWith(config: RouterConfig, rs: seq<Registration>, r: Registration)
    requires NamesAgree(config, rs)
    requires forall s :: s in rs && s.verb == r.verb ==>
               Compatible(PositionOf(config, s).pattern, PositionOf(config, r).pattern)
    ensures NamesAgree(config, rs + [r])
  {
    forall a, b | a in rs + [r] && b in rs + [r] && a.verb == b.verb
      ensures Compatible(PositionOf(config, a).pattern, PositionOf(config, b).pattern)
    {
      if a !in rs && b in rs {
        assert a == r;
        CompatibleIsSymmetric(PositionOf(config, b).pattern, PositionOf(config, a).pattern);
      }
    }
  }

  /** A list at distinct positions is accepted in full exactly when its names agree. */
  lemma AcceptedIffNamesAgree(config: RouterConfig, globals: seq<Middleware>, rs: seq<Registration>)
    requires PositionsTell(config, rs)
    ensures Attempt(map[], config, globals, rs).ok <==> NamesAgree(config, rs)
    ensures Attempt(map[], config, globals, rs).ok ==>
              Holds(Attempt(map[], config, globals, rs).tables, config, globals, rs)
  {
    assert [] + rs == rs;
    AttemptFrom(map[], config, globals, [], rs);
  }

  /** The same registrations in any order (and however often) are accepted or not alike,
      and once accepted leave the same tables: the same routes found and listed. */
  lemma OrderIsIrrelevant(config: RouterConfig, globals: seq<Middleware>,
                          a: seq<Registration>, b: seq<Registration>)
    requires PositionsTell(config, a)
    requires forall r :: r in a <==> r in b
    ensures Attempt(map[], config, globals, a).ok == Attempt(map[], config, globals, b).ok
    ensures Attempt(map[], config, globals, a).ok ==>
              Attempt(map[], config, globals, a) == Attempt(map[], config, globals, b)
  {
    AcceptedIffNamesAgree(config, globals, a);
    AcceptedIffNamesAgree(config, globals, b);
    if Attempt(map[], config, globals, a).ok {
      var ta, tb := Attempt(map[], config, globals, a).tables, Attempt(map[], config, globals, b).tables;
      assert Holds(tb, config, globals, a) by {
        forall at | Registered(tb, at) ensures exists r :: r in a && PositionOf(config, r) == at {
          var r :| r in b && PositionOf(config, r) == at;
        }
      }
      HoldsIsUnique(ta, tb, config, globals, a);
    }
  }

  // ----- Replaying a listing -----

  function Replayed(route: Route): Registration {
    Registration(route.verb, route.path, route.handler, [])
  }

  function ReplayOf(routes: seq<Route>): (rs: seq<Registration>)
    ensures |rs| == |routes|
    ensures forall i :: 0 <= i < |rs| ==> rs[i] == Replayed(routes[i])
  {
    seq(|routes|, i requires 0 <= i < |routes| => Replayed(routes[i]))
  }

  /** Same patterns, and at each the same path and handler; the middlewares are inside the
      handler already. */
  ghost predicate SameService(a: Tables, b: Tables) {
    && a.Keys == b.Keys
    && forall verb :: verb in a ==>
         && a[verb].Keys == b[verb].Keys
         && forall k :: k in a[verb] ==>
              a[verb][k].verb == b[verb][k].verb && a[verb][k].path == b[verb][k].path
              && a[verb][k].handler == b[verb][k].handler
  }

  lemma ReplayIsExact(config: RouterConfig, tables: Tables, entries: seq<Position>, r: Registration)
    requires WellFiled(config, tables) && ListsAll(tables, entries)
    ensures r in ReplayOf(RoutesAt(tables, entries)) <==>
              Registered(tables, PositionOf(config, r)) && r == Replayed(EntryAt(tables, PositionOf(config, r)))
  {
    var rs := ReplayOf(RoutesAt(tables, entries));
    if r in rs {
      var i :| 0 <= i < |rs| && rs[i] == r;
      EntryIsFiled(config, tables, entries[i]);
    }
    if Registered(tables, PositionOf(config, r)) && r == Replayed(EntryAt(tables, PositionOf(config, r))) {
      var i :| 0 <= i < |entries| && entries[i] == PositionOf(config, r);
      assert rs[i] == r;
    }
  }

  lemma EntryIsFiled(config: RouterConfig, tables: Tables, at: Position)
    requires WellFiled(config, tables) && Registered(tables, at)
    ensures RouteFiled(config, EntryAt(tables, at), at.verb, at.pattern)
    ensures PositionOf(config, Replayed(EntryAt(tables, at))) == at
  {
    assert RouteFiled(config, tables[at.verb][at.pattern], at.verb, at.pattern);
  }

  /** Replaying the methods, paths and handlers of a listing into an empty router with the
      same parsers and no middlewares is accepted and serves the same. */
  lemma ReplayServesTheSame(config: RouterConfig, tables: Tables, routes: seq<Route>)
    requires WellFiled(config, tables) && Lists(tables, routes)
    ensures var replay := Attempt(map[], config, [], ReplayOf(routes));
            replay.ok && SameService(tables, replay.tables)
  {
    var entries :| ListsAll(tables, entries) && routes == RoutesAt(tables, entries);
    var rs := ReplayOf(routes);
    forall r ensures r in rs <==>
        Registered(tables, PositionOf(config, r)) && r == Replayed(EntryAt(tables, PositionOf(config, r)))
    {
      ReplayIsExact(config, tables, entries, r);
    }
    forall r, s | r in rs && s in rs && r.verb == s.verb
      ensures Compatible(PositionOf(config, r).pattern, PositionOf(config, s).pattern)
    {
      assert Consistent(tables[r.verb]);
    }
    AcceptedIffNamesAgree(config, [], rs);
    HeldServesTheSame(config, tables, Attempt(map[], config, [], rs).tables, rs);
  }

  lemma HeldServesTheSame(config: RouterConfig, tables: Tables, held: Tables, rs: seq<Registration>)
    requires WellFiled(config, tables) && Holds(held, config, [], rs)
    requires forall r :: r in rs <==>
               Registered(tables, PositionOf(config, r)) && r == Replayed(EntryAt(tables, PositionOf(config, r)))
    ensures SameService(tables, held)
  {
    forall at ensures Registered(tables, at) <==> Registered(held, at) {
      if Registered(tables, at) {
        EntryIsFiled(config, tables, at);
        assert Replayed(EntryAt(tables, at)) in rs;
      }
    }
    SameKeys(tables, held);
    SameKeys(held, tables);
    forall verb, k | verb in tables && k in tables[verb]
      ensures k in held[verb] && tables[verb][k].verb == held[verb][k].verb
      ensures tables[verb][k].path == held[verb][k].path && tables[verb][k].handler == held[verb][k].handler
    {
      var at := Position(verb, k);
      assert Registered(tables, at);
      EntryIsFiled(config, tables, at);
      var r := Replayed(EntryAt(tables, at));
      assert r in rs && [] + r.middlewares == [];
    }
    forall verb, k | verb in held && k in held[verb] ensures k in tables[verb] {
      assert Registered(held, Position(verb, k));
    }
  }

  lemma SameKeys(a: Tables, b: Tables)
    requires forall verb :: verb in a ==> a[verb] != map[]
    requires forall at :: Registered(a, at) ==> Registered(b, at)
    ensures forall verb :: verb in a ==> verb in b
  {
    forall verb | verb in a ensures verb in b {
      var k :| k in a[verb];
      assert Registered(a, Position(verb, k));
    }
  }

  /** Lookups see only which patterns are registered. */
  lemma {:induction false} SearchSeesKeys(a: Table, b: Table, p: Pattern, s: string)
    requires a.Keys == b.Keys && Consistent(a)
    ensures Search(a, p, s) == Search(b, p, s)
    decreases |s|
  {
    SamePrefixes(a, b);
    StepSeesKeys(a, b, p);
    if s != "" {
      var (part, rest) := Cut(s);
      if part == "" {
        SearchSeesKeys(a, b, p, rest);
      } else {
        var step := NextStep(a, p, part);
        assert step == NextStep(b, p, part);
        if Moves(step) {
          SearchSeesKeys(a, b, p + [Via(step, part)], rest);
        }
      }
    }
  }

  lemma SamePrefixes(a: Table, b: Table)
    requires a.Keys == b.Keys
    ensures forall p :: HasPrefix(a, p) <==> HasPrefix(b, p)
    ensures forall k :: k in a <==> k in b
  {
    assert forall k :: k in a <==> k in a.Keys;
    assert forall k :: k in b <==> k in b.Keys;
  }

  lemma StepSeesKeys(a: Table, b: Table, p: Pattern)
    requires a.Keys == b.Keys && Consistent(a)
    ensures ParamAt(a, p) == ParamAt(b, p) && WildcardAt(a, p) == WildcardAt(b, p)
  {
    SamePrefixes(a, b);
    if ParamAt(a, p).Some? && ParamAt(b, p).Some? {
      NamesAreUnique(a, p, Param(ParamAt(a, p).value), Param(ParamAt(b, p).value));
    }
    if ParamAt(a, p).Some? { assert Extends(b, p, Param(ParamAt(a, p).value)); }
    if ParamAt(b, p).Some? { assert Extends(a, p, Param(ParamAt(b, p).value)); }
    if WildcardAt(a, p).Some? && WildcardAt(b, p).Some? {
      NamesAreUnique(a, p, Wildcard(WildcardAt(a, p).value), Wildcard(WildcardAt(b, p).value));
    }
    if WildcardAt(a, p).Some? { assert Extends(b, p, Wildcard(WildcardAt(a, p).value)); }
    if WildcardAt(b, p).Some? { assert Extends(a, p, Wildcard(WildcardAt(b, p).value)); }
  }

  /** Serving the same: every `Find` gives the same handler, path and captures, or the
      same error. */
  lemma SameServiceFindsTheSame(config: RouterConfig, a: Tables, b: Tables, verb: string, path: string)
    requires WellFiled(config, a) && SameService(a, b)
    ensures CapturesIn(a, verb, path) == CapturesIn(b, verb, path)
    ensures match (FindIn(a, verb, path), FindIn(b, verb, path))
            case (Found(r), Found(s)) => r.path == s.path && r.handler == s.handler
            case (RouteNotFound, RouteNotFound) => true
            case (MethodNotFound, MethodNotFound) => true
            case _ => false
  {
    assert verb in a <==> verb in a.Keys;
    assert verb in b <==> verb in b.Keys;
    if verb in a {
      SearchSeesKeys(a[verb], b[verb], [], StripOne(path));
      SamePrefixes(a[verb], b[verb]);
    }
  }
}
