/** Registering for every method, mounting a handler at a prefix, and groups with prefixes
    (amaro.go, group.go). */
module Mounts {
  import opened Strings
  import opened Handlers
  import opened Patterns
  import opened RouteTable
  import opened TrieShape
  import opened Listings
  import opened Matching
  import opened Registrations
  import opened TrieRouters

  const METHODS: seq<string> := ["GET", "POST", "PUT", "DELETE", "PATCH", "OPTIONS", "HEAD"]

  /** The same registration for each of some methods. */
  function ForEach(verbs: seq<string>, path: string, handler: Handler, middlewares: seq<Middleware>)
    : (rs: seq<Registration>)
    ensures |rs| == |verbs|
  {
    if verbs == [] then []
    else [Registration(verbs[0], path, handler, middlewares)] + ForEach(verbs[1..], path, handler, middlewares)
  }

  /** The path `Mount` uses for everything below the prefix. */
  function WildcardPath(path: string): string {
    Slashed(path) + "*filepath"
  }

  function Slashed(path: string): string {
    if path != "" && path[|path| - 1] == '/' then path else path + "/"
  }

  /** The wildcard is put after the path, then the prefix, "" for the app, in front of both. */
  function MountOf(prefix: string, path: string, handler: Handler): seq<Registration> {
    ForEach(METHODS, prefix + path, handler, []) + ForEach(METHODS, prefix + WildcardPath(path), handler, [])
  }

  /** The seven methods of `Any`. */
  lemma SevenMethods(verb: string)
    ensures verb in METHODS <==> verb in {"GET", "POST", "PUT", "DELETE", "PATCH", "OPTIONS", "HEAD"}
  {
  }

  /** A slash is put between the path and the wildcard unless the path ends in one. */
  lemma WildcardPathIs(path: string)
    requires path == "" || path[|path| - 1] != '/'
    ensures WildcardPath(path) == WildcardPath(path + "/") == path + "/*filepath"
  {
    assert path + "/*filepath" == (path + "/") + "*filepath";
  }

  /** The loop of `Any`: stops at the first method that is refused. */
  method AnyOn(router: TrieRouter, path: string, handler: Handler, middlewares: seq<Middleware>) returns (ok: bool)
    requires router.Valid()
    modifies router, router.repr
    ensures router.Valid() && fresh(router.repr - old(router.repr))
    ensures router.globalMiddlewares == old(router.globalMiddlewares)
    ensures Attempt(old(router.tables), router.config, router.globalMiddlewares,
                    ForEach(METHODS, path, handler, middlewares)) == Outcome(router.tables, ok)
  {
    ghost var globals := router.globalMiddlewares;
    var i := 0;
    while i < |METHODS|
      invariant 0 <= i <= |METHODS|
      invariant router.Valid() && fresh(router.repr - old(router.repr)) && router.globalMiddlewares == globals
      invariant Attempt(old(router.tables), router.config, globals, ForEach(METHODS, path, handler, middlewares))
             == Attempt(router.tables, router.config, globals, ForEach(METHODS[i..], path, handler, middlewares))
    {
      ghost var rest := ForEach(METHODS[i..], path, handler, middlewares);
      assert METHODS[i..][1..] == METHODS[i + 1..];
      assert rest[0] == Registration(METHODS[i], path, handler, middlewares);
      assert rest[1..] == ForEach(METHODS[i + 1..], path, handler, middlewares);
      var accepted := router.Add(METHODS[i], path, handler, middlewares);
      if !accepted {
        return false;
      }
      i := i + 1;
    }
    return true;
  }

  /** The handler for the exact path and for everything below it. */
  method MountOn(router: TrieRouter, prefix: string, path: string, handler: Handler) returns (ok: bool)
    requires router.Valid()
    modifies router, router.repr
    ensures router.Valid() && fresh(router.repr - old(router.repr))
    ensures router.globalMiddlewares == old(router.globalMiddlewares)
    ensures Attempt(old(router.tables), router.config, router.globalMiddlewares,
                    MountOf(prefix, path, handler)) == Outcome(router.tables, ok)
  {
    AttemptConcat(router.tables, router.config, router.globalMiddlewares,
                  ForEach(METHODS, prefix + path, handler, []),
                  ForEach(METHODS, prefix + WildcardPath(path), handler, []));
    ok := AnyOn(router, prefix + path, handler, []);
    if ok {
      ok := AnyOn(router, prefix + WildcardPath(path), handler, []);
    }
  }

  class Group {
    const prefix: string
    const router: TrieRouter
    /** Kept but never read: what `Use` adds here does not reach any route. */
    var middlewares: seq<Middleware>

    constructor (prefix: string, router: TrieRouter)
      ensures this.prefix == prefix && this.router == router && middlewares == []
    {
      this.prefix := prefix;
      this.router := router;
      middlewares := [];
    }

    method Use(middleware: Middleware)
      modifies this
      ensures middlewares == old(middlewares) + [middleware]
    {
      middlewares := middlewares + [middleware];
    }

    /** The route is wrapped in the router's middlewares and its own, whatever the group's are.
        So a request for it enters the group's middlewares only as far as they are among
        those or the handler itself enters them. */
    method Add(verb: string, path: string, handler: Handler, own: seq<Middleware>) returns (ok: bool)
      requires router.Valid()
      modifies router, router.repr
      ensures router.Valid() && fresh(router.repr - old(router.repr))
      ensures router.globalMiddlewares == old(router.globalMiddlewares)
      ensures Attempt(old(router.tables), router.config, router.globalMiddlewares,
                      [Registration(verb, prefix + path, handler, own)]) == Outcome(router.tables, ok)
      ensures ok ==>
                var at := Position(verb, Tokens(router.config, prefix + path));
                var layers := router.globalMiddlewares + own;
                && Registered(router.tables, at)
                && EntryAt(router.tables, at).handler == Compiled(handler, layers)
                && EntryAt(router.tables, at).middlewares == layers
                && (EntersAll(EntryAt(router.tables, at).handler, middlewares)
                    <==> forall m :: m in middlewares ==> m in layers || Enter(m) in Events(handler, []))
    {
      ok := router.Add(verb, prefix + path, handler, own);
      assert [Registration(verb, prefix + path, handler, own)][1..] == [];
      EntersAllIff(handler, router.globalMiddlewares + own, middlewares);
    }

    method Any(path: string, handler: Handler, middlewares: seq<Middleware>) returns (ok: bool)
      requires router.Valid()
      modifies router, router.repr
      ensures router.Valid() && fresh(router.repr - old(router.repr))
      ensures Attempt(old(router.tables), router.config, router.globalMiddlewares,
                      ForEach(METHODS, prefix + path, handler, middlewares)) == Outcome(router.tables, ok)
    {
      ok := AnyOn(router, prefix + path, handler, middlewares);
    }

    method Mount(path: string, handler: Handler) returns (ok: bool)
      requires router.Valid()
      modifies router, router.repr
      ensures router.Valid() && fresh(router.repr - old(router.repr))
      ensures Attempt(old(router.tables), router.config, router.globalMiddlewares,
                      MountOf(prefix, path, handler)) == Outcome(router.tables, ok)
    {
      ok := MountOn(router, prefix, path, handler);
    }

    method SubGroup(prefix: string) returns (group: Group)
      ensures fresh(group) && group.prefix == this.prefix + prefix && group.router == router
    {
      group := new Group(this.prefix + prefix, router);
    }
  }

  /** A request enters all these middlewares. */
  ghost predicate EntersAll(handler: Handler, middlewares: seq<Middleware>) {
    forall m :: m in middlewares ==> Enter(m) in Events(handler, [])
  }

  lemma {:induction false} EntersIff(handler: Handler, layers: seq<Middleware>, m: Middleware)
    ensures Enter(m) in Events(Compiled(handler, layers), []) <==> m in layers || Enter(m) in Events(handler, [])
  {
    CompiledEvents(handler, layers, []);
    if m in layers {
      var i :| 0 <= i < |layers| && layers[i] == m;
      assert Entering(layers)[i] == Enter(m);
    }
  }

  lemma EntersAllIff(handler: Handler, layers: seq<Middleware>, middlewares: seq<Middleware>)
    ensures EntersAll(Compiled(handler, layers), middlewares)
       <==> forall m :: m in middlewares ==> m in layers || Enter(m) in Events(handler, [])
  {
    forall m
      ensures Enter(m) in Events(Compiled(handler, layers), []) <==> m in layers || Enter(m) in Events(handler, [])
    {
      EntersIff(handler, layers, m);
    }
  }

  /** A group's middleware that is not entered by a request for the group's route. */
  method GroupMiddlewareExample(router: TrieRouter) returns (group: Group)
    requires router.Valid() && router.tables == map[] && router.globalMiddlewares == []
    modifies router, router.repr
    ensures var at := Position("GET", Tokens(router.config, "/g/a"));
            && group.middlewares == [7] && Registered(router.tables, at)
            && Enter(7) !in Events(EntryAt(router.tables, at).handler, [])
  {
    group := new Group("/g", router);
    group.Use(7);
    var ok := group.Add("GET", "/a", Endpoint(1), []);
    assert "/g" + "/a" == "/g/a";
    EntersIff(Endpoint(1), [], 7);
  }

  // ----- Prefixes -----

  function Joined(prefixes: seq<string>): string {
    if prefixes == [] then "" else Joined(prefixes[..|prefixes| - 1]) + prefixes[|prefixes| - 1]
  }

  function TokensOfEach(config: RouterConfig, prefixes: seq<string>): Pattern {
    if prefixes == [] then []
    else TokensOfEach(config, prefixes[..|prefixes| - 1]) + Tokens(config, prefixes[|prefixes| - 1])
  }

  /** Through any nesting of groups a route's tokens are those of the prefixes, one after
      the other, and then its own, when each part but the first is empty or starts with a
      slash. */
  lemma {:induction false} NestedGroupTokens(config: RouterConfig, prefixes: seq<string>, path: string)
    requires path == "" || path[0] == '/'
    requires forall i :: 0 < i < |prefixes| ==> prefixes[i] == "" || prefixes[i][0] == '/'
    ensures Tokens(config, Joined(prefixes) + path) == TokensOfEach(config, prefixes) + Tokens(config, path)
    decreases |prefixes|
  {
    var n := |prefixes|;
    TokensOfConcat(config, Joined(prefixes), path);
    if n > 0 {
      var outer, last := prefixes[..n - 1], prefixes[n - 1];
      if n == 1 {
        assert Joined(prefixes) == Joined(outer) + last == last;
        assert TokensOfEach(config, prefixes) == Tokens(config, last);
      } else {
        NestedGroupTokens(config, outer, last);
        assert Joined(prefixes) == Joined(outer) + last;
        assert TokensOfEach(config, prefixes) == TokensOfEach(config, outer) + Tokens(config, last);
      }
    }
  }

  // ----- Mounting -----

  predicate AllStatic(p: Pattern) {
    forall i :: 0 <= i < |p| ==> p[i].Static?
  }

  ghost predicate NothingAtOrBelow(table: Table, p: Pattern) {
    !HasPrefix(table, p)
  }

  lemma SegmentsWithMore(base: string, rest: string)
    requires rest != "" && '/' !in rest
    ensures Segments(base + "/" + rest) == Segments(base) + [rest]
  {
    SegmentsOfConcat(base, rest);
    SegmentsWithoutSlash(rest);
  }

  lemma SlashedBase(prefix: string, path: string) returns (base: string)
    ensures prefix + Slashed(path) == base + "/" && Segments(base) == Segments(prefix + path)
  {
    if path != "" && path[|path| - 1] == '/' {
      base := prefix + path[..|path| - 1];
      assert (prefix + path)[..|prefix + path| - 1] == base;
      SegmentsOfTrailingSlash(prefix + path);
    } else {
      base := prefix + path;
    }
  }

  lemma SegmentsBelow(prefix: string, path: string, rest: string)
    requires rest != "" && '/' !in rest
    ensures Segments(prefix + (Slashed(path) + rest)) == Segments(prefix + path) + [rest]
  {
    var base := SlashedBase(prefix, path);
    SegmentsWithMore(base, rest);
    AppendIsAssociative(prefix, Slashed(path), rest);
  }

  lemma WildcardPathSegments(prefix: string, path: string)
    ensures Segments(prefix + WildcardPath(path)) == Segments(prefix + path) + ["*filepath"]
  {
    SegmentsBelow(prefix, path, "*filepath");
  }

  /** Below any prefix the wildcard path has the tokens of the path and then the wildcard. */
  lemma WildcardPathTokens(prefix: string, path: string)
    ensures var config := DefaultRouterConfig();
            Tokens(config, prefix + WildcardPath(path)) == Tokens(config, prefix + path) + [Wildcard("filepath")]
  {
    WildcardPathSegments(prefix, path);
    ClassifyAllOfConcat(DefaultRouterConfig(), Segments(prefix + path), ["*filepath"]);
    assert "*filepath"[1..] == "filepath";
    assert ClassifyAll(DefaultRouterConfig(), ["*filepath"]) == [Wildcard("filepath")];
  }

  function WithRoute(table: Table, config: RouterConfig, globals: seq<Middleware>,
                     verb: string, path: string, handler: Handler): Table
  {
    table[Tokens(config, path) := RouteOf(globals, Registration(verb, path, handler, []))]
  }

  /** Registering a path for several methods that do not conflict puts one entry in each
      of their tables and touches no other. */
  lemma {:induction false} ForEachAccepted(tables: Tables, config: RouterConfig, globals: seq<Middleware>,
                                           verbs: seq<string>, path: string, handler: Handler)
    requires forall verb :: verb in verbs ==> !Conflicts(TableOf(tables, verb), Tokens(config, path))
    requires forall i, j :: 0 <= i < j < |verbs| ==> verbs[i] != verbs[j]
    ensures var after := Attempt(tables, config, globals, ForEach(verbs, path, handler, []));
            && after.ok
            && (forall verb :: verb in verbs ==>
                  TableOf(after.tables, verb) == WithRoute(TableOf(tables, verb), config, globals, verb, path, handler))
            && (forall verb :: verb !in verbs ==> TableOf(after.tables, verb) == TableOf(tables, verb))
    decreases |verbs|
  {
    if verbs != [] {
      var rs := ForEach(verbs, path, handler, []);
      var tables' := RegisterOne(tables, config, globals, rs[0]).value;
      assert rs[1..] == ForEach(verbs[1..], path, handler, []);
      assert forall verb :: verb in verbs <==> verb == verbs[0] || verb in verbs[1..];
      ForEachAccepted(tables', config, globals, verbs[1..], path, handler);
    }
  }

  lemma NewStaticPathIsFree(table: Table, p: Pattern)
    requires AllStatic(p)
    ensures !Conflicts(table, p)
  {
  }

  lemma NewWildcardIsFree(table: Table, p: Pattern, name: string, route: Route)
    requires AllStatic(p) && NothingAtOrBelow(table, p)
    ensures !Conflicts(table[p := route], p + [Wildcard(name)])
  {
    var q := p + [Wildcard(name)];
    forall k | k in table[p := route] ensures Compatible(k, q) {
      forall i | 0 <= i < |k| && i < |q| && k[..i] == q[..i] && SameDynamicKind(k[i], q[i]) ensures k[i] == q[i] {
        assert q[..|p|] == p;
      }
    }
  }

  /** In a table with only a static pattern and a wildcard right below it at or below that
      pattern, exactly the paths extending the pattern get one of the two routes. */
  lemma MountedLookup(table: Table, p: Pattern, name: string, exact: Route, below: Route, path: string)
    requires Consistent(table) && AllStatic(p) && NothingAtOrBelow(table, p)
    ensures var mounted := table[p := exact][p + [Wildcard(name)] := below];
            var found := Lookup(mounted, path).pattern;
            Consistent(mounted) && (found in {Some(p), Some(p + [Wildcard(name)])} <==> Covers(p, Segments(path)))
  {
    var q := p + [Wildcard(name)];
    var mounted := table[p := exact][q := below];
    var segs := Segments(path);
    MountIsConsistent(table, p, name, exact, below);
    LookupIsExact(mounted, path, p);
    LookupIsExact(mounted, path, q);
    if Covers(p, segs) {
      StaticIsNotShadowed(mounted, p, segs);
      if |segs| > |p| {
        MountedWildcardWins(table, p, name, exact, below, segs);
      }
    }
  }

  /** The segments start with those of the static pattern. */
  predicate Covers(p: Pattern, segs: seq<string>)
  {
    |p| <= |segs| && forall i :: 0 <= i < |p| ==> p[i] == Static(segs[i])
  }

  lemma MountIsConsistent(table: Table, p: Pattern, name: string, exact: Route, below: Route)
    requires Consistent(table) && AllStatic(p) && NothingAtOrBelow(table, p)
    ensures Consistent(table[p := exact][p + [Wildcard(name)] := below])
  {
    NewStaticPathIsFree(table, p);
    ConsistentOnceFiled(table, p, exact);
    NewWildcardIsFree(table, p, name, exact);
    ConsistentOnceFiled(table[p := exact], p + [Wildcard(name)], below);
  }

  lemma StaticIsNotShadowed(table: Table, p: Pattern, segs: seq<string>)
    requires AllStatic(p) && Covers(p, segs)
    ensures !Shadowed(table, p, segs)
  {
  }

  lemma MountedWildcardWins(table: Table, p: Pattern, name: string, exact: Route, below: Route, segs: seq<string>)
    requires AllStatic(p) && NothingAtOrBelow(table, p) && Covers(p, segs) && |p| < |segs|
    ensures Wins(table[p := exact][p + [Wildcard(name)] := below], p + [Wildcard(name)], segs)
  {
    var q := p + [Wildcard(name)];
    var mounted := table[p := exact][q := below];
    forall t | Extends(mounted, p, t) ensures t == Wildcard(name) {
      var k :| k in mounted && p + [t] <= k;
      assert p <= k;
      assert k[|p|] == (p + [t])[|p|];
    }
    forall i | 0 <= i < |q| ensures !Overtaken(mounted, q, segs, i) {
      assert q[..|p|] == p;
    }
  }

  ghost predicate FreeFor(tables: Tables, p: Pattern) {
    AllStatic(p) && forall verb :: verb in METHODS ==> NothingAtOrBelow(TableOf(tables, verb), p)
  }

  /** A mount at a free static path is accepted and adds its two routes for each method. */
  lemma MountAccepted(tables: Tables, globals: seq<Middleware>, prefix: string, path: string, handler: Handler,
                      verb: string)
    requires FreeFor(tables, Tokens(DefaultRouterConfig(), prefix + path)) && verb in METHODS
    ensures var config := DefaultRouterConfig();
            var after := Attempt(tables, config, globals, MountOf(prefix, path, handler));
            && after.ok
            && TableOf(after.tables, verb)
               == WithRoute(WithRoute(TableOf(tables, verb), config, globals, verb, prefix + path, handler),
                            config, globals, verb, prefix + WildcardPath(path), handler)
  {
    var config := DefaultRouterConfig();
    var full, below := prefix + path, prefix + WildcardPath(path);
    var p := Tokens(config, full);
    WildcardPathTokens(prefix, path);
    forall v | v in METHODS ensures !Conflicts(TableOf(tables, v), p) {
      NewStaticPathIsFree(TableOf(tables, v), p);
    }
    ForEachAccepted(tables, config, globals, METHODS, full, handler);
    var mid := Attempt(tables, config, globals, ForEach(METHODS, full, handler, [])).tables;
    forall v | v in METHODS ensures !Conflicts(TableOf(mid, v), p + [Wildcard("filepath")]) {
      NewWildcardIsFree(TableOf(tables, v), p, "filepath", RouteOf(globals, Registration(v, full, handler, [])));
    }
    ForEachAccepted(mid, config, globals, METHODS, below, handler);
    AttemptConcat(tables, config, globals, ForEach(METHODS, full, handler, []), ForEach(METHODS, below, handler, []));
  }

  /** For each method exactly the requests whose segments extend the pattern find one of the
      two mounted routes, and they get the mounted handler. */
  ghost predicate ServesBelow(tables: Tables, globals: seq<Middleware>, p: Pattern, handler: Handler,
                              verb: string, request: string)
  {
    var found := Lookup(TableOf(tables, verb), request).pattern;
    && (Covers(p, Segments(request)) <==> found in {Some(p), Some(p + [Wildcard("filepath")])})
    && (Covers(p, Segments(request)) ==>
          FindIn(tables, verb, request).Found?
          && FindIn(tables, verb, request).route.handler == Compiled(handler, globals))
  }

  /** Mounting a handler, on the app or on a group with any prefix, at a static path with
      nothing registered at or below it always succeeds, and then the requests that extend
      the path are served by it, whatever is registered elsewhere. */
  lemma MountServes(tables: Tables, globals: seq<Middleware>, prefix: string, path: string, handler: Handler,
                    verb: string, request: string)
    requires WellFiled(DefaultRouterConfig(), tables) && verb in METHODS
    requires FreeFor(tables, Tokens(DefaultRouterConfig(), prefix + path))
    ensures var config := DefaultRouterConfig();
            var after := Attempt(tables, config, globals, MountOf(prefix, path, handler));
            after.ok && ServesBelow(after.tables, globals, Tokens(config, prefix + path), handler, verb, request)
  {
    var config := DefaultRouterConfig();
    var p := Tokens(config, prefix + path);
    MountAccepted(tables, globals, prefix, path, handler, verb);
    WildcardPathTokens(prefix, path);
    var exact := RouteOf(globals, Registration(verb, prefix + path, handler, []));
    var below := RouteOf(globals, Registration(verb, prefix + WildcardPath(path), handler, []));
    var after := Attempt(tables, config, globals, MountOf(prefix, path, handler)).tables;
    assert globals + [] == globals;
    MountedFind(TableOf(tables, verb), p, "filepath", exact, below, after, verb, request);
  }

  /** Through any nesting of groups the pattern is that of the prefixes, one after the
      other, and then the path. */
  lemma NestedMountServes(tables: Tables, globals: seq<Middleware>, prefixes: seq<string>, path: string,
                          handler: Handler, verb: string, request: string)
    requires WellFiled(DefaultRouterConfig(), tables) && verb in METHODS
    requires path == "" || path[0] == '/'
    requires forall i :: 0 < i < |prefixes| ==> prefixes[i] == "" || prefixes[i][0] == '/'
    requires FreeFor(tables, TokensOfEach(DefaultRouterConfig(), prefixes) + Tokens(DefaultRouterConfig(), path))
    ensures var config := DefaultRouterConfig();
            var after := Attempt(tables, config, globals, MountOf(Joined(prefixes), path, handler));
            after.ok && ServesBelow(after.tables, globals, TokensOfEach(config, prefixes) + Tokens(config, path),
                                    handler, verb, request)
  {
    NestedGroupTokens(DefaultRouterConfig(), prefixes, path);
    MountServes(tables, globals, Joined(prefixes), path, handler, verb, request);
  }

  lemma MountedFind(table: Table, p: Pattern, name: string, exact: Route, below: Route,
                    after: Tables, verb: string, request: string)
    requires Consistent(table) && AllStatic(p) && NothingAtOrBelow(table, p)
    requires TableOf(after, verb) == table[p := exact][p + [Wildcard(name)] := below]
    requires exact.handler == below.handler
    ensures var found := Lookup(TableOf(after, verb), request).pattern;
            && (Covers(p, Segments(request)) <==> found in {Some(p), Some(p + [Wildcard(name)])})
            && (Covers(p, Segments(request)) ==>
                  FindIn(after, verb, request).Found? && FindIn(after, verb, request).route.handler == exact.handler)
  {
    MountedLookup(table, p, name, exact, below, request);
    assert p in TableOf(after, verb);
    FindOfLookup(after, verb, request);
  }

  lemma FindOfLookup(tables: Tables, verb: string, path: string)
    requires TableOf(tables, verb) != map[]
    ensures var found := Lookup(TableOf(tables, verb), path).pattern;
            found.Some? && found.value in TableOf(tables, verb) ==>
              FindIn(tables, verb, path) == Found(TableOf(tables, verb)[found.value])
  {
  }
}
