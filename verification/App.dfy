/** The app (amaro.go): middleware layering over runs of registrations and requests. */
module Apps {
  import opened Strings
  import opened Handlers
  import opened Patterns
  import opened RouteTable
  import opened TrieShape
  import opened Listings
  import opened Registrations
  import opened Contexts
  import opened TrieRouters

  /** The middleware every new app starts with. */
  const RECOVERY: Middleware := 0

  /** What later requests depend on. `frozen` is the middleware list compiled at the first
      set-up; middlewares used after that are ignored. */
  datatype AppState = AppState(middlewares: seq<Middleware>, frozen: Option<seq<Middleware>>,
                               globals: seq<Middleware>, tables: Tables)

  datatype Op =
    | AppUse(m: Middleware)
    | RouterUse(m: Middleware)
    | Add(r: Registration)
    | SetUp
    | Serve(verb: string, path: string)

  function Initial(): AppState {
    AppState([RECOVERY], None, [], map[])
  }

  function FrozenOr(s: AppState): seq<Middleware> {
    if s.frozen.Some? then s.frozen.value else s.middlewares
  }

  ghost function After(config: RouterConfig, s: AppState, op: Op): AppState {
    match op
    case AppUse(m) => s.(middlewares := s.middlewares + [m])
    case RouterUse(m) => s.(globals := s.globals + [m])
    case Add(r) => s.(tables := Added(s.tables, config, s.globals, r))
    case SetUp => s.(frozen := Some(FrozenOr(s)))
    case Serve(_, _) => s.(frozen := Some(FrozenOr(s)))
  }

  ghost function Added(tables: Tables, config: RouterConfig, globals: seq<Middleware>, r: Registration): Tables {
    match RegisterOne(tables, config, globals, r)
    case Some(tables') => tables'
    case None => tables
  }

  ghost function Run(config: RouterConfig, ops: seq<Op>): AppState {
    if ops == [] then Initial()
    else After(config, Run(config, ops[..|ops| - 1]), ops[|ops| - 1])
  }

  /** What a request runs: the frozen layers around what dispatch does. */
  ghost function Response(s: AppState, verb: string, path: string): seq<Event> {
    var inner := match FindIn(s.tables, verb, path)
                 case Found(route) => Events(route.handler, [])
                 case _ => [NotFound];
    Events(Compiled(Dispatch, FrozenOr(s)), inner)
  }

  class App {
    const router: TrieRouter
    var middlewares: seq<Middleware>
    /** Set once, at the first set-up. */
    var handler: Option<Handler>
    var pool: set<Context>
    ghost var frozen: Option<seq<Middleware>>

    ghost predicate Valid()
      reads this, router, router.repr
    {
      && router.Valid()
      && handler.Some? == frozen.Some?
      && (handler.Some? ==> handler.value == Compiled(Dispatch, frozen.value))
    }

    ghost function State(): AppState
      reads this, router
    {
      AppState(middlewares, frozen, router.globalMiddlewares, router.tables)
    }

    constructor (router: TrieRouter)
      requires router.Valid() && router.tables == map[] && router.globalMiddlewares == []
      ensures Valid() && State() == Initial() && this.router == router && pool == {}
    {
      this.router := router;
      middlewares := [RECOVERY];
      handler, frozen := None, None;
      pool := {};
    }

    method Use(middleware: Middleware)
      requires Valid()
      modifies this`middlewares
      ensures Valid() && State() == After(router.config, old(State()), AppUse(middleware))
    {
      middlewares := middlewares + [middleware];
    }

    method Add(verb: string, path: string, handler: Handler, middlewares: seq<Middleware>) returns (ok: bool)
      requires Valid()
      modifies router, router.repr
      ensures Valid() && fresh(router.repr - old(router.repr))
      ensures State() == After(router.config, old(State()), Op.Add(Registration(verb, path, handler, middlewares)))
    {
      ok := router.Add(verb, path, handler, middlewares);
    }

    method Setup()
      requires Valid()
      modifies this`handler, this`frozen
      ensures Valid() && handler.Some? && State() == After(router.config, old(State()), SetUp)
    {
      if handler.None? {
        var h := Compile(Dispatch, middlewares);
        handler, frozen := Some(h), Some(middlewares);
      }
    }

    /** Serves one request on a pooled or new context. `seen` is what the route's handler
        finds in the context: the captures of this request's own lookup and no keys. */
    method ServeHTTP(request: nat, verb: string, path: string)
      returns (events: seq<Event>, seen: seq<Capture>, keys: map<string, nat>)
      requires Valid()
      modifies this, pool
      ensures Valid() && State() == After(router.config, old(State()), Serve(verb, path))
      ensures events == Response(State(), verb, path)
      ensures seen == CapturesIn(router.tables, verb, path) && keys == map[]
      ensures exists ctx :: ctx in pool && (ctx in old(pool) || fresh(ctx)) && pool == old(pool) + {ctx}
    {
      Setup();
      var ctx: Context;
      if pool == {} {
        ctx := new Context(request);
      } else {
        ctx :| ctx in pool;
        pool := pool - {ctx};
      }
      events, seen, keys := Handle(ctx, request, verb, path);
      pool := pool + {ctx};
    }

    /** The request on a context of whatever content. */
    method Handle(ctx: Context, request: nat, verb: string, path: string)
      returns (events: seq<Event>, seen: seq<Capture>, keys: map<string, nat>)
      requires Valid() && handler.Some?
      modifies ctx
      ensures Valid()
      ensures events == Response(State(), verb, path)
      ensures seen == CapturesIn(router.tables, verb, path) && keys == map[]
    {
      ctx.Reset(request);
      var result := router.Find(verb, path, ctx);
      assert [] + CapturesIn(router.tables, verb, path) == CapturesIn(router.tables, verb, path);
      seen, keys := ctx.params, ctx.keys;
      var inner := if result.Found? then Events(result.route.handler, []) else [NotFound];
      events := Events(handler.value, inner);
    }
  }

  // ----- Layering over runs -----

  function AppUses(ops: seq<Op>): seq<Middleware> {
    if ops == [] then []
    else AppUses(ops[..|ops| - 1]) + (if ops[|ops| - 1].AppUse? then [ops[|ops| - 1].m] else [])
  }

  function RouterUses(ops: seq<Op>): seq<Middleware> {
    if ops == [] then []
    else RouterUses(ops[..|ops| - 1]) + (if ops[|ops| - 1].RouterUse? then [ops[|ops| - 1].m] else [])
  }

  /** The middlewares used in a run are those of its first part and then those of the rest. */
  lemma {:induction false} UsesInOrder(a: seq<Op>, b: seq<Op>, op: Op)
    ensures AppUses(a + b) == AppUses(a) + AppUses(b) && RouterUses(a + b) == RouterUses(a) + RouterUses(b)
    ensures AppUses([op]) == if op.AppUse? then [op.m] else []
    ensures RouterUses([op]) == if op.RouterUse? then [op.m] else []
  {
    if b == [] {
      assert a + b == a;
    } else {
      var n := |b| - 1;
      UsesInOrder(a, b[..n], b[n]);
      assert (a + b)[..|a + b| - 1] == a + b[..n];
    }
    assert [op][..0] == [];
  }

  /** `i` is the last registration at that position. */
  ghost predicate LastAt(config: RouterConfig, ops: seq<Op>, i: nat, at: Position) {
    && i < |ops| && ops[i].Add? && PositionOf(config, ops[i].r) == at
    && forall j :: i < j < |ops| && ops[j].Add? ==> PositionOf(config, ops[j].r) != at
  }

  lemma {:induction false} RunKeepsMiddlewares(config: RouterConfig, ops: seq<Op>)
    ensures var s := Run(config, ops);
            && s.globals == RouterUses(ops)
            && s.middlewares == [RECOVERY] + AppUses(ops)
            && forall verb :: verb in s.tables ==> s.tables[verb] != map[] && Consistent(s.tables[verb])
  {
    if ops != [] {
      var before := Run(config, ops[..|ops| - 1]);
      var op := ops[|ops| - 1];
      RunKeepsMiddlewares(config, ops[..|ops| - 1]);
      if op.Add? {
        AddKeepsConsistency(before.tables, config, before.globals, op.r);
      }
    }
  }

  lemma AddKeepsConsistency(tables: Tables, config: RouterConfig, globals: seq<Middleware>, r: Registration)
    requires forall verb :: verb in tables ==> tables[verb] != map[] && Consistent(tables[verb])
    ensures var after := Added(tables, config, globals, r);
            forall verb :: verb in after ==> after[verb] != map[] && Consistent(after[verb])
  {
    var at := PositionOf(config, r);
    if !Conflicts(TableOf(tables, at.verb), at.pattern) {
      ConsistentOnceFiled(TableOf(tables, at.verb), at.pattern, RouteOf(globals, r));
      assert at.pattern in TableOf(tables, at.verb)[at.pattern := RouteOf(globals, r)];
    }
  }

  /** A position already taken can always be registered again. */
  lemma TakenIsFree(table: Table, p: Pattern)
    requires Consistent(table) && p in table
    ensures !Conflicts(table, p)
  {
    forall k | k in table ensures Compatible(k, p) {
    }
  }

  /** One registration decides its own position and leaves the others. */
  lemma AddedAt(tables: Tables, config: RouterConfig, globals: seq<Middleware>, r: Registration, at: Position)
    requires forall verb :: verb in tables ==> Consistent(tables[verb])
    requires Registered(Added(tables, config, globals, r), at)
    ensures var after := Added(tables, config, globals, r);
            if PositionOf(config, r) == at then EntryAt(after, at) == RouteOf(globals, r)
            else Registered(tables, at) && EntryAt(after, at) == EntryAt(tables, at)
  {
    if PositionOf(config, r) == at && Registered(tables, at) {
      TakenIsFree(tables[at.verb], at.pattern);
    }
  }

  /** So does one step of a run. */
  lemma RouteAfter(config: RouterConfig, s: AppState, op: Op, at: Position)
    requires forall verb :: verb in s.tables ==> Consistent(s.tables[verb])
    requires Registered(After(config, s, op).tables, at)
    ensures var after := After(config, s, op);
            if op.Add? && PositionOf(config, op.r) == at then EntryAt(after.tables, at) == RouteOf(s.globals, op.r)
            else Registered(s.tables, at) && EntryAt(after.tables, at) == EntryAt(s.tables, at)
  {
    if op.Add? {
      AddedAt(s.tables, config, s.globals, op.r, at);
    }
  }

  lemma LastAtLater(config: RouterConfig, ops: seq<Op>, i: nat, at: Position)
    requires ops != [] && LastAt(config, ops[..|ops| - 1], i, at)
    requires !(ops[|ops| - 1].Add? && PositionOf(config, ops[|ops| - 1].r) == at)
    ensures LastAt(config, ops, i, at)
  {
    var earlier := ops[..|ops| - 1];
    assert earlier[i] == ops[i];
    forall j | i < j < |ops| && ops[j].Add? ensures PositionOf(config, ops[j].r) != at {
      if j < |earlier| {
        assert earlier[j] == ops[j];
      }
    }
  }

  /** A registered route is what the last registration at its position made of the router
      middlewares present then and its own. */
  lemma {:induction false} RouteComesFromLast(config: RouterConfig, ops: seq<Op>, at: Position) returns (i: nat)
    requires Registered(Run(config, ops).tables, at)
    ensures LastAt(config, ops, i, at)
    ensures EntryAt(Run(config, ops).tables, at) == RouteOf(RouterUses(ops[..i]), ops[i].r)
  {
    var n := |ops| - 1;
    var earlier := ops[..n];
    var before := Run(config, earlier);
    RunKeepsMiddlewares(config, earlier);
    assert Run(config, ops) == After(config, before, ops[n]);
    RouteAfter(config, before, ops[n], at);
    if ops[n].Add? && PositionOf(config, ops[n].r) == at {
      i := n;
    } else {
      i := RouteComesFromLast(config, earlier, at);
      LastAtLater(config, ops, i, at);
      assert earlier[..i] == ops[..i] && earlier[i] == ops[i];
    }
  }

  /** `setup` runs when the server is started and with every request. */
  predicate Freezes(op: Op) {
    op.SetUp? || op.Serve?
  }

  /** The first of these freezes the app's middlewares for good. */
  lemma {:induction false} FrozenAtFirstSetUp(config: RouterConfig, ops: seq<Op>, first: nat)
    requires first <= |ops| && (first < |ops| ==> Freezes(ops[first]))
    requires forall j :: 0 <= j < first ==> !Freezes(ops[j])
    ensures FrozenOr(Run(config, ops)) == [RECOVERY] + AppUses(ops[..first])
    ensures Run(config, ops).frozen.Some? <==> first < |ops|
  {
    if ops != [] {
      var earlier := ops[..|ops| - 1];
      RunKeepsMiddlewares(config, earlier);
      RunKeepsMiddlewares(config, ops);
      if first < |ops| {
        FrozenAtFirstSetUp(config, earlier, first);
        assert first < |earlier| ==> earlier[first] == ops[first];
        assert earlier[..first] == ops[..first];
      } else {
        FrozenAtFirstSetUp(config, earlier, first - 1);
        assert ops[..first] == ops;
      }
    }
  }

  /** After any run, a request that finds a route enters the app middlewares frozen at the
      first set-up, then the router middlewares present when the route was registered,
      then the route's own, runs the handler, and leaves them in reverse. */
  lemma Layering(config: RouterConfig, ops: seq<Op>, first: nat, verb: string, path: string)
    returns (i: nat)
    requires first <= |ops| && (first < |ops| ==> Freezes(ops[first]))
    requires forall j :: 0 <= j < first ==> !Freezes(ops[j])
    requires Lookup(TableOf(Run(config, ops).tables, verb), path).pattern.Some?
    ensures LastAt(config, ops, i, Position(verb, Lookup(TableOf(Run(config, ops).tables, verb), path).pattern.value))
    ensures var app := [RECOVERY] + AppUses(ops[..first]);
            var r := ops[i].r;
            var all := RouterUses(ops[..i]) + r.middlewares;
            Response(Run(config, ops), verb, path)
            == Entering(app) + (Entering(all) + Events(r.handler, []) + Leaving(all)) + Leaving(app)
  {
    var s := Run(config, ops);
    var k := Lookup(TableOf(s.tables, verb), path).pattern.value;
    FoundIsRegistered(TableOf(s.tables, verb), [], StripOne(path));
    var at := Position(verb, k);
    i := RouteComesFromLast(config, ops, at);
    FrozenAtFirstSetUp(config, ops, first);
    var r := ops[i].r;
    var all := RouterUses(ops[..i]) + r.middlewares;
    CompiledEvents(r.handler, all, []);
    CompiledEvents(Dispatch, FrozenOr(s), Events(Compiled(r.handler, all), []));
    assert FindIn(s.tables, verb, path) == Found(EntryAt(s.tables, at));
  }

  /** A request that finds no route enters the same app middlewares, around the answer that
      there is none, and leaves them in reverse. */
  lemma LayeringUnmatched(config: RouterConfig, ops: seq<Op>, first: nat, verb: string, path: string)
    requires first <= |ops| && (first < |ops| ==> Freezes(ops[first]))
    requires forall j :: 0 <= j < first ==> !Freezes(ops[j])
    requires Lookup(TableOf(Run(config, ops).tables, verb), path).pattern.None?
    ensures var app := [RECOVERY] + AppUses(ops[..first]);
            Response(Run(config, ops), verb, path) == Entering(app) + [NotFound] + Leaving(app)
  {
    FrozenAtFirstSetUp(config, ops, first);
    CompiledEvents(Dispatch, FrozenOr(Run(config, ops)), [NotFound]);
  }
}
