/** What the trie router stands for: for each method a flat table from patterns to
    routes, searched greedily and without backtracking.  The trie (TrieRouter.dfy) is
    proved against these definitions; what they mean is proved in Matching.dfy. */
module RouteTable {
  import opened Strings
  import opened Handlers
  import opened Patterns

  datatype Route = Route(verb: string, path: string, handler: Handler, middlewares: seq<Middleware>)

  type Table = map<Pattern, Route>

  /** One table per method; a method has a table once a route is registered for it. */
  type Tables = map<string, Table>

  function TableOf(tables: Tables, verb: string): Table {
    if verb in tables then tables[verb] else map[]
  }

  ghost predicate HasPrefix(table: Table, p: Pattern) {
    exists k :: k in table && p <= k
  }

  ghost predicate Extends(table: Table, p: Pattern, t: Token) {
    HasPrefix(table, p + [t])
  }

  /** Registered patterns agree on the name of the parameter and of the wildcard at each
      position; every table the router can reach has this. */
  ghost predicate Consistent(table: Table) {
    forall a, b {:trigger Compatible(a, b)} :: a in table && b in table ==> Compatible(a, b)
  }

  lemma NamesAreUnique(table: Table, p: Pattern, s: Token, t: Token)
    requires Consistent(table)
    requires SameDynamicKind(s, t)
    requires Extends(table, p, s) && Extends(table, p, t)
    ensures s == t
  {
    var a :| a in table && p + [s] <= a;
    var b :| b in table && p + [t] <= b;
    assert a[|p|] == (p + [s])[|p|] && b[|p|] == (p + [t])[|p|];
    assert a[..|p|] == (p + [s])[..|p|] == p == (p + [t])[..|p|] == b[..|p|];
    assert Compatible(a, b);
  }

  lemma PrefixOfPrefix(table: Table, p: Pattern, q: Pattern)
    requires HasPrefix(table, q) && p <= q
    ensures HasPrefix(table, p)
  {
    var k :| k in table && q <= k;
    assert p <= k;
  }

  /** Registration: a new entry, or none when a name clashes. */
  ghost predicate Conflicts(table: Table, p: Pattern) {
    exists k :: k in table && !Compatible(k, p)
  }

  ghost function Register(tables: Tables, config: RouterConfig, globals: seq<Middleware>,
                          verb: string, path: string, handler: Handler,
                          middlewares: seq<Middleware>): Option<Tables>
  {
    var table := TableOf(tables, verb);
    var p := Tokens(config, path);
    if Conflicts(table, p) then None
    else
      var all := globals + middlewares;
      var route := Route(verb, Normalize(path), Compiled(handler, all), all);
      Some(tables[verb := table[p := route]])
  }

  datatype Capture = Capture(key: string, value: string)

  /** The pattern chosen, if any, and every capture appended on the way. */
  datatype SearchResult = SearchResult(pattern: Option<Pattern>, captures: seq<Capture>)

  ghost function ParamAt(table: Table, p: Pattern): (name: Option<string>)
    ensures name.Some? ==> Extends(table, p, Param(name.value))
    ensures name.None? ==> forall x :: !Extends(table, p, Param(x))
  {
    if exists x :: Extends(table, p, Param(x)) then
      var x :| Extends(table, p, Param(x)); Some(x)
    else None
  }

  ghost function WildcardAt(table: Table, p: Pattern): (name: Option<string>)
    ensures name.Some? ==> Extends(table, p, Wildcard(name.value))
    ensures name.None? ==> forall x :: !Extends(table, p, Wildcard(x))
  {
    if exists x :: Extends(table, p, Wildcard(x)) then
      var x :| Extends(table, p, Wildcard(x)); Some(x)
    else None
  }

  /** Where a segment leads from `p`: static before parameter before wildcard. */
  datatype Step = ToStatic | ToParam(name: string) | ToWildcard(name: string) | Nowhere

  ghost function NextStep(table: Table, p: Pattern, part: string): Step {
    if Extends(table, p, Static(part)) then ToStatic
    else
      match ParamAt(table, p)
      case Some(name) => ToParam(name)
      case None =>
        match WildcardAt(table, p)
        case Some(name) => ToWildcard(name)
        case None => Nowhere
  }

  function StepCaptures(step: Step, part: string, left: string): seq<Capture> {
    match step
    case ToParam(name) => [Capture(name, part)]
    case ToWildcard(name) => [Capture(name, left)]
    case _ => []
  }

  predicate Moves(step: Step) {
    step.ToStatic? || step.ToParam?
  }

  function Via(step: Step, part: string): Token
    requires Moves(step)
  {
    if step.ToStatic? then Static(part) else Param(step.name)
  }

  /** A step that does not move on ends the search: a wildcard takes all that is left. */
  function Stopped(table: Table, p: Pattern, step: Step): Option<Pattern> {
    if step.ToWildcard? && p + [Wildcard(step.name)] in table then Some(p + [Wildcard(step.name)]) else None
  }

  ghost function SearchEnd(table: Table, p: Pattern): SearchResult {
    if p in table then SearchResult(Some(p), [])
    else
      match WildcardAt(table, p)
      case None => SearchResult(None, [])
      case Some(name) => SearchResult(Stopped(table, p, ToWildcard(name)), [Capture(name, "")])
  }

  /** Greedy search of the table for the rest `s` of a path, `p` having been followed. */
  ghost function Search(table: Table, p: Pattern, s: string): SearchResult
    decreases |s|
  {
    if s == "" then SearchEnd(table, p)
    else
      var (part, rest) := Cut(s);
      if part == "" then Search(table, p, rest)
      else
        var step := NextStep(table, p, part);
        var captures := StepCaptures(step, part, s);
        if Moves(step) then Prepend(captures, Search(table, p + [Via(step, part)], rest))
        else SearchResult(Stopped(table, p, step), captures)
  }

  function Prepend(captures: seq<Capture>, r: SearchResult): SearchResult {
    r.(captures := captures + r.captures)
  }

  /** A whole lookup: the search of the path with one slash dropped from each end. */
  ghost function Lookup(table: Table, path: string): SearchResult {
    Search(table, [], StripOne(path))
  }

  /** The two errors of `Find` differ: an unknown method has no root to search. */
  datatype FindResult = Found(route: Route) | RouteNotFound | MethodNotFound

  ghost function FindIn(tables: Tables, verb: string, path: string): FindResult {
    if verb !in tables then MethodNotFound
    else
      match RouteAt(tables[verb], Lookup(tables[verb], path).pattern)
      case None => RouteNotFound
      case Some(route) => Found(route)
  }

  /** What `Find` appends to the context, found or not. */
  ghost function CapturesIn(tables: Tables, verb: string, path: string): seq<Capture> {
    if verb !in tables then [] else Lookup(tables[verb], path).captures
  }

  function RouteAt(table: Table, k: Option<Pattern>): Option<Route> {
    match k
    case None => None
    case Some(k) => if k in table then Some(table[k]) else None
  }

  lemma AppendIsAssociative<T>(a: seq<T>, b: seq<T>, c: seq<T>)
    ensures (a + b) + c == a + (b + c)
    ensures c == [] ==> (a + b) + c == a + b && b + c == b
  {
  }

  /** A search that has reached `p` with the rest `s` of the path and captures `seen`. */
  ghost predicate Continues(table: Table, path: string, seen: seq<Capture>, p: Pattern, s: string) {
    Search(table, [], path) == Prepend(seen, Search(table, p, s))
  }

  lemma StartSearch(table: Table, path: string)
    ensures Continues(table, path, [], [], path)
  {
    assert [] + Search(table, [], path).captures == Search(table, [], path).captures;
  }

  /** The search is over, with this route, if any, and these captures. */
  ghost predicate Concludes(table: Table, path: string, found: Option<Route>, captures: seq<Capture>) {
    var r := Search(table, [], path);
    found == RouteAt(table, r.pattern) && captures == r.captures
  }

  lemma EndSearch(table: Table, path: string, seen: seq<Capture>, p: Pattern)
    requires Continues(table, path, seen, p, "")
    ensures var r := SearchEnd(table, p);
            Concludes(table, path, RouteAt(table, r.pattern), seen + r.captures)
  {
  }

  lemma ContinueSearch(table: Table, path: string, seen: seq<Capture>, p: Pattern, s: string)
    requires Continues(table, path, seen, p, s) && s != ""
    ensures var (part, rest) := Cut(s);
            if part == "" then Continues(table, path, seen, p, rest)
            else
              var step := NextStep(table, p, part);
              var captures := StepCaptures(step, part, s);
              if Moves(step) then Continues(table, path, seen + captures, p + [Via(step, part)], rest)
              else Concludes(table, path, RouteAt(table, Stopped(table, p, step)), seen + captures)
  {
    var (part, rest) := Cut(s);
    if part != "" {
      var step := NextStep(table, p, part);
      var captures := StepCaptures(step, part, s);
      if Moves(step) {
        AppendIsAssociative(seen, captures, Search(table, p + [Via(step, part)], rest).captures);
      }
    }
  }

  lemma {:induction false} FoundIsRegistered(table: Table, p: Pattern, s: string)
    requires Search(table, p, s).pattern.Some?
    ensures Search(table, p, s).pattern.value in table
    decreases |s|
  {
    if s != "" {
      var (part, rest) := Cut(s);
      if part == "" {
        FoundIsRegistered(table, p, rest);
      } else {
        var step := NextStep(table, p, part);
        if Moves(step) { FoundIsRegistered(table, p + [Via(step, part)], rest); }
      }
    }
  }
}
