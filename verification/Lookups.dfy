/** What a request sees of a registered route, in terms of the strings of its path: the
    default parameter and wildcard syntax, the values captured, the errors, what is stored,
    and how the order of a listing agrees with the order of preference. */
module Lookups {
  import opened Strings
  import opened Handlers
  import opened Patterns
  import opened RouteTable
  import opened TrieShape
  import opened Listings
  import opened Matching
  import opened Contexts
  import opened Mounts

  // ----- The default syntax -----

  /** ":x" and "{x}" are the parameter x, "*x" is the wildcard x, all else is itself. */
  lemma DefaultSyntax(segment: string, x: string)
    ensures Classify(DefaultRouterConfig(), segment) == Param(x)
       <==> segment == ":" + x || (x != "" && segment == "{" + x + "}")
    ensures Classify(DefaultRouterConfig(), segment) == Wildcard(x) <==> segment == "*" + x
    ensures Classify(DefaultRouterConfig(), segment) == Static(x)
       <==> x == segment && (forall y :: segment != ":" + y && segment != "*" + y)
            && (forall y :: y != "" ==> segment != "{" + y + "}")
  {
    if segment != "" {
      var inner := segment[1..];
      assert segment == [segment[0]] + inner;
      if |segment| > 2 && segment[0] == '{' && segment[|segment| - 1] == '}' {
        assert segment == "{" + segment[1..|segment| - 1] + "}";
      }
      assert segment[0] == ':' ==> segment == ":" + inner;
      assert segment[0] == '*' ==> segment == "*" + inner;
    }
    assert (":" + x)[1..] == x && ("*" + x)[1..] == x;
    assert ("{" + x + "}")[1..|x| + 1] == x;
  }

  /** With other parsers the parameter parser decides first, and a parser that is nil declines. */
  lemma AnySyntax(config: RouterConfig, segment: string, x: string)
    ensures Classify(config, segment) == Param(x) <==>
              config.paramParser.Some? && config.paramParser.value(segment) == (true, x)
    ensures Classify(config, segment) == Wildcard(x) <==>
              && (config.paramParser.Some? ==> !config.paramParser.value(segment).0)
              && config.wildcardParser.Some? && config.wildcardParser.value(segment) == (true, x)
  {
  }

  // ----- The value of a wildcard -----

  /** Strings that start elsewhere than at a slash, and what is left of them after some bytes. */
  predicate IsRest(value: string, s: string) {
    && |value| <= |s| && value == s[|s| - |value|..]
    && (value == "" || value[0] != '/')
  }

  /** The last capture is such a rest. */
  ghost predicate TakesRest(r: SearchResult, s: string) {
    r.captures != [] && IsRest(r.captures[|r.captures| - 1].value, s)
  }

  lemma RestOfCut(s: string, value: string)
    requires s != "" && IsRest(value, Cut(s).1)
    ensures IsRest(value, s)
  {
    var rest := Cut(s).1;
    assert rest == s[|s| - |rest|..];
    assert rest[|rest| - |value|..] == s[|s| - |value|..];
  }

  lemma TakesRestOfCut(captures: seq<Capture>, r: SearchResult, s: string)
    requires s != "" && TakesRest(r, Cut(s).1)
    ensures TakesRest(r, s) && TakesRest(Prepend(captures, r), s)
  {
    RestOfCut(s, r.captures[|r.captures| - 1].value);
  }

  lemma {:induction false} WildcardTakesRest(table: Table, p: Pattern, s: string, k: Pattern)
    requires Search(table, p, s).pattern == Some(k) && EndsInWildcard(k) && !EndsInWildcard(p)
    ensures TakesRest(Search(table, p, s), s)
    decreases |s|
  {
    if s != "" {
      var (part, rest) := Cut(s);
      if part == "" {
        WildcardTakesRest(table, p, rest, k);
        TakesRestOfCut([], Search(table, p, rest), s);
      } else {
        var step := NextStep(table, p, part);
        if Moves(step) {
          var q := p + [Via(step, part)];
          WildcardTakesRest(table, q, rest, k);
          TakesRestOfCut(StepCaptures(step, part, s), Search(table, q, rest), s);
        }
      }
    }
  }

  /** At most one slash goes from each end. */
  lemma StripOneIs(s: string)
    requires s == "" || (s[0] != '/' && s[|s| - 1] != '/')
    ensures StripOne(s) == StripOne("/" + s) == s
    ensures s != "" ==> StripOne(s + "/") == StripOne("/" + s + "/") == s
    ensures s != "" ==> StripOne("//" + s) == "/" + s && StripOne(s + "//") == s + "/"
  {
    assert ("/" + s)[1..] == s && ("//" + s)[1..] == "/" + s && ("/" + s + "/")[1..] == s + "/";
    assert (s + "/")[..|s|] == s;
    assert (s + "//")[..|s + "//"| - 1] == s + "/";
  }

  /** How many bytes are not slashes. */
  function Letters(s: string): nat {
    if s == "" then 0 else (if s[0] == '/' then 0 else 1) + Letters(s[1..])
  }

  function TotalLength(segs: seq<string>): nat {
    if segs == [] then 0 else |segs[0]| + TotalLength(segs[1..])
  }

  lemma {:induction false} LettersOfConcat(a: string, b: string)
    ensures Letters(a + b) == Letters(a) + Letters(b)
  {
    if a == "" {
      assert a + b == b;
    } else {
      assert (a + b)[1..] == a[1..] + b;
      LettersOfConcat(a[1..], b);
    }
  }

  lemma {:induction false} LettersWithoutSlash(a: string)
    requires '/' !in a
    ensures Letters(a) == |a|
  {
    if a != "" {
      LettersWithoutSlash(a[1..]);
    }
  }

  lemma LettersOfCut(s: string)
    requires s != ""
    ensures Letters(s) == Letters(Cut(s).0) + Letters(Cut(s).1)
  {
    var i := IndexByte(s, '/');
    if i >= 0 {
      var tail := s[i..];
      assert s == s[..i] + tail && tail[1..] == s[i + 1..] && tail[0] == '/';
      LettersOfConcat(s[..i], tail);
    }
  }

  lemma {:induction false} LettersAreSegments(s: string)
    ensures Letters(s) == TotalLength(Segments(s))
    decreases |s|
  {
    if s != "" {
      var (part, rest) := Cut(s);
      LettersAreSegments(rest);
      LettersWithoutSlash(part);
      LettersOfCut(s);
      assert part != "" ==> ([part] + Segments(rest))[1..] == Segments(rest);
    }
  }

  /** The segments and the end of a string determine where a rest of it begins. */
  lemma RestIsDetermined(a: string, b: string, s: string)
    requires IsRest(a, s) && IsRest(b, s) && Segments(a) == Segments(b)
    ensures a == b
  {
    LettersAreSegments(a);
    LettersAreSegments(b);
    if |a| < |b| {
      LongerHasMore(a, b, s);
    } else if |b| < |a| {
      LongerHasMore(b, a, s);
    }
  }

  lemma LongerHasMore(a: string, b: string, s: string)
    requires IsRest(a, s) && IsRest(b, s) && |a| < |b|
    ensures Letters(a) < Letters(b)
  {
    var more := b[..|b| - |a|];
    assert b == more + a;
    LettersOfConcat(more, a);
  }

  lemma {:induction false} LastSubstituted(k: Pattern, captures: seq<Capture>, segs: seq<string>)
    requires EndsInWildcard(k) && (forall i :: 0 <= i < |k| - 1 ==> !k[i].Wildcard?)
    requires |captures| == |Dynamic(k)| && Substitute(k, captures) == segs
    ensures captures != [] && |k| - 1 <= |segs|
    ensures Segments(captures[|captures| - 1].value) == segs[|k| - 1..]
  {
    var rest := k[1..];
    if |k| == 1 {
      assert Dynamic(rest) == [] && Substitute(rest, captures[1..]) == [];
    } else if k[0].Static? {
      LastSubstituted(rest, captures, segs[1..]);
    } else {
      LastSubstituted(rest, captures[1..], segs[1..]);
      assert captures[1..][|captures| - 2] == captures[|captures| - 1];
    }
  }

  /** The rest of the path after the segments of the other tokens, where at most one slash is
      gone from each end of the path, and which begins elsewhere than at a slash. */
  predicate IsRestFor(k: Pattern, path: string, value: string) {
    && 0 < |k| <= |Segments(path)| + 1 && Segments(value) == Segments(path)[|k| - 1..]
    && IsRest(value, StripOne(path))
  }

  /** A lookup that finds a pattern ending in a wildcard captures that for it. */
  lemma WildcardTakes(table: Table, path: string, k: Pattern)
    requires Consistent(table) && Lookup(table, path).pattern == Some(k) && EndsInWildcard(k)
    ensures var captures := Lookup(table, path).captures;
            captures != [] && IsRestFor(k, path, captures[|captures| - 1].value)
  {
    WildcardTakesRest(table, [], StripOne(path), k);
    LookupIsExact(table, path, k);
    LookupCaptures(table, path, k);
    FoundHasOneWildcard(table, k, Segments(path));
    LastSubstituted(k, Lookup(table, path).captures, Segments(path));
  }

  lemma FoundHasOneWildcard(table: Table, k: Pattern, segs: seq<string>)
    requires Wins(table, k, segs) && EndsInWildcard(k)
    ensures forall i :: 0 <= i < |k| - 1 ==> !k[i].Wildcard?
  {
    forall i | 0 <= i < |k| - 1 ensures !k[i].Wildcard? {
      assert Accepts(k[i], segs[i]);
    }
  }

  /** And there is only one such value. */
  lemma WildcardValue(table: Table, path: string, k: Pattern, value: string)
    requires Consistent(table) && Lookup(table, path).pattern == Some(k) && EndsInWildcard(k)
    ensures var captures := Lookup(table, path).captures;
            captures != [] && (captures[|captures| - 1].value == value <==> IsRestFor(k, path, value))
  {
    WildcardTakes(table, path, k);
    if IsRestFor(k, path, value) {
      var captures := Lookup(table, path).captures;
      RestIsDetermined(value, captures[|captures| - 1].value, StripOne(path));
    }
  }

  // ----- One route below a static prefix -----

  lemma {:induction false} DynamicOfStatic(p: Pattern, t: Token)
    requires AllStatic(p) && !t.Static?
    ensures Dynamic(p + [t]) == [t]
  {
    if p == [] {
      assert p + [t] == [t];
    } else {
      assert (p + [t])[1..] == p[1..] + [t];
      DynamicOfStatic(p[1..], t);
    }
  }

  lemma {:induction false} SubstituteInStatic(p: Pattern, t: Token, captures: seq<Capture>, segs: seq<string>)
    requires AllStatic(p) && !t.Static? && |captures| == 1 && |Dynamic(p + [t])| == 1
    requires Substitute(p + [t], captures) == segs && |p| <= |segs|
    ensures segs[|p|..] == if t.Param? then [captures[0].value] else Segments(captures[0].value)
  {
    var k := p + [t];
    if p == [] {
      assert k == [t] && k[1..] == [];
      assert Substitute(k[1..], captures[1..]) == [];
    } else {
      assert k[1..] == p[1..] + [t];
      SubstituteInStatic(p[1..], t, captures, segs[1..]);
    }
  }

  lemma KeyIsPrefix(table: Table, p: Pattern)
    ensures p in table ==> HasPrefix(table, p)
  {
    assert p <= p;
  }

  lemma PrefixAt(k: Pattern, q: Pattern, p: Pattern)
    requires |p| <= |q| && p <= k && q[..|p|] == k[..|p|]
    ensures p <= q
  {
  }

  lemma NewBelowIsFree(table: Table, p: Pattern, t: Token)
    requires AllStatic(p) && NothingAtOrBelow(table, p)
    ensures !Conflicts(table, p + [t])
  {
    var k := p + [t];
    forall q | q in table ensures Compatible(q, k) {
      forall i | 0 <= i < |q| && i < |k| && q[..i] == k[..i] ensures !SameDynamicKind(q[i], k[i]) {
        if i == |p| {
          PrefixAt(k, q, p);
        }
      }
    }
  }

  /** The table with one more route, right below a static prefix with nothing at or below it. */
  lemma OneRouteIsFound(table: Table, p: Pattern, t: Token, route: Route, segs: seq<string>, more: seq<string>)
    requires Consistent(table) && AllStatic(p) && NothingAtOrBelow(table, p) && !t.Static?
    requires Covers(p, segs) && segs[|p|..] == more && (t.Param? ==> |more| == 1)
    ensures Consistent(table[p + [t] := route]) && Wins(table[p + [t] := route], p + [t], segs)
  {
    var k, one := p + [t], table[p + [t] := route];
    NewBelowIsFree(table, p, t);
    ConsistentOnceFiled(table, k, route);
    forall s | Extends(one, p, s) ensures s == t {
      var q :| q in one && p + [s] <= q;
      assert p <= q && q[|p|] == (p + [s])[|p|];
    }
    forall i | 0 <= i < |k| ensures !Overtaken(one, k, segs, i) {
      assert k[..|p|] == p;
    }
    KeyIsPrefix(table, p);
    assert p != k && |segs| == |p| + |more|;
  }

  lemma OneRouteCaptures(table: Table, p: Pattern, t: Token, route: Route, path: string)
    requires Consistent(table) && AllStatic(p) && NothingAtOrBelow(table, p) && !t.Static?
    requires Covers(p, Segments(path)) && (t.Param? ==> |Segments(path)| == |p| + 1)
    ensures var one := table[p + [t] := route];
            var found := Lookup(one, path);
            && found.pattern == Some(p + [t]) && |found.captures| == 1 && found.captures[0].key == t.name
            && Segments(path)[|p|..]
               == if t.Param? then [found.captures[0].value] else Segments(found.captures[0].value)
  {
    var one, segs := table[p + [t] := route], Segments(path);
    OneRouteIsFound(table, p, t, route, segs, segs[|p|..]);
    LookupIsExact(one, path, p + [t]);
    LookupCaptures(one, path, p + [t]);
    DynamicOfStatic(p, t);
    SubstituteInStatic(p, t, Lookup(one, path).captures, segs);
  }

  lemma CoversOwn(prefix: string, more: string)
    requires AllStatic(Tokens(DefaultRouterConfig(), prefix))
    ensures var p := Tokens(DefaultRouterConfig(), prefix);
            && Covers(p, Segments(prefix + "/" + more))
            && Segments(prefix + "/" + more)[|p|..] == Segments(more)
  {
    var config := DefaultRouterConfig();
    SegmentsOfConcat(prefix, more);
    var p := Tokens(config, prefix);
    forall i | 0 <= i < |p| ensures p[i] == Static(Segments(prefix + "/" + more)[i]) {
      assert p[i] == Classify(config, Segments(prefix)[i]);
      assert Segments(prefix + "/" + more)[i] == Segments(prefix)[i];
    }
  }

  /** Registering prefix/:name (or prefix/{name}) below a static prefix and asking for
      prefix/value gives the handler that value under that name. */
  lemma ParamEndToEnd(table: Table, prefix: string, token: string, name: string, value: string, route: Route)
    requires token == ":" + name || (name != "" && token == "{" + name + "}")
    requires '/' !in name && IsSegment(value)
    requires Consistent(table) && AllStatic(Tokens(DefaultRouterConfig(), prefix))
    requires NothingAtOrBelow(table, Tokens(DefaultRouterConfig(), prefix))
    ensures var k := Tokens(DefaultRouterConfig(), prefix + "/" + token);
            var found := Lookup(table[k := route], prefix + "/" + value);
            found.pattern == Some(k) && ParamValue(found.captures, name) == value
  {
    var config := DefaultRouterConfig();
    TokensBelow(prefix, token);
    DefaultSyntax(token, name);
    CoversOwn(prefix, value);
    SegmentsWithoutSlash(value);
    OneRouteCaptures(table, Tokens(config, prefix), Param(name), route, prefix + "/" + value);
  }

  lemma TokensBelow(prefix: string, token: string)
    requires IsSegment(token)
    ensures var config := DefaultRouterConfig();
            Tokens(config, prefix + "/" + token) == Tokens(config, prefix) + [Classify(config, token)]
  {
    var config := DefaultRouterConfig();
    SegmentsOfConcat(prefix, token);
    SegmentsWithoutSlash(token);
    ClassifyAllOfConcat(config, Segments(prefix), [token]);
    assert ClassifyAll(config, [token]) == [Classify(config, token)];
  }

  /** Registering the wildcard *name below a prefix and asking for prefix/rest, slashes inside
      and all, gives exactly that rest. */
  lemma WildcardEndToEnd(table: Table, prefix: string, name: string, rest: string, route: Route)
    requires '/' !in name && rest != "" && rest[0] != '/' && rest[|rest| - 1] != '/'
    requires Consistent(table) && AllStatic(Tokens(DefaultRouterConfig(), prefix))
    requires NothingAtOrBelow(table, Tokens(DefaultRouterConfig(), prefix))
    ensures var k := Tokens(DefaultRouterConfig(), prefix + "/*" + name);
            var found := Lookup(table[k := route], prefix + "/" + rest);
            found.pattern == Some(k) && ParamValue(found.captures, name) == rest
  {
    var config := DefaultRouterConfig();
    assert prefix + "/*" + name == prefix + "/" + ("*" + name);
    TokensBelow(prefix, "*" + name);
    DefaultSyntax("*" + name, name);
    CoversOwn(prefix, rest);
    var p, path := Tokens(config, prefix), prefix + "/" + rest;
    var one := table[p + [Wildcard(name)] := route];
    OneRouteCaptures(table, p, Wildcard(name), route, path);
    WildcardTakesRest(one, [], StripOne(path), p + [Wildcard(name)]);
    RestOfPath(prefix, rest);
    RestIsDetermined(Lookup(one, path).captures[0].value, rest, StripOne(path));
  }

  lemma RestOfPath(prefix: string, rest: string)
    requires rest != "" && rest[0] != '/' && rest[|rest| - 1] != '/'
    ensures IsRest(rest, StripOne(prefix + "/" + rest))
  {
    var path := prefix + "/" + rest;
    assert StripLast(StripFirst(path)) == StripFirst(path);
    assert StripFirst(path)[|StripFirst(path)| - |rest|..] == rest;
  }

  /** A route that is accepted and that the search finds answers the request. */
  lemma AcceptedAnswers(tables: Tables, globals: seq<Middleware>, verb: string, path: string, handler: Handler,
                        own: seq<Middleware>, request: string)
    requires var k := Tokens(DefaultRouterConfig(), path);
             var all := globals + own;
             var one := TableOf(tables, verb)[k := Route(verb, Normalize(path), Compiled(handler, all), all)];
             !Conflicts(TableOf(tables, verb), k) && Lookup(one, request).pattern == Some(k)
    ensures var k := Tokens(DefaultRouterConfig(), path);
            var all := globals + own;
            var one := TableOf(tables, verb)[k := Route(verb, Normalize(path), Compiled(handler, all), all)];
            var after := Register(tables, DefaultRouterConfig(), globals, verb, path, handler, own);
            && after.Some? && Answers(after.value, verb, request, path, handler, all)
            && CapturesIn(after.value, verb, request) == Lookup(one, request).captures
  {
    CompiledEvents(handler, globals + own, []);
    StoredPath(path);
  }

  /** So on the router: such a route is accepted, and a request for prefix/value finds it and
      reads the value under the name. */
  lemma ParamRouteWorks(tables: Tables, globals: seq<Middleware>, verb: string, prefix: string, token: string,
                        name: string, value: string, handler: Handler, own: seq<Middleware>)
    requires token == ":" + name || (name != "" && token == "{" + name + "}")
    requires '/' !in name && IsSegment(value)
    requires WellFiled(DefaultRouterConfig(), tables) && AllStatic(Tokens(DefaultRouterConfig(), prefix))
    requires NothingAtOrBelow(TableOf(tables, verb), Tokens(DefaultRouterConfig(), prefix))
    ensures var path := prefix + "/" + token;
            var after := Register(tables, DefaultRouterConfig(), globals, verb, path, handler, own);
            && after.Some?
            && Answers(after.value, verb, prefix + "/" + value, path, handler, globals + own)
            && ParamValue(CapturesIn(after.value, verb, prefix + "/" + value), name) == value
  {
    var config, table := DefaultRouterConfig(), TableOf(tables, verb);
    TokensBelow(prefix, token);
    DefaultSyntax(token, name);
    NewBelowIsFree(table, Tokens(config, prefix), Param(name));
    var all := globals + own;
    var route := Route(verb, Normalize(prefix + "/" + token), Compiled(handler, all), all);
    ParamEndToEnd(table, prefix, token, name, value, route);
    AcceptedAnswers(tables, globals, verb, prefix + "/" + token, handler, own, prefix + "/" + value);
  }

  /** And a request for prefix/rest reads the rest under the name of the wildcard. */
  lemma WildcardRouteWorks(tables: Tables, globals: seq<Middleware>, verb: string, prefix: string,
                           name: string, rest: string, handler: Handler, own: seq<Middleware>)
    requires '/' !in name && rest != "" && rest[0] != '/' && rest[|rest| - 1] != '/'
    requires WellFiled(DefaultRouterConfig(), tables) && AllStatic(Tokens(DefaultRouterConfig(), prefix))
    requires NothingAtOrBelow(TableOf(tables, verb), Tokens(DefaultRouterConfig(), prefix))
    ensures var path := prefix + "/*" + name;
            var after := Register(tables, DefaultRouterConfig(), globals, verb, path, handler, own);
            && after.Some?
            && Answers(after.value, verb, prefix + "/" + rest, path, handler, globals + own)
            && ParamValue(CapturesIn(after.value, verb, prefix + "/" + rest), name) == rest
  {
    var config, table := DefaultRouterConfig(), TableOf(tables, verb);
    assert prefix + "/*" + name == prefix + "/" + ("*" + name);
    TokensBelow(prefix, "*" + name);
    DefaultSyntax("*" + name, name);
    NewBelowIsFree(table, Tokens(config, prefix), Wildcard(name));
    var all := globals + own;
    var route := Route(verb, Normalize(prefix + "/*" + name), Compiled(handler, all), all);
    WildcardEndToEnd(table, prefix, name, rest, route);
    AcceptedAnswers(tables, globals, verb, prefix + "/*" + name, handler, own, prefix + "/" + rest);
  }

  /** The path a route is stored under: the one given, with a slash in front if it had none. */
  predicate StoredAs(stored: string, path: string) {
    || (stored == path && path != "" && path[0] == '/')
    || (stored == "/" + path && (path == "" || path[0] != '/'))
  }

  lemma StoredPath(path: string)
    ensures StoredAs(Normalize(path), path)
  {
  }

  /** A request finds the route of that path, and runs its handler inside the layers. */
  ghost predicate Answers(tables: Tables, verb: string, request: string, path: string, handler: Handler,
                          layers: seq<Middleware>)
  {
    var result := FindIn(tables, verb, request);
    && result.Found? && result.route.verb == verb && StoredAs(result.route.path, path)
    && result.route.middlewares == layers
    && Events(result.route.handler, []) == Entering(layers) + Events(handler, []) + Leaving(layers)
  }

  // ----- The answers of Find -----

  /** Whatever was registered: a request for a method without routes is told apart from one
      that no route wins; otherwise the route that wins is found. */
  lemma FindAnswers(config: RouterConfig, tables: Tables, verb: string, path: string, route: Route)
    requires WellFiled(config, tables)
    ensures FindIn(tables, verb, path).MethodNotFound? <==> forall k :: !Registered(tables, Position(verb, k))
    ensures FindIn(tables, verb, path).RouteNotFound? <==>
              && (exists k :: Registered(tables, Position(verb, k)))
              && forall k :: !Wins(TableOf(tables, verb), k, Segments(path))
    ensures FindIn(tables, verb, path) == Found(route) <==>
              exists k :: Wins(TableOf(tables, verb), k, Segments(path)) && TableOf(tables, verb)[k] == route
  {
    var table, segs := TableOf(tables, verb), Segments(path);
    if verb in tables {
      var any :| any in table;
      assert Registered(tables, Position(verb, any));
      var found := Lookup(table, path).pattern;
      if k :| Wins(table, k, segs) {
        LookupIsExact(table, path, k);
      }
      if found.Some? {
        LookupIsExact(table, path, found.value);
        forall k | Wins(table, k, segs) ensures k == found.value {
          LookupIsExact(table, path, k);
        }
      }
    }
  }

  // ----- Listing order and preference -----

  /** What a search prefers is listed first. */
  lemma BetterIsLess(a: Pattern, b: Pattern)
    requires Better(a, b)
    ensures PatternLess(a, b)
  {
    var i :| 0 <= i <= |a| && i <= |b| && a[..i] == b[..i] && Rank(a, i) > Rank(b, i);
    assert i < |b| && (i == |a| || TokenLess(a[i], b[i]));
  }

  lemma PreferredIsListedFirst(tables: Tables, entries: seq<Position>, i: nat, j: nat)
    requires ListsAll(tables, entries) && i < |entries| && j < |entries|
    requires entries[i].verb == entries[j].verb && Better(entries[i].pattern, entries[j].pattern)
    ensures i < j
  {
    BetterIsLess(entries[i].pattern, entries[j].pattern);
    assert PositionLess(entries[i], entries[j]);
    PositionLessIsStrict(entries[i], entries[j]);
  }

  /** Methods are listed in byte order, and so are static tokens after the same prefix. */
  lemma ListedInByteOrder(tables: Tables, entries: seq<Position>, i: nat, j: nat)
    requires ListsAll(tables, entries) && i < |entries| && j < |entries|
    ensures ByteLess(entries[i].verb, entries[j].verb) ==> i < j
    ensures entries[i].verb == entries[j].verb && SplitsAtStatic(entries[i].pattern, entries[j].pattern) ==> i < j
  {
    LessIsByteLess(entries[i].verb, entries[j].verb);
    if entries[i].verb == entries[j].verb && SplitsAtStatic(entries[i].pattern, entries[j].pattern) {
      SplitIsLess(entries[i].pattern, entries[j].pattern);
    }
    if PositionLess(entries[i], entries[j]) {
      PositionLessIsStrict(entries[i], entries[j]);
    }
  }

  /** The patterns part at a static token each, the first with the lesser key. */
  ghost predicate SplitsAtStatic(a: Pattern, b: Pattern) {
    exists n: nat :: SplitsAt(a, b, n)
  }

  ghost predicate SplitsAt(a: Pattern, b: Pattern, n: nat) {
    && n < |a| && n < |b| && a[..n] == b[..n] && a[n].Static? && b[n].Static?
    && ByteLess(a[n].segment, b[n].segment)
  }

  lemma SplitIsLess(a: Pattern, b: Pattern)
    requires SplitsAtStatic(a, b)
    ensures PatternLess(a, b)
  {
    var n: nat :| SplitsAt(a, b, n);
    LessIsByteLess(a[n].segment, b[n].segment);
    assert TokenLess(a[n], b[n]);
  }

  /** Which routes a listing has first, by example. */
  lemma GetBeforePost()
    ensures ByteLess("GET", "POST") && !ByteLess("POST", "GET")
  {
    assert LessAt("GET", "POST", 0);
    LessIsByteLess("GET", "POST");
    LessIsByteLess("POST", "GET");
    LessIsStrict("GET", "POST");
  }
}
