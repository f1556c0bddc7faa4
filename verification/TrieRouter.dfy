/** The trie router (routers/trie.go): a heap of nodes changed in place by `Add`, walked
    by `Find` and listed by `Routes`, proved to stand for the flat tables of RouteTable. */
module TrieRouters {
  import opened Strings
  import opened Handlers
  import opened Patterns
  import opened RouteTable
  import opened TrieShape
  import opened Listings
  import opened Contexts

  /** No field of the node has changed. */
  twostate predicate Untouched(n: Node)
    reads n
  {
    n.View() == old(n.View())
  }

  twostate predicate AllUntouched(nodes: map<Position, Node>)
    reads nodes.Values
  {
    forall a {:trigger Untouched(nodes[a])} :: a in nodes ==> Untouched(nodes[a])
  }

  /** The context, if there is one, has those captures appended and is otherwise the same. */
  twostate predicate Gained(ctx: Context?, new captures: seq<Capture>)
    reads ctx
  {
    ctx != null ==>
      && ctx.params == old(ctx.params) + captures
      && ctx.request == old(ctx.request) && ctx.keys == old(ctx.keys)
  }

  class TrieRouter {
    var root: map<string, Node>
    var globalMiddlewares: seq<Middleware>
    const config: RouterConfig

    /** The tables the trie stands for, the node at each position and its fields. */
    ghost var tables: Tables
    ghost var nodes: map<Position, Node>
    ghost var views: map<Position, NodeView>
    ghost var repr: set<Node>

    /** The heap trie represents exactly the flat tables. */
    ghost predicate Valid()
      reads this, repr
    {
      Represents(config, root, tables, nodes, views, repr)
    }

    ghost predicate Walking(at: Position)
      reads this, repr
    {
      OnWalk(tables, nodes, views, repr, at)
    }

    ghost predicate Ready(at: Position)
      reads this, repr
    {
      ReadyAt(root, tables, nodes, views, repr, at)
    }

    constructor (config: RouterConfig)
      ensures Valid() && tables == map[] && nodes == map[]
      ensures this.config == config && globalMiddlewares == []
    {
      root := map[];
      globalMiddlewares := [];
      this.config := config;
      tables := map[];
      nodes := map[];
      views := map[];
      repr := {};
    }

    method Use(middleware: Middleware)
      requires Valid()
      modifies this`globalMiddlewares
      ensures Valid()
      ensures globalMiddlewares == old(globalMiddlewares) + [middleware]
    {
      globalMiddlewares := globalMiddlewares + [middleware];
    }

    /** Brings the views up to date with one changed node and its new leaf. */
    ghost method Record(at: Position, n: Node, child: Position, leaf: Node)
      requires views.Keys == nodes.Keys && at in nodes && nodes[at] == n
      requires forall a :: a in nodes ==> nodes[a] in repr && (a != at ==> nodes[a].View() == views[a])
      requires child !in nodes && leaf.View() == Leaf()
      modifies this`nodes, this`views, this`repr
      ensures nodes == old(nodes)[child := leaf]
      ensures views == old(views)[at := n.View()][child := Leaf()]
      ensures repr == old(repr) + {leaf}
      ensures InSync(nodes, views, repr)
    {
      nodes := nodes[child := leaf];
      views := views[at := n.View()][child := Leaf()];
      repr := repr + {leaf};
    }

    // The creating branches of `Add`'s loop: hang a new leaf below `n`.

    method HangParam(ghost at: Position, n: Node, paramName: string) returns (leaf: Node)
      requires Walking(at) && nodes[at] == n && n.paramNode == null
      modifies this`nodes, this`views, this`repr, n
      ensures Walking(Child(at, Param(paramName)))
      ensures NameFree(old(nodes), at, Param(paramName))
      ensures Hung(old(nodes), old(views), nodes, views, at, n.View(), Child(at, Param(paramName)), leaf)
      ensures fresh(leaf) && repr == old(repr) + {leaf}
      ensures n.paramNode == leaf && n.paramName == paramName
    {
      leaf := new Node();
      ghost var v := n.View().(paramNode := leaf, paramName := paramName);
      ParamHung(nodes, at, paramName, leaf, views[at]);
      GrownByLeaf(tables, nodes, views, at, Param(paramName), leaf, v);
      n.paramNode := leaf;
      n.paramName := paramName;
      Record(at, n, Child(at, Param(paramName)), leaf);
    }

    method HangWildcard(ghost at: Position, n: Node, wildcardName: string) returns (leaf: Node)
      requires Walking(at) && nodes[at] == n && n.catchAllNode == null
      modifies this`nodes, this`views, this`repr, n
      ensures Walking(Child(at, Wildcard(wildcardName)))
      ensures NameFree(old(nodes), at, Wildcard(wildcardName))
      ensures Hung(old(nodes), old(views), nodes, views, at, n.View(), Child(at, Wildcard(wildcardName)), leaf)
      ensures fresh(leaf) && repr == old(repr) + {leaf}
      ensures n.catchAllNode == leaf && n.catchAllName == wildcardName
    {
      leaf := new Node();
      ghost var v := n.View().(catchAllNode := leaf, catchAllName := wildcardName);
      WildcardHung(nodes, at, wildcardName, leaf, views[at]);
      GrownByLeaf(tables, nodes, views, at, Wildcard(wildcardName), leaf, v);
      n.catchAllNode := leaf;
      n.catchAllName := wildcardName;
      Record(at, n, Child(at, Wildcard(wildcardName)), leaf);
    }

    method HangStatic(ghost at: Position, n: Node, part: string) returns (leaf: Node)
      requires Walking(at) && nodes[at] == n && part !in n.children
      modifies this`nodes, this`views, this`repr, n
      ensures Walking(Child(at, Static(part)))
      ensures NameFree(old(nodes), at, Static(part))
      ensures Hung(old(nodes), old(views), nodes, views, at, n.View(), Child(at, Static(part)), leaf)
      ensures fresh(leaf) && repr == old(repr) + {leaf}
      ensures n.children == old(n.children)[part := leaf]
    {
      leaf := new Node();
      ghost var v := n.View().(children := n.children[part := leaf]);
      StaticHung(nodes, at, part, leaf, views[at]);
      GrownByLeaf(tables, nodes, views, at, Static(part), leaf, v);
      n.children := n.children[part := leaf];
      Record(at, n, Child(at, Static(part)), leaf);
    }

    // One part of `Add`'s loop: go to the child for a token, making it if need be, and give
    // up only on a sibling of the same dynamic kind under another name.

    method DescendParam(ghost at: Position, n: Node, paramName: string) returns (ok: bool, next: Node)
      requires Walking(at) && nodes[at] == n
      modifies this`nodes, this`views, this`repr, n
      ensures ok <==> NameFree(old(nodes), at, Param(paramName))
      ensures !ok ==> nodes == old(nodes) && views == old(views) && unchanged(n)
      ensures ok ==> Walking(Child(at, Param(paramName)))
      ensures ok ==> Descended(old(nodes), old(views), nodes, views, at, n.View(), Child(at, Param(paramName)), next)
      ensures ok && Child(at, Param(paramName)) in old(nodes) ==> unchanged(n)
      ensures ok && Child(at, Param(paramName)) !in old(nodes) ==> fresh(next)
      ensures repr == old(repr) || (ok && fresh(next) && repr == old(repr) + {next})
    {
      ghost var t := Param(paramName);
      assert Linked(nodes, at, views[at]);
      if n.paramNode == null {
        next := HangParam(at, n, paramName);
      } else {
        next := n.paramNode;
        if n.paramName == paramName { WalkedAlready(tables, nodes, views, at, t); }
        assert SameDynamicKind(Param(n.paramName), t) && Child(at, Param(n.paramName)) in nodes;
      }
      ok := n.paramName == paramName;
    }

    method DescendWildcard(ghost at: Position, n: Node, wildcardName: string) returns (ok: bool, next: Node)
      requires Walking(at) && nodes[at] == n
      modifies this`nodes, this`views, this`repr, n
      ensures ok <==> NameFree(old(nodes), at, Wildcard(wildcardName))
      ensures !ok ==> nodes == old(nodes) && views == old(views) && unchanged(n)
      ensures ok ==> Walking(Child(at, Wildcard(wildcardName)))
      ensures ok ==>
                Descended(old(nodes), old(views), nodes, views, at, n.View(), Child(at, Wildcard(wildcardName)), next)
      ensures ok && Child(at, Wildcard(wildcardName)) in old(nodes) ==> unchanged(n)
      ensures ok && Child(at, Wildcard(wildcardName)) !in old(nodes) ==> fresh(next)
      ensures repr == old(repr) || (ok && fresh(next) && repr == old(repr) + {next})
    {
      ghost var t := Wildcard(wildcardName);
      assert Linked(nodes, at, views[at]);
      if n.catchAllNode == null {
        next := HangWildcard(at, n, wildcardName);
      } else {
        next := n.catchAllNode;
        if n.catchAllName == wildcardName { WalkedAlready(tables, nodes, views, at, t); }
        assert SameDynamicKind(Wildcard(n.catchAllName), t) && Child(at, Wildcard(n.catchAllName)) in nodes;
      }
      ok := n.catchAllName == wildcardName;
    }

    method DescendStatic(ghost at: Position, n: Node, part: string) returns (next: Node)
      requires Walking(at) && nodes[at] == n
      modifies this`nodes, this`views, this`repr, n
      ensures Walking(Child(at, Static(part)))
      ensures Descended(old(nodes), old(views), nodes, views, at, n.View(), Child(at, Static(part)), next)
      ensures Child(at, Static(part)) in old(nodes) ==> unchanged(n)
      ensures Child(at, Static(part)) !in old(nodes) ==> fresh(next)
      ensures repr == old(repr) || (fresh(next) && repr == old(repr) + {next})
    {
      assert Linked(nodes, at, views[at]);
      if part !in n.children {
        next := HangStatic(at, n, part);
      } else {
        WalkedAlready(tables, nodes, views, at, Static(part));
        next := n.children[part];
      }
    }

    /** The three branches of the loop, by the kind of token. */
    method Descend(ghost at: Position, n: Node, token: Token) returns (ok: bool, next: Node)
      requires Walking(at) && nodes[at] == n
      modifies this`nodes, this`views, this`repr, n
      ensures ok <==> NameFree(old(nodes), at, token)
      ensures !ok ==> nodes == old(nodes) && views == old(views) && unchanged(n)
      ensures ok ==> Walking(Child(at, token))
      ensures ok ==> Descended(old(nodes), old(views), nodes, views, at, n.View(), Child(at, token), next)
      ensures ok && Child(at, token) in old(nodes) ==> unchanged(n)
      ensures ok && Child(at, token) !in old(nodes) ==> fresh(next)
      ensures repr == old(repr) || (ok && fresh(next) && repr == old(repr) + {next})
    {
      match token {
        case Param(paramName) => ok, next := DescendParam(at, n, paramName);
        case Wildcard(wildcardName) => ok, next := DescendWildcard(at, n, wildcardName);
        case Static(part) => next := DescendStatic(at, n, part); ok := true;
      }
    }

    /** One token of the walk. A node without links cannot clash, and what is made has none. */
    method Advance(ghost at: Position, n: Node, token: Token, ghost tokens: Pattern) returns (ok: bool, next: Node)
      requires Ready(at) && nodes[at] == n
      requires Child(at, token).pattern <= tokens
      modifies this`nodes, this`views, this`repr, n
      ensures !ok ==> Conflicts(TableOf(tables, at.verb), tokens)
      ensures ok ==> Ready(Child(at, token)) && nodes[Child(at, token)] == next
      ensures ok && Child(at, token) !in old(nodes) ==> fresh(next) && Bare(views[Child(at, token)])
      ensures repr == old(repr) || (ok && fresh(next) && repr == old(repr) + {next})
      ensures !ok || Child(at, token) in old(nodes) ==> nodes == old(nodes) && views == old(views)
      ensures !ok || Child(at, token) in old(nodes) ==> InSync(nodes, views, repr) && !Bare(views[at])
    {
      ghost var nodes0, views0 := nodes, views;
      LinkedChild(nodes, at, views[at], token);
      if !NameFree(nodes, at, token) {
        NameTaken(tables, nodes, views, at, token, tokens);
      }
      ok, next := Descend(at, n, token);
      if ok {
        NameStaysFree(tables, nodes0, at, token);
        RoutesKept(tables, nodes0, views0, nodes, views, root, at, n.View(), token, next);
      }
    }

    /** One part of the path, with the bookkeeping of the loop: `grown` says that a node has
        been made, so that the walk is at one without links. */
    method TakeToken(ghost at: Position, n: Node, token: Token, ghost tokens: Pattern, ghost grown: bool)
      returns (ok: bool, next: Node, ghost grown': bool)
      requires Ready(at) && nodes[at] == n && Child(at, token).pattern <= tokens
      requires grown ==> Bare(views[at])
      modifies this`nodes, this`views, this`repr, n
      ensures ok ==> Ready(Child(at, token)) && nodes[Child(at, token)] == next
      ensures !ok ==> Conflicts(TableOf(tables, at.verb), tokens) && InSync(nodes, views, repr)
      ensures if grown' then ok && fresh(next) && Bare(views[Child(at, token)])
              else !grown && nodes == old(nodes) && views == old(views)
      ensures forall o :: o in repr ==> o in old(repr) || fresh(o)
    {
      ghost var there := Child(at, token) in nodes;
      ok, next := Advance(at, n, token, tokens);
      grown' := ok && !there;
    }

    /** The loop of `Add`: walks the tokens of a path from the root of its method, as far
        as names allow. Once a node has been made everything below it is new, so a name
        can only clash before anything was changed. */
    method Walk(verb: string, parts: seq<string>, ghost tokens: Pattern) returns (ok: bool, n: Node)
      requires Ready(Position(verb, [])) && verb in root
      requires tokens == Walked(config, parts, |parts|)
      modifies this`nodes, this`views, this`repr, repr
      ensures ok ==> Ready(Position(verb, tokens)) && nodes[Position(verb, tokens)] == n
      ensures ok ==> n in old(repr) || fresh(n)
      ensures !ok ==> Conflicts(TableOf(tables, verb), tokens)
      ensures !ok ==> nodes == old(nodes) && views == old(views) && InSync(nodes, views, repr)
      ensures fresh(repr - old(repr))
    {
      ghost var at, grown := Position(verb, []), false;
      ok, n := true, root[verb];
      var i := 0;
      while i < |parts|
        invariant 0 <= i <= |parts|
        invariant at == Position(verb, Walked(config, parts, i))
        invariant Ready(at) && nodes[at] == n
        invariant forall o :: o in repr ==> o in old(repr) || fresh(o)
        invariant if grown then fresh(n) && Bare(views[at]) else nodes == old(nodes) && views == old(views)
      {
        var part := parts[i];
        i := i + 1;
        if part != "" {
          var token := Classify(config, part);
          ghost var child := Child(at, token);
          assert Walked(config, parts, i) == child.pattern;
          WalkedIsPrefix(config, parts, i, |parts|);
          ok, n, grown := TakeToken(at, n, token, tokens, grown);
          if !ok {
            return;
          }
          at := child;
        }
      }
    }

    /** The first part of `Add`: the root node of the method is there, made if need be. */
    method Plant(verb: string)
      requires Valid()
      modifies this`root, this`nodes, this`views, this`repr
      ensures verb in root && Ready(Position(verb, []))
      ensures TableOf(tables, verb) != map[] ==> root == old(root) && nodes == old(nodes) && views == old(views)
      ensures forall o :: o in repr ==> o in old(repr) || fresh(o)
    {
      ghost var at := Position(verb, []);
      RootIsWanted(config, root, tables, nodes, views, repr, verb);
      if verb !in root {
        var n := new Node();
        PlantedReady(root, tables, nodes, views, repr, verb, n);
        root, nodes, views, repr := root[verb := n], nodes[at := n], views[at := Leaf()], repr + {n};
      }
    }

    /** The middle of `Add`: the node for a path, or a clash of names, which leaves
        everything as it was. */
    method Locate(verb: string, path: string) returns (ok: bool, n: Node)
      requires Valid()
      modifies this`root, this`nodes, this`views, this`repr, repr
      ensures ok ==> Ready(Position(verb, Tokens(config, path))) && nodes[Position(verb, Tokens(config, path))] == n
      ensures ok ==> n in old(repr) || fresh(n)
      ensures !ok ==> Conflicts(TableOf(tables, verb), Tokens(config, path))
      ensures !ok ==> root == old(root) && nodes == old(nodes) && views == old(views) && InSync(nodes, views, repr)
      ensures fresh(repr - old(repr))
    {
      Plant(verb);
      PathPartsWalked(config, path);
      ok, n := Walk(verb, PathParts(Normalize(path)), Tokens(config, path));
    }

    twostate lemma SameViews()
      requires old(InSync(nodes, views, repr)) && InSync(nodes, views, repr)
      requires nodes == old(nodes) && views == old(views)
      ensures AllUntouched(nodes)
    {
      forall a | a in nodes ensures Untouched(nodes[a]) {
        assert old(nodes[a].View()) == views[a] == nodes[a].View();
      }
    }

    /** Registers a route. It fails exactly when a registered route of that method has the
        same dynamic kind under another name after a shared prefix, and then nothing of
        the router has changed. */
    method Add(verb: string, path: string, handler: Handler, middlewares: seq<Middleware>) returns (ok: bool)
      requires Valid()
      modifies this`root, this`tables, this`nodes, this`views, this`repr, repr
      ensures Valid()
      ensures ok <==> Register(old(tables), config, globalMiddlewares, verb, path, handler, middlewares).Some?
      ensures ok ==> Register(old(tables), config, globalMiddlewares, verb, path, handler, middlewares) == Some(tables)
      ensures !ok ==> root == old(root) && tables == old(tables) && nodes == old(nodes)
      ensures !ok ==> AllUntouched(nodes)
      ensures fresh(repr - old(repr))
    {
      var all := middlewares;
      if |globalMiddlewares| > 0 {
        all := globalMiddlewares + middlewares;
      }
      assert all == globalMiddlewares + middlewares;
      var n;
      ok, n := Locate(verb, path);
      if !ok {
        SameViews();
        return;
      }
      RegisteredIsFiled(tables, config, globalMiddlewares, verb, path, handler, middlewares);
      var finalHandler := handler;
      if |all| > 0 {
        finalHandler := Compile(handler, all);
      }
      Store(Position(verb, Tokens(config, path)), n, Route(verb, Normalize(path), finalHandler, all));
    }

    /** The last part of `Add`: the node reached gets the route. */
    method Store(ghost at: Position, n: Node, route: Route)
      requires Ready(at) && nodes[at] == n && WellFiled(config, tables)
      requires RouteFiled(config, route, at.verb, at.pattern)
      modifies this`tables, this`views, n
      ensures Valid()
      ensures tables == Filed(old(tables), at, route)
    {
      ghost var tables', views' := Filed(tables, at, route), views[at := views[at].(route := Some(route))];
      Settled(config, tables, nodes, views, at, route);
      n.route := Some(route);
      assert InSync(nodes, views', repr);
      views := views';
      tables := tables';
    }

    lemma RouteHere(at: Position)
      requires Valid() && at in nodes
      ensures var table := TableOf(tables, at.verb);
              nodes[at].route == if at.pattern in table then Some(table[at.pattern]) else None
    {
      NodeTellsTable(tables, nodes, views, at);
    }

    /** The wildcard branch, taken at the end of a path or when nothing else fits. */
    lemma WildcardHere(at: Position)
      requires Valid() && at in nodes
      ensures var table, p, n := TableOf(tables, at.verb), at.pattern, nodes[at];
              if n.catchAllNode == null then WildcardAt(table, p) == None
              else
                && WildcardAt(table, p) == Some(n.catchAllName)
                && var k := p + [Wildcard(n.catchAllName)];
                   n.catchAllNode.route == if k in table then Some(table[k]) else None
    {
      NodeTellsTable(tables, nodes, views, at);
      var n := nodes[at];
      if n.catchAllNode != null {
        assert Linked(nodes, at, views[at]);
        RouteHere(Child(at, Wildcard(n.catchAllName)));
      }
    }

    /** Priority: static, then parameter, then wildcard. */
    method Choose(ghost at: Position, n: Node, part: string) returns (step: Step, next: Node)
      requires Valid() && at in nodes && nodes[at] == n
      ensures step == NextStep(TableOf(tables, at.verb), at.pattern, part)
      ensures Moves(step) ==> Child(at, Via(step, part)) in nodes && nodes[Child(at, Via(step, part))] == next
      ensures step.ToWildcard? ==>
                next.route == RouteAt(TableOf(tables, at.verb), Stopped(TableOf(tables, at.verb), at.pattern, step))
    {
      NodeTellsTable(tables, nodes, views, at);
      assert Linked(nodes, at, views[at]);
      WildcardHere(at);
      if part in n.children {
        return ToStatic, n.children[part];
      }
      if n.paramNode != null {
        return ToParam(n.paramName), n.paramNode;
      }
      if n.catchAllNode != null {
        return ToWildcard(n.catchAllName), n.catchAllNode;
      }
      return Nowhere, n;
    }

    /** One segment of the path: where it leads, its capture going to the context. */
    method TakePart(ghost at: Position, n: Node, part: string, currentPath: string, ctx: Context?)
      returns (step: Step, next: Node, found: Option<Route>)
      requires Valid() && at in nodes && nodes[at] == n
      modifies if ctx == null then {} else {ctx}
      ensures Valid()
      ensures step == NextStep(TableOf(tables, at.verb), at.pattern, part)
      ensures Moves(step) ==> Child(at, Via(step, part)) in nodes && nodes[Child(at, Via(step, part))] == next
      ensures !Moves(step) ==>
                found == RouteAt(TableOf(tables, at.verb), Stopped(TableOf(tables, at.verb), at.pattern, step))
      ensures Gained(ctx, StepCaptures(step, part, currentPath))
    {
      step, next := Choose(at, n, part);
      found := if step.ToWildcard? then next.route else None;
      if ctx != null {
        if step.ToParam? {
          ctx.AddParam(step.name, part);
        } else if step.ToWildcard? {
          ctx.AddParam(step.name, currentPath);
        }
      }
    }

    /** The end of the path: the node's own route, else its wildcard with an empty value. */
    method TakeEnd(ghost at: Position, n: Node, ctx: Context?) returns (found: Option<Route>)
      requires Valid() && at in nodes && nodes[at] == n
      modifies if ctx == null then {} else {ctx}
      ensures Valid()
      ensures found == RouteAt(TableOf(tables, at.verb), SearchEnd(TableOf(tables, at.verb), at.pattern).pattern)
      ensures Gained(ctx, SearchEnd(TableOf(tables, at.verb), at.pattern).captures)
    {
      RouteHere(at);
      WildcardHere(at);
      if n.route.Some? {
        return n.route;
      }
      if n.catchAllNode != null {
        if ctx != null {
          ctx.AddParam(n.catchAllName, "");
        }
        return n.catchAllNode.route;
      }
      return None;
    }

    /** The loop of `Find`: follows the path byte slice by byte slice from the root of its
        method. `n` is never nil, so the loop is left only by returning. */
    method Follow(verb: string, start: Node, path: string, ctx: Context?)
      returns (found: Option<Route>, ghost captures: seq<Capture>)
      requires Valid() && verb in root && root[verb] == start
      modifies if ctx == null then {} else {ctx}
      ensures Concludes(TableOf(tables, verb), path, found, captures)
      ensures Gained(ctx, captures)
    {
      ghost var table := TableOf(tables, verb);
      ghost var before := if ctx == null then [] else ctx.params;
      ghost var p := [];
      captures := [];
      StartSearch(table, path);
      var n, searchPath := start, path;
      while searchPath != ""
        invariant Valid() && Position(verb, p) in nodes && nodes[Position(verb, p)] == n
        invariant Continues(table, path, captures, p, searchPath)
        invariant Gained(ctx, captures)
        decreases |searchPath|
      {
        ContinueSearch(table, path, captures, p, searchPath);
        var currentPath := searchPath;
        var (part, rest) := Cut(searchPath);
        searchPath := rest;
        if part != "" {
          var step, next;
          step, next, found := TakePart(Position(verb, p), n, part, currentPath, ctx);
          AppendIsAssociative(before, captures, StepCaptures(step, part, currentPath));
          captures := captures + StepCaptures(step, part, currentPath);
          if !Moves(step) {
            return;
          }
          n, p := next, p + [Via(step, part)];
        }
      }
      EndSearch(table, path, captures, p);
      AppendIsAssociative(before, captures, SearchEnd(table, p).captures);
      found := TakeEnd(Position(verb, p), n, ctx);
      captures := captures + SearchEnd(table, p).captures;
    }

    /** Finds the route for a path. The context, if there is one, gets the captures made on
        the way, even when no route is found; the route does not depend on it. */
    method Find(verb: string, path: string, ctx: Context?) returns (result: FindResult)
      requires Valid()
      modifies if ctx == null then {} else {ctx}
      ensures result == FindIn(tables, verb, path)
      ensures Gained(ctx, CapturesIn(tables, verb, path))
    {
      RootIsWanted(config, root, tables, nodes, views, repr, verb);
      if verb !in root {
        return MethodNotFound;
      }
      var found, _ := Follow(verb, root[verb], StripOne(path), ctx);
      result := if found.Some? then Found(found.value) else RouteNotFound;
    }

    /** Appends the routes at and below a node: its own, then its children in order. */
    method WalkNode(n: Node?, routes: seq<Route>, ghost at: Position, ghost bound: nat)
      returns (longer: seq<Route>, ghost entries: seq<Position>)
      requires Valid() && (n != null ==> at in nodes && nodes[at] == n)
      requires Bounds(TableOf(tables, at.verb), bound)
      ensures n == null ==> entries == []
      ensures n != null ==> ListsFrom(tables, at, entries)
      ensures Appended(tables, routes, entries, longer)
      ensures routes <= longer
      decreases bound - |at.pattern|, 2
    {
      if n == null {
        return routes, [];
      }
      RouteHere(at);
      Bounded(at, bound);
      longer, entries := routes, [];
      if n.route.Some? {
        longer, entries := longer + [n.route.value], [at];
      }
      StartWalk(tables, at, entries, routes, longer);
      longer, entries := WalkChildren(n, routes, longer, at, entries, bound);
    }

    method WalkChildren(n: Node, ghost start: seq<Route>, routes: seq<Route>, ghost at: Position,
                        ghost entries0: seq<Position>, ghost bound: nat)
      returns (longer: seq<Route>, ghost entries: seq<Position>)
      requires Valid() && at in nodes && nodes[at] == n && |at.pattern| <= bound
      requires Bounds(TableOf(tables, at.verb), bound)
      requires WalkedTo(tables, at, {}, entries0, start, routes)
      ensures ListsFrom(tables, at, entries) && Appended(tables, start, entries, longer)
      decreases bound - |at.pattern|, 1
    {
      ghost var statics, tokens;
      longer, entries, statics := WalkStatics(n, start, routes, at, entries0, bound);
      DynamicsHere(at);
      StaticsBeforeDynamics(statics, n.paramName, n.catchAllName);
      longer, entries, tokens :=
        WalkDynamic(n.paramNode, Param(n.paramName), start, longer, at, entries, statics, bound);
      longer, entries, tokens :=
        WalkDynamic(n.catchAllNode, Wildcard(n.catchAllName), start, longer, at, entries, tokens, bound);
      NoOtherChild(at, statics, tokens);
      FinishListing(tables, at, tokens, entries);
    }

    /** A dynamic child, which may be missing. */
    method WalkDynamic(child: Node?, ghost t: Token, ghost start: seq<Route>, routes: seq<Route>, ghost at: Position,
                       ghost entries0: seq<Position>, ghost tokens0: set<Token>, ghost bound: nat)
      returns (longer: seq<Route>, ghost entries: seq<Position>, ghost tokens: set<Token>)
      requires Valid() && |at.pattern| <= bound && Bounds(TableOf(tables, at.verb), bound)
      requires child != null ==> Child(at, t) in nodes && nodes[Child(at, t)] == child
      requires WalkedTo(tables, at, tokens0, entries0, start, routes)
      requires forall s :: s in tokens0 ==> TokenLess(s, t)
      ensures WalkedTo(tables, at, tokens, entries, start, longer)
      ensures tokens == if child == null then tokens0 else tokens0 + {t}
      decreases bound - |at.pattern|, 0
    {
      ghost var more;
      longer, more := WalkNode(child, routes, Child(at, t), bound);
      entries, tokens := WalkedDynamic(tables, at, child, t, tokens0, entries0, more, start, routes, longer);
    }

    /** The static children, in byte order of their keys. */
    method WalkStatics(n: Node, ghost start: seq<Route>, routes: seq<Route>, ghost at: Position,
                       ghost entries0: seq<Position>, ghost bound: nat)
      returns (longer: seq<Route>, ghost entries: seq<Position>, ghost tokens: set<Token>)
      requires Valid() && at in nodes && nodes[at] == n && |at.pattern| <= bound
      requires Bounds(TableOf(tables, at.verb), bound)
      requires WalkedTo(tables, at, {}, entries0, start, routes)
      ensures WalkedTo(tables, at, tokens, entries, start, longer)
      ensures forall t: Token :: t in tokens <==> t.Static? && Child(at, t) in nodes
      decreases bound - |at.pattern|, 0
    {
      longer, entries, tokens := routes, entries0, {};
      var staticKeys := SortStrings(n.children.Keys);
      StaticsHere(at);
      var i := 0;
      while i < |staticKeys|
        invariant 0 <= i <= |staticKeys|
        invariant tokens == Statics(staticKeys, i)
        invariant WalkedTo(tables, at, tokens, entries, start, longer)
      {
        var key := staticKeys[i];
        assert key in n.children;
        ghost var more, before := [], longer;
        longer, more := WalkNode(n.children[key], longer, Child(at, Static(key)), bound);
        StaticsInOrder(staticKeys, i);
        WalkedChild(tables, at, tokens, Static(key), entries, more, start, before, longer);
        entries, tokens := entries + more, tokens + {Static(key)};
        i := i + 1;
      }
    }

    lemma StaticsHere(at: Position)
      requires Valid() && at in nodes
      ensures forall s :: s in nodes[at].children <==> Child(at, Static(s)) in nodes
      ensures forall s :: s in nodes[at].children ==> nodes[at].children[s] == nodes[Child(at, Static(s))]
    {
      assert Linked(nodes, at, views[at]);
    }

    lemma DynamicsHere(at: Position)
      requires Valid() && at in nodes
      ensures var n := nodes[at];
              && (n.paramNode != null ==>
                    Child(at, Param(n.paramName)) in nodes && nodes[Child(at, Param(n.paramName))] == n.paramNode)
              && (n.catchAllNode != null ==>
                    Child(at, Wildcard(n.catchAllName)) in nodes
                    && nodes[Child(at, Wildcard(n.catchAllName))] == n.catchAllNode)
    {
      assert Linked(nodes, at, views[at]);
    }

    lemma NoOtherChild(at: Position, statics: set<Token>, tokens: set<Token>)
      requires Valid() && at in nodes && statics <= tokens
      requires forall t: Token :: t.Static? && Child(at, t) in nodes ==> t in statics
      requires nodes[at].paramNode != null ==> Param(nodes[at].paramName) in tokens
      requires nodes[at].catchAllNode != null ==> Wildcard(nodes[at].catchAllName) in tokens
      ensures forall t :: Extends(TableOf(tables, at.verb), at.pattern, t) ==> t in tokens
    {
      assert Linked(nodes, at, views[at]);
      NodeTellsTable(tables, nodes, views, at);
      forall t | Extends(TableOf(tables, at.verb), at.pattern, t) ensures t in tokens {
        assert Child(at, t) in nodes;
        match t { case Static(_) => case Param(_) => case Wildcard(_) => }
      }
    }

    lemma Bounded(at: Position, bound: nat)
      requires Valid() && at in nodes
      requires Bounds(TableOf(tables, at.verb), bound)
      ensures |at.pattern| <= bound
    {
      assert Wanted(tables, None, at);
    }

    /** All registered routes, each exactly once, by method and then in pattern order. */
    method Routes() returns (routes: seq<Route>)
      requires Valid()
      ensures Lists(tables, routes)
    {
      ghost var entries := [];
      routes := [];
      var methods := SortStrings(root.Keys);
      var i := 0;
      while i < |methods|
        invariant 0 <= i <= |methods|
        invariant ListsMethods(tables, methods[..i], entries) && Appended(tables, [], entries, routes)
      {
        var verb := methods[i];
        ghost var mid := routes;
        ghost var bound := LongestPattern(TableOf(tables, verb));
        ghost var more;
        routes, more := WalkNode(root[verb], routes, Position(verb, []), bound);
        AppendedTwice(tables, [], entries, mid, more, routes);
        ExtendMethods(tables, methods, i, entries, more);
        entries := entries + more;
        i := i + 1;
      }
      assert methods[..i] == methods;
      forall at: Position | Registered(tables, at) ensures at.verb in methods {
        RootIsWanted(config, root, tables, nodes, views, repr, at.verb);
      }
      assert ListsAll(tables, entries) && routes == RoutesAt(tables, entries);
    }
  }
}
