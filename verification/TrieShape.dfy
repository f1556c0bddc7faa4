/** The nodes of the trie router (routers/trie.go) and what it means for a heap of them to
    stand for flat route tables. */
module TrieShape {
  import opened Strings
  import opened Handlers
  import opened Patterns
  import opened RouteTable

  /** Where a node sits: its method and the tokens on the way to it. */
  datatype Position = Position(verb: string, pattern: Pattern)

  ghost function Child(at: Position, t: Token): Position {
    Position(at.verb, at.pattern + [t])
  }

  lemma ChildIsInjective(at: Position, t: Token)
    ensures forall b, s :: Child(b, s) == Child(at, t) ==> b == at && s == t
  {
    forall b, s | Child(b, s) == Child(at, t) ensures b == at && s == t {
      assert (b.pattern + [s])[..|at.pattern|] == b.pattern;
      assert (at.pattern + [t])[..|at.pattern|] == at.pattern;
      assert (b.pattern + [s])[|at.pattern|] == s && (at.pattern + [t])[|at.pattern|] == t;
    }
  }

  class Node {
    var children: map<string, Node>
    var paramNode: Node?
    var paramName: string
    var catchAllNode: Node?
    var catchAllName: string
    /** The embedded route; None is the zero route, whose handler is nil. */
    var route: Option<Route>

    constructor ()
      ensures View() == Leaf()
    {
      children := map[];
      paramNode, paramName := null, "";
      catchAllNode, catchAllName := null, "";
      route := None;
    }

    ghost function View(): NodeView
      reads this
    {
      NodeView(children, paramNode, paramName, catchAllNode, catchAllName, route)
    }
  }

  /** The fields of a node as a value. */
  datatype NodeView = NodeView(children: map<string, Node>,
                               paramNode: Node?, paramName: string,
                               catchAllNode: Node?, catchAllName: string,
                               route: Option<Route>)

  ghost function Leaf(): NodeView {
    NodeView(map[], null, "", null, "", None)
  }

  /** A position that must have a node: a prefix of a registered pattern, or of the path
      an `Add` in progress has walked so far. */
  ghost predicate Wanted(tables: Tables, walked: Option<Position>, at: Position) {
    || HasPrefix(TableOf(tables, at.verb), at.pattern)
    || (walked.Some? && at.verb == walked.value.verb && at.pattern <= walked.value.pattern)
  }

  lemma ParentIsWanted(tables: Tables, walked: Option<Position>, at: Position, t: Token)
    requires Wanted(tables, walked, Child(at, t))
    ensures Wanted(tables, walked, at)
  {
    var table := TableOf(tables, at.verb);
    if HasPrefix(table, at.pattern + [t]) {
      PrefixOfPrefix(table, at.pattern, at.pattern + [t]);
    }
  }

  lemma WantedOneFurther(tables: Tables, at: Position, t: Token)
    ensures forall b :: Wanted(tables, Some(Child(at, t)), b) <==> Wanted(tables, Some(at), b) || b == Child(at, t)
  {
    forall b ensures Wanted(tables, Some(Child(at, t)), b) <==> Wanted(tables, Some(at), b) || b == Child(at, t) {
      var q := at.pattern + [t];
      if b.verb == at.verb && b.pattern <= q {
        if |b.pattern| == |q| {
          assert b.pattern == q;
        } else {
          assert b.pattern == q[..|b.pattern|] == at.pattern[..|b.pattern|];
        }
      }
    }
  }

  lemma WantedOfWalked(tables: Tables, at: Position)
    requires HasPrefix(TableOf(tables, at.verb), at.pattern)
    ensures forall b :: Wanted(tables, Some(at), b) <==> Wanted(tables, None, b)
  {
    forall b: Position | b.verb == at.verb && b.pattern <= at.pattern ensures Wanted(tables, None, b) {
      PrefixOfPrefix(TableOf(tables, at.verb), b.pattern, at.pattern);
    }
  }

  // ----- The shape of the trie -----

  /** The links of a node are exactly the positions one token further. */
  ghost predicate Linked(nodes: map<Position, Node>, at: Position, v: NodeView) {
    && (forall s :: s in v.children <==> Child(at, Static(s)) in nodes)
    && (forall s :: s in v.children ==> v.children[s] == nodes[Child(at, Static(s))])
    && (forall x :: Child(at, Param(x)) in nodes <==> v.paramNode != null && x == v.paramName)
    && (v.paramNode != null ==> v.paramNode == nodes[Child(at, Param(v.paramName))])
    && (forall x :: Child(at, Wildcard(x)) in nodes <==> v.catchAllNode != null && x == v.catchAllName)
    && (v.catchAllNode != null ==> v.catchAllNode == nodes[Child(at, Wildcard(v.catchAllName))])
  }

  ghost predicate AllLinked(nodes: map<Position, Node>, views: map<Position, NodeView>) {
    forall a {:trigger Linked(nodes, a, views[a])} :: a in views ==> Linked(nodes, a, views[a])
  }

  ghost predicate Distinct(nodes: map<Position, Node>) {
    forall a, b :: a in nodes && b in nodes && nodes[a] == nodes[b] ==> a == b
  }

  ghost predicate AllWanted(tables: Tables, nodes: map<Position, Node>, walked: Option<Position>) {
    forall a {:trigger Wanted(tables, walked, a)} :: a in nodes <==> Wanted(tables, walked, a)
  }

  ghost predicate Shape(tables: Tables, nodes: map<Position, Node>, views: map<Position, NodeView>,
                        walked: Option<Position>)
  {
    && views.Keys == nodes.Keys
    && AllWanted(tables, nodes, walked)
    && AllLinked(nodes, views)
    && Distinct(nodes)
  }

  lemma WalkedAlready(tables: Tables, nodes: map<Position, Node>, views: map<Position, NodeView>,
                      at: Position, t: Token)
    requires Shape(tables, nodes, views, Some(at)) && Child(at, t) in nodes
    ensures Shape(tables, nodes, views, Some(Child(at, t)))
  {
    WantedOneFurther(tables, at, t);
  }

  lemma NothingBelow(tables: Tables, nodes: map<Position, Node>, walked: Option<Position>, child: Position)
    requires AllWanted(tables, nodes, walked) && child !in nodes
    ensures forall s :: Child(child, s) !in nodes
  {
    forall s ensures Child(child, s) !in nodes {
      if Child(child, s) in nodes { ParentIsWanted(tables, walked, child, s); }
    }
  }

  lemma LinkedBesides(nodes: map<Position, Node>, at: Position, t: Token, leaf: Node, a: Position, v: NodeView)
    requires Linked(nodes, a, v) && a != at && Child(at, t) !in nodes
    ensures Linked(nodes[Child(at, t) := leaf], a, v)
  {
    ChildIsInjective(at, t);
  }

  lemma LeafLinked(nodes: map<Position, Node>, child: Position, leaf: Node)
    requires forall s :: Child(child, s) !in nodes
    ensures Linked(nodes[child := leaf], child, Leaf())
  {
    forall s ensures Child(child, s) !in nodes[child := leaf] {
      assert |Child(child, s).pattern| > |child.pattern|;
    }
  }

  lemma LinksGrown(nodes: map<Position, Node>, views: map<Position, NodeView>,
                   at: Position, t: Token, leaf: Node, v: NodeView)
    requires views.Keys == nodes.Keys && AllLinked(nodes, views)
    requires Child(at, t) !in nodes && forall s :: Child(Child(at, t), s) !in nodes
    requires Linked(nodes[Child(at, t) := leaf], at, v)
    ensures AllLinked(nodes[Child(at, t) := leaf], views[at := v][Child(at, t) := Leaf()])
  {
    var child := Child(at, t);
    var nodes', views' := nodes[child := leaf], views[at := v][child := Leaf()];
    LeafLinked(nodes, child, leaf);
    forall a | a in views' ensures Linked(nodes', a, views'[a]) {
      if a != child && a != at {
        assert Linked(nodes, a, views[a]);
        LinkedBesides(nodes, at, t, leaf, a, views[a]);
      }
    }
  }

  /** A new leaf hung below `at`, whose own view becomes `v`, keeps the shape. */
  lemma GrownByLeaf(tables: Tables, nodes: map<Position, Node>, views: map<Position, NodeView>,
                    at: Position, t: Token, leaf: Node, v: NodeView)
    requires Shape(tables, nodes, views, Some(at))
    requires at in nodes && Child(at, t) !in nodes && forall a :: a in nodes ==> nodes[a] != leaf
    requires Linked(nodes[Child(at, t) := leaf], at, v)
    ensures Shape(tables, nodes[Child(at, t) := leaf], views[at := v][Child(at, t) := Leaf()], Some(Child(at, t)))
  {
    NothingBelow(tables, nodes, Some(at), Child(at, t));
    LinksGrown(nodes, views, at, t, leaf, v);
    WantedOneFurther(tables, at, t);
  }

  lemma ParamHung(nodes: map<Position, Node>, at: Position, paramName: string, leaf: Node, v: NodeView)
    requires Linked(nodes, at, v) && v.paramNode == null
    ensures Child(at, Param(paramName)) !in nodes && NameFree(nodes, at, Param(paramName))
    ensures Linked(nodes[Child(at, Param(paramName)) := leaf], at, v.(paramNode := leaf, paramName := paramName))
  {
    ChildIsInjective(at, Param(paramName));
  }

  lemma WildcardHung(nodes: map<Position, Node>, at: Position, wildcardName: string, leaf: Node, v: NodeView)
    requires Linked(nodes, at, v) && v.catchAllNode == null
    ensures Child(at, Wildcard(wildcardName)) !in nodes && NameFree(nodes, at, Wildcard(wildcardName))
    ensures Linked(nodes[Child(at, Wildcard(wildcardName)) := leaf], at,
                   v.(catchAllNode := leaf, catchAllName := wildcardName))
  {
    ChildIsInjective(at, Wildcard(wildcardName));
  }

  lemma StaticHung(nodes: map<Position, Node>, at: Position, part: string, leaf: Node, v: NodeView)
    requires Linked(nodes, at, v) && part !in v.children
    ensures Child(at, Static(part)) !in nodes && NameFree(nodes, at, Static(part))
    ensures Linked(nodes[Child(at, Static(part)) := leaf], at, v.(children := v.children[part := leaf]))
  {
    ChildIsInjective(at, Static(part));
  }

  // ----- What the nodes store -----

  ghost predicate Stores(tables: Tables, at: Position, v: NodeView) {
    var table := TableOf(tables, at.verb);
    v.route == if at.pattern in table then Some(table[at.pattern]) else None
  }

  ghost predicate Filled(tables: Tables, views: map<Position, NodeView>) {
    forall a {:trigger Stores(tables, a, views[a])} :: a in views ==> Stores(tables, a, views[a])
  }

  ghost predicate Rooted(root: map<string, Node>, nodes: map<Position, Node>) {
    && (forall verb :: verb in root <==> Position(verb, []) in nodes)
    && (forall verb :: verb in root ==> root[verb] == nodes[Position(verb, [])])
  }

  /** Each entry is filed under its method and the tokens of its stored path. */
  ghost predicate WellFiled(config: RouterConfig, tables: Tables) {
    forall verb :: verb in tables ==>
      && tables[verb] != map[]
      && Consistent(tables[verb])
      && forall k {:trigger RouteFiled(config, tables[verb][k], verb, k)} :: k in tables[verb] ==>
            RouteFiled(config, tables[verb][k], verb, k)
  }

  predicate RouteFiled(config: RouterConfig, route: Route, verb: string, k: Pattern) {
    route.verb == verb && Tokens(config, route.path) == k && Normalize(route.path) == route.path
  }

  /** No links at all: a node just made. */
  ghost predicate Bare(v: NodeView) {
    v.children == map[] && v.paramNode == null && v.catchAllNode == null
  }

  lemma LinkedChild(nodes: map<Position, Node>, at: Position, v: NodeView, t: Token)
    requires Linked(nodes, at, v)
    ensures Child(at, t) in nodes || !NameFree(nodes, at, t) ==> !Bare(v)
  {
    match t { case Static(_) => case Param(_) => case Wildcard(_) => }
  }

  /** The tokens of the first `i` parts, empty parts skipped. */
  function Walked(config: RouterConfig, parts: seq<string>, i: nat): Pattern
    requires i <= |parts|
  {
    if i == 0 then []
    else if parts[i - 1] == "" then Walked(config, parts, i - 1)
    else Walked(config, parts, i - 1) + [Classify(config, parts[i - 1])]
  }

  lemma {:induction false} WalkedIsClassified(config: RouterConfig, parts: seq<string>, i: nat)
    requires i <= |parts|
    ensures Walked(config, parts, i) == ClassifyAll(config, NonEmpty(parts[..i]))
  {
    if i > 0 {
      WalkedIsClassified(config, parts, i - 1);
      assert parts[..i] == parts[..i - 1] + [parts[i - 1]];
      NonEmptyOfConcat(parts[..i - 1], [parts[i - 1]]);
      if parts[i - 1] != "" {
        ClassifyAllOfConcat(config, NonEmpty(parts[..i - 1]), [parts[i - 1]]);
      }
    }
  }

  lemma {:induction false} WalkedIsPrefix(config: RouterConfig, parts: seq<string>, i: nat, j: nat)
    requires i <= j <= |parts|
    ensures Walked(config, parts, i) <= Walked(config, parts, j)
  {
    if i < j { WalkedIsPrefix(config, parts, i, j - 1); }
  }

  lemma WalkedAll(config: RouterConfig, searchPath: string, parts: seq<string>)
    requires parts == if searchPath == "" then [] else Split(searchPath)
    ensures Walked(config, parts, |parts|) == Tokens(config, searchPath)
  {
    WalkedIsClassified(config, parts, |parts|);
    assert parts[..|parts|] == parts;
    if searchPath != "" { SegmentsOfSplit(searchPath); }
  }

  /** A taken name at `at` makes the whole path conflict. */
  lemma NameTaken(tables: Tables, nodes: map<Position, Node>, views: map<Position, NodeView>,
                  at: Position, t: Token, tokens: Pattern)
    requires Shape(tables, nodes, views, Some(at)) && at in nodes
    requires !NameFree(nodes, at, t) && at.pattern + [t] <= tokens
    ensures Conflicts(TableOf(tables, at.verb), tokens)
  {
    var s :| SameDynamicKind(s, t) && Child(at, s) in nodes && s != t;
    assert Wanted(tables, Some(at), Child(at, s));
    var q := at.pattern + [s];
    assert !(q <= at.pattern);
    var k :| k in TableOf(tables, at.verb) && q <= k;
    var i := |at.pattern|;
    assert k[..i] == q[..i] == at.pattern == (at.pattern + [t])[..i] == tokens[..i];
    assert k[i] == q[i] == s && tokens[i] == (at.pattern + [t])[i] == t;
    assert !Compatible(k, tokens);
  }

  ghost predicate NoClash(table: Table, p: Pattern) {
    forall k {:trigger Compatible(k, p)} :: k in table ==> Compatible(k, p)
  }

  lemma NameStaysFree(tables: Tables, nodes: map<Position, Node>, at: Position, t: Token)
    requires AllWanted(tables, nodes, Some(at)) && NameFree(nodes, at, t)
    requires NoClash(TableOf(tables, at.verb), at.pattern)
    ensures NoClash(TableOf(tables, at.verb), Child(at, t).pattern)
  {
    var table := TableOf(tables, at.verb);
    var p := at.pattern;
    var q := p + [t];
    forall k, i | k in table && 0 <= i < |k| && i < |q| && k[..i] == q[..i] && SameDynamicKind(k[i], q[i])
      ensures k[i] == q[i]
    {
      if i < |p| {
        assert q[..i] == p[..i] && Compatible(k, p);
      } else {
        assert q[..i] == p && p + [k[i]] <= k;
        assert Wanted(tables, Some(at), Child(at, k[i]));
      }
    }
  }

  /** Making a leaf stores no route and roots no method. */
  lemma RoutesKept(tables: Tables, nodes: map<Position, Node>, views: map<Position, NodeView>,
                   nodes': map<Position, Node>, views': map<Position, NodeView>, root: map<string, Node>,
                   at: Position, v: NodeView, t: Token, next: Node)
    requires views.Keys == nodes.Keys && AllWanted(tables, nodes, Some(at))
    requires Filled(tables, views) && Rooted(root, nodes)
    requires Descended(nodes, views, nodes', views', at, v, Child(at, t), next)
    ensures Filled(tables, views') && Rooted(root, nodes')
  {
    var child := Child(at, t);
    forall a | a in views' ensures Stores(tables, a, views'[a]) {
      if a in views { assert Stores(tables, a, views[a]); }
      if a == child && child !in nodes {
        assert !Wanted(tables, Some(at), child);
        assert child.pattern <= child.pattern;
      }
    }
    assert child.pattern != [];
  }

  /** No sibling of the token's dynamic kind has another name. */
  ghost predicate NameFree(nodes: map<Position, Node>, at: Position, t: Token) {
    forall s :: SameDynamicKind(s, t) && Child(at, s) in nodes ==> s == t
  }

  /** A leaf was added at `child`; only the links of its parent changed, to `v`. */
  ghost predicate Hung(nodes: map<Position, Node>, views: map<Position, NodeView>,
                       nodes': map<Position, Node>, views': map<Position, NodeView>,
                       at: Position, v: NodeView, child: Position, leaf: Node)
  {
    && at in views && v.route == views[at].route
    && child !in nodes && nodes' == nodes[child := leaf]
    && views' == views[at := v][child := Leaf()]
  }

  /** `next` is the node at `child`: the one that was there, or a new leaf. */
  ghost predicate Descended(nodes: map<Position, Node>, views: map<Position, NodeView>,
                            nodes': map<Position, Node>, views': map<Position, NodeView>,
                            at: Position, v: NodeView, child: Position, next: Node)
  {
    && child in nodes' && nodes'[child] == next
    && if child in nodes then nodes' == nodes && views' == views
       else Hung(nodes, views, nodes', views', at, v, child, next)
  }

  // ----- Beginning and ending an Add -----

  lemma WantedAtRoot(tables: Tables, verb: string)
    requires Wanted(tables, None, Position(verb, []))
    ensures forall a :: Wanted(tables, Some(Position(verb, [])), a) <==> Wanted(tables, None, a)
  {
    WantedOfWalked(tables, Position(verb, []));
  }

  lemma EmptyUnlessRooted(tables: Tables, verb: string)
    requires !Wanted(tables, None, Position(verb, []))
    ensures TableOf(tables, verb) == map[]
  {
    forall k ensures k !in TableOf(tables, verb) {
      assert [] <= k;
    }
  }

  /** A bare root for a method without routes keeps the shape. */
  lemma PlantedRoot(tables: Tables, nodes: map<Position, Node>, views: map<Position, NodeView>,
                    verb: string, n: Node)
    requires Shape(tables, nodes, views, None)
    requires Position(verb, []) !in nodes && TableOf(tables, verb) == map[] && forall a :: a in nodes ==> nodes[a] != n
    ensures Shape(tables, nodes[Position(verb, []) := n], views[Position(verb, []) := Leaf()],
                  Some(Position(verb, [])))
  {
    var at := Position(verb, []);
    var nodes', views' := nodes[at := n], views[at := Leaf()];
    NothingBelow(tables, nodes, None, at);
    LeafLinked(nodes, at, n);
    forall a: Position ensures Wanted(tables, Some(at), a) <==> Wanted(tables, None, a) || a == at {
      if a.verb == verb && a.pattern <= [] { assert a.pattern == []; }
    }
    forall a | a in views' ensures Linked(nodes', a, views'[a]) {
      if a != at {
        assert Linked(nodes, a, views[a]);
        forall s ensures Child(a, s) != at { assert |Child(a, s).pattern| > 0; }
      }
    }
  }

  lemma PlantedRoutes(root: map<string, Node>, tables: Tables, nodes: map<Position, Node>,
                      views: map<Position, NodeView>, verb: string, n: Node)
    requires views.Keys == nodes.Keys && Filled(tables, views) && Rooted(root, nodes)
    requires Position(verb, []) !in nodes && TableOf(tables, verb) == map[]
    ensures Filled(tables, views[Position(verb, []) := Leaf()])
    ensures Rooted(root[verb := n], nodes[Position(verb, []) := n])
  {
    var views' := views[Position(verb, []) := Leaf()];
    forall a | a in views' ensures Stores(tables, a, views'[a]) {
      if a in views { assert Stores(tables, a, views[a]); }
    }
  }

  /** The entry of a finished `Add`. */
  function Filed(tables: Tables, at: Position, route: Route): Tables {
    tables[at.verb := TableOf(tables, at.verb)[at.pattern := route]]
  }

  lemma WantedOnceFiled(tables: Tables, at: Position, route: Route)
    ensures forall a :: Wanted(Filed(tables, at, route), None, a) <==> Wanted(tables, Some(at), a)
  {
    var table := TableOf(tables, at.verb);
    var table' := TableOf(Filed(tables, at, route), at.verb);
    forall a: Position ensures Wanted(Filed(tables, at, route), None, a) <==> Wanted(tables, Some(at), a) {
      if a.verb == at.verb {
        if HasPrefix(table, a.pattern) {
          var k :| k in table && a.pattern <= k;
          assert k in table';
        }
        if HasPrefix(table', a.pattern) {
          var k :| k in table' && a.pattern <= k;
          assert k in table || k == at.pattern;
        }
        assert at.pattern in table';
      }
    }
  }

  lemma ConsistentOnceFiled(table: Table, p: Pattern, route: Route)
    requires Consistent(table) && NoClash(table, p)
    ensures Consistent(table[p := route])
  {
    forall a, b | a in table[p := route] && b in table[p := route] ensures Compatible(a, b) {
      if a == p && b != p { assert Compatible(b, p); CompatibleIsSymmetric(b, p); }
      if a != p && b == p { assert Compatible(a, p); }
    }
  }

  /** Storing the route where the walk ended makes the trie stand for the longer tables. */
  lemma Settled(config: RouterConfig, tables: Tables, nodes: map<Position, Node>,
                views: map<Position, NodeView>, at: Position, route: Route)
    requires Shape(tables, nodes, views, Some(at)) && at in nodes
    requires Filled(tables, views) && WellFiled(config, tables)
    requires NoClash(TableOf(tables, at.verb), at.pattern)
    requires RouteFiled(config, route, at.verb, at.pattern)
    ensures var tables', views' := Filed(tables, at, route), views[at := views[at].(route := Some(route))];
            Shape(tables', nodes, views', None) && Filled(tables', views') && WellFiled(config, tables')
  {
    var tables', views' := Filed(tables, at, route), views[at := views[at].(route := Some(route))];
    WantedOnceFiled(tables, at, route);
    WellFiledOnceFiled(config, tables, at, route);
    forall a | a in views' ensures Linked(nodes, a, views'[a]) {
      assert Linked(nodes, a, views[a]);
    }
    forall a | a in views' ensures Stores(tables', a, views'[a]) {
      assert Stores(tables, a, views[a]);
    }
  }

  lemma WellFiledOnceFiled(config: RouterConfig, tables: Tables, at: Position, route: Route)
    requires WellFiled(config, tables) && RouteFiled(config, route, at.verb, at.pattern)
    requires NoClash(TableOf(tables, at.verb), at.pattern)
    ensures WellFiled(config, Filed(tables, at, route))
  {
    var tables' := Filed(tables, at, route);
    forall verb | verb in tables' ensures tables'[verb] != map[] && Consistent(tables'[verb]) {
      if verb == at.verb {
        ConsistentOnceFiled(TableOf(tables, at.verb), at.pattern, route);
        assert at.pattern in tables'[verb];
      }
    }
  }

  // ----- The path given to Add -----

  /** The parts `Add` loops over: the trimmed path cut at slashes, nothing for "". */
  function PathParts(normal: string): seq<string> {
    var searchPath := Trim(normal);
    if searchPath == "" then [] else Split(searchPath)
  }

  lemma PathPartsWalked(config: RouterConfig, path: string)
    ensures var parts := PathParts(Normalize(path));
            Walked(config, parts, |parts|) == Tokens(config, path)
  {
    TokensOfNormalize(config, path);
    SegmentsOfTrim(Normalize(path));
    WalkedAll(config, Trim(Normalize(path)), PathParts(Normalize(path)));
  }

  lemma RegisteredIsFiled(tables: Tables, config: RouterConfig, globals: seq<Middleware>, verb: string,
                          path: string, handler: Handler, middlewares: seq<Middleware>)
    requires NoClash(TableOf(tables, verb), Tokens(config, path))
    ensures var all := globals + middlewares;
            var route := Route(verb, Normalize(path), Compiled(handler, all), all);
            && RouteFiled(config, route, verb, Tokens(config, path))
            && Register(tables, config, globals, verb, path, handler, middlewares)
               == Some(Filed(tables, Position(verb, Tokens(config, path)), route))
  {
    TokensOfNormalize(config, path);
  }

  // ----- The heap -----

  /** A method has a root node exactly when it has a route. */
  lemma RootIsWanted(config: RouterConfig, root: map<string, Node>, tables: Tables,
                     nodes: map<Position, Node>, views: map<Position, NodeView>, repr: set<Node>, verb: string)
    requires Represents(config, root, tables, nodes, views, repr)
    ensures verb in root <==> TableOf(tables, verb) != map[]
    ensures verb in root ==> ReadyAt(root, tables, nodes, views, repr, Position(verb, []))
    ensures verb !in root ==> Position(verb, []) !in nodes
  {
    if verb in root {
      assert Wanted(tables, None, Position(verb, []));
      WantedAtRoot(tables, verb);
    } else {
      assert !Wanted(tables, None, Position(verb, []));
      EmptyUnlessRooted(tables, verb);
    }
  }

  /** The nodes of the trie are among `repr`, and `views` has their present fields. */
  ghost predicate InSync(nodes: map<Position, Node>, views: map<Position, NodeView>, repr: set<Node>)
    reads repr
  {
    views.Keys == nodes.Keys && forall a :: a in nodes ==> nodes[a] in repr && nodes[a].View() == views[a]
  }

  /** `Add` has walked to `at`. */
  ghost predicate OnWalk(tables: Tables, nodes: map<Position, Node>, views: map<Position, NodeView>, repr: set<Node>,
                         at: Position)
    reads repr
  {
    InSync(nodes, views, repr) && Shape(tables, nodes, views, Some(at)) && at in nodes
  }

  /** ... with no clash of names so far and no route touched. */
  ghost predicate ReadyAt(root: map<string, Node>, tables: Tables,
                          nodes: map<Position, Node>, views: map<Position, NodeView>, repr: set<Node>, at: Position)
    reads repr
  {
    && OnWalk(tables, nodes, views, repr, at)
    && Filled(tables, views)
    && Rooted(root, nodes)
    && NoClash(TableOf(tables, at.verb), at.pattern)
  }

  /** The trie stands for the tables: a node for every prefix of a registered pattern and
      no other, each holding the route of its own pattern if there is one. */
  ghost predicate Represents(config: RouterConfig, root: map<string, Node>, tables: Tables,
                             nodes: map<Position, Node>, views: map<Position, NodeView>, repr: set<Node>)
    reads repr
  {
    && InSync(nodes, views, repr)
    && Shape(tables, nodes, views, None)
    && Filled(tables, views)
    && Rooted(root, nodes)
    && WellFiled(config, tables)
  }

  /** A new root without links, for a method without routes, is where a walk can start. */
  lemma PlantedReady(root: map<string, Node>, tables: Tables, nodes: map<Position, Node>,
                     views: map<Position, NodeView>, repr: set<Node>, verb: string, n: Node)
    requires InSync(nodes, views, repr) && Shape(tables, nodes, views, None)
    requires Filled(tables, views) && Rooted(root, nodes)
    requires Position(verb, []) !in nodes && TableOf(tables, verb) == map[]
    requires n !in repr && n.View() == Leaf()
    ensures var at := Position(verb, []);
            ReadyAt(root[verb := n], tables, nodes[at := n], views[at := Leaf()], repr + {n}, at)
  {
    PlantedRoot(tables, nodes, views, verb, n);
    PlantedRoutes(root, tables, nodes, views, verb, n);
  }

  /** What a node says about the table of its method. */
  lemma NodeTellsTable(tables: Tables, nodes: map<Position, Node>, views: map<Position, NodeView>, at: Position)
    requires Shape(tables, nodes, views, None) && Filled(tables, views) && at in nodes
    ensures var table, p, v := TableOf(tables, at.verb), at.pattern, views[at];
            && v.route == (if p in table then Some(table[p]) else None)
            && (forall part :: part in v.children <==> Extends(table, p, Static(part)))
            && ParamAt(table, p) == (if v.paramNode != null then Some(v.paramName) else None)
            && WildcardAt(table, p) == (if v.catchAllNode != null then Some(v.catchAllName) else None)
    ensures forall t :: Child(at, t) in nodes <==> Extends(TableOf(tables, at.verb), at.pattern, t)
  {
    assert Linked(nodes, at, views[at]) && Stores(tables, at, views[at]);
    forall t ensures Child(at, t) in nodes <==> Extends(TableOf(tables, at.verb), at.pattern, t) {
      assert Wanted(tables, None, Child(at, t)) <==> Extends(TableOf(tables, at.verb), at.pattern, t);
    }
    var table, p, v := TableOf(tables, at.verb), at.pattern, views[at];
    if v.paramNode != null { assert Child(at, Param(v.paramName)) in nodes; }
    if v.catchAllNode != null { assert Child(at, Wildcard(v.catchAllName)) in nodes; }
  }
}
