/** The order in which `Routes` lists the registered routes, and what a listing is. */
module Listings {
  import opened Strings
  import opened Patterns
  import opened RouteTable
  import opened TrieShape

  /** Static tokens in byte order, then the parameter, then the wildcard. */
  predicate TokenLess(a: Token, b: Token) {
    match (a, b)
    case (Static(s), Static(t)) => Less(s, t)
    case (Static(_), _) => true
    case (Param(x), Param(y)) => Less(x, y)
    case (Param(_), Wildcard(_)) => true
    case (Wildcard(x), Wildcard(y)) => Less(x, y)
    case _ => false
  }

  /** Lexicographic, a prefix first. */
  ghost predicate PatternLess(a: Pattern, b: Pattern) {
    exists i :: 0 <= i <= |a| && i < |b| && a[..i] == b[..i] && (i == |a| || TokenLess(a[i], b[i]))
  }

  ghost predicate PositionLess(a: Position, b: Position) {
    Less(a.verb, b.verb) || (a.verb == b.verb && PatternLess(a.pattern, b.pattern))
  }

  lemma TokenLessIsStrict(a: Token, b: Token)
    requires TokenLess(a, b)
    ensures a != b && !TokenLess(b, a)
  {
    match (a, b) {
      case (Static(s), Static(t)) => LessIsStrict(s, t);
      case (Param(x), Param(y)) => LessIsStrict(x, y);
      case (Wildcard(x), Wildcard(y)) => LessIsStrict(x, y);
      case _ =>
    }
  }

  lemma PatternLessIsStrict(a: Pattern, b: Pattern)
    requires PatternLess(a, b)
    ensures a != b && !PatternLess(b, a)
  {
    var i :| 0 <= i <= |a| && i < |b| && a[..i] == b[..i] && (i == |a| || TokenLess(a[i], b[i]));
    if i < |a| { TokenLessIsStrict(a[i], b[i]); }
    if PatternLess(b, a) {
      var j :| 0 <= j <= |b| && j < |a| && b[..j] == a[..j] && (j == |b| || TokenLess(b[j], a[j]));
      SameBefore(a, b, i, j);
      SameBefore(a, b, j, i);
      if j < |b| { TokenLessIsStrict(b[j], a[j]); }
    }
  }

  lemma SameBefore(a: Pattern, b: Pattern, i: nat, j: nat)
    requires i <= |a| && i <= |b| && a[..i] == b[..i]
    ensures j < i ==> a[j] == b[j]
  {
    if j < i { assert a[..i][j] == b[..i][j]; }
  }

  lemma PositionLessIsStrict(a: Position, b: Position)
    requires PositionLess(a, b)
    ensures a != b && !PositionLess(b, a)
  {
    LessIsTotal(a.verb, b.verb);
    LessIsIrreflexive(a.verb);
    if a.verb == b.verb { PatternLessIsStrict(a.pattern, b.pattern); }
  }

  ghost predicate Ascending(entries: seq<Position>) {
    forall i, j :: 0 <= i < j < |entries| ==> PositionLess(entries[i], entries[j])
  }

  lemma AscendingConcat(a: seq<Position>, b: seq<Position>)
    requires Ascending(a) && Ascending(b)
    requires forall x, y :: x in a && y in b ==> PositionLess(x, y)
    ensures Ascending(a + b)
  {
  }

  /** Only one order of a set of positions is ascending. */
  lemma {:induction false} AscendingIsUnique(a: seq<Position>, b: seq<Position>)
    requires Ascending(a) && Ascending(b)
    requires forall x :: x in a <==> x in b
    ensures a == b
  {
    if a == [] || b == [] {
      EmptyTogether(a, b);
      EmptyTogether(b, a);
    } else {
      HeadIsLeast(a, b[0]);
      HeadIsLeast(b, a[0]);
      if a[0] != b[0] { PositionLessIsStrict(a[0], b[0]); }
      forall x ensures x in a[1..] <==> x in b[1..] {
        HeadIsApart(a, x);
        HeadIsApart(b, x);
      }
      AscendingIsUnique(a[1..], b[1..]);
      assert a == [a[0]] + a[1..] && b == [b[0]] + b[1..];
    }
  }

  lemma EmptyTogether(a: seq<Position>, b: seq<Position>)
    requires forall x :: x in b ==> x in a
    ensures a == [] ==> b == []
  {
    assert |b| > 0 ==> b[0] in b;
  }

  lemma HeadIsLeast(a: seq<Position>, x: Position)
    requires Ascending(a) && a != [] && x in a
    ensures a[0] == x || PositionLess(a[0], x)
  {
    var i :| 0 <= i < |a| && a[i] == x;
  }

  lemma HeadIsApart(a: seq<Position>, x: Position)
    requires a != [] && Ascending(a)
    ensures x in a[1..] <==> x in a && x != a[0]
  {
    if x in a[1..] {
      var i :| 0 <= i < |a[1..]| && a[1..][i] == x;
      PositionLessIsStrict(a[0], a[i + 1]);
    }
  }

  /** The entry is a registered route. */
  predicate Registered(tables: Tables, at: Position) {
    at.pattern in TableOf(tables, at.verb)
  }

  function EntryAt(tables: Tables, at: Position): Route
    requires Registered(tables, at)
  {
    TableOf(tables, at.verb)[at.pattern]
  }

  function RoutesAt(tables: Tables, entries: seq<Position>): (routes: seq<Route>)
    requires forall at :: at in entries ==> Registered(tables, at)
    ensures |routes| == |entries|
    ensures forall i :: 0 <= i < |entries| ==> routes[i] == EntryAt(tables, entries[i])
  {
    seq(|entries|, i requires 0 <= i < |entries| && Registered(tables, entries[i]) => EntryAt(tables, entries[i]))
  }

  /** `entries` are all the registered positions, each once, in order. */
  ghost predicate ListsAll(tables: Tables, entries: seq<Position>) {
    Ascending(entries) && forall at :: at in entries <==> Registered(tables, at)
  }

  /** ... those that extend `from`. */
  ghost predicate ListsFrom(tables: Tables, from: Position, entries: seq<Position>) {
    && Ascending(entries)
    && forall at :: at in entries <==>
         Registered(tables, at) && at.verb == from.verb && from.pattern <= at.pattern
  }

  /** `routes` are all the registered routes, each once, in the order of their positions. */
  ghost predicate Lists(tables: Tables, routes: seq<Route>) {
    exists entries :: ListsAll(tables, entries) && routes == RoutesAt(tables, entries)
  }

  /** Listings are determined by the tables. */
  lemma ListingIsUnique(tables: Tables, a: seq<Route>, b: seq<Route>)
    requires Lists(tables, a) && Lists(tables, b)
    ensures a == b
  {
    var at :| ListsAll(tables, at) && a == RoutesAt(tables, at);
    var bt :| ListsAll(tables, bt) && b == RoutesAt(tables, bt);
    AscendingIsUnique(at, bt);
  }

  /** The listing from a node so far: itself, then children up to (not including) some token. */
  ghost predicate ListsUpTo(tables: Tables, from: Position, tokens: set<Token>, entries: seq<Position>) {
    && Ascending(entries)
    && forall at :: at in entries <==>
         && Registered(tables, at) && at.verb == from.verb && from.pattern <= at.pattern
         && (at.pattern == from.pattern || at.pattern[|from.pattern|] in tokens)
  }

  /** Adding the listing from a child that comes later extends the listing. */
  lemma ExtendListing(tables: Tables, from: Position, tokens: set<Token>, t: Token,
                      entries: seq<Position>, more: seq<Position>)
    requires ListsUpTo(tables, from, tokens, entries) && ListsFrom(tables, Child(from, t), more)
    requires forall s :: s in tokens ==> TokenLess(s, t)
    ensures ListsUpTo(tables, from, tokens + {t}, entries + more)
  {
    var p := from.pattern;
    forall at: Position | p <= at.pattern && at.pattern != p
      ensures p + [t] <= at.pattern <==> at.pattern[|p|] == t
    {
      assert at.pattern[..|p|] == p;
    }
    forall x, y | x in entries && y in more ensures PositionLess(x, y) {
      assert p + [t] <= y.pattern && p <= y.pattern;
      assert x.pattern[..|p|] == p == y.pattern[..|p|];
    }
    AscendingConcat(entries, more);
  }

  lemma RoutesAtConcat(tables: Tables, a: seq<Position>, b: seq<Position>)
    requires forall at :: at in a + b ==> Registered(tables, at)
    ensures forall at :: at in a ==> Registered(tables, at)
    ensures forall at :: at in b ==> Registered(tables, at)
    ensures RoutesAt(tables, a + b) == RoutesAt(tables, a) + RoutesAt(tables, b)
  {
    forall at | at in a ensures Registered(tables, at) { assert at in a + b; }
    forall at | at in b ensures Registered(tables, at) { assert at in a + b; }
  }

  /** `routes` then the routes of `entries`. */
  ghost predicate Appended(tables: Tables, routes: seq<Route>, entries: seq<Position>, longer: seq<Route>) {
    && (forall at :: at in entries ==> Registered(tables, at))
    && longer == routes + RoutesAt(tables, entries)
  }

  lemma AppendedTwice(tables: Tables, routes: seq<Route>, a: seq<Position>, mid: seq<Route>,
                      b: seq<Position>, longer: seq<Route>)
    requires Appended(tables, routes, a, mid) && Appended(tables, mid, b, longer)
    ensures Appended(tables, routes, a + b, longer)
  {
    RoutesAtConcat(tables, a, b);
  }

  /** The listing of a node before its children. */
  lemma StartListing(tables: Tables, from: Position, entries: seq<Position>)
    requires entries == if Registered(tables, from) then [from] else []
    ensures ListsUpTo(tables, from, {}, entries)
  {
    forall at: Position ensures at in entries <==> at == from && Registered(tables, from) {
      if Registered(tables, from) { assert entries[0] == from; }
    }
  }

  /** With every token that follows a node walked, the listing from it is complete. */
  lemma FinishListing(tables: Tables, from: Position, tokens: set<Token>, entries: seq<Position>)
    requires ListsUpTo(tables, from, tokens, entries)
    requires forall t :: Extends(TableOf(tables, from.verb), from.pattern, t) ==> t in tokens
    ensures ListsFrom(tables, from, entries)
  {
    var p := from.pattern;
    forall at: Position | Registered(tables, at) && at.verb == from.verb && p <= at.pattern && at.pattern != p
      ensures at.pattern[|p|] in tokens
    {
      assert p + [at.pattern[|p|]] <= at.pattern;
      assert Extends(TableOf(tables, from.verb), p, at.pattern[|p|]);
    }
  }

  /** The static tokens of the first `i` keys. */
  function Statics(keys: seq<string>, i: nat): set<Token>
    requires i <= |keys|
  {
    set j | 0 <= j < i :: Static(keys[j])
  }

  lemma StaticsInOrder(keys: seq<string>, i: nat)
    requires StrictlySorted(keys) && i < |keys|
    ensures forall s :: s in Statics(keys, i) ==> TokenLess(s, Static(keys[i]))
    ensures Statics(keys, i + 1) == Statics(keys, i) + {Static(keys[i])}
  {
  }

  lemma StaticsBeforeDynamics(statics: set<Token>, paramName: string, wildcardName: string)
    requires forall s :: s in statics ==> s.Static?
    ensures forall s :: s in statics ==> TokenLess(s, Param(paramName)) && TokenLess(s, Wildcard(wildcardName))
    ensures forall s :: s in statics + {Param(paramName)} ==> TokenLess(s, Wildcard(wildcardName))
  {
  }

  /** What a walk has done so far: the listing up to some tokens, appended to `routes`. */
  ghost predicate WalkedTo(tables: Tables, from: Position, tokens: set<Token>, entries: seq<Position>,
                           routes: seq<Route>, longer: seq<Route>)
  {
    ListsUpTo(tables, from, tokens, entries) && Appended(tables, routes, entries, longer)
  }

  lemma StartWalk(tables: Tables, from: Position, entries: seq<Position>, routes: seq<Route>, longer: seq<Route>)
    requires entries == if Registered(tables, from) then [from] else []
    requires longer == if Registered(tables, from) then routes + [EntryAt(tables, from)] else routes
    ensures WalkedTo(tables, from, {}, entries, routes, longer)
  {
    StartListing(tables, from, entries);
  }

  lemma WalkedChild(tables: Tables, from: Position, tokens: set<Token>, t: Token, entries: seq<Position>,
                    more: seq<Position>, routes: seq<Route>, before: seq<Route>, longer: seq<Route>)
    requires WalkedTo(tables, from, tokens, entries, routes, before)
    requires ListsFrom(tables, Child(from, t), more) && Appended(tables, before, more, longer)
    requires forall s :: s in tokens ==> TokenLess(s, t)
    ensures WalkedTo(tables, from, tokens + {t}, entries + more, routes, longer)
  {
    ExtendListing(tables, from, tokens, t, entries, more);
    AppendedTwice(tables, routes, entries, before, more, longer);
  }

  /** The walk after a dynamic child, which may be missing. */
  lemma WalkedDynamic(tables: Tables, from: Position, child: Node?, t: Token, tokens: set<Token>,
                      entries: seq<Position>, more: seq<Position>,
                      routes: seq<Route>, before: seq<Route>, longer: seq<Route>)
    returns (entries': seq<Position>, tokens': set<Token>)
    requires WalkedTo(tables, from, tokens, entries, routes, before)
    requires if child == null then more == [] else ListsFrom(tables, Child(from, t), more)
    requires Appended(tables, before, more, longer)
    requires forall s :: s in tokens ==> TokenLess(s, t)
    ensures tokens' == if child == null then tokens else tokens + {t}
    ensures WalkedTo(tables, from, tokens', entries', routes, longer)
  {
    if child == null {
      AppendedTwice(tables, routes, entries, before, more, longer);
      assert entries + more == entries;
      entries', tokens' := entries, tokens;
    } else {
      WalkedChild(tables, from, tokens, t, entries, more, routes, before, longer);
      entries', tokens' := entries + more, tokens + {t};
    }
  }

  ghost predicate Bounds(table: Table, bound: nat) {
    forall k :: k in table ==> |k| <= bound
  }

  /** Patterns of a finite table have a greatest length. */
  lemma {:induction false} LongestPattern(table: Table) returns (bound: nat)
    ensures Bounds(table, bound)
  {
    if table == map[] {
      bound := 0;
    } else {
      var k :| k in table;
      var rest := table - {k};
      var b := LongestPattern(rest);
      bound := if |k| > b then |k| else b;
      forall j | j in table ensures |j| <= bound {
        assert j == k || j in rest;
      }
    }
  }

  /** Listings of methods in ascending order make up the whole listing. */
  ghost predicate ListsMethods(tables: Tables, verbs: seq<string>, entries: seq<Position>) {
    Ascending(entries) && forall at :: at in entries <==> Registered(tables, at) && at.verb in verbs
  }

  lemma ExtendMethods(tables: Tables, verbs: seq<string>, i: nat, entries: seq<Position>, more: seq<Position>)
    requires StrictlySorted(verbs) && i < |verbs|
    requires ListsMethods(tables, verbs[..i], entries) && ListsFrom(tables, Position(verbs[i], []), more)
    ensures ListsMethods(tables, verbs[..i + 1], entries + more)
  {
    forall x, y | x in entries && y in more ensures PositionLess(x, y) {
      assert x.verb in verbs[..i];
    }
    AscendingConcat(entries, more);
    assert verbs[..i + 1] == verbs[..i] + [verbs[i]];
  }
}
