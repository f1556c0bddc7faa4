/** Which registered routes some path reaches, and which are reached by every path that
    matches them (routers/trie.go). Registering a route below a wildcard, or a wildcard below
    a route that also has a parameter there, is accepted but never found. */
module DeadRoutes {
  import opened Strings
  import opened Patterns
  import opened RouteTable
  import opened TrieShape
  import opened Matching

  ghost predicate Findable(table: Table, k: Pattern) {
    exists path :: Lookup(table, path).pattern == Some(k)
  }

  /** No wildcard before the last token; and a wildcard at the end either has no route right
      above it, so that it may match nothing, or no parameter beside it, so that it may match
      something. */
  ghost predicate Live(table: Table, k: Pattern) {
    && k in table
    && (forall i :: 0 <= i < |k| - 1 ==> !k[i].Wildcard?)
    && (EndsInWildcard(k) ==>
          var p := k[..|k| - 1];
          p !in table || forall x :: !Extends(table, p, Param(x)))
  }

  /** Static tokens are segments, as tokens of paths are. */
  ghost predicate StaticsAreSegments(table: Table) {
    forall k: Pattern, i :: k in table && 0 <= i < |k| && k[i].Static? ==> IsSegment(k[i].segment)
  }

  // ----- A path that reaches a live route -----

  lemma {:induction false} LongerThanAll(names: set<string>) returns (s: string)
    ensures IsSegment(s) && forall name :: name in names ==> |name| < |s|
  {
    if names == {} {
      s := "a";
    } else {
      var name :| name in names;
      var t := LongerThanAll(names - {name});
      s := seq(|t| + |name|, _ => 'a');
    }
  }

  ghost function StaticNames(table: Table): set<string> {
    set k: Pattern, i | k in table && 0 <= i < |k| && k[i].Static? :: k[i].segment
  }

  lemma ExtendedIsNamed(table: Table, p: Pattern, s: string)
    requires Extends(table, p, Static(s))
    ensures s in StaticNames(table)
  {
    var k: Pattern :| k in table && p + [Static(s)] <= k;
    assert k[|p|] == (p + [Static(s)])[|p|] == Static(s);
  }

  /** A segment for which nothing static is registered anywhere. */
  lemma NewSegment(table: Table) returns (s: string)
    ensures IsSegment(s) && forall p :: !Extends(table, p, Static(s))
  {
    s := LongerThanAll(StaticNames(table));
    forall p ensures !Extends(table, p, Static(s)) {
      if Extends(table, p, Static(s)) {
        ExtendedIsNamed(table, p, s);
      }
    }
  }

  /** The segments of a pattern's tokens, `other` for all but the static ones. */
  function Spelled(k: Pattern, other: string): (segs: seq<string>)
    ensures |segs| == |k|
    ensures forall i :: 0 <= i < |k| ==> segs[i] == if k[i].Static? then k[i].segment else other
  {
    if k == [] then []
    else [if k[0].Static? then k[0].segment else other] + Spelled(k[1..], other)
  }

  function PathOf(segs: seq<string>): string {
    if segs == [] then "" else segs[0] + "/" + PathOf(segs[1..])
  }

  lemma {:induction false} SegmentsOfPath(segs: seq<string>)
    requires forall i :: 0 <= i < |segs| ==> IsSegment(segs[i])
    ensures Segments(PathOf(segs)) == segs
  {
    if segs != [] {
      SegmentsOfPath(segs[1..]);
      SegmentsOfConcat(segs[0], PathOf(segs[1..]));
      SegmentsWithoutSlash(segs[0]);
    }
  }

  lemma LiveWins(table: Table, k: Pattern) returns (segs: seq<string>)
    requires StaticsAreSegments(table) && Live(table, k)
    ensures Wins(table, k, segs) && forall i :: 0 <= i < |segs| ==> IsSegment(segs[i])
  {
    var other := NewSegment(table);
    segs := Spelled(k, other);
    if EndsInWildcard(k) && k[..|k| - 1] !in table {
      segs := segs[..|k| - 1];
    }
    forall i | 0 <= i < |k| ensures !Overtaken(table, k, segs, i) {
    }
  }

  /** A registered route is found for some path if and only if it is live. */
  lemma FindableIffLiveIn(table: Table, k: Pattern)
    requires Consistent(table) && StaticsAreSegments(table)
    ensures Findable(table, k) <==> Live(table, k)
  {
    if Live(table, k) {
      var segs := LiveWins(table, k);
      SegmentsOfPath(segs);
      LookupIsExact(table, PathOf(segs), k);
    }
    if path :| Lookup(table, path).pattern == Some(k) {
      LookupIsExact(table, path, k);
      WinnerIsLive(table, k, Segments(path));
    }
  }

  lemma WinnerIsLive(table: Table, k: Pattern, segs: seq<string>)
    requires Wins(table, k, segs)
    ensures Live(table, k)
  {
    forall i | 0 <= i < |k| - 1 ensures !k[i].Wildcard? {
      assert Accepts(k[i], segs[i]);
    }
    if EndsInWildcard(k) {
      assert !Overtaken(table, k, segs, |k| - 1);
    }
  }

  // ----- For a router -----

  lemma {:induction false} SegmentsAreSegments(s: string)
    ensures forall i :: 0 <= i < |Segments(s)| ==> IsSegment(Segments(s)[i])
    decreases |s|
  {
    if s != "" {
      CutIsSegment(s);
      SegmentsAreSegments(Cut(s).1);
    }
  }

  lemma FiledHasSegments(config: RouterConfig, tables: Tables, verb: string)
    requires WellFiled(config, tables)
    ensures Consistent(TableOf(tables, verb)) && StaticsAreSegments(TableOf(tables, verb))
  {
    var table := TableOf(tables, verb);
    forall k: Pattern, i | k in table && 0 <= i < |k| && k[i].Static? ensures IsSegment(k[i].segment) {
      assert RouteFiled(config, tables[verb][k], verb, k);
      var path := table[k].path;
      SegmentsAreSegments(path);
      assert k[i] == Classify(config, Segments(path)[i]);
    }
  }

  /** In a router, whatever was registered: a route is found for some path if and only if it
      is live. */
  lemma FindableIffLive(config: RouterConfig, tables: Tables, verb: string, k: Pattern)
    requires WellFiled(config, tables)
    ensures Findable(TableOf(tables, verb), k) <==> Live(TableOf(tables, verb), k)
  {
    FiledHasSegments(config, tables, verb);
    FindableIffLiveIn(TableOf(tables, verb), k);
  }

  /** A route below a wildcard is registered and never found. */
  lemma BelowWildcardExample(config: RouterConfig, tables: Tables, verb: string, p: Pattern, name: string, q: Pattern)
    requires WellFiled(config, tables) && q != []
    ensures !Findable(TableOf(tables, verb), p + [Wildcard(name)] + q)
  {
    var k := p + [Wildcard(name)] + q;
    assert k[|p|] == Wildcard(name);
    FindableIffLive(config, tables, verb, k);
  }

  // ----- Routes that no other can hide -----

  /** Every path that matches the route finds it. */
  ghost predicate AlwaysFound(table: Table, k: Pattern) {
    forall path :: Matches(k, Segments(path)) ==> Lookup(table, path).pattern == Some(k)
  }

  /** Nothing static beside a parameter of the route, and nothing at all beside or right above
      a wildcard at its end. */
  ghost predicate Unrivalled(table: Table, k: Pattern) {
    && (forall i, s :: 0 <= i < |k| && k[i].Param? ==> !Extends(table, k[..i], Static(s)))
    && (EndsInWildcard(k) ==>
          var p := k[..|k| - 1];
          p !in table && forall t :: Extends(table, p, t) ==> t.Wildcard?)
  }

  predicate HasInnerWildcard(k: Pattern) {
    exists i :: 0 <= i < |k| - 1 && k[i].Wildcard?
  }

  lemma UnrivalledWins(table: Table, k: Pattern, segs: seq<string>)
    requires k in table && Unrivalled(table, k) && !HasInnerWildcard(k) && Matches(k, segs)
    ensures Wins(table, k, segs)
  {
    forall i | 0 <= i < |k| ensures !Overtaken(table, k, segs, i) {
    }
  }

  /** Segments that match the tokens of a pattern but for a final wildcard, which gets none. */
  function Plain(k: Pattern, other: string): (segs: seq<string>)
    ensures |segs| == if EndsInWildcard(k) then |k| - 1 else |k|
    ensures forall i :: 0 <= i < |segs| ==> segs[i] == if k[i].Static? then k[i].segment else other
  {
    if EndsInWildcard(k) then Spelled(k, other)[..|k| - 1] else Spelled(k, other)
  }

  lemma PlainMatches(table: Table, k: Pattern, other: string)
    requires StaticsAreSegments(table) && k in table && !HasInnerWildcard(k) && IsSegment(other)
    ensures Matches(k, Plain(k, other))
    ensures forall i :: 0 <= i < |Plain(k, other)| ==> IsSegment(Plain(k, other)[i])
  {
  }

  /** A static rival of a parameter hides the route. */
  lemma ParamRivalHides(table: Table, k: Pattern, other: string, i: nat, s: string) returns (segs: seq<string>)
    requires StaticsAreSegments(table) && k in table && !HasInnerWildcard(k) && IsSegment(other)
    requires i < |k| && k[i].Param? && Extends(table, k[..i], Static(s))
    ensures Matches(k, segs) && !Wins(table, k, segs) && forall i :: 0 <= i < |segs| ==> IsSegment(segs[i])
  {
    PlainMatches(table, k, other);
    StaticIsSegment(table, k[..i], s);
    segs := Plain(k, other)[i := s];
    assert Overtaken(table, k, segs, i);
  }

  /** So does a rival of the wildcard at its end, or a route right above it. */
  lemma EndRivalHides(table: Table, k: Pattern, other: string) returns (segs: seq<string>)
    requires StaticsAreSegments(table) && k in table && !HasInnerWildcard(k) && IsSegment(other)
    requires EndsInWildcard(k)
    requires k[..|k| - 1] in table || exists t :: Extends(table, k[..|k| - 1], t) && !t.Wildcard?
    ensures Matches(k, segs) && !Wins(table, k, segs) && forall i :: 0 <= i < |segs| ==> IsSegment(segs[i])
  {
    var p := k[..|k| - 1];
    PlainMatches(table, k, other);
    segs := Plain(k, other);
    if p !in table {
      var t :| Extends(table, p, t) && !t.Wildcard?;
      if t.Static? {
        StaticIsSegment(table, p, t.segment);
        segs := segs + [t.segment];
      } else {
        segs := segs + [other];
        assert Extends(table, p, Param(t.name));
      }
    }
    assert Overtaken(table, k, segs, |k| - 1);
  }

  lemma RivalHides(table: Table, k: Pattern) returns (segs: seq<string>)
    requires StaticsAreSegments(table) && k in table && !Unrivalled(table, k) && !HasInnerWildcard(k)
    ensures Matches(k, segs) && !Wins(table, k, segs) && forall i :: 0 <= i < |segs| ==> IsSegment(segs[i])
  {
    var other := NewSegment(table);
    if i, s :| 0 <= i < |k| && k[i].Param? && Extends(table, k[..i], Static(s)) {
      segs := ParamRivalHides(table, k, other, i, s);
    } else {
      segs := EndRivalHides(table, k, other);
    }
  }

  lemma StaticIsSegment(table: Table, p: Pattern, s: string)
    requires StaticsAreSegments(table) && Extends(table, p, Static(s))
    ensures IsSegment(s)
  {
    var k: Pattern :| k in table && p + [Static(s)] <= k;
    assert k[|p|] == (p + [Static(s)])[|p|] == Static(s);
  }

  lemma AlwaysFoundIffIn(table: Table, k: Pattern)
    requires Consistent(table) && StaticsAreSegments(table) && k in table
    ensures AlwaysFound(table, k) <==> Unrivalled(table, k) || HasInnerWildcard(k)
  {
    forall path ensures Lookup(table, path).pattern == Some(k) <==> Wins(table, k, Segments(path)) {
      LookupIsExact(table, path, k);
    }
    if HasInnerWildcard(k) {
      var i :| 0 <= i < |k| - 1 && k[i].Wildcard?;
      forall segs ensures !Matches(k, segs) {
        assert |k| - 1 <= |segs| ==> !Accepts(k[i], segs[i]);
      }
    } else if Unrivalled(table, k) {
      forall path | Matches(k, Segments(path)) ensures Lookup(table, path).pattern == Some(k) {
        UnrivalledWins(table, k, Segments(path));
      }
    } else {
      var segs := RivalHides(table, k);
      SegmentsOfPath(segs);
      assert Matches(k, Segments(PathOf(segs)));
    }
  }

  /** In a router a registered route is found by every path that matches it if and only if it
      has no rival, or matches nothing since it goes on after a wildcard. */
  lemma AlwaysFoundIffUnrivalled(config: RouterConfig, tables: Tables, verb: string, k: Pattern)
    requires WellFiled(config, tables) && k in TableOf(tables, verb)
    ensures AlwaysFound(TableOf(tables, verb), k) <==> Unrivalled(TableOf(tables, verb), k) || HasInnerWildcard(k)
  {
    FiledHasSegments(config, tables, verb);
    AlwaysFoundIffIn(TableOf(tables, verb), k);
  }
}
