/** What greedy search returns, said without the search: which pattern wins, when no
    pattern wins although one matches, and what the captures are. */
module Matching {
  import opened Strings
  import opened Patterns
  import opened RouteTable

  predicate Accepts(t: Token, seg: string) {
    t.Param? || t == Static(seg)
  }

  predicate EndsInWildcard(k: Pattern) {
    |k| > 0 && k[|k| - 1].Wildcard?
  }

  /** A pattern matches token by token; a final wildcard takes any number of segments.
      A wildcard anywhere else matches nothing. */
  ghost predicate Matches(k: Pattern, segs: seq<string>) {
    if EndsInWildcard(k) then
      |k| - 1 <= |segs| && forall i :: 0 <= i < |k| - 1 ==> Accepts(k[i], segs[i])
    else
      |k| == |segs| && forall i :: 0 <= i < |k| ==> Accepts(k[i], segs[i])
  }

  /** At position `i` of the pattern something of higher priority is registered. */
  ghost predicate Overtaken(table: Table, k: Pattern, segs: seq<string>, i: nat)
    requires i < |k|
  {
    var p := k[..i];
    match k[i]
    case Static(_) => false
    case Param(_) => i < |segs| && Extends(table, p, Static(segs[i]))
    case Wildcard(_) =>
      if i < |segs| then Extends(table, p, Static(segs[i])) || exists x :: Extends(table, p, Param(x))
      else p in table
  }

  ghost predicate Shadowed(table: Table, k: Pattern, segs: seq<string>) {
    exists i :: 0 <= i < |k| && Overtaken(table, k, segs, i)
  }

  /** The pattern a lookup must return. */
  ghost predicate Wins(table: Table, k: Pattern, segs: seq<string>) {
    k in table && Matches(k, segs) && !Shadowed(table, k, segs)
  }

  /** The first |p| tokens of `p` accept the first |p| segments and none is overtaken. */
  ghost predicate Followed(table: Table, p: Pattern, segs: seq<string>) {
    && HasPrefix(table, p)
    && |p| <= |segs|
    && (forall i :: 0 <= i < |p| ==> Accepts(p[i], segs[i]))
    && !Shadowed(table, p, segs)
  }

  lemma FollowedIsPlain(table: Table, p: Pattern, segs: seq<string>)
    requires Followed(table, p, segs)
    ensures !EndsInWildcard(p)
  {
    if |p| > 0 { assert Accepts(p[|p| - 1], segs[|p| - 1]); }
  }

  lemma FollowStep(table: Table, p: Pattern, segs: seq<string>, t: Token)
    requires Followed(table, p, segs) && |p| < |segs|
    requires Extends(table, p, t) && Accepts(t, segs[|p|])
    requires t.Param? ==> !Extends(table, p, Static(segs[|p|]))
    ensures Followed(table, p + [t], segs)
  {
    var q := p + [t];
    assert q[..|p|] == p;
    forall i | 0 <= i < |q| ensures !Overtaken(table, q, segs, i) {
      if i < |p| {
        assert q[..i] == p[..i] && !Overtaken(table, p, segs, i);
      }
    }
  }

  /** A winner reached through `p` continues with the token the search picks. */
  lemma WinnerContinues(table: Table, p: Pattern, segs: seq<string>, k: Pattern)
    requires Consistent(table) && Followed(table, p, segs) && |p| < |segs|
    requires Wins(table, k, segs) && p <= k
    ensures |p| < |k|
    ensures Extends(table, p, k[|p|])
    ensures Extends(table, p, Static(segs[|p|])) ==> k[|p|] == Static(segs[|p|])
    ensures (!Extends(table, p, Static(segs[|p|])) && ParamAt(table, p).Some?) ==>
              k[|p|] == Param(ParamAt(table, p).value)
    ensures (!Extends(table, p, Static(segs[|p|])) && ParamAt(table, p).None?) ==>
              k[|p|].Wildcard? && k == p + [k[|p|]]
  {
    FollowedIsPlain(table, p, segs);
    assert |k| == |p| ==> k == p;
    var t := k[|p|];
    assert k[..|p|] == p && p + [t] <= k;
    assert !Overtaken(table, k, segs, |p|);
    if t.Param? && ParamAt(table, p).Some? {
      NamesAreUnique(table, p, t, Param(ParamAt(table, p).value));
    }
    if t.Wildcard? {
      assert !Accepts(t, segs[|p|]);
      assert |k| == |p| + 1;
    }
  }

  /** A wildcard after a followed prefix: what it takes to win. */
  lemma WildcardWins(table: Table, p: Pattern, segs: seq<string>, name: string)
    requires Followed(table, p, segs)
    requires |p| < |segs| ==> !Extends(table, p, Static(segs[|p|])) && ParamAt(table, p).None?
    requires |p| == |segs| ==> p !in table
    ensures Wins(table, p + [Wildcard(name)], segs) <==> p + [Wildcard(name)] in table
  {
    var k := p + [Wildcard(name)];
    forall i | 0 <= i < |k| ensures !Overtaken(table, k, segs, i) {
      assert k[..i] == p[..i];
      if i < |p| { assert !Overtaken(table, p, segs, i); }
      assert p[..|p|] == p;
    }
  }

  /** At the end of the path only the prefix itself or an empty wildcard can win. */
  lemma WinnerAtEnd(table: Table, p: Pattern, segs: seq<string>, k: Pattern)
    requires Followed(table, p, segs) && |p| == |segs|
    requires Wins(table, k, segs) && p <= k
    ensures k == p || (p !in table && exists x :: k == p + [Wildcard(x)])
    ensures p in table ==> k == p
  {
    if |k| > |p| {
      assert |k| == |p| + 1 && k == p + [k[|p|]];
      assert !Overtaken(table, k, segs, |p|);
      assert k[..|p|] == p;
      assert k == p + [Wildcard(k[|p|].name)];
    }
  }

  lemma {:induction false} SearchIsExact(table: Table, p: Pattern, s: string, segs: seq<string>, k: Pattern)
    requires Consistent(table) && Followed(table, p, segs)
    requires Segments(s) == segs[|p|..]
    ensures Search(table, p, s).pattern == Some(k) <==> p <= k && Wins(table, k, segs)
    decreases |s|
  {
    if segs[|p|..] == [] && s == "" {
      SearchAtEnd(table, p, segs, k);
    } else {
      var i := IndexByte(s, '/');
      if i == 0 {
        SearchIsExact(table, p, s[1..], segs, k);
      } else {
        var part := if i < 0 then s else s[..i];
        var rest := if i < 0 then "" else s[i + 1..];
        assert Segments(s) == [part] + Segments(rest);
        assert segs[|p|] == segs[|p|..][0] == part;
        assert segs[|p| + 1..] == segs[|p|..][1..] == Segments(rest);
        if p <= k && Wins(table, k, segs) {
          WinnerContinues(table, p, segs, k);
        }
        if Extends(table, p, Static(part)) {
          SearchThrough(table, p, s, rest, segs, k, Static(part));
        } else if ParamAt(table, p).Some? {
          SearchThrough(table, p, s, rest, segs, k, Param(ParamAt(table, p).value));
        } else {
          SearchIntoWildcard(table, p, s, segs, k);
        }
      }
    }
  }

  lemma SearchThrough(table: Table, p: Pattern, s: string, rest: string, segs: seq<string>, k: Pattern, t: Token)
    requires Consistent(table) && Followed(table, p, segs) && |p| < |segs| && |rest| < |s|
    requires Segments(rest) == segs[|p| + 1..]
    requires Extends(table, p, t) && Accepts(t, segs[|p|])
    requires t.Param? ==> !Extends(table, p, Static(segs[|p|]))
    requires p <= k && Wins(table, k, segs) ==> |p| < |k| && k[|p|] == t
    ensures Search(table, p + [t], rest).pattern == Some(k) <==> p <= k && Wins(table, k, segs)
    decreases |s|, 0
  {
    FollowStep(table, p, segs, t);
    SearchIsExact(table, p + [t], rest, segs, k);
    if p <= k && Wins(table, k, segs) { assert p + [t] <= k; }
  }

  lemma SearchIntoWildcard(table: Table, p: Pattern, s: string, segs: seq<string>, k: Pattern)
    requires Consistent(table) && Followed(table, p, segs) && |p| < |segs|
    requires s != "" && IndexByte(s, '/') != 0
    requires segs[|p|] == if IndexByte(s, '/') < 0 then s else s[..IndexByte(s, '/')]
    requires !Extends(table, p, Static(segs[|p|])) && ParamAt(table, p).None?
    ensures Search(table, p, s).pattern == Some(k) <==> p <= k && Wins(table, k, segs)
  {
    var step := NextStep(table, p, segs[|p|]);
    assert step == if WildcardAt(table, p).Some? then ToWildcard(WildcardAt(table, p).value) else Nowhere;
    assert Search(table, p, s).pattern == Stopped(table, p, step) by {
      assert Cut(s).0 == segs[|p|];
    }
    if p <= k && Wins(table, k, segs) {
      WinnerContinues(table, p, segs, k);
      if WildcardAt(table, p).Some? {
        NamesAreUnique(table, p, k[|p|], Wildcard(WildcardAt(table, p).value));
      }
    }
    if WildcardAt(table, p).Some? {
      WildcardWins(table, p, segs, WildcardAt(table, p).value);
    }
  }

  lemma SearchAtEnd(table: Table, p: Pattern, segs: seq<string>, k: Pattern)
    requires Consistent(table) && Followed(table, p, segs) && |p| == |segs|
    ensures Search(table, p, "").pattern == Some(k) <==> p <= k && Wins(table, k, segs)
  {
    if p <= k && Wins(table, k, segs) {
      WinnerAtEnd(table, p, segs, k);
      if k != p {
        var x :| k == p + [Wildcard(x)];
        assert Extends(table, p, Wildcard(x));
        NamesAreUnique(table, p, Wildcard(x), Wildcard(WildcardAt(table, p).value));
      }
    }
    FollowedIsPlain(table, p, segs);
    if p !in table && WildcardAt(table, p).Some? {
      WildcardWins(table, p, segs, WildcardAt(table, p).value);
    }
  }

  /** The lookup returns exactly the unshadowed match. */
  lemma LookupIsExact(table: Table, path: string, k: Pattern)
    requires Consistent(table)
    ensures Lookup(table, path).pattern == Some(k) <==> Wins(table, k, Segments(path))
  {
    SegmentsOfStripOne(path);
    var segs := Segments(path);
    if table == map[] {
      EmptyTableFindsNothing([], StripOne(path));
    } else {
      var j :| j in table;
      assert [] <= j && segs == segs[0..];
      SearchIsExact(table, [], StripOne(path), segs, k);
    }
  }

  lemma {:induction false} EmptyTableFindsNothing(p: Pattern, s: string)
    ensures Search(map[], p, s).pattern == None
    decreases |s|
  {
    if s != "" {
      var (part, rest) := Cut(s);
      if part == "" {
        EmptyTableFindsNothing(p, rest);
      } else {
        assert NextStep(map[], p, part) == Nowhere;
      }
    }
  }

  /** The route found depends on the segments of the path only, however it is slashed. */
  lemma LookupDependsOnSegments(table: Table, path1: string, path2: string)
    requires Consistent(table) && Segments(path1) == Segments(path2)
    ensures Lookup(table, path1).pattern == Lookup(table, path2).pattern
  {
    var r1, r2 := Lookup(table, path1).pattern, Lookup(table, path2).pattern;
    if r1.Some? { LookupIsExact(table, path1, r1.value); LookupIsExact(table, path2, r1.value); }
    if r2.Some? { LookupIsExact(table, path1, r2.value); LookupIsExact(table, path2, r2.value); }
  }

  // ----- Best match -----

  /** Priority of what a pattern has at position `i`: its end, a static token,
      a parameter, a wildcard. */
  function Rank(k: Pattern, i: nat): nat
    requires i <= |k|
  {
    if i == |k| then 3
    else
      match k[i]
      case Static(_) => 2
      case Param(_) => 1
      case Wildcard(_) => 0
  }

  /** `a` is preferred to `b` at the first position where they differ. */
  ghost predicate Better(a: Pattern, b: Pattern) {
    exists i :: 0 <= i <= |a| && i <= |b| && a[..i] == b[..i] && Rank(a, i) > Rank(b, i)
  }

  /** Preference is a strict order: never mutual. */
  lemma BetterIsAsymmetric(a: Pattern, b: Pattern)
    requires Better(a, b)
    ensures !Better(b, a) && a != b
  {
    var i :| 0 <= i <= |a| && i <= |b| && a[..i] == b[..i] && Rank(a, i) > Rank(b, i);
    forall j | 0 <= j <= |a| && j <= |b| && a[..j] == b[..j]
      ensures Rank(a, j) >= Rank(b, j)
    {
      EqualRanks(a, b, i, j);
      EqualRanks(a, b, j, i);
    }
  }

  lemma EqualRanks(a: Pattern, b: Pattern, i: nat, j: nat)
    requires i <= |a| && i <= |b| && a[..i] == b[..i]
    ensures j < i ==> Rank(a, j) == Rank(b, j)
  {
    if j < i { assert a[..i][j] == b[..i][j]; }
  }

  function CommonLength(a: Pattern, b: Pattern): (i: nat)
    ensures i <= |a| && i <= |b| && a[..i] == b[..i]
    ensures i < |a| && i < |b| ==> a[i] != b[i]
  {
    if a == [] || b == [] || a[0] != b[0] then 0
    else
      var i := 1 + CommonLength(a[1..], b[1..]);
      assert a[..i] == [a[0]] + a[1..][..i - 1] && b[..i] == [b[0]] + b[1..][..i - 1];
      i
  }

  lemma WinnerIsPreferred(table: Table, segs: seq<string>, k: Pattern, other: Pattern)
    requires Consistent(table) && Wins(table, k, segs)
    requires other in table && Matches(other, segs) && other != k
    ensures Better(k, other)
  {
    var i := CommonLength(k, other);
    if i == |k| || i == |other| {
      PrefixIsPreferred(table, segs, k, other);
    } else {
      assert k[..i] + [other[i]] <= other && Extends(table, k[..i], other[i]);
      assert Compatible(k, other) && !Overtaken(table, k, segs, i);
      assert Rank(k, i) > Rank(other, i);
    }
  }

  lemma ShorterMatchShadows(table: Table, segs: seq<string>, k: Pattern, other: Pattern)
    requires Matches(k, segs) && Matches(other, segs)
    requires other in table && other <= k && other != k
    ensures Shadowed(table, k, segs)
  {
    assert other == k[..|other|];
    assert |other| > 0 ==> other[|other| - 1] == k[|other| - 1];
    assert Overtaken(table, k, segs, |other|);
  }

  lemma PrefixIsPreferred(table: Table, segs: seq<string>, k: Pattern, other: Pattern)
    requires Wins(table, k, segs)
    requires other in table && Matches(other, segs) && other != k
    requires k <= other || other <= k
    ensures Better(k, other)
  {
    if other <= k {
      ShorterMatchShadows(table, segs, k, other);
    }
    var i := |k|;
    assert k[..i] == other[..i];
    assert i > 0 ==> k[i - 1] == other[i - 1];
    assert Rank(k, i) > Rank(other, i);
  }

  /** Of all the routes that match, the one found is preferred to every other:
      it is the unique maximum, although the search never backtracks. */
  lemma FoundIsBest(table: Table, path: string, k: Pattern, other: Pattern)
    requires Consistent(table)
    requires Lookup(table, path).pattern == Some(k)
    requires other in table && Matches(other, Segments(path)) && other != k
    ensures Matches(k, Segments(path)) && Better(k, other)
  {
    LookupIsExact(table, path, k);
    WinnerIsPreferred(table, Segments(path), k, other);
  }

  // ----- Completeness -----

  ghost predicate SomeMatch(table: Table, segs: seq<string>) {
    exists k :: k in table && Matches(k, segs)
  }

  /** When a lookup fails although a registered route matches: exactly when every
      matching route is shadowed by something of higher priority on its way. */
  lemma FailsDespiteMatch(table: Table, path: string)
    requires Consistent(table)
    ensures (SomeMatch(table, Segments(path)) && Lookup(table, path).pattern == None)
       <==> (SomeMatch(table, Segments(path))
             && forall k :: k in table && Matches(k, Segments(path)) ==> Shadowed(table, k, Segments(path)))
  {
    var segs := Segments(path);
    var found := Lookup(table, path).pattern;
    if found.Some? {
      LookupIsExact(table, path, found.value);
    }
    forall k | k in table && Matches(k, segs) && !Shadowed(table, k, segs)
      ensures found == Some(k)
    {
      LookupIsExact(table, path, k);
    }
  }

  /** Not an idle case: with /a/b and /:x/c registered, /a/c is not found. */
  lemma ShadowedExample(b: Route, c: Route)
    ensures var table := map[[Static("a"), Static("b")] := b, [Param("x"), Static("c")] := c];
            Consistent(table) && SomeMatch(table, Segments("/a/c")) && Lookup(table, "/a/c").pattern == None
  {
    var ab := [Static("a"), Static("b")];
    var xc := [Param("x"), Static("c")];
    var table := map[ab := b, xc := c];
    var segs := ["a", "c"];
    ExampleSegments();
    assert xc in table && Matches(xc, segs);
    assert [] + [Static("a")] <= ab && ab in table && Extends(table, [], Static("a"));
    assert Overtaken(table, xc, segs, 0);
    FailsDespiteMatch(table, "/a/c");
  }

  lemma ExampleSegments()
    ensures Segments("/a/c") == ["a", "c"]
  {
    SegmentsOfConcat("/a", "c");
    SegmentsOfLeadingSlash("/a");
    SegmentsWithoutSlash("a");
    SegmentsWithoutSlash("c");
    assert "/a/c" == "/a" + "/" + "c" && "/a"[1..] == "a";
  }

  /** At most one kind of token follows each registered prefix. */
  ghost predicate Unambiguous(table: Table) {
    forall p, s, t :: Extends(table, p, s) && Extends(table, p, t) ==>
      (s.Static? <==> t.Static?) && (s.Param? <==> t.Param?)
  }

  /** Without ambiguous prefixes nothing is missed: a lookup succeeds exactly when some
      route matches; and an exact route is found before a wildcard matching nothing. */
  lemma UnambiguousIsComplete(table: Table, path: string)
    requires Consistent(table) && Unambiguous(table)
    ensures Lookup(table, path).pattern.Some? <==> SomeMatch(table, Segments(path))
  {
    var segs := Segments(path);
    if Lookup(table, path).pattern.Some? {
      LookupIsExact(table, path, Lookup(table, path).pattern.value);
    }
    if SomeMatch(table, segs) {
      var k :| k in table && Matches(k, segs);
      UnambiguousWinner(table, segs, k);
      if Wins(table, k, segs) {
        LookupIsExact(table, path, k);
      } else {
        LookupIsExact(table, path, k[..|k| - 1]);
      }
    }
  }

  lemma UnambiguousWinner(table: Table, segs: seq<string>, k: Pattern)
    requires Consistent(table) && Unambiguous(table)
    requires k in table && Matches(k, segs)
    ensures Wins(table, k, segs) || (EndsInWildcard(k) && Wins(table, k[..|k| - 1], segs))
  {
    forall i | 0 <= i < |k| && Overtaken(table, k, segs, i)
      ensures EndsInWildcard(k) && i == |k| - 1 == |segs| && k[..i] in table
    {
      assert k[..i] + [k[i]] <= k && Extends(table, k[..i], k[i]);
    }
    if Shadowed(table, k, segs) {
      var p := k[..|k| - 1];
      forall i | 0 <= i < |p| ensures !Overtaken(table, p, segs, i) {
        assert p[..i] == k[..i] && p[i] == k[i];
        assert !Overtaken(table, k, segs, i);
      }
      assert |p| > 0 ==> Accepts(k[|p| - 1], segs[|p| - 1]);
    }
  }

  // ----- Captures -----

  /** The dynamic tokens of a pattern, in order. */
  function Dynamic(k: Pattern): (d: Pattern)
    ensures forall i :: 0 <= i < |d| ==> !d[i].Static?
  {
    if k == [] then []
    else (if k[0].Static? then [] else [k[0]]) + Dynamic(k[1..])
  }

  /** The segments a pattern stands for once each dynamic token has its value. */
  function Substitute(k: Pattern, values: seq<Capture>): seq<string>
    requires |values| == |Dynamic(k)|
  {
    if k == [] then []
    else
      match k[0]
      case Static(segment) => [segment] + Substitute(k[1..], values)
      case Param(_) => [values[0].value] + Substitute(k[1..], values[1..])
      case Wildcard(_) => Segments(values[0].value) + Substitute(k[1..], values[1..])
  }

  /** Captures carry the names of the dynamic tokens in order; a parameter's value is one
      non-empty segment. */
  ghost predicate Fitting(k: Pattern, captures: seq<Capture>) {
    var d := Dynamic(k);
    && |captures| == |d|
    && forall i :: 0 <= i < |d| ==>
         captures[i].key == d[i].name && (d[i].Param? ==> IsSegment(captures[i].value))
  }

  /** Putting the captures back into the pattern gives the segments of the path. */
  ghost predicate RoundTrip(k: Pattern, captures: seq<Capture>, segs: seq<string>) {
    Fitting(k, captures) && Substitute(k, captures) == segs
  }

  lemma StaticRoundTrip(k: Pattern, captures: seq<Capture>, part: string, segs: seq<string>)
    requires RoundTrip(k, captures, segs)
    ensures RoundTrip([Static(part)] + k, captures, [part] + segs)
  {
    assert ([Static(part)] + k)[1..] == k;
  }

  lemma ParamRoundTrip(k: Pattern, captures: seq<Capture>, name: string, part: string, segs: seq<string>)
    requires RoundTrip(k, captures, segs) && IsSegment(part)
    ensures RoundTrip([Param(name)] + k, [Capture(name, part)] + captures, [part] + segs)
  {
    assert ([Param(name)] + k)[1..] == k;
    assert ([Capture(name, part)] + captures)[1..] == captures;
    assert Dynamic([Param(name)] + k) == [Param(name)] + Dynamic(k);
  }

  lemma WildcardRoundTrip(name: string, left: string)
    ensures RoundTrip([Wildcard(name)], [Capture(name, left)], Segments(left))
  {
    assert [Wildcard(name)][1..] == [] && [Capture(name, left)][1..] == [];
    assert Dynamic([Wildcard(name)]) == [Wildcard(name)];
  }

  lemma {:induction false} CapturesRoundTrip(table: Table, p: Pattern, s: string, k: Pattern)
    requires Search(table, p, s).pattern == Some(k)
    ensures k in table && p <= k
    ensures RoundTrip(k[|p|..], Search(table, p, s).captures, Segments(s))
    decreases |s|, 0
  {
    if s == "" {
      if k != p {
        WildcardRoundTrip(WildcardAt(table, p).value, "");
        assert k[|p|..] == [Wildcard(WildcardAt(table, p).value)];
      }
    } else {
      var (part, rest) := Cut(s);
      CutIsSegment(s);
      if part == "" {
        CapturesRoundTrip(table, p, rest, k);
      } else {
        var step := NextStep(table, p, part);
        if Moves(step) {
          CapturesRoundTripThrough(table, p, step, part, s, rest, k);
        } else {
          WildcardRoundTrip(step.name, s);
          assert k[|p|..] == [Wildcard(step.name)];
        }
      }
    }
  }

  lemma {:induction false} CapturesRoundTripThrough(table: Table, p: Pattern, step: Step, part: string,
                                                    s: string, rest: string, k: Pattern)
    requires Moves(step) && IsSegment(part)
    requires Search(table, p + [Via(step, part)], rest).pattern == Some(k)
    ensures k in table && p <= k
    ensures RoundTrip(k[|p|..], StepCaptures(step, part, s) + Search(table, p + [Via(step, part)], rest).captures,
                      [part] + Segments(rest))
    decreases |rest|, 1
  {
    var t := Via(step, part);
    CapturesRoundTrip(table, p + [t], rest, k);
    var q, captures := k[|p + [t]|..], Search(table, p + [t], rest).captures;
    assert k[|p|] == (p + [t])[|p|] == t;
    assert k[|p|..] == [t] + q;
    if step.ToParam? {
      ParamRoundTrip(q, captures, step.name, part, Segments(rest));
    } else {
      StaticRoundTrip(q, captures, part, Segments(rest));
      assert [] + captures == captures;
    }
  }

  lemma LookupCaptures(table: Table, path: string, k: Pattern)
    requires Lookup(table, path).pattern == Some(k)
    ensures RoundTrip(k, Lookup(table, path).captures, Segments(path))
  {
    CapturesRoundTrip(table, [], StripOne(path), k);
    SegmentsOfStripOne(path);
    assert k[0..] == k;
  }
}
