/** Route patterns: how a path is turned into tokens by the configured parsers
    (router.go, and the path handling of `TrieRouter.Add`). */
module Patterns {
  import opened Strings

  datatype Token =
    | Static(segment: string)
    | Param(name: string)
    | Wildcard(name: string)

  type Pattern = seq<Token>

  /** A parser says whether a segment is its kind of token and gives the name. */
  type Parser = string -> (bool, string)

  /** Either parser may be nil. */
  datatype RouterConfig = RouterConfig(paramParser: Option<Parser>, wildcardParser: Option<Parser>)

  function DefaultParamParser(segment: string): (bool, string) {
    if |segment| > 0 && segment[0] == ':' then (true, segment[1..])
    else if |segment| > 2 && segment[0] == '{' && segment[|segment| - 1] == '}' then
      (true, segment[1..|segment| - 1])
    else (false, "")
  }

  function DefaultWildcardParser(segment: string): (bool, string) {
    if |segment| > 0 && segment[0] == '*' then (true, segment[1..]) else (false, "")
  }

  function DefaultRouterConfig(): RouterConfig {
    RouterConfig(Some(DefaultParamParser), Some(DefaultWildcardParser))
  }

  /** The parameter parser is asked first; the wildcard parser only if it declines. */
  function Classify(config: RouterConfig, part: string): Token {
    var (isParam, paramName) :=
      if config.paramParser.Some? then config.paramParser.value(part) else (false, "");
    if isParam then Param(paramName)
    else
      var (isWildcard, wildcardName) :=
        if config.wildcardParser.Some? then config.wildcardParser.value(part) else (false, "");
      if isWildcard then Wildcard(wildcardName) else Static(part)
  }

  function ClassifyAll(config: RouterConfig, parts: seq<string>): (p: Pattern)
    ensures |p| == |parts|
    ensures forall i :: 0 <= i < |p| ==> p[i] == Classify(config, parts[i])
  {
    if parts == [] then [] else [Classify(config, parts[0])] + ClassifyAll(config, parts[1..])
  }

  /** The tokens of a path: its non-empty segments, classified. */
  function Tokens(config: RouterConfig, path: string): Pattern {
    ClassifyAll(config, Segments(path))
  }

  /** The path `Add` stores: never empty, always starting with a slash. */
  function Normalize(path: string): (normal: string)
    ensures |normal| > 0 && normal[0] == '/'
  {
    if path == "" then "/" else if path[0] != '/' then "/" + path else path
  }

  /** Storing a normalized path loses nothing: its tokens are those of the path given. */
  lemma TokensOfNormalize(config: RouterConfig, path: string)
    ensures Tokens(config, Normalize(path)) == Tokens(config, path)
    ensures Normalize(Normalize(path)) == Normalize(path)
  {
    if path == "" {
      SegmentsOfLeadingSlash("/");
    } else if path[0] != '/' {
      SegmentsOfLeadingSlash("/" + path);
      assert ("/" + path)[1..] == path;
    }
  }

  lemma ClassifyAllOfConcat(config: RouterConfig, a: seq<string>, b: seq<string>)
    ensures ClassifyAll(config, a + b) == ClassifyAll(config, a) + ClassifyAll(config, b)
  {
  }

  /** A prefix (of a group, say) and a path that is empty or starts with a slash keep
      their tokens when glued together. */
  lemma TokensOfConcat(config: RouterConfig, prefix: string, path: string)
    requires path == "" || path[0] == '/'
    ensures Tokens(config, prefix + path) == Tokens(config, prefix) + Tokens(config, path)
  {
    if path == "" {
      assert prefix + path == prefix;
    } else {
      assert prefix + path == prefix + "/" + path[1..];
      SegmentsOfConcat(prefix, path[1..]);
      SegmentsOfLeadingSlash(path);
      ClassifyAllOfConcat(config, Segments(prefix), Segments(path));
    }
  }

  /** Both tokens are dynamic and of the same kind, so they would share a trie node. */
  predicate SameDynamicKind(a: Token, b: Token) {
    (a.Param? && b.Param?) || (a.Wildcard? && b.Wildcard?)
  }

  /** No shared prefix is followed by the same dynamic kind under two names. */
  ghost predicate Compatible(a: Pattern, b: Pattern) {
    forall i :: 0 <= i < |a| && i < |b| && a[..i] == b[..i] && SameDynamicKind(a[i], b[i])
             ==> a[i] == b[i]
  }

  lemma CompatibleIsSymmetric(a: Pattern, b: Pattern)
    requires Compatible(a, b)
    ensures Compatible(b, a)
  {
    forall i | 0 <= i < |a| && i < |b| && b[..i] == a[..i] && SameDynamicKind(b[i], a[i]) ensures b[i] == a[i] {
      assert a[..i] == b[..i] && SameDynamicKind(a[i], b[i]);
    }
  }
}
