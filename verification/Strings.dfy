/** The string helpers the router relies on: the Go library calls it makes on paths
    and the list of non-empty segments of a path, which is what a path means to it.
    A Go string is a sequence of bytes; each `char` here stands for one byte. */
module Strings {

  datatype Option<+T> = None | Some(value: T)

  /** strings.IndexByte: the first position of `c`, or -1. */
  function IndexByte(s: string, c: char): (i: int)
    ensures -1 <= i < |s|
    ensures i >= 0 ==> s[i] == c && c !in s[..i]
    ensures i < 0 ==> c !in s
  {
    if s == "" then -1
    else if s[0] == c then 0
    else
      var j := IndexByte(s[1..], c);
      if j < 0 then -1 else j + 1
  }

  /** The part before the first slash and what follows it. */
  function Cut(s: string): (cut: (string, string))
    requires s != ""
    ensures |cut.1| < |s|
  {
    var i := IndexByte(s, '/');
    if i < 0 then (s, "") else (s[..i], s[i + 1..])
  }

  /** strings.Split for a one-byte separator. */
  function Split(s: string): (parts: seq<string>)
    ensures |parts| > 0
    decreases |s|
  {
    var i := IndexByte(s, '/');
    if i < 0 then [s] else [s[..i]] + Split(s[i + 1..])
  }

  /** strings.Trim(s, "/"). */
  function Trim(s: string): string
    decreases |s|
  {
    if s == "" then ""
    else if s[0] == '/' then Trim(s[1..])
    else if s[|s| - 1] == '/' then Trim(s[..|s| - 1])
    else s
  }

  /** At most one slash removed from each end, as `Find` does. */
  function StripOne(s: string): string {
    StripLast(StripFirst(s))
  }

  function StripFirst(s: string): string {
    if |s| > 0 && s[0] == '/' then s[1..] else s
  }

  function StripLast(s: string): string {
    if |s| > 0 && s[|s| - 1] == '/' then s[..|s| - 1] else s
  }

  /** The non-empty parts of a path between slashes. */
  function Segments(s: string): seq<string>
    decreases |s|
  {
    if s == "" then []
    else
      var (part, rest) := Cut(s);
      if part == "" then Segments(rest) else [part] + Segments(rest)
  }

  lemma CutIsSegment(s: string)
    requires s != ""
    ensures Cut(s).0 == "" || IsSegment(Cut(s).0)
  {
  }

  predicate IsSegment(seg: string) {
    seg != "" && '/' !in seg
  }

  function NonEmpty(parts: seq<string>): seq<string> {
    if parts == [] then []
    else if parts[0] == "" then NonEmpty(parts[1..])
    else [parts[0]] + NonEmpty(parts[1..])
  }

  lemma {:induction false} NonEmptyOfConcat(a: seq<string>, b: seq<string>)
    ensures NonEmpty(a + b) == NonEmpty(a) + NonEmpty(b)
  {
    if a == [] {
      assert a + b == b;
    } else {
      assert (a + b)[1..] == a[1..] + b;
      NonEmptyOfConcat(a[1..], b);
    }
  }

  lemma NonEmptyOfCons(part: string, parts: seq<string>)
    ensures NonEmpty([part] + parts) == if part == "" then NonEmpty(parts) else [part] + NonEmpty(parts)
  {
    assert ([part] + parts)[1..] == parts;
  }

  lemma {:induction false} SegmentsOfSplit(s: string)
    ensures NonEmpty(Split(s)) == Segments(s)
    decreases |s|
  {
    var i := IndexByte(s, '/');
    if i < 0 {
      NonEmptyOfCons(s, []);
      SegmentsWithoutSlash(s);
    } else {
      NonEmptyOfCons(s[..i], Split(s[i + 1..]));
      SegmentsOfSplit(s[i + 1..]);
    }
  }

  lemma {:induction false} IndexByteIs(s: string, c: char, i: nat)
    requires i < |s| && s[i] == c && c !in s[..i]
    ensures IndexByte(s, c) == i
  {
    if i > 0 {
      assert s[..i][0] == s[0];
      assert s[1..][..i - 1] == s[..i][1..];
      IndexByteIs(s[1..], c, i - 1);
    }
  }

  lemma CutOfConcat(a: string, b: string)
    ensures '/' !in a ==> Cut(a + "/" + b) == (a, b)
    ensures '/' in a ==> Cut(a + "/" + b) == (Cut(a).0, Cut(a).1 + "/" + b)
  {
    var s := a + "/" + b;
    if '/' in a {
      var i := IndexByte(a, '/');
      assert s[..i] == a[..i] && s[i + 1..] == a[i + 1..] + "/" + b;
      IndexByteIs(s, '/', i);
    } else {
      assert s[..|a|] == a && s[|a| + 1..] == b;
      IndexByteIs(s, '/', |a|);
    }
  }

  /** A slash anywhere cuts a path into independent halves. */
  lemma {:induction false} SegmentsOfConcat(a: string, b: string)
    ensures Segments(a + "/" + b) == Segments(a) + Segments(b)
    decreases |a|
  {
    CutOfConcat(a, b);
    if '/' in a {
      SegmentsOfConcat(Cut(a).1, b);
    } else {
      SegmentsWithoutSlash(a);
    }
  }

  lemma SegmentsWithoutSlash(a: string)
    requires '/' !in a
    ensures Segments(a) == if a == "" then [] else [a]
  {
    if a != "" { assert Segments(a) == [a] + Segments(""); }
  }

  lemma SegmentsOfLeadingSlash(s: string)
    requires |s| > 0 && s[0] == '/'
    ensures Segments(s[1..]) == Segments(s)
  {
    assert s == "" + "/" + s[1..];
    SegmentsOfConcat("", s[1..]);
  }

  lemma SegmentsOfTrailingSlash(s: string)
    requires |s| > 0 && s[|s| - 1] == '/'
    ensures Segments(s[..|s| - 1]) == Segments(s)
  {
    assert s == s[..|s| - 1] + "/" + "";
    SegmentsOfConcat(s[..|s| - 1], "");
  }

  lemma {:induction false} SegmentsOfTrim(s: string)
    ensures Segments(Trim(s)) == Segments(s)
    decreases |s|
  {
    if s != "" {
      if s[0] == '/' {
        SegmentsOfLeadingSlash(s);
        SegmentsOfTrim(s[1..]);
      } else if s[|s| - 1] == '/' {
        SegmentsOfTrailingSlash(s);
        SegmentsOfTrim(s[..|s| - 1]);
      }
    }
  }

  lemma SegmentsOfStripOne(s: string)
    ensures Segments(StripOne(s)) == Segments(s)
  {
    SegmentsOfStripFirst(s);
    SegmentsOfStripLast(StripFirst(s));
  }

  lemma SegmentsOfStripFirst(s: string)
    ensures Segments(StripFirst(s)) == Segments(s)
  {
    if |s| > 0 && s[0] == '/' { SegmentsOfLeadingSlash(s); }
  }

  lemma SegmentsOfStripLast(s: string)
    ensures Segments(StripLast(s)) == Segments(s)
  {
    if |s| > 0 && s[|s| - 1] == '/' { SegmentsOfTrailingSlash(s); }
  }

  /** Byte order on strings, as sort.Strings uses it. */
  predicate Less(a: string, b: string) {
    if b == "" then false
    else if a == "" then true
    else a[0] < b[0] || (a[0] == b[0] && Less(a[1..], b[1..]))
  }

  lemma {:induction false} LessIsIrreflexive(a: string)
    ensures !Less(a, a)
  {
    if a != "" { LessIsIrreflexive(a[1..]); }
  }

  lemma {:induction false} LessIsTotal(a: string, b: string)
    ensures a == b || Less(a, b) || Less(b, a)
    ensures !(Less(a, b) && Less(b, a))
    decreases |a| + |b|
  {
    if a != "" && b != "" && a[0] == b[0] {
      LessIsTotal(a[1..], b[1..]);
      if a[1..] == b[1..] { assert a == [a[0]] + a[1..] == b; }
    }
  }

  lemma LessIsStrict(a: string, b: string)
    requires Less(a, b)
    ensures a != b && !Less(b, a)
  {
    LessIsIrreflexive(a);
    LessIsTotal(a, b);
  }

  lemma {:induction false} LessIsTransitive(a: string, b: string, c: string)
    requires Less(a, b) && Less(b, c)
    ensures Less(a, c)
  {
    if a != "" && a[0] == b[0] && b[0] == c[0] {
      LessIsTransitive(a[1..], b[1..], c[1..]);
    }
  }

  /** The strings agree up to `i`, where `a` ends or has the lesser byte. */
  predicate LessAt(a: string, b: string, i: nat) {
    i <= |a| && i < |b| && a[..i] == b[..i] && (i == |a| || a[i] < b[i])
  }

  ghost predicate ByteLess(a: string, b: string) {
    exists i: nat :: LessAt(a, b, i)
  }

  lemma {:induction false} LessIsByteLess(a: string, b: string)
    ensures Less(a, b) <==> ByteLess(a, b)
  {
    if a != "" && b != "" && a[0] == b[0] {
      LessIsByteLess(a[1..], b[1..]);
      if i: nat :| LessAt(a, b, i) {
        LessAtTail(a, b, i);
      }
      if j: nat :| LessAt(a[1..], b[1..], j) {
        LessAtTail(a, b, j + 1);
      }
    } else if b != "" {
      assert LessAt(a, b, 0) <==> a == "" || a[0] < b[0];
      if i: nat :| LessAt(a, b, i) && i > 0 {
        LessAtStart(a, b, i);
      }
    }
  }

  lemma LessAtTail(a: string, b: string, i: nat)
    requires a != "" && b != "" && a[0] == b[0]
    ensures i > 0 ==> (LessAt(a, b, i) <==> LessAt(a[1..], b[1..], i - 1))
    ensures LessAt(a, b, i) ==> i > 0
  {
    if 0 < i <= |a| && i < |b| {
      assert a[1..][..i - 1] == a[..i][1..] && b[1..][..i - 1] == b[..i][1..];
      assert a[..i] == [a[0]] + a[1..][..i - 1] && b[..i] == [b[0]] + b[1..][..i - 1];
    }
  }

  lemma LessAtStart(a: string, b: string, i: nat)
    requires LessAt(a, b, i) && i > 0
    ensures a[0] == b[0]
  {
    assert a[..i][0] == b[..i][0];
  }

  ghost predicate StrictlySorted(keys: seq<string>) {
    forall i, j :: 0 <= i < j < |keys| ==> Less(keys[i], keys[j])
  }

  /** sort.Strings applied to the distinct keys of a map. */
  method SortStrings(keys: set<string>) returns (sorted: seq<string>)
    ensures StrictlySorted(sorted)
    ensures forall k :: k in sorted <==> k in keys
  {
    sorted := [];
    var rest := keys;
    while rest != {}
      invariant rest <= keys
      invariant StrictlySorted(sorted)
      invariant forall k :: k in sorted <==> k in keys - rest
      decreases rest
    {
      var key :| key in rest;
      rest := rest - {key};
      sorted := InsertSorted(sorted, key);
    }
  }

  method InsertSorted(sorted: seq<string>, key: string) returns (longer: seq<string>)
    requires StrictlySorted(sorted) && key !in sorted
    ensures StrictlySorted(longer)
    ensures forall k :: k in longer <==> k in sorted || k == key
  {
    var i := 0;
    while i < |sorted| && Less(sorted[i], key)
      invariant 0 <= i <= |sorted|
      invariant forall j :: 0 <= j < i ==> Less(sorted[j], key)
    {
      i := i + 1;
    }
    forall j | i <= j < |sorted| ensures Less(key, sorted[j]) {
      LessIsTotal(key, sorted[i]);
      if i < j { LessIsTransitive(key, sorted[i], sorted[j]); }
    }
    longer := sorted[..i] + [key] + sorted[i..];
    assert sorted == sorted[..i] + sorted[i..];
  }

  /** Each key of the set once, in some order, as a range over a Go map visits them. */
  ghost predicate Orders(keys: seq<string>, all: set<string>) {
    && (forall i, j :: 0 <= i < j < |keys| ==> keys[i] != keys[j])
    && (forall key :: key in all <==> key in keys)
  }
}
