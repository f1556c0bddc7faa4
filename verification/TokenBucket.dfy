/** The token bucket of the rate limiter (middlewares/limiter.go), in exact arithmetic. */
module TokenBuckets {

  function Min(a: real, b: real): real {
    if a <= b then a else b
  }

  class Bucket {
    const rate: real
    const burst: int
    var tokens: real
    var lastCheck: real

    constructor (rate: real, burst: int, now: real)
      ensures this.rate == rate && this.burst == burst && tokens == burst as real && lastCheck == now
    {
      this.rate := rate;
      this.burst := burst;
      tokens := burst as real;
      lastCheck := now;
    }

    /** Refills for the time since the last check, caps at the burst, then takes a token. */
    method Allow(now: real) returns (ok: bool)
      modifies this
      ensures lastCheck == now
      ensures (tokens, ok) == Take(rate, burst, old(tokens), old(lastCheck), now)
    {
      var elapsed := now - lastCheck;
      lastCheck := now;
      tokens := tokens + elapsed * rate;
      if tokens > burst as real {
        tokens := burst as real;
      }
      assert tokens == Refilled(rate, burst, old(tokens), old(lastCheck), now);
      if tokens >= 1.0 {
        tokens := tokens - 1.0;
        return true;
      }
      return false;
    }
  }

  /** What is refilled between two times. */
  function Gain(rate: real, start: real, end: real): real {
    (end - start) * rate
  }

  lemma GainIs(rate: real, start: real, end: real)
    ensures Gain(rate, start, end) == rate * (end - start)
  {
  }

  lemma GainAdds(rate: real, a: real, b: real, c: real)
    ensures Gain(rate, a, b) + Gain(rate, b, c) == Gain(rate, a, c)
  {
  }

  lemma GainOfNoTime(rate: real, a: real)
    ensures Gain(rate, a, a) == 0.0
  {
    assert a - a == 0.0;
    assert 0.0 * rate == 0.0;
  }

  lemma GainIsMonotone(rate: real, a: real, b: real, c: real)
    requires rate >= 0.0 && a <= b <= c
    ensures 0.0 <= Gain(rate, a, b) <= Gain(rate, a, c)
  {
    GainIsNonNegative(rate, a, b);
    GainIsNonNegative(rate, b, c);
    GainAdds(rate, a, b, c);
  }

  lemma GainIsNonNegative(rate: real, a: real, b: real)
    requires rate >= 0.0 && a <= b
    ensures Gain(rate, a, b) >= 0.0
  {
    var elapsed := b - a;
    assert elapsed >= 0.0;
    assert elapsed * rate >= 0.0;
  }

  function Refilled(rate: real, burst: int, tokens: real, start: real, end: real): real {
    Min(tokens + Gain(rate, start, end), burst as real)
  }

  function Take(rate: real, burst: int, tokens: real, lastCheck: real, now: real): (real, bool) {
    var level := Refilled(rate, burst, tokens, lastCheck, now);
    if level >= 1.0 then (level - 1.0, true) else (level, false)
  }

  /** The first request, which comes when the bucket is made, is decided as specified below. */
  lemma FirstTakeFollows(rate: real, burst: int, now: real)
    ensures Take(rate, burst, burst as real, now, now) == (Left(rate, burst, [now]), Admits(rate, burst, [now]))
  {
    GainOfNoTime(rate, now);
  }

  /** And so is the next request after `times`, from what those left. */
  lemma TakeFollows(rate: real, burst: int, times: seq<real>, now: real)
    requires times != []
    ensures Take(rate, burst, Left(rate, burst, times), times[|times| - 1], now)
         == (Left(rate, burst, times + [now]), Admits(rate, burst, times + [now]))
  {
    LevelOfMore(rate, burst, times, now);
  }

  lemma LevelOfMore(rate: real, burst: int, times: seq<real>, now: real)
    requires times != []
    ensures Level(rate, burst, times + [now])
         == Refilled(rate, burst, Left(rate, burst, times), times[|times| - 1], now)
  {
    var longer := times + [now];
    assert longer[..|times|] == times && longer[|times|] == now && longer[|times| - 1] == times[|times| - 1];
  }

  // ----- The decisions on a list of request times -----

  /** Tokens after the refill for the last request. */
  function Level(rate: real, burst: int, times: seq<real>): real
    requires times != []
    decreases |times|, 0
  {
    var n := |times|;
    if n == 1 then burst as real
    else Refilled(rate, burst, Left(rate, burst, times[..n - 1]), times[n - 2], times[n - 1])
  }

  /** Whether the last request is let through. */
  predicate Admits(rate: real, burst: int, times: seq<real>)
    requires times != []
    decreases |times|, 1
  {
    Level(rate, burst, times) >= 1.0
  }

  /** Tokens once the last request is decided. */
  function Left(rate: real, burst: int, times: seq<real>): real
    requires times != []
    decreases |times|, 2
  {
    Level(rate, burst, times) - (if Admits(rate, burst, times) then 1.0 else 0.0)
  }

  /** How many of the requests j..k (k not included) were let through. */
  function Admitted(rate: real, burst: int, times: seq<real>, j: nat, k: nat): nat
    requires j <= k <= |times|
    decreases k
  {
    if j == k then 0
    else Admitted(rate, burst, times, j, k - 1) + (if Admits(rate, burst, times[..k]) then 1 else 0)
  }

  /** What request j onwards leaves for the last request if the bucket was full at j. */
  function Allowance(rate: real, burst: int, times: seq<real>, j: nat): real
    requires j < |times|
  {
    var k := |times| - 1;
    burst as real + rate * (times[k] - times[j]) - Admitted(rate, burst, times, j, k) as real
  }

  lemma AllowanceIs(rate: real, burst: int, times: seq<real>, j: nat)
    requires j < |times|
    ensures var k := |times| - 1;
            Allowance(rate, burst, times, j)
            == burst as real + Gain(rate, times[j], times[k]) - Admitted(rate, burst, times, j, k) as real
  {
    GainIs(rate, times[j], times[|times| - 1]);
  }

  lemma {:induction false} AdmittedOfPrefix(rate: real, burst: int, times: seq<real>, n: nat, j: nat, k: nat)
    requires j <= k <= n <= |times|
    ensures Admitted(rate, burst, times[..n], j, k) == Admitted(rate, burst, times, j, k)
    decreases k
  {
    if j < k {
      assert times[..n][..k] == times[..k];
      AdmittedOfPrefix(rate, burst, times, n, j, k - 1);
    }
  }

  lemma AllowanceStep(rate: real, burst: int, times: seq<real>, j: nat)
    requires j < |times| - 1
    ensures var n := |times|;
            Allowance(rate, burst, times, j)
            == Allowance(rate, burst, times[..n - 1], j) + Gain(rate, times[n - 2], times[n - 1])
               - (if Admits(rate, burst, times[..n - 1]) then 1.0 else 0.0)
  {
    var n := |times|;
    AdmittedOfPrefix(rate, burst, times, n - 1, j, n - 2);
    AllowanceIs(rate, burst, times, j);
    AllowanceIs(rate, burst, times[..n - 1], j);
    GainAdds(rate, times[j], times[n - 2], times[n - 1]);
  }

  /** Closed form: the level is the least allowance over all windows ending here. Nothing is
      assumed of rate, burst or the clock. */
  lemma {:induction false} LevelIsLeastAllowance(rate: real, burst: int, times: seq<real>) returns (least: nat)
    requires times != []
    ensures forall j :: 0 <= j < |times| ==> Level(rate, burst, times) <= Allowance(rate, burst, times, j)
    ensures least < |times| && Level(rate, burst, times) == Allowance(rate, burst, times, least)
    decreases |times|
  {
    var n := |times|;
    GainOfNoTime(rate, times[n - 1]);
    AllowanceIs(rate, burst, times, n - 1);
    least := n - 1;
    if n > 1 {
      var before := LevelIsLeastAllowance(rate, burst, times[..n - 1]);
      forall j | 0 <= j < n - 1 ensures Level(rate, burst, times) <= Allowance(rate, burst, times, j) {
        AllowanceStep(rate, burst, times, j);
      }
      AllowanceStep(rate, burst, times, before);
      if Level(rate, burst, times) < burst as real {
        least := before;
      }
    }
  }

  /** Letting the last request through would exceed burst plus refill from request j on. */
  predicate WindowFull(rate: real, burst: int, times: seq<real>, j: nat)
    requires j < |times|
  {
    var k := |times| - 1;
    Admitted(rate, burst, times, j, k) as real + 1.0 > burst as real + rate * (times[k] - times[j])
  }

  /** A request is denied exactly when some window ending with it is full. */
  lemma DeniedIffWindowFull(rate: real, burst: int, times: seq<real>)
    requires times != []
    ensures !Admits(rate, burst, times) <==> exists j :: 0 <= j < |times| && WindowFull(rate, burst, times, j)
  {
    var least := LevelIsLeastAllowance(rate, burst, times);
    forall j | 0 <= j < |times| ensures WindowFull(rate, burst, times, j) <==> Allowance(rate, burst, times, j) < 1.0 {
      FullIsSmallAllowance(rate, burst, times, j);
    }
  }

  lemma FullIsSmallAllowance(rate: real, burst: int, times: seq<real>, j: nat)
    requires j < |times|
    ensures WindowFull(rate, burst, times, j) <==> Allowance(rate, burst, times, j) < 1.0
  {
  }

  ghost predicate Ascending(times: seq<real>) {
    forall i, j :: 0 <= i <= j < |times| ==> times[i] <= times[j]
  }

  lemma AllowanceOfPrefix(rate: real, burst: int, times: seq<real>, j: nat, k: nat)
    requires j <= k < |times|
    ensures Allowance(rate, burst, times[..k + 1], j)
         == burst as real + Gain(rate, times[j], times[k]) - Admitted(rate, burst, times, j, k) as real
  {
    AdmittedOfPrefix(rate, burst, times, k + 1, j, k);
    AllowanceIs(rate, burst, times[..k + 1], j);
  }

  lemma {:induction false} WindowGain(rate: real, burst: int, times: seq<real>, j: nat, k: nat)
    requires rate >= 0.0 && burst >= 0 && Ascending(times)
    requires j <= k < |times|
    ensures Admitted(rate, burst, times, j, k + 1) as real <= burst as real + Gain(rate, times[j], times[k])
    decreases k
  {
    var upto := times[..k + 1];
    if Admits(rate, burst, upto) {
      var least := LevelIsLeastAllowance(rate, burst, upto);
      AllowanceOfPrefix(rate, burst, times, j, k);
    } else if j == k {
      assert Admitted(rate, burst, times, j, k + 1) == Admitted(rate, burst, times, j, k) == 0;
      GainOfNoTime(rate, times[k]);
    } else {
      WindowGain(rate, burst, times, j, k - 1);
      GainIsMonotone(rate, times[j], times[k - 1], times[k]);
      assert Admitted(rate, burst, times, j, k + 1) == Admitted(rate, burst, times, j, k);
    }
  }

  /** No window lets through more than burst plus what is refilled in it. */
  lemma WindowBound(rate: real, burst: int, times: seq<real>, j: nat, k: nat)
    requires rate >= 0.0 && burst >= 0 && Ascending(times)
    requires j <= k < |times|
    ensures Admitted(rate, burst, times, j, k + 1) as real <= burst as real + rate * (times[k] - times[j])
  {
    WindowGain(rate, burst, times, j, k);
    GainIs(rate, times[j], times[k]);
  }

  /** Without the request at position `i`. */
  function Without(times: seq<real>, i: nat): seq<real>
    requires i < |times|
  {
    times[..i] + times[i + 1..]
  }

  lemma {:induction false} LevelAtMostBurst(rate: real, burst: int, times: seq<real>)
    requires times != []
    ensures Level(rate, burst, times) <= burst as real
  {
  }

  /** A denied request takes nothing: the level at a later request is the same without it. */
  lemma {:induction false} ErasedLevel(rate: real, burst: int, times: seq<real>, i: nat)
    requires burst >= 1 && i < |times| - 1
    requires !Admits(rate, burst, times[..i + 1])
    ensures Level(rate, burst, Without(times, i)) == Level(rate, burst, times)
    decreases |times|
  {
    var n := |times|;
    var erased := Without(times, i);
    var before := times[..n - 1];
    if i == n - 2 {
      assert before == times[..i + 1] && erased[..n - 2] == before[..n - 2];
      assert i > 0;
      var left := Left(rate, burst, before[..n - 2]);
      assert Level(rate, burst, before) == left + (times[n - 2] - times[n - 3]) * rate;
      assert (times[n - 2] - times[n - 3]) * rate + Gain(rate, times[n - 2], times[n - 1])
          == (times[n - 1] - times[n - 3]) * rate;
    } else {
      assert before[..i + 1] == times[..i + 1];
      ErasedLevel(rate, burst, before, i);
      assert erased[..n - 2] == Without(before, i);
      assert erased[n - 2] == times[n - 1] && erased[n - 3] == times[n - 2];
      assert Left(rate, burst, erased[..n - 2]) == Left(rate, burst, before);
    }
  }

  /** Erasing a denied request changes no later decision. */
  lemma ErasingDenied(rate: real, burst: int, times: seq<real>, i: nat)
    requires i < |times| - 1 && !Admits(rate, burst, times[..i + 1])
    ensures Admits(rate, burst, Without(times, i)) == Admits(rate, burst, times)
  {
    if burst >= 1 {
      ErasedLevel(rate, burst, times, i);
    } else {
      LevelAtMostBurst(rate, burst, times);
      LevelAtMostBurst(rate, burst, Without(times, i));
    }
  }

  /** The requests that were let through. */
  function Kept(rate: real, burst: int, times: seq<real>): seq<real> {
    if times == [] then []
    else Kept(rate, burst, times[..|times| - 1]) + (if Admits(rate, burst, times) then [times[|times| - 1]] else [])
  }

  /** Refilling twice is refilling once if the cap is not reached in between. */
  lemma RefilledTwice(rate: real, burst: int, tokens: real, a: real, b: real, c: real)
    requires Refilled(rate, burst, tokens, a, b) < burst as real
    ensures Refilled(rate, burst, Refilled(rate, burst, tokens, a, b), b, c) == Refilled(rate, burst, tokens, a, c)
  {
    GainAdds(rate, a, b, c);
  }

  /** Without all the denied requests before it a request finds the same level. */
  lemma {:induction false} KeptLevel(rate: real, burst: int, times: seq<real>, now: real)
    requires burst >= 1
    ensures Level(rate, burst, Kept(rate, burst, times) + [now]) == Level(rate, burst, times + [now])
    ensures times != [] ==> Kept(rate, burst, times) != []
  {
    if times != [] {
      var n := |times| - 1;
      var earlier, last := times[..n], times[n];
      var kept := Kept(rate, burst, earlier);
      assert earlier + [last] == times;
      KeptLevel(rate, burst, earlier, last);
      KeptLevel(rate, burst, earlier, now);
      LevelOfMore(rate, burst, times, now);
      if Admits(rate, burst, times) {
        LevelOfMore(rate, burst, kept + [last], now);
      } else {
        assert n > 0;
        LevelOfMore(rate, burst, earlier, last);
        LevelOfMore(rate, burst, earlier, now);
        RefilledTwice(rate, burst, Left(rate, burst, earlier), earlier[n - 1], last, now);
        assert kept + [] == kept;
      }
    }
  }

  /** Erasing all denied requests at once changes no decision: the requests that were let
      through are let through on their own, and a further one is decided alike. */
  lemma {:induction false} ErasingAllDenied(rate: real, burst: int, times: seq<real>, now: real)
    ensures Admits(rate, burst, Kept(rate, burst, times) + [now]) == Admits(rate, burst, times + [now])
    ensures forall k :: 0 < k <= |Kept(rate, burst, times)| ==> Admits(rate, burst, Kept(rate, burst, times)[..k])
    decreases times
  {
    if burst >= 1 {
      KeptLevel(rate, burst, times, now);
    } else {
      LevelAtMostBurst(rate, burst, times + [now]);
      LevelAtMostBurst(rate, burst, Kept(rate, burst, times) + [now]);
    }
    if times != [] {
      var earlier, last := times[..|times| - 1], times[|times| - 1];
      var kept := Kept(rate, burst, earlier);
      ErasingAllDenied(rate, burst, earlier, last);
      assert earlier + [last] == times;
      forall k | 0 < k <= |Kept(rate, burst, times)| ensures Admits(rate, burst, Kept(rate, burst, times)[..k]) {
        if k <= |kept| {
          assert Kept(rate, burst, times)[..k] == kept[..k];
        } else {
          assert Kept(rate, burst, times)[..k] == kept + [last];
        }
      }
    }
  }

  /** Tokens never go below zero with a non-negative rate and burst and a clock that does
      not run backwards. */
  lemma {:induction false} NeverNegative(rate: real, burst: int, times: seq<real>)
    requires rate >= 0.0 && burst >= 0 && times != [] && Ascending(times)
    ensures Left(rate, burst, times) >= 0.0
    decreases |times|
  {
    var n := |times|;
    if n == 1 {
      assert Level(rate, burst, times) >= 0.0;
    } else {
      NeverNegative(rate, burst, times[..n - 1]);
      GainIsNonNegative(rate, times[n - 2], times[n - 1]);
    }
  }
}
