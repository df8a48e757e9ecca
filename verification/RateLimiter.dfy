/** The per-caller token bucket: exactly which calls it lets through, over every run. */
module RateLimiter {
  import opened Basics

  datatype Limits = Limits(rps: real, burst: real) {
    predicate Valid() {
      rps > 0.0 && burst >= 1.0
    }
  }

  datatype Bucket = Bucket(tokens: real, last: real)

  type Buckets = map<string, Bucket>

  // Tokens that come in between two times.
  function Gain(l: Limits, from: real, to: real): real {
    (to - from) * l.rps
  }

  lemma GainAdds(l: Limits, a: real, b: real, c: real)
    ensures Gain(l, a, b) + Gain(l, b, c) == Gain(l, a, c)
    ensures l.Valid() && a <= b ==> Gain(l, a, b) >= 0.0
    ensures Gain(l, a, a) == 0.0
  {
    if l.Valid() && a <= b {
      ScaledOrder(0.0, b - a, l.rps);
    }
  }

  function Least(a: real, b: real): real {
    if a <= b then a else b
  }

  /** The tokens a caller has at a given time. */
  function Level(l: Limits, b: Buckets, key: string, now: real): real {
    if key in b then Least(l.burst, b[key].tokens + Gain(l, b[key].last, now)) else l.burst
  }

  function Granted(l: Limits, b: Buckets, key: string, now: real): bool {
    Level(l, b, key, now) >= 1.0
  }

  function Charged(l: Limits, b: Buckets, key: string, now: real): Buckets {
    b[key := Bucket(Level(l, b, key, now) - (if Granted(l, b, key, now) then 1.0 else 0.0), now)]
  }

  // No limiter at all when the rate is off.
  function LimitsFor(rps: real, burst: int): (l: Option<Limits>)
    ensures l.None? <==> rps <= 0.0
    ensures l.Some? ==> l.value.Valid() && l.value.rps == rps
    ensures l.Some? && burst > 0 ==> l.value.burst == burst as real
  {
    if rps <= 0.0 then None
    else Some(Limits(rps, if burst <= 0 then 1.0 else burst as real))
  }

  class Limiter {
    const limits: Limits
    var buckets: Buckets

    constructor (limits: Limits)
      ensures this.limits == limits && buckets == map[]
    {
      this.limits, buckets := limits, map[];
    }

    method Allow(key: string, now: real) returns (ok: bool)
      modifies this
      ensures ok == Granted(limits, old(buckets), key, now)
      ensures buckets == Charged(limits, old(buckets), key, now)
    {
      GainAdds(limits, now, now, now);
      var bucket := if key in buckets then buckets[key] else Bucket(limits.burst, now);
      var tokens := bucket.tokens + Gain(limits, bucket.last, now);
      if tokens > limits.burst {
        tokens := limits.burst;
      }
      if tokens >= 1.0 {
        buckets := buckets[key := Bucket(tokens - 1.0, now)];
        return true;
      }
      buckets := buckets[key := Bucket(tokens, now)];
      ok := false;
    }
  }

  // ---------------------------------------------------------------- runs

  datatype Call = Call(key: string, at: real)

  function After(l: Limits, calls: seq<Call>): Buckets {
    if calls == [] then map[]
    else
      var last := calls[|calls| - 1];
      Charged(l, After(l, calls[..|calls| - 1]), last.key, last.at)
  }

  predicate Allowed(l: Limits, calls: seq<Call>, n: nat)
    requires n < |calls|
  {
    Granted(l, After(l, calls[..n]), calls[n].key, calls[n].at)
  }

  /** How many of a caller's calls from the i-th on, before the n-th, were let through. */
  function Count(l: Limits, calls: seq<Call>, key: string, i: nat, n: nat): nat
    requires i <= n <= |calls|
  {
    if n == i then 0
    else Count(l, calls, key, i, n - 1) + if calls[n - 1].key == key && Allowed(l, calls, n - 1) then 1 else 0
  }

  // The clock does not go back.
  predicate InTime(calls: seq<Call>) {
    forall i, j | 0 <= i < j < |calls| :: calls[i].at <= calls[j].at
  }

  predicate NotBefore(calls: seq<Call>, n: nat, now: real) {
    forall i | 0 <= i < n && i < |calls| :: calls[i].at <= now
  }

  // When a window that begins with the i-th of the first n calls begins; one beginning after them, now.
  function Begins(calls: seq<Call>, i: nat, n: nat, now: real): real
    requires i <= n <= |calls|
  {
    if i < n then calls[i].at else now
  }

  // Without a call, tokens only come in.
  lemma LaterLevel(l: Limits, b: Buckets, key: string, t: real, now: real)
    requires l.Valid() && t <= now
    ensures Level(l, b, key, now) == Least(l.burst, Level(l, b, key, t) + Gain(l, t, now))
  {
    hide Gain;
    GainAdds(l, t, now, now);
    if key in b {
      GainAdds(l, b[key].last, t, now);
    }
  }

  lemma OneCallMore(l: Limits, calls: seq<Call>, key: string, n: nat, now: real)
    requires l.Valid() && InTime(calls) && 0 < n <= |calls| && calls[n - 1].at <= now
    ensures var t := calls[n - 1].at;
            var was := Level(l, After(l, calls[..n - 1]), key, t);
            var taken := if calls[n - 1].key == key && Allowed(l, calls, n - 1) then 1.0 else 0.0;
            Level(l, After(l, calls[..n]), key, now) == Least(l.burst, was - taken + Gain(l, t, now))
  {
    hide Gain;
    assert calls[..n][..n - 1] == calls[..n - 1];
    LaterLevel(l, After(l, calls[..n - 1]), key, calls[n - 1].at, now);
  }

  /** No window has more calls let through than burst and rate allow it. */
  lemma {:induction false} LevelAtMost(l: Limits, calls: seq<Call>, key: string, i: nat, n: nat, now: real)
    requires l.Valid() && InTime(calls) && i <= n <= |calls| && NotBefore(calls, n, now)
    ensures Level(l, After(l, calls[..n]), key, now)
            <= l.burst + Gain(l, Begins(calls, i, n, now), now) - Count(l, calls, key, i, n) as real
  {
    if i == n {
      GainAdds(l, now, now, now);
    } else {
      var t := calls[n - 1].at;
      OneCallMore(l, calls, key, n, now);
      LevelAtMost(l, calls, key, i, n - 1, t);
      GainAdds(l, calls[i].at, t, now);
      GainAdds(l, t, now, now);
      assert Begins(calls, i, n - 1, t) == calls[i].at;
    }
  }

  /** And some window is used up to exactly what is left. */
  lemma {:induction false} LevelReached(l: Limits, calls: seq<Call>, key: string, n: nat, now: real) returns (i: nat)
    requires l.Valid() && InTime(calls) && n <= |calls| && NotBefore(calls, n, now)
    ensures i <= n
    ensures Level(l, After(l, calls[..n]), key, now)
            == l.burst + Gain(l, Begins(calls, i, n, now), now) - Count(l, calls, key, i, n) as real
  {
    GainAdds(l, now, now, now);
    if Level(l, After(l, calls[..n]), key, now) == l.burst {
      i := n;
    } else {
      var t := calls[n - 1].at;
      OneCallMore(l, calls, key, n, now);
      i := LevelReached(l, calls, key, n - 1, t);
      GainAdds(l, calls[i].at, t, now);
      assert Begins(calls, i, n - 1, t) == calls[i].at;
    }
  }

  /** Main result: a call is let through exactly when no window that ends with it would come to exceed the
    * burst plus what the rate brings in over the window. The limiter never lets through one call too many,
    * and never refuses one it could have let through.
    */
  lemma AllowedExactly(l: Limits, calls: seq<Call>, n: nat)
    requires l.Valid() && InTime(calls) && n < |calls|
    ensures Allowed(l, calls, n) <==>
              forall i | 0 <= i <= n ::
                Count(l, calls, calls[n].key, i, n) as real + 1.0 <= l.burst + Gain(l, calls[i].at, calls[n].at)
  {
    var key, now := calls[n].key, calls[n].at;
    forall i | 0 <= i <= n
      ensures Level(l, After(l, calls[..n]), key, now)
              <= l.burst + Gain(l, calls[i].at, now) - Count(l, calls, key, i, n) as real
    {
      LevelAtMost(l, calls, key, i, n, now);
    }
    var i := LevelReached(l, calls, key, n, now);
    assert Begins(calls, i, n, now) == calls[i].at;
    if !Allowed(l, calls, n) {
      assert Count(l, calls, key, i, n) as real + 1.0 > l.burst + Gain(l, calls[i].at, now);
    }
  }

  lemma {:induction false} TokensInRange(l: Limits, calls: seq<Call>, key: string, now: real)
    requires l.Valid() && InTime(calls) && NotBefore(calls, |calls|, now)
    ensures 0.0 <= Level(l, After(l, calls), key, now) <= l.burst
  {
    var n := |calls|;
    assert calls[..n] == calls;
    if n > 0 {
      var t := calls[n - 1].at;
      TokensInRange(l, calls[..n - 1], key, t);
      OneCallMore(l, calls, key, n, now);
      GainAdds(l, t, now, now);
    }
  }

  /** Over any window, at most the burst and what the rate brings in. */
  lemma WindowBound(l: Limits, calls: seq<Call>, key: string, i: nat, j: nat)
    requires l.Valid() && InTime(calls) && i <= j < |calls|
    ensures Count(l, calls, key, i, j + 1) as real <= l.burst + Gain(l, calls[i].at, calls[j].at)
  {
    LevelAtMost(l, calls, key, i, j + 1, calls[j].at);
    TokensInRange(l, calls[..j + 1], key, calls[j].at);
  }

  /** A caller who has not called for as long as one token takes is let through. */
  lemma IdleIsAllowed(l: Limits, calls: seq<Call>, n: nat)
    requires l.Valid() && InTime(calls) && n < |calls|
    requires forall i | 0 <= i < n && calls[i].key == calls[n].key :: Gain(l, calls[i].at, calls[n].at) >= 1.0
    ensures Allowed(l, calls, n)
  {
    IdleLevel(l, calls, calls[n].key, n, calls[n].at);
  }

  lemma {:induction false} IdleLevel(l: Limits, calls: seq<Call>, key: string, n: nat, now: real)
    requires l.Valid() && InTime(calls) && n <= |calls| && NotBefore(calls, n, now)
    requires forall i | 0 <= i < n && calls[i].key == key :: Gain(l, calls[i].at, now) >= 1.0
    ensures Level(l, After(l, calls[..n]), key, now) >= 1.0
    decreases n
  {
    if n > 0 {
      assert calls[..n][..n - 1] == calls[..n - 1];
      if calls[n - 1].key == key {
        OneCallMore(l, calls, key, n, now);
        TokensInRange(l, calls[..n - 1], key, calls[n - 1].at);
      } else {
        IdleLevel(l, calls, key, n - 1, now);
      }
    }
  }

  function Only(calls: seq<Call>, key: string): seq<Call> {
    if calls == [] then []
    else
      var rest := Only(calls[..|calls| - 1], key);
      if calls[|calls| - 1].key == key then rest + [calls[|calls| - 1]] else rest
  }

  /** Callers do not affect one another: what one has is what its own calls left. */
  lemma {:induction false} CallersAreApart(l: Limits, calls: seq<Call>, key: string, now: real)
    ensures Level(l, After(l, calls), key, now) == Level(l, After(l, Only(calls, key)), key, now)
    ensures key in After(l, calls) <==> key in After(l, Only(calls, key))
    ensures key in After(l, calls) ==> After(l, calls)[key] == After(l, Only(calls, key))[key]
    decreases |calls|
  {
    if calls != [] {
      var n := |calls| - 1;
      var rest := calls[..n];
      CallersAreApart(l, rest, key, calls[n].at);
      assert (Only(rest, key) + [calls[n]])[..|Only(rest, key)|] == Only(rest, key);
    }
  }
}
