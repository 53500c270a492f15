/** Token buckets over real time. */
module TokenBucket {

  datatype Bucket = Bucket(capacity: real, rate: real, tokens: real, last: real)
  {
    predicate Valid() {
      capacity >= 1.0 && rate > 0.0 && 0.0 <= tokens <= capacity
    }
  }

  function Full(capacity: nat, period: real, now: real): (b: Bucket)
    requires capacity > 0 && period > 0.0
    ensures b.Valid()
  {
    Bucket(capacity as real, Rate(capacity, period), capacity as real, now)
  }

  function Rate(capacity: nat, period: real): (r: real)
    requires capacity > 0 && period > 0.0
    ensures r > 0.0
  {
    capacity as real / period
  }

  function Cap(tokens: real, capacity: real): (r: real)
    ensures r <= tokens && r <= capacity
  {
    if tokens > capacity then capacity else tokens
  }

  /** The tokens that flow in during `dt` seconds. */
  function Inflow(dt: real, rate: real): real {
    dt * rate
  }

  function Refilled(b: Bucket, now: real): real {
    Cap(b.tokens + Inflow(now - b.last, b.rate), b.capacity)
  }

  predicate Admits(b: Bucket, now: real) {
    Refilled(b, now) >= 1.0
  }

  function After(b: Bucket, now: real): Bucket {
    b.(tokens := if Admits(b, now) then Refilled(b, now) - 1.0 else Refilled(b, now), last := now)
  }

  lemma InflowGrows(a: real, b: real, rate: real)
    requires a <= b && rate >= 0.0
    ensures Inflow(a, rate) <= Inflow(b, rate)
    ensures Inflow(0.0, rate) == 0.0
  {
    InflowAdds(a, b - a, rate);
  }

  lemma InflowAdds(a: real, b: real, rate: real)
    ensures Inflow(a + b, rate) == Inflow(a, rate) + Inflow(b, rate)
  {
  }

  lemma AfterIsValid(b: Bucket, now: real)
    requires b.Valid() && b.last <= now
    ensures After(b, now).Valid()
  {
    hide Inflow;
    InflowGrows(0.0, now - b.last, b.rate);
  }

  /** What a call admits and leaves in the bucket is covered by what was there and what has flowed in since. */
  lemma CallBalance(b: Bucket, now: real)
    requires b.Valid() && b.last <= now
    ensures (if Admits(b, now) then 1.0 else 0.0) + After(b, now).tokens <= b.capacity
    ensures (if Admits(b, now) then 1.0 else 0.0) + After(b, now).tokens <= b.tokens + Inflow(now - b.last, b.rate)
  {
    hide Inflow;
  }

  // ---------- runs ----------

  predicate Nondecreasing(times: seq<real>, from: real) {
    && (forall i | 0 <= i < |times| :: from <= times[i])
    && (forall i, j | 0 <= i <= j < |times| :: times[i] <= times[j])
  }

  function AfterAll(b: Bucket, times: seq<real>): Bucket {
    if times == [] then b else After(AfterAll(b, times[..|times| - 1]), times[|times| - 1])
  }

  /** How many of the calls at `times` are admitted between `t1` and `t2`. */
  function AdmittedIn(b: Bucket, times: seq<real>, t1: real, t2: real): nat {
    if times == [] then 0
    else
      var n := |times| - 1;
      AdmittedIn(b, times[..n], t1, t2)
      + (if t1 <= times[n] <= t2 && Admits(AfterAll(b, times[..n]), times[n]) then 1 else 0)
  }

  function Max(a: real, b: real): real {
    if a < b then b else a
  }

  lemma {:induction false} RunIsValid(b: Bucket, times: seq<real>)
    requires b.Valid() && Nondecreasing(times, b.last)
    ensures AfterAll(b, times).Valid()
    ensures AfterAll(b, times).capacity == b.capacity && AfterAll(b, times).rate == b.rate
    ensures AfterAll(b, times).last == if times == [] then b.last else times[|times| - 1]
  {
    hide Inflow;
    if times != [] {
      var n := |times| - 1;
      RunIsValid(b, times[..n]);
      AfterIsValid(AfterAll(b, times[..n]), times[n]);
    }
  }

  /** Up to a call at `t` in the stretch, the admitted calls and the remaining tokens stay within the capacity
      and what flows in from `t1` to `t`. */
  lemma {:induction false} Potential(b: Bucket, times: seq<real>, t1: real, t2: real)
    requires b.Valid() && Nondecreasing(times, b.last) && t1 <= t2
    ensures AfterAll(b, times).last <= t2 ==>
      AdmittedIn(b, times, t1, t2) as real + AfterAll(b, times).tokens
        <= b.capacity + Inflow(Max(AfterAll(b, times).last, t1) - t1, b.rate)
    ensures AfterAll(b, times).last < t1 ==> AdmittedIn(b, times, t1, t2) == 0
    ensures AdmittedIn(b, times, t1, t2) as real <= b.capacity + Inflow(t2 - t1, b.rate)
  {
    hide Inflow, Admits, After;
    RunIsValid(b, times);
    if times == [] {
      InflowGrows(0.0, t2 - t1, b.rate);
      InflowGrows(0.0, Max(b.last, t1) - t1, b.rate);
    } else {
      var n := |times| - 1;
      var c, t := AfterAll(b, times[..n]), times[n];
      Potential(b, times[..n], t1, t2);
      RunIsValid(b, times[..n]);
      CallBalance(c, t);
      InflowStep(c.last, t, t1, t2, b.rate);
    }
  }

  /** What flows in from `t1` on, up to one call and up to the next. */
  lemma InflowStep(last: real, t: real, t1: real, t2: real, rate: real)
    requires last <= t && t1 <= t2 && rate > 0.0
    ensures 0.0 <= Inflow(Max(last, t1) - t1, rate) <= Inflow(Max(t, t1) - t1, rate)
    ensures last >= t1 ==> Inflow(last - t1, rate) + Inflow(t - last, rate) == Inflow(t - t1, rate)
    ensures t <= t2 ==> Inflow(Max(t, t1) - t1, rate) <= Inflow(t2 - t1, rate)
  {
    hide Inflow;
    InflowGrows(0.0, Max(last, t1) - t1, rate);
    InflowGrows(Max(last, t1) - t1, Max(t, t1) - t1, rate);
    if last >= t1 {
      InflowAdds(last - t1, t - last, rate);
      assert (last - t1) + (t - last) == t - t1;
    }
    if t <= t2 {
      InflowGrows(Max(t, t1) - t1, t2 - t1, rate);
    }
  }

  /** With a clock that never goes back, any stretch from `t1` to `t2` of any run admits at most the capacity and
      what flows in during the stretch. */
  lemma StretchBound(b: Bucket, times: seq<real>, t1: real, t2: real)
    requires b.Valid() && Nondecreasing(times, b.last) && t1 <= t2
    ensures AdmittedIn(b, times, t1, t2) as real <= b.capacity + (t2 - t1) * b.rate
  {
    hide AdmittedIn;
    Potential(b, times, t1, t2);
  }

  /** The time of one token after the other. */
  function TimeOf(t1: real, d: real, k: nat): real {
    if k == 0 then t1 else TimeOf(t1, d, k - 1) + d
  }

  /** A burst of `n` calls at `t1`, then one call per token. */
  function Busy(n: nat, t1: real, d: real, k: nat): (times: seq<real>)
    ensures |times| == n + k
  {
    if k == 0 then seq(n, i => t1) else Busy(n, t1, d, k - 1) + [TimeOf(t1, d, k)]
  }

  lemma CallSnoc(b: Bucket, times: seq<real>, t: real, t1: real, t2: real)
    ensures AfterAll(b, times + [t]) == After(AfterAll(b, times), t)
    ensures AdmittedIn(b, times + [t], t1, t2) ==
            AdmittedIn(b, times, t1, t2) + (if t1 <= t <= t2 && Admits(AfterAll(b, times), t) then 1 else 0)
  {
    hide After, Admits;
    assert (times + [t])[..|times|] == times;
  }

  lemma {:induction false} BurstEmpties(b: Bucket, n: nat, m: nat, t2: real)
    requires b.tokens == b.capacity == n as real && m <= n && b.last <= t2
    ensures AfterAll(b, seq(m, i => b.last)) == b.(tokens := (n - m) as real)
    ensures AdmittedIn(b, seq(m, i => b.last), b.last, t2) == m
  {
    hide Inflow;
    if m > 0 {
      BurstEmpties(b, n, m - 1, t2);
      InflowZero(b.rate);
      CallSnoc(b, seq(m - 1, i => b.last), b.last, b.last, t2);
      assert seq(m, i => b.last) == seq(m - 1, i => b.last) + [b.last];
    }
  }

  lemma InflowZero(rate: real)
    ensures Inflow(0.0, rate) == 0.0
  {
  }

  lemma {:induction false} TimesGoOn(t1: real, d: real, k: nat, rate: real)
    requires d >= 0.0 && Inflow(d, rate) == 1.0
    ensures t1 <= TimeOf(t1, d, k) && Inflow(TimeOf(t1, d, k) - t1, rate) == k as real
  {
    hide Inflow;
    if k == 0 {
      InflowZero(rate);
    } else {
      TimesGoOn(t1, d, k - 1, rate);
      InflowAdds(TimeOf(t1, d, k - 1) - t1, d, rate);
      assert TimeOf(t1, d, k) - t1 == TimeOf(t1, d, k - 1) - t1 + d;
    }
  }

  lemma {:induction false} BusyIsAdmitted(b: Bucket, n: nat, d: real, k: nat, t2: real)
    requires b.tokens == b.capacity == n as real && n > 0 && d >= 0.0 && Inflow(d, b.rate) == 1.0
    requires TimeOf(b.last, d, k) <= t2
    ensures AfterAll(b, Busy(n, b.last, d, k)) == b.(tokens := 0.0, last := TimeOf(b.last, d, k))
    ensures AdmittedIn(b, Busy(n, b.last, d, k), b.last, t2) == n + k
  {
    hide Inflow;
    TimesGoOn(b.last, d, k, b.rate);
    if k == 0 {
      BurstEmpties(b, n, n, t2);
    } else {
      BusyIsAdmitted(b, n, d, k - 1, t2);
      var c, t := AfterAll(b, Busy(n, b.last, d, k - 1)), TimeOf(b.last, d, k);
      CallSnoc(b, Busy(n, b.last, d, k - 1), t, b.last, t2);
      assert t - c.last == d;
      assert Refilled(c, t) == 1.0;
    }
  }

  /** The bound is reached, for every bucket and every number of tokens that flow in: a full bucket admits a burst
      of its capacity and then one call per token. */
  lemma BoundIsReached(n: nat, period: real, t1: real, k: nat)
    requires n > 0 && period > 0.0
    ensures var b, d := Full(n, period, t1), period / n as real;
            var t2 := TimeOf(t1, d, k);
            AdmittedIn(b, Busy(n, t1, d, k), t1, t2) as real == b.capacity + Inflow(t2 - t1, b.rate) == (n + k) as real
  {
    var b, d := Full(n, period, t1), period / n as real;
    OneToken(n, period);
    hide Inflow, AdmittedIn, AfterAll, Busy, TimeOf;
    TimesGoOn(t1, d, k, b.rate);
    BusyIsAdmitted(b, n, d, k, TimeOf(t1, d, k));
  }

  /** In a capacity's share of the period one token flows in. */
  lemma OneToken(n: nat, period: real)
    requires n > 0 && period > 0.0
    ensures period / n as real >= 0.0 && Inflow(period / n as real, Rate(n, period)) == 1.0
  {
    var c := n as real;
    var d, r := period / c, Rate(n, period);
    Fraction(period, c);
    Fraction(c, period);
    hide Inflow, Rate;
    Associate(d, r, period);
    OnlyOne(Inflow(d, r), period);
  }

  lemma Fraction(x: real, y: real)
    requires y > 0.0
    ensures Inflow(x / y, y) == x
  {
  }

  lemma Associate(x: real, y: real, z: real)
    ensures Inflow(Inflow(x, y), z) == Inflow(x, Inflow(y, z))
  {
  }

  lemma OnlyOne(x: real, p: real)
    requires Inflow(x, p) == p && p > 0.0
    ensures x == 1.0
  {
    assert (x - 1.0) * p == 0.0;
  }

  // ---------- from any level ----------

  /** The bucket as an untouched stretch up to `t` leaves it. */
  function Rested(b: Bucket, t: real): Bucket {
    b.(tokens := Refilled(b, t), last := t)
  }

  lemma RestChangesNothing(b: Bucket, t1: real, t: real)
    requires b.Valid() && b.last <= t1 <= t
    ensures Rested(b, t1).Valid() && Refilled(Rested(b, t1), t) == Refilled(b, t)
  {
    InflowAdds(t1 - b.last, t - t1, b.rate);
    assert (t1 - b.last) + (t - t1) == t - b.last;
    hide Inflow;
    InflowGrows(0.0, t1 - b.last, b.rate);
    InflowGrows(0.0, t - t1, b.rate);
  }

  lemma {:induction false} RestChangesNoRun(b: Bucket, times: seq<real>, t1: real, t2: real)
    requires b.Valid() && b.last <= t1 && Nondecreasing(times, t1)
    ensures AdmittedIn(Rested(b, t1), times, t1, t2) == AdmittedIn(b, times, t1, t2)
    ensures times != [] ==> AfterAll(Rested(b, t1), times) == AfterAll(b, times)
  {
    hide Inflow, Refilled;
    if times != [] {
      var n := |times| - 1;
      RestChangesNoRun(b, times[..n], t1, t2);
      if n == 0 {
        assert times[..n] == [];
        RestChangesNothing(b, t1, times[n]);
      }
    }
  }

  /** From a bucket at `t1`, the admitted calls and the remaining tokens stay within what was there and what flows
      in. */
  lemma {:induction false} LevelPotential(b: Bucket, times: seq<real>, t2: real)
    requires b.Valid() && Nondecreasing(times, b.last) && b.last <= t2
    ensures AfterAll(b, times).last <= t2 ==>
      AdmittedIn(b, times, b.last, t2) as real + AfterAll(b, times).tokens
        <= b.tokens + Inflow(AfterAll(b, times).last - b.last, b.rate)
    ensures AdmittedIn(b, times, b.last, t2) as real <= b.tokens + Inflow(t2 - b.last, b.rate)
  {
    hide Inflow, Admits, After;
    RunIsValid(b, times);
    InflowGrows(0.0, t2 - b.last, b.rate);
    if times != [] {
      var n := |times| - 1;
      var c, t := AfterAll(b, times[..n]), times[n];
      LevelPotential(b, times[..n], t2);
      RunIsValid(b, times[..n]);
      CallBalance(c, t);
      InflowAdds(c.last - b.last, t - c.last, b.rate);
      assert (c.last - b.last) + (t - c.last) == t - b.last;
      if t <= t2 { InflowGrows(t - b.last, t2 - b.last, b.rate); }
    }
  }

  /** The tokens at `t1` and those that flow in until `t2`. */
  function Supply(b: Bucket, t1: real, t2: real): real {
    Refilled(b, t1) + Inflow(t2 - t1, b.rate)
  }

  /** Main result: whatever the calls, at most that many whole tokens are taken between `t1` and `t2`. */
  lemma LevelBound(b: Bucket, times: seq<real>, t1: real, t2: real)
    requires b.Valid() && b.last <= t1 <= t2 && Nondecreasing(times, t1)
    ensures AdmittedIn(b, times, t1, t2) <= Supply(b, t1, t2).Floor
  {
    hide Inflow, Refilled, AdmittedIn;
    RestChangesNothing(b, t1, t1);
    RestChangesNoRun(b, times, t1, t2);
    LevelPotential(Rested(b, t1), times, t2);
  }

  /** When the `n`-th whole token is there. */
  function TokenTime(x: real, rate: real, t1: real, n: nat): real
    requires rate > 0.0
  {
    if n as real <= x then t1 else t1 + (n as real - x) / rate
  }

  /** One call as soon as each of the first `n` tokens is there. */
  function Eager(x: real, rate: real, t1: real, n: nat): (times: seq<real>)
    requires rate > 0.0
    ensures |times| == n
  {
    if n == 0 then [] else Eager(x, rate, t1, n - 1) + [TokenTime(x, rate, t1, n)]
  }

  lemma TokenTimeInflow(x: real, rate: real, t1: real, n: nat)
    requires rate > 0.0
    ensures var t := TokenTime(x, rate, t1, n);
            Inflow(t - t1, rate) == (if n as real <= x then 0.0 else n as real - x) && t1 <= t
  {
    var y := n as real - x;
    Fraction(y, rate);
    Positive(y, rate);
  }

  lemma Positive(y: real, rate: real)
    requires rate > 0.0
    ensures y >= 0.0 ==> y / rate >= 0.0
  {
  }

  /** More inflow means more time. */
  lemma InflowReflects(a: real, b: real, rate: real)
    requires rate > 0.0 && Inflow(a, rate) <= Inflow(b, rate)
    ensures a <= b
  {
  }

  lemma TokenTimesAscend(x: real, rate: real, t1: real, n: nat, m: nat)
    requires rate > 0.0 && n <= m
    ensures TokenTime(x, rate, t1, n) <= TokenTime(x, rate, t1, m)
  {
    hide Inflow, TokenTime;
    var s, t := TokenTime(x, rate, t1, n), TokenTime(x, rate, t1, m);
    TokenTimeInflow(x, rate, t1, n);
    TokenTimeInflow(x, rate, t1, m);
    InflowReflects(s - t1, t - t1, rate);
  }

  lemma {:induction false} EagerAscends(x: real, rate: real, t1: real, n: nat)
    requires rate > 0.0
    ensures Nondecreasing(Eager(x, rate, t1, n), t1)
    ensures forall i | 0 <= i < n :: Eager(x, rate, t1, n)[i] <= TokenTime(x, rate, t1, n)
  {
    hide TokenTime;
    if n > 0 {
      EagerAscends(x, rate, t1, n - 1);
      TokenTimesAscend(x, rate, t1, n - 1, n);
      hide Inflow;
      TokenTimeInflow(x, rate, t1, n);
    }
  }

  /** Every eager call is admitted. */
  lemma {:induction false} EagerIsAdmitted(b: Bucket, n: nat, t2: real)
    requires b.Valid() && TokenTime(b.tokens, b.rate, b.last, n) <= t2
    ensures var x := b.tokens;
            && AdmittedIn(b, Eager(x, b.rate, b.last, n), b.last, t2) == n
            && AfterAll(b, Eager(x, b.rate, b.last, n)) ==
                 b.(tokens := if n as real <= x then x - n as real else 0.0, last := TokenTime(x, b.rate, b.last, n))
  {
    hide Inflow, TokenTime, Refilled;
    var x := b.tokens;
    TokenTimeInflow(x, b.rate, b.last, n);
    if n > 0 {
      TokenTimesAscend(x, b.rate, b.last, n - 1, n);
      EagerIsAdmitted(b, n - 1, t2);
      var before, t := Eager(x, b.rate, b.last, n - 1), TokenTime(x, b.rate, b.last, n);
      CallSnoc(b, before, t, b.last, t2);
      TokenTimeInflow(x, b.rate, b.last, n - 1);
      NextToken(b, AfterAll(b, before), n, t);
    } else {
      AtOnce(x, b.rate, b.last);
    }
  }

  lemma AtOnce(x: real, rate: real, t1: real)
    requires rate > 0.0 && x >= 0.0
    ensures TokenTime(x, rate, t1, 0) == t1
  {
  }

  /** What is in the bucket when the `n`-th token is there and those before it are taken. */
  lemma NextToken(b: Bucket, c: Bucket, n: nat, t: real)
    requires b.Valid() && n > 0 && b.last <= c.last <= t
    requires Inflow(t - b.last, b.rate) == if n as real <= b.tokens then 0.0 else n as real - b.tokens
    requires Inflow(c.last - b.last, b.rate) == if (n - 1) as real <= b.tokens then 0.0 else (n - 1) as real - b.tokens
    requires c == b.(tokens := if (n - 1) as real <= b.tokens then b.tokens - (n - 1) as real else 0.0, last := c.last)
    ensures Refilled(c, t) == if n as real <= b.tokens then b.tokens - (n - 1) as real else 1.0
  {
    hide Inflow;
    InflowAdds(c.last - b.last, t - c.last, b.rate);
    assert (c.last - b.last) + (t - c.last) == t - b.last;
  }

  /** Main result: the bound is reached from every level. */
  lemma LevelIsReached(b: Bucket, t1: real, t2: real)
    requires b.Valid() && b.last <= t1 <= t2
    ensures var n := Supply(b, t1, t2).Floor;
            && n >= 0 && Nondecreasing(Eager(Refilled(b, t1), b.rate, t1, n), t1)
            && AdmittedIn(b, Eager(Refilled(b, t1), b.rate, t1, n), t1, t2) == n
  {
    hide Inflow, Refilled, TokenTime, Eager, AdmittedIn, Nondecreasing;
    RestChangesNothing(b, t1, t1);
    InflowGrows(0.0, t2 - t1, b.rate);
    var x, n := Refilled(b, t1), Supply(b, t1, t2).Floor;
    TokenTimeInflow(x, b.rate, t1, n);
    InflowReflects(TokenTime(x, b.rate, t1, n) - t1, t2 - t1, b.rate);
    EagerAscends(x, b.rate, t1, n);
    EagerIsAdmitted(Rested(b, t1), n, t2);
    RestChangesNoRun(b, Eager(x, b.rate, t1, n), t1, t2);
  }

  /** A period admits at most the limit, whatever the calls, exactly when it starts with less than one token. */
  lemma PeriodKeepsLimitIff(b: Bucket, limit: nat, period: real, t1: real)
    requires b.Valid() && b.last <= t1 && limit > 0 && period > 0.0 && b.rate == Rate(limit, period)
    ensures (forall times | Nondecreasing(times, t1) :: AdmittedIn(b, times, t1, t1 + period) <= limit)
       <==> Refilled(b, t1) < 1.0
  {
    PeriodInflow(limit, period);
    hide Inflow, Refilled, AdmittedIn, Nondecreasing, Eager, Rate;
    var x, t2 := Refilled(b, t1), t1 + period;
    assert t2 - t1 == period;
    if x < 1.0 {
      forall times | Nondecreasing(times, t1) ensures AdmittedIn(b, times, t1, t2) <= limit {
        LevelBound(b, times, t1, t2);
      }
    } else {
      LevelIsReached(b, t1, t2);
      var times := Eager(x, b.rate, t1, Supply(b, t1, t2).Floor);
      assert Nondecreasing(times, t1) && AdmittedIn(b, times, t1, t2) > limit;
    }
  }

  lemma PeriodInflow(limit: nat, period: real)
    requires limit > 0 && period > 0.0
    ensures Inflow(period, Rate(limit, period)) == limit as real
  {
  }

  /** Nobody who leaves at least the time of one token between calls is ever refused. */
  lemma {:induction false} SpacedCallsAdmitted(b: Bucket, times: seq<real>, k: nat)
    requires b.Valid() && Nondecreasing(times, b.last) && k < |times|
    requires forall i | 0 <= i < |times| :: Inflow(times[i] - (if i == 0 then b.last else times[i - 1]), b.rate) >= 1.0
    ensures Admits(AfterAll(b, times[..k]), times[k])
  {
    hide Inflow;
    var c := AfterAll(b, times[..k]);
    RunIsValid(b, times[..k]);
    assert c.last == if k == 0 then b.last else times[k - 1];
  }

  class Tokens {
    const capacity: real
    const rate: real
    var tokens: real
    var last: real

    function State(): Bucket
      reads this
    {
      Bucket(capacity, rate, tokens, last)
    }

    constructor (capacity: nat, period: real, now: real)
      requires capacity > 0 && period > 0.0
      ensures State() == Full(capacity, period, now)
    {
      this.capacity, this.rate := capacity as real, capacity as real / period;
      tokens, last := capacity as real, now;
    }

    method Allow(now: real) returns (ok: bool)
      modifies `tokens, `last
      ensures ok == Admits(old(State()), now) && State() == After(old(State()), now)
    {
      hide Inflow;
      var elapsed := now - last;
      last := now;
      tokens := tokens + Inflow(elapsed, rate);
      if tokens > capacity {
        tokens := capacity;
      }
      if tokens >= 1.0 {
        tokens := tokens - 1.0;
        return true;
      }
      ok := false;
    }
  }
}
