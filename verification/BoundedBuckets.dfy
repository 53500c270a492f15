/** Token buckets kept per key in a map of bounded size that evicts an arbitrary entry when it is full. */
module BoundedBuckets {
  import opened TokenBucket

  ghost predicate Loaded<K(!new), V(!new)>(m: map<K, V>, key: K, initial: V, capacity: nat, m': map<K, V>) {
    if key in m then m' == m
    else if |m| < capacity then m' == m[key := initial]
    else exists k :: k in m && m' == (m - {k})[key := initial]
  }

  method LoadOrStore<K(!new, ==), V(!new)>(m: map<K, V>, key: K, initial: V, capacity: nat) returns (m': map<K, V>)
    requires capacity > 0
    ensures Loaded(m, key, initial, capacity, m')
  {
    if key in m {
      return m;
    }
    m' := m;
    if |m| >= capacity {
      assert m.Keys != {};
      var k :| k in m.Keys;
      m' := m' - {k};
    }
    m' := m'[key := initial];
  }

  lemma LoadedIsBounded<K(!new), V(!new)>(m: map<K, V>, key: K, initial: V, capacity: nat, m': map<K, V>)
    requires Loaded(m, key, initial, capacity, m') && |m| <= capacity && capacity > 0
    ensures |m'| <= capacity && key in m'
  {
    if key !in m {
      if |m| < capacity {
        assert m'.Keys == m.Keys + {key};
      } else {
        var k :| k in m && m' == (m - {k})[key := initial];
        assert m'.Keys == m.Keys - {k} + {key};
      }
    }
  }

  datatype Plan = Plan(limit: nat, period: real, capacity: nat)
  {
    predicate Valid() {
      limit > 0 && period > 0.0 && capacity > 0
    }

    function Fresh(now: real): (b: Bucket)
      requires Valid()
      ensures b.Valid()
    {
      Full(limit, period, now)
    }
  }

  /** One request's use of the map: none, or a call on the bucket of a key. */
  datatype Use<K> = Idle | Use(key: K, now: real, ok: bool)

  ghost predicate Used<K(!new)>(m: map<K, Bucket>, u: Use<K>, p: Plan, m': map<K, Bucket>)
    requires p.Valid()
  {
    match u
    case Idle => m' == m
    case Use(key, now, ok) => exists l :: UsedFrom(m, key, now, ok, p, m', l)
  }

  ghost predicate UsedFrom<K(!new)>(m: map<K, Bucket>, key: K, now: real, ok: bool, p: Plan, m': map<K, Bucket>,
                                    l: map<K, Bucket>)
    requires p.Valid()
  {
    && Loaded(m, key, p.Fresh(now), p.capacity, l) && key in l
    && ok == Admits(l[key], now) && m' == l[key := After(l[key], now)]
  }

  method Take<K(!new, ==)>(m: map<K, Bucket>, key: K, now: real, p: Plan) returns (m': map<K, Bucket>, ok: bool)
    requires p.Valid() && |m| <= p.capacity
    ensures Used(m, Use(key, now, ok), p, m') && |m'| <= p.capacity
  {
    var l := LoadOrStore(m, key, p.Fresh(now), p.capacity);
    LoadedIsBounded(m, key, p.Fresh(now), p.capacity, l);
    ok := Admits(l[key], now);
    m' := l[key := After(l[key], now)];
    assert m'.Keys == l.Keys;
    assert UsedFrom(m, key, now, ok, p, m', l);
  }

  // ---------- runs ----------

  function Clock<K>(u: Use<K>, before: real): real {
    if u.Use? then u.now else before
  }

  /** Every bucket is one of the plan, last called no later than `now`. */
  predicate AllBuckets<K(!new)>(m: map<K, Bucket>, p: Plan, now: real)
    requires p.Valid()
  {
    forall k | k in m :: IsBucket(m[k], p, now)
  }

  predicate IsBucket(b: Bucket, p: Plan, now: real)
    requires p.Valid()
  {
    b.Valid() && b.capacity == p.limit as real && b.rate == Rate(p.limit, p.period) && b.last <= now
  }

  lemma UseKeepsBuckets<K(!new)>(m: map<K, Bucket>, u: Use<K>, p: Plan, m': map<K, Bucket>, now: real)
    requires p.Valid() && Used(m, u, p, m') && AllBuckets(m, p, now) && now <= Clock(u, now)
    ensures AllBuckets(m', p, Clock(u, now))
  {
    hide After, Rate;
    if u.Use? {
      var l :| UsedFrom(m, u.key, u.now, u.ok, p, m', l);
      LoadedBuckets(m, u.key, u.now, p, l);
      AfterKeepsPlan(l[u.key], p, u.now);
    }
  }

  lemma LoadedBuckets<K(!new)>(m: map<K, Bucket>, key: K, now: real, p: Plan, l: map<K, Bucket>)
    requires p.Valid() && Loaded(m, key, p.Fresh(now), p.capacity, l) && AllBuckets(m, p, now)
    ensures AllBuckets(l, p, now)
  {
    hide Rate;
    assert IsBucket(p.Fresh(now), p, now);
    assert forall k | k in l :: l[k] == p.Fresh(now) || (k in m && l[k] == m[k]);
  }

  lemma AfterKeepsPlan(b: Bucket, p: Plan, now: real)
    requires p.Valid() && IsBucket(b, p, now)
    ensures IsBucket(After(b, now), p, now)
  {
    hide Rate, Inflow;
    AfterIsValid(b, now);
  }

  /** `maps[k + 1]` is what the `k`-th use leads to, on a clock that never goes back. */
  ghost predicate Run<K(!new)>(maps: seq<map<K, Bucket>>, uses: seq<Use<K>>, times: seq<real>, p: Plan) {
    && p.Valid() && |maps| == |uses| + 1 && |times| == |uses| + 1
    && AllBuckets(maps[0], p, times[0])
    && (forall k | 0 <= k < |uses| ::
          && times[k] <= times[k + 1] && Clock(uses[k], times[k + 1]) == times[k + 1]
          && Used(maps[k], uses[k], p, maps[k + 1]))
  }

  lemma {:induction false} RunKeepsBuckets<K(!new)>(maps: seq<map<K, Bucket>>, uses: seq<Use<K>>, times: seq<real>,
                                                    p: Plan, k: nat)
    requires Run(maps, uses, times, p) && k <= |uses|
    ensures AllBuckets(maps[k], p, times[k])
  {
    hide Used, AllBuckets;
    if k > 0 {
      RunKeepsBuckets(maps, uses, times, p, k - 1);
      LaterBuckets(maps[k - 1], p, times[k - 1], times[k]);
      UseKeepsBuckets(maps[k - 1], uses[k - 1], p, maps[k], times[k]);
    }
  }

  lemma LaterBuckets<K(!new)>(m: map<K, Bucket>, p: Plan, now: real, later: real)
    requires p.Valid() && AllBuckets(m, p, now) && now <= later
    ensures AllBuckets(m, p, later)
  {
  }

  /** How many uses of `key` were admitted. */
  function Admitted<K(==)>(uses: seq<Use<K>>, key: K): nat {
    if uses == [] then 0
    else
      var u := uses[|uses| - 1];
      Admitted(uses[..|uses| - 1], key) + (if u.Use? && u.key == key && u.ok then 1 else 0)
  }

  /** From the `i`-th use to the `j`-th the bucket of `key`, once there, is not evicted. */
  ghost predicate KeptBetween<K(!new)>(maps: seq<map<K, Bucket>>, key: K, i: nat, j: nat)
    requires i <= j < |maps|
  {
    forall k | i <= k < j && key in maps[k] :: key in maps[k + 1]
  }

  /** The balance of one key: what was admitted since the `i`-th use is covered by the capacity and the inflow. */
  ghost predicate Balanced<K(!new)>(m: map<K, Bucket>, key: K, p: Plan, admitted: nat, t1: real)
    requires p.Valid()
  {
    if key in m
    then admitted as real + m[key].tokens <=
        p.limit as real + Inflow(Max(m[key].last, t1) - t1, Rate(p.limit, p.period))
         && (m[key].last < t1 ==> admitted == 0)
    else admitted == 0
  }

  lemma UseBalance<K(!new)>(m: map<K, Bucket>, u: Use<K>, p: Plan, m': map<K, Bucket>, key: K, now: real,
                            admitted: nat, t1: real)
    requires p.Valid() && Used(m, u, p, m') && AllBuckets(m, p, now) && Clock(u, now) == now && t1 <= now
    requires Balanced(m, key, p, admitted, t1)
    requires key in m ==> key in m'
    ensures Balanced(m', key, p, admitted + (if u.Use? && u.key == key && u.ok then 1 else 0), t1)
  {
    hide After, Admits, Rate, Inflow, AllBuckets;
    if u.Use? {
      var l :| UsedFrom(m, u.key, u.now, u.ok, p, m', l);
      if u.key == key {
        LoadedBuckets(m, key, u.now, p, l);
        OwnUse(m, p, l, key, now, admitted, t1);
      } else {
        OthersKeep(m, u.key, p.Fresh(u.now), p.capacity, l, key);
      }
    }
  }

  lemma OthersKeep<K(!new), V(!new)>(m: map<K, V>, key: K, initial: V, capacity: nat, l: map<K, V>, other: K)
    requires Loaded(m, key, initial, capacity, l) && other != key
    ensures other in l ==> other in m && l[other] == m[other]
    ensures other in m && other !in l ==> key !in m && |m| >= capacity
  {
  }

  lemma OwnUse<K(!new)>(m: map<K, Bucket>, p: Plan, l: map<K, Bucket>, key: K, now: real, admitted: nat, t1: real)
    requires p.Valid() && Loaded(m, key, p.Fresh(now), p.capacity, l) && key in l
    requires Balanced(m, key, p, admitted, t1) && AllBuckets(l, p, now) && t1 <= now
    ensures Balanced(l[key := After(l[key], now)], key, p, admitted + (if Admits(l[key], now) then 1 else 0), t1)
  {
    hide Admits, Rate, Inflow, Refilled, Loaded;
    var b := l[key];
    assert IsBucket(b, p, now);
    if key in m { LoadedKeepsOwn(m, key, p.Fresh(now), p.capacity, l); }
    CallBalance(b, now);
    InflowStep(b.last, now, t1, now, b.rate);
    assert After(b, now).last == now;
  }

  lemma LoadedKeepsOwn<K(!new), V(!new)>(m: map<K, V>, key: K, initial: V, capacity: nat, l: map<K, V>)
    requires Loaded(m, key, initial, capacity, l) && key in m
    ensures l == m
  {
  }

  lemma {:induction false} RunBalance<K(!new)>(maps: seq<map<K, Bucket>>, uses: seq<Use<K>>, times: seq<real>, p: Plan,
                                               key: K, i: nat, j: nat, t1: real)
    requires Run(maps, uses, times, p) && i <= j <= |uses| && KeptBetween(maps, key, i, j)
    requires forall k | i < k <= j :: t1 <= times[k]
    ensures Balanced(maps[j], key, p, Admitted(uses[i..j], key), t1)
    decreases j
  {
    hide Used, AllBuckets, Rate, Inflow, Balanced;
    RunKeepsBuckets(maps, uses, times, p, i);
    if i == j {
      StartsBalanced(maps[i], p, times[i], key, t1);
    } else {
      RunBalance(maps, uses, times, p, key, i, j - 1, t1);
      RunKeepsBuckets(maps, uses, times, p, j - 1);
      assert Used(maps[j - 1], uses[j - 1], p, maps[j - 1 + 1]) && j - 1 + 1 == j;
      LaterBuckets(maps[j - 1], p, times[j - 1], times[j]);
      UseBalance(maps[j - 1], uses[j - 1], p, maps[j], key, times[j], Admitted(uses[i..j - 1], key), t1);
      assert uses[i..j][..j - 1 - i] == uses[i..j - 1] && uses[i..j][j - 1 - i] == uses[j - 1];
    }
  }

  lemma StartsBalanced<K(!new)>(m: map<K, Bucket>, p: Plan, now: real, key: K, t1: real)
    requires p.Valid() && AllBuckets(m, p, now)
    ensures Balanced(m, key, p, 0, t1)
  {
    hide Rate, Inflow;
    if key in m {
      assert IsBucket(m[key], p, now);
      InflowGrows(0.0, Max(m[key].last, t1) - t1, m[key].rate);
    }
  }

  /** While its bucket is not evicted, a key is admitted between `t1` and `t2` at most as often as the limit and the
      inflow of that stretch allow, whatever other keys do. */
  lemma KeptKeyIsBounded<K(!new)>(maps: seq<map<K, Bucket>>, uses: seq<Use<K>>, times: seq<real>, p: Plan, key: K,
                                  i: nat, j: nat, t1: real, t2: real)
    requires Run(maps, uses, times, p) && i <= j <= |uses| && KeptBetween(maps, key, i, j) && t1 <= t2
    requires forall k | i < k <= j :: t1 <= times[k] <= t2
    ensures Admitted(uses[i..j], key) as real <= p.limit as real + Inflow(t2 - t1, Rate(p.limit, p.period))
  {
    hide Rate, Inflow, Used, AllBuckets;
    RunBalance(maps, uses, times, p, key, i, j, t1);
    RunKeepsBuckets(maps, uses, times, p, j);
    InflowGrows(0.0, t2 - t1, Rate(p.limit, p.period));
    if key in maps[j] && maps[j][key].last >= t1 && i < j {
      BucketIsRecent(maps[j], p, times[j], key);
      InflowGrows(maps[j][key].last - t1, t2 - t1, Rate(p.limit, p.period));
    } else if i == j {
      assert uses[i..j] == [];
    }
  }

  lemma BucketIsRecent<K(!new)>(m: map<K, Bucket>, p: Plan, now: real, key: K)
    requires p.Valid() && AllBuckets(m, p, now) && key in m
    ensures m[key].last <= now && m[key].tokens >= 0.0
  {
    assert IsBucket(m[key], p, now);
  }
}
