/** What the resolver's cache forgets: over every run of resolutions it holds the most recently resolved targets
    (server/internal/region/resolver.go:146-256). */
module ResolverRecency {
  import opened Wrappers
  import opened Groups
  import opened Resolver

  function TargetsIn(es: seq<Entry>): (ts: seq<string>)
    ensures |ts| == |es|
  {
    seq(|es|, i requires 0 <= i < |es| => es[i].target)
  }

  function Without(ts: seq<string>, t: string): (r: seq<string>)
    ensures |r| <= |ts|
  {
    if ts == [] then []
    else
      var n := |ts| - 1;
      if ts[n] == t then Without(ts[..n], t) else Without(ts[..n], t) + [ts[n]]
  }

  /** The targets asked for, each once, the last asked for first. */
  function Recency(asked: seq<string>): seq<string> {
    if asked == [] then []
    else
      var n := |asked| - 1;
      [asked[n]] + Without(Recency(asked[..n]), asked[n])
  }

  function First(ts: seq<string>, n: nat): seq<string> {
    if |ts| <= n then ts else ts[..n]
  }

  /** From an empty cache, `caches[k + 1]` is what resolving `asked[k]` leads to, whatever the tables hold by then. */
  ghost predicate Resolutions(caches: seq<seq<Entry>>, asked: seq<string>, capacity: nat) {
    && |caches| == |asked| + 1 && caches[0] == []
    && forall k | 0 <= k < |asked| :: asked[k] != "" && OneResolution(caches[k], capacity, asked[k], caches[k + 1])
  }

  ghost predicate OneResolution(es: seq<Entry>, capacity: nat, target: string, es': seq<Entry>) {
    exists db, minSize, v :: Resolves(es, capacity, db, minSize, target, es', v)
  }

  lemma {:induction false} DropIsWithout(es: seq<Entry>, t: string)
    ensures TargetsIn(Drop(es, {t})) == Without(TargetsIn(es), t)
  {
    if es != [] {
      var n := |es| - 1;
      DropIsWithout(es[..n], t);
      assert TargetsIn(es)[..n] == TargetsIn(es[..n]);
      var d := Drop(es[..n], {t});
      assert d + [] == d;
      if es[n].target != t { assert TargetsIn(d + [es[n]]) == TargetsIn(d) + [es[n].target]; }
    }
  }

  lemma {:induction false} WithoutAbsent(ts: seq<string>, t: string)
    ensures t !in ts ==> Without(ts, t) == ts
    ensures t in ts ==> |Without(ts, t)| < |ts|
    ensures forall x :: x in Without(ts, t) <==> x in ts && x != t
  {
    if ts != [] {
      var n := |ts| - 1;
      WithoutAbsent(ts[..n], t);
      assert ts == ts[..n] + [ts[n]];
    }
  }

  /** Leaving one target out of a prefix, or of the whole. */
  lemma {:induction false} WithoutPrefix(ts: seq<string>, t: string, n: nat)
    requires n <= |ts|
    ensures Without(ts[..n], t) <= Without(ts, t)
  {
    if n < |ts| {
      var m := |ts| - 1;
      WithoutPrefix(ts[..m], t, n);
      assert ts[..m][..n] == ts[..n];
    } else {
      assert ts[..n] == ts;
    }
  }

  predicate Distinct(ts: seq<string>) {
    forall i, j | 0 <= i < j < |ts| :: ts[i] != ts[j]
  }

  lemma {:induction false} WithoutDistinct(ts: seq<string>, t: string)
    requires Distinct(ts)
    ensures Distinct(Without(ts, t)) && |Without(ts, t)| == |ts| - (if t in ts then 1 else 0)
  {
    if ts != [] {
      var n := |ts| - 1;
      WithoutDistinct(ts[..n], t);
      WithoutAbsent(ts[..n], t);
      assert ts == ts[..n] + [ts[n]];
      var r := Without(ts[..n], t);
      assert forall i | 0 <= i < |r| :: r[i] in r;
    }
  }

  lemma {:induction false} RecencyIsDistinct(asked: seq<string>)
    ensures Distinct(Recency(asked)) && forall t :: t in Recency(asked) <==> t in asked
  {
    if asked != [] {
      var n := |asked| - 1;
      RecencyIsDistinct(asked[..n]);
      WithoutDistinct(Recency(asked[..n]), asked[n]);
      WithoutAbsent(Recency(asked[..n]), asked[n]);
      assert asked == asked[..n] + [asked[n]];
    }
  }

  lemma PrefixAfterHead(t: string, a: seq<string>, b: seq<string>, n: nat)
    requires a <= b && n > 0 && |a| >= n - 1
    ensures ([t] + b)[..n] == [t] + a[..n - 1]
  {
  }

  /** One target more at the head of the first `n`. */
  lemma HeadOfFirst(ts: seq<string>, t: string, n: nat)
    requires Distinct(ts) && n > 0
    ensures First([t] + Without(ts, t), n) ==
            if t in First(ts, n) then [t] + Without(First(ts, n), t)
            else [t] + (if |First(ts, n)| >= n then First(ts, n)[..n - 1] else First(ts, n))
  {
    hide Without;
    var f := First(ts, n);
    WithoutAbsent(ts, t);
    WithoutAbsent(f, t);
    WithoutDistinct(ts, t);
    WithoutDistinct(f, t);
    if |ts| > n {
      WithoutPrefix(ts, t, n);
      PrefixAfterHead(t, Without(f, t), Without(ts, t), n);
    }
  }

  lemma TargetsConcat(a: seq<Entry>, b: seq<Entry>)
    ensures TargetsIn(a + b) == TargetsIn(a) + TargetsIn(b)
  {
  }

  lemma TargetsPrefix(es: seq<Entry>, n: nat)
    requires n <= |es|
    ensures TargetsIn(es[..n]) == TargetsIn(es)[..n]
  {
  }

  lemma CachedIff(es: seq<Entry>, target: string)
    ensures Cached(es, target) <==> target in TargetsIn(es)
  {
    if Cached(es, target) {
      var i :| 0 <= i < |es| && es[i].target == target;
      assert TargetsIn(es)[i] == target;
    }
  }

  /** One resolution, seen from the targets in the cache. */
  lemma ResolutionTargets(es: seq<Entry>, capacity: nat, target: string, es': seq<Entry>)
    requires OneResolution(es, capacity, target, es') && target != ""
    ensures var ts := TargetsIn(es);
            TargetsIn(es') ==
              if target in ts then [target] + Without(ts, target)
              else [target] + (if |ts| >= capacity && |ts| > 0 then ts[..|ts| - 1] else ts)
  {
    hide Query, VerdictOf, Drop, TargetsIn, Without, Cached;
    CachedIff(es, target);
    DropIsWithout(es, target);
    var db, minSize, v :| Resolves(es, capacity, db, minSize, target, es', v);
    if Cached(es, target) {
      var i :| 0 <= i < |es| && es[i].target == target && es' == [es[i]] + Drop(es, {target});
      TargetsConcat([es[i]], Drop(es, {target}));
      OneTarget(es[i]);
    } else {
      var e := Query(db, minSize, target);
      TargetsConcat([e], Evicted(es, capacity));
      OneTarget(e);
      if |es| > 0 { TargetsPrefix(es, |es| - 1); }
    }
  }

  lemma OneTarget(e: Entry)
    ensures TargetsIn([e]) == [e.target]
  {
  }

  lemma ResolutionStep(es: seq<Entry>, capacity: nat, target: string, es': seq<Entry>, ts: seq<string>)
    requires OneResolution(es, capacity, target, es') && target != "" && capacity > 0
    requires Distinct(ts) && TargetsIn(es) == First(ts, capacity)
    ensures TargetsIn(es') == First([target] + Without(ts, target), capacity)
  {
    hide First, OneResolution, TargetsIn, Without, Distinct;
    HeadOfFirst(ts, target, capacity);
    FirstIsShort(ts, capacity);
    ResolutionTargets(es, capacity, target, es');
  }

  lemma FirstIsShort(ts: seq<string>, n: nat)
    ensures |First(ts, n)| <= n
  {
  }

  /** Main result: after any resolutions the cache holds the targets asked for most recently, as many as it has room
      for, and in that order. */
  lemma {:induction false} CacheIsMostRecent(caches: seq<seq<Entry>>, asked: seq<string>, capacity: nat)
    requires Resolutions(caches, asked, capacity) && capacity > 0
    ensures TargetsIn(caches[|asked|]) == First(Recency(asked), capacity)
  {
    hide First, OneResolution;
    if asked == [] {
      NothingFirst(capacity);
    } else {
      var n := |asked| - 1;
      assert Resolutions(caches[..n + 1], asked[..n], capacity);
      CacheIsMostRecent(caches[..n + 1], asked[..n], capacity);
      RecencyIsDistinct(asked[..n]);
      assert OneResolution(caches[n], capacity, asked[n], caches[n + 1]);
      ResolutionStep(caches[n], capacity, asked[n], caches[n + 1], Recency(asked[..n]));
    }
  }

  lemma NothingFirst(n: nat)
    ensures First([], n) == []
  {
  }
}
