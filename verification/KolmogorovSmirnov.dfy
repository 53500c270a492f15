/** The two-sample Kolmogorov-Smirnov walk (loadtest/stats.go:70-113), over exact reals. */
module KolmogorovSmirnov {

  type Sample = seq<real>

  function CountLe(s: Sample, x: real): (n: nat)
    ensures n <= |s|
  {
    if s == [] then 0 else CountLe(s[..|s| - 1], x) + (if s[|s| - 1] <= x then 1 else 0)
  }

  function CountLt(s: Sample, x: real): (n: nat)
    ensures n <= |s|
  {
    if s == [] then 0 else CountLt(s[..|s| - 1], x) + (if s[|s| - 1] < x then 1 else 0)
  }

  function Fraction(n: nat, s: Sample): real
    requires s != []
  {
    n as real / |s| as real
  }

  function Distance(i: nat, a: Sample, j: nat, b: Sample): real
    requires a != [] && b != []
  {
    var d := Fraction(i, a) - Fraction(j, b);
    if d < 0.0 then -d else d
  }

  /** The distance of the two empirical distribution functions at `x`. */
  function Gap(a: Sample, b: Sample, x: real): real
    requires a != [] && b != []
  {
    Distance(CountLe(a, x), a, CountLe(b, x), b)
  }

  /** The same just before `b` takes its step at `x`: what the walk sees when a value is shared. */
  function TieGap(a: Sample, b: Sample, x: real): real
    requires a != [] && b != []
  {
    Distance(CountLe(a, x), a, CountLt(b, x), b)
  }

  /** The Kolmogorov-Smirnov statistic: the greatest gap. */
  ghost predicate IsStatistic(a: Sample, b: Sample, d: real)
    requires a != [] && b != []
  {
    (forall x :: Gap(a, b, x) <= d) && exists x :: Gap(a, b, x) == d
  }

  /** What the walk computes: the greatest gap of either kind. */
  ghost predicate IsWalkMax(a: Sample, b: Sample, d: real)
    requires a != [] && b != []
  {
    (forall x :: Gap(a, b, x) <= d && TieGap(a, b, x) <= d) && exists x :: Gap(a, b, x) == d || TieGap(a, b, x) == d
  }

  // ---------- sorting ----------

  predicate Sorted(s: Sample) {
    forall i, j | 0 <= i < j < |s| :: s[i] <= s[j]
  }

  function Insert(s: Sample, x: real): (r: Sample)
    ensures |r| == |s| + 1
  {
    if s == [] || s[|s| - 1] <= x then s + [x] else Insert(s[..|s| - 1], x) + [s[|s| - 1]]
  }

  /** The sorted sample, as the library's sort leaves it. */
  function Sort(s: Sample): (r: Sample)
    ensures |r| == |s|
  {
    if s == [] then [] else Insert(Sort(s[..|s| - 1]), s[|s| - 1])
  }

  lemma {:induction false} InsertSorted(s: Sample, x: real, bound: real)
    requires Sorted(s)
    ensures Sorted(Insert(s, x))
    ensures (forall i | 0 <= i < |s| :: s[i] <= bound) && x <= bound ==>
      forall i | 0 <= i <= |s| :: Insert(s, x)[i] <= bound
  {
    if s != [] && s[|s| - 1] > x {
      InsertSorted(s[..|s| - 1], x, s[|s| - 1]);
      InsertSorted(s[..|s| - 1], x, bound);
    }
  }

  lemma {:induction false} InsertCounts(s: Sample, v: real, x: real)
    ensures CountLe(Insert(s, v), x) == CountLe(s, x) + (if v <= x then 1 else 0)
    ensures CountLt(Insert(s, v), x) == CountLt(s, x) + (if v < x then 1 else 0)
  {
    if s == [] || s[|s| - 1] <= v {
      assert (s + [v])[..|s|] == s;
    } else {
      var n := |s| - 1;
      InsertCounts(s[..n], v, x);
      var r := Insert(s[..n], v);
      assert (r + [s[n]])[..|r|] == r;
    }
  }

  /** Sorting changes no count, so no distribution function. */
  lemma {:induction false} SortCounts(s: Sample, x: real)
    ensures Sorted(Sort(s))
    ensures CountLe(Sort(s), x) == CountLe(s, x) && CountLt(Sort(s), x) == CountLt(s, x)
  {
    if s != [] {
      var n := |s| - 1;
      SortCounts(s[..n], x);
      hide Insert, Sorted;
      InsertSorted(Sort(s[..n]), s[n], s[n]);
      InsertCounts(Sort(s[..n]), s[n], x);
    }
  }

  lemma {:induction false} SortedSorts(s: Sample)
    requires Sorted(s)
    ensures Sort(s) == s
  {
    if s != [] {
      var n := |s| - 1;
      SortedSorts(s[..n]);
      assert s == s[..n] + [s[n]];
      hide Insert;
      InsertLast(s[..n], s[n]);
    }
  }

  lemma InsertLast(s: Sample, v: real)
    requires forall i | 0 <= i < |s| :: s[i] <= v
    ensures Insert(s, v) == s + [v]
  {
  }

  // ---------- counting in a sorted sample ----------

  lemma {:induction false} CountLeAt(s: Sample, x: real, i: nat)
    requires Sorted(s) && i <= |s| && (i == 0 || s[i - 1] <= x) && (i == |s| || x < s[i])
    ensures CountLe(s, x) == i
  {
    if s != [] {
      var n := |s| - 1;
      CountLeAt(s[..n], x, if i == |s| then n else i);
    }
  }

  lemma {:induction false} CountLtAt(s: Sample, x: real, i: nat)
    requires Sorted(s) && i <= |s| && (i == 0 || s[i - 1] < x) && (i == |s| || x <= s[i])
    ensures CountLt(s, x) == i
  {
    if s != [] {
      var n := |s| - 1;
      CountLtAt(s[..n], x, if i == |s| then n else i);
    }
  }

  lemma {:induction false} CountAtLeast(s: Sample, x: real, i: nat)
    requires Sorted(s) && i <= |s|
    ensures (i == 0 || s[i - 1] <= x) ==> CountLe(s, x) >= i
    ensures (i == 0 || s[i - 1] < x) ==> CountLt(s, x) >= i
  {
    if s != [] {
      var n := |s| - 1;
      CountAtLeast(s[..n], x, if i == |s| then n else i);
    }
  }

  // ---------- fractions ----------

  lemma FractionMonotone(i: nat, j: nat, s: Sample)
    requires s != [] && i <= j <= |s|
    ensures 0.0 <= Fraction(i, s) <= Fraction(j, s) <= 1.0
    ensures Fraction(|s|, s) == 1.0 && Fraction(0, s) == 0.0
  {
    Divide(i as real, j as real, |s| as real);
    Divide(j as real, |s| as real, |s| as real);
    Divide(0.0, i as real, |s| as real);
  }

  lemma Divide(x: real, y: real, z: real)
    requires x <= y && z > 0.0
    ensures x / z <= y / z && z / z == 1.0 && 0.0 / z == 0.0
  {
  }

  /** Once one sample is exhausted the distance only shrinks. */
  lemma DistanceShrinks(a: Sample, b: Sample, j: nat, k: nat)
    requires a != [] && b != [] && j <= k <= |b|
    ensures Distance(|a|, a, k, b) <= Distance(|a|, a, j, b)
  {
    FractionMonotone(j, k, b);
    FractionMonotone(|a|, |a|, a);
  }

  lemma DistanceSymmetric(a: Sample, b: Sample, i: nat, j: nat)
    requires a != [] && b != []
    ensures Distance(i, a, j, b) == Distance(j, b, i, a)
  {
  }

  lemma DistanceBound(a: Sample, b: Sample, i: nat, j: nat)
    requires a != [] && b != [] && i <= |a| && j <= |b|
    ensures 0.0 <= Distance(i, a, j, b) <= 1.0
  {
    FractionMonotone(i, |a|, a);
    FractionMonotone(j, |b|, b);
  }

  // ---------- the walk ----------

  /** `a[..i]` comes before the rest of `b`, and `b[..j]` strictly before the rest of `a`. */
  ghost predicate Interleaved(a: Sample, b: Sample, i: nat, j: nat) {
    i <= |a| && j <= |b| &&
    (forall k, l | 0 <= k < i && j <= l < |b| :: a[k] <= b[l]) &&
    (forall k, l | i <= k < |a| && 0 <= l < j :: b[l] < a[k])
  }

  ghost predicate Before(s: Sample, i: nat, x: real)
    requires i <= |s|
  {
    i < |s| ==> x < s[i]
  }

  ghost predicate UpTo(s: Sample, i: nat, x: real)
    requires i <= |s|
  {
    i < |s| ==> x <= s[i]
  }

  /** `d` bounds the gaps at all values the walk has passed. */
  ghost predicate Covered(a: Sample, b: Sample, i: nat, j: nat, d: real)
    requires a != [] && b != [] && i <= |a| && j <= |b|
  {
    (forall x | Before(a, i, x) && Before(b, j, x) :: Gap(a, b, x) <= d) &&
    (forall x | Before(a, i, x) && UpTo(b, j, x) :: TieGap(a, b, x) <= d)
  }

  ghost predicate Attained(a: Sample, b: Sample, d: real)
    requires a != [] && b != []
  {
    exists x :: Gap(a, b, x) == d || TieGap(a, b, x) == d
  }

  /** Passing the block `a[i..i']` of equal values. */
  lemma StepA(a: Sample, b: Sample, i: nat, j: nat, i': nat, d: real, d': real)
    requires a != [] && b != [] && Sorted(a) && Sorted(b) && Interleaved(a, b, i, j) && Covered(a, b, i, j, d)
    requires i < i' <= |a| && j < |b| && a[i] <= b[j]
    requires (forall k | i <= k < i' :: a[k] == a[i]) && (i' < |a| ==> a[i'] != a[i])
    requires d' >= d && d' >= Distance(i', a, j, b)
    ensures Interleaved(a, b, i', j) && Covered(a, b, i', j, d')
    ensures TieGap(a, b, a[i]) == Distance(i', a, j, b)
  {
    hide Gap, TieGap, Distance, CountLe, CountLt;
    var v := a[i];
    forall x | Before(a, i', x) && Before(b, j, x) ensures Gap(a, b, x) <= d' {
      if x >= v { GapAt(a, b, x, i', j); }
    }
    forall x | Before(a, i', x) && UpTo(b, j, x) ensures TieGap(a, b, x) <= d' {
      if x >= v { TieGapAt(a, b, x, i', j); }
    }
    TieGapAt(a, b, v, i', j);
  }

  /** Passing the block `b[j..j']` of equal values. */
  lemma StepB(a: Sample, b: Sample, i: nat, j: nat, j': nat, d: real, d': real)
    requires a != [] && b != [] && Sorted(a) && Sorted(b) && Interleaved(a, b, i, j) && Covered(a, b, i, j, d)
    requires j < j' <= |b| && i < |a| && b[j] < a[i]
    requires (forall k | j <= k < j' :: b[k] == b[j]) && (j' < |b| ==> b[j'] != b[j])
    requires d' >= d && d' >= Distance(i, a, j', b)
    ensures Interleaved(a, b, i, j') && Covered(a, b, i, j', d')
    ensures Gap(a, b, b[j]) == Distance(i, a, j', b)
  {
    hide Gap, TieGap, Distance, CountLe, CountLt;
    var v := b[j];
    forall x | Before(a, i, x) && Before(b, j', x) ensures Gap(a, b, x) <= d' {
      if x >= v { GapAt(a, b, x, i, j'); }
    }
    forall x | Before(a, i, x) && UpTo(b, j', x) ensures TieGap(a, b, x) <= d' {
      if x > v { TieGapAt(a, b, x, i, j'); }
    }
    GapAt(a, b, v, i, j');
  }

  lemma GapAt(a: Sample, b: Sample, x: real, i: nat, j: nat)
    requires a != [] && b != [] && Sorted(a) && Sorted(b) && i <= |a| && j <= |b|
    requires (i == 0 || a[i - 1] <= x) && Before(a, i, x) && (j == 0 || b[j - 1] <= x) && Before(b, j, x)
    ensures Gap(a, b, x) == Distance(i, a, j, b)
  {
    CountLeAt(a, x, i);
    CountLeAt(b, x, j);
  }

  lemma TieGapAt(a: Sample, b: Sample, x: real, i: nat, j: nat)
    requires a != [] && b != [] && Sorted(a) && Sorted(b) && i <= |a| && j <= |b|
    requires (i == 0 || a[i - 1] <= x) && Before(a, i, x) && (j == 0 || b[j - 1] < x) && UpTo(b, j, x)
    ensures TieGap(a, b, x) == Distance(i, a, j, b)
  {
    CountLeAt(a, x, i);
    CountLtAt(b, x, j);
  }

  /** Stopping when one sample is exhausted misses nothing. */
  lemma Finished(a: Sample, b: Sample, i: nat, j: nat, d: real, x: real)
    requires a != [] && b != [] && Sorted(a) && Sorted(b) && Interleaved(a, b, i, j) && Covered(a, b, i, j, d)
    requires (i == |a| || j == |b|) && d >= Distance(i, a, j, b)
    ensures Gap(a, b, x) <= d && TieGap(a, b, x) <= d
  {
    hide Distance, CountLe, CountLt;
    if i == |a| && j < |b| && x >= b[j] {
      assert a[|a| - 1] <= b[j] && (j > 0 ==> b[j - 1] <= b[j]);
      CountLeAt(a, x, |a|);
      CountAtLeast(b, x, j);
      DistanceShrinks(a, b, j, CountLe(b, x));
      if x > b[j] { DistanceShrinks(a, b, j, CountLt(b, x)); }
    } else if j == |b| && i < |a| && x >= a[i] {
      assert b[|b| - 1] < a[i] && (i > 0 ==> a[i - 1] <= a[i]);
      CountLeAt(b, x, |b|);
      CountLtAt(b, x, |b|);
      CountAtLeast(a, x, i);
      DistanceSymmetric(a, b, CountLe(a, x), |b|);
      DistanceSymmetric(a, b, i, |b|);
      DistanceShrinks(b, a, i, CountLe(a, x));
    }
  }

  /** The library's sort, in place. */
  method SortFloats(s: array<real>)
    modifies s
    ensures s[..] == Sort(old(s[..]))
  {
    var sorted := Sort(s[..]);
    for i := 0 to s.Length
      invariant s[..i] == sorted[..i]
    {
      s[i] := sorted[i];
    }
    assert sorted == sorted[..s.Length];
  }

  /** Sorts both samples in place and walks them together, stopping when one is exhausted. */
  method KolmogorovSmirnov2Sample(a: array<real>, b: array<real>) returns (maxDiff: real)
    modifies a, b
    ensures if a.Length == 0 || b.Length == 0 then a[..] == old(a[..]) && b[..] == old(b[..]) && maxDiff == 1.0
            else a[..] == Sort(old(a[..])) && b[..] == Sort(old(b[..])) && IsWalkMax(old(a[..]), old(b[..]), maxDiff)
  {
    if a.Length == 0 || b.Length == 0 {
      return 1.0;
    }
    SortFloats(a);
    SortFloats(b);
    SortCounts(old(a[..]), 0.0);
    SortCounts(old(b[..]), 0.0);
    SortedSorts(Sort(old(a[..])));
    maxDiff := Walk(a[..], b[..]);
    SortedAgrees(old(a[..]), old(b[..]), maxDiff);
  }

  lemma SortedAgrees(a: Sample, b: Sample, d: real)
    requires a != [] && b != [] && IsWalkMax(Sort(a), Sort(b), d)
    ensures IsWalkMax(a, b, d)
  {
    hide Sort, CountLe, CountLt, Distance;
    forall x ensures Gap(a, b, x) == Gap(Sort(a), Sort(b), x) && TieGap(a, b, x) == TieGap(Sort(a), Sort(b), x) {
      SortCounts(a, x);
      SortCounts(b, x);
      SameLength(a, b, CountLe(a, x), CountLe(b, x));
      SameLength(a, b, CountLe(a, x), CountLt(b, x));
    }
  }

  lemma SameLength(a: Sample, b: Sample, i: nat, j: nat)
    requires a != [] && b != []
    ensures Distance(i, a, j, b) == Distance(i, Sort(a), j, Sort(b))
  {
    hide Sort;
  }

  method Walk(a: Sample, b: Sample) returns (maxDiff: real)
    requires a != [] && b != [] && Sorted(a) && Sorted(b)
    ensures IsWalkMax(a, b, maxDiff)
  {
    hide Gap, TieGap, Fraction, CountLe, CountLt;
    var ia, ib := 0, 0;
    maxDiff := 0.0;
    CoveredAtStart(a, b);
    while ia < |a| && ib < |b|
      invariant Interleaved(a, b, ia, ib) && Covered(a, b, ia, ib, maxDiff)
      invariant maxDiff >= Distance(ia, a, ib, b)
      invariant (ia == 0 && ib == 0 && maxDiff == 0.0) || Attained(a, b, maxDiff)
      decreases |a| - ia + |b| - ib
    {
      hide Distance, Interleaved, Covered, Attained;
      ghost var i, j := ia, ib;
      var valA, valB := a[ia], b[ib];
      var curVal;
      if valA <= valB {
        curVal := valA;
        while ia < |a| && a[ia] == curVal
          invariant i <= ia <= |a| && forall k | i <= k < ia :: a[k] == curVal
        {
          ia := ia + 1;
        }
      } else {
        curVal := valB;
        while ib < |b| && b[ib] == curVal
          invariant j <= ib <= |b| && forall k | j <= k < ib :: b[k] == curVal
        {
          ib := ib + 1;
        }
      }
      var cdfA, cdfB := Fraction(ia, a), Fraction(ib, b);
      var diff := if cdfA - cdfB < 0.0 then -(cdfA - cdfB) else cdfA - cdfB;
      DistanceIs(a, b, ia, ib, diff);
      ghost var before := maxDiff;
      if diff > maxDiff {
        maxDiff := diff;
      }
      StepKeeps(a, b, i, j, ia, ib, before, maxDiff);
    }
    forall x ensures Gap(a, b, x) <= maxDiff && TieGap(a, b, x) <= maxDiff {
      Finished(a, b, ia, ib, maxDiff, x);
    }
  }

  lemma DistanceIs(a: Sample, b: Sample, i: nat, j: nat, diff: real)
    requires a != [] && b != []
    requires var d := Fraction(i, a) - Fraction(j, b); diff == if d < 0.0 then -d else d
    ensures diff == Distance(i, a, j, b) >= 0.0
  {
  }

  lemma CoveredAtStart(a: Sample, b: Sample)
    requires a != [] && b != [] && Sorted(a) && Sorted(b)
    ensures Interleaved(a, b, 0, 0) && Covered(a, b, 0, 0, 0.0) && Distance(0, a, 0, b) == 0.0
  {
    hide Gap, TieGap, CountLe, CountLt;
    FractionMonotone(0, 0, a);
    FractionMonotone(0, 0, b);
    forall x | Before(a, 0, x) && Before(b, 0, x) ensures Gap(a, b, x) <= 0.0 { GapAt(a, b, x, 0, 0); }
    forall x | Before(a, 0, x) && UpTo(b, 0, x) ensures TieGap(a, b, x) <= 0.0 { TieGapAt(a, b, x, 0, 0); }
  }

  /** One round of the walk, on either sample. */
  lemma StepKeeps(a: Sample, b: Sample, i: nat, j: nat, i': nat, j': nat, d: real, d': real)
    requires a != [] && b != [] && Sorted(a) && Sorted(b) && Interleaved(a, b, i, j) && Covered(a, b, i, j, d)
    requires i < |a| && j < |b| && i <= i' <= |a| && j <= j' <= |b|
    requires if a[i] <= b[j]
             then j' == j && i' > i && (forall k | i <= k < i' :: a[k] == a[i]) && (i' < |a| ==> a[i'] != a[i])
             else i' == i && j' > j && (forall k | j <= k < j' :: b[k] == b[j]) && (j' < |b| ==> b[j'] != b[j])
    requires d' == if Distance(i', a, j', b) > d then Distance(i', a, j', b) else d
    requires (i == 0 && j == 0 && d == 0.0) || Attained(a, b, d)
    requires Distance(i', a, j', b) >= 0.0
    ensures Interleaved(a, b, i', j') && Covered(a, b, i', j', d') && d' >= Distance(i', a, j', b)
    ensures Attained(a, b, d')
  {
    hide Gap, TieGap, Distance, Interleaved, Covered;
    if a[i] <= b[j] {
      StepA(a, b, i, j, i', d, d');
      assert TieGap(a, b, a[i]) == Distance(i', a, j, b);
    } else {
      StepB(a, b, i, j, j', d, d');
      assert Gap(a, b, b[j]) == Distance(i, a, j', b);
    }
  }

  // ---------- how the walk relates to the statistic ----------

  /** A value strictly below `x` with no sample value in between. */
  lemma {:induction false} JustBelow(s: Sample, x: real) returns (y: real)
    ensures y < x && forall i | 0 <= i < |s| :: s[i] < x ==> s[i] <= y
  {
    if s == [] {
      y := x - 1.0;
    } else {
      y := JustBelow(s[..|s| - 1], x);
      if y < s[|s| - 1] < x { y := s[|s| - 1]; }
    }
  }

  lemma {:induction false} CountsJustBelow(s: Sample, x: real, y: real)
    requires y < x && forall i | 0 <= i < |s| :: s[i] < x ==> s[i] <= y
    ensures CountLe(s, y) == CountLt(s, x)
  {
    if s != [] { CountsJustBelow(s[..|s| - 1], x, y); }
  }

  lemma {:induction false} CountsAgree(s: Sample, x: real)
    requires x !in s
    ensures CountLe(s, x) == CountLt(s, x)
  {
    if s != [] { CountsAgree(s[..|s| - 1], x); }
  }

  /** A tie gap at a value the samples do not share is an ordinary gap somewhere. */
  lemma UnsharedTie(a: Sample, b: Sample, x: real) returns (y: real)
    requires a != [] && b != [] && !(x in a && x in b)
    ensures TieGap(a, b, x) == Gap(a, b, y)
  {
    if x !in b {
      CountsAgree(b, x);
      y := x;
    } else {
      CountsAgree(a, x);
      y := JustBelow(a + b, x);
      forall i | 0 <= i < |a| && a[i] < x ensures a[i] <= y { assert (a + b)[i] == a[i]; }
      forall i | 0 <= i < |b| && b[i] < x ensures b[i] <= y { assert (a + b)[|a| + i] == b[i]; }
      CountsJustBelow(a, x, y);
      CountsJustBelow(b, x, y);
    }
  }

  /** The greatest gap at the given points, or 0. */
  function GreatestGap(a: Sample, b: Sample, points: Sample): (g: real)
    requires a != [] && b != []
    ensures g >= 0.0 && forall x | x in points :: Gap(a, b, x) <= g
    ensures g == 0.0 || exists x | x in points :: Gap(a, b, x) == g
  {
    if points == [] then 0.0
    else
      var n := |points| - 1;
      var g, h := GreatestGap(a, b, points[..n]), Gap(a, b, points[n]);
      if h > g then h else g
  }

  function Statistic(a: Sample, b: Sample): real
    requires a != [] && b != []
  {
    GreatestGap(a, b, a + b)
  }

  /** No value of the sample lies above `y` and up to `x`. */
  predicate NothingBetween(s: Sample, y: real, x: real) {
    forall i | 0 <= i < |s| && s[i] <= x :: s[i] <= y
  }

  predicate AllAbove(s: Sample, x: real) {
    forall i | 0 <= i < |s| :: x < s[i]
  }

  lemma {:induction false} CountsUpTo(s: Sample, x: real, y: real)
    requires y <= x && NothingBetween(s, y, x)
    ensures CountLe(s, x) == CountLe(s, y)
  {
    if s != [] { CountsUpTo(s[..|s| - 1], x, y); }
  }

  lemma {:induction false} CountsNone(s: Sample, x: real)
    requires AllAbove(s, x)
    ensures CountLe(s, x) == 0
  {
    if s != [] { CountsNone(s[..|s| - 1], x); }
  }

  lemma Parts(a: Sample, b: Sample, y: real, x: real)
    ensures AllAbove(a + b, x) ==> AllAbove(a, x) && AllAbove(b, x)
    ensures NothingBetween(a + b, y, x) ==> NothingBetween(a, y, x) && NothingBetween(b, y, x)
  {
    assert forall i | 0 <= i < |a| :: (a + b)[i] == a[i];
    assert forall i | 0 <= i < |b| :: (a + b)[|a| + i] == b[i];
  }

  /** The greatest value up to `x`, if there is one. */
  lemma {:induction false} LastUpTo(s: Sample, x: real) returns (found: bool, y: real)
    ensures found ==> y in s && y <= x && NothingBetween(s, y, x)
    ensures !found ==> AllAbove(s, x)
  {
    if s == [] {
      found, y := false, x;
    } else {
      var n := |s| - 1;
      found, y := LastUpTo(s[..n], x);
      if s[n] <= x && (!found || y < s[n]) { found, y := true, s[n]; }
    }
  }

  lemma {:induction false} SomethingBelow(s: Sample) returns (y: real)
    ensures AllAbove(s, y)
  {
    if s == [] {
      y := 0.0;
    } else {
      var n := |s| - 1;
      y := SomethingBelow(s[..n]);
      if s[n] <= y { y := s[n] - 1.0; }
    }
  }

  /** Below both samples the gap is 0. */
  lemma NoGapBelow(a: Sample, b: Sample, x: real)
    requires a != [] && b != [] && AllAbove(a + b, x)
    ensures Gap(a, b, x) == 0.0
  {
    hide CountLe;
    Parts(a, b, x, x);
    CountsNone(a, x);
    CountsNone(b, x);
    FractionMonotone(0, 0, a);
    FractionMonotone(0, 0, b);
  }

  /** Every gap is that at some sample value, or 0; so there is a greatest one. */
  lemma StatisticExists(a: Sample, b: Sample)
    requires a != [] && b != []
    ensures IsStatistic(a, b, Statistic(a, b))
  {
    hide CountLe, Distance, GreatestGap;
    forall x ensures Gap(a, b, x) <= Statistic(a, b) {
      var found, y := LastUpTo(a + b, x);
      if found {
        Parts(a, b, y, x);
        CountsUpTo(a, x, y);
        CountsUpTo(b, x, y);
      } else {
        NoGapBelow(a, b, x);
      }
    }
    var low := SomethingBelow(a + b);
    NoGapBelow(a, b, low);
  }

  /** Main result: for all nonempty samples the walk's value lies between the statistic and 1; it is the statistic
      exactly when no tie gap at a shared value exceeds that, and so whenever the samples share no value. */
  lemma WalkVersusStatistic(a: Sample, b: Sample, d: real)
    requires a != [] && b != [] && IsWalkMax(a, b, d)
    ensures IsStatistic(a, b, Statistic(a, b)) && Statistic(a, b) <= d <= 1.0
    ensures d == Statistic(a, b) <==> forall x | x in a && x in b :: TieGap(a, b, x) <= Statistic(a, b)
    ensures (forall x :: !(x in a && x in b)) ==> IsStatistic(a, b, d)
  {
    hide Gap, TieGap, Statistic;
    StatisticExists(a, b);
    var k := Statistic(a, b);
    var x :| Gap(a, b, x) == k;
    var y :| Gap(a, b, y) == d || TieGap(a, b, y) == d;
    GapBounds(a, b, y);
    if forall x | x in a && x in b :: TieGap(a, b, x) <= k {
      if !(y in a && y in b) { var z := UnsharedTie(a, b, y); }
    }
  }

  lemma GapBounds(a: Sample, b: Sample, x: real)
    requires a != [] && b != []
    ensures 0.0 <= Gap(a, b, x) <= 1.0 && 0.0 <= TieGap(a, b, x) <= 1.0
  {
    DistanceBound(a, b, CountLe(a, x), CountLe(b, x));
    DistanceBound(a, b, CountLe(a, x), CountLt(b, x));
  }

  /** Two samples with the one value 1: the statistic is 0, the walk's value 1. */
  lemma TiesExceedTheStatistic()
    ensures IsStatistic([1.0], [1.0], 0.0) && IsWalkMax([1.0], [1.0], 1.0)
  {
    var a: Sample := [1.0];
    forall x ensures Gap(a, a, x) == 0.0 {}
    forall x ensures TieGap(a, a, x) <= 1.0 { GapBounds(a, a, x); }
    assert a[..0] == [];
    assert CountLe(a, 1.0) == 1 && CountLt(a, 1.0) == 0;
    assert TieGap(a, a, 1.0) == 1.0;
  }
}
