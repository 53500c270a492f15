/** The count-min sketch that estimates how often a sender reached a handle, with 32-bit cells. */
module CountMinSketch {
  import opened BloomFilter
  import opened PairCascade
  import opened Words

  const CELL: nat := 0x1_0000_0000

  /** The cell of a probe in row `d`; the sum wraps at 64 bits. */
  function Cell(p: Probe, d: nat, width: nat): (k: nat)
    requires width > 0
    ensures k < width
  {
    (p.h1 + d * p.h2) % UINT64 % width
  }

  function Adds(adds: seq<Pair>, p: Pair): (n: nat)
    ensures n <= |adds|
  {
    if adds == [] then 0 else Adds(adds[..|adds| - 1], p) + (if adds[|adds| - 1] == p then 1 else 0)
  }

  /** How many additions went to cell `k` of row `d`. */
  function Hits(adds: seq<Pair>, hash: Pair -> Probe, width: nat, d: nat, k: nat): (n: nat)
    requires width > 0
    ensures n <= |adds|
  {
    if adds == [] then 0
    else Hits(adds[..|adds| - 1], hash, width, d, k)
         + (if Cell(hash(adds[|adds| - 1]), d, width) == k then 1 else 0)
  }

  lemma HitsSnoc(adds: seq<Pair>, p: Pair, hash: Pair -> Probe, width: nat, d: nat, k: nat)
    requires width > 0
    ensures Hits(adds + [p], hash, width, d, k) ==
            Hits(adds, hash, width, d, k) + (if Cell(hash(p), d, width) == k then 1 else 0)
  {
    assert (adds + [p])[..|adds|] == adds;
  }

  lemma AddsSnoc(adds: seq<Pair>, p: Pair, q: Pair)
    ensures Adds(adds + [p], q) == Adds(adds, q) + (if p == q then 1 else 0)
  {
    assert (adds + [p])[..|adds|] == adds;
  }

  /** A pair's cell is hit by every addition of the pair, and perhaps by others. */
  lemma {:induction false} HitsCoverAdds(adds: seq<Pair>, hash: Pair -> Probe, width: nat, d: nat, p: Pair)
    requires width > 0
    ensures Adds(adds, p) <= Hits(adds, hash, width, d, Cell(hash(p), d, width))
  {
    if adds != [] { HitsCoverAdds(adds[..|adds| - 1], hash, width, d, p); }
  }

  /** The estimate: the least of the pair's cells, each of which has lost the hits beyond 32 bits. */
  function Estimated(adds: seq<Pair>, hash: Pair -> Probe, width: nat, depth: nat, p: Pair): (e: nat)
    requires width > 0
  {
    if depth == 0 then CELL - 1
    else
      var cell := Hits(adds, hash, width, depth - 1, Cell(hash(p), depth - 1, width)) % CELL;
      var rest := Estimated(adds, hash, width, depth - 1, p);
      if cell < rest then cell else rest
  }

  /** None of the pair's cells has wrapped. */
  predicate CellsFit(adds: seq<Pair>, hash: Pair -> Probe, width: nat, depth: nat, p: Pair)
    requires width > 0
  {
    forall d | 0 <= d < depth :: Hits(adds, hash, width, d, Cell(hash(p), d, width)) < CELL
  }

  /** None of the cells of a handle's senders has wrapped. */
  predicate HandleFits(adds: seq<Pair>, hash: Pair -> Probe, width: nat, depth: nat, handle: string)
    requires width > 0
  {
    forall i | 0 <= i < |adds| && adds[i].handle == handle :: CellsFit(adds, hash, width, depth, adds[i])
  }

  /** The pair's cell in row `d` has wrapped, and what is left of it is less than the pair's own additions. */
  predicate LosesCount(adds: seq<Pair>, hash: Pair -> Probe, width: nat, d: nat, p: Pair)
    requires width > 0
  {
    var hits := Hits(adds, hash, width, d, Cell(hash(p), d, width));
    hits >= CELL && hits % CELL < Adds(adds, p)
  }

  lemma {:induction false} EstimateIsLeast(adds: seq<Pair>, hash: Pair -> Probe, width: nat, depth: nat, p: Pair)
    requires width > 0 && depth > 0
    ensures forall d | 0 <= d < depth ::
      Estimated(adds, hash, width, depth, p) <= Hits(adds, hash, width, d, Cell(hash(p), d, width)) % CELL
    ensures var e := Estimated(adds, hash, width, depth, p);
            exists d :: 0 <= d < depth && e == Hits(adds, hash, width, d, Cell(hash(p), d, width)) % CELL
  {
    hide Hits, Cell;
    var last := Hits(adds, hash, width, depth - 1, Cell(hash(p), depth - 1, width)) % CELL;
    if depth == 1 {
      assert Estimated(adds, hash, width, 0, p) == CELL - 1;
    } else {
      EstimateIsLeast(adds, hash, width, depth - 1, p);
    }
  }

  /** The estimate is below the true number of additions exactly when some cell of the pair has wrapped to less
      than that number. */
  lemma BelowIffWrapped(adds: seq<Pair>, hash: Pair -> Probe, width: nat, depth: nat, p: Pair)
    requires width > 0 && depth > 0
    ensures Estimated(adds, hash, width, depth, p) < Adds(adds, p)
      <==> exists d :: 0 <= d < depth && LosesCount(adds, hash, width, d, p)
  {
    hide Hits, Adds, Cell, Estimated;
    EstimateIsLeast(adds, hash, width, depth, p);
    forall d | 0 <= d < depth ensures Adds(adds, p) <= Hits(adds, hash, width, d, Cell(hash(p), d, width)) {
      HitsCoverAdds(adds, hash, width, d, p);
    }
    if Estimated(adds, hash, width, depth, p) < Adds(adds, p) {
      var e := Estimated(adds, hash, width, depth, p);
      var d :| 0 <= d < depth && e == Hits(adds, hash, width, d, Cell(hash(p), d, width)) % CELL;
      assert LosesCount(adds, hash, width, d, p);
    }
  }

  /** While none of the pair's cells has wrapped, the estimate is never below the true number of additions and never
      above the hits of any of its cells: it is exact as soon as one of them is hit by no other pair. */
  lemma NeverBelow(adds: seq<Pair>, hash: Pair -> Probe, width: nat, depth: nat, p: Pair)
    requires width > 0 && depth > 0 && CellsFit(adds, hash, width, depth, p)
    ensures Estimated(adds, hash, width, depth, p) >= Adds(adds, p)
    ensures forall d | 0 <= d < depth ::
      Estimated(adds, hash, width, depth, p) <= Hits(adds, hash, width, d, Cell(hash(p), d, width))
  {
    hide Hits, Adds, Cell, Estimated;
    BelowIffWrapped(adds, hash, width, depth, p);
    EstimateIsLeast(adds, hash, width, depth, p);
  }

  lemma CellsFitBefore(adds: seq<Pair>, q: Pair, hash: Pair -> Probe, width: nat, depth: nat, p: Pair)
    requires width > 0 && CellsFit(adds + [q], hash, width, depth, p)
    ensures CellsFit(adds, hash, width, depth, p)
  {
    hide Hits, Cell;
    forall d | 0 <= d < depth ensures Hits(adds, hash, width, d, Cell(hash(p), d, width)) < CELL {
      HitsSnoc(adds, q, hash, width, d, Cell(hash(p), d, width));
    }
  }

  lemma HandleFitsBefore(adds: seq<Pair>, q: Pair, hash: Pair -> Probe, width: nat, depth: nat, handle: string)
    requires width > 0 && HandleFits(adds + [q], hash, width, depth, handle)
    ensures HandleFits(adds, hash, width, depth, handle)
  {
    hide CellsFit;
    forall i | 0 <= i < |adds| && adds[i].handle == handle ensures CellsFit(adds, hash, width, depth, adds[i]) {
      assert (adds + [q])[i] == adds[i];
      CellsFitBefore(adds, q, hash, width, depth, adds[i]);
    }
  }

  /** Until a cell of the pair wraps, its estimate only grows. */
  lemma EstimateGrows(adds: seq<Pair>, q: Pair, hash: Pair -> Probe, width: nat, depth: nat, p: Pair)
    requires width > 0 && depth > 0 && CellsFit(adds + [q], hash, width, depth, p)
    ensures Estimated(adds, hash, width, depth, p) <= Estimated(adds + [q], hash, width, depth, p)
  {
    hide Hits, Cell, Estimated;
    EstimateIsLeast(adds, hash, width, depth, p);
    EstimateIsLeast(adds + [q], hash, width, depth, p);
    var e := Estimated(adds + [q], hash, width, depth, p);
    var d :| 0 <= d < depth && e == Hits(adds + [q], hash, width, d, Cell(hash(p), d, width)) % CELL;
    HitsSnoc(adds, q, hash, width, d, Cell(hash(p), d, width));
  }

  /** A pair is estimated at 0 exactly when the hits of one of its cells are a multiple of 2^32, whoever made them. */
  lemma OverflowForgets(adds: seq<Pair>, hash: Pair -> Probe, width: nat, depth: nat, p: Pair)
    requires width > 0 && depth > 0
    ensures Estimated(adds, hash, width, depth, p) == 0
      <==> exists d :: 0 <= d < depth && Hits(adds, hash, width, d, Cell(hash(p), d, width)) % CELL == 0
  {
    hide Hits, Cell, Estimated;
    EstimateIsLeast(adds, hash, width, depth, p);
  }

  /** So one pair added 2^32 times is. */
  lemma OnePairForgotten(adds: seq<Pair>, hash: Pair -> Probe, width: nat, depth: nat, p: Pair)
    requires width > 0 && depth > 0 && |adds| == CELL && forall i | 0 <= i < |adds| :: adds[i] == p
    ensures Adds(adds, p) == CELL && Estimated(adds, hash, width, depth, p) == 0
  {
    AllAlike(adds, hash, width, depth - 1, p);
  }

  lemma {:induction false} AllAlike(adds: seq<Pair>, hash: Pair -> Probe, width: nat, d: nat, p: Pair)
    requires width > 0 && forall i | 0 <= i < |adds| :: adds[i] == p
    ensures Adds(adds, p) == |adds| && Hits(adds, hash, width, d, Cell(hash(p), d, width)) == |adds|
  {
    if adds != [] { AllAlike(adds[..|adds| - 1], hash, width, d, p); }
  }

  predicate RowStep(adds: seq<Pair>, p: Pair, hash: Pair -> Probe, width: nat, d: nat, j: nat)
    requires width > 0
  {
    var before, after := Hits(adds, hash, width, d, j) % CELL, Hits(adds + [p], hash, width, d, j) % CELL;
    after == if j == Cell(hash(p), d, width) then Increment(before) else before
  }

  /** One more addition is one more hit of its cell, in each row, modulo 2^32 too. */
  lemma RowSnoc(adds: seq<Pair>, p: Pair, hash: Pair -> Probe, width: nat, d: nat)
    requires width > 0
    ensures forall j | 0 <= j < width :: RowStep(adds, p, hash, width, d, j)
  {
    hide Hits, Cell;
    forall j | 0 <= j < width ensures RowStep(adds, p, hash, width, d, j) {
      HitsSnoc(adds, p, hash, width, d, j);
    }
  }

  class Sketch {
    const width: nat
    const depth: nat
    const hash: Pair -> Probe
    const table: array2<nat>
    /** All additions so far. */
    ghost var adds: seq<Pair>

    /** Each cell is its number of hits modulo 2^32. */
    ghost predicate Valid()
      reads this, table
    {
      && width > 0 && depth > 0 && table.Length0 == depth && table.Length1 == width
      && forall d, k | 0 <= d < depth && 0 <= k < width :: table[d, k] == Hits(adds, hash, width, d, k) % CELL
    }

    constructor (width: int, depth: int, hash: Pair -> Probe)
      ensures Valid() && fresh(table) && adds == [] && this.hash == hash
      ensures this.width == (if width < 512 then 2048 else width) && this.depth == (if depth < 2 then 4 else depth)
    {
      var w: nat, d: nat := if width < 512 then 2048 else width, if depth < 2 then 4 else depth;
      this.width, this.depth, this.hash := w, d, hash;
      table := new nat[d, w]((i, j) => 0);
      adds := [];
    }

    method Add(p: Pair)
      requires Valid()
      modifies this`adds, table
      ensures Valid() && adds == old(adds) + [p]
    {
      hide Hits, Cell;
      ghost var before := adds;
      for d := 0 to depth
        invariant adds == before
        invariant forall e, k | 0 <= e < depth && 0 <= k < width ::
          table[e, k] == Hits(if e < d then before + [p] else before, hash, width, e, k) % CELL
      {
        var k := Cell(hash(p), d, width);
        RowSnoc(before, p, hash, width, d);
        table[d, k] := Increment(table[d, k]);
        forall j | 0 <= j < width ensures table[d, j] == Hits(before + [p], hash, width, d, j) % CELL {
          assert RowStep(before, p, hash, width, d, j);
        }
      }
      adds := adds + [p];
    }

    method Estimate(p: Pair) returns (e: nat)
      requires Valid()
      ensures e == Estimated(adds, hash, width, depth, p)
    {
      e := CELL - 1;
      for d := 0 to depth
        invariant e == Estimated(adds, hash, width, d, p)
      {
        var v := table[d, Cell(hash(p), d, width)];
        if v < e {
          e := v;
        }
      }
    }
  }

  /** `cell++` on a 32-bit cell. */
  function Increment(v: nat): nat {
    (v + 1) % CELL
  }
}
