/** The geometry of the symbol (web/app/src/qr.ts:96-128, 187-216): which cells are reserved, and the
    serpentine order in which the others are filled. */
module QrLayout {

  datatype Cell = Cell(row: nat, col: nat)

  /** The four versions have sizes 21, 25, 29 and 33; the walk is the same for every odd size. */
  predicate IsSize(size: nat) {
    size >= 21 && size % 2 == 1
  }

  /** Finder patterns with their separators, timing patterns, and format areas. */
  predicate Reserved(size: nat, row: nat, col: nat) {
    row == 6 || col == 6 || (row < 9 && col < 9) || (row < 9 && col + 8 >= size) || (row + 8 >= size && col < 9)
  }

  predicate Free(size: nat, c: Cell) {
    c.row < size && c.col < size && !Reserved(size, c.row, c.col)
  }

  // ---------- the walk ----------

  /** The row visited at step `v` of a column pair. */
  function RowAt(size: nat, up: bool, v: nat): nat
    requires v < size
  {
    if up then size - 1 - v else v
  }

  /** The right column of pair `p`; the pairs left of the timing column are shifted by one. */
  function Right(size: nat, p: nat): nat
    requires 2 * p < size - 1
  {
    if size - 1 - 2 * p > 6 then size - 1 - 2 * p else size - 2 - 2 * p
  }

  /** The loop variable before pair `p`, not yet moved past the timing column. */
  function NextRight(size: nat, p: nat): int {
    if size - 1 - 2 * p >= 6 then size - 1 - 2 * p else size - 2 - 2 * p
  }

  lemma RightStarts(size: nat)
    requires IsSize(size)
    ensures NextRight(size, 0) == size - 1
  {
  }

  lemma RightAdvances(size: nat, p: nat)
    requires IsSize(size) && 2 * p <= size - 1
    ensures NextRight(size, p) > 0 <==> 2 * p < size - 1
    ensures NextRight(size, p) > 0 ==>
              var r := if NextRight(size, p) == 6 then 5 else NextRight(size, p);
              r == Right(size, p) && NextRight(size, p + 1) == r - 2
  {
  }

  lemma DataCellsAreWalked(size: nat)
    requires IsSize(size)
    ensures DataCells(size) == Walk(size, (size - 1) / 2)
  {
    hide Walk;
  }

  lemma WalkEnds(size: nat, p: nat)
    requires IsSize(size) && 2 * p <= size - 1 && NextRight(size, p) <= 0
    ensures p == (size - 1) / 2
  {
  }

  function IfFree(size: nat, c: Cell): (s: seq<Cell>)
  {
    if Reserved(size, c.row, c.col) then [] else [c]
  }

  /** The free cells of the first `n` rows of the pair of columns `right`, `right - 1`. */
  function PairCells(size: nat, right: nat, up: bool, n: nat): seq<Cell>
    requires n <= size && right > 0
  {
    if n == 0 then [] else
      var row := RowAt(size, up, n - 1);
      PairCells(size, right, up, n - 1) + IfFree(size, Cell(row, right)) + IfFree(size, Cell(row, right - 1))
  }

  /** The free cells of the first `p` column pairs, alternately upwards and downwards. */
  function Walk(size: nat, p: nat): seq<Cell>
    requires IsSize(size) && 2 * p <= size - 1
  {
    if p == 0 then [] else
      Walk(size, p - 1) + PairCells(size, Right(size, p - 1), p % 2 == 1, size)
  }

  function DataCells(size: nat): seq<Cell>
    requires IsSize(size)
  {
    Walk(size, (size - 1) / 2)
  }

  // ---------- every free cell exactly once ----------

  ghost predicate Distinct(s: seq<Cell>) {
    forall i, j | 0 <= i < j < |s| :: s[i] != s[j]
  }

  ghost predicate InRows(size: nat, up: bool, n: nat, row: nat) {
    if up then size - n <= row < size else row < n
  }

  lemma {:induction false} PairCellsExact(size: nat, right: nat, up: bool, n: nat)
    requires n <= size && 0 < right < size
    ensures Distinct(PairCells(size, right, up, n))
    ensures forall c :: c in PairCells(size, right, up, n) <==>
              Free(size, c) && (c.col == right || c.col == right - 1) && InRows(size, up, n, c.row)
  {
    if n > 0 {
      PairCellsExact(size, right, up, n - 1);
    }
  }

  /** The leftmost column the first `p` pairs reach. */
  function Reached(size: nat, p: nat): nat
    requires 2 * p <= size - 1
  {
    if size - 1 - 2 * p >= 6 then size - 2 * p else size - 1 - 2 * p
  }

  lemma WalkUnfold(size: nat, p: nat)
    requires IsSize(size) && 2 * p <= size - 1
    ensures Walk(size, p) == if p == 0 then [] else
              Walk(size, p - 1) + PairCells(size, Right(size, p - 1), p % 2 == 1, size)
  {
    hide PairCells;
  }

  lemma {:induction false} WalkExact(size: nat, p: nat)
    requires IsSize(size) && 2 * p <= size - 1
    ensures Distinct(Walk(size, p))
    ensures forall c :: c in Walk(size, p) <==> Free(size, c) && c.col >= Reached(size, p)
  {
    hide Walk, PairCells;
    WalkUnfold(size, p);
    if p > 0 {
      WalkExact(size, p - 1);
      PairCellsExact(size, Right(size, p - 1), p % 2 == 1, size);
    }
  }

  /** Main result: the walk visits each cell that is not reserved exactly once. */
  lemma DataCellsExact(size: nat)
    requires IsSize(size)
    ensures Distinct(DataCells(size))
    ensures forall c :: c in DataCells(size) <==> Free(size, c)
  {
    hide Walk, Reserved;
    WalkExact(size, (size - 1) / 2);
  }

  // ---------- in which order ----------

  /** Columns go in pairs from the right, the timing column left out. */
  function PairOf(size: nat, col: nat): int {
    (if col > 6 then size - 1 - col else size - 2 - col) / 2
  }

  /** Pair by pair, in the first pair upwards, in the next downwards and so on, and in a row from right to left. */
  predicate Precedes(size: nat, a: Cell, b: Cell) {
    var p, q := PairOf(size, a.col), PairOf(size, b.col);
    || p < q
    || (p == q && (if p % 2 == 0 then a.row > b.row else a.row < b.row))
    || (p == q && a.row == b.row && a.col > b.col)
  }

  ghost predicate InOrder(size: nat, s: seq<Cell>) {
    forall i, j | 0 <= i < j < |s| :: Precedes(size, s[i], s[j])
  }

  lemma InOrderConcat(size: nat, s: seq<Cell>, t: seq<Cell>)
    requires InOrder(size, s) && InOrder(size, t)
    requires forall a, b | a in s && b in t :: Precedes(size, a, b)
    ensures InOrder(size, s + t)
  {
    hide Precedes;
    var all := s + t;
    forall i, j | 0 <= i < j < |all| ensures Precedes(size, all[i], all[j]) {
      if i < |s| && j >= |s| { assert s[i] in s && t[j - |s|] in t; }
    }
  }

  lemma {:induction false} PairInOrder(size: nat, p: nat, n: nat)
    requires IsSize(size) && 2 * p < size - 1 && n <= size
    ensures InOrder(size, PairCells(size, Right(size, p), p % 2 == 0, n))
  {
    hide PairCells;
    var right, up := Right(size, p), p % 2 == 0;
    PairUnfold(size, right, up, n);
    if n > 0 {
      PairInOrder(size, p, n - 1);
      PairCellsExact(size, right, up, n - 1);
      var row, before := RowAt(size, up, n - 1), PairCells(size, right, up, n - 1);
      var a, b := IfFree(size, Cell(row, right)), IfFree(size, Cell(row, right - 1));
      assert PairOf(size, right) == PairOf(size, right - 1) == p;
      InOrderConcat(size, before, a);
      InOrderConcat(size, before + a, b);
    }
  }

  lemma NextPairFollows(size: nat, p: nat)
    requires IsSize(size) && 0 < p && 2 * p <= size - 1
    ensures forall a, b | a in Walk(size, p - 1) && b in PairCells(size, Right(size, p - 1), p % 2 == 1, size) ::
              Precedes(size, a, b)
  {
    hide Walk, PairCells, Reserved, Distinct, InRows;
    WalkExact(size, p - 1);
    PairCellsExact(size, Right(size, p - 1), p % 2 == 1, size);
    forall a, b | a in Walk(size, p - 1) && b in PairCells(size, Right(size, p - 1), p % 2 == 1, size)
      ensures Precedes(size, a, b)
    {
      assert PairOf(size, b.col) == p - 1;
      assert a.col >= Reached(size, p - 1) && a.col != 6 by { assert Free(size, a); TimingIsReserved(size, a); }
    }
  }

  lemma TimingIsReserved(size: nat, c: Cell)
    requires Free(size, c)
    ensures c.col != 6 && c.row != 6
  {
  }

  lemma {:induction false} WalkInOrder(size: nat, p: nat)
    requires IsSize(size) && 2 * p <= size - 1
    ensures InOrder(size, Walk(size, p))
  {
    hide Walk, PairCells, Precedes;
    WalkUnfold(size, p);
    if p > 0 {
      WalkInOrder(size, p - 1);
      PairInOrder(size, p - 1, size);
      NextPairFollows(size, p);
      InOrderConcat(size, Walk(size, p - 1), PairCells(size, Right(size, p - 1), p % 2 == 1, size));
    }
  }

  /** Main result: the cells are visited in that order. */
  lemma DataCellsInOrder(size: nat)
    requires IsSize(size)
    ensures InOrder(size, DataCells(size))
  {
    hide Walk;
    WalkInOrder(size, (size - 1) / 2);
  }

  lemma PairUnfold(size: nat, right: nat, up: bool, n: nat)
    requires n <= size && right > 0
    ensures PairCells(size, right, up, n) == if n == 0 then [] else
              PairCells(size, right, up, n - 1) + IfFree(size, Cell(RowAt(size, up, n - 1), right)) +
              IfFree(size, Cell(RowAt(size, up, n - 1), right - 1))
  {
  }

  /** The next row of a pair has not been visited. */
  lemma RowIsNew(size: nat, p: nat, up: bool, n: nat)
    requires IsSize(size) && 2 * p < size - 1 && n < size
    ensures var row, right := RowAt(size, up, n), Right(size, p);
            var seen := Walk(size, p) + PairCells(size, right, up, n);
            Cell(row, right) !in seen && Cell(row, right - 1) !in seen
  {
    hide Walk, PairCells;
    WalkExact(size, p);
    PairCellsExact(size, Right(size, p), up, n);
  }

  // ---------- how many there are ----------

  /** The number of rows, among the first `n` visited, whose two cells are free. */
  function FreeRows(size: nat, right: nat, up: bool, n: nat): int {
    var seen := if up then size - n else n;
    if right >= size - 7 then
      if up then (if seen < 9 then size - 9 else n) else (if seen < 9 then 0 else n - 9)
    else if right >= 10 then
      if up then (if seen <= 6 then n - 1 else n) else (if seen <= 6 then n else n - 1)
    else
      if up then (if n <= 8 then 0 else if seen < 9 then size - 17 else n - 8)
      else (if seen < 9 then 0 else if n > size - 8 then size - 17 else n - 9)
  }

  lemma {:induction false} PairCount(size: nat, p: nat, up: bool, n: nat)
    requires IsSize(size) && 2 * p < size - 1 && n <= size
    ensures |PairCells(size, Right(size, p), up, n)| == 2 * FreeRows(size, Right(size, p), up, n)
    decreases n
  {
    if n > 0 { PairCount(size, p, up, n - 1); }
  }

  /** The number of free cells in the first `p` pairs of columns, from the right. */
  function CellsBefore(size: nat, p: nat): int {
    if p <= 4 then p * (2 * size - 18)
    else if 2 * p <= size - 9 then 4 * (2 * size - 18) + (p - 4) * (2 * size - 2)
    else 4 * (2 * size - 18) + ((size - 17) / 2) * (2 * size - 2) + (p - (size - 9) / 2) * (2 * size - 34)
  }

  lemma NextPair(a: int, b: int)
    ensures a * b == (a - 1) * b + b
  {
  }

  lemma CellsStep(size: nat, p: nat)
    requires IsSize(size) && 0 < p && 2 * p <= size - 1
    ensures CellsBefore(size, p) == CellsBefore(size, p - 1) + 2 * FreeRows(size, Right(size, p - 1), p % 2 == 1, size)
  {
    var m := (size - 9) / 2;
    NextPair(p, 2 * size - 18);
    NextPair(p - 4, 2 * size - 2);
    NextPair(p - m, 2 * size - 34);
    if p == m + 1 { assert (size - 17) / 2 == p - 1 - 4; }
  }

  lemma {:induction false} WalkCount(size: nat, p: nat)
    requires IsSize(size) && 2 * p <= size - 1
    ensures |Walk(size, p)| == CellsBefore(size, p)
  {
    hide Walk, PairCells, FreeRows, CellsBefore;
    WalkUnfold(size, p);
    if p > 0 {
      WalkCount(size, p - 1);
      PairCount(size, p - 1, p % 2 == 1, size);
      CellsStep(size, p);
    } else {
      NothingBefore(size);
    }
  }

  lemma NothingBefore(size: nat)
    ensures CellsBefore(size, 0) == 0
  {
  }

  lemma DataCellCount(size: nat)
    requires IsSize(size)
    ensures size == 21 ==> |DataCells(size)| == 208
    ensures size == 25 ==> |DataCells(size)| == 384
    ensures size == 29 ==> |DataCells(size)| == 592
    ensures size == 33 ==> |DataCells(size)| == 832
  {
    hide Walk;
    WalkCount(size, (size - 1) / 2);
  }
}
