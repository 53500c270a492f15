/** The table of primes behind the constants of SHA-256 holds the first 64 primes, in order. */
module FirstPrimes {
  import opened Sha256Constants

  ghost predicate Divides(d: nat, n: nat) {
    exists k: nat :: n == d * k
  }

  ghost predicate IsPrime(n: nat) {
    n > 1 && forall d | 1 < d < n :: !Divides(d, n)
  }

  /** Division by the primes up to 17. */
  predicate Sieved(n: nat) {
    || n == 2 || n == 3 || n == 5 || n == 7 || n == 11 || n == 13 || n == 17
    || (n % 2 != 0 && n % 3 != 0 && n % 5 != 0 && n % 7 != 0 && n % 11 != 0 && n % 13 != 0 && n % 17 != 0)
  }

  lemma MultiplesAreSieved(m: nat)
    requires m > 1
    ensures !Sieved(2 * m) && !Sieved(3 * m) && !Sieved(5 * m) && !Sieved(7 * m)
    ensures !Sieved(11 * m) && !Sieved(13 * m) && !Sieved(17 * m)
  {
    hide Sieved;
    Twice(m); Threefold(m); Fivefold(m); Sevenfold(m);
    Elevenfold(m); Thirteenfold(m); Seventeenfold(m);
  }

  lemma Twice(m: nat)
    requires m > 1
    ensures !Sieved(2 * m)
  {
    assert 2 * m % 2 == 0;
  }

  lemma Threefold(m: nat)
    requires m > 1
    ensures !Sieved(3 * m)
  {
    assert 3 * m % 3 == 0;
  }

  lemma Fivefold(m: nat)
    requires m > 1
    ensures !Sieved(5 * m)
  {
    assert 5 * m % 5 == 0;
  }

  lemma Sevenfold(m: nat)
    requires m > 1
    ensures !Sieved(7 * m)
  {
    assert 7 * m % 7 == 0;
  }

  lemma Elevenfold(m: nat)
    requires m > 1
    ensures !Sieved(11 * m)
  {
    assert 11 * m % 11 == 0;
  }

  lemma Thirteenfold(m: nat)
    requires m > 1
    ensures !Sieved(13 * m)
  {
    assert 13 * m % 13 == 0;
  }

  lemma Seventeenfold(m: nat)
    requires m > 1
    ensures !Sieved(17 * m)
  {
    assert 17 * m % 17 == 0;
  }

  lemma SmallFactor(d: nat, k: nat)
    requires 1 < d <= 18 && 1 < k
    ensures !Sieved(d * k)
  {
    hide Sieved;
    MultiplesAreSieved(k);
    match d
    case 2 =>
    case 3 =>
    case 4 => MultiplesAreSieved(2 * k);
    case 5 =>
    case 6 => MultiplesAreSieved(3 * k);
    case 7 =>
    case 8 => MultiplesAreSieved(4 * k);
    case 9 => MultiplesAreSieved(3 * k);
    case 10 => MultiplesAreSieved(5 * k);
    case 11 =>
    case 12 => MultiplesAreSieved(6 * k);
    case 13 =>
    case 14 => MultiplesAreSieved(7 * k);
    case 15 => MultiplesAreSieved(5 * k);
    case 16 => MultiplesAreSieved(8 * k);
    case 17 =>
    case _ => MultiplesAreSieved(9 * k);
  }

  lemma FactorsAreSmall(d: nat, k: nat)
    requires d * k < 361
    ensures d <= 18 || k <= 18
  {
    if d > 18 && k > 18 {
      Larger(19, d, 19);
      Larger(19, k, d);
      assert false;
    }
  }

  lemma Larger(a: nat, b: nat, c: nat)
    requires a <= b
    ensures a * c <= b * c
  {
  }

  lemma CofactorIsProper(n: nat, d: nat, k: nat)
    requires 1 < d < n && n == d * k
    ensures 1 < k
  {
    if k <= 1 { assert k == 0 || k == 1; }
  }

  /** Below 19 squared the sieve decides. */
  lemma SieveIsPrime(n: nat)
    requires 2 <= n < 361
    ensures Sieved(n) <==> IsPrime(n)
  {
    hide Sieved;
    if Sieved(n) {
      forall d | 1 < d < n ensures !Divides(d, n) {
        if Divides(d, n) {
          var k: nat :| n == d * k;
          CofactorIsProper(n, d, k);
          FactorsAreSmall(d, k);
          if d <= k { SmallFactor(d, k); } else { SmallFactor(k, d); }
        }
      }
    } else {
      var d := SievedBy(n);
      assert n == d * (n / d) && Divides(d, n);
    }
  }

  lemma SievedBy(n: nat) returns (d: nat)
    requires n > 1 && !Sieved(n)
    ensures 1 < d < n && n % d == 0
  {
    d := if n % 2 == 0 then 2 else if n % 3 == 0 then 3 else if n % 5 == 0 then 5 else if n % 7 == 0 then 7
         else if n % 11 == 0 then 11 else if n % 13 == 0 then 13 else 17;
  }

  /** After `p`, the next number the sieve lets through is `q`. */
  ghost predicate Follows(p: nat, q: nat) {
    p < q && Sieved(q) && forall n | p < n < q :: !Sieved(n)
  }

  predicate Skips(p: nat, q: nat)
    decreases q - p
  {
    p < q && if p + 1 == q then Sieved(q) else !Sieved(p + 1) && Skips(p + 1, q)
  }

  lemma {:induction false} SkipsToNext(p: nat, q: nat)
    requires Skips(p, q)
    ensures Follows(p, q)
    decreases q - p
  {
    if p + 1 < q {
      SkipsToNext(p + 1, q);
      forall n | p < n < q ensures !Sieved(n) {
        assert n == p + 1 || p + 1 < n;
      }
    }
  }

  /** The entry before position `j` of row `r`, or 1. */
  function Previous(r: nat, j: nat): nat
    requires r < 8 && j < 8
  {
    if j > 0 then PrimeRow(r)[j - 1] else if r > 0 then PrimeRow(r - 1)[7] else 1
  }

  lemma Row0()
    ensures forall j | 0 <= j < 8 :: Skips(Previous(0, j), PrimeRow(0)[j])
  {
    assert Skips(1, 2);
    assert Skips(2, 3);
    assert Skips(3, 5);
    assert Skips(5, 7);
    assert Skips(7, 11);
    assert Skips(11, 13);
    assert Skips(13, 17);
    assert Skips(17, 19);
  }

  lemma Row1()
    ensures forall j | 0 <= j < 8 :: Skips(Previous(1, j), PrimeRow(1)[j])
  {
    assert Skips(19, 23);
    assert Skips(23, 29);
    assert Skips(29, 31);
    assert Skips(31, 37);
    assert Skips(37, 41);
    assert Skips(41, 43);
    assert Skips(43, 47);
    assert Skips(47, 53);
  }

  lemma Row2()
    ensures forall j | 0 <= j < 8 :: Skips(Previous(2, j), PrimeRow(2)[j])
  {
    assert Skips(53, 59);
    assert Skips(59, 61);
    assert Skips(61, 67);
    assert Skips(67, 71);
    assert Skips(71, 73);
    assert Skips(73, 79);
    assert Skips(79, 83);
    assert Skips(83, 89);
  }

  lemma Row3()
    ensures forall j | 0 <= j < 8 :: Skips(Previous(3, j), PrimeRow(3)[j])
  {
    assert Skips(89, 97);
    assert Skips(97, 101);
    assert Skips(101, 103);
    assert Skips(103, 107);
    assert Skips(107, 109);
    assert Skips(109, 113);
    assert Skips(113, 127);
    assert Skips(127, 131);
  }

  lemma Row4()
    ensures forall j | 0 <= j < 8 :: Skips(Previous(4, j), PrimeRow(4)[j])
  {
    assert Skips(131, 137);
    assert Skips(137, 139);
    assert Skips(139, 149);
    assert Skips(149, 151);
    assert Skips(151, 157);
    assert Skips(157, 163);
    assert Skips(163, 167);
    assert Skips(167, 173);
  }

  lemma Row5()
    ensures forall j | 0 <= j < 8 :: Skips(Previous(5, j), PrimeRow(5)[j])
  {
    assert Skips(173, 179);
    assert Skips(179, 181);
    assert Skips(181, 191);
    assert Skips(191, 193);
    assert Skips(193, 197);
    assert Skips(197, 199);
    assert Skips(199, 211);
    assert Skips(211, 223);
  }

  lemma Row6()
    ensures forall j | 0 <= j < 8 :: Skips(Previous(6, j), PrimeRow(6)[j])
  {
    assert Skips(223, 227);
    assert Skips(227, 229);
    assert Skips(229, 233);
    assert Skips(233, 239);
    assert Skips(239, 241);
    assert Skips(241, 251);
    assert Skips(251, 257);
    assert Skips(257, 263);
  }

  lemma Row7()
    ensures forall j | 0 <= j < 8 :: Skips(Previous(7, j), PrimeRow(7)[j])
  {
    assert Skips(263, 269);
    assert Skips(269, 271);
    assert Skips(271, 277);
    assert Skips(277, 281);
    assert Skips(281, 283);
    assert Skips(283, 293);
    assert Skips(293, 307);
    assert Skips(307, 311);
  }

  lemma RowFollows(r: nat, j: nat)
    requires r < 8 && j < 8
    ensures Follows(Previous(r, j), PrimeRow(r)[j])
  {
    hide PrimeRow, Follows, Skips, Previous;
    match r {
      case 0 => Row0();
      case 1 => Row1();
      case 2 => Row2();
      case 3 => Row3();
      case 4 => Row4();
      case 5 => Row5();
      case 6 => Row6();
      case 7 => Row7();
    }
    SkipsToNext(Previous(r, j), PrimeRow(r)[j]);
  }

  lemma PrimeFollows(i: nat)
    requires i < 64
    ensures Follows(if i > 0 then Prime(i - 1) else 1, Prime(i))
  {
    hide PrimeRow, Follows;
    RowFollows(i / 8, i % 8);
  }

  lemma {:induction false} TableAscends(i: nat, j: nat)
    requires i < j < 64
    ensures Prime(i) < Prime(j)
    decreases j
  {
    hide Prime, Sieved;
    PrimeFollows(j);
    if i < j - 1 { TableAscends(i, j - 1); }
  }

  lemma {:induction false} PlaceOf(n: nat, i: nat) returns (j: nat)
    requires i < 64 && 1 < n <= Prime(i) && Sieved(n)
    ensures j <= i && Prime(j) == n
    decreases i
  {
    hide Prime, Sieved;
    PrimeFollows(i);
    if n == Prime(i) { j := i; } else { j := PlaceOf(n, i - 1); }
  }

  lemma LastIs311()
    ensures Prime(63) == 311
  {
  }

  /** Main result: the table is strictly ascending, and up to its last entry it holds the primes and nothing
      else. */
  lemma TableIsFirstPrimes(n: nat)
    requires n <= Prime(63)
    ensures IsPrime(n) <==> exists i :: 0 <= i < 64 && Prime(i) == n
    ensures forall i, j | 0 <= i < j < 64 :: Prime(i) < Prime(j)
  {
    hide Prime, Sieved;
    forall i, j | 0 <= i < j < 64 ensures Prime(i) < Prime(j) { TableAscends(i, j); }
    LastIs311();
    forall i | 0 <= i < 64 && Prime(i) == n ensures IsPrime(n) {
      PrimeFollows(i);
      PrimeFollows(0);
      SieveIsPrime(n);
    }
    if IsPrime(n) {
      SieveIsPrime(n);
      var i := PlaceOf(n, 63);
    }
  }
}
