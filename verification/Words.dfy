/** 64-bit numbers, and 32-bit words as numbers below 2^32, with the operations SHA-256 uses. JavaScript's signed
    results stand for the same words modulo 2^32. */
module Words {
  import opened Bits

  const UINT64: nat := 0x1_0000_0000_0000_0000

  type Uint64 = x: nat | x < 0x1_0000_0000_0000_0000

  type Word = x: nat | x < 0x1_0000_0000

  function And(a: nat, b: nat): (r: nat)
    ensures r <= a
  {
    if a == 0 || b == 0 then 0 else 2 * And(a / 2, b / 2) + (if a % 2 == 1 && b % 2 == 1 then 1 else 0)
  }

  function Or(a: nat, b: nat): nat
    decreases a + b
  {
    if a == 0 then b else if b == 0 then a else 2 * Or(a / 2, b / 2) + (if a % 2 == 1 || b % 2 == 1 then 1 else 0)
  }

  function Not(x: Word): Word {
    0xffff_ffff - x
  }

  function XorWords(a: Word, b: Word): Word {
    Pow2Is32();
    XorBelow(a, b, 32);
    Xor(a, b)
  }

  /** `x >>> n`. */
  function ShiftRight(x: Word, n: nat): Word {
    High(x, Pow2(n))
  }

  /** `x << n`, cut to 32 bits. */
  function ShiftLeft(x: Word, n: nat): Word {
    (x * Pow2(n)) % 0x1_0000_0000
  }

  /** The circular right shift ROTR of FIPS 180-4, section 3.2: the low `n` bits move to the top. */
  function Rotr(x: Word, n: nat): Word
    requires 0 < n < 32
  {
    Pow2Splits(n);
    Rotate(x, Pow2(n), Pow2(32 - n))
  }

  function High(x: nat, d: nat): (q: nat)
    requires d > 0
    ensures q <= x
  {
    QuotientAtMost(x, d);
    x / d
  }

  function Rotate(x: nat, p: nat, q: nat): (r: nat)
    requires p > 0 && x < p * q
    ensures r < p * q
  {
    QuotientBound(x, p, q);
    Quotient(x, p);
    Fits(x / p, x % p, p, q);
    x / p + (x % p) * q
  }

  lemma Pow2Splits(n: nat)
    requires n <= 32
    ensures Pow2(n) * Pow2(32 - n) == 0x1_0000_0000
  {
    hide Pow2;
    Pow2Is32();
    Pow2Adds(n, 32 - n);
    assert n + (32 - n) == 32;
  }

  function Plus(a: nat, b: nat): Word {
    (a + b) % 0x1_0000_0000
  }

  lemma Pow2Is32()
    ensures Pow2(32) == 0x1_0000_0000
  {
    assert Pow2(8) == 256;
    Pow2Adds(8, 8);
    Pow2Adds(16, 16);
  }

  lemma {:induction false} Pow2Adds(m: nat, n: nat)
    ensures Pow2(m + n) == Pow2(m) * Pow2(n)
  {
    if m > 0 {
      Pow2Adds(m - 1, n);
      Reassociate(Pow2(m - 1), Pow2(n));
    }
  }

  lemma Reassociate(a: nat, b: nat)
    ensures (2 * a) * b == 2 * (a * b)
  {
  }

  lemma Quotient(x: nat, d: nat)
    requires d > 0
    ensures x == d * (x / d) + x % d && 0 <= x % d < d && 0 <= x / d
  {
  }

  lemma TimesGrows(d: nat, q: nat)
    requires d > 0
    ensures q <= d * q
  {
    assert 0 <= (d - 1) * q == d * q - q;
  }

  lemma QuotientAtMost(x: nat, d: nat)
    requires d > 0
    ensures x / d <= x
  {
    Quotient(x, d);
    TimesGrows(d, x / d);
  }

  lemma Fits(h: nat, l: nat, p: nat, q: nat)
    requires h < q && l < p
    ensures h + l * q < p * q
  {
    assert 0 <= (p - 1 - l) * q == p * q - q - l * q;
  }

  lemma FactorBound(p: nat, a: nat, q: nat)
    requires p * a < p * q
    ensures a < q
  {
    if a >= q { TimesMonotone(p, q, a); assert false; }
  }

  lemma TimesMonotone(p: nat, a: nat, b: nat)
    requires a <= b
    ensures p * a <= p * b
  {
    assert 0 <= p * (b - a) == p * b - p * a;
  }

  lemma QuotientBound(x: nat, p: nat, q: nat)
    requires x < p * q && p > 0
    ensures x / p < q
  {
    Quotient(x, p);
    FactorBound(p, x / p, q);
  }

  /** Or of numbers without a common bit is their sum. */
  lemma {:induction false} OrDisjoint(a: nat, r: nat, k: nat)
    requires a < Pow2(k)
    ensures Or(a, r * Pow2(k)) == a + r * Pow2(k)
    decreases k
  {
    if k > 0 {
      OrDisjoint(a / 2, r, k - 1);
      Reassociate(Pow2(k - 1), r);
      var b := r * Pow2(k - 1);
      assert r * Pow2(k) == 2 * b;
      OrUnfold(a, 2 * b);
    }
  }

  lemma OrUnfold(a: nat, b: nat)
    ensures Or(a, b) == 2 * Or(a / 2, b / 2) + (if a % 2 == 1 || b % 2 == 1 then 1 else 0)
  {
  }

  lemma ShiftLeftIs(x: Word, n: nat)
    requires 0 < n < 32
    ensures ShiftLeft(x, 32 - n) == (x % Pow2(n)) * Pow2(32 - n)
  {
    hide Pow2;
    Pow2Splits(n);
    DropHigh(x, Pow2(n), Pow2(32 - n));
  }

  lemma DropHigh(x: nat, p: nat, q: nat)
    requires p > 0 && q > 0
    ensures p * q > 0 && (x * q) % (p * q) == (x % p) * q
  {
    Quotient(x, p);
    Split(x, p, q, x / p, x % p);
    Fits(0, x % p, p, q);
    Unique(x * q, p * q, x / p, (x % p) * q);
  }

  lemma Split(x: nat, p: nat, q: nat, h: nat, l: nat)
    requires x == p * h + l
    ensures x * q == (p * q) * h + l * q
  {
  }

  lemma Unique(v: nat, m: nat, q: nat, r: nat)
    requires v == m * q + r && r < m
    ensures v / m == q && v % m == r
  {
    Quotient(v, m);
    SameQuotient(m, q, r, v / m, v % m);
  }

  lemma SameQuotient(m: nat, q: nat, r: nat, q': nat, r': nat)
    requires r < m && r' < m && m * q + r == m * q' + r'
    ensures q == q' && r == r'
  {
    NotBelow(m, q, r, q', r');
    NotBelow(m, q', r', q, r);
  }

  lemma NotBelow(m: nat, q: nat, r: nat, q': nat, r': nat)
    requires r < m && m * q + r == m * q' + r'
    ensures q' <= q
  {
    if q < q' {
      TimesMonotone(m, q + 1, q');
      DistributeOne(m, q);
      assert false;
    }
  }

  lemma DistributeOne(m: nat, q: nat)
    ensures m * (q + 1) == m * q + m
  {
  }

  /** The code's `(x >>> n) | (x << (32 - n))` is the circular right shift. */
  lemma ShiftOrIsRotr(x: Word, n: nat)
    requires 0 < n < 32
    ensures Or(ShiftRight(x, n), ShiftLeft(x, 32 - n)) == Rotr(x, n)
  {
    hide Pow2, Or;
    Pow2Splits(n);
    QuotientBound(x, Pow2(n), Pow2(32 - n));
    ShiftLeftIs(x, n);
    OrDisjoint(x / Pow2(n), x % Pow2(n), 32 - n);
  }

  // ---------- words as bytes ----------

  /** The four bytes of a word, most significant first. */
  function BigEndian(v: Word): (bytes: seq<Byte>)
    ensures |bytes| == 4
  {
    var (q1: nat, q2: nat, q3: nat) := (v / 256, v / 256 / 256, v / 256 / 256 / 256);
    [q3, q2 % 256, q1 % 256, v % 256]
  }

  function FromBigEndian(b: seq<Byte>): Word
    requires |b| == 4
  {
    var (b0: nat, b1: nat, b2: nat, b3: nat) := (b[0], b[1], b[2], b[3]);
    ((b0 * 256 + b1) * 256 + b2) * 256 + b3
  }

  lemma BigEndianRoundTrip(v: Word)
    ensures FromBigEndian(BigEndian(v)) == v
  {
    var (q1: nat, q2: nat, q3: nat) := (v / 256, v / 256 / 256, v / 256 / 256 / 256);
    assert q3 * 256 + q2 % 256 == q2 && q2 * 256 + q1 % 256 == q1 && q1 * 256 + v % 256 == v;
  }
}
