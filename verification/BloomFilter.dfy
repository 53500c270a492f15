/** A Bloom filter over an array of 64-bit words, with four probes derived from two hashes. */
module BloomFilter {
  import opened Bits
  import opened Words

  const FLOOR_BYTES: nat := 1_048_576

  datatype Probe = Probe(h1: Uint64, h2: Uint64)

  /** The `i`-th position of a probe in a filter of `n` bits; the sum wraps at 64 bits. */
  function Index(p: Probe, i: nat, n: nat): (k: nat)
    requires n > 0
    ensures k < n
  {
    (p.h1 + i * p.h2) % UINT64 % n
  }

  function Positions(p: Probe, n: nat): (s: set<nat>)
    requires n > 0
    ensures forall k | k in s :: k < n
  {
    set i | 0 <= i < 4 :: Index(p, i, n)
  }

  /** A probe marks the first hash and three steps of the second from it, in 64 bits. */
  lemma FourPositions(p: Probe, n: nat)
    requires n > 0
    ensures Positions(p, n) == {
              p.h1 % n,
              (p.h1 + p.h2) % 0x1_0000_0000_0000_0000 % n,
              (p.h1 + 2 * p.h2) % 0x1_0000_0000_0000_0000 % n,
              (p.h1 + 3 * p.h2) % 0x1_0000_0000_0000_0000 % n}
  {
    assert Index(p, 0, n) == p.h1 % n;
    hide Index;
    assert Positions(p, n) == {Index(p, 0, n), Index(p, 1, n), Index(p, 2, n), Index(p, 3, n)};
  }

  // ---------- bits of a word ----------

  lemma {:induction false} BitOfPow2(b: nat, k: nat)
    ensures Bit(Pow2(b), k) == (k == b)
  {
    if b == 0 {
      if k > 0 { BitOfZero(k - 1); }
    } else if k > 0 {
      BitOfPow2(b - 1, k - 1);
    }
  }

  lemma {:induction false} BitOfOr(x: nat, y: nat, k: nat)
    ensures Bit(Or(x, y), k) == (Bit(x, k) || Bit(y, k))
    decreases k
  {
    if x == 0 {
      BitOfZero(k);
    } else if y == 0 {
      BitOfZero(k);
    } else {
      OrUnfold(x, y);
      if k > 0 { BitOfOr(x / 2, y / 2, k - 1); }
    }
  }

  /** `word | (1 << b)` sets bit `b` and keeps the others. */
  lemma OrSetsBit(w: nat, b: nat, k: nat)
    ensures Bit(Or(w, Pow2(b)), k) == (Bit(w, k) || k == b)
  {
    BitOfOr(w, Pow2(b), k);
    BitOfPow2(b, k);
  }

  predicate MarkedIn(words: seq<nat>, k: nat) {
    k / 64 < |words| && Bit(words[k / 64], k % 64)
  }

  function Marks(words: seq<nat>, n: nat): set<nat> {
    set k | 0 <= k < n && MarkedIn(words, k)
  }

  lemma SetBitMarks(words: seq<nat>, k: nat, n: nat)
    requires k < n && k / 64 < |words|
    ensures Marks(words[k / 64 := Or(words[k / 64], Pow2(k % 64))], n) == Marks(words, n) + {k}
  {
    hide Bit, Or, Pow2;
    var words' := words[k / 64 := Or(words[k / 64], Pow2(k % 64))];
    forall j | 0 <= j < n ensures MarkedIn(words', j) == (MarkedIn(words, j) || j == k) {
      if j / 64 == k / 64 {
        OrSetsBit(words[k / 64], k % 64, j % 64);
        assert j == 64 * (j / 64) + j % 64 && k == 64 * (k / 64) + k % 64;
      }
    }
  }

  class Filter {
    const numBits: nat
    const bits: array<nat>

    predicate Valid()
    {
      numBits > 0 && bits.Length == (numBits + 63) / 64
    }

    /** The positions whose bit is set. */
    function Contents(): set<nat>
      reads bits
    {
      Marks(bits[..], numBits)
    }

    constructor (sizeBytes: int)
      ensures Valid() && fresh(bits) && Contents() == {}
      ensures numBits == 8 * (if sizeBytes < FLOOR_BYTES then FLOOR_BYTES else sizeBytes)
    {
      var size: nat := if sizeBytes < FLOOR_BYTES then FLOOR_BYTES else sizeBytes;
      numBits := 8 * size;
      bits := new nat[(8 * size + 63) / 64](i => 0);
      new;
      assert forall k: nat :: MarkedIn(bits[..], k) ==> Bit(0, k % 64);
      forall k: nat ensures !Bit(0, k) { BitOfZero(k); }
    }

    method Contains(p: Probe) returns (found: bool)
      requires Valid()
      ensures found <==> Positions(p, numBits) <= Contents()
    {
      for i := 0 to 4
        invariant forall j | 0 <= j < i :: Index(p, j, numBits) in Contents()
      {
        var k := Index(p, i, numBits);
        if !Bit(bits[k / 64], k % 64) {
          assert k in Positions(p, numBits) && k !in Contents();
          return false;
        }
      }
      found := true;
    }

    method Add(p: Probe)
      requires Valid()
      modifies bits
      ensures Contents() == old(Contents()) + Positions(p, numBits)
    {
      ghost var before := Contents();
      ghost var added: set<nat> := {};
      for i := 0 to 4
        invariant added == set j | 0 <= j < i :: Index(p, j, numBits)
        invariant Contents() == before + added
      {
        var k := Index(p, i, numBits);
        SetBitMarks(bits[..], k, numBits);
        bits[k / 64] := Or(bits[k / 64], Pow2(k % 64));
        added := added + {k};
      }
    }
  }
}
