/** Bytes and numbers as sequences of bits, most significant first. */
module BitStrings {
  import opened Bits

  function Falses(n: nat): (s: seq<bool>)
    ensures |s| == n
  {
    seq(n, i => false)
  }

  function BitsOf(v: nat, n: nat): (bits: seq<bool>)
    ensures |bits| == n
  {
    seq(n, i requires 0 <= i < n => Bit(v, n - 1 - i))
  }

  function ByteBits(bytes: seq<Byte>): (bits: seq<bool>)
    ensures |bits| == 8 * |bytes|
  {
    if bytes == [] then [] else ByteBits(bytes[..|bytes| - 1]) + BitsOf(bytes[|bytes| - 1], 8)
  }

  function Value(bits: seq<bool>): (v: nat)
    ensures v < Pow2(|bits|)
  {
    if bits == [] then 0 else 2 * Value(bits[..|bits| - 1]) + (if bits[|bits| - 1] then 1 else 0)
  }

  function PackByte(bits: seq<bool>): Byte
    requires |bits| == 8
  {
    assert Pow2(8) == 256;
    Value(bits)
  }

  function Pack(bits: seq<bool>): (bytes: seq<Byte>)
    requires |bits| % 8 == 0
    ensures 8 * |bytes| == |bits|
  {
    if bits == [] then [] else Pack(bits[..|bits| - 8]) + [PackByte(bits[|bits| - 8..])]
  }

  // ---------- bits and values are inverse ----------

  lemma BitsOfUnfold(v: nat, n: nat)
    requires n > 0
    ensures BitsOf(v, n) == BitsOf(v / 2, n - 1) + [v % 2 == 1]
  {
    var r := BitsOf(v / 2, n - 1) + [v % 2 == 1];
    forall i | 0 <= i < n ensures BitsOf(v, n)[i] == r[i] {
      assert BitsOf(v, n)[i] == Bit(v, n - 1 - i);
    }
  }

  /** `v >> n`. */
  function ShiftRight(v: nat, n: nat): nat {
    if n == 0 then v else ShiftRight(v / 2, n - 1)
  }

  lemma DoubleProduct(p: nat, q: nat)
    ensures (2 * p) * q == 2 * (p * q)
  {
  }

  lemma ValueSnoc(bits: seq<bool>, b: bool)
    ensures Value(bits + [b]) == 2 * Value(bits) + (if b then 1 else 0)
  {
    assert (bits + [b])[..|bits|] == bits;
  }

  lemma {:induction false} ValueOfBits(v: nat, n: nat)
    ensures v == Pow2(n) * ShiftRight(v, n) + Value(BitsOf(v, n))
  {
    if n > 0 {
      ValueOfBits(v / 2, n - 1);
      BitsOfUnfold(v, n);
      ValueSnoc(BitsOf(v / 2, n - 1), v % 2 == 1);
      DoubleProduct(Pow2(n - 1), ShiftRight(v / 2, n - 1));
    }
  }

  lemma ValueOfByte(v: Byte)
    ensures Value(BitsOf(v, 8)) == v
  {
    assert Pow2(8) == 256;
    ValueOfBits(v, 8);
  }

  lemma {:induction false} BitsOfValue(bits: seq<bool>)
    ensures BitsOf(Value(bits), |bits|) == bits
  {
    if bits != [] {
      var n := |bits| - 1;
      BitsOfValue(bits[..n]);
      BitsOfUnfold(Value(bits), n + 1);
      assert bits == bits[..n] + [bits[n]];
    }
  }

  lemma {:induction false} UnpackPack(bits: seq<bool>)
    requires |bits| % 8 == 0
    ensures ByteBits(Pack(bits)) == bits
  {
    if bits != [] {
      var n := |bits| - 8;
      UnpackPack(bits[..n]);
      BitsOfValue(bits[n..]);
      var p := Pack(bits);
      assert p[..|p| - 1] == Pack(bits[..n]);
      assert bits == bits[..n] + bits[n..];
    }
  }

  lemma PackSnoc(bits: seq<bool>, last: seq<bool>)
    requires |bits| % 8 == 0 && |last| == 8
    ensures Pack(bits + last) == Pack(bits) + [PackByte(last)]
  {
    hide Value;
    var all := bits + last;
    assert all[..|all| - 8] == bits && all[|all| - 8..] == last;
  }

  lemma {:induction false} PackUnpack(bytes: seq<Byte>)
    ensures Pack(ByteBits(bytes)) == bytes
  {
    hide Pack, Value, BitsOf;
    if bytes == [] {
      assert Pack([]) == [];
    } else {
      var n := |bytes| - 1;
      PackUnpack(bytes[..n]);
      PackSnoc(ByteBits(bytes[..n]), BitsOf(bytes[n], 8));
      ValueOfByte(bytes[n]);
    }
  }

  lemma {:induction false} ByteBitsConcat(a: seq<Byte>, b: seq<Byte>)
    ensures ByteBits(a + b) == ByteBits(a) + ByteBits(b)
  {
    if b == [] {
      assert a + b == a;
    } else {
      ByteBitsConcat(a, b[..|b| - 1]);
      assert (a + b)[..|a + b| - 1] == a + b[..|b| - 1];
    }
  }

  lemma {:induction false} ByteBitsAt(bytes: seq<Byte>, k: nat)
    requires k < 8 * |bytes|
    ensures ByteBits(bytes)[k] == Bit(bytes[k / 8], 7 - k % 8)
  {
    var n := |bytes| - 1;
    if k < 8 * n { ByteBitsAt(bytes[..n], k); }
  }

  // ---------- zeros ----------

  lemma ZeroBits(n: nat)
    ensures BitsOf(0, n) == Falses(n)
  {
    forall k | 0 <= k < n ensures BitsOf(0, n)[k] == Falses(n)[k] { BitOfZero(n - 1 - k); }
  }

  lemma {:induction false} SmallHasNoHighBits(v: nat, n: nat, k: nat)
    requires v < Pow2(n) && n <= k
    ensures !Bit(v, k)
  {
    if n > 0 { SmallHasNoHighBits(v / 2, n - 1, k - 1); } else { BitOfZero(k); }
  }
}
