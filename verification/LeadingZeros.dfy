/** The leading-zero counters of the browser client and of the server. */
module LeadingZeros {
  import opened Bits
  import opened BitStrings

  function Leading(bits: seq<bool>): (n: nat)
    ensures n <= |bits|
  {
    if bits == [] || bits[0] then 0 else 1 + Leading(bits[1..])
  }

  /** `n` is the length of the longest all-zero prefix. */
  lemma {:induction false} LeadingIsLongest(bits: seq<bool>)
    ensures forall i | 0 <= i < Leading(bits) :: !bits[i]
    ensures Leading(bits) < |bits| ==> bits[Leading(bits)]
  {
    if bits != [] && !bits[0] {
      LeadingIsLongest(bits[1..]);
      forall i | 0 <= i < Leading(bits) ensures !bits[i] {
        if i > 0 { assert bits[i] == bits[1..][i - 1]; }
      }
    }
  }

  lemma {:induction false} LeadingSkips(n: nat, bits: seq<bool>)
    ensures Leading(Falses(n) + bits) == n + Leading(bits)
  {
    var s := Falses(n) + bits;
    if n == 0 {
      assert s == bits;
    } else {
      assert s[1..] == Falses(n - 1) + bits;
      LeadingSkips(n - 1, bits);
    }
  }

  lemma {:induction false} LeadingStops(a: seq<bool>, b: seq<bool>)
    requires Leading(a) < |a|
    ensures Leading(a + b) == Leading(a)
  {
    if !a[0] {
      assert (a + b)[1..] == a[1..] + b;
      LeadingStops(a[1..], b);
    }
  }

  /** The zero byte is all zero bits, and no other byte is. */
  lemma OnlyZeroIsAllZeros(b: Byte)
    ensures Leading(BitsOf(b, 8)) == 8 <==> b == 0
  {
    if b == 0 {
      ZeroBits(8);
      assert Falses(8) == Falses(8) + [];
      LeadingSkips(8, []);
    }
    if Leading(BitsOf(b, 8)) == 8 {
      LeadingIsLongest(BitsOf(b, 8));
      assert BitsOf(b, 8) == Falses(8);
      ValueOfByte(b);
      ValueOfFalses(8);
    }
  }

  lemma {:induction false} ValueOfFalses(n: nat)
    ensures Value(Falses(n)) == 0
  {
    if n > 0 {
      ValueOfFalses(n - 1);
      assert Falses(n)[..n - 1] == Falses(n - 1);
    }
  }

  /** `Math.clz32(b) - 24` is the count within the byte. */
  lemma Clz32OfByte(b: Byte)
    ensures Leading(BitsOf(b, 32)) == 24 + Leading(BitsOf(b, 8))
  {
    assert Pow2(8) == 256;
    forall k | 0 <= k < 32 ensures BitsOf(b, 32)[k] == (Falses(24) + BitsOf(b, 8))[k] {
      if k < 24 { SmallHasNoHighBits(b, 8, 31 - k); }
    }
    assert BitsOf(b, 32) == Falses(24) + BitsOf(b, 8);
    LeadingSkips(24, BitsOf(b, 8));
  }

  predicate AllZero(bytes: seq<Byte>) {
    forall i | 0 <= i < |bytes| :: bytes[i] == 0
  }

  lemma SplitAt(bytes: seq<Byte>, i: nat)
    requires i < |bytes|
    ensures ByteBits(bytes) == ByteBits(bytes[..i]) + BitsOf(bytes[i], 8) + ByteBits(bytes[i + 1..])
  {
    hide BitsOf, ByteBits;
    Rejoin(bytes, i);
    ThreeParts(bytes[..i], bytes[i], bytes[i + 1..]);
  }

  lemma Rejoin(bytes: seq<Byte>, i: nat)
    requires i < |bytes|
    ensures bytes[..i] + [bytes[i]] + bytes[i + 1..] == bytes
  {
  }

  lemma ThreeParts(a: seq<Byte>, b: Byte, c: seq<Byte>)
    ensures ByteBits(a + [b] + c) == ByteBits(a) + BitsOf(b, 8) + ByteBits(c)
  {
    hide BitsOf, ByteBits;
    ByteBitsConcat(a + [b], c);
    ByteBitsConcat(a, [b]);
    ByteBitsOfOne(b);
  }

  lemma ByteBitsOfOne(b: Byte)
    ensures ByteBits([b]) == BitsOf(b, 8)
  {
    assert [b][..0] == [];
  }

  lemma {:induction false} ZeroPrefix(bytes: seq<Byte>)
    requires AllZero(bytes)
    ensures ByteBits(bytes) == Falses(8 * |bytes|)
  {
    if bytes != [] {
      var n := |bytes| - 1;
      ZeroPrefix(bytes[..n]);
      ZeroBits(8);
    }
  }

  /** After `i` zero bytes, a nonzero byte settles the count. */
  lemma CountAtByte(bytes: seq<Byte>, i: nat)
    requires i < |bytes| && AllZero(bytes[..i]) && bytes[i] != 0
    ensures Leading(ByteBits(bytes)) == 8 * i + Leading(BitsOf(bytes[i], 8))
    ensures Leading(BitsOf(bytes[i], 8)) < 8
  {
    hide BitsOf, ByteBits, Leading, AllZero;
    SplitAt(bytes, i);
    ZeroPrefix(bytes[..i]);
    OnlyZeroIsAllZeros(bytes[i]);
    var rest := BitsOf(bytes[i], 8) + ByteBits(bytes[i + 1..]);
    LeadingStops(BitsOf(bytes[i], 8), ByteBits(bytes[i + 1..]));
    LeadingSkips(8 * i, rest);
    assert ByteBits(bytes) == Falses(8 * i) + rest;
  }

  lemma CountOfZeros(bytes: seq<Byte>)
    requires AllZero(bytes)
    ensures Leading(ByteBits(bytes)) == 8 * |bytes|
  {
    ZeroPrefix(bytes);
    LeadingSkips(8 * |bytes|, []);
    assert ByteBits(bytes) == Falses(8 * |bytes|) + [];
  }

  /** The client's counter is exact for every digest. */
  method CountLeadingZeroBits(digest: seq<Byte>) returns (count: nat)
    ensures count == Leading(ByteBits(digest))
  {
    hide BitsOf, ByteBits, Leading;
    count := 0;
    for i := 0 to |digest|
      invariant AllZero(digest[..i]) && count == 8 * i
    {
      if digest[i] == 0 {
        count := count + 8;
      } else {
        Clz32OfByte(digest[i]);
        CountAtByte(digest, i);
        count := count + (Leading(BitsOf(digest[i], 32)) - 24);
        return;
      }
    }
    assert digest[..|digest|] == digest;
    CountOfZeros(digest);
  }

  /** The server counts in eight bits: on a digest of 32 zero bytes its counter wraps to 0. */
  function CountUint8(digest: seq<Byte>): (count: Byte)
  {
    Leading(ByteBits(digest)) % 256
  }

  method CountLeadingZeroBitsUint8(digest: seq<Byte>) returns (count: Byte)
    requires |digest| == 32
    ensures count == CountUint8(digest)
  {
    hide BitsOf, ByteBits, Leading;
    count := 0;
    for i := 0 to 32
      invariant AllZero(digest[..i]) && count == 8 * i % 256
    {
      if digest[i] == 0 {
        count := AddUint8(count, 8);
      } else {
        CountAtByte(digest, i);
        count := AddUint8(count, Leading(BitsOf(digest[i], 8)));
        return;
      }
    }
    assert digest[..32] == digest;
    CountOfZeros(digest);
  }

  function AddUint8(a: nat, b: nat): Byte {
    (a + b) % 256
  }

  /** The two counters differ exactly on the all-zero digest. */
  lemma CountersAgreeIff(digest: seq<Byte>)
    requires |digest| == 32
    ensures CountUint8(digest) == Leading(ByteBits(digest)) <==> !AllZero(digest)
    ensures AllZero(digest) ==> CountUint8(digest) == 0 && Leading(ByteBits(digest)) == 256
  {
    hide BitsOf, ByteBits, Leading;
    if AllZero(digest) {
      CountOfZeros(digest);
    } else {
      var i := FirstNonzero(digest);
      CountAtByte(digest, i);
    }
  }

  function FirstNonzero(bytes: seq<Byte>): (i: nat)
    requires !AllZero(bytes)
    ensures i < |bytes| && bytes[i] != 0 && AllZero(bytes[..i])
  {
    if bytes[0] != 0 then 0 else
      (assert forall i | 0 < i < |bytes| :: bytes[i] == bytes[1..][i - 1];
       1 + FirstNonzero(bytes[1..]))
  }
}
