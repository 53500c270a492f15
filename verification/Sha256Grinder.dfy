/** The grinder's SHA-256 over bytes. */
module Sha256Grinder {
  import opened Bits
  import opened BitStrings
  import opened Words
  import opened Sha256Constants
  import opened Fips180

  function Zeros(n: nat): (z: seq<Byte>)
    ensures |z| == n
  {
    seq(n, i => 0)
  }

  function ZeroCount(l: nat): (k: nat)
    ensures k < 64
  {
    (56 - (l + 1) % 64 + 64) % 64
  }

  /** The padded message the code builds: its length field keeps only the low 32 bits of the bit length. */
  function Padded(data: seq<Byte>): (padded: seq<Byte>)
    ensures |padded| == |data| + 1 + ZeroCount(|data|) + 8
  {
    data + [0x80] + Zeros(ZeroCount(|data|) + 4) + BigEndian(8 * |data| % 0x1_0000_0000)
  }

  // ---------- the padding is that of FIPS 180-4 exactly below 2^29 bytes ----------

  lemma {:induction false} ByteBitsOfZeros(n: nat)
    ensures ByteBits(Zeros(n)) == Falses(8 * n)
  {
    if n > 0 {
      ByteBitsOfZeros(n - 1);
      assert Zeros(n)[..n - 1] == Zeros(n - 1);
      assert BitsOf(0, 8) == Falses(8) by { ZeroBits(8); }
    }
  }

  lemma MarkerBits()
    ensures ByteBits([0x80]) == [true] + Falses(7)
  {
    assert [0x80 as Byte][..0] == [];
    var b := BitsOf(0x80, 8);
    assert Bit(0x80, 7) && !Bit(0x80, 6) && !Bit(0x80, 5) && !Bit(0x80, 4);
    assert !Bit(0x80, 3) && !Bit(0x80, 2) && !Bit(0x80, 1) && !Bit(0x80, 0);
    assert b == [true] + Falses(7);
  }

  lemma {:induction false} ValueConcat(a: seq<bool>, b: seq<bool>)
    ensures Value(a + b) == Value(a) * Pow2(|b|) + Value(b)
  {
    if b == [] {
      assert a + b == a;
    } else {
      var n := |b| - 1;
      ValueConcat(a, b[..n]);
      assert a + b == (a + b[..n]) + [b[n]];
      assert b == b[..n] + [b[n]];
      ValueSnoc(a + b[..n], b[n]);
      DoubleLast(Value(a), Pow2(n));
    }
  }

  lemma DoubleLast(a: nat, p: nat)
    ensures a * (2 * p) == 2 * (a * p)
  {
  }

  /** The bits of four bytes are the bits of the big-endian word. */
  lemma WordOfBytes(b: seq<Byte>)
    requires |b| == 4
    ensures ByteBits(b) == BitsOf(FromBigEndian(b), 32)
    ensures Value(ByteBits(b)) == FromBigEndian(b)
  {
    hide BitsOf, Value, FromBigEndian, Pow2;
    ValueOfBytes(b);
    BitsOfValue(ByteBits(b));
  }

  lemma ValueOfBytes(b: seq<Byte>)
    requires |b| == 4
    ensures Value(ByteBits(b)) == FromBigEndian(b)
  {
    hide ByteBits, Value;
    assert Value(ByteBits([])) == 0 by { EmptyValue(); }
    ValueOfSnoc([], b[0]);
    ValueOfSnoc([b[0]], b[1]);
    ValueOfSnoc([b[0], b[1]], b[2]);
    ValueOfSnoc([b[0], b[1], b[2]], b[3]);
    assert [] + [b[0]] == [b[0]] && [b[0]] + [b[1]] == [b[0], b[1]];
    assert [b[0], b[1]] + [b[2]] == [b[0], b[1], b[2]];
    assert [b[0], b[1], b[2]] + [b[3]] == b;
  }

  lemma EmptyValue()
    ensures Value(ByteBits([])) == 0
  {
  }

  lemma ValueOfSnoc(b: seq<Byte>, x: Byte)
    ensures Value(ByteBits(b + [x])) == 256 * Value(ByteBits(b)) + x
  {
    assert (b + [x])[..|b|] == b;
    assert ByteBits(b + [x]) == ByteBits(b) + BitsOf(x, 8);
    ValueConcat(ByteBits(b), BitsOf(x, 8));
    ValueOfByte(x);
    assert Pow2(8) == 256;
  }

  lemma BigEndianBits(v: Word)
    ensures ByteBits(BigEndian(v)) == BitsOf(v, 32)
  {
    hide BigEndian, FromBigEndian, ByteBits, BitsOf;
    BigEndianRoundTrip(v);
    WordOfBytes(BigEndian(v));
  }

  /** The low 32 bits of a number are the bits of its remainder. */
  lemma LowBits(v: nat)
    ensures BitsOf(v % 0x1_0000_0000, 32) == BitsOf(v, 32)
  {
    hide BitsOf, Value, Pow2;
    ValueOfBits(v, 32);
    Pow2Is32();
    var low := Value(BitsOf(v, 32));
    assert v % 0x1_0000_0000 == low;
    BitsOfValue(BitsOf(v, 32));
  }

  lemma {:induction false} OnlyLowBits(v: nat, i: nat, n: nat)
    requires v < Pow2(n) && i <= n
    requires forall k | i <= k < n :: !Bit(v, k)
    ensures v < Pow2(i)
    decreases n
  {
    if i > 0 {
      forall k | i - 1 <= k < n - 1 ensures !Bit(v / 2, k) { assert !Bit(v, k + 1); }
      OnlyLowBits(v / 2, i - 1, n - 1);
    } else if n > 0 {
      assert !Bit(v, 0);
      forall k | 0 <= k < n - 1 ensures !Bit(v / 2, k) { assert !Bit(v, k + 1); }
      OnlyLowBits(v / 2, 0, n - 1);
    }
  }

  /** A 64-bit length field begins with 32 zero bits exactly for lengths below 2^32. */
  lemma LengthField(v: nat)
    requires v < Pow2(64)
    ensures BitsOf(v, 64)[32..] == BitsOf(v, 32)
    ensures BitsOf(v, 64)[..32] == Falses(32) <==> v < 0x1_0000_0000
  {
    hide Pow2, Bit;
    Pow2Is32();
    var high := BitsOf(v, 64)[..32];
    if v < 0x1_0000_0000 {
      forall i | 0 <= i < 32 ensures high[i] == Falses(32)[i] { SmallHasNoHighBits(v, 32, 63 - i); }
    }
    if high == Falses(32) {
      forall k | 32 <= k < 64 ensures !Bit(v, k) { assert high[63 - k] == Falses(32)[63 - k]; }
      OnlyLowBits(v, 32, 64);
    }
  }

  lemma ZeroCountFits(l: nat)
    ensures PadCount(8 * l) == 7 + 8 * ZeroCount(l)
  {
    var z := ZeroCount(l);
    assert (l + 1 + z) % 64 == 56;
    assert (8 * l + 1 + (7 + 8 * z)) % 512 == 448;
    CongruentCounts(8 * l + 1, 7 + 8 * z, PadCount(8 * l));
  }

  lemma CongruentCounts(l: nat, j: nat, k: nat)
    requires j < 512 && k < 512 && (l + j) % 512 == (l + k) % 512
    ensures j == k
  {
  }

  lemma ZerosSplit(k: nat)
    ensures Falses(7) + Falses(8 * (k + 4)) == Falses(7 + 8 * k) + Falses(32)
  {
  }

  lemma FourParts(a: seq<Byte>, b: seq<Byte>, c: seq<Byte>, d: seq<Byte>)
    ensures ByteBits(a + b + c + d) == ByteBits(a) + ByteBits(b) + ByteBits(c) + ByteBits(d)
  {
    hide ByteBits;
    ByteBitsConcat(a + b + c, d);
    ByteBitsConcat(a + b, c);
    ByteBitsConcat(a, b);
  }

  lemma PaddedParts(data: seq<Byte>)
    ensures ByteBits(Padded(data)) ==
            ByteBits(data) + ([true] + Falses(7)) + Falses(8 * (ZeroCount(|data|) + 4)) + BitsOf(8 * |data|, 32)
  {
    hide BitsOf, ByteBits, ZeroCount, BigEndian, Falses, Zeros, Pow2;
    var z, v := Zeros(ZeroCount(|data|) + 4), 8 * |data| % 0x1_0000_0000;
    FourParts(data, [0x80], z, BigEndian(v));
    MarkerBits();
    ByteBitsOfZeros(ZeroCount(|data|) + 4);
    BigEndianBits(v);
    LowBits(8 * |data|);
  }

  lemma PaddedBits(data: seq<Byte>)
    ensures ByteBits(Padded(data)) ==
            ByteBits(data) + [true] + Falses(PadCount(8 * |data|)) + (Falses(32) + BitsOf(8 * |data|, 32))
  {
    hide BitsOf, ByteBits, PadCount, ZeroCount, Padded, Falses;
    var l, k := |data|, ZeroCount(|data|);
    PaddedParts(data);
    ZeroCountFits(l);
    ZerosSplit(k);
    assert Falses(PadCount(8 * l)) == Falses(7 + 8 * k);
    Regroup(ByteBits(data), [true], Falses(7), Falses(8 * (k + 4)), Falses(7 + 8 * k), Falses(32), BitsOf(8 * l, 32));
  }

  lemma Regroup(a: seq<bool>, b: seq<bool>, c: seq<bool>, d: seq<bool>, e: seq<bool>, f: seq<bool>, g: seq<bool>)
    requires c + d == e + f
    ensures a + (b + c) + d + g == a + b + e + (f + g)
  {
    assert a + (b + c) + d + g == a + b + (c + d) + g;
    assert a + b + (e + f) + g == a + b + e + (f + g);
  }

  lemma SameTail(p: seq<bool>, x: seq<bool>, y: seq<bool>)
    ensures p + x == p + y <==> x == y
  {
    assert (p + x)[|p|..] == x && (p + y)[|p|..] == y;
  }

  lemma SamePrefix(p: seq<bool>, x: seq<bool>)
    requires |x| == 64
    ensures p + x[32..] == x <==> x[..32] == p
  {
    assert x == x[..32] + x[32..];
    if p + x[32..] == x {
      assert |p| == 32;
      assert (p + x[32..])[..32] == p;
    }
  }

  /** The padding of the code is that of section 5.1.1 of FIPS 180-4 for messages below 2^29 bytes and for
      no longer one, among those the standard defines. */
  lemma PaddingIsFips(data: seq<Byte>)
    requires 8 * |data| < Pow2(64)
    ensures ByteBits(Padded(data)) == FipsPadded(ByteBits(data)) <==> |data| < 0x2000_0000
  {
    hide BitsOf, ByteBits, PadCount, Padded, Pow2;
    var v := 8 * |data|;
    PaddedBits(data);
    var p := ByteBits(data) + [true] + Falses(PadCount(v));
    LengthField(v);
    SameTail(p, Falses(32) + BitsOf(v, 32), BitsOf(v, 64));
    SamePrefix(Falses(32), BitsOf(v, 64));
  }

  // ---------- the code ----------

  /** The code's `(x >>> n) | (x << (32 - n))`. */
  function RotateRight(x: Word, n: nat): (r: Word)
    requires 0 < n < 32
    ensures r == Rotr(x, n)
  {
    ShiftOrIsRotr(x, n);
    Or(Words.ShiftRight(x, n), ShiftLeft(x, 32 - n))
  }

  /** A sum of four words cut to 32 bits once, as the code computes it. */
  function Sum4(a: nat, b: nat, c: nat, d: nat): (s: Word)
    ensures s == Plus(Plus(Plus(d, c), b), a)
  {
    (a + b + c + d) % 0x1_0000_0000
  }

  function Sum5(a: nat, b: nat, c: nat, d: nat, e: nat): (s: Word)
    ensures s == Plus(Plus(Plus(Plus(a, b), c), d), e)
  {
    (a + b + c + d + e) % 0x1_0000_0000
  }

  method SetUint32(bytes: array<Byte>, at: nat, v: Word)
    requires at + 4 <= bytes.Length
    modifies bytes
    ensures bytes[..] == old(bytes[..at]) + BigEndian(v) + old(bytes[at + 4..])
  {
    var b := BigEndian(v);
    bytes[at], bytes[at + 1], bytes[at + 2], bytes[at + 3] := b[0], b[1], b[2], b[3];
  }

  method GetUint32(bytes: array<Byte>, at: nat) returns (v: Word)
    requires at + 4 <= bytes.Length
    ensures v == FromBigEndian(bytes[at..at + 4])
  {
    var (b0: nat, b1: nat, b2: nat, b3: nat) := (bytes[at], bytes[at + 1], bytes[at + 2], bytes[at + 3]);
    v := ((b0 * 256 + b1) * 256 + b2) * 256 + b3;
  }

  method Pad(data: seq<Byte>) returns (padded: array<Byte>)
    ensures fresh(padded) && padded[..] == Padded(data)
  {
    var l := |data|;
    var kPad := (56 - (l + 1) % 64 + 64) % 64;
    var totalLen := l + 1 + kPad + 8;
    padded := new Byte[totalLen](i => 0);
    forall i | 0 <= i < l { padded[i] := data[i]; }
    padded[l] := 0x80;
    assert padded[..totalLen - 4] == data + [0x80] + Zeros(kPad + 4);
    SetUint32(padded, totalLen - 4, 8 * l % 0x1_0000_0000);
  }

  lemma WordOfBits(bytes: seq<Byte>, at: nat)
    requires at + 4 <= |bytes|
    ensures WordAt(ByteBits(bytes), 8 * at) == FromBigEndian(bytes[at..at + 4])
  {
    hide ByteBits, Value, FromBigEndian;
    var x, y, z := bytes[..at], bytes[at..at + 4], bytes[at + 4..];
    assert bytes == x + y + z;
    ByteBitsConcat(x + y, z);
    ByteBitsConcat(x, y);
    WordOfBytes(y);
    assert ByteBits(bytes)[8 * at..8 * at + 32] == ByteBits(y);
  }

  /** The message schedule of the block that starts at byte `chunk`. */
  method Expand(padded: array<Byte>, chunk: nat, w: array<Word>)
    requires chunk % 64 == 0 && chunk + 64 <= padded.Length && w.Length == 64
    modifies w
    ensures forall t | 0 <= t < 64 :: w[t] == W(Block(ByteBits(padded[..]), chunk / 64), t)
  {
    hide ByteBits, XorWords, Rotr, Plus, Words.ShiftRight, FromBigEndian, WordAt;
    ghost var m := Block(ByteBits(padded[..]), chunk / 64);
    var i := 0;
    while i < 16
      invariant 0 <= i <= 16
      invariant forall t | 0 <= t < i :: w[t] == W(m, t)
    {
      w[i] := GetUint32(padded, chunk + i * 4);
      WordOfBits(padded[..], chunk + i * 4);
      assert padded[..][chunk + i * 4..chunk + i * 4 + 4] == padded[chunk + i * 4..chunk + i * 4 + 4];
      assert 512 * (chunk / 64) + 32 * i == 8 * (chunk + i * 4);
      assert m[i] == WordAt(ByteBits(padded[..]), 8 * (chunk + i * 4));
      i := i + 1;
    }
    while i < 64
      invariant 16 <= i <= 64
      invariant forall t | 0 <= t < i :: w[t] == W(m, t)
    {
      var x, y := w[i - 15], w[i - 2];
      var s0 := XorWords(XorWords(RotateRight(x, 7), RotateRight(x, 18)), Words.ShiftRight(x, 3));
      var s1 := XorWords(XorWords(RotateRight(y, 17), RotateRight(y, 19)), Words.ShiftRight(y, 10));
      w[i] := Sum4(w[i - 16], s0, w[i - 7], s1);
      i := i + 1;
    }
  }

  /** The 64 rounds on one block, and the addition of the registers. */
  method CompressBlock(w: array<Word>, r: Registers, ghost m: seq<Word>) returns (next: Registers)
    requires w.Length == 64 && |m| == 16
    requires forall t | 0 <= t < 64 :: w[t] == W(m, t)
    ensures next == Compress(r, m)
  {
    hide XorWords, Rotr, Plus, And, Not, K, W;
    var a, b, c, d, e, f, g, h := r.a, r.b, r.c, r.d, r.e, r.f, r.g, r.h;
    for i := 0 to 64
      invariant Registers(a, b, c, d, e, f, g, h) == Rounds(r, m, i)
    {
      var s1 := XorWords(XorWords(RotateRight(e, 6), RotateRight(e, 11)), RotateRight(e, 25));
      var ch := XorWords(And(e, f), And(Not(e), g));
      var temp1 := Sum5(h, s1, ch, K(i), w[i]);
      var s0 := XorWords(XorWords(RotateRight(a, 2), RotateRight(a, 13)), RotateRight(a, 22));
      var maj := XorWords(XorWords(And(a, b), And(a, c)), And(b, c));
      var temp2 := Plus(s0, maj);
      h := g;
      g := f;
      f := e;
      e := Plus(d, temp1);
      d := c;
      c := b;
      b := a;
      a := Plus(temp1, temp2);
    }
    next := Registers(Plus(r.a, a), Plus(r.b, b), Plus(r.c, c), Plus(r.d, d),
                      Plus(r.e, e), Plus(r.f, f), Plus(r.g, g), Plus(r.h, h));
  }

  function DigestBytes(r: Registers): (out: seq<Byte>)
    ensures |out| == 32
  {
    BigEndian(r.a) + BigEndian(r.b) + BigEndian(r.c) + BigEndian(r.d)
    + BigEndian(r.e) + BigEndian(r.f) + BigEndian(r.g) + BigEndian(r.h)
  }

  lemma AppendWord(bytes: seq<Byte>, bits: seq<bool>, v: Word)
    requires ByteBits(bytes) == bits
    ensures ByteBits(bytes + BigEndian(v)) == bits + BitsOf(v, 32)
  {
    hide ByteBits, BitsOf, BigEndian;
    ByteBitsConcat(bytes, BigEndian(v));
    BigEndianBits(v);
  }

  lemma DigestBytesAreBits(r: Registers)
    ensures ByteBits(DigestBytes(r)) == DigestBits(r)
  {
    hide ByteBits, BitsOf, BigEndian;
    BigEndianBits(r.a);
    var x1, y1 := BigEndian(r.a), BitsOf(r.a, 32);
    AppendWord(x1, y1, r.b);
    var x2, y2 := x1 + BigEndian(r.b), y1 + BitsOf(r.b, 32);
    AppendWord(x2, y2, r.c);
    var x3, y3 := x2 + BigEndian(r.c), y2 + BitsOf(r.c, 32);
    AppendWord(x3, y3, r.d);
    var x4, y4 := x3 + BigEndian(r.d), y3 + BitsOf(r.d, 32);
    AppendWord(x4, y4, r.e);
    var x5, y5 := x4 + BigEndian(r.e), y4 + BitsOf(r.e, 32);
    AppendWord(x5, y5, r.f);
    var x6, y6 := x5 + BigEndian(r.f), y5 + BitsOf(r.f, 32);
    AppendWord(x6, y6, r.g);
    AppendWord(x6 + BigEndian(r.g), y6 + BitsOf(r.g, 32), r.h);
  }

  method WriteDigest(r: Registers) returns (out: array<Byte>)
    ensures fresh(out) && out[..] == DigestBytes(r)
  {
    hide BigEndian;
    out := new Byte[32];
    SetUint32(out, 0, r.a);
    assert out[..4] == BigEndian(r.a);
    SetUint32(out, 4, r.b);
    assert out[..8] == BigEndian(r.a) + BigEndian(r.b);
    SetUint32(out, 8, r.c);
    assert out[..12] == BigEndian(r.a) + BigEndian(r.b) + BigEndian(r.c);
    SetUint32(out, 12, r.d);
    assert out[..16] == BigEndian(r.a) + BigEndian(r.b) + BigEndian(r.c) + BigEndian(r.d);
    ghost var first := out[..16];
    SetUint32(out, 16, r.e);
    assert out[..20] == first + BigEndian(r.e);
    SetUint32(out, 20, r.f);
    assert out[..24] == first + BigEndian(r.e) + BigEndian(r.f);
    SetUint32(out, 24, r.g);
    assert out[..28] == first + BigEndian(r.e) + BigEndian(r.f) + BigEndian(r.g);
    SetUint32(out, 28, r.h);
  }

  /** The bytes the code returns for a message, as a function of it. */
  function Digest(data: seq<Byte>): (out: seq<Byte>)
    ensures |out| == 32
  {
    PaddedWhole(data);
    DigestBytes(Chain(ByteBits(Padded(data)), |Padded(data)| / 64))
  }

  lemma PaddedWhole(data: seq<Byte>)
    ensures |Padded(data)| % 64 == 0
  {
    hide Padded, ZeroCount;
    WholeBlocks(|data|);
  }

  lemma WholeBlocks(l: nat)
    ensures (l + 1 + ZeroCount(l) + 8) % 64 == 0
  {
    var q, r := (l + 1) / 64, (l + 1) % 64;
    assert l + 1 == 64 * q + r;
    assert ZeroCount(l) == if r <= 56 then 56 - r else 120 - r;
    assert l + 1 + ZeroCount(l) + 8 == 64 * (q + if r <= 56 then 1 else 2);
  }

  method Hash(data: seq<Byte>) returns (out: array<Byte>)
    ensures fresh(out) && out[..] == Digest(data)
  {
    hide ByteBits, Block, Compress, W, Padded, DigestBytes, Start;
    var padded := Pad(data);
    PaddedWhole(data);
    ghost var bits := ByteBits(Padded(data));
    var r := InitialRegisters();
    var w := new Word[64];
    var chunk := 0;
    while chunk < padded.Length
      invariant chunk % 64 == 0 && chunk <= padded.Length && padded[..] == Padded(data)
      invariant r == Chain(bits, chunk / 64)
    {
      Expand(padded, chunk, w);
      r := CompressBlock(w, r, Block(bits, chunk / 64));
      chunk := chunk + 64;
    }
    out := WriteDigest(r);
  }

  method InitialRegisters() returns (r: Registers)
    ensures r == Start()
  {
    r := Registers(0x6a09_e667, 0xbb67_ae85, 0x3c6e_f372, 0xa54f_f53a,
                   0x510e_527f, 0x9b05_688c, 0x1f83_d9ab, 0x5be0_cd19);
  }

  /** The hash of every message shorter than 2^29 bytes is its SHA-256. */
  lemma DigestIsSha256(data: seq<Byte>)
    requires |data| < 0x2000_0000
    ensures ByteBits(Digest(data)) == Sha256(ByteBits(data))
  {
    hide ByteBits, Padded, Digest, HashPadded, FipsPadded, Pow2;
    Pow2Is64();
    PaddingIsFips(data);
    DigestOfPadded(data);
  }

  lemma Pow2Is64()
    ensures Pow2(64) == 0x1_0000_0000_0000_0000
  {
    hide Pow2;
    Pow2Is32();
    Pow2Adds(32, 32);
  }

  /** Every message, of any length, is hashed as SHA-256 hashes its padded form. */
  lemma DigestOfPadded(data: seq<Byte>)
    ensures |ByteBits(Padded(data))| % 512 == 0
    ensures ByteBits(Digest(data)) == HashPadded(ByteBits(Padded(data)))
  {
    hide ByteBits, Padded, DigestBytes, DigestBits, Chain;
    PaddedWhole(data);
    BlockCount(|Padded(data)|);
    DigestBytesAreBits(Chain(ByteBits(Padded(data)), |Padded(data)| / 64));
  }

  lemma BlockCount(n: nat)
    requires n % 64 == 0
    ensures 8 * n % 512 == 0 && 8 * n / 512 == n / 64
  {
  }
}
