/** What the data cells of a symbol hold, told by what a reader makes of them (web/app/src/qr.ts:130-216): data
    codewords that decode to the text, and check bytes that make the whole a multiple of the divisor. */
module QrStream {
  import opened Bits
  import opened BitStrings
  import opened QrBits
  import opened ReedSolomon

  /** Mode and terminator take half a byte each and the count one byte; a text that does not fit goes in whole. */
  function DataLength(text: seq<Byte>, capacity: nat): nat {
    if |text| + 2 < capacity then capacity else |text| + 2
  }

  /** Mode 0100, the low eight bits of the length, the text, four zeros, and 0xec and 0x11 by turns. */
  ghost predicate IsData(text: seq<Byte>, capacity: nat, data: seq<Byte>) {
    var n, bits := |text|, ByteBits(data);
    && |data| == DataLength(text, capacity)
    && bits[..4] == [false, true, false, false]
    && Value(bits[4..12]) == n % 256
    && Pack(bits[12..12 + 8 * n]) == text
    && bits[12 + 8 * n..16 + 8 * n] == [false, false, false, false]
    && forall i | n + 2 <= i < |data| :: data[i] == if (i - n) % 2 == 0 then 0xec else 0x11
  }

  /** The whole is a multiple of the divisor that the encoder reads. */
  ghost predicate IsMultiple(codeword: seq<Byte>, length: nat, ec: nat) {
    exists q: Poly :: |q| == length && codeword == Product(q, [1] + Generator(ec)[..ec])
  }

  ghost predicate IsCodeword(text: seq<Byte>, capacity: nat, ec: nat, codeword: seq<Byte>) {
    var length := DataLength(text, capacity);
    && |codeword| == length + ec
    && IsData(text, capacity, codeword[..length])
    && IsMultiple(codeword, length, ec)
  }

  /** The cells hold the codeword's bits as far as they go, and zeros after them. */
  ghost predicate Streamed(bits: seq<bool>, codeword: seq<Byte>) {
    forall k | 0 <= k < |bits| :: bits[k] == (k < 8 * |codeword| && ByteBits(codeword)[k])
  }

  ghost predicate HoldsText(bits: seq<bool>, text: seq<Byte>, capacity: nat, ec: nat) {
    exists codeword :: IsCodeword(text, capacity, ec, codeword) && Streamed(bits, codeword)
  }

  // ---------- what the encoder computes is one ----------

  lemma PaddedPayload(text: seq<Byte>, capacity: nat)
    ensures WholeBytes(Payload(text), capacity) == Payload(text) + [false, false, false, false]
  {
    hide Payload;
    var p := Payload(text);
    var t := TerminatorLength(|p|, capacity);
    if capacity >= |text| + 2 {
      assert t == 4 && p + Falses(4) + Falses(0) == p + [false, false, false, false];
    } else {
      assert t == 0 && p + Falses(0) + Falses(4) == p + [false, false, false, false];
    }
  }

  lemma DataIsData(text: seq<Byte>, capacity: nat)
    ensures IsData(text, capacity, DataCodewords(text, capacity))
  {
    hide Payload, WholeBytes, Pack, ByteBits, Value;
    var n, p, data := |text|, Payload(text), DataCodewords(text, capacity);
    PaddedPayload(text, capacity);
    var whole := p + [false, false, false, false];
    var used := Pack(whole);
    var pads := PadBytes(if |used| < capacity then capacity - |used| else 0);
    UnpackPack(whole);
    ByteBitsConcat(used, pads);
    var bits := ByteBits(data);
    assert data == used + pads && |used| == n + 2;
    PayloadParts(text);
    Slices(p, [false, false, false, false], ByteBits(pads), bits);
  }

  lemma Slices(p: seq<bool>, zeros: seq<bool>, rest: seq<bool>, bits: seq<bool>)
    requires |p| >= 12 && |zeros| == 4 && bits == p + zeros + rest
    ensures bits[..4] == p[..4] && bits[4..12] == p[4..12] && bits[12..|p|] == p[12..]
    ensures bits[|p|..|p| + 4] == zeros
  {
  }

  lemma PayloadParts(text: seq<Byte>)
    ensures var p := Payload(text);
            p[..4] == [false, true, false, false] && Value(p[4..12]) == |text| % 256 && Pack(p[12..]) == text
  {
    hide Pack, ByteBits, Value;
    var p := Payload(text);
    assert p[4..12] == BitsOf(|text|, 8) && p[12..] == ByteBits(text);
    LowByte(|text|);
    PackUnpack(text);
  }

  lemma LowByte(n: nat)
    ensures Value(BitsOf(n, 8)) == n % 256
  {
    assert Pow2(8) == 256;
    ValueOfBits(n, 8);
  }

  lemma EncodedIsCodeword(text: seq<Byte>, capacity: nat, ec: nat)
    ensures var data := DataCodewords(text, capacity);
            IsCodeword(text, capacity, ec, data + Remainder(data, Generator(ec)[..ec]))
  {
    hide IsData, DataCodewords, Remainder, Generator, Product;
    DataIsData(text, capacity);
    var data, d := DataCodewords(text, capacity), Generator(ec)[..ec];
    DataHasLength(text, capacity, data);
    DivisionIsExact(data, d);
    var codeword := data + Remainder(data, d);
    assert codeword[..|data|] == data;
    assert |Quotient(data, d)| == |data| && codeword == Product(Quotient(data, d), [1] + d);
  }

  lemma DataHasLength(text: seq<Byte>, capacity: nat, data: seq<Byte>)
    requires IsData(text, capacity, data)
    ensures |data| == DataLength(text, capacity)
  {
  }

  // ---------- and the only one ----------

  lemma ValueDecides(a: seq<bool>, b: seq<bool>)
    requires |a| == |b| && Value(a) == Value(b)
    ensures a == b
  {
    BitsOfValue(a);
    BitsOfValue(b);
  }

  lemma PackDecides(a: seq<bool>, b: seq<bool>)
    requires |a| % 8 == 0 && |b| % 8 == 0 && Pack(a) == Pack(b)
    ensures a == b
  {
    UnpackPack(a);
    UnpackPack(b);
  }

  lemma BytesDecided(a: seq<Byte>, b: seq<Byte>)
    requires ByteBits(a) == ByteBits(b)
    ensures a == b
  {
    PackUnpack(a);
    PackUnpack(b);
  }

  lemma SplitBits(bits: seq<bool>, n: nat)
    requires 16 + 8 * n <= |bits|
    ensures bits[..16 + 8 * n] == bits[..4] + bits[4..12] + bits[12..12 + 8 * n] + bits[12 + 8 * n..16 + 8 * n]
  {
  }

  /** The text determines its data codewords. */
  lemma DataIsDetermined(text: seq<Byte>, capacity: nat, a: seq<Byte>, b: seq<Byte>)
    requires IsData(text, capacity, a) && IsData(text, capacity, b)
    ensures a == b
  {
    hide Pack, ByteBits, Value;
    var n, x, y := |text|, ByteBits(a), ByteBits(b);
    ValueDecides(x[4..12], y[4..12]);
    PackDecides(x[12..12 + 8 * n], y[12..12 + 8 * n]);
    SplitBits(x, n);
    SplitBits(y, n);
    ByteBitsConcat(a[..n + 2], a[n + 2..]);
    ByteBitsConcat(b[..n + 2], b[n + 2..]);
    assert a == a[..n + 2] + a[n + 2..] && b == b[..n + 2] + b[n + 2..];
    assert ByteBits(a[..n + 2]) == x[..16 + 8 * n] && ByteBits(b[..n + 2]) == y[..16 + 8 * n];
    BytesDecided(a[..n + 2], b[..n + 2]);
    assert a[n + 2..] == b[n + 2..];
  }

  /** And the data codewords their check bytes. */
  lemma CodewordIsDetermined(text: seq<Byte>, capacity: nat, ec: nat, a: seq<Byte>, b: seq<Byte>)
    requires IsCodeword(text, capacity, ec, a) && IsCodeword(text, capacity, ec, b)
    ensures a == b
  {
    hide IsData, Generator, Product, Remainder;
    var n, d := DataLength(text, capacity), Generator(ec)[..ec];
    DataIsDetermined(text, capacity, a[..n], b[..n]);
    var q: Poly :| |q| == n && a == Product(q, [1] + d);
    var p: Poly :| |p| == n && b == Product(p, [1] + d);
    assert a == a[..n] + a[n..] && b == b[..n] + b[n..];
    RemainderIsUnique(a[..n], d, a[n..], q);
    RemainderIsUnique(b[..n], d, b[n..], p);
  }

  /** So the text determines the cells. */
  lemma CellsAreDetermined(x: seq<bool>, y: seq<bool>, text: seq<Byte>, capacity: nat, ec: nat)
    requires HoldsText(x, text, capacity, ec) && HoldsText(y, text, capacity, ec) && |x| == |y|
    ensures x == y
  {
    hide IsCodeword, ByteBits;
    var a :| IsCodeword(text, capacity, ec, a) && Streamed(x, a);
    var b :| IsCodeword(text, capacity, ec, b) && Streamed(y, b);
    CodewordIsDetermined(text, capacity, ec, a, b);
  }

  /** Where the cells have room for a whole codeword, their first bits, packed, are one. */
  lemma FirstBitsAreCodeword(bits: seq<bool>, text: seq<Byte>, capacity: nat, ec: nat)
    requires HoldsText(bits, text, capacity, ec) && 8 * (DataLength(text, capacity) + ec) <= |bits|
    ensures IsCodeword(text, capacity, ec, Pack(bits[..8 * (DataLength(text, capacity) + ec)]))
  {
    hide IsData, IsMultiple, ByteBits, Pack;
    var codeword :| IsCodeword(text, capacity, ec, codeword) && Streamed(bits, codeword);
    assert bits[..8 * |codeword|] == ByteBits(codeword);
    PackUnpack(codeword);
  }
}
