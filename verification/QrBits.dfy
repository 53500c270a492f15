/** Turning a text into data codewords (web/app/src/qr.ts:130-176), and reading it back from a bit
    stream. */
module QrBits {
  import opened Bits
  import opened BitStrings
  import opened Wrappers

  // ---------- the data codewords ----------

  /** Mode, character count and text, before any padding. */
  function Payload(text: seq<Byte>): (bits: seq<bool>)
    ensures |bits| == 12 + 8 * |text|
  {
    [false, true, false, false] + BitsOf(|text|, 8) + ByteBits(text)
  }

  function TerminatorLength(len: nat, capacity: nat): nat {
    if 8 * capacity - len >= 4 then 4 else if 8 * capacity <= len then 0 else 8 * capacity - len
  }

  /** The payload with its terminator, filled with zeros up to a whole byte. */
  function WholeBytes(bits: seq<bool>, capacity: nat): (r: seq<bool>)
    ensures |r| % 8 == 0
  {
    var b := bits + Falses(TerminatorLength(|bits|, capacity));
    b + Falses((8 - |b| % 8) % 8)
  }

  function PadBytes(n: nat): (s: seq<Byte>)
    ensures |s| == n
  {
    seq(n, i => if i % 2 == 0 then 0xec else 0x11)
  }

  function DataCodewords(text: seq<Byte>, capacity: nat): seq<Byte> {
    var used := Pack(WholeBytes(Payload(text), capacity));
    used + PadBytes(if |used| < capacity then capacity - |used| else 0)
  }

  /** The codewords begin with the payload. */
  lemma CodewordsHoldPayload(text: seq<Byte>, capacity: nat)
    ensures Payload(text) <= ByteBits(DataCodewords(text, capacity))
    ensures |DataCodewords(text, capacity)| >= capacity
  {
    var bits := WholeBytes(Payload(text), capacity);
    UnpackPack(bits);
    ByteBitsConcat(Pack(bits), PadBytes(|DataCodewords(text, capacity)| - |Pack(bits)|));
  }

  // ---------- a reader ----------

  /** What a reader makes of a bit stream: byte mode, a count, and that many bytes. */
  function ReadText(bits: seq<bool>): Option<seq<Byte>> {
    if |bits| < 12 || bits[..4] != [false, true, false, false] then None else
      var n := Value(bits[4..12]);
      if |bits| < 12 + 8 * n then None else Some(Pack(bits[12..12 + 8 * n]))
  }

  /** Only eight bits of the length reach the stream. */
  lemma CountField(text: seq<Byte>, bits: seq<bool>)
    requires 12 <= |bits| && bits[..12] == Payload(text)[..12]
    ensures bits[..4] == [false, true, false, false]
    ensures var n := Value(bits[4..12]); n < 256 && (|text| < 256 <==> n == |text|)
  {
    hide ByteBits, Value;
    assert Pow2(8) == 256;
    ValueOfBits(|text|, 8);
    var p := Payload(text);
    assert bits[..4] == bits[..12][..4] == p[..12][..4] == [false, true, false, false];
    assert bits[4..12] == bits[..12][4..] == p[..12][4..] == BitsOf(|text|, 8);
  }

  /** A stream that holds the first `room` bits of the payload gives the text back exactly when the
      whole payload is among them: its count has eight bits only, so a longer text is never read back. */
  lemma ReadsBackIffItFits(text: seq<Byte>, bits: seq<bool>)
    requires 12 <= |bits| < 12 + 8 * 256
    requires if 12 + 8 * |text| <= |bits| then Payload(text) <= bits else bits == Payload(text)[..|bits|]
    ensures ReadText(bits) == Some(text) <==> 12 + 8 * |text| <= |bits|
  {
    var p := Payload(text);
    assert bits[..12] == p[..12];
    hide Pack, ByteBits;
    CountField(text, bits);
    if 12 + 8 * |text| <= |bits| {
      assert bits[12..12 + 8 * |text|] == p[12..] == ByteBits(text);
      PackUnpack(text);
    }
  }

  // ---------- the encoder ----------

  /** Appends the eight low bits of `v`, highest first. */
  method PushByte(bits: seq<bool>, v: nat) returns (r: seq<bool>)
    ensures r == bits + BitsOf(v, 8)
  {
    r := bits;
    for i := 8 downto 0
      invariant r == bits + BitsOf(v, 8)[..8 - i]
    {
      r := r + [Bit(v, i)];
    }
  }

  method EncodeText(text: seq<Byte>, capacity: nat) returns (codewords: seq<Byte>)
    ensures codewords == DataCodewords(text, capacity)
  {
    var dataBits := PushText(text);
    var termZeros := if 4 <= 8 * capacity - |dataBits| then 4 else 8 * capacity - |dataBits|;
    var i := 0;
    while i < termZeros
      invariant 0 <= i && (i <= termZeros || i == 0)
      invariant dataBits == Payload(text) + Falses(i)
    {
      dataBits := dataBits + [false];
      i := i + 1;
    }
    dataBits := FillByte(dataBits);
    codewords := PackBits(dataBits);
    codewords := AppendPads(codewords, capacity);
  }

  method PushText(text: seq<Byte>) returns (dataBits: seq<bool>)
    ensures dataBits == Payload(text)
  {
    dataBits := [false, true, false, false];
    dataBits := PushByte(dataBits, |text|);
    for b := 0 to |text|
      invariant dataBits == [false, true, false, false] + BitsOf(|text|, 8) + ByteBits(text[..b])
    {
      assert text[..b + 1][..b] == text[..b];
      dataBits := PushByte(dataBits, text[b]);
    }
    assert text[..|text|] == text;
  }

  method FillByte(bits: seq<bool>) returns (r: seq<bool>)
    ensures r == bits + Falses((8 - |bits| % 8) % 8)
  {
    r := bits;
    ghost var fill := 0;
    while |r| % 8 != 0
      invariant 0 <= fill <= (8 - |bits| % 8) % 8
      invariant r == bits + Falses(fill)
      decreases 8 - fill
    {
      r := r + [false];
      fill := fill + 1;
    }
  }

  method AppendPads(used: seq<Byte>, capacity: nat) returns (codewords: seq<Byte>)
    ensures codewords == used + PadBytes(if |used| < capacity then capacity - |used| else 0)
  {
    codewords := used;
    var padIdx := 0;
    while |codewords| < capacity
      invariant codewords == used + PadBytes(padIdx)
      invariant padIdx > 0 ==> |codewords| <= capacity
      decreases capacity - |codewords|
    {
      codewords := codewords + [if padIdx % 2 == 0 then 0xec else 0x11];
      padIdx := padIdx + 1;
    }
  }

  /** Packs a whole number of bytes, shifting bit after bit into each. */
  method PackBits(bits: seq<bool>) returns (bytes: seq<Byte>)
    requires |bits| % 8 == 0
    ensures bytes == Pack(bits)
  {
    bytes := [];
    var i := 0;
    while i < |bits|
      invariant i <= |bits| && i % 8 == 0
      invariant bytes == Pack(bits[..i])
    {
      var byteVal: nat := 0;
      ghost var chunk := bits[i..i + 8];
      for b := 0 to 8
        invariant byteVal == Value(chunk[..b])
      {
        assert chunk[..b + 1][..b] == chunk[..b];
        byteVal := 2 * byteVal + (if bits[i + b] then 1 else 0);
      }
      assert chunk[..8] == chunk && bits[..i + 8][..i] == bits[..i] && bits[..i + 8][i..] == chunk;
      assert byteVal == PackByte(chunk);
      bytes := bytes + [byteVal];
      i := i + 8;
    }
    assert bits[..i] == bits;
  }
}
