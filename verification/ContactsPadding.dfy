/** Padding before sealing (web/core/src/contacts.ts:65-94) and the server's length rules for the sealed
    blob (server/internal/http/contacts.go:103-118). */
module ContactsPadding {
  import opened Bits
  import opened Words
  import opened Wrappers

  const PAD_BLOCK: nat := 4096
  const MAX_PLAINTEXT: nat := 65536
  /** Nonce (12 bytes) and authentication tag (16 bytes). */
  const SEAL_OVERHEAD: nat := 28

  datatype PadError = ExceedsMaxBytes | InvalidPadded | CorruptedLength | BlobTooLarge | InvalidPadding

  function Blocks(payloadLength: nat): nat {
    var b := (4 + payloadLength + PAD_BLOCK - 1) / PAD_BLOCK;
    if b > 1 then b else 1
  }

  function Padded(payload: seq<Byte>): (p: seq<Byte>)
    ensures |p| == Blocks(|payload|) * PAD_BLOCK
  {
    BigEndian(|payload| % 0x1_0000_0000) + payload + seq(Blocks(|payload|) * PAD_BLOCK - 4 - |payload|, i => 0)
  }

  method Pad(payload: seq<Byte>) returns (r: Result<array<Byte>, PadError>)
    ensures if 4 + |payload| > MAX_PLAINTEXT then r == Failure(ExceedsMaxBytes)
            else r.Success? && fresh(r.value) && r.value[..] == Padded(payload)
  {
    var totalUnpadded := 4 + |payload|;
    if totalUnpadded > MAX_PLAINTEXT {
      return Failure(ExceedsMaxBytes);
    }
    var blocks := Blocks(|payload|);
    var paddedLen := blocks * PAD_BLOCK;
    if paddedLen > MAX_PLAINTEXT {
      return Failure(ExceedsMaxBytes);
    }
    var padded := new Byte[paddedLen](i => 0);
    var prefix := BigEndian(|payload| % 0x1_0000_0000);
    for i := 0 to 4
      invariant padded[..i] == prefix[..i]
      invariant forall k | i <= k < paddedLen :: padded[k] == 0
    {
      padded[i] := prefix[i];
    }
    for i := 0 to |payload|
      invariant padded[..4] == prefix
      invariant padded[4..4 + i] == payload[..i]
      invariant forall k | 4 + i <= k < paddedLen :: padded[k] == 0
    {
      padded[4 + i] := payload[i];
    }
    assert padded[..] == padded[..4] + padded[4..4 + |payload|] + padded[4 + |payload|..];
    r := Success(padded);
  }

  function Unpad(padded: seq<Byte>): Result<seq<Byte>, PadError> {
    if |padded| < 4 || |padded| % PAD_BLOCK != 0 then Failure(InvalidPadded) else
      var payloadLen := FromBigEndian(padded[..4]);
      if payloadLen > |padded| - 4 then Failure(CorruptedLength) else Success(padded[4..4 + payloadLen])
  }

  /** The server's verdict on a decoded blob of `length` bytes. */
  function CheckLength(length: nat, maxBytes: nat): Result<nat, PadError> {
    var plaintextLen := length - SEAL_OVERHEAD;
    var validPlaintextPad := plaintextLen >= PAD_BLOCK && plaintextLen <= maxBytes && plaintextLen % PAD_BLOCK == 0;
    var validTotalPad := length >= PAD_BLOCK && length <= maxBytes && length % PAD_BLOCK == 0;
    if !validPlaintextPad && !validTotalPad then
      Failure(if length > maxBytes + SEAL_OVERHEAD then BlobTooLarge else InvalidPadding)
    else Success(length)
  }

  lemma BlocksBound(n: nat)
    ensures PAD_BLOCK * (Blocks(n) - 1) < 4 + n <= PAD_BLOCK * Blocks(n)
  {
  }

  /** Main result: whatever the client can pad, the server accepts under the same ceiling, and it unpads
      to the same bytes. The ceiling is on the padded size: under a lower one the server accepts exactly
      the payloads whose blocks fit. */
  lemma PaddingRoundTrip(payload: seq<Byte>, maxBytes: nat)
    requires 4 + |payload| <= MAX_PLAINTEXT
    ensures Unpad(Padded(payload)) == Success(payload)
    ensures CheckLength(SEAL_OVERHEAD + |Padded(payload)|, maxBytes).Success? <==> |Padded(payload)| <= maxBytes
    ensures |Padded(payload)| <= MAX_PLAINTEXT
  {
    var p := Padded(payload);
    BlocksBound(|payload|);
    BigEndianRoundTrip(|payload| % 0x1_0000_0000);
    assert p[..4] == BigEndian(|payload| % 0x1_0000_0000);
    assert p[4..4 + |payload|] == payload;
    Multiple(Blocks(|payload|));
  }

  lemma Multiple(blocks: nat)
    ensures (blocks * PAD_BLOCK) % PAD_BLOCK == 0
    ensures (SEAL_OVERHEAD + blocks * PAD_BLOCK) % PAD_BLOCK == SEAL_OVERHEAD
  {
  }

  /** The sealed size tells two payloads apart exactly when they need different numbers of blocks. */
  lemma SizeRevealsBlocksOnly(a: seq<Byte>, b: seq<Byte>)
    ensures |Padded(a)| == |Padded(b)| <==> Blocks(|a|) == Blocks(|b|)
    ensures |a| <= |b| < |a| + 4096 ==> Blocks(|b|) <= Blocks(|a|) + 1
  {
    BlocksBound(|a|);
    BlocksBound(|b|);
  }
}
