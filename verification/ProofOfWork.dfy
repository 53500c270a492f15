/** Hashcash tokens: solving, checking, the token header and the rotating challenges. */
module ProofOfWork {
  import opened Bits
  import opened BitStrings
  import opened DecimalPrinting
  import opened Fips180
  import opened LeadingZeros
  import opened Words
  import opened Wrappers
  import Sha256Grinder

  const BUFFER: nat := 256

  const DOT: Byte := 46

  type Challenge = c: seq<Byte> | |c| == 32 witness seq(32, i => 0)

  function ZeroChallenge(): Challenge {
    seq(32, i => 0)
  }

  /** `sha256.Sum256`, by the standard. */
  function Sum256(message: seq<Byte>): (digest: seq<Byte>)
    ensures |digest| == 32
  {
    Pack(Sha256(ByteBits(message)))
  }

  lemma GrinderIsSum256(message: seq<Byte>)
    requires |message| < 0x2000_0000
    ensures Sha256Grinder.Digest(message) == Sum256(message)
  {
    hide ByteBits, Pack, Sha256, Sha256Grinder.Digest;
    Sha256Grinder.DigestIsSha256(message);
    PackUnpack(Sha256Grinder.Digest(message));
  }

  // ---------- checking and solving ----------

  function Prefix(handle: seq<Byte>, epoch: Uint64, challenge: Challenge): seq<Byte> {
    handle + Decimal(epoch) + challenge
  }

  function Message(handle: seq<Byte>, epoch: Uint64, challenge: Challenge, nonce: seq<Byte>): seq<Byte> {
    Prefix(handle, epoch, challenge) + nonce
  }

  /** What the server's check decides: the hash of at most the first 256 bytes has enough leading zeros, as
      its counter counts them. */
  predicate Accepts(handle: seq<Byte>, epoch: Uint64, challenge: Challenge, nonce: seq<Byte>, target: Byte) {
    CountUint8(Sum256(Fit(Message(handle, epoch, challenge, nonce), BUFFER))) >= target
  }

  /** A returned value, or the run-time panic of an index out of range. */
  datatype Outcome<+T> = Done(value: T) | OutOfRange

  /** Printing epoch 0 behind a handle that fills the buffer indexes an empty slice. */
  predicate CheckPanics(handle: seq<Byte>, epoch: Uint64) {
    epoch == 0 && |handle| >= BUFFER
  }

  /** So does printing the first nonce behind a full prefix. */
  predicate SolvePanics(handle: seq<Byte>, epoch: Uint64, limit: Uint64) {
    CheckPanics(handle, epoch) || (limit > 0 && |handle| + |Decimal(epoch)| + 32 >= BUFFER)
  }

  lemma FitPrefix(handle: seq<Byte>, epoch: Uint64, challenge: Challenge, rest: seq<Byte>)
    ensures Fit(Fit(Prefix(handle, epoch, challenge), BUFFER) + rest, BUFFER)
         == Fit(Message(handle, epoch, challenge, rest), BUFFER)
  {
    hide Fit;
    FitAppend(Prefix(handle, epoch, challenge), rest, BUFFER);
  }

  /** Handle, epoch and challenge, as far as they fit. */
  method WritePrefix(buf: array<Byte>, handle: seq<Byte>, epoch: Uint64, challenge: Challenge)
      returns (r: Outcome<nat>)
    requires buf.Length == BUFFER
    modifies buf
    ensures r.OutOfRange? <==> CheckPanics(handle, epoch)
    ensures r.Done? ==> r.value <= BUFFER && buf[..r.value] == Fit(Prefix(handle, epoch, challenge), BUFFER)
  {
    var n := Copy(buf, 0, handle);
    assert buf[..n] == Fit(handle, BUFFER) by { assert [] + handle == handle; }
    if epoch == 0 && n == buf.Length {
      return OutOfRange;
    }
    var m := AppendUint(buf, n, epoch);
    FitAppend(handle, Decimal(epoch), BUFFER);
    n := n + m;
    m := Copy(buf, n, challenge);
    FitAppend(handle + Decimal(epoch), challenge, BUFFER);
    r := Done(n + m);
  }

  method CheckPoW(handle: seq<Byte>, epoch: Uint64, challenge: Challenge, nonce: seq<Byte>, target: Byte)
      returns (r: Outcome<bool>)
    ensures r == if CheckPanics(handle, epoch) then OutOfRange
                 else Done(Accepts(handle, epoch, challenge, nonce, target))
  {
    hide Fit, Decimal, Sum256, CountUint8, Prefix;
    var buf := new Byte[256](i => 0);
    var prefix := WritePrefix(buf, handle, epoch, challenge);
    if prefix.OutOfRange? {
      return OutOfRange;
    }
    var n := Copy(buf, prefix.value, nonce);
    FitPrefix(handle, epoch, challenge, nonce);
    var zeros := CountLeadingZeroBitsUint8(Sum256(buf[..prefix.value + n]));
    r := Done(zeros >= target);
  }

  /** The least accepted nonce below the limit, if there is one. */
  predicate IsFirst(handle: seq<Byte>, epoch: Uint64, challenge: Challenge, target: Byte, limit: Uint64, v: Uint64) {
    && v < limit
    && Accepts(handle, epoch, challenge, Decimal(v), target)
    && forall u: Uint64 | u < v :: !Accepts(handle, epoch, challenge, Decimal(u), target)
  }

  method SolvePoW(handle: seq<Byte>, epoch: Uint64, challenge: Challenge, target: Byte, limit: Uint64)
      returns (r: Outcome<Option<seq<Byte>>>)
    ensures r.OutOfRange? <==> SolvePanics(handle, epoch, limit)
    ensures r.Done? && r.value.Some? ==>
      exists v: Uint64 :: IsFirst(handle, epoch, challenge, target, limit, v) && r.value.value == Decimal(v)
    ensures r.Done? && r.value.None? ==>
      forall v: Uint64 | v < limit :: !Accepts(handle, epoch, challenge, Decimal(v), target)
  {
    hide Decimal, Sum256, CountUint8;
    var buf := new Byte[256](i => 0);
    var prefix := WritePrefix(buf, handle, epoch, challenge);
    if prefix.OutOfRange? {
      return OutOfRange;
    }
    var n := prefix.value;
    ghost var written := Fit(Prefix(handle, epoch, challenge), BUFFER);
    if n == buf.Length {
      return if limit > 0 then OutOfRange else Done(None);
    }
    var nonce: Uint64 := 0;
    while nonce < limit
      invariant nonce <= limit && n < BUFFER && buf[..n] == written
      invariant forall u: Uint64 | u < nonce :: !Accepts(handle, epoch, challenge, Decimal(u), target)
    {
      var m := AppendUint(buf, n, nonce);
      FitPrefix(handle, epoch, challenge, Decimal(nonce));
      var zeros := CountLeadingZeroBitsUint8(Sum256(buf[..n + m]));
      KeepsPrefix(buf[..n + m], written, Decimal(nonce));
      assert buf[..n] == buf[..n + m][..n];
      if zeros >= target {
        assert IsFirst(handle, epoch, challenge, target, limit, nonce);
        var bytes := new Byte[20](i => 0);
        var k := AppendUint(bytes, 0, nonce);
        PrintsWhole(bytes[..k], nonce);
        return Done(Some(bytes[..k]));
      }
      nonce := nonce + 1;
    }
    r := Done(None);
  }

  lemma KeepsPrefix(s: seq<Byte>, p: seq<Byte>, d: seq<Byte>)
    requires s == Fit(p + d, BUFFER) && |p| <= BUFFER
    ensures |s| >= |p| && s[..|p|] == p
  {
  }

  lemma {:induction false} DecimalLength(v: nat, n: nat)
    requires n > 0 && v < Pow10(n)
    ensures |Decimal(v)| <= n
  {
    assert Pow10(1) == 10;
    if v >= 10 && n > 1 { DecimalLength(v / 10, n - 1); }
  }

  lemma PrintsWhole(s: seq<Byte>, v: Uint64)
    requires s == Fit([] + Decimal(v), 20)
    ensures s == Decimal(v)
  {
    Uint64Fits(v);
    DecimalLength(v, 20);
  }

  // ---------- the token header ----------

  datatype Token = Token(epoch: Uint64, nonce: seq<Byte>)

  /** `strings.IndexByte`: the first position of `b`, or -1. */
  function IndexOf(s: seq<Byte>, b: Byte): (i: int)
    ensures -1 <= i < |s|
    ensures i >= 0 ==> s[i] == b
    ensures forall j | 0 <= j < (if i >= 0 then i else |s|) :: s[j] != b
  {
    if s == [] then -1
    else if s[0] == b then 0
    else
      var j := IndexOf(s[1..], b);
      assert forall k | 0 < k < |s| :: s[k] == s[1..][k - 1];
      if j < 0 then -1 else j + 1
  }

  function ParseToken(header: seq<Byte>): Option<Token> {
    var dot := IndexOf(header, DOT);
    if dot <= 0 || dot == |header| - 1 then None
    else
      match ParseUint(header[..dot])
      case None => None
      case Some(epoch) => Some(Token(epoch, header[dot + 1..]))
  }

  function Header(epoch: Uint64, nonce: seq<Byte>): seq<Byte> {
    Decimal(epoch) + [DOT] + nonce
  }

  /** The header `<epoch>.<nonce>` parses back to the same pair, unless the nonce is empty. */
  lemma HeaderRoundTrip(epoch: Uint64, nonce: seq<Byte>)
    ensures ParseToken(Header(epoch, nonce)) == if nonce == [] then None else Some(Token(epoch, nonce))
  {
    hide Decimal;
    DecimalParses(epoch);
    FirstDot(Decimal(epoch), nonce);
    var h, n := Header(epoch, nonce), |Decimal(epoch)|;
    assert h[..n] == Decimal(epoch) && h[n + 1..] == nonce;
  }

  lemma FirstDot(digits: seq<Byte>, rest: seq<Byte>)
    requires AllDigits(digits)
    ensures IndexOf(digits + [DOT] + rest, DOT) == |digits|
  {
    var h := digits + [DOT] + rest;
    assert h[|digits|] == DOT;
    assert forall j | 0 <= j < |digits| :: h[j] == digits[j] && IsDigit(h[j]);
  }

  predicate IsTokenOf(header: seq<Byte>, digits: seq<Byte>, token: Token) {
    && digits != [] && token.nonce != []
    && header == digits + [DOT] + token.nonce
    && AllDigits(digits) && NumberOf(digits) == token.epoch
  }

  /** The accepted headers are digits naming a 64-bit number, a dot, and anything nonempty. */
  lemma ParsedIff(header: seq<Byte>, token: Token)
    ensures ParseToken(header) == Some(token) <==> exists digits :: IsTokenOf(header, digits, token)
  {
    if ParseToken(header) == Some(token) {
      var dot := IndexOf(header, DOT);
      assert header == header[..dot] + [DOT] + header[dot + 1..];
      assert IsTokenOf(header, header[..dot], token);
    }
    forall digits | IsTokenOf(header, digits, token) ensures ParseToken(header) == Some(token) {
      FirstDot(digits, token.nonce);
      assert header[..|digits|] == digits && header[|digits| + 1..] == token.nonce;
    }
  }

  // ---------- the challenges and the verdict ----------

  function Before(cur: Uint64): Uint64 {
    if cur > 0 then cur - 1 else UINT64 - 1
  }

  function After(cur: Uint64): Uint64 {
    (cur + 1) % UINT64
  }

  /** What a lookup of `epoch` returns at the server epoch `cur`. */
  function Served(derive: Uint64 -> Challenge, epoch: Uint64, cur: Uint64): Option<Challenge> {
    if epoch == cur then Some(derive(cur))
    else if epoch == Before(cur) then Some(if cur > 0 then derive(cur - 1) else ZeroChallenge())
    else if epoch == After(cur) then Some(derive(After(cur)))
    else None
  }

  predicate WithinOne(epoch: Uint64, cur: Uint64) {
    -1 <= epoch - cur <= 1
  }

  /** Within one epoch the challenge served is the one derived for that epoch; beyond it there is none, but for
      the two ends of the 64-bit range, which count as neighbours. */
  lemma ServedIff(derive: Uint64 -> Challenge, epoch: Uint64, cur: Uint64)
    ensures WithinOne(epoch, cur) ==> Served(derive, epoch, cur) == Some(derive(epoch))
    ensures Served(derive, epoch, cur).Some? <==>
      WithinOne(epoch, cur) || (epoch == 0 && cur == UINT64 - 1) || (cur == 0 && epoch == UINT64 - 1)
    ensures cur == 0 && epoch == UINT64 - 1 ==> Served(derive, epoch, cur) == Some(ZeroChallenge())
  {
  }

  datatype Verdict = Accepted | InvalidFormat | ExpiredEpoch | Insufficient

  function Judge(derive: Uint64 -> Challenge, handle: seq<Byte>, header: seq<Byte>, cur: Uint64, required: Byte)
      : Outcome<Verdict>
  {
    match ParseToken(header)
    case None => Done(InvalidFormat)
    case Some(t) =>
      match Served(derive, t.epoch, cur)
      case None => Done(ExpiredEpoch)
      case Some(challenge) =>
        if CheckPanics(handle, t.epoch) then OutOfRange
        else if Accepts(handle, t.epoch, challenge, t.nonce, required)
             || Accepts(handle, t.epoch, ZeroChallenge(), t.nonce, required) then Done(Accepted)
        else Done(Insufficient)
  }

  // ---------- the verdict, told of the bytes ----------

  /** The header is digits that name the epoch, a dot and the nonce, which is not empty. */
  ghost predicate Carries(header: seq<Byte>, epoch: Uint64, nonce: seq<Byte>) {
    nonce != [] && exists digits ::
      digits != [] && header == digits + [46] + nonce && AllDigits(digits) && NumberOf(digits) == epoch
  }

  /** Within one epoch of the server's, or one of the pairs at the two ends of the 64-bit range. */
  predicate IsServed(epoch: Uint64, cur: Uint64) {
    || -1 <= epoch - cur <= 1
    || (epoch == 0 && cur == 0xffff_ffff_ffff_ffff)
    || (epoch == 0xffff_ffff_ffff_ffff && cur == 0)
  }

  /** Of the digest of at most 256 bytes of handle, epoch, challenge and nonce, the leading zero bits, modulo 256, are
      enough. */
  predicate Suffices(handle: seq<Byte>, epoch: Uint64, challenge: Challenge, nonce: seq<Byte>, required: Byte) {
    var message := handle + Decimal(epoch) + challenge + nonce;
    Leading(ByteBits(Sum256(if |message| <= 256 then message else message[..256]))) % 256 >= required
  }

  /** The challenge of the epoch, except that the last epoch has none before the first; or no challenge. */
  predicate SufficesFor(derive: Uint64 -> Challenge, handle: seq<Byte>, epoch: Uint64, nonce: seq<Byte>, cur: Uint64,
                        required: Byte) {
    || (-1 <= epoch - cur <= 1 && Suffices(handle, epoch, derive(epoch), nonce, required))
    || (epoch == 0 && cur == 0xffff_ffff_ffff_ffff && Suffices(handle, epoch, derive(0), nonce, required))
    || Suffices(handle, epoch, seq(32, i => 0), nonce, required)
  }

  ghost predicate TokenAccepted(derive: Uint64 -> Challenge, handle: seq<Byte>, header: seq<Byte>, cur: Uint64,
                                required: Byte) {
    exists epoch: Uint64, nonce ::
      && Carries(header, epoch, nonce) && IsServed(epoch, cur) && !(epoch == 0 && |handle| >= 256)
      && SufficesFor(derive, handle, epoch, nonce, cur, required)
  }

  ghost predicate TokenExpired(header: seq<Byte>, cur: Uint64) {
    exists epoch: Uint64, nonce :: Carries(header, epoch, nonce) && !IsServed(epoch, cur)
  }

  ghost predicate TokenMalformed(header: seq<Byte>) {
    forall epoch: Uint64, nonce :: !Carries(header, epoch, nonce)
  }

  ghost predicate TokenPanics(handle: seq<Byte>, header: seq<Byte>, cur: Uint64) {
    |handle| >= 256 && IsServed(0, cur) && exists nonce :: Carries(header, 0, nonce)
  }

  lemma CarriesIff(header: seq<Byte>, epoch: Uint64, nonce: seq<Byte>)
    ensures Carries(header, epoch, nonce) <==> ParseToken(header) == Some(Token(epoch, nonce))
  {
    hide ParseToken, NumberOf;
    ParsedIff(header, Token(epoch, nonce));
    if Carries(header, epoch, nonce) {
      var digits :| digits != [] && header == digits + [46] + nonce && AllDigits(digits) && NumberOf(digits) == epoch;
      assert IsTokenOf(header, digits, Token(epoch, nonce));
    }
    if digits :| IsTokenOf(header, digits, Token(epoch, nonce)) {
      assert header == digits + [46] + nonce;
    }
  }

  lemma SufficesIff(handle: seq<Byte>, epoch: Uint64, challenge: Challenge, nonce: seq<Byte>, required: Byte)
    ensures Suffices(handle, epoch, challenge, nonce, required) <==> Accepts(handle, epoch, challenge, nonce, required)
  {
    hide Decimal, Sum256, Leading, ByteBits;
  }

  /** Main result: a token is accepted exactly if it is well-formed, its epoch is served and its nonce suffices; each
      refusal has its own condition. */
  lemma VerdictIff(derive: Uint64 -> Challenge, handle: seq<Byte>, header: seq<Byte>, cur: Uint64, required: Byte)
    ensures var r := Judge(derive, handle, header, cur, required);
            && (r == Done(Accepted) <==> TokenAccepted(derive, handle, header, cur, required))
            && (r == Done(InvalidFormat) <==> TokenMalformed(header))
            && (r == Done(ExpiredEpoch) <==> TokenExpired(header, cur))
            && (r == OutOfRange <==> TokenPanics(handle, header, cur))
  {
    hide ParseToken, Carries, Accepts, Suffices;
    forall epoch: Uint64, nonce
      ensures Carries(header, epoch, nonce) <==> ParseToken(header) == Some(Token(epoch, nonce))
    {
      CarriesIff(header, epoch, nonce);
    }
    if ParseToken(header).Some? {
      var t := ParseToken(header).value;
      assert Carries(header, t.epoch, t.nonce);
      SufficesIff(handle, t.epoch, derive(t.epoch), t.nonce, required);
      SufficesIff(handle, t.epoch, ZeroChallenge(), t.nonce, required);
      ServedIff(derive, t.epoch, cur);
    }
  }

  class Engine {
    const derive: Uint64 -> Challenge
    var cachedEpoch: Uint64
    var cachedPrev: Challenge
    var cachedCurr: Challenge
    var cachedNext: Challenge

    /** The cached challenges are those of the cached epoch and its neighbours. */
    predicate Valid()
      reads this
    {
      && cachedPrev == (if cachedEpoch > 0 then derive(cachedEpoch - 1) else ZeroChallenge())
      && cachedCurr == derive(cachedEpoch)
      && cachedNext == derive(After(cachedEpoch))
    }

    constructor (derive: Uint64 -> Challenge, cur: Uint64)
      ensures Valid() && this.derive == derive && cachedEpoch == cur
    {
      this.derive := derive;
      cachedPrev, cachedCurr, cachedNext := ZeroChallenge(), ZeroChallenge(), ZeroChallenge();
      cachedEpoch := cur;
      new;
      RotateChallenges(cur);
    }

    method RotateChallenges(cur: Uint64)
      modifies this
      ensures Valid() && cachedEpoch == cur
    {
      cachedEpoch := cur;
      if cur > 0 {
        cachedPrev := derive(cur - 1);
      } else {
        cachedPrev := ZeroChallenge();
      }
      cachedCurr := derive(cur);
      cachedNext := derive(After(cur));
    }

    method EnsureEpoch(cur: Uint64)
      requires Valid()
      modifies this
      ensures Valid() && cachedEpoch == cur
    {
      if cachedEpoch != cur {
        RotateChallenges(cur);
      }
    }

    method GetChallenge(epoch: Uint64, cur: Uint64) returns (challenge: Option<Challenge>)
      requires Valid()
      modifies this
      ensures Valid() && challenge == Served(derive, epoch, cur)
    {
      EnsureEpoch(cur);
      if epoch == cur {
        challenge := Some(cachedCurr);
      } else if epoch == Before(cur) {
        challenge := Some(cachedPrev);
      } else if epoch == After(cur) {
        challenge := Some(cachedNext);
      } else {
        challenge := None;
      }
    }

    method Verify(handle: seq<Byte>, header: seq<Byte>, cur: Uint64, required: Byte) returns (r: Outcome<Verdict>)
      requires Valid()
      modifies this
      ensures Valid() && r == Judge(derive, handle, header, cur, required)
      ensures r == Done(Accepted) <==> TokenAccepted(derive, handle, header, cur, required)
      ensures r == Done(InvalidFormat) <==> TokenMalformed(header)
      ensures r == Done(ExpiredEpoch) <==> TokenExpired(header, cur)
      ensures r == OutOfRange <==> TokenPanics(handle, header, cur)
    {
      hide ParseToken, Served, Accepts, TokenAccepted, TokenMalformed, TokenExpired, TokenPanics;
      VerdictIff(derive, handle, header, cur, required);
      var token := ParseToken(header);
      if token.None? {
        return Done(InvalidFormat);
      }
      var t := token.value;
      var challenge := GetChallenge(t.epoch, cur);
      if challenge.None? {
        return Done(ExpiredEpoch);
      }
      var first := CheckPoW(handle, t.epoch, challenge.value, t.nonce, required);
      if first.OutOfRange? || first.value {
        return if first.OutOfRange? then OutOfRange else Done(Accepted);
      }
      var second := CheckPoW(handle, t.epoch, ZeroChallenge(), t.nonce, required);
      return if second.OutOfRange? then OutOfRange else if second.value then Done(Accepted) else Done(Insufficient);
    }
  }

  /** A solved token is accepted at every server epoch within one of its own, for every requirement up to the
      difficulty solved for, whether or not the message fits the buffer. */
  lemma SolvedTokenVerifies(derive: Uint64 -> Challenge, handle: seq<Byte>, epoch: Uint64, v: Uint64, target: Byte,
                            limit: Uint64, cur: Uint64, required: Byte)
    requires !SolvePanics(handle, epoch, limit)
    requires IsFirst(handle, epoch, derive(epoch), target, limit, v)
    requires WithinOne(epoch, cur) && required <= target
    ensures Judge(derive, handle, Header(epoch, Decimal(v)), cur, required) == Done(Accepted)
  {
    hide ParseToken, Served, Decimal, Sum256, CountUint8, Fit;
    HeaderRoundTrip(epoch, Decimal(v));
    ServedIff(derive, epoch, cur);
  }

  // ---------- what a verdict depends on ----------

  function Room(handle: seq<Byte>, epoch: Uint64): nat {
    var used := |handle| + |Decimal(epoch)| + 32;
    if used < BUFFER then BUFFER - used else 0
  }

  /** Of the nonce the check sees exactly the bytes that the prefix leaves room for. */
  lemma NonceSeenIff(handle: seq<Byte>, epoch: Uint64, challenge: Challenge, nonce: seq<Byte>, other: seq<Byte>)
    ensures Fit(Message(handle, epoch, challenge, nonce), BUFFER) ==
        Fit(Message(handle, epoch, challenge, other), BUFFER)
       <==> Fit(nonce, Room(handle, epoch)) == Fit(other, Room(handle, epoch))
  {
    hide Decimal;
    var prefix, room := Prefix(handle, epoch, challenge), Room(handle, epoch);
    FitTail(prefix, nonce, room);
    FitTail(prefix, other, room);
    if |prefix| < BUFFER {
      assert (prefix + Fit(nonce, room))[|prefix|..] == Fit(nonce, room);
      assert (prefix + Fit(other, room))[|prefix|..] == Fit(other, room);
    }
  }

  lemma FitTail(prefix: seq<Byte>, rest: seq<Byte>, room: nat)
    requires room == if |prefix| < BUFFER then BUFFER - |prefix| else 0
    ensures Fit(prefix + rest, BUFFER) == if |prefix| < BUFFER then prefix + Fit(rest, room) else prefix[..BUFFER]
  {
  }

  /** So behind a prefix that fills the buffer every nonempty nonce gets the same verdict. */
  lemma FullPrefixHidesNonce(derive: Uint64 -> Challenge, handle: seq<Byte>, epoch: Uint64, nonce: seq<Byte>,
                             other: seq<Byte>, cur: Uint64, required: Byte)
    requires nonce != [] && other != [] && |handle| + |Decimal(epoch)| + 32 >= BUFFER
    ensures Judge(derive, handle, Header(epoch, nonce), cur, required)
         == Judge(derive, handle, Header(epoch, other), cur, required)
  {
    hide ParseToken, Decimal, Message, Sum256, CountUint8, Header, CheckPanics;
    HeaderRoundTrip(epoch, nonce);
    HeaderRoundTrip(epoch, other);
    forall challenge: Challenge
      ensures Fit(Message(handle, epoch, challenge, nonce), BUFFER) ==
          Fit(Message(handle, epoch, challenge, other), BUFFER)
    {
      NonceSeenIff(handle, epoch, challenge, nonce, other);
    }
  }

  /** The verdict depends on the derived challenges only through the one served, and not at all for a nonce that
      meets the requirement against the all-zero challenge: that one is accepted under every derivation. */
  lemma VerdictDependsOnServed(derive: Uint64 -> Challenge, derive': Uint64 -> Challenge, handle: seq<Byte>,
                               epoch: Uint64, nonce: seq<Byte>, cur: Uint64, required: Byte)
    requires nonce != [] && WithinOne(epoch, cur)
    ensures derive(epoch) == derive'(epoch) ==>
      Judge(derive, handle, Header(epoch, nonce), cur, required) ==
          Judge(derive', handle, Header(epoch, nonce), cur, required)
    ensures !CheckPanics(handle, epoch) && Accepts(handle, epoch, ZeroChallenge(), nonce, required) ==>
      Judge(derive, handle, Header(epoch, nonce), cur, required) == Done(Accepted)
  {
    hide ParseToken, Served, Accepts, Header, CheckPanics;
    HeaderRoundTrip(epoch, nonce);
    ServedIff(derive, epoch, cur);
    ServedIff(derive', epoch, cur);
  }

  // ---------- the browser's solver and the server's check ----------

  predicate WebAccepts(handle: seq<Byte>, epoch: Uint64, challenge: Challenge, nonce: seq<Byte>, target: nat) {
    Leading(ByteBits(Sha256Grinder.Digest(Message(handle, epoch, challenge, nonce)))) >= target
  }

  predicate IsWebFirst(handle: seq<Byte>, epoch: Uint64, challenge: Challenge, target: nat, limit: Uint64, v: Uint64) {
    && v < limit
    && WebAccepts(handle, epoch, challenge, Decimal(v), target)
    && forall u: Uint64 | u < v :: !WebAccepts(handle, epoch, challenge, Decimal(u), target)
  }

  /** The browser's solver, which sizes its buffer to the message. */
  method SolvePoWSync(handle: seq<Byte>, epoch: Uint64, challenge: Challenge, target: nat, limit: Uint64)
      returns (r: Option<seq<Byte>>)
    ensures r.Some? ==>
      exists v: Uint64 :: IsWebFirst(handle, epoch, challenge, target, limit, v) && r.value == Decimal(v)
    ensures r.None? ==>
      forall v: Uint64 | v < limit :: !WebAccepts(handle, epoch, challenge, Decimal(v), target)
  {
    hide Decimal, Sha256Grinder.Digest, Leading, ByteBits;
    var prefix := Prefix(handle, epoch, challenge);
    var buf := new Byte[|prefix| + 20](i => 0);
    forall i | 0 <= i < |prefix| { buf[i] := prefix[i]; }
    assert buf[..|prefix|] == prefix;
    var nonce: Uint64 := 0;
    while nonce < limit
      invariant nonce <= limit && buf[..|prefix|] == prefix
      invariant forall u: Uint64 | u < nonce :: !WebAccepts(handle, epoch, challenge, Decimal(u), target)
    {
      var d := Decimal(nonce);
      Uint64Fits(nonce);
      DecimalLength(nonce, 20);
      forall i | 0 <= i < |d| { buf[|prefix| + i] := d[i]; }
      assert buf[..|prefix| + |d|] == prefix + d;
      assert buf[..|prefix|] == prefix;
      var digest := Sha256Grinder.Hash(buf[..|prefix| + |d|]);
      var zeros := CountLeadingZeroBits(digest[..]);
      if zeros >= target {
        assert IsWebFirst(handle, epoch, challenge, target, limit, nonce);
        return Some(d);
      }
      nonce := nonce + 1;
    }
    r := None;
  }

  /** On a message that fits the server's buffer, both sides decide alike, except that a digest of 32 zero bytes
      meets every target in the browser and only the target 0 at the server. */
  lemma SidesAgreeIff(handle: seq<Byte>, epoch: Uint64, challenge: Challenge, nonce: seq<Byte>, target: Byte)
    requires |Message(handle, epoch, challenge, nonce)| <= BUFFER
    ensures Accepts(handle, epoch, challenge, nonce, target) == WebAccepts(handle, epoch, challenge, nonce, target)
      <==> target == 0 || !AllZero(Sum256(Message(handle, epoch, challenge, nonce)))
  {
    hide Message, Sum256, Sha256Grinder.Digest, CountUint8, Leading, ByteBits, AllZero;
    GrinderIsSum256(Message(handle, epoch, challenge, nonce));
    CountersAgreeIff(Sum256(Message(handle, epoch, challenge, nonce)));
  }

  /** So a token solved in the browser is accepted by the server, if it fits and its digest is not all zero. */
  lemma WebTokenVerifies(derive: Uint64 -> Challenge, handle: seq<Byte>, epoch: Uint64, v: Uint64, target: Byte,
                         limit: Uint64, cur: Uint64, required: Byte)
    requires IsWebFirst(handle, epoch, derive(epoch), target, limit, v)
    requires |Message(handle, epoch, derive(epoch), Decimal(v))| <= BUFFER
    requires !AllZero(Sum256(Message(handle, epoch, derive(epoch), Decimal(v))))
    requires WithinOne(epoch, cur) && required <= target
    ensures Judge(derive, handle, Header(epoch, Decimal(v)), cur, required) == Done(Accepted)
  {
    hide ParseToken, Served, Decimal, Sum256, CountUint8, Fit, WebAccepts, AllZero;
    HeaderRoundTrip(epoch, Decimal(v));
    ServedIff(derive, epoch, cur);
    SidesAgreeIff(handle, epoch, derive(epoch), Decimal(v), target);
  }
}
