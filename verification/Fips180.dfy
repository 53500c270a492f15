/** SHA-256 as FIPS 180-4 defines it, over bit strings. */
module Fips180 {
  import opened Bits
  import opened BitStrings
  import opened Words
  import opened Sha256Constants

  // ---------- section 4.1.2 of FIPS 180-4 ----------

  function Ch(x: Word, y: Word, z: Word): Word {
    XorWords(And(x, y), And(Not(x), z))
  }

  function Maj(x: Word, y: Word, z: Word): Word {
    XorWords(XorWords(And(x, y), And(x, z)), And(y, z))
  }

  function Sum0(x: Word): Word {
    XorWords(XorWords(Rotr(x, 2), Rotr(x, 13)), Rotr(x, 22))
  }

  function Sum1(x: Word): Word {
    XorWords(XorWords(Rotr(x, 6), Rotr(x, 11)), Rotr(x, 25))
  }

  function Sigma0(x: Word): Word {
    XorWords(XorWords(Rotr(x, 7), Rotr(x, 18)), Words.ShiftRight(x, 3))
  }

  function Sigma1(x: Word): Word {
    XorWords(XorWords(Rotr(x, 17), Rotr(x, 19)), Words.ShiftRight(x, 10))
  }

  // ---------- section 5: padding and parsing ----------

  /** The least `k` with `l + 1 + k` congruent to 448 modulo 512. */
  function PadCount(l: nat): (k: nat)
    ensures k < 512 && (l + 1 + k) % 512 == 448
  {
    (447 - l) % 512
  }

  function FipsPadded(message: seq<bool>): (bits: seq<bool>)
    ensures |bits| % 512 == 0 && |bits| > 0
  {
    message + [true] + Falses(PadCount(|message|)) + BitsOf(|message|, 64)
  }

  function WordAt(bits: seq<bool>, k: nat): Word
    requires k + 32 <= |bits|
  {
    Pow2Is32();
    Value(bits[k..k + 32])
  }

  /** Block `i` as sixteen words. */
  function Block(bits: seq<bool>, i: nat): (m: seq<Word>)
    requires 512 * i + 512 <= |bits|
    ensures |m| == 16
  {
    seq(16, j requires 0 <= j < 16 => WordAt(bits, 512 * i + 32 * j))
  }

  // ---------- section 6.2.2 ----------

  function W(m: seq<Word>, t: nat): Word
    requires |m| == 16
  {
    if t < 16 then m[t]
    else Plus(Plus(Plus(Sigma1(W(m, t - 2)), W(m, t - 7)), Sigma0(W(m, t - 15))), W(m, t - 16))
  }

  datatype Registers = Registers(a: Word, b: Word, c: Word, d: Word, e: Word, f: Word, g: Word, h: Word)

  function Temp1(r: Registers, k: Word, w: Word): Word {
    Plus(Plus(Plus(Plus(r.h, Sum1(r.e)), Ch(r.e, r.f, r.g)), k), w)
  }

  function Temp2(r: Registers): Word {
    Plus(Sum0(r.a), Maj(r.a, r.b, r.c))
  }

  function Round(r: Registers, k: Word, w: Word): Registers {
    var temp1 := Temp1(r, k, w);
    Registers(Plus(temp1, Temp2(r)), r.a, r.b, r.c, Plus(r.d, temp1), r.e, r.f, r.g)
  }

  function Rounds(r: Registers, m: seq<Word>, t: nat): Registers
    requires |m| == 16 && t <= 64
  {
    if t == 0 then r else Round(Rounds(r, m, t - 1), K(t - 1), W(m, t - 1))
  }

  function AddRegisters(x: Registers, y: Registers): Registers {
    Registers(Plus(x.a, y.a), Plus(x.b, y.b), Plus(x.c, y.c), Plus(x.d, y.d),
              Plus(x.e, y.e), Plus(x.f, y.f), Plus(x.g, y.g), Plus(x.h, y.h))
  }

  function Compress(r: Registers, m: seq<Word>): Registers
    requires |m| == 16
  {
    AddRegisters(r, Rounds(r, m, 64))
  }

  function Start(): Registers {
    var h := Initial();
    Registers(h[0], h[1], h[2], h[3], h[4], h[5], h[6], h[7])
  }

  /** The intermediate hash value after `n` blocks. */
  function Chain(bits: seq<bool>, n: nat): Registers
    requires 512 * n <= |bits|
  {
    if n == 0 then Start() else Compress(Chain(bits, n - 1), Block(bits, n - 1))
  }

  function DigestBits(r: Registers): (bits: seq<bool>)
    ensures |bits| == 256
  {
    BitsOf(r.a, 32) + BitsOf(r.b, 32) + BitsOf(r.c, 32) + BitsOf(r.d, 32)
    + BitsOf(r.e, 32) + BitsOf(r.f, 32) + BitsOf(r.g, 32) + BitsOf(r.h, 32)
  }

  function HashPadded(bits: seq<bool>): (digest: seq<bool>)
    requires |bits| % 512 == 0
    ensures |digest| == 256
  {
    DigestBits(Chain(bits, |bits| / 512))
  }

  /** SHA-256 of a bit string. */
  function Sha256(message: seq<bool>): (digest: seq<bool>)
    ensures |digest| == 256
  {
    HashPadded(FipsPadded(message))
  }

  // ---------- the bits of the logical functions ----------

  lemma {:induction false} BitOfXor(x: nat, y: nat, i: nat)
    ensures Bit(Xor(x, y), i) == (Bit(x, i) != Bit(y, i))
  {
    XorUnfold(x, y);
    if i > 0 { BitOfXor(x / 2, y / 2, i - 1); }
  }

  lemma AndUnfold(x: nat, y: nat)
    ensures And(x, y) == 2 * And(x / 2, y / 2) + (if x % 2 == 1 && y % 2 == 1 then 1 else 0)
  {
  }

  lemma {:induction false} BitOfAnd(x: nat, y: nat, i: nat)
    ensures Bit(And(x, y), i) == (Bit(x, i) && Bit(y, i))
  {
    AndUnfold(x, y);
    if i > 0 { BitOfAnd(x / 2, y / 2, i - 1); }
  }

  lemma {:induction false} BitOfComplement(x: nat, n: nat, i: nat)
    requires x < Pow2(n) && i < n
    ensures Bit(Pow2(n) - 1 - x, i) == !Bit(x, i)
  {
    HalfComplement(Pow2(n - 1), x);
    if i > 0 { BitOfComplement(x / 2, n - 1, i - 1); }
  }

  lemma HalfComplement(p: nat, x: nat)
    requires x < 2 * p
    ensures x / 2 < p
    ensures (2 * p - 1 - x) / 2 == p - 1 - x / 2
    ensures (2 * p - 1 - x) % 2 == 1 - x % 2
  {
  }

  /** `Ch` takes each bit of `y` where `x` has a 1 and of `z` where it has a 0. */
  lemma ChSelects(x: Word, y: Word, z: Word, i: nat)
    requires i < 32
    ensures Bit(Ch(x, y, z), i) == if Bit(x, i) then Bit(y, i) else Bit(z, i)
  {
    hide Xor, And, Bit;
    Pow2Is32();
    BitOfXor(And(x, y), And(Not(x), z), i);
    BitOfAnd(x, y, i);
    BitOfAnd(Not(x), z, i);
    BitOfComplement(x, 32, i);
  }

  /** Each bit of `Maj` is the majority of the three. */
  lemma MajVotes(x: Word, y: Word, z: Word, i: nat)
    ensures Bit(Maj(x, y, z), i) ==
            ((Bit(x, i) && Bit(y, i)) || (Bit(x, i) && Bit(z, i)) || (Bit(y, i) && Bit(z, i)))
  {
    hide Xor, And, Bit;
    BitOfXor(XorWords(And(x, y), And(x, z)), And(y, z), i);
    BitOfXor(And(x, y), And(x, z), i);
    BitOfAnd(x, y, i);
    BitOfAnd(x, z, i);
    BitOfAnd(y, z, i);
  }

  lemma {:induction false} BitOfSum(h: nat, l: nat, q: nat, i: nat)
    requires h < Pow2(q)
    ensures Bit(h + l * Pow2(q), i) == if i < q then Bit(h, i) else Bit(l, i - q)
  {
    if q > 0 {
      Reassociate(Pow2(q - 1), l);
      var b := l * Pow2(q - 1);
      assert l * Pow2(q) == 2 * b;
      if i > 0 { BitOfSum(h / 2, l, q - 1, i - 1); }
    }
  }

  /** `ROTR` moves bit `i + n` to bit `i`, around the word. */
  lemma RotrMoves(x: Word, n: nat, i: nat)
    requires 0 < n < 32 && i < 32
    ensures Bit(Rotr(x, n), i) == Bit(x, (i + n) % 32)
  {
    hide Pow2, Bit;
    var p, q := Pow2(n), Pow2(32 - n);
    Pow2Splits(n);
    HalvesOf(x, p, q);
    var h, l := x / p, x % p;
    BitOfSum(h, l, 32 - n, i);
    Around(i, n);
    if i < 32 - n {
      BitOfSum(l, h, n, i + n);
    } else {
      BitOfSum(l, h, n, i + n - 32);
    }
  }

  lemma Around(i: nat, n: nat)
    requires i < 32 && n < 32
    ensures (i + n) % 32 == if i < 32 - n then i + n else i + n - 32
  {
  }

  lemma HalvesOf(x: nat, p: nat, q: nat)
    requires p > 0 && x < p * q
    ensures x / p < q && x % p < p && x == x % p + (x / p) * p
  {
    QuotientBound(x, p, q);
    Quotient(x, p);
  }
}
