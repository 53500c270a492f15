/** Arithmetic in GF(256) as the QR encoder uses it (web/app/src/qr.ts:7-27): bytes are polynomials
    over GF(2) of degree below 8, multiplied modulo x^8 + x^4 + x^3 + x^2 + 1. */
module Gf256 {
  import opened Bits
  import GeneratorPowers

  const MODULUS: nat := 0x11d

  // ---------- the reference: carry-less product and remainder ----------

  /** The product of two polynomials over GF(2), without any reduction. */
  function CarrylessProduct(x: nat, y: nat): nat
    decreases y
  {
    if y == 0 then 0 else Xor(2 * CarrylessProduct(x, y / 2), LowTerm(x, y))
  }

  /** `x` if the lowest coefficient of `y` is set, else 0. */
  function LowTerm(x: nat, y: nat): nat {
    if y % 2 == 0 then 0 else x
  }

  /** `r` is the remainder of `p` on division by the modulus. */
  ghost predicate IsRemainder(p: nat, r: nat) {
    r < 256 && exists q: nat :: p == Xor(CarrylessProduct(MODULUS, q), r)
  }

  // ---------- multiplication ----------

  /** Multiplication by the polynomial x. */
  function Double(x: Byte): Byte {
    if x < 128 then 2 * x else
      assert Pow2(8) == 256 && Pow2(9) == 512;
      XorTopBit(2 * x, MODULUS, 8);
      Xor(2 * x, MODULUS)
  }

  /** Multiplication, by Horner's rule over the coefficients of `y`. */
  function Mul(x: Byte, y: Byte): Byte
    decreases y
  {
    if y == 0 then 0 else XorBytes(Double(Mul(x, y / 2)), LowTerm(x, y))
  }

  lemma DoubleAdds(x: Byte, y: Byte)
    ensures Double(XorBytes(x, y)) == Xor(Double(x), Double(y))
  {
    assert Pow2(7) == 128;
    XorTopBit(x, y, 7);
    XorDoubles(x, y);
    var m := MODULUS;
    var x2, y2 := 2 * x, 2 * y;
    XorAssociates(x2, y2, m);
    XorCommutes(y2, m);
    XorAssociates(x2, m, y2);
    XorSwap(x2, m, y2, m);
    XorSelf(m);
  }

  lemma MulUnfold(x: Byte, y: Byte)
    ensures Mul(x, y) == Xor(Double(Mul(x, y / 2)), LowTerm(x, y))
  {
  }

  lemma {:induction false} MulAddsLeft(x: Byte, y: Byte, z: Byte)
    ensures Mul(XorBytes(x, y), z) == Xor(Mul(x, z), Mul(y, z))
    decreases z
  {
    if z != 0 {
      MulAddsLeft(x, y, z / 2);
      DoubleAdds(Mul(x, z / 2), Mul(y, z / 2));
      XorSwap(Double(Mul(x, z / 2)), Double(Mul(y, z / 2)), LowTerm(x, z), LowTerm(y, z));
    }
  }

  lemma LowTermAdds(x: nat, y: nat, z: nat)
    ensures LowTerm(x, Xor(y, z)) == Xor(LowTerm(x, y), LowTerm(x, z))
  {
    XorUnfold(y, z);
    XorSelf(x);
  }

  lemma {:induction false} MulAddsRight(x: Byte, y: Byte, z: Byte)
    ensures Mul(x, XorBytes(y, z)) == Xor(Mul(x, y), Mul(x, z))
    decreases y + z
  {
    if y + z != 0 {
      MulAddsRight(x, y / 2, z / 2);
      var my, mz := Mul(x, y / 2), Mul(x, z / 2);
      calc {
        Mul(x, XorBytes(y, z));
        { MulUnfold(x, XorBytes(y, z)); XorUnfold(y, z); LowTermAdds(x, y, z); }
        Xor(Double(XorBytes(my, mz)), Xor(LowTerm(x, y), LowTerm(x, z)));
        { DoubleAdds(my, mz); XorSwap(Double(my), Double(mz), LowTerm(x, y), LowTerm(x, z)); }
        Xor(Xor(Double(my), LowTerm(x, y)), Xor(Double(mz), LowTerm(x, z)));
        { MulUnfold(x, y); MulUnfold(x, z); }
        Xor(Mul(x, y), Mul(x, z));
      }
    }
  }

  lemma {:induction false} MulDoubleLeft(x: Byte, y: Byte)
    ensures Mul(Double(x), y) == Double(Mul(x, y))
    decreases y
  {
    if y != 0 {
      MulDoubleLeft(x, y / 2);
      DoubleAdds(Double(Mul(x, y / 2)), LowTerm(x, y));
    }
  }

  lemma {:induction false} MulZero(x: Byte)
    ensures Mul(0, x) == 0
    decreases x
  {
    if x != 0 { MulZero(x / 2); }
  }

  lemma HalfDoubles(x: Byte)
    ensures x == Xor(Double(x / 2), LowTerm(1, x))
  {
    XorUnfold(2 * (x / 2), LowTerm(1, x));
  }

  lemma {:induction false} MulOne(x: Byte)
    ensures Mul(x, 1) == x
    ensures Mul(1, x) == x
    decreases x
  {
    if x != 0 {
      MulOne(x / 2);
      HalfDoubles(x);
    }
    MulUnfold(x, 1);
  }

  lemma {:induction false} MulCommutes(x: Byte, y: Byte)
    ensures Mul(x, y) == Mul(y, x)
    decreases y
  {
    MulZero(x);
    if y != 0 {
      MulCommutes(x, y / 2);
      MulDoubleLeft(y / 2, x);
      MulOne(x);
      MulAddsLeft(Double(y / 2), LowTerm(1, y), x);
      HalfDoubles(y);
    }
  }

  lemma MulDoubleRight(x: Byte, y: Byte)
    ensures Mul(x, Double(y)) == Double(Mul(x, y))
  {
    MulCommutes(x, Double(y));
    MulDoubleLeft(y, x);
    MulCommutes(y, x);
  }

  lemma {:induction false} MulAssociates(x: Byte, y: Byte, z: Byte)
    ensures Mul(Mul(x, y), z) == Mul(x, Mul(y, z))
    decreases z
  {
    if z != 0 {
      MulAssociates(x, y, z / 2);
      MulDoubleRight(x, Mul(y, z / 2));
      MulAddsRight(x, Double(Mul(y, z / 2)), LowTerm(y, z));
    }
  }

  // ---------- Mul is the product modulo 0x11d ----------

  lemma {:induction false} CarrylessAdds(x: nat, y: nat, z: nat)
    ensures CarrylessProduct(x, Xor(y, z)) == Xor(CarrylessProduct(x, y), CarrylessProduct(x, z))
    decreases y + z
  {
    if y + z != 0 {
      XorUnfold(y, z);
      CarrylessAdds(x, y / 2, z / 2);
      var cy, cz := CarrylessProduct(x, y / 2), CarrylessProduct(x, z / 2);
      LowTermAdds(x, y, z);
      XorDoubles(cy, cz);
      XorSwap(2 * cy, 2 * cz, LowTerm(x, y), LowTerm(x, z));
      CarrylessUnfold(x, y);
      CarrylessUnfold(x, z);
      CarrylessUnfold(x, Xor(y, z));
    }
  }

  lemma CarrylessUnfold(x: nat, y: nat)
    ensures CarrylessProduct(x, y) == Xor(2 * CarrylessProduct(x, y / 2), LowTerm(x, y))
  {
  }

  lemma {:induction false} MultiplesAreLong(q: nat)
    requires q > 0
    ensures CarrylessProduct(MODULUS, q) >= 256
  {
    assert Pow2(8) == 256 && Pow2(9) == 512;
    if q > 1 {
      MultiplesAreLong(q / 2);
      XorStaysLarge(2 * CarrylessProduct(MODULUS, q / 2), LowTerm(MODULUS, q), 9);
    }
  }

  lemma RemainderIsUnique(p: nat, r: nat, s: nat)
    requires IsRemainder(p, r) && IsRemainder(p, s)
    ensures r == s
  {
    var q: nat :| p == Xor(CarrylessProduct(MODULUS, q), r);
    var t: nat :| p == Xor(CarrylessProduct(MODULUS, t), s);
    var cq, ct := CarrylessProduct(MODULUS, q), CarrylessProduct(MODULUS, t);
    XorSwap(cq, r, ct, s);
    XorSelf(p);
    XorCancels(Xor(cq, ct), Xor(r, s));
    CarrylessAdds(MODULUS, q, t);
    assert Xor(r, s) == XorBytes(r, s) < 256;
    if Xor(q, t) > 0 { MultiplesAreLong(Xor(q, t)); }
    XorCancels(q, t);
    XorSelf(cq);
    XorCancels(r, s);
  }

  lemma DoubleReduces(x: Byte)
    ensures 2 * x == Xor(LowTerm(MODULUS, x / 128), Double(x))
  {
    if x >= 128 {
      XorCommutes(2 * x, MODULUS);
      XorCancels(MODULUS, 2 * x);
    }
  }

  /** One Horner step: doubling and adding keep a remainder a remainder. */
  lemma RemainderStep(q: nat, r: Byte, low: Byte)
    ensures Xor(2 * Xor(CarrylessProduct(MODULUS, q), r), low)
         == Xor(CarrylessProduct(MODULUS, 2 * q + r / 128), Xor(Double(r), low))
  {
    hide Xor, CarrylessProduct;
    var cq, top, m := CarrylessProduct(MODULUS, q), LowTerm(MODULUS, r / 128), 2 * q + r / 128;
    XorDoubles(cq, r);
    DoubleReduces(r);
    XorAssociates(2 * cq, top, Double(r));
    XorAssociates(Xor(2 * cq, top), Double(r), low);
    CarrylessUnfold(MODULUS, m);
    assert m / 2 == q && m % 2 == r / 128;
  }

  lemma {:induction false} MulIsRemainder(x: Byte, y: Byte)
    ensures IsRemainder(CarrylessProduct(x, y), Mul(x, y))
    decreases y
  {
    if y == 0 {
      assert 0 == Xor(CarrylessProduct(MODULUS, 0), 0);
    } else {
      MulIsRemainder(x, y / 2);
      MulUnfold(x, y);
      CarrylessUnfold(x, y);
      hide Xor, CarrylessProduct, Mul, Double;
      var r := Mul(x, y / 2);
      var q: nat :| CarrylessProduct(x, y / 2) == Xor(CarrylessProduct(MODULUS, q), r);
      RemainderStep(q, r, LowTerm(x, y));
    }
  }

  /** Main result: `Mul` is polynomial multiplication modulo 0x11d, and nothing else is. */
  lemma MulIsProductModulo(x: Byte, y: Byte, r: nat)
    ensures r == Mul(x, y) <==> IsRemainder(CarrylessProduct(x, y), r)
  {
    MulIsRemainder(x, y);
    if IsRemainder(CarrylessProduct(x, y), r) {
      RemainderIsUnique(CarrylessProduct(x, y), r, Mul(x, y));
    }
  }

  // ---------- powers of the generator ----------

  /** The generator 2 (the polynomial x) to the power `n`. */
  function Power(n: nat): Byte {
    if n == 0 then 1 else Double(Power(n - 1))
  }

  lemma {:induction false} PowerAdds(m: nat, n: nat)
    ensures Power(m + n) == Mul(Power(m), Power(n))
  {
    if n == 0 {
      MulOne(Power(m));
    } else {
      PowerAdds(m, n - 1);
      MulDoubleRight(Power(m), Power(n - 1));
    }
  }

  lemma {:induction false} PowerOfPower(k: nat, m: nat)
    requires Power(k) == 1
    ensures Power(k * m) == 1
  {
    if m > 0 {
      PowerOfPower(k, m - 1);
      PowerAdds(k * (m - 1), k);
      MulOne(1);
      assert k * m == k * (m - 1) + k;
    }
  }

  // `Double` without exclusive or, for computing with concrete bytes.

  lemma XorEight(h: nat)
    requires 8 <= h < 16
    ensures Xor(h, 8) == h - 8
  {
    hide Xor;
    XorUnfold(h, 8); XorUnfold(h / 2, 4); XorUnfold(h / 4, 2);
    XorSelf(1);
  }

  lemma XorStep(a: nat, b: nat, x: nat, y: nat)
    requires x < 2 && y < 2
    ensures Xor(2 * a + x, 2 * b + y) == 2 * Xor(a, b) + (if x == y then 0 else 1)
  {
    XorUnfold(2 * a + x, 2 * b + y);
  }

  lemma Remainder16(h: nat, r: nat)
    requires r < 16
    ensures (16 * h + r) % 16 == r
  {
  }

  lemma FlatDoubleIsDouble(x: Byte)
    ensures Double(x) == GeneratorPowers.FlatDouble(x)
  {
    hide Xor;
    if x >= 128 {
      var x1 := x / 2; var x2 := x1 / 2; var x3 := x2 / 2; var x4 := x3 / 2;
      XorEight(x4);
      XorStep(x4, 8, x3 % 2, 1);
      XorStep(x3, 17, x2 % 2, 1);
      XorStep(x2, 35, x1 % 2, 1);
      XorStep(x1, 71, x % 2, 0);
      XorStep(x, 142, 0, 1);
      Remainder16(x4, 8 * (x3 % 2) + 4 * (x2 % 2) + 2 * (x1 % 2) + x % 2);
    }
  }

  lemma {:induction false} FlatPowerIsPower(n: nat)
    ensures Power(n) == GeneratorPowers.FlatPower(n)
  {
    if n > 0 {
      FlatPowerIsPower(n - 1);
      FlatDoubleIsDouble(Power(n - 1));
    }
  }

  lemma SomePowers()
    ensures Power(17) == 152 && Power(51) == 10 && Power(85) == 214 && Power(255) == 1
  {
    GeneratorPowers.Power17(); GeneratorPowers.Power51(); GeneratorPowers.Power102(); GeneratorPowers.Power255();
    FlatPowerIsPower(17); FlatPowerIsPower(51); FlatPowerIsPower(85); FlatPowerIsPower(255);
  }

  lemma Inverse3(r: nat) returns (s: nat, u: nat)
    requires 0 < r < 3
    ensures r * s == 3 * u + 1
  {
    s, u := if r == 1 then 1 else 2, if r == 1 then 0 else 1;
  }

  lemma Inverse5(r: nat) returns (s: nat, u: nat)
    requires 0 < r < 5
    ensures r * s == 5 * u + 1
  {
    match r
    case 1 => s, u := 1, 0; case 2 => s, u := 3, 1; case 3 => s, u := 2, 1; case 4 => s, u := 4, 3;
  }

  lemma Inverse17(r: nat) returns (s: nat, u: nat)
    requires 0 < r < 17
    ensures r * s == 17 * u + 1
  {
    match r
    case 1 => s, u := 1, 0; case 2 => s, u := 9, 1; case 3 => s, u := 6, 1; case 4 => s, u := 13, 3;
    case 5 => s, u := 7, 2; case 6 => s, u := 3, 1; case 7 => s, u := 5, 2; case 8 => s, u := 15, 7;
    case 9 => s, u := 2, 1; case 10 => s, u := 12, 7; case 11 => s, u := 14, 9; case 12 => s, u := 10, 7;
    case 13 => s, u := 4, 3; case 14 => s, u := 11, 9; case 15 => s, u := 8, 7; case 16 => s, u := 16, 15;
  }

  lemma MultipleOfRemainder(k: nat, p: nat, c: nat, s: nat, u: nat) returns (t: nat)
    requires p > 0 && (k % p) * s == p * u + 1 && c * p == 255
    ensures k * (s * c) == 255 * t + c
  {
    t := (k / p) * s + u;
    calc {
      k * (s * c);
      { assert k == p * (k / p) + k % p; }
      (p * (k / p) + k % p) * (s * c);
      ((c * p) * ((k / p) * s)) + ((k % p) * s) * c;
      255 * ((k / p) * s) + (p * u + 1) * c;
      255 * t + c;
    }
  }

  /** If `p * c` is 255 and `p` does not divide `k`, the order of the generator does not divide `k`:
      some multiple of `k` is `c` modulo 255. */
  lemma NotTheOrder(k: nat, p: nat, c: nat, s: nat, u: nat)
    requires p > 0 && (k % p) * s == p * u + 1 && c * p == 255
    requires Power(c) != 1 && Power(255) == 1
    ensures Power(k) != 1
  {
    hide Power, Mul;
    if Power(k) == 1 {
      var t := MultipleOfRemainder(k, p, c, s, u);
      PowerOfPower(k, s * c);
      PowerOfPower(255, t);
      PowerAdds(255 * t, c);
      MulOne(Power(c));
    }
  }

  lemma NotFifteen()
    ensures Power(15) != 1
  {
    SomePowers();
    hide Xor, Mul;
    assert Power(17) == Double(Double(Power(15)));
  }

  lemma NotDivisibleByAll(k: nat)
    requires 0 < k < 255 && k % 3 == 0 && k % 5 == 0
    ensures k % 17 != 0
  {
    var a, b, c := k / 3, k / 5, k / 17;
    assert k == 3 * a && k == 5 * b && k == 17 * c + k % 17;
  }

  /** The generator has order exactly 255. */
  lemma GeneratorOrder(k: nat)
    requires 0 < k < 255
    ensures Power(k) != 1
  {
    hide Power, Double, Mul, Xor;
    SomePowers();
    NotFifteen();
    if k % 3 != 0 {
      var s, u := Inverse3(k % 3);
      NotTheOrder(k, 3, 85, s, u);
    } else if k % 5 != 0 {
      var s, u := Inverse5(k % 5);
      NotTheOrder(k, 5, 51, s, u);
    } else {
      NotDivisibleByAll(k);
      var s, u := Inverse17(k % 17);
      NotTheOrder(k, 17, 15, s, u);
    }
  }

  lemma {:induction false} PowerIsNotZero(n: nat)
    ensures Power(n) != 0
  {
    if n > 0 {
      PowerIsNotZero(n - 1);
      XorCancels(2 * Power(n - 1), MODULUS);
    }
  }

  lemma PowerRepeats(n: nat)
    ensures Power(n + 255) == Power(n)
  {
    SomePowers();
    PowerAdds(n, 255);
    MulOne(Power(n));
  }

  lemma PowersDiffer(i: nat, j: nat)
    requires i < j < 255
    ensures Power(i) != Power(j)
  {
    hide Power, Mul;
    if Power(i) == Power(j) {
      SomePowers();
      PowerAdds(i, 255 - i);
      PowerAdds(j, 255 - i);
      PowerAdds(j - i, 255);
      MulOne(Power(j - i));
      GeneratorOrder(j - i);
    }
  }

  function Powers(n: nat): (s: seq<nat>)
    ensures |s| == n && forall i | 0 <= i < n :: s[i] == Power(i)
  {
    if n == 0 then [] else Powers(n - 1) + [Power(n - 1)]
  }

  /** Every nonzero byte is one of the first 255 powers of the generator. */
  lemma LogExists(x: Byte) returns (i: nat)
    requires x != 0
    ensures i < 255 && Power(i) == x
  {
    hide Power;
    var s := Powers(255);
    forall i, j | 0 <= i < j < 255 ensures s[i] != s[j] { PowersDiffer(i, j); }
    forall i | 0 <= i < 255 ensures 1 <= s[i] <= 255 { PowerIsNotZero(i); }
    Pigeonhole(s, 255, x);
    i :| 0 <= i < 255 && s[i] == x;
  }

  lemma NoZeroDivisors(x: Byte, y: Byte)
    ensures Mul(x, y) == 0 <==> x == 0 || y == 0
  {
    hide Power, Mul;
    MulZero(x);
    MulZero(y);
    MulCommutes(x, 0);
    if x != 0 && y != 0 {
      var i := LogExists(x);
      var j := LogExists(y);
      PowerAdds(i, j);
      PowerIsNotZero(i + j);
    }
  }

  // ---------- the tables ----------

  /** The exponent and logarithm tables, filled in place when the encoder is loaded. */
  class Tables {
    const exp: array<Byte>
    const log: array<Byte>

    ghost predicate Valid()
      reads exp, log
    {
      exp.Length == 512 && log.Length == 256 &&
      (forall i | 0 <= i < 510 :: exp[i] == Power(i)) &&
      (forall x: Byte | x != 0 :: log[x] < 255 && Power(log[x]) == x)
    }

    constructor ()
      ensures Valid() && fresh(exp) && fresh(log)
    {
      exp := new Byte[512](i => 0);
      log := new Byte[256](i => 0);
      new;
      hide Power;
      Fill();
      forall k | 255 <= k < 510 ensures exp[k] == Power(k) {
        PowerRepeats(k - 255);
        assert exp[k - 255] == exp[k - 255 + 255];
      }
      forall y: Byte {:trigger log[y]} | y != 0 ensures log[y] < 255 && Power(log[y]) == y {
        var k := LogExists(y);
      }
    }

    method Fill()
      requires exp.Length == 512 && log.Length == 256 && exp != log
      modifies exp, log
      ensures forall k {:trigger exp[k]} | 0 <= k < 255 :: exp[k] == exp[k + 255] == Power(k)
      ensures forall k | 0 <= k < 255 :: log[Power(k)] < 255 && Power(log[Power(k)]) == Power(k)
    {
      hide Xor;
      var x: nat := 1;
      for i := 0 to 255
        invariant x == Power(i)
        invariant forall k {:trigger exp[k]} | 0 <= k < i :: exp[k] == exp[k + 255] == Power(k)
        invariant forall k | 0 <= k < i :: log[Power(k)] < 255 && Power(log[Power(k)]) == Power(k)
      {
        exp[i] := x;
        exp[i + 255] := x;
        log[x] := i;
        x := 2 * x;
        if x >= 0x100 {
          x := Xor(x, 0x11d);
        }
      }
    }

    /** Multiplication by adding logarithms. */
    function GfMul(x: Byte, y: Byte): (r: Byte)
      requires Valid()
      reads exp, log
      ensures r == Mul(x, y)
    {
      NoZeroDivisors(x, y);
      if x == 0 || y == 0 then 0 else
        var i: nat, j: nat := log[x], log[y];
        PowerAdds(i, j);
        exp[i + j]
    }
  }
}
