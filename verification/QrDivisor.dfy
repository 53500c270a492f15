/** Which numbers of error correction bytes give Reed-Solomon codewords: none above one, since the
    encoder divides by its generator polynomial with the coefficients read backwards
    (web/app/src/qr.ts:29-55). */
module QrDivisor {
  import opened Bits
  import opened Gf256
  import opened ReedSolomon

  function OnePlus(k: nat): Byte {
    XorBytes(Power(k), 1)
  }

  /** The product of `2^(i+j) + 1` for `j` below `n`: what the generator gives at `2^i` when its
      coefficients are read highest degree first. */
  function Shell(n: nat, i: nat): Byte {
    if n == 0 then 1 else Mul(Shell(n - 1, i), OnePlus(n - 1 + i))
  }

  lemma EvalTimesRootBackwards(p: Poly, root: Byte, x: Byte)
    ensures Eval(TimesRoot(p, root), x) == Mul(Eval(p, x), XorBytes(Mul(root, x), 1))
  {
    hide Eval, Mul, Xor, Add, Scale;
    var e := Eval(p, x);
    EvalAdd(Scale(root, p) + [0], [0] + p, x);
    EvalSnoc(Scale(root, p), 0, x);
    EvalScale(root, p, x);
    XorZero(Mul(Mul(root, e), x));
    EvalPadded(1, p, x);
    assert Zeros(1) + p == [0] + p;
    MulAddsRight(e, Mul(root, x), 1);
    MulOne(e);
    MulCommutes(root, e);
    MulAssociates(e, root, x);
  }

  lemma EvalNothing(x: Byte)
    ensures Eval([], x) == 0
  {
  }

  lemma FirstPowers()
    ensures Power(0) == 1 && Power(1) == 2
  {
  }

  lemma EvalOne(x: Byte)
    ensures Eval([1], x) == 1
  {
    hide Mul, Xor;
    EvalSnoc([], 1, x);
    assert [] + [1] == [1];
    MulZero(x);
    XorZero(1);
  }

  lemma {:induction false} GeneratorBackwards(n: nat, i: nat)
    ensures Eval(Generator(n), Power(i)) == Shell(n, i)
  {
    hide Eval, Mul, Xor, Power;
    if n == 0 {
      EvalOne(Power(i));
    } else {
      GeneratorBackwards(n - 1, i);
      EvalTimesRootBackwards(Generator(n - 1), Power(n - 1), Power(i));
      PowerAdds(n - 1, i);
    }
  }

  lemma {:induction false} EvalMonic(d: Poly, k: nat)
    ensures Eval([1] + d, Power(k)) == Xor(Power(k * |d|), Eval(d, Power(k)))
  {
    hide Eval, Mul, Xor, Power;
    var x := Power(k);
    if d == [] {
      FirstPowers();
      EvalNothing(x);
      EvalOne(x);
      XorZero(1);
      assert [1] + d == [1] && k * |d| == 0;
    } else {
      var n := |d| - 1;
      var rest, c := d[..n], d[n];
      EvalMonic(rest, k);
      assert d == rest + [c] && [1] + d == ([1] + rest) + [c];
      assert k * |d| == k * n + k;
      EvalSnoc([1] + rest, c, x);
      EvalSnoc(rest, c, x);
      PowerAdds(k * n, k);
      MulAddsLeft(Power(k * n), Eval(rest, x), x);
      XorAssociates(Power(k * |d|), Mul(Eval(rest, x), x), c);
    }
  }

  /** If the divisor vanishes at `2^k`, the product there is a power plus one. */
  lemma RootMeansShell(n: nat, k: nat)
    requires Eval([1] + Generator(n)[..n], Power(k)) == 0
    ensures Shell(n, k) == OnePlus(k * (n + 1))
  {
    hide Eval, Mul, Xor, Power, Shell, Generator;
    var g, x := Generator(n), Power(k);
    var d := g[..n];
    GeneratorBackwards(n, k);
    GeneratorIsMonic(n);
    EvalMonic(d, k);
    XorCancels(Power(k * n), Eval(d, x));
    assert g == d + [1];
    EvalSnoc(d, 1, x);
    PowerAdds(k * n, k);
    assert k * (n + 1) == k * n + k;
  }

  /** Moving the product up by one power exchanges its first factor for the next. */
  lemma {:induction false} ShellMoves(n: nat)
    ensures Mul(Shell(n, 2), OnePlus(1)) == Mul(Shell(n, 1), OnePlus(n + 1))
  {
    hide Mul, OnePlus;
    if n > 0 {
      ShellMoves(n - 1);
      var lower, upper := Shell(n - 1, 1), Shell(n - 1, 2);
      var first, last, next := OnePlus(1), OnePlus(n), OnePlus(n + 1);
      assert Shell(n, 1) == Mul(lower, last) && Shell(n, 2) == Mul(upper, next);
      MulAssociates(upper, next, first);
      MulCommutes(next, first);
      MulAssociates(upper, first, next);
    }
  }

  lemma {:induction false} ShellIsNotZero(n: nat)
    requires n < 255
    ensures Shell(n, 1) != 0
  {
    if n > 0 {
      hide Mul, Power;
      ShellIsNotZero(n - 1);
      GeneratorOrder(n);
      XorCancels(Power(n), 1);
      NoZeroDivisors(Shell(n - 1, 1), OnePlus(n));
    }
  }

  lemma SquarePlusOne(m: nat)
    ensures OnePlus(2 * m) == Mul(OnePlus(m), OnePlus(m))
  {
    hide Mul, Xor, Power;
    var p := Power(m);
    PowerAdds(m, m);
    MulAddsLeft(p, 1, OnePlus(m));
    MulOne(OnePlus(m));
    MulAddsRight(p, p, 1);
    MulOne(p);
    XorAssociates(Mul(p, p), p, OnePlus(m));
    XorCancels(p, 1);
  }

  /** Only 0 is three times itself. */
  lemma ThreeTimes(w: Byte)
    requires Mul(w, OnePlus(1)) == w
    ensures w == 0
  {
    hide Mul, Xor, Power;
    FirstPowers();
    MulAddsRight(w, 2, 1);
    MulOne(w);
    XorCommutes(Mul(w, 2), w);
    XorCancels(w, Mul(w, 2));
    XorSelf(w);
    NoZeroDivisors(w, 2);
  }

  lemma TwoIsNotARoot()
    ensures Shell(2, 1) != OnePlus(3)
  {
    assert Power(1) == 2 && Power(2) == 4 && Power(3) == 8;
    assert OnePlus(1) == 3 && OnePlus(2) == 5 && OnePlus(3) == 9;
    assert Shell(0, 1) == 1 && Shell(1, 1) == Mul(1, 3) == 3;
    assert Shell(2, 1) == Mul(3, 5);
    assert Mul(3, 5) == 15;
  }

  /** From two on, the divisor does not vanish at both 2 and 4, or, for two, not at 2. */
  lemma DivisorMissesARoot(n: nat)
    requires 2 <= n <= 255
    ensures !Vanishes([1] + Generator(n)[..n], n)
  {
    hide Eval, Mul, Xor, Power, Shell, OnePlus, Generator;
    if Vanishes([1] + Generator(n)[..n], n) {
      RootMeansShell(n, 1);
      if n == 2 {
        TwoIsNotARoot();
      } else {
        var u := OnePlus(n + 1);
        RootMeansShell(n, 2);
        SquarePlusOne(n + 1);
        ShellMoves(n);
        ThreeTimes(Mul(u, u));
        NoZeroDivisors(u, u);
        OnlyAtTheOrder(n);
      }
    }
  }

  /** `2^(n+1)` is 1 only for `n = 254`, and there the product has no zero factor. */
  lemma OnlyAtTheOrder(n: nat)
    requires 2 <= n <= 255 && OnePlus(n + 1) == 0
    ensures Shell(n, 1) != 0
  {
    hide Power, Shell, Xor;
    FirstPowers();
    XorCancels(Power(n + 1), 1);
    if n < 254 {
      GeneratorOrder(n + 1);
    } else if n == 254 {
      ShellIsNotZero(n);
    } else {
      PowerRepeats(1);
    }
  }

  /** Main result: the codewords vanish at the required powers for no more than one error correction
      byte. All four sizes of symbol use more. */
  lemma CodewordsVanishIff(ec: nat)
    requires ec <= 255
    ensures CodewordsVanish(ec) <==> ec <= 1
    ensures ec > 1 ==> !Vanishes([1] + Remainder([1], Generator(ec)[..ec]), ec)
  {
    var d := Generator(ec)[..ec];
    if ec <= 1 {
      CodewordsVanishIffPalindrome(ec);
      assert d == Reverse(d) by { if ec == 1 { assert d == [d[0]] && Reverse(d) == Reverse([]) + [d[0]]; } }
    } else {
      var data: Poly := [1];
      OneCodeword(d);
      DivisorMissesARoot(ec);
      assert !Vanishes(data + Remainder(data, d), ec);
    }
  }
}
