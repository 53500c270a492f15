/** Error correction codewords (web/app/src/qr.ts:29-55). A polynomial is a sequence of bytes, highest
    degree first unless a name says `Low`. */
module ReedSolomon {
  import opened Bits
  import opened Gf256

  type Poly = seq<Byte>

  function Zeros(n: nat): (p: Poly)
    ensures |p| == n
  {
    seq(n, i => 0)
  }

  function Add(p: Poly, q: Poly): (r: Poly)
    requires |p| == |q|
    ensures |r| == |p|
  {
    seq(|p|, i requires 0 <= i < |p| => XorBytes(p[i], q[i]))
  }

  function Scale(c: Byte, p: Poly): (r: Poly)
    ensures |r| == |p|
  {
    seq(|p|, i requires 0 <= i < |p| => Mul(c, p[i]))
  }

  function Product(q: Poly, m: Poly): (r: Poly)
    requires m != []
    ensures |r| == |q| + |m| - 1
  {
    if q == [] then Zeros(|m| - 1) else
      Add(Product(q[..|q| - 1], m) + [0], Zeros(|q| - 1) + Scale(q[|q| - 1], m))
  }

  function Eval(p: Poly, x: Byte): Byte {
    if p == [] then 0 else XorBytes(Mul(Eval(p[..|p| - 1], x), x), p[|p| - 1])
  }

  // ---------- division ----------

  /** The shift register after reading `data`, for the monic divisor `[1] + d`. */
  function Remainder(data: Poly, d: Poly): (r: Poly)
    ensures |r| == |d|
  {
    if data == [] then Zeros(|d|) else
      Shifted(Remainder(data[..|data| - 1], d), data[|data| - 1], d)
  }

  function Factor(rem: Poly, b: Byte): Byte {
    if rem == [] then b else XorBytes(b, rem[0])
  }

  /** One step of the register: shift, then add the fed-back factor times the divisor. */
  function Shifted(rem: Poly, b: Byte, d: Poly): (r: Poly)
    requires |rem| == |d|
    ensures |r| == |d|
  {
    if rem == [] then [] else Add(rem[1..] + [0], Scale(Factor(rem, b), d))
  }

  function Quotient(data: Poly, d: Poly): (q: Poly)
    ensures |q| == |data|
  {
    if data == [] then [] else
      var before := data[..|data| - 1];
      Quotient(before, d) + [Factor(Remainder(before, d), data[|data| - 1])]
  }

  lemma ProductUnfold(q: Poly, m: Poly)
    requires q != [] && m != []
    ensures Product(q, m) == Add(Product(q[..|q| - 1], m) + [0], Zeros(|q| - 1) + Scale(q[|q| - 1], m))
  {
    hide Mul, Xor, Add, Scale, Zeros;
  }

  lemma ProductAt(q: Poly, m: Poly, i: nat)
    requires q != [] && m != [] && i < |q| + |m| - 1
    ensures Product(q, m)[i] == Xor((Product(q[..|q| - 1], m) + [0])[i],
                                    if i < |q| - 1 then 0 else Mul(q[|q| - 1], m[i - (|q| - 1)]))
  {
    hide Product, Mul, Xor;
    ProductUnfold(q, m);
    var term := Zeros(|q| - 1) + Scale(q[|q| - 1], m);
    assert term[i] == if i < |q| - 1 then 0 else Mul(q[|q| - 1], m[i - (|q| - 1)]);
  }

  lemma ShiftedAt(rem: Poly, b: Byte, d: Poly, j: nat)
    requires |rem| == |d| && j < |d|
    ensures Shifted(rem, b, d)[j] == Xor((rem[1..] + [0])[j], Mul(Factor(rem, b), d[j]))
  {
    hide Mul, Xor;
  }

  /** One more byte: the register's step adds the fed-back factor to the quotient. */
  lemma DivisionStep(before: Poly, q: Poly, rem: Poly, b: Byte, d: Poly, i: nat)
    requires |q| == |before| && |rem| == |d| && before + rem == Product(q, [1] + d)
    requires i < |before| + 1 + |d|
    ensures Product(q + [Factor(rem, b)], [1] + d)[i] == (before + [b] + Shifted(rem, b, d))[i]
  {
    hide Product, Mul, Xor, Shifted;
    var n, m, f := |before|, [1] + d, Factor(rem, b);
    assert (q + [f])[..n] == q;
    ProductAt(q + [f], m, i);
    MulOne(f);
    if i == n {
      if d != [] { XorCommutes(rem[0], f); XorCommutes(b, rem[0]); XorCancels(rem[0], b); } else { XorZero(f); }
    } else if i > n {
      ShiftedAt(rem, b, d, i - n - 1);
    } else {
      XorZero(before[i]);
    }
  }

  lemma QuotientUnfold(data: Poly, d: Poly)
    requires data != []
    ensures var n := |data| - 1;
            && Quotient(data, d) == Quotient(data[..n], d) + [Factor(Remainder(data[..n], d), data[n])]
            && Remainder(data, d) == Shifted(Remainder(data[..n], d), data[n], d)
  {
    hide Shifted, Factor;
  }

  /** Main result: `data * x^ec + remainder` is a multiple of the divisor. */
  lemma {:induction false} DivisionIsExact(data: Poly, d: Poly)
    ensures data + Remainder(data, d) == Product(Quotient(data, d), [1] + d)
  {
    hide Product, Shifted, Factor, Remainder, Quotient;
    if data == [] {
      NothingDivided(d);
    } else {
      var n := |data| - 1;
      var before, b := data[..n], data[n];
      DivisionIsExact(before, d);
      QuotientUnfold(data, d);
      var codeword := data + Remainder(data, d);
      assert data == before + [b];
      forall i | 0 <= i < n + 1 + |d| ensures Product(Quotient(data, d), [1] + d)[i] == codeword[i] {
        DivisionStep(before, Quotient(before, d), Remainder(before, d), b, d, i);
      }
      assert Product(Quotient(data, d), [1] + d) == codeword;
    }
  }

  lemma NothingDivided(d: Poly)
    ensures [] + Remainder([], d) == Product(Quotient([], d), [1] + d)
  {
  }

  lemma {:induction false} LeadingTerms(q: Poly, p: Poly, m: Poly)
    requires m != [] && m[0] == 1 && |p| == |q|
    requires forall i | 0 <= i < |q| :: Product(q, m)[i] == Product(p, m)[i]
    ensures q == p
  {
    hide Product, Mul, Xor;
    if q != [] {
      var n := |q| - 1;
      forall i | 0 <= i < n ensures Product(q[..n], m)[i] == Product(p[..n], m)[i] {
        ProductAt(q, m, i);
        ProductAt(p, m, i);
        XorZero((Product(q[..n], m) + [0])[i]);
        XorZero((Product(p[..n], m) + [0])[i]);
      }
      LeadingTerms(q[..n], p[..n], m);
      ProductAt(q, m, n);
      ProductAt(p, m, n);
      MulOne(q[n]);
      MulOne(p[n]);
      var c := (Product(q[..n], m) + [0])[n];
      XorCancels(c, q[n]);
      XorCancels(c, p[n]);
      assert q == q[..n] + [q[n]] && p == p[..n] + [p[n]];
    }
  }

  /** Nothing else makes the codeword a multiple of the divisor. */
  lemma RemainderIsUnique(data: Poly, d: Poly, r: Poly, q: Poly)
    requires |r| == |d| && |q| == |data|
    requires data + r == Product(q, [1] + d)
    ensures q == Quotient(data, d) && r == Remainder(data, d)
  {
    DivisionIsExact(data, d);
    var exact := data + Remainder(data, d);
    LeadingTerms(q, Quotient(data, d), [1] + d);
    assert r == (data + r)[|data|..] == exact[|data|..];
  }

  // ---------- evaluation ----------

  lemma EvalSnoc(p: Poly, c: Byte, x: Byte)
    ensures Eval(p + [c], x) == Xor(Mul(Eval(p, x), x), c)
  {
    assert (p + [c])[..|p|] == p;
  }

  lemma {:induction false} EvalAdd(p: Poly, q: Poly, x: Byte)
    requires |p| == |q|
    ensures Eval(Add(p, q), x) == Xor(Eval(p, x), Eval(q, x))
  {
    if p != [] {
      var n := |p| - 1;
      EvalAdd(p[..n], q[..n], x);
      var ep, eq := Eval(p[..n], x), Eval(q[..n], x);
      calc {
        Eval(Add(p, q), x);
        { assert Add(p, q) == Add(p[..n], q[..n]) + [XorBytes(p[n], q[n])];
          hide Eval, Mul, Xor;
          EvalSnoc(Add(p[..n], q[..n]), XorBytes(p[n], q[n]), x); }
        Xor(Mul(XorBytes(ep, eq), x), Xor(p[n], q[n]));
        { hide Eval, Mul, Xor;
          MulAddsLeft(ep, eq, x); XorSwap(Mul(ep, x), Mul(eq, x), p[n], q[n]); }
        Xor(Xor(Mul(ep, x), p[n]), Xor(Mul(eq, x), q[n]));
      }
    }
  }

  lemma {:induction false} EvalScale(c: Byte, p: Poly, x: Byte)
    ensures Eval(Scale(c, p), x) == Mul(c, Eval(p, x))
  {
    MulZero(c);
    MulCommutes(c, 0);
    if p != [] {
      var n := |p| - 1;
      EvalScale(c, p[..n], x);
      assert Scale(c, p) == Scale(c, p[..n]) + [Mul(c, p[n])];
      var e := Eval(p[..n], x);
      assert Eval(p, x) == XorBytes(Mul(e, x), p[n]);
      hide Eval, Mul, Xor;
      EvalSnoc(Scale(c, p[..n]), Mul(c, p[n]), x);
      MulAssociates(c, e, x);
      MulAddsRight(c, Mul(e, x), p[n]);
    }
  }

  lemma {:induction false} EvalPadded(n: nat, p: Poly, x: Byte)
    ensures Eval(Zeros(n) + p, x) == Eval(p, x)
    decreases n + |p|
  {
    if p != [] {
      EvalPadded(n, p[..|p| - 1], x);
      assert Zeros(n) + p == (Zeros(n) + p[..|p| - 1]) + [p[|p| - 1]];
      EvalSnoc(Zeros(n) + p[..|p| - 1], p[|p| - 1], x);
    } else if n > 0 {
      EvalPadded(n - 1, [], x);
      assert Zeros(n) + p == (Zeros(n - 1) + []) + [0];
      EvalSnoc(Zeros(n - 1) + [], 0, x);
      MulZero(x);
    }
  }

  lemma {:induction false} EvalProduct(q: Poly, m: Poly, x: Byte)
    requires m != []
    ensures Eval(Product(q, m), x) == Mul(Eval(q, x), Eval(m, x))
  {
    hide Mul, Xor, Scale, Add, Zeros;
    MulZero(Eval(m, x));
    if q == [] {
      EvalPadded(|m| - 1, [], x);
      assert Zeros(|m| - 1) == Zeros(|m| - 1) + [];
    } else {
      var n := |q| - 1;
      var c, rest, e, v := q[n], Product(q[..n], m), Eval(q[..n], x), Eval(m, x);
      ProductUnfold(q, m);
      EvalProduct(q[..n], m, x);
      assert Eval(q, x) == XorBytes(Mul(e, x), c);
      hide Eval, Product;
      EvalAdd(rest + [0], Zeros(n) + Scale(c, m), x);
      EvalSnoc(rest, 0, x);
      XorZero(Mul(Eval(rest, x), x));
      EvalPadded(n, Scale(c, m), x);
      EvalScale(c, m, x);
      MulAssociates(e, v, x);
      MulCommutes(v, x);
      MulAssociates(e, x, v);
      MulAddsLeft(Mul(e, x), c, v);
    }
  }

  /** A codeword vanishes at `x` exactly when the divisor or the quotient does. */
  lemma CodewordRoots(data: Poly, d: Poly, x: Byte)
    ensures Eval(data + Remainder(data, d), x) == 0 <==>
              Eval([1] + d, x) == 0 || Eval(Quotient(data, d), x) == 0
  {
    DivisionIsExact(data, d);
    EvalProduct(Quotient(data, d), [1] + d, x);
    NoZeroDivisors(Eval(Quotient(data, d), x), Eval([1] + d, x));
  }

  // ---------- the generator polynomial, lowest degree first ----------

  function EvalLow(p: Poly, x: Byte): Byte {
    if p == [] then 0 else XorBytes(p[0], Mul(EvalLow(p[1..], x), x))
  }

  /** `p` times `(x + root)`. */
  function TimesRoot(p: Poly, root: Byte): (r: Poly)
    ensures |r| == |p| + 1
  {
    Add(Scale(root, p) + [0], [0] + p)
  }

  function Generator(n: nat): (g: Poly)
    ensures |g| == n + 1
  {
    if n == 0 then [1] else TimesRoot(Generator(n - 1), Power(n - 1))
  }

  ghost predicate IsRoot(x: Byte, n: nat) {
    exists i :: 0 <= i < n && x == Power(i)
  }

  lemma {:induction false} EvalLowAdd(p: Poly, q: Poly, x: Byte)
    requires |p| == |q|
    ensures EvalLow(Add(p, q), x) == Xor(EvalLow(p, x), EvalLow(q, x))
  {
    hide Mul, Xor;
    XorZero(0);
    if p != [] {
      EvalLowAdd(p[1..], q[1..], x);
      assert Add(p, q)[1..] == Add(p[1..], q[1..]);
      assert Add(p, q)[0] == XorBytes(p[0], q[0]);
      var ep, eq := EvalLow(p[1..], x), EvalLow(q[1..], x);
      assert EvalLow(p, x) == XorBytes(p[0], Mul(ep, x)) && EvalLow(q, x) == XorBytes(q[0], Mul(eq, x));
      assert EvalLow(Add(p, q), x) == Xor(Xor(p[0], q[0]), Mul(XorBytes(ep, eq), x));
      hide EvalLow, Add;
      MulAddsLeft(ep, eq, x);
      XorSwap(p[0], q[0], Mul(ep, x), Mul(eq, x));
    }
  }

  lemma {:induction false} EvalLowScale(c: Byte, p: Poly, x: Byte)
    ensures EvalLow(Scale(c, p) + [0], x) == Mul(c, EvalLow(p, x))
  {
    MulZero(c);
    MulCommutes(c, 0);
    MulZero(x);
    if p != [] {
      EvalLowScale(c, p[1..], x);
      assert (Scale(c, p) + [0])[1..] == Scale(c, p[1..]) + [0];
      var e := EvalLow(p[1..], x);
      assert EvalLow(p, x) == XorBytes(p[0], Mul(e, x));
      assert EvalLow(Scale(c, p) + [0], x) == Xor(Mul(c, p[0]), Mul(Mul(c, e), x));
      hide EvalLow, Mul, Xor;
      MulAssociates(c, e, x);
      MulAddsRight(c, p[0], Mul(e, x));
    } else {
      assert Scale(c, p) + [0] == [0];
      assert EvalLow([0], x) == 0;
    }
  }

  lemma EvalTimesRoot(p: Poly, root: Byte, x: Byte)
    ensures EvalLow(TimesRoot(p, root), x) == Mul(XorBytes(x, root), EvalLow(p, x))
  {
    var e := EvalLow(p, x);
    assert ([0] + p)[1..] == p;
    XorZero(Mul(e, x));
    assert EvalLow([0] + p, x) == Mul(e, x);
    hide EvalLow, Mul, Xor, Add;
    EvalLowAdd(Scale(root, p) + [0], [0] + p, x);
    EvalLowScale(root, p, x);
    MulAddsLeft(root, x, e);
    MulCommutes(e, x);
    XorCommutes(x, root);
  }

  lemma {:induction false} GeneratorIsMonic(n: nat)
    ensures Generator(n)[n] == 1
  {
    hide Mul, Xor, Power;
    if n > 0 {
      var g := Generator(n - 1);
      GeneratorIsMonic(n - 1);
      XorZero(1);
      assert (Scale(Power(n - 1), g) + [0])[n] == 0 && ([0] + g)[n] == 1;
    }
  }

  /** Main result: the roots of the computed polynomial are the first `n` powers of 2. */
  lemma {:induction false} GeneratorRoots(n: nat, x: Byte)
    ensures EvalLow(Generator(n), x) == 0 <==> IsRoot(x, n)
  {
    if n == 0 {
      MulZero(x);
      assert EvalLow([1], x) == 1;
    } else {
      var g, r := Generator(n - 1), Power(n - 1);
      hide EvalLow, Mul, Xor, Power;
      GeneratorRoots(n - 1, x);
      EvalTimesRoot(g, r, x);
      NoZeroDivisors(XorBytes(x, r), EvalLow(g, x));
      XorCancels(x, r);
    }
  }

  // ---------- when the codewords have the generator's roots ----------
  // `rsCalculateEc` reads the low-first coefficients of `rsComputePoly` as if they were high-first, so
  // its divisor is `[1] + Generator(ec)[..ec]`, not the generator itself.

  function Reverse(p: Poly): (r: Poly)
    ensures |r| == |p|
  {
    if p == [] then [] else Reverse(p[1..]) + [p[0]]
  }

  ghost predicate Vanishes(codeword: Poly, ec: nat) {
    forall i | 0 <= i < ec :: Eval(codeword, Power(i)) == 0
  }

  ghost predicate CodewordsVanish(ec: nat) {
    forall data: Poly :: Vanishes(data + Remainder(data, Generator(ec)[..ec]), ec)
  }

  lemma {:induction false} EvalReverse(p: Poly, x: Byte)
    ensures Eval(Reverse(p), x) == EvalLow(p, x)
  {
    if p != [] {
      EvalReverse(p[1..], x);
      EvalSnoc(Reverse(p[1..]), p[0], x);
      XorCommutes(p[0], Mul(EvalLow(p[1..], x), x));
    }
  }

  lemma EvalPair(b: Byte, c: Byte, x: Byte)
    ensures Eval([b, c], x) == Xor(Mul(b, x), c)
  {
    assert [b, c] == [b] + [c] && [b] == [] + [b];
    EvalSnoc([], b, x);
    EvalSnoc([b], c, x);
    MulZero(x);
  }

  /** The last coefficient is determined by the others and a root. */
  lemma LastFromRoot(data: Poly, b: Byte, c: Byte, r: Byte)
    requires Eval(data + [b], r) == 0 && Eval(data + [c], r) == 0
    ensures b == c
  {
    hide Eval, Mul, Xor;
    EvalSnoc(data, b, r);
    EvalSnoc(data, c, r);
    XorCancels(Mul(Eval(data, r), r), b);
    XorCancels(Mul(Eval(data, r), r), c);
  }

  /** A polynomial that vanishes at `r` is a multiple of `x + r`. */
  lemma FactorRoot(p: Poly, r: Byte)
    requires p != [] && Eval(p, r) == 0
    ensures p == Product(Quotient(p[..|p| - 1], [r]), [1, r])
  {
    hide Eval, Mul, Xor, Product, Quotient, Remainder;
    var data, c, d := p[..|p| - 1], p[|p| - 1], [r];
    var q, rem := Quotient(data, d), Remainder(data, d);
    DivisionIsExact(data, d);
    assert [1] + d == [1, r] && rem == [rem[0]] && p == data + [c];
    EvalProduct(q, [1, r], r);
    EvalPair(1, r, r);
    MulOne(r);
    XorSelf(r);
    NoZeroDivisors(Eval(q, r), 0);
    LastFromRoot(data, rem[0], c, r);
  }

  lemma {:induction false} ProductOfZeros(n: nat, m: Poly)
    requires m != []
    ensures Product(Zeros(n), m) == Zeros(n + |m| - 1)
  {
    if n > 0 {
      assert Zeros(n)[..n - 1] == Zeros(n - 1);
      ProductOfZeros(n - 1, m);
      forall i | 0 <= i < n + |m| - 1 ensures Product(Zeros(n), m)[i] == 0 {
        ProductAt(Zeros(n), m, i);
        if i >= n - 1 { MulZero(m[i - (n - 1)]); }
      }
    }
  }

  /** A polynomial of degree below `n` with `n` roots is zero. */
  lemma {:induction false} TooManyRoots(p: Poly, n: nat)
    requires |p| == n <= 255 && Vanishes(p, n)
    ensures p == Zeros(n)
    decreases n
  {
    hide Mul, Xor, Power, Eval, Product;
    if n > 0 {
      var r := Power(n - 1);
      FactorRoot(p, r);
      var q := Quotient(p[..n - 1], [r]);
      forall i | 0 <= i < n - 1 ensures Eval(q, Power(i)) == 0 {
        EvalProduct(q, [1, r], Power(i));
        EvalPair(1, r, Power(i));
        MulOne(Power(i));
        XorCancels(Power(i), r);
        PowersDiffer(i, n - 1);
        NoZeroDivisors(Eval(q, Power(i)), Eval([1, r], Power(i)));
      }
      TooManyRoots(q, n - 1);
      ProductOfZeros(n - 1, [1, r]);
    }
  }

  /** Two monic polynomials of degree `n` with the same `n` roots are equal. */
  lemma MonicWithRoots(d: Poly, e: Poly, n: nat)
    requires |d| == |e| == n <= 255
    requires Vanishes([1] + d, n) && Vanishes([1] + e, n)
    ensures d == e
  {
    var sum := Add(d, e);
    forall i | 0 <= i < n ensures Eval(sum, Power(i)) == 0 {
      EvalAdd([1] + d, [1] + e, Power(i));
      XorSelf(1);
      EvalPadded(1, sum, Power(i));
      assert Add([1] + d, [1] + e) == Zeros(1) + sum;
    }
    TooManyRoots(sum, n);
    forall i | 0 <= i < n ensures d[i] == e[i] {
      assert sum[i] == 0;
      XorCancels(d[i], e[i]);
    }
  }

  lemma ReverseSnoc(p: Poly, c: Byte)
    ensures Reverse(p + [c]) == [c] + Reverse(p)
  {
    if p != [] {
      ReverseSnoc(p[1..], c);
      assert (p + [c])[1..] == p[1..] + [c];
    }
  }

  lemma GeneratorHighFirst(ec: nat)
    ensures Vanishes([1] + Reverse(Generator(ec)[..ec]), ec)
  {
    var g := Generator(ec);
    GeneratorIsMonic(ec);
    assert g == g[..ec] + [1];
    ReverseSnoc(g[..ec], 1);
    forall i | 0 <= i < ec ensures Eval(Reverse(g), Power(i)) == 0 {
      EvalReverse(g, Power(i));
      GeneratorRoots(ec, Power(i));
    }
  }

  /** Main result: every codeword vanishes at the first `ec` powers of 2, as a Reed-Solomon codeword
      must, exactly when the coefficients below the leading one read the same in both directions. */
  lemma CodewordsVanishIffPalindrome(ec: nat)
    requires ec <= 255
    ensures CodewordsVanish(ec) <==> Generator(ec)[..ec] == Reverse(Generator(ec)[..ec])
  {
    var d := Generator(ec)[..ec];
    GeneratorHighFirst(ec);
    if d == Reverse(d) {
      forall data: Poly, i | 0 <= i < ec ensures Eval(data + Remainder(data, d), Power(i)) == 0 {
        CodewordRoots(data, d, Power(i));
      }
    }
    if CodewordsVanish(ec) {
      var data: Poly := [1];
      OneCodeword(d);
      assert Vanishes(data + Remainder(data, d), ec);
      MonicWithRoots(d, Reverse(d), ec);
    }
  }

  /** The codeword of the single byte 1 is the divisor itself. */
  lemma OneCodeword(d: Poly)
    ensures [1] + Remainder([1], d) == [1] + d
  {
    var rem := Remainder([], d);
    assert [1][..0] == [];
    XorZero(1);
    forall j | 0 <= j < |d| ensures Remainder([1], d)[j] == d[j] {
      ShiftedAt(rem, 1, d, j);
      MulOne(d[j]);
      XorZero(d[j]);
    }
  }

  // ---------- the encoder's two loops ----------

  /** Builds the generator polynomial, one factor `x + 2^i` at a time. */
  method RsComputePoly(t: Tables, ecCount: nat) returns (poly: array<Byte>)
    requires t.Valid() && ecCount <= 510
    ensures fresh(poly)
    ensures poly[..] == Generator(ecCount)
  {
    poly := new Byte[1](i => 1);
    for i := 0 to ecCount
      invariant fresh(poly) && t.Valid()
      invariant poly[..] == Generator(i)
    {
      var next := new Byte[poly.Length + 1](j => 0);
      var factor := t.exp[i];
      MultiplyInto(t, poly, factor, next);
      poly := next;
    }
  }

  /** Adds `(x + factor) * poly` into the zeroed array `next`. */
  method MultiplyInto(t: Tables, poly: array<Byte>, factor: Byte, next: array<Byte>)
    requires t.Valid() && next.Length == poly.Length + 1
    requires next != poly && next != t.exp && next != t.log
    requires forall k | 0 <= k < next.Length :: next[k] == 0
    modifies next
    ensures next[..] == TimesRoot(poly[..], factor)
  {
    hide Mul, Xor, Power;
    for j := 0 to poly.Length
      invariant t.Valid()
      invariant poly[..] == old(poly[..])
      invariant forall k | 0 <= k < j :: next[k] == TimesRoot(poly[..], factor)[k]
      invariant next[j] == ([0] + poly[..])[j]
      invariant forall k | j < k < next.Length :: next[k] == 0
    {
      XorZero(poly[j]);
      XorCommutes(next[j], t.GfMul(poly[j], factor));
      MulCommutes(poly[j], factor);
      next[j] := XorBytes(next[j], t.GfMul(poly[j], factor));
      next[j + 1] := XorBytes(next[j + 1], poly[j]);
    }
    XorZero(next[poly.Length]);
  }

  /** The error correction bytes of `data`: the remainder after division by `[1] + Generator[..ec]`. */
  method RsCalculateEc(t: Tables, data: seq<Byte>, ecCount: nat) returns (remainder: array<Byte>)
    requires t.Valid() && ecCount <= 510
    ensures fresh(remainder)
    ensures remainder[..] == Remainder(data, Generator(ecCount)[..ecCount])
  {
    var poly := RsComputePoly(t, ecCount);
    remainder := new Byte[ecCount](i => 0);
    ghost var d := Generator(ecCount)[..ecCount];
    for i := 0 to |data|
      invariant t.Valid() && poly[..] == Generator(ecCount)
      invariant remainder[..] == Remainder(data[..i], d)
    {
      assert data[..i + 1][..i] == data[..i];
      if ecCount > 0 {
        FeedByte(t, poly, data[i], remainder);
      }
    }
    assert data[..|data|] == data;
  }

  /** One byte through the shift register. */
  method FeedByte(t: Tables, poly: array<Byte>, b: Byte, remainder: array<Byte>)
    requires t.Valid() && 0 < remainder.Length < poly.Length
    requires remainder != poly && remainder != t.exp && remainder != t.log
    modifies remainder
    ensures remainder[..] == Shifted(old(remainder[..]), b, poly[..remainder.Length])
  {
    hide Mul, Xor, Power, Shifted, Add, Scale;
    var n := remainder.Length;
    ghost var was := remainder[..];
    var factor := XorBytes(b, remainder[0]);
    for k := 0 to n - 1
      invariant forall j | 0 <= j < k :: remainder[j] == was[j + 1]
      invariant forall j | k <= j < n :: remainder[j] == was[j]
    {
      remainder[k] := remainder[k + 1];
    }
    remainder[n - 1] := 0;
    ghost var shifted := was[1..] + [0];
    for j := 0 to n
      invariant t.Valid()
      invariant forall k | 0 <= k < j :: remainder[k] == Xor(shifted[k], Mul(factor, poly[k]))
      invariant forall k | j <= k < n :: remainder[k] == shifted[k]
    {
      MulCommutes(poly[j], factor);
      remainder[j] := XorBytes(remainder[j], t.GfMul(poly[j], factor));
    }
    ShiftedIs(was, b, poly[..n], remainder[..]);
  }

  lemma ShiftedIs(rem: Poly, b: Byte, d: Poly, r: Poly)
    requires |rem| == |d| == |r| && rem != []
    requires forall j | 0 <= j < |r| :: r[j] == Xor((rem[1..] + [0])[j], Mul(XorBytes(b, rem[0]), d[j]))
    ensures r == Shifted(rem, b, d)
  {
    hide Mul, Xor, Shifted;
    forall j | 0 <= j < |r| ensures r[j] == Shifted(rem, b, d)[j] {
      ShiftedAt(rem, b, d, j);
    }
  }
}
