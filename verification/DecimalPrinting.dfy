/** Decimal printing into a buffer and parsing, on ASCII bytes. */
module DecimalPrinting {
  import opened Bits
  import opened Words
  import opened Wrappers

  function Digit(d: nat): Byte
    requires d < 10
  {
    48 + d
  }

  predicate IsDigit(b: Byte) {
    48 <= b <= 57
  }

  /** The decimal digits of `v`, without leading zeros. */
  function Decimal(v: nat): (s: seq<Byte>)
    ensures s != []
  {
    if v < 10 then [Digit(v)] else Decimal(v / 10) + [Digit(v % 10)]
  }

  predicate AllDigits(s: seq<Byte>) {
    forall i | 0 <= i < |s| :: IsDigit(s[i])
  }

  function NumberOf(s: seq<Byte>): nat
    requires AllDigits(s)
  {
    if s == [] then 0 else 10 * NumberOf(s[..|s| - 1]) + (s[|s| - 1] as nat - 48)
  }

  /** `strconv.ParseUint(s, 10, 64)`. */
  function ParseUint(s: seq<Byte>): Option<Uint64> {
    if s != [] && AllDigits(s) && NumberOf(s) < UINT64 then Some(NumberOf(s)) else None
  }

  lemma {:induction false} DecimalParses(v: nat)
    ensures AllDigits(Decimal(v)) && NumberOf(Decimal(v)) == v
  {
    if v >= 10 {
      DecimalParses(v / 10);
      assert Decimal(v)[..|Decimal(v)| - 1] == Decimal(v / 10);
    }
  }

  /** Printing undoes parsing exactly for digit strings without a superfluous leading zero. */
  lemma {:induction false} PrintsBackIff(s: seq<Byte>)
    requires s != [] && AllDigits(s)
    ensures Decimal(NumberOf(s)) == s <==> |s| == 1 || s[0] != 48
  {
    hide Decimal;
    var n := |s| - 1;
    if n > 0 {
      assert s == s[..n] + [s[n]];
      if s[0] != 48 {
        PrintsBackIff(s[..n]);
        NonzeroLead(s[..n]);
        DecimalUnfold(NumberOf(s[..n]), s[n] - 48);
      } else {
        NoLeadingZero(NumberOf(s));
      }
    } else {
      assert s[..0] == [];
      OneDigit(s[0] - 48);
    }
  }

  lemma DecimalUnfold(v: nat, d: nat)
    requires v > 0 && d < 10
    ensures Decimal(10 * v + d) == Decimal(v) + [48 + d]
  {
  }

  lemma OneDigit(d: nat)
    requires d < 10
    ensures Decimal(d) == [48 + d]
  {
  }

  lemma {:induction false} NonzeroLead(s: seq<Byte>)
    requires s != [] && AllDigits(s) && s[0] != 48
    ensures NumberOf(s) > 0
  {
    if |s| > 1 { NonzeroLead(s[..|s| - 1]); }
  }

  lemma {:induction false} NoLeadingZero(v: nat)
    ensures |Decimal(v)| == 1 || Decimal(v)[0] != 48
  {
    if v >= 10 { NoLeadingZero(v / 10); }
  }

  // ---------- writing into a fixed buffer ----------

  /** What of `s` fits into `capacity` bytes. */
  function Fit(s: seq<Byte>, capacity: nat): (r: seq<Byte>)
    ensures |r| <= capacity && r <= s
  {
    if |s| <= capacity then s else s[..capacity]
  }

  lemma FitAppend(a: seq<Byte>, b: seq<Byte>, capacity: nat)
    ensures Fit(Fit(a, capacity) + b, capacity) == Fit(a + b, capacity)
  {
  }

  /** Go's `copy(buf[at:], s)`. */
  method Copy(buf: array<Byte>, at: nat, s: seq<Byte>) returns (n: nat)
    requires at <= buf.Length
    modifies buf
    ensures at + n <= buf.Length
    ensures buf[..at + n] == Fit(old(buf[..at]) + s, buf.Length)
    ensures buf[at + n..] == old(buf[at + n..])
  {
    n := if |s| <= buf.Length - at then |s| else buf.Length - at;
    forall i | 0 <= i < n { buf[at + i] := s[i]; }
    assert buf[..at + n] == old(buf[..at]) + s[..n];
  }

  function Pow10(n: nat): nat {
    if n == 0 then 1 else 10 * Pow10(n - 1)
  }

  lemma Uint64Fits(v: Uint64)
    ensures v < Pow10(20)
  {
    assert Pow10(5) == 100_000;
    assert Pow10(10) == 10_000_000_000;
    assert Pow10(15) == 1_000_000_000_000_000;
    assert Pow10(20) == 100_000_000_000_000_000_000;
  }

  /** The digits are produced backwards in a scratch buffer, then copied as far as they fit. The zero case
      writes without looking at the length. */
  method AppendUint(buf: array<Byte>, at: nat, v: Uint64) returns (n: nat)
    requires at <= buf.Length && (v == 0 ==> at < buf.Length)
    modifies buf
    ensures at + n <= buf.Length
    ensures buf[..at + n] == Fit(old(buf[..at]) + Decimal(v), buf.Length)
    ensures buf[at + n..] == old(buf[at + n..])
  {
    hide Pow10;
    if v == 0 {
      buf[at] := 48;
      assert buf[..at + 1] == old(buf[..at]) + [48];
      return 1;
    }
    var b := new Byte[20];
    var i := b.Length;
    var rest: nat := v;
    Uint64Fits(v);
    while rest > 0
      invariant 0 <= i <= 20 && rest < Pow10(i)
      invariant rest > 0 ==> Decimal(v) == Decimal(rest) + b[i..]
      invariant rest == 0 ==> Decimal(v) == b[i..]
      invariant buf[..] == old(buf[..])
      decreases rest
    {
      Pow10Step(rest, i);
      i := i - 1;
      ghost var tail := b[i + 1..];
      b[i] := Digit(rest % 10);
      assert b[i..] == [Digit(rest % 10)] + tail;
      rest := rest / 10;
    }
    n := Copy(buf, at, b[i..]);
  }

  lemma Pow10Step(v: nat, i: nat)
    requires 0 < v < Pow10(i)
    ensures i > 0 && v / 10 < Pow10(i - 1)
  {
  }
}
