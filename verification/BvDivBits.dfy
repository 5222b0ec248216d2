/** Long division on bit sequences: what the rows of the division propagator denote
    (src/bzlabvprop.c:3430-3463). */
module BvDivBits {
  import opened Arith
  import opened BvRef
  import opened BvDomain
  import opened BvPropBasic
  import opened BvCarry

  /** The number formed by the top `i` bits. */
  function TopNat(v: Bits, i: nat): nat
    requires i <= |v|
  {
    if i == 0 then 0 else 2 * TopNat(v, i - 1) + One(v[|v| - i])
  }

  lemma {:induction false} TopBound(v: Bits, i: nat)
    requires i <= |v|
    ensures TopNat(v, i) < Pow2(i)
  {
    if i > 0 { TopBound(v, i - 1); }
  }

  lemma {:induction false} TopSplit(v: Bits, i: nat)
    requires i <= |v|
    ensures Nat(v) == Nat(v[..|v| - i]) + Pow2(|v| - i) * TopNat(v, i)
  {
    var k := |v| - i;
    if i == 0 {
      assert v[..k] == v;
    } else {
      TopSplit(v, i - 1);
      NatPush(v, k);
      Pow2Succ(k);
      TopArith(Pow2(k), TopNat(v, i - 1), One(v[k]));
    }
  }

  lemma {:induction false} TopArith(p: nat, t: nat, b: nat)
    requires b <= 1
    ensures p * (2 * t + b) == 2 * p * t + (if b == 1 then p else 0)
  {
  }

  lemma {:induction false} TopWhole(v: Bits)
    ensures TopNat(v, |v|) == Nat(v)
  {
    TopSplit(v, |v|);
    assert Pow2(0) == 1;
  }

  /** The remainder of dividing the top `i` bits. */
  function RemAt(x: Bits, y: Bits, i: nat): nat
    requires i <= |x|
  { BvUrem(TopNat(x, i), Nat(y)) }

  /** The partial remainder that row `i` compares with the divisor. */
  function RowNat(x: Bits, y: Bits, i: nat): nat
    requires i < |x|
  { 2 * RemAt(x, y, i) + One(x[|x| - 1 - i]) }

  /** The partial remainder never outgrows the word when it is shifted. */
  lemma {:induction false} RowBound(x: Bits, y: Bits, i: nat)
    requires i < |x|
    ensures RemAt(x, y, i) <= TopNat(x, i) < Pow2(i) && RowNat(x, y, i) < Pow2(i + 1) <= Pow2(|x|)
  {
    hide Nat;
    TopBound(x, i);
    Pow2Mono(i + 1, |x|);
    if Nat(y) > 0 { ModLe(TopNat(x, i), Nat(y)); }
  }

  lemma {:induction false} ModLe(a: nat, d: nat)
    requires d > 0
    ensures a % d <= a
  {
    var q := Divide(a, d);
    MulSign(q, d);
  }

  /** One row: subtract the divisor if it fits. */
  lemma {:induction false} RowStep(x: Bits, y: Bits, i: nat)
    requires i < |x|
    ensures var V, Y := RowNat(x, y, i), Nat(y);
            && RemAt(x, y, i + 1) == (if V < Y then V else V - Y)
            && BvUdiv(TopNat(x, i + 1), Y, i + 1) == 2 * BvUdiv(TopNat(x, i), Y, i) + (if V < Y then 0 else 1)
  {
    hide Nat;
    var T, D, bit := TopNat(x, i), Nat(y), One(x[|x| - 1 - i]);
    assert TopNat(x, i + 1) == 2 * T + bit;
    Pow2Succ(i);
    if D > 0 {
      var k := Divide(T, D);
      var V := 2 * (T % D) + bit;
      Distribute(D, k, k);
      if V >= D {
        Distribute(D, 2 * k, 1);
        DivModUnique(2 * T + bit, D, 2 * k + 1, V - D);
      } else {
        DivModUnique(2 * T + bit, D, 2 * k, V);
      }
    }
  }

  /** The quotient bits: where the divisor fits into the row. */
  function QuotBits(x: Bits, y: Bits): (r: Bits)
    ensures |r| == |x|
  { seq(|x|, k requires 0 <= k < |x| => RowNat(x, y, |x| - 1 - k) >= Nat(y)) }

  lemma {:induction false} QuotTop(x: Bits, y: Bits, i: nat)
    requires i <= |x|
    ensures TopNat(QuotBits(x, y), i) == BvUdiv(TopNat(x, i), Nat(y), i)
  {
    hide RowNat, BvUdiv, Nat;
    if i > 0 {
      QuotTop(x, y, i - 1);
      RowStep(x, y, i - 1);
      assert QuotBits(x, y)[|x| - i] == (RowNat(x, y, i - 1) >= Nat(y));
    } else {
      DivStart(Nat(y));
    }
  }

  lemma {:induction false} DivStart(d: nat)
    ensures BvUdiv(0, d, 0) == 0
  {
    assert Pow2(0) == 1;
    if d > 0 { DivModUnique(0, d, 0, 0); }
  }

  /** `z` is the quotient, all ones for divisor zero. */
  ghost predicate IsQuot(x: Bits, y: Bits, z: Bits) {
    |x| == |y| == |z| && Nat(z) == BvUdiv(Nat(x), Nat(y), |x|)
  }

  /** `z` is the remainder, the dividend for divisor zero. */
  ghost predicate IsRem(x: Bits, y: Bits, z: Bits) {
    |x| == |y| == |z| && Nat(z) == BvUrem(Nat(x), Nat(y))
  }

  lemma {:induction false} QuotIs(x: Bits, y: Bits, z: Bits)
    requires IsQuot(x, y, z)
    ensures z == QuotBits(x, y)
  {
    hide Nat, BvUdiv, QuotBits;
    QuotTop(x, y, |x|);
    TopWhole(x);
    TopWhole(QuotBits(x, y));
    NatInjective(z, QuotBits(x, y));
  }

  // ---------------------------------------------------------------- the bits of a row

  function RowBits(x: Bits, y: Bits, i: nat): (r: Bits)
    requires i < |x|
    ensures |r| == |x|
  { OfNat(RowNat(x, y, i), |x|) }

  function RemBits(x: Bits, y: Bits, i: nat): (r: Bits)
    requires i <= |x|
    ensures |r| == |x|
  { OfNat(RemAt(x, y, i), |x|) }

  lemma {:induction false} RowValue(x: Bits, y: Bits, i: nat)
    requires i < |x|
    ensures Nat(RowBits(x, y, i)) == RowNat(x, y, i)
  {
    RowBound(x, y, i);
    NatOfNat(RowNat(x, y, i), |x|);
  }

  lemma {:induction false} OfNatPrefix(a: nat, w: nat, k: nat)
    requires k <= w
    ensures OfNat(a, w)[..k] == OfNat(a, k)
  {
    if k > 0 {
      OfNatPrefix(a / 2, w - 1, k - 1);
      assert OfNat(a, w)[..k] == [a % 2 == 1] + OfNat(a / 2, w - 1)[..k - 1];
    }
  }

  /** A row is the shifted remainder with the next dividend bit in its lowest place. */
  lemma {:induction false} RowShift(x: Bits, y: Bits, i: nat)
    requires i < |x|
    ensures RowBits(x, y, i)[0] == x[|x| - 1 - i]
    ensures RowBits(x, y, i)[1..] == SllBits(RemBits(x, y, i), 1)[1..]
  {
    var a, w, b := RemAt(x, y, i), |x|, One(x[|x| - 1 - i]);
    assert (2 * a + b) % 2 == b && (2 * a + b) / 2 == a;
    assert RowBits(x, y, i) == [b % 2 == 1] + OfNat(a, w - 1);
    OfNatPrefix(a, w, w - 1);
    assert SllBits(OfNat(a, w), 1)[1..] == OfNat(a, w)[..w - 1];
  }

  lemma {:induction false} RemStart(x: Bits, y: Bits)
    ensures RemBits(x, y, 0) == seq(|x|, _ => false)
  {
    hide Nat;
    if Nat(y) > 0 { DivModUnique(0, Nat(y), 0, 0); }
    OfZero(|x|);
  }

  lemma {:induction false} OfZero(w: nat)
    ensures OfNat(0, w) == seq(w, _ => false)
  {
    if w > 0 { OfZero(w - 1); }
  }

  /** The difference as the adder computes it: `r + (~y + 1)`. */
  lemma {:induction false} SubIs(x: Bits, y: Bits, i: nat, neg: Bits, sub: Bits)
    requires |x| == |y| == |neg| && i < |x|
    requires Nat(neg) == (Pow2(|x|) - Nat(y)) % Pow2(|x|) && IsSum(RowBits(x, y, i), neg, sub)
    requires RowNat(x, y, i) >= Nat(y)
    ensures sub == RemBits(x, y, i + 1)
  {
    hide Nat, RowNat, RemAt, OfNat, RowBits, BvUdiv;
    var w, V, Y := |x|, RowNat(x, y, i), Nat(y);
    RowValue(x, y, i);
    RowBound(x, y, i);
    RowStep(x, y, i);
    SubArith(V, Y, Pow2(w), Nat(neg), Nat(sub));
    NatOfNat(V - Y, w);
    NatInjective(sub, OfNat(V - Y, w));
  }

  lemma {:induction false} SubArith(V: nat, Y: nat, W: nat, neg: nat, sub: nat)
    requires Y <= V < W && neg == (W - Y) % W && sub == (V + neg) % W
    ensures sub == V - Y
  {
    if Y == 0 {
      DivModUnique(W, W, 1, 0);
      DivModUnique(V, W, 0, V);
    } else {
      DivModUnique(W - Y, W, 0, W - Y);
      DivModUnique(V + (W - Y), W, 1, V - Y);
    }
  }

  lemma {:induction false} RemWhole(x: Bits, y: Bits, z: Bits)
    requires IsRem(x, y, z)
    ensures z == RemBits(x, y, |x|)
  {
    hide Nat;
    TopWhole(x);
    NatBound(z);
    NatOfNat(Nat(z), |x|);
    NatInjective(z, OfNat(Nat(z), |x|));
  }
}
