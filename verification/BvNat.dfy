/** The numbers of the bit operations (src/bzlabv.c:851-864, 1265-1326, 1352-1382). */
module BvNat {
  import opened Arith
  import opened BvDomain
  import opened BvPropBasic
  import opened BvRef

  lemma {:induction false} NatSplit(u: Bits, k: nat)
    requires k <= |u|
    ensures Nat(u) == Nat(u[..k]) + Pow2(k) * Nat(u[k..]) && Nat(u[..k]) < Pow2(k)
  {
    assert u == u[..k] + u[k..];
    NatConcat(u[..k], u[k..]);
    NatBound(u[..k]);
  }

  lemma {:induction false} NatTop(u: Bits, k: nat)
    requires 0 < k <= |u|
    ensures Nat(u[k - 1..]) == (if u[k - 1] then 1 else 0) + 2 * Nat(u[k..])
  {
    assert u[k - 1..][1..] == u[k..];
  }

  lemma {:induction false} NatZeros(u: Bits)
    requires forall q :: 0 <= q < |u| ==> !u[q]
    ensures Nat(u) == 0
  {
    if u != [] { NatZeros(u[1..]); }
  }

  lemma {:induction false} NatOnes(u: Bits)
    requires forall q :: 0 <= q < |u| ==> u[q]
    ensures Nat(u) == Pow2(|u|) - 1
  {
    if u != [] { NatOnes(u[1..]); }
  }

  lemma {:induction false} NatNot(u: Bits)
    ensures Nat(NotBits(u)) == Pow2(|u|) - 1 - Nat(u)
  {
    if u != [] {
      NatNot(u[1..]);
      assert NotBits(u)[1..] == NotBits(u[1..]);
    }
  }

  lemma {:induction false} HighOnly(u: Bits, k: nat)
    requires k <= |u| && Nat(u[..k]) == 0
    ensures Nat(u) == Pow2(k) * Nat(u[k..])
  {
    hide Nat, Pow2;
    NatSplit(u, k);
  }

  lemma {:induction false} LowOnly(u: Bits, k: nat)
    requires k <= |u| && Nat(u[k..]) == 0
    ensures Nat(u) == Nat(u[..k])
  {
    hide Nat, Pow2;
    NatSplit(u, k);
    var z := Nat(u[k..]);
    assert Pow2(k) * z == 0;
  }

  lemma {:induction false} SllParts(v: Bits, n: nat)
    requires n < |v|
    ensures SllBits(v, n)[n..] == v[..|v| - n] && Nat(SllBits(v, n)[..n]) == 0
  {
    NatZeros(SllBits(v, n)[..n]);
  }

  lemma {:induction false} NatSll(v: Bits, n: nat)
    ensures Nat(SllBits(v, n)) == BvSll(Nat(v), n, |v|)
  {
    var r, w := SllBits(v, n), |v|;
    if n >= w {
      NatZeros(r);
    } else {
      SllParts(v, n);
      hide Nat, Pow2, SllBits, BvSll;
      HighOnly(r, n);
      SllOfSplit(v, n);
    }
  }

  lemma {:induction false} SllOfSplit(v: Bits, n: nat)
    requires n < |v|
    ensures BvSll(Nat(v), n, |v|) == Pow2(n) * Nat(v[..|v| - n])
  {
    hide Nat, Pow2, BvSll;
    var k := |v| - n;
    NatSplit(v, k);
    SllNumbers(Nat(v), Nat(v[k..]), Nat(v[..k]), k, n);
  }

  lemma {:induction false} SllNumbers(a: nat, up: nat, low: nat, k: nat, n: nat)
    requires a == low + Pow2(k) * up && low < Pow2(k) && k > 0
    ensures BvSll(a, n, k + n) == Pow2(n) * low
  {
    hide Pow2;
    ShiftOut(up, low, k, n);
    assert a == up * Pow2(k) + low;
  }

  lemma {:induction false} SrlParts(v: Bits, n: nat)
    requires n < |v|
    ensures SrlBits(v, n)[..|v| - n] == v[n..] && Nat(SrlBits(v, n)[|v| - n..]) == 0
  {
    NatZeros(SrlBits(v, n)[|v| - n..]);
  }

  lemma {:induction false} NatSrl(v: Bits, n: nat)
    ensures Nat(SrlBits(v, n)) == BvSrl(Nat(v), n, |v|)
  {
    var r, w := SrlBits(v, n), |v|;
    if n >= w {
      NatZeros(r);
    } else {
      SrlParts(v, n);
      hide Nat, Pow2, SrlBits, BvSrl;
      LowOnly(r, w - n);
      NatSplit(v, n);
      SrlNumbers(Nat(v), Nat(v[n..]), Nat(v[..n]), n, w);
    }
  }

  lemma {:induction false} SrlNumbers(a: nat, up: nat, low: nat, n: nat, w: nat)
    requires a == low + Pow2(n) * up && low < Pow2(n) && n < w
    ensures BvSrl(a, n, w) == up
  {
    hide Pow2;
    DivModUnique(a, Pow2(n), up, low);
  }

  // ---------------------------------------------------------------- 0 and 1

  /** `bzla_bv_zero` */
  function Zeros(w: nat): (r: Bits)
    ensures |r| == w
  { seq(w, _ => false) }

  lemma {:induction false} ZerosAre(w: nat)
    ensures Nat(Zeros(w)) == 0
  {
    NatZeros(Zeros(w));
  }

  /** `bzla_bv_one` */
  function OneBits(w: nat): (r: Bits)
    ensures |r| == w
  { seq(w, i => i == 0) }

  lemma {:induction false} NatOne(w: nat)
    requires w > 0
    ensures Nat(OneBits(w)) == 1
  {
    NatZeros(OneBits(w)[1..]);
  }
}
