/** Ripple-carry addition on bit sequences and what it computes. */
module BvCarry {
  import opened Arith
  import opened BvDomain
  import opened BvPropBasic

  function Maj(a: bool, b: bool, c: bool): bool { (a && b) || (c && (a != b)) }

  /** The carry into position `i`. */
  function CarryIn(x: Bits, y: Bits, i: nat): bool
    requires |x| == |y| && i <= |x|
  {
    i > 0 && Maj(x[i - 1], y[i - 1], CarryIn(x, y, i - 1))
  }

  function CinBits(x: Bits, y: Bits): (r: Bits)
    requires |x| == |y|
    ensures |r| == |x|
  { seq(|x|, i requires 0 <= i < |x| => CarryIn(x, y, i)) }

  function CarryBits(x: Bits, y: Bits): (r: Bits)
    requires |x| == |y|
    ensures |r| == |x|
  { seq(|x|, i requires 0 <= i < |x| => CarryIn(x, y, i + 1)) }

  function AddBits(x: Bits, y: Bits): (r: Bits)
    requires |x| == |y|
    ensures |r| == |x|
  { XorBits(XorBits(x, y), CinBits(x, y)) }

  function One(b: bool): nat { if b then 1 else 0 }

  lemma {:induction false} NatPush(v: Bits, i: nat)
    requires i < |v|
    ensures Nat(v[..i + 1]) == Nat(v[..i]) + (if v[i] then Pow2(i) else 0)
  {
    assert v[..i + 1] == v[..i] + [v[i]];
    NatConcat(v[..i], [v[i]]);
    assert [v[i]][1..] == [];
    assert Nat([v[i]]) == One(v[i]);
  }

  /** The low `i` bits of the sum, and the carry out of them. */
  lemma {:induction false} AddPrefix(x: Bits, y: Bits, i: nat)
    requires |x| == |y| && i <= |x|
    ensures Nat(AddBits(x, y)[..i]) + (if CarryIn(x, y, i) then Pow2(i) else 0) == Nat(x[..i]) + Nat(y[..i])
  {
    if i > 0 {
      AddPrefix(x, y, i - 1);
      NatPush(x, i - 1);
      NatPush(y, i - 1);
      NatPush(AddBits(x, y), i - 1);
      Pow2Succ(i - 1);
    }
  }

  lemma {:induction false} AddWhole(x: Bits, y: Bits)
    requires |x| == |y|
    ensures Nat(AddBits(x, y)) + (if CarryIn(x, y, |x|) then Pow2(|x|) else 0) == Nat(x) + Nat(y)
    ensures Nat(AddBits(x, y)) == (Nat(x) + Nat(y)) % Pow2(|x|)
    ensures CarryIn(x, y, |x|) <==> Nat(x) + Nat(y) >= Pow2(|x|)
  {
    AddPrefix(x, y, |x|);
    assert x[..|x|] == x && y[..|x|] == y && AddBits(x, y)[..|x|] == AddBits(x, y);
    NatBound(AddBits(x, y));
    DivModUnique(Nat(x) + Nat(y), Pow2(|x|), if CarryIn(x, y, |x|) then 1 else 0, Nat(AddBits(x, y)));
  }

  /** `z` is the sum of `x` and `y` modulo 2^w. */
  ghost predicate IsSum(x: Bits, y: Bits, z: Bits) {
    |x| == |y| == |z| && Nat(z) == (Nat(x) + Nat(y)) % Pow2(|x|)
  }

  lemma {:induction false} SumIsAdd(x: Bits, y: Bits, z: Bits)
    requires |x| == |y|
    ensures IsSum(x, y, z) <==> z == AddBits(x, y)
  {
    AddWhole(x, y);
    if IsSum(x, y, z) { NatInjective(z, AddBits(x, y)); }
  }

  /** The equations of the decomposition hold for the carries. */
  lemma {:induction false} FullAdder(x: Bits, y: Bits)
    requires |x| == |y|
    ensures CarryBits(x, y) == OrBits(AndBits(x, y), AndBits(CinBits(x, y), XorBits(x, y)))
    ensures CinBits(x, y) == SllBits(CarryBits(x, y), 1)
  {
    forall i | 0 <= i < |x|
      ensures CarryBits(x, y)[i] == OrBits(AndBits(x, y), AndBits(CinBits(x, y), XorBits(x, y)))[i]
    {
      assert CarryIn(x, y, i + 1) == Maj(x[i], y[i], CarryIn(x, y, i));
    }
  }
}
