/** Consistency checks for multiplication, and for the second operand of the divisions
    (src/bzlaconsutils.c:548-613, 643-730, 750-838). */
module BvConsArith {
  import opened Arith
  import opened BvDomain
  import opened BvPropBasic
  import opened BvFill
  import opened BvNat
  import opened BvGenerator
  import opened BvSignedGenerator
  import opened BvRef
  import opened BvReach
  import opened BvReachArith
  import opened BvCons
  import opened BvConsShift

  // ---------------------------------------------------------------- multiplication

  /** The check on a fixed factor with an even target looks at nothing: it is wrong if the
      factor has more trailing zeros than the target. */
  predicate MulBlind(x: Domain, t: Bits) {
    Fixed(x) && Nat(t) != 0 && Ctz(t) > 0 && Nat(Lo(x)) != 0 && Ctz(Lo(x)) > Ctz(t)
  }

  /** `bzla_is_cons_mul_const` */
  method IsConsMul(x: Domain, pos: nat, t: Bits) returns (res: bool, value: Option<Bits>)
    requires Valid(x) && |x| == |t| > 0
    ensures Right(Mul, pos, x, t, res) <==> !MulBlind(x, t)
    ensures Stored(Mul, pos, x, t, value)
    ensures value.Some? <==> res && !t[0] && !Fixed(x)
  {
    hide Nat, Member, Reaches, Fixed, Ctz;
    MulCases(x, pos, t);
    if Nat(t) != 0 { MulShape(x, t); }
    value := None;
    if Nat(t) != 0 && Nat(Hi(x)) == 0 { return false, None; }
    if t[0] && !x[0].hi { return false, None; }
    res := true;
    if !t[0] && !Fixed(x) {
      ZerosAre(|t|);
      NatOne(|t|);
      var tmp := AnyMember(x, Some(if Nat(t) == 0 then Zeros(|t|) else OneBits(|t|)));
      var c := Ctz(t);
      res := false;
      for i := 0 to c + 1
        invariant !res && NoneUpTo(x, i)
      {
        SomeFree(x, i);
        if x[i].hi {
          res := true;
          break;
        }
      }
      if res {
        MemberSize(x, tmp);
        if c < |t| {
          var i: nat :| i <= c && x[i].hi;
          SetOne(x, tmp, i);
          tmp := tmp[i := true];
        }
        MulReach(tmp, pos, t);
        CtzZero(t);
        IsConsistent(Mul, pos, x, tmp, t);
        value := Some(tmp);
      }
    }
  }

  /** All bits of the domain below `i` are fixed to 0. */
  predicate NoneUpTo(x: Domain, i: nat) { i <= |x| && forall j :: 0 <= j < i ==> !x[j].hi }

  lemma {:induction false} SomeFree(x: Domain, i: nat)
    requires Valid(x) && !Fixed(x) && NoneUpTo(x, i)
    ensures i < |x|
  {
  }

  lemma {:induction false} SetOne(x: Domain, v: Bits, i: nat)
    requires Member(x, v) && i < |x| && x[i].hi
    ensures Member(x, v[i := true]) && Ctz(v[i := true]) <= i
  {
    forall j | 0 <= j < |x|
      ensures Allows(x[j], v[i := true][j])
    {
      assert Allows(x[j], v[j]);
    }
  }

  /** There is a factor if some bit that is no higher than the lowest one of the target can be 1. */
  lemma {:induction false} MulCases(x: Domain, pos: nat, t: Bits)
    requires Valid(x) && |x| == |t| > 0
    ensures Consistent(Mul, pos, x, t) <==> Nat(t) == 0 || !NoneUpTo(x, Ctz(t) + 1)
    ensures Nat(t) != 0 <==> Ctz(t) < |t|
    ensures t[0] <==> Ctz(t) == 0
  {
    LoMember(x);
    CtzZero(t);
    assert t[0] <==> Ctz(t) == 0;
    hide Nat, Reaches, Ctz, Member;
    if v: Bits :| |v| > 0 && Member(x, v) && Reaches(Mul, pos, v, t) {
      OneAt(x, v);
      MulReach(v, pos, t);
    }
    if Nat(t) == 0 {
      MulReach(Lo(x), pos, t);
      IsConsistent(Mul, pos, x, Lo(x), t);
    } else if !NoneUpTo(x, Ctz(t) + 1) {
      var i :| 0 <= i < Ctz(t) + 1 && x[i].hi;
      SetOne(x, Lo(x), i);
      MulReach(Lo(x)[i := true], pos, t);
      IsConsistent(Mul, pos, x, Lo(x)[i := true], t);
    }
  }

  lemma {:induction false} OneAt(x: Domain, v: Bits)
    requires Member(x, v)
    ensures |v| == |x| && (Ctz(v) < |v| ==> x[Ctz(v)].hi)
  {
    if Ctz(v) < |v| { assert Allows(x[Ctz(v)], v[Ctz(v)]); }
  }

  /** What the early answers and the unchecked fixed factor amount to. */
  lemma {:induction false} MulShape(x: Domain, t: Bits)
    requires Valid(x) && |x| == |t| > 0 && Nat(t) != 0
    ensures Nat(Hi(x)) == 0 ==> NoneUpTo(x, Ctz(t) + 1) && Nat(Lo(x)) == 0
    ensures Ctz(t) == 0 ==> (NoneUpTo(x, 1) <==> !x[0].hi)
    ensures Fixed(x) && Nat(Hi(x)) != 0 ==> (NoneUpTo(x, Ctz(t) + 1) <==> Ctz(Lo(x)) > Ctz(t)) && Nat(Lo(x)) != 0
  {
    CtzZero(t);
    CtzZero(Hi(x));
    LoMember(x);
    MemberBounds(x, Lo(x));
    if Fixed(x) {
      OnlyMember(x, Hi(x));
      var c := Ctz(Lo(x));
      assert c < |x| ==> Hi(x)[c] == Lo(x)[c];
      if c > Ctz(t) {
        forall j | 0 <= j < Ctz(t) + 1
          ensures !x[j].hi
        {
          assert !Lo(x)[j] && Hi(x)[j] == Lo(x)[j];
        }
      }
    }
    if Nat(Hi(x)) == 0 {
      forall j | 0 <= j < |x|
        ensures !x[j].hi
      {
        assert !Hi(x)[j];
      }
    }
  }

  /** A fixed factor 4 and the target 2 with three bits: the answer is yes, but no product is 2. */
  lemma {:induction false} MulBlindExample()
    ensures var x := NewFixed([false, false, true]); var t := [false, true, false];
            Valid(x) && Nat(t) == 2 && Nat(Lo(x)) == 4 && MulBlind(x, t) && !Consistent(Mul, 0, x, t)
  {
    var x, t := NewFixed([false, false, true]), [false, true, false];
    assert t[1..] == [true, false] && [true, false][1..] == [false] && [false][1..] == [];
    assert Lo(x) == [false, false, true];
    assert Lo(x)[1..] == [false, true] && [false, true][1..] == [true] && [true][1..] == [];
    assert Nat([true]) == 1 && Nat([false, true]) == 2 && Nat([true, false]) == 1;
    assert Ctz(t) == 1 && Ctz(Lo(x)) == 2;
    MulCases(x, 0, t);
    MulShape(x, t);
    NatOfFixed(x);
  }

  lemma {:induction false} NatOfFixed(x: Domain)
    requires Fixed(x)
    ensures Hi(x) == Lo(x)
  {
  }

  // ---------------------------------------------------------------- division

  /** `bzla_bv_is_umulo` */
  predicate Umulo(a: Bits, b: Bits)
    requires |a| == |b|
  { |a| > 1 && Nat(a) * Nat(b) / Pow2(|a|) != 0 }

  lemma {:induction false} UmuloIs(a: Bits, b: Bits)
    requires |a| == |b| > 0
    ensures Umulo(a, b) <==> Nat(a) * Nat(b) >= Pow2(|a|)
  {
    NatBound(a);
    NatBound(b);
    hide Nat;
    var n, p := Nat(a) * Nat(b), Pow2(|a|);
    if |a| == 1 {
      assert p == 2;
      MulMono(Nat(a), 1, Nat(b));
    } else {
      var q := Divide(n, p);
      if q > 0 { MulMono(1, q, p); }
    }
  }

  /** An overflow stays one with a larger factor. */
  lemma {:induction false} UmuloGrows(a: Bits, b: Bits, t: Bits)
    requires |a| == |b| == |t| > 0 && Umulo(a, t) && Nat(a) <= Nat(b)
    ensures Umulo(b, t)
  {
    UmuloIs(a, t);
    UmuloIs(b, t);
    hide Nat, Umulo, Pow2;
    MulMono(Nat(a), Nat(b), Nat(t));
  }

  /** `bzla_bv_dec` */
  function Dec(b: Bits): (r: Bits)
    ensures |r| == |b|
  { OfNat((Nat(b) + Pow2(|b|) - 1) % Pow2(|b|), |b|) }

  lemma {:induction false} DecIs(b: Bits)
    requires Nat(b) > 0
    ensures Nat(Dec(b)) == Nat(b) - 1
  {
    NatBound(b);
    DivModUnique(Nat(b) + Pow2(|b|) - 1, Pow2(|b|), 1, Nat(b) - 1);
    NatOfNat(Nat(b) - 1, |b|);
  }

  /** A quotient that is not all ones: some divisor above 0 does not overflow. */
  lemma {:induction false} UdivCases(x: Domain, v: Bits, t: Bits)
    requires Member(x, v) && |x| == |t| > 0 && Nat(t) != AllOnes(|t|)
    ensures |v| == |x| && (Reaches(Udiv, 1, v, t) <==> Nat(v) > 0 && !Umulo(v, t))
  {
    UdivReach(v, t);
    UmuloIs(v, t);
  }

  /** No divisor below the limit, and all from there on overflow. */
  lemma {:induction false} NoDivisor(x: Domain, t: Bits, limit: Bits)
    requires |x| == |t| == |limit| > 0 && Nat(t) != AllOnes(|t|) && Umulo(limit, t)
    requires forall v: Bits :: Member(x, v) && Nat(v) > 0 ==> Nat(limit) <= Nat(v)
    ensures !Consistent(Udiv, 1, x, t)
  {
    hide Nat, Reaches, Umulo, Member;
    if v: Bits :| |v| > 0 && Member(x, v) && Reaches(Udiv, 1, v, t) {
      UdivCases(x, v, t);
      UmuloGrows(limit, v, t);
    }
  }

  /** The shrinking search: from any divisor that overflows down to one that does not. */
  method ShrinkDivisor(x: Domain, t: Bits) returns (res: bool, v: Bits)
    requires Valid(x) && !Fixed(x) && |x| == |t| > 0 && Nat(t) != AllOnes(|t|)
    ensures Right(Udiv, 1, x, t, res)
    ensures res ==> Member(x, v) && |v| == |x| && Reaches(Udiv, 1, v, t)
  {
    hide Nat, Reaches, Umulo, Member, Fixed;
    var one := OneBits(|t|);
    ZerosAre(|t|);
    NatOne(|t|);
    HiPositive(x);
    v := AnyMember(x, Some(one));
    MemberSize(x, v);
    while Umulo(v, t)
      invariant Member(x, v) && |v| == |x| && Nat(v) > 0
      decreases Nat(v)
    {
      var max := Dec(v);
      DecIs(v);
      var gen := new Generator(x, Some(one), Some(max));
      var has := gen.HasNext();
      if !has {
        NoneSmaller(x, one, max, gen.Coming());
        NoDivisor(x, t, v);
        return false, v;
      }
      v := gen.Random();
      MemberSize(x, v);
    }
    UdivCases(x, v, t);
    IsConsistent(Udiv, 1, x, v, t);
    res := true;
  }

  lemma {:induction false} HiPositive(x: Domain)
    requires Valid(x) && !Fixed(x)
    ensures Nat(Hi(x)) >= 1
  {
    var i :| 0 <= i < |x| && x[i].lo != x[i].hi;
    CtzZero(Hi(x));
    assert Hi(x)[i];
  }

  lemma {:induction false} NoneSmaller(x: Domain, one: Bits, max: Bits, coming: iset<Bits>)
    requires coming == AllWanted(x, Some(one), Some(max)) && coming == iset{} && Nat(one) == 1 && !Fixed(x)
    ensures forall v: Bits :: Member(x, v) && Nat(v) > 0 ==> Nat(max) + 1 <= Nat(v)
  {
    hide Nat, Member, Fixed;
    forall v: Bits | Member(x, v) && Nat(v) > 0
      ensures Nat(max) + 1 <= Nat(v)
    {
      assert v in coming <==> Wanted(x, Some(one), Some(max), v);
    }
  }

  /** `bzla_is_cons_udiv_const`, second operand.  On a fixed divisor only overflow is checked, and
      that is wrong for the divisor 0: then the quotient is always all ones. */
  method IsConsUdivSecond(x: Domain, t: Bits) returns (res: bool, value: Option<Bits>)
    requires Valid(x) && |x| == |t| > 0
    ensures Right(Udiv, 1, x, t, res) <==> !(Fixed(x) && Nat(Lo(x)) == 0 && Nat(t) != AllOnes(|t|))
    ensures Stored(Udiv, 1, x, t, value) && (value.Some? <==> res && !Fixed(x) && Nat(t) != AllOnes(|t|))
  {
    hide Nat, Reaches, Umulo, Member, Fixed;
    value := None;
    if Nat(t) == AllOnes(|t|) {
      AllOnesQuotient(x, t);
      CheckIsMember(x, Zeros(|t|));
      CheckIsMember(x, OneBits(|t|));
      res := CheckFixedBits(x, Zeros(|t|)) || CheckFixedBits(x, OneBits(|t|));
      return;
    }
    if Umulo(Lo(x), t) {
      LoOverflows(x, t);
      return false, None;
    }
    if !Fixed(x) {
      var v: Bits;
      res, v := ShrinkDivisor(x, t);
      if res { value := Some(v); }
    } else {
      FixedDivisor(x, t);
      res := true;
    }
  }

  lemma {:induction false} AllOnesQuotient(x: Domain, t: Bits)
    requires Valid(x) && |x| == |t| > 0 && Nat(t) == AllOnes(|t|)
    ensures Consistent(Udiv, 1, x, t) <==> Member(x, Zeros(|t|)) || Member(x, OneBits(|t|))
  {
    var zero, one := Zeros(|t|), OneBits(|t|);
    ZerosAre(|t|);
    NatOne(|t|);
    UdivReach(zero, t);
    UdivReach(one, t);
    hide Nat, Reaches, Zeros, OneBits;
    if Member(x, zero) { IsConsistent(Udiv, 1, x, zero, t); }
    if Member(x, one) { IsConsistent(Udiv, 1, x, one, t); }
    if v: Bits :| |v| > 0 && Member(x, v) && Reaches(Udiv, 1, v, t) {
      UdivReach(v, t);
      NatInjective(v, if Nat(v) == 0 then zero else one);
    }
  }

  lemma {:induction false} LoOverflows(x: Domain, t: Bits)
    requires Valid(x) && |x| == |t| > 0 && Nat(t) != AllOnes(|t|) && Umulo(Lo(x), t)
    ensures !Consistent(Udiv, 1, x, t) && Nat(Lo(x)) > 0
  {
    UmuloIs(Lo(x), t);
    hide Nat, Member, Umulo, Reaches;
    forall v: Bits | Member(x, v) && Nat(v) > 0
      ensures Nat(Lo(x)) <= Nat(v)
    {
      MemberBounds(x, v);
    }
    NoDivisor(x, t, Lo(x));
    PositiveFactor(Nat(Lo(x)), Nat(t));
  }

  lemma {:induction false} PositiveFactor(a: nat, b: nat)
    ensures a * b > 0 ==> a > 0
  {
  }

  lemma {:induction false} FixedDivisor(x: Domain, t: Bits)
    requires Valid(x) && Fixed(x) && |x| == |t| > 0 && Nat(t) != AllOnes(|t|) && !Umulo(Lo(x), t)
    ensures Consistent(Udiv, 1, x, t) <==> Nat(Lo(x)) > 0
  {
    LoMember(x);
    UdivCases(x, Lo(x), t);
    hide Nat, Umulo, Reaches, Member;
    if Nat(Lo(x)) > 0 { IsConsistent(Udiv, 1, x, Lo(x), t); }
    if v: Bits :| |v| > 0 && Member(x, v) && Reaches(Udiv, 1, v, t) { OnlyMember(x, v); }
  }

  /** `bzla_is_cons_urem_const`, second operand.  A fixed divisor above 0 is always refused: that is
      right only if it is not above the target. */
  method IsConsUremSecond(x: Domain, t: Bits) returns (res: bool, value: Option<Bits>)
    requires Valid(x) && |x| == |t| > 0
    ensures Right(Urem, 1, x, t, res) <==> !(Fixed(x) && Nat(Lo(x)) > Nat(t))
    ensures Stored(Urem, 1, x, t, value) && (value.Some? <==> res && !Member(x, Zeros(|t|)))
  {
    hide Nat, Reaches, Member, Fixed;
    ZerosAre(|t|);
    NatOne(|t|);
    CheckIsMember(x, Zeros(|t|));
    value := None;
    UremCases(x, t);
    if CheckFixedBits(x, Zeros(|t|)) {
      res := true;
    } else if Nat(t) == AllOnes(|t|) {
      NatBound(Lo(x));
      NoRemainder(x, t);
      res := false;
    } else {
      var min := Inc(t);
      IncOne(t);
      var gen := new Generator(x, Some(min), None);
      res := gen.HasNext();
      AnyAbove(x, min, gen.Coming());
      if res {
        var v := gen.Random();
        MemberSize(x, v);
        UremReach(v, t);
        value := Some(v);
      }
    }
  }

  lemma {:induction false} IncOne(t: Bits)
    requires |t| > 0 && Nat(t) != AllOnes(|t|)
    ensures Nat(Inc(t)) == Nat(t) + 1
  {
    NatBound(t);
    hide Nat, Pow2;
    var n := Nat(t) + 1;
    DivModUnique(n, Pow2(|t|), 0, n);
    NatOfNat(n, |t|);
  }

  lemma {:induction false} UremCases(x: Domain, t: Bits)
    requires Valid(x) && |x| == |t| > 0
    ensures Consistent(Urem, 1, x, t) <==> Member(x, Zeros(|t|)) || exists v: Bits :: Member(x, v) && Nat(v) > Nat(t)
    ensures Member(x, Zeros(|t|)) ==> Nat(Lo(x)) == 0
    ensures Fixed(x) ==> (Consistent(Urem, 1, x, t) <==> Member(x, Zeros(|t|)) || Nat(Lo(x)) > Nat(t))
  {
    var zero := Zeros(|t|);
    ZerosAre(|t|);
    NatOne(|t|);
    UremReach(zero, t);
    LoMember(x);
    hide Nat, Reaches, Member, Zeros;
    if Member(x, zero) {
      IsConsistent(Urem, 1, x, zero, t);
      MemberBounds(x, zero);
    }
    if v: Bits :| Member(x, v) && Nat(v) > Nat(t) {
      MemberSize(x, v);
      UremReach(v, t);
      IsConsistent(Urem, 1, x, v, t);
      if Fixed(x) { OnlyMember(x, v); }
    }
    if v: Bits :| |v| > 0 && Member(x, v) && Reaches(Urem, 1, v, t) {
      UremReach(v, t);
      MemberSize(x, v);
      if Nat(v) == 0 { NatInjective(v, zero); }
    }
  }

  lemma {:induction false} NoRemainder(x: Domain, t: Bits)
    requires |x| == |t| > 0 && Nat(t) == AllOnes(|t|)
    ensures forall v: Bits :: Member(x, v) ==> Nat(v) <= Nat(t)
  {
    forall v: Bits | Member(x, v)
      ensures Nat(v) <= Nat(t)
    {
      NatBound(v);
    }
  }

  lemma {:induction false} AnyAbove(x: Domain, min: Bits, coming: iset<Bits>)
    requires coming == AllWanted(x, Some(min), None)
    ensures coming != iset{} <==> !Fixed(x) && exists v: Bits :: Member(x, v) && Nat(v) >= Nat(min)
  {
    hide Nat, Member, Fixed;
    if v :| v in coming { assert Member(x, v) && Nat(v) >= Nat(min); }
    if v: Bits :| Member(x, v) && Nat(v) >= Nat(min) && !Fixed(x) { assert v in coming; }
  }

  // ---------------------------------------------------------------- fixed operands

  /** 0 as a fixed divisor is accepted for the quotient 2 of two bits, which no dividend gives. */
  lemma {:induction false} UdivBlindExample()
    ensures var x := NewFixed([false, false]); var t := [false, true];
            Valid(x) && Fixed(x) && Nat(Lo(x)) == 0 && Nat(t) == 2 && Nat(t) != AllOnes(2) && !Consistent(Udiv, 1, x, t)
  {
    var x, t := NewFixed([false, false]), [false, true];
    NatZeros(Lo(x));
    assert t[1..] == [true] && [true][1..] == [];
    assert Nat([true]) == 1;
    assert Pow2(2) == 4;
    UmuloIs(Lo(x), t);
    FixedDivisor(x, t);
  }

  /** 1 as a fixed divisor is refused for the remainder 0, which it always gives. */
  lemma {:induction false} UremFixedExample()
    ensures var x := NewFixed([true]); var t := [false];
            Valid(x) && Fixed(x) && Nat(Lo(x)) > Nat(t) && Consistent(Urem, 1, x, t)
  {
    var x, t := NewFixed([true]), [false];
    assert Lo(x) == [true] && [true][1..] == [] && t[1..] == [];
    UremCases(x, t);
  }
}
