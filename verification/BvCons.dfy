/** Consistency checks: can some value of a domain give the target, whatever the other operand
    is (src/bzlaconsutils.c)?  The checks that only look at bounds. */
module BvCons {
  import opened Arith
  import opened BvDomain
  import opened BvPropBasic
  import opened BvFill
  import opened BvNat
  import opened BvRef
  import opened BvReach
  import opened BvReachArith
  import opened BvSignedGenerator

  /** `bzla_bvdomain_check_fixed_bits` */
  predicate CheckFixedBits(d: Domain, v: Bits)
    requires |d| == |v|
  { OrBits(AndBits(v, Hi(d)), Lo(d)) == v }

  lemma {:induction false} CheckIsMember(d: Domain, v: Bits)
    requires Valid(d) && |d| == |v|
    ensures CheckFixedBits(d, v) <==> Member(d, v)
  {
    var r := OrBits(AndBits(v, Hi(d)), Lo(d));
    assert forall i :: 0 <= i < |d| ==> (r[i] == v[i] <==> Allows(d[i], v[i]));
    if r == v {
      assert forall i :: 0 <= i < |d| ==> r[i] == v[i];
    }
  }

  /** `bzla_is_cons_and_const` */
  predicate IsConsAnd(x: Domain, t: Bits)
    requires |x| == |t|
  { AndBits(t, Hi(x)) == t }

  lemma {:induction false} AndExact(x: Domain, pos: nat, t: Bits)
    requires Valid(x) && |x| == |t| > 0
    ensures IsConsAnd(x, t) <==> Consistent(And, pos, x, t)
  {
    if IsConsAnd(x, t) {
      LoMember(x);
      forall i | 0 <= i < |t|
        ensures AndBits(Hi(x), t)[i] == t[i]
      {
        assert AndBits(t, Hi(x))[i] == t[i];
      }
      AndReach(Hi(x), pos, t);
      IsConsistent(And, pos, x, Hi(x), t);
    }
    if v: Bits :| |v| > 0 && Member(x, v) && Reaches(And, pos, v, t) {
      AndReach(v, pos, t);
      forall i | 0 <= i < |t|
        ensures AndBits(t, Hi(x))[i] == t[i]
      {
        assert AndBits(v, t)[i] == t[i] && Allows(x[i], v[i]);
      }
    }
  }

  /** `bzla_is_cons_ult_const` */
  predicate IsConsUlt(x: Domain, pos: nat, t: Bits)
    requires |t| == 1
  { Nat(t) == 0 || (if pos == 0 then Nat(Lo(x)) != AllOnes(|x|) else Nat(Hi(x)) != 0) }

  lemma {:induction false} UltExact(x: Domain, pos: nat, t: Bits)
    requires Valid(x) && |x| > 0 && |t| == 1 && pos <= 1
    ensures IsConsUlt(x, pos, t) <==> Consistent(Ult, pos, x, t)
  {
    OneBit(t);
    LoMember(x);
    UltReach(Lo(x), t);
    UltReach(Hi(x), t);
    hide Nat, Reaches, Member;
    if IsConsUlt(x, pos, t) { IsConsistent(Ult, pos, x, if pos == 0 then Lo(x) else Hi(x), t); }
    if v: Bits :| |v| > 0 && Member(x, v) && Reaches(Ult, pos, v, t) {
      MemberBounds(x, v);
      MemberSize(x, v);
      UltReach(v, t);
      NatBound(v);
    }
  }

  /** `bzla_is_cons_slt_const` */
  predicate IsConsSlt(x: Domain, pos: nat, t: Bits)
    requires |t| == 1 && |x| > 0
  { Nat(t) == 0 || !Fixed(x) || Lo(x) != (if pos == 0 then MaxSigned(|x|) else MinSigned(|x|)) }

  lemma {:induction false} SltExact(x: Domain, pos: nat, t: Bits)
    requires Valid(x) && |x| > 0 && |t| == 1 && pos <= 1
    ensures IsConsSlt(x, pos, t) <==> Consistent(Slt, pos, x, t)
  {
    OneBit(t);
    LoMember(x);
    SltReach(Lo(x), t);
    SltReach(Hi(x), t);
    if !Fixed(x) { BoundsDiffer(x); }
    hide Nat, Reaches;
    if IsConsSlt(x, pos, t) {
      var v := if Reaches(Slt, pos, Lo(x), t) then Lo(x) else Hi(x);
      IsConsistent(Slt, pos, x, v, t);
    }
    if v: Bits :| |v| > 0 && Member(x, v) && Reaches(Slt, pos, v, t) {
      if Fixed(x) { OnlyMember(x, v); }
      SltReach(v, t);
    }
  }

  lemma {:induction false} BoundsDiffer(x: Domain)
    requires !Fixed(x)
    ensures Lo(x) != Hi(x)
  {
    var i :| 0 <= i < |x| && x[i].lo != x[i].hi;
    assert Lo(x)[i] != Hi(x)[i];
  }

  /** A fixed domain has one member. */
  lemma {:induction false} OnlyMember(x: Domain, v: Bits)
    requires Fixed(x) && Member(x, v)
    ensures v == Lo(x)
  {
    forall i | 0 <= i < |x|
      ensures v[i] == Lo(x)[i]
    {
      assert Allows(x[i], v[i]) && x[i].lo == x[i].hi;
    }
  }

  /** `bzla_is_cons_concat_const`; `ws` is the width of the other operand. */
  predicate IsConsConcat(x: Domain, pos: nat, ws: nat, t: Bits)
    requires |t| == |x| + ws
  { CheckFixedBits(x, if pos == 0 then t[ws..] else t[..|t| - ws]) }

  /** The upper operand stands behind the lower one in a bit sequence. */
  ghost predicate ConcatReaches(pos: nat, v: Bits, ws: nat, t: Bits) {
    exists s: Bits :: |s| == ws && t == if pos == 0 then s + v else v + s
  }

  lemma {:induction false} ConcatExact(x: Domain, pos: nat, ws: nat, t: Bits)
    requires Valid(x) && |t| == |x| + ws
    ensures IsConsConcat(x, pos, ws, t) <==> exists v: Bits :: Member(x, v) && ConcatReaches(pos, v, ws, t)
  {
    var v := if pos == 0 then t[ws..] else t[..|t| - ws];
    var s := if pos == 0 then t[..ws] else t[|t| - ws..];
    assert t == if pos == 0 then s + v else v + s;
    assert ConcatReaches(pos, v, ws, t);
    CheckIsMember(x, v);
    if u: Bits :| Member(x, u) && ConcatReaches(pos, u, ws, t) {
      var r: Bits :| |r| == ws && t == if pos == 0 then r + u else u + r;
      assert u == v;
    }
  }
}
