/** Enumeration in signed order by two unsigned generators, one for the negative and one for
    the other values (src/bzlabvdomain.c:600-714). */
module BvSignedGenerator {
  import opened Arith
  import opened BvDomain
  import opened BvPropBasic
  import opened BvFill
  import opened BvNat
  import opened BvGenerator
  import opened BvRef

  /** The signed reading of a bit-vector. */
  function SignedNat(v: Bits): int
    requires |v| > 0
  { Signed(Nat(v), |v|) }

  function MinSigned(w: nat): (v: Bits)
    requires w > 0
    ensures |v| == w
  { seq(w, i => i == w - 1) }

  function MaxSigned(w: nat): (v: Bits)
    requires w > 0
    ensures |v| == w
  { seq(w, i => i != w - 1) }

  /** `bzla_bv_signed_compare` */
  function SignedCompare(a: Bits, b: Bits): int
    requires |a| == |b| > 0
  {
    var msbA, msbB := a[|a| - 1], b[|b| - 1];
    if msbA && !msbB then -1 else if !msbA && msbB then 1
    else if Nat(a) < Nat(b) then -1 else if Nat(a) > Nat(b) then 1 else 0
  }

  /** The top bit is the sign. */
  lemma {:induction false} TopIsSign(v: Bits)
    requires |v| > 0
    ensures v[|v| - 1] <==> Nat(v) >= Pow2(|v| - 1)
    ensures SignedNat(v) < 0 <==> v[|v| - 1]
    ensures SignedNat(v) == if v[|v| - 1] then Nat(v) - Pow2(|v|) else Nat(v)
    ensures Nat(v) < Pow2(|v|) == 2 * Pow2(|v| - 1)
  {
    var k := |v| - 1;
    NatSplit(v, k);
    assert v[k..] == [v[k]];
    assert Nat([v[k]]) == if v[k] then 1 else 0 by { assert [v[k]][1..] == []; }
    NatBound(v);
  }

  lemma {:induction false} SignedCompareIs(a: Bits, b: Bits)
    requires |a| == |b| > 0
    ensures SignedCompare(a, b) < 0 <==> SignedNat(a) < SignedNat(b)
    ensures SignedCompare(a, b) > 0 <==> SignedNat(a) > SignedNat(b)
  {
    TopIsSign(a);
    TopIsSign(b);
    hide Nat, Pow2, SignedNat;
  }

  lemma {:induction false} SignedExtremes(w: nat, v: Bits)
    requires |v| == w > 0
    ensures SignedNat(MinSigned(w)) <= SignedNat(v) <= SignedNat(MaxSigned(w))
  {
    ExtremeNats(w);
    TopIsSign(MinSigned(w));
    TopIsSign(MaxSigned(w));
    TopIsSign(v);
    hide Nat, Pow2, SignedNat;
  }

  lemma {:induction false} MinNat(w: nat)
    requires w > 0
    ensures Nat(MinSigned(w)) == Pow2(w - 1)
  {
    var a := MinSigned(w);
    NatZeros(a[..w - 1]);
    NatTop(a, w);
    assert a[w..] == [];
    hide Nat, Pow2;
    NatSplit(a, w - 1);
  }

  lemma {:induction false} MaxNat(w: nat)
    requires w > 0
    ensures Nat(MaxSigned(w)) == Pow2(w - 1) - 1
  {
    var b := MaxSigned(w);
    NatOnes(b[..w - 1]);
    NatTop(b, w);
    assert b[w..] == [];
    hide Nat, Pow2;
    NatSplit(b, w - 1);
  }

  lemma {:induction false} ExtremeNats(w: nat)
    requires w > 0
    ensures Nat(MinSigned(w)) == Pow2(w - 1) && Nat(MaxSigned(w)) == Pow2(w - 1) - 1
  {
    hide Nat, Pow2, MinSigned, MaxSigned;
    MinNat(w);
    MaxNat(w);
  }

  /** Members of the domain between the bounds in signed order; nothing from a fixed domain. */
  ghost predicate SignedWanted(d: Domain, lower: Bits, upper: Bits, v: Bits)
    requires |d| == |lower| == |upper| > 0
  {
    !Fixed(d) && Member(d, v) && SignedNat(lower) <= SignedNat(v) <= SignedNat(upper)
  }

  ghost function AllSignedWanted(d: Domain, lower: Bits, upper: Bits): iset<Bits>
    requires |d| == |lower| == |upper| > 0
  { iset v: Bits | SignedWanted(d, lower, upper, v) }

  ghost predicate SignedLeast(v: Bits, s: iset<Bits>, w: nat)
    requires w > 0
  {
    v in s && |v| == w && forall u :: u in s && |u| == w ==> SignedNat(v) <= SignedNat(u)
  }

  class SignedGenerator {
    const domain: Domain
    var genLo: Generator?
    var genHi: Generator?
    var genCur: Generator?
    ghost const lower: Bits
    ghost const upper: Bits

    ghost predicate Valid()
      reads this, genLo, genHi
    {
      && |domain| == |lower| == |upper| > 0
      && (genLo != null ==> genLo.Valid() && genLo.domain == domain && genLo != genHi && LoRange(genLo.min, genLo.max))
      && (genHi != null ==> genHi.Valid() && genHi.domain == domain && HiRange(genHi.min, genHi.max))
      && (genCur == null || genCur == genLo || genCur == genHi)
    }

    /** The first generator stays among the negative values of the range. */
    ghost predicate LoRange(min: Bits, max: Bits)
      requires |domain| == |lower| == |upper| > 0
    {
      SignedNat(lower) < 0 && Nat(lower) <= Nat(min) && (SignedNat(upper) < 0 ==> Nat(max) <= Nat(upper))
    }

    ghost predicate HiRange(min: Bits, max: Bits)
      requires |domain| == |lower| == |upper| > 0
    {
      SignedNat(upper) >= 0 && Nat(max) <= Nat(upper) && (SignedNat(lower) >= 0 ==> Nat(lower) <= Nat(min))
    }

    ghost function ComingLo(): iset<Bits>
      reads this, genLo
    { if genLo != null then genLo.Coming() else iset{} }

    ghost function ComingHi(): iset<Bits>
      reads this, genHi
    { if genHi != null then genHi.Coming() else iset{} }

    /** The values that are still to come. */
    ghost function Coming(): iset<Bits>
      reads this, genLo, genHi
    {
      if genCur == null then iset{} else if genCur == genLo then ComingLo() + ComingHi() else ComingHi()
    }

    /** `bzla_bvdomain_gen_signed_init_range` */
    constructor (d: Domain, min: Option<Bits>, max: Option<Bits>)
      requires BvDomain.Valid(d) && |d| > 0 && (min.Some? ==> |min.value| == |d|) && (max.Some? ==> |max.value| == |d|)
      ensures Valid() && domain == d
      ensures lower == (if min.Some? then min.value else MinSigned(|d|))
      ensures upper == (if max.Some? then max.value else MaxSigned(|d|))
      ensures Coming() == AllSignedWanted(d, lower, upper)
      ensures (genLo == null || fresh(genLo)) && (genHi == null || fresh(genHi))
    {
      hide Nat, Pow2, Member, BvDomain.Valid, Fixed, SignedNat, AllWanted, WantedLo, WantedHi, SignedWanted;
      var bw := |d|;
      var bvmin := if min.None? then MinSigned(bw) else min.value;
      var bvmax := if max.None? then MaxSigned(bw) else max.value;
      var zero: Bits, ones: Bits := seq(bw, _ => false), seq(bw, _ => true);
      var cmpMin, cmpMax := SignedCompare(bvmin, zero), SignedCompare(bvmax, zero);
      ZeroOnes(zero, ones);
      SignedCompareIs(bvmin, zero);
      SignedCompareIs(bvmax, zero);
      domain, lower, upper := d, bvmin, bvmax;
      var lo: Generator?, hi: Generator? := null, null;
      if cmpMin < 0 { lo := new Generator(d, Some(bvmin), Some(if cmpMax < 0 then bvmax else ones)); }
      if cmpMax >= 0 { hi := new Generator(d, Some(if cmpMin >= 0 then bvmin else zero), Some(bvmax)); }
      genLo, genHi := lo, hi;
      genCur := if lo != null then lo else hi;
      new;
      if lo != null { LoAll(d, bvmin, bvmax, ones); }
      if hi != null { HiAll(d, bvmin, bvmax, zero); }
      BothSigns(d, bvmin, bvmax);
    }

    /** `bzla_bvdomain_gen_signed_has_next`: moves on to the second generator when the first is done. */
    method HasNext() returns (has: bool)
      requires Valid()
      modifies `genCur
      ensures Valid() && Coming() == old(Coming()) && (has <==> Coming() != iset{})
      ensures has ==> genCur != null && genCur.bits.Some?
      ensures (genCur == null || genCur == genLo || genCur == genHi) && Left() == old(Left())
    {
      hide LoRange, HiRange;
      if genCur == null { return false; }
      has := genCur.HasNext();
      if !has && genCur == genLo && genHi != null {
        genCur := genHi;
        has := genCur.HasNext();
      }
    }

    /** `bzla_bvdomain_gen_signed_next`, asked right after `HasNext` said yes. */
    method Next() returns (v: Bits)
      requires Valid() && genCur != null && genCur.bits.Some?
      modifies genCur`bits, genCur`cur
      ensures Valid() && SignedLeast(v, old(Coming()), |domain|) && Coming() == old(Coming()) - iset{v}
      ensures Left() < old(Left())
    {
      ghost var lo, hi, g := ComingLo(), ComingHi(), genCur.Coming();
      SignsKnown();
      v := genCur.Next();
      LeastInOrder(v, g, lo, hi, lower, upper);
    }

    /** `bzla_bvdomain_gen_signed_random`: any wanted value, of either generator. */
    method Random() returns (v: Bits)
      requires Valid() && ((genLo != null && genLo.bits.Some?) || (genHi != null && genHi.bits.Some?))
      modifies genLo, genHi
      ensures Valid() && ((genLo != null && genLo.bits.Some?) || (genHi != null && genHi.bits.Some?))
      ensures |v| == |domain| && Member(domain, v) && SignedNat(lower) <= SignedNat(v) <= SignedNat(upper)
    {
      var hasLo, hasHi := false, false;
      if genLo != null { hasLo := genLo.HasNext(); }
      if genHi != null { hasHi := genHi.HasNext(); }
      var flip: bool := *;
      if hasLo && (!hasHi || flip) {
        v := genLo.Random();
        LoInRange(domain, lower, upper, genLo.min, genLo.max, v);
      } else {
        v := genHi.Random();
        HiInRange(domain, lower, upper, genHi.min, genHi.max, v);
      }
    }

    /** How many more bits the two generators have to try. */
    ghost function Left(): nat
      requires Valid()
      reads this, genLo, genHi
    { (if genLo != null then genLo.Left() else 0) + if genHi != null then genHi.Left() else 0 }

    lemma {:induction false} SignsKnown()
      requires Valid()
      ensures forall u :: u in ComingLo() ==> |u| == |domain| && SignedNat(u) < 0
      ensures forall u :: u in ComingHi() ==> |u| == |domain| && SignedNat(u) >= 0
    {
      forall u | u in ComingLo()
        ensures |u| == |domain| && SignedNat(u) < 0
      {
        LoInRange(domain, lower, upper, genLo.min, genLo.max, u);
      }
      forall u | u in ComingHi()
        ensures |u| == |domain| && SignedNat(u) >= 0
      {
        HiInRange(domain, lower, upper, genHi.min, genHi.max, u);
      }
    }
  }

  lemma {:induction false} LoInRange(d: Domain, lower: Bits, upper: Bits, min: Bits, max: Bits, v: Bits)
    requires |d| == |lower| == |upper| > 0 && Member(d, v) && Nat(min) <= Nat(v) <= Nat(max)
    requires SignedNat(lower) < 0 && Nat(lower) <= Nat(min) && (SignedNat(upper) < 0 ==> Nat(max) <= Nat(upper))
    ensures |v| == |d| && SignedNat(v) < 0 && SignedNat(lower) <= SignedNat(v) <= SignedNat(upper)
  {
    hide Nat, SignedNat, Member;
    MemberSize(d, v);
    SignedOrder(lower, v);
    SignedOrder(v, lower);
    SignedOrder(v, upper);
  }

  lemma {:induction false} HiInRange(d: Domain, lower: Bits, upper: Bits, min: Bits, max: Bits, v: Bits)
    requires |d| == |lower| == |upper| > 0 && Member(d, v) && Nat(min) <= Nat(v) <= Nat(max)
    requires SignedNat(upper) >= 0 && Nat(max) <= Nat(upper) && (SignedNat(lower) >= 0 ==> Nat(lower) <= Nat(min))
    ensures |v| == |d| && SignedNat(v) >= 0 && SignedNat(lower) <= SignedNat(v) <= SignedNat(upper)
  {
    hide Nat, SignedNat, Member;
    MemberSize(d, v);
    SignedOrder(lower, v);
    SignedOrder(v, upper);
  }

  /** The least value of the current generator is least in signed order. */
  lemma {:induction false} LeastInOrder(v: Bits, g: iset<Bits>, lo: iset<Bits>, hi: iset<Bits>, lower: Bits,
        upper: Bits)
    requires Least(v, g) && |lower| > 0
    requires forall u :: u in lo ==> |u| == |lower| && SignedNat(u) < 0
    requires forall u :: u in hi ==> |u| == |lower| && SignedNat(u) >= 0
    ensures g == hi ==> SignedLeast(v, hi, |lower|)
    ensures g == lo ==> SignedLeast(v, lo + hi, |lower|) && v !in hi
  {
    hide Nat, SignedNat;
    forall u | u in g && (g == lo || g == hi)
      ensures SignedNat(v) <= SignedNat(u)
    {
      SignedOrder(v, u);
    }
  }

  /** The wanted values below 0, and the others. */
  ghost function WantedLo(d: Domain, lower: Bits, upper: Bits): iset<Bits>
    requires |d| == |lower| == |upper| > 0
  { iset v: Bits | SignedWanted(d, lower, upper, v) && Negative(v) }

  ghost function WantedHi(d: Domain, lower: Bits, upper: Bits): iset<Bits>
    requires |d| == |lower| == |upper| > 0
  { iset v: Bits | SignedWanted(d, lower, upper, v) && !Negative(v) }

  lemma {:induction false} LoAll(d: Domain, lower: Bits, upper: Bits, ones: Bits)
    requires |d| == |lower| == |upper| == |ones| > 0 && (forall i :: 0 <= i < |ones| ==> ones[i])
    requires SignedNat(lower) < 0
    ensures AllWanted(d, Some(lower), Some(if SignedNat(upper) < 0 then upper else ones)) == WantedLo(d, lower, upper)
  {
    hide Nat, SignedNat, Negative;
    forall v: Bits
      ensures v in AllWanted(d, Some(lower), Some(if SignedNat(upper) < 0 then upper else ones)) <==>
              v in WantedLo(d, lower, upper)
    {
      if |v| == |d| { LoWanted(d, lower, upper, ones, v); }
    }
  }

  lemma {:induction false} HiAll(d: Domain, lower: Bits, upper: Bits, zero: Bits)
    requires |d| == |lower| == |upper| == |zero| > 0 && (forall i :: 0 <= i < |zero| ==> !zero[i])
    requires SignedNat(upper) >= 0
    ensures AllWanted(d, Some(if SignedNat(lower) >= 0 then lower else zero), Some(upper)) == WantedHi(d, lower, upper)
  {
    hide Nat, SignedNat, Negative;
    forall v: Bits
      ensures v in AllWanted(d, Some(if SignedNat(lower) >= 0 then lower else zero), Some(upper)) <==>
              v in WantedHi(d, lower, upper)
    {
      if |v| == |d| { HiWanted(d, lower, upper, zero, v); }
    }
  }

  lemma {:induction false} BothSigns(d: Domain, lower: Bits, upper: Bits)
    requires |d| == |lower| == |upper| > 0
    ensures WantedLo(d, lower, upper) + WantedHi(d, lower, upper) == AllSignedWanted(d, lower, upper)
    ensures SignedNat(lower) >= 0 ==> WantedLo(d, lower, upper) == iset{}
    ensures SignedNat(upper) < 0 ==> WantedHi(d, lower, upper) == iset{}
  {
    hide Nat, SignedNat;
  }

  ghost predicate Negative(v: Bits) { |v| > 0 && SignedNat(v) < 0 }

  lemma {:induction false} LoWanted(d: Domain, lower: Bits, upper: Bits, ones: Bits, v: Bits)
    requires |d| == |lower| == |upper| == |ones| == |v| > 0 && forall i :: 0 <= i < |ones| ==> ones[i]
    ensures SignedNat(lower) >= 0 ==> !(SignedWanted(d, lower, upper, v) && Negative(v))
    ensures SignedNat(lower) < 0 ==> (
      Wanted(d, Some(lower), Some(if SignedNat(upper) < 0 then upper else ones), v) <==>
        SignedWanted(d, lower, upper, v) && Negative(v))
  {
    SignedOrder(v, lower);
    SignedOrder(v, upper);
    SignedOrder(lower, v);
    NatOnes(ones);
    NatBound(v);
    hide Nat, SignedNat, Member, Fixed;
  }

  lemma {:induction false} HiWanted(d: Domain, lower: Bits, upper: Bits, zero: Bits, v: Bits)
    requires |d| == |lower| == |upper| == |zero| == |v| > 0 && forall i :: 0 <= i < |zero| ==> !zero[i]
    ensures SignedNat(upper) < 0 ==> !(SignedWanted(d, lower, upper, v) && !Negative(v))
    ensures SignedNat(upper) >= 0 ==> (
      Wanted(d, Some(if SignedNat(lower) >= 0 then lower else zero), Some(upper), v) <==>
        SignedWanted(d, lower, upper, v) && !Negative(v))
  {
    SignedOrder(v, lower);
    SignedOrder(v, upper);
    SignedOrder(lower, v);
    NatZeros(zero);
    hide Nat, SignedNat, Member, Fixed;
  }

  lemma {:induction false} ZeroOnes(zero: Bits, ones: Bits)
    requires |zero| == |ones| > 0 && (forall i :: 0 <= i < |zero| ==> !zero[i] && ones[i])
    ensures SignedNat(zero) == 0
  {
    NatZeros(zero);
    TopIsSign(zero);
  }

  /** Values of the same sign are ordered as naturals, others by their sign. */
  lemma {:induction false} SignedOrder(u: Bits, v: Bits)
    requires |u| == |v| > 0
    ensures (SignedNat(u) < 0) == (SignedNat(v) < 0) ==> (SignedNat(u) <= SignedNat(v) <==> Nat(u) <= Nat(v))
    ensures SignedNat(u) < 0 <= SignedNat(v) ==> Nat(v) < Nat(u)
  {
    TopIsSign(u);
    TopIsSign(v);
    hide Nat, Pow2, SignedNat;
  }

  // ---------------------------------------------------------------- a whole run

  ghost predicate SignedAscending(s: seq<Bits>, w: nat)
    requires w > 0
  {
    && (forall i :: 0 <= i < |s| ==> |s[i]| == w)
    && forall i, j :: 0 <= i < j < |s| ==> SignedNat(s[i]) < SignedNat(s[j])
  }

  ghost predicate SignedPrefix(s: seq<Bits>, rest: iset<Bits>, all: iset<Bits>, w: nat)
    requires w > 0
  {
    && SignedAscending(s, w) && (forall v :: v in rest ==> |v| == w)
    && (forall v: Bits :: v in all <==> v in s || v in rest)
    && forall v, u :: v in s && u in rest ==> |v| == w && SignedNat(v) < SignedNat(u)
  }

  lemma {:induction false} OneMoreSigned(s: seq<Bits>, rest: iset<Bits>, all: iset<Bits>, v: Bits, w: nat)
    requires w > 0 && SignedPrefix(s, rest, all, w) && SignedLeast(v, rest, w)
    ensures SignedPrefix(s + [v], rest - iset{v}, all, w)
  {
    forall u | u in rest && u != v
      ensures SignedNat(v) < SignedNat(u)
    {
      if SignedNat(v) == SignedNat(u) { SignedInjective(v, u); }
    }
    hide Nat, SignedNat;
  }

  lemma {:induction false} SignedInjective(u: Bits, v: Bits)
    requires |u| == |v| > 0 && SignedNat(u) == SignedNat(v)
    ensures u == v
  {
    TopIsSign(u);
    TopIsSign(v);
    NatInjective(u, v);
  }

  /** A member between the bounds that are given, of a domain with a free bit. */
  ghost predicate SignedInside(d: Domain, min: Option<Bits>, max: Option<Bits>, v: Bits)
    requires (min.Some? ==> |min.value| == |d|) && (max.Some? ==> |max.value| == |d|)
  {
    && !Fixed(d) && |v| == |d| > 0 && Member(d, v)
    && (min.Some? ==> SignedNat(min.value) <= SignedNat(v)) && (max.Some? ==> SignedNat(v) <= SignedNat(max.value))
  }

  /** Exactly the members between the bounds, each once, in signed order. */
  method AllSigned(d: Domain, min: Option<Bits>, max: Option<Bits>) returns (values: seq<Bits>)
    requires BvDomain.Valid(d) && |d| > 0 && (min.Some? ==> |min.value| == |d|) && (max.Some? ==> |max.value| == |d|)
    ensures SignedAscending(values, |d|)
    ensures forall v: Bits :: v in values <==> SignedInside(d, min, max, v)
  {
    hide Nat, SignedNat, SignedPrefix, SignedAscending, SignedWanted, SignedInside, AllSignedWanted, SignedLeast;
    hide Fixed, Member, MinSigned, MaxSigned, BvDomain.Valid;
    var gen := new SignedGenerator(d, min, max);
    ghost var all := AllSignedWanted(d, gen.lower, gen.upper);
    values := [];
    hide gen.Valid, gen.Coming, gen.ComingLo, gen.ComingHi, gen.Left;
    NoneSigned(d, gen.lower, gen.upper);
    var has := gen.HasNext();
    while has
      invariant gen.Valid() && gen.domain == d && fresh(gen) && (has <==> gen.Coming() != iset{})
      invariant (gen.genLo == null || fresh(gen.genLo)) && (gen.genHi == null || fresh(gen.genHi))
      invariant has ==> gen.genCur != null && gen.genCur.bits.Some?
      invariant gen.genCur == null || gen.genCur == gen.genLo || gen.genCur == gen.genHi
      invariant SignedPrefix(values, gen.Coming(), all, |d|)
      decreases gen.Left()
    {
      ghost var rest := gen.Coming();
      var v := gen.Next();
      OneMoreSigned(values, rest, all, v, |d|);
      values := values + [v];
      has := gen.HasNext();
    }
    SignedDone(d, gen.lower, gen.upper, values);
    InsideIs(d, min, max, gen.lower, gen.upper);
  }

  lemma {:induction false} InsideIs(d: Domain, min: Option<Bits>, max: Option<Bits>, lower: Bits, upper: Bits)
    requires |d| == |lower| == |upper| > 0
    requires lower == (if min.Some? then min.value else MinSigned(|d|))
    requires upper == (if max.Some? then max.value else MaxSigned(|d|))
    ensures forall v: Bits :: SignedWanted(d, lower, upper, v) <==> SignedInside(d, min, max, v)
  {
    hide Nat, SignedNat, Fixed;
    forall v: Bits
      ensures SignedWanted(d, lower, upper, v) <==> SignedInside(d, min, max, v)
    {
      if |v| == |d| { SignedExtremes(|d|, v); }
    }
  }

  lemma {:induction false} NoneSigned(d: Domain, lower: Bits, upper: Bits)
    requires |d| == |lower| == |upper| > 0
    ensures var all := AllSignedWanted(d, lower, upper); SignedPrefix([], all, all, |d|)
  {
    hide SignedNat;
  }

  lemma {:induction false} SignedDone(d: Domain, lower: Bits, upper: Bits, s: seq<Bits>)
    requires |d| == |lower| == |upper| > 0
    requires SignedPrefix(s, iset{}, AllSignedWanted(d, lower, upper), |d|)
    ensures SignedAscending(s, |d|)
    ensures forall v: Bits :: v in s <==> SignedWanted(d, lower, upper, v)
  {
    hide SignedNat, Member, Fixed;
    forall v: Bits
      ensures v in s <==> SignedWanted(d, lower, upper, v)
    {
      assert v in AllSignedWanted(d, lower, upper) <==> SignedWanted(d, lower, upper, v);
    }
  }
}
