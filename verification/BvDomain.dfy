/** Three-valued bit-vector domains (src/bzlabvdomain.c:20-250) and bit-vectors as bit
    sequences, least significant bit first. */
module BvDomain {
  import opened Arith

  type Bits = seq<bool>

  /** One bit of a domain: `lo` is 1 if the bit must be 1, `hi` is 0 if it must be 0. */
  datatype Bit = Bit(lo: bool, hi: bool)

  type Domain = seq<Bit>

  const FREE := Bit(false, true)
  const ZERO := Bit(false, false)
  const ONE := Bit(true, true)

  function FixedBit(b: bool): Bit { Bit(b, b) }

  /** `bzla_bvdomain_new_init` */
  function NewInit(w: nat): (d: Domain)
    ensures |d| == w
  { seq(w, _ => FREE) }

  /** `bzla_bvdomain_new_fixed` */
  function NewFixed(v: Bits): (d: Domain)
    ensures |d| == |v|
  { seq(|v|, i requires 0 <= i < |v| => FixedBit(v[i])) }

  /** `bzla_bvdomain_is_valid`: no bit must be both 0 and 1. */
  predicate Valid(d: Domain) {
    forall i :: 0 <= i < |d| ==> d[i].lo ==> d[i].hi
  }

  /** `bzla_bvdomain_is_fixed` */
  predicate Fixed(d: Domain) {
    forall i :: 0 <= i < |d| ==> d[i].lo == d[i].hi
  }

  /** The value `b` is allowed for the bit. */
  predicate Allows(d: Bit, b: bool) { (d.lo ==> b) && (b ==> d.hi) }

  /** `bzla_bvdomain_check_fixed_bits`: the bit-vector lies in the domain. */
  ghost predicate Member(d: Domain, v: Bits) {
    |d| == |v| && forall i :: 0 <= i < |d| ==> Allows(d[i], v[i])
  }

  lemma {:induction false} MemberSize(d: Domain, v: Bits)
    requires Member(d, v)
    ensures |d| == |v|
  {
  }

  lemma {:induction false} MemberValid(d: Domain, v: Bits)
    requires Member(d, v)
    ensures Valid(d)
  {
    assert forall i :: 0 <= i < |d| ==> Allows(d[i], v[i]);
  }

  lemma {:induction false} MemberInit(w: nat, v: Bits)
    requires |v| == w
    ensures Member(NewInit(w), v) && Valid(NewInit(w))
  {
  }

  lemma {:induction false} MemberNewFixed(v: Bits)
    ensures Member(NewFixed(v), v) && Valid(NewFixed(v))
  {
  }

  /** The least and the greatest value of a valid domain. */
  function Lo(d: Domain): (v: Bits)
    ensures |v| == |d|
  { seq(|d|, i requires 0 <= i < |d| => d[i].lo) }

  function Hi(d: Domain): (v: Bits)
    ensures |v| == |d|
  { seq(|d|, i requires 0 <= i < |d| => d[i].hi) }

  lemma {:induction false} LoMember(d: Domain)
    requires Valid(d)
    ensures Member(d, Lo(d)) && Member(d, Hi(d))
  {
  }

  /** Any bit of a valid domain can take any value that it allows. */
  lemma {:induction false} Having(d: Domain, v: Bits, i: nat, b: bool)
    requires Member(d, v) && i < |d| && Allows(d[i], b)
    ensures Member(d, v[i := b])
  {
    assert forall j :: 0 <= j < |d| ==> Allows(d[j], v[j]);
  }

  /** Domain `d` knows at least as much as `e`. */
  ghost predicate Narrows(d: Domain, e: Domain) {
    |d| == |e| && forall i :: 0 <= i < |d| ==> NarrowsBit(d[i], e[i])
  }

  predicate NarrowsBit(d: Bit, e: Bit) { (e.lo ==> d.lo) && (d.hi ==> e.hi) }

  lemma {:induction false} NarrowsSelf(d: Domain)
    ensures Narrows(d, d)
  {
  }

  lemma {:induction false} NarrowsTrans(d: Domain, e: Domain, f: Domain)
    requires Narrows(d, e) && Narrows(e, f)
    ensures Narrows(d, f)
  {
  }

  lemma {:induction false} NarrowsSize(d: Domain, e: Domain)
    requires Narrows(d, e)
    ensures |d| == |e|
  {
  }

  lemma {:induction false} MemberWider(d: Domain, e: Domain, v: Bits)
    requires Narrows(d, e) && Member(d, v)
    ensures Member(e, v)
  {
    forall i | 0 <= i < |e|
      ensures Allows(e[i], v[i])
    {
      assert NarrowsBit(d[i], e[i]) && Allows(d[i], v[i]);
    }
  }

  /** The number of bits that are not fixed yet. */
  function Unfixed(d: Domain): nat {
    if |d| == 0 then 0 else (if d[0].lo == d[0].hi then 0 else 1) + Unfixed(d[1..])
  }

  lemma {:induction false} NarrowsTail(d: Domain, e: Domain)
    requires Narrows(d, e) && |d| > 0
    ensures Narrows(d[1..], e[1..]) && NarrowsBit(d[0], e[0])
  {
    forall i | 0 <= i < |d| - 1
      ensures NarrowsBit(d[1..][i], e[1..][i])
    {
      assert NarrowsBit(d[i + 1], e[i + 1]);
    }
  }

  /** A narrower valid domain has no more open bits, and fewer if it differs. */
  lemma {:induction false} UnfixedLess(d: Domain, e: Domain)
    requires Narrows(d, e) && Valid(d)
    ensures Unfixed(d) <= Unfixed(e) && (d != e ==> Unfixed(d) < Unfixed(e))
  {
    if |d| > 0 {
      NarrowsTail(d, e);
      assert Valid(d[1..]);
      UnfixedLess(d[1..], e[1..]);
      assert d == [d[0]] + d[1..] && e == [e[0]] + e[1..];
    }
  }

  // ---------------------------------------------------------------- numbers

  /** The number a bit sequence denotes. */
  function Nat(v: Bits): nat {
    if |v| == 0 then 0 else (if v[0] then 1 else 0) + 2 * Nat(v[1..])
  }

  lemma {:induction false} NatBound(v: Bits)
    ensures Nat(v) < Pow2(|v|)
  {
    if |v| > 0 { NatBound(v[1..]); }
  }

  /** The bits of a number, least significant first. */
  function OfNat(a: nat, w: nat): (v: Bits)
    ensures |v| == w
  {
    if w == 0 then [] else [a % 2 == 1] + OfNat(a / 2, w - 1)
  }

  lemma {:induction false} NatOfNat(a: nat, w: nat)
    requires a < Pow2(w)
    ensures Nat(OfNat(a, w)) == a
  {
    if w > 0 {
      NatOfNat(a / 2, w - 1);
      assert OfNat(a, w)[1..] == OfNat(a / 2, w - 1);
    }
  }

  lemma {:induction false} NatInjective(u: Bits, v: Bits)
    requires |u| == |v| && Nat(u) == Nat(v)
    ensures u == v
  {
    if |u| > 0 {
      NatInjective(u[1..], v[1..]);
      assert u == [u[0]] + u[1..] && v == [v[0]] + v[1..];
    }
  }

  lemma {:induction false} NatConcat(u: Bits, v: Bits)
    ensures Nat(u + v) == Nat(u) + Pow2(|u|) * Nat(v)
  {
    if |u| == 0 {
      assert u + v == v;
    } else {
      assert (u + v)[1..] == u[1..] + v;
      NatConcat(u[1..], v);
      Associate(2, Pow2(|u| - 1), Nat(v));
    }
  }
}
