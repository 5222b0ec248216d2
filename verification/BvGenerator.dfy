/** Enumeration of the values of a domain within a range, unsigned and signed
    (src/bzlabvdomain.c:389-714). */
module BvGenerator {
  import opened Arith
  import opened BvDomain
  import opened BvPropBasic
  import opened BvFill
  import opened BvNat

  // ---------------------------------------------------------------- the bounds of the free bits

  /** The bits to start from: all ways to fill in at least `r` give at least `min`. */
  ghost predicate IsLeast(d: Domain, min: Bits, r: Bits) {
    |r| == Unfixed(d) && forall b: Bits {:trigger Fill(d, b)} ::
      |b| == |r| ==> (Nat(min) <= Nat(Fill(d, b)) <==> Nat(r) <= Nat(b))
  }

  ghost predicate IsGreatest(d: Domain, max: Bits, r: Bits) {
    |r| == Unfixed(d) && forall b: Bits {:trigger Fill(d, b)} ::
      |b| == |r| ==> (Nat(Fill(d, b)) <= Nat(max) <==> Nat(b) <= Nat(r))
  }

  /** The loop over the bits of `min` from the top: below position `k` of the domain and `m`
      of the free bits nothing is set, above them the value is `min`. */
  ghost predicate MinAt(d: Domain, min: Bits, r: Bits, k: nat, m: nat) {
    && |min| == |d| && k <= |d| && |r| == Unfixed(d) && m <= |r|
    && Unfixed(d[..k]) == m && Unfixed(d[k..]) == |r| - m
    && (forall q :: 0 <= q < m ==> !r[q])
    && Fill(d[k..], r[m..]) == min[k..]
  }

  /** `p` is the lowest zero above `m`, or there is none. */
  ghost predicate LowestZero(r: Bits, m: nat, p: int) {
    m <= |r| && ((forall q :: m <= q < |r| ==> r[q]) || (m <= p < |r| && !r[p] && forall q :: m <= q < p ==> r[q]))
  }

  lemma {:induction false} MinStart(d: Domain, min: Bits, r: Bits)
    requires |min| == |d| && |r| == Unfixed(d) && forall q :: 0 <= q < |r| ==> !r[q]
    ensures MinAt(d, min, r, |d|, |r|)
  {
    assert d[..|d|] == d && d[|d|..] == [] && r[|r|..] == [] && min[|d|..] == [];
  }

  lemma {:induction false} DomainTop(d: Domain, k: nat)
    requires 0 < k <= |d|
    ensures d[k - 1..] == [d[k - 1]] + d[k..] && d[..k] == d[..k - 1] + [d[k - 1]]
    ensures Unfixed([d[k - 1]]) == if FixedAt(d, k - 1) then 0 else 1
    ensures Unfixed(d[..k]) == Unfixed(d[..k - 1]) + Unfixed([d[k - 1]])
    ensures Unfixed(d[k - 1..]) == Unfixed(d[k..]) + Unfixed([d[k - 1]])
  {
    UnfixedConcat(d[..k - 1], [d[k - 1]]);
    assert d[k - 1..][1..] == d[k..];
    assert [d[k - 1]][1..] == [];
  }

  /** A free bit takes the bit of `min`. */
  lemma {:induction false} MinFree(d: Domain, min: Bits, r: Bits, k: nat, m: nat)
    requires MinAt(d, min, r, k, m) && k > 0 && !FixedAt(d, k - 1)
    ensures m > 0 && MinAt(d, min, r[m - 1 := min[k - 1]], k - 1, m - 1)
  {
    DomainTop(d, k);
    var r' := r[m - 1 := min[k - 1]];
    assert r'[m - 1..][1..] == r[m..] && r'[m - 1..][0] == min[k - 1];
    assert d[k - 1..][1..] == d[k..];
    assert min[k - 1..] == [min[k - 1]] + min[k..];
  }

  /** A fixed bit that agrees with `min` is skipped. */
  lemma {:induction false} MinFixed(d: Domain, min: Bits, r: Bits, k: nat, m: nat)
    requires MinAt(d, min, r, k, m) && k > 0 && FixedAt(d, k - 1) && d[k - 1].lo == min[k - 1]
    ensures MinAt(d, min, r, k - 1, m)
  {
    DomainTop(d, k);
    assert d[k - 1..][1..] == d[k..];
    assert min[k - 1..] == [min[k - 1]] + min[k..];
  }

  /** Values whose high free bits differ from those of `r` are ordered by them. */
  lemma {:induction false} MinOrder(d: Domain, min: Bits, r: Bits, k: nat, m: nat, b: Bits)
    requires MinAt(d, min, r, k, m) && |b| == |r|
    ensures Nat(b[m..]) < Nat(r[m..]) ==> Nat(Fill(d, b)) < Nat(min) && Nat(b) < Nat(r)
    ensures Nat(b[m..]) > Nat(r[m..]) ==> Nat(Fill(d, b)) > Nat(min) && Nat(b) > Nat(r)
    ensures Nat(b[m..]) == Nat(r[m..]) ==> b[m..] == r[m..] && Fill(d, b)[k..] == min[k..] && Nat(r) <= Nat(b)
  {
    var u := Fill(d, b);
    assert d == d[..k] + d[k..] && b == b[..m] + b[m..];
    FillConcat(d[..k], d[k..], b[..m], b[m..]);
    assert u[k..] == Fill(d[k..], b[m..]);
    if Nat(b[m..]) < Nat(r[m..]) {
      FillLess(d[k..], b[m..], r[m..]);
      TopLess(u, min, k);
      TopLess(b, r, m);
    } else if Nat(b[m..]) > Nat(r[m..]) {
      FillLess(d[k..], r[m..], b[m..]);
      TopLess(min, u, k);
      TopLess(r, b, m);
    } else {
      NatInjective(b[m..], r[m..]);
      TopSame(r, b, m);
      NatZeros(r[..m]);
    }
  }

  /** All bits of `min` are met. */
  lemma {:induction false} MinMet(d: Domain, min: Bits, r: Bits, m: nat)
    requires MinAt(d, min, r, 0, m)
    ensures IsLeast(d, min, r)
  {
    assert d[..0] == [] && m == 0;
    assert d[0..] == d && min[0..] == min && r[0..] == r;
    forall b: Bits | |b| == |r|
      ensures Nat(min) <= Nat(Fill(d, b)) <==> Nat(r) <= Nat(b)
    {
      FillOrder(d, r, b);
    }
  }

  /** The domain has a 1 where `min` has a 0: everything below can be least. */
  lemma {:induction false} MinAbove(d: Domain, min: Bits, r: Bits, k: nat, m: nat)
    requires MinAt(d, min, r, k, m) && k > 0 && Valid(d) && d[k - 1].lo && !min[k - 1]
    ensures IsLeast(d, min, r)
  {
    forall b: Bits | |b| == |r|
      ensures Nat(min) <= Nat(Fill(d, b)) <==> Nat(r) <= Nat(b)
    {
      MinOrder(d, min, r, k, m, b);
      if Nat(b[m..]) == Nat(r[m..]) {
        var u := Fill(d, b);
        FillMember(d, b);
        assert Allows(d[k - 1], u[k - 1]);
        NatTop(u, k);
        NatTop(min, k);
        TopLess(min, u, k - 1);
      }
    }
  }

  /** Above the position some free bit of `min` is 0, or `min` is above the whole domain. */
  lemma {:induction false} ZeroAbove(d: Domain, min: Bits, r: Bits, k: nat, m: nat, p: int)
    requires MinAt(d, min, r, k, m) && k > 0 && Valid(d) && !d[k - 1].hi && min[k - 1]
    requires LowestZero(r, m, p) && Nat(min) <= Nat(Hi(d))
    ensures m <= p < |r| && !r[p] && forall q :: m <= q < p ==> r[q]
  {
    if forall q :: m <= q < |r| ==> r[q] {
      assert Valid(d[k..]);
      FillExtreme(d[k..], r[m..]);
      assert Hi(d)[k..] == Hi(d[k..]);
      NatTop(Hi(d), k);
      NatTop(min, k);
      TopLess(Hi(d), min, k - 1);
    }
  }

  /** The domain has a 0 where `min` has a 1: the next way to fill the bits above is least. */
  lemma {:induction false} MinBelow(d: Domain, min: Bits, r: Bits, k: nat, m: nat, p: nat, r': Bits)
    requires MinAt(d, min, r, k, m) && k > 0 && Valid(d) && !d[k - 1].hi && min[k - 1]
    requires m <= p < |r| && !r[p] && (forall q :: m <= q < p ==> r[q])
    requires |r'| == |r| && r'[p] && r'[p + 1..] == r[p + 1..] && forall q :: 0 <= q < p ==> !r'[q]
    ensures IsLeast(d, min, r')
  {
    assert r'[m..][p - m + 1..] == r[p + 1..] && r[m..][p - m + 1..] == r[p + 1..];
    NatCarry(r[m..], r'[m..], p - m);
    forall b: Bits | |b| == |r|
      ensures Nat(min) <= Nat(Fill(d, b)) <==> Nat(r') <= Nat(b)
    {
      NextIsLeast(d, min, r, k, m, r', b);
    }
  }

  lemma {:induction false} NextIsLeast(d: Domain, min: Bits, r: Bits, k: nat, m: nat, r': Bits, b: Bits)
    requires MinAt(d, min, r, k, m) && k > 0 && Valid(d) && !d[k - 1].hi && min[k - 1]
    requires |r'| == |r| == |b| && (forall q :: 0 <= q < m ==> !r'[q]) && Nat(r'[m..]) == Nat(r[m..]) + 1
    ensures Nat(min) <= Nat(Fill(d, b)) <==> Nat(r') <= Nat(b)
  {
    hide Nat, Unfixed, Fill, Member;
    MinOrder(d, min, r, k, m, b);
    NatZeros(r'[..m]);
    if Nat(b[m..]) > Nat(r[m..]) {
      SplitLe(r', b, m);
    } else {
      TopLess(b, r', m);
      if Nat(b[m..]) == Nat(r[m..]) {
        var u := Fill(d, b);
        FillMember(d, b);
        MemberAt(d, u, k - 1);
        NatTop(u, k);
        NatTop(min, k);
        TopLess(u, min, k - 1);
      }
    }
  }

  lemma {:induction false} SplitLe(u: Bits, v: Bits, m: nat)
    requires m <= |u| == |v| && Nat(u[..m]) == 0 && Nat(u[m..]) <= Nat(v[m..])
    ensures Nat(u) <= Nat(v)
  {
    hide Nat;
    NatSplit(u, m);
    NatSplit(v, m);
    MulMono(Nat(u[m..]), Nat(v[m..]), Pow2(m));
  }

  lemma {:induction false} MemberAt(d: Domain, v: Bits, i: nat)
    requires Member(d, v) && i < |d|
    ensures Allows(d[i], v[i])
  {
  }

  lemma {:induction false} ZeroKept(r: Bits, m: nat, p: int, bit: bool)
    requires LowestZero(r, m, p) && m > 0
    ensures LowestZero(r[m - 1 := bit], m - 1, if bit then p else m - 1)
  {
  }

  /** The first loop of `bzla_bvdomain_gen_init_range`. */
  method BitsMin(d: Domain, min: Bits) returns (r: Bits)
    requires Valid(d) && |min| == |d| && Nat(min) <= Nat(Hi(d))
    ensures IsLeast(d, min, r)
  {
    hide MinAt, IsLeast, LowestZero, Valid, Fill, Nat, Unfixed;
    var bw, cnt: int := |d|, Unfixed(d);
    r := seq(cnt, _ => false);
    MinStart(d, min, r);
    var j: int, j0: int := 0, 0;
    StartZero(r);
    for i := 0 to bw
      invariant j <= cnt == |r| && MinAt(d, min, r, bw - i, cnt - j)
      invariant LowestZero(r, cnt - j, cnt - 1 - j0) && 0 <= j0 <= j && (j0 < cnt || cnt == 0)
    {
      var idx := bw - 1 - i;
      ghost var k, m := bw - i, cnt - j;
      var bit := min[idx];
      if !FixedAt(d, idx) {
        MinFree(d, min, r, k, m);
        ZeroKept(r, m, cnt - 1 - j0, bit);
        r := r[cnt - 1 - j := bit];
        if !bit { j0 := j; }
        j := j + 1;
      } else if d[idx].lo && !bit {
        MinAbove(d, min, r, k, m);
        return;
      } else if !d[idx].lo && bit {
        ZeroAbove(d, min, r, k, m, cnt - 1 - j0);
        ghost var before := r;
        r := r[cnt - 1 - j0 := true];
        r := SetBelow(r, cnt - 1 - j0, false);
        MinBelow(d, min, before, k, m, cnt - 1 - j0, r);
        return;
      } else {
        MinFixed(d, min, r, k, m);
      }
    }
    MinMet(d, min, r, cnt - j);
  }

  lemma {:induction false} StartZero(r: Bits)
    ensures LowestZero(r, |r|, |r| - 1)
  {
  }

  /** The inner loop: all bits below position `p` are set to the bit. */
  method SetBelow(r0: Bits, p: nat, bit: bool) returns (r: Bits)
    requires p < |r0|
    ensures |r| == |r0| && r[p..] == r0[p..] && forall q :: 0 <= q < p ==> r[q] == bit
  {
    r := r0;
    var cnt := |r0|;
    for k := cnt - p to cnt
      invariant |r| == cnt && r[p..] == r0[p..] && forall q :: cnt - k <= q < p ==> r[q] == bit
    {
      r := r[cnt - 1 - k := bit];
    }
  }

  // ---------------------------------------------------------------- the upper bound, by complement

  /** `bzla_bvdomain_not` */
  function NotDomain(d: Domain): (r: Domain)
    ensures |r| == |d|
  { seq(|d|, i requires 0 <= i < |d| => Bit(!d[i].hi, !d[i].lo)) }

  lemma {:induction false} NotFill(d: Domain, b: Bits)
    requires |b| == Unfixed(d)
    ensures Unfixed(NotDomain(d)) == Unfixed(d) && Fill(NotDomain(d), NotBits(b)) == NotBits(Fill(d, b))
  {
    hide Fill, Unfixed;
    if d == [] {
      assert NotDomain(d) == d;
      FillNone(d, b);
    } else {
      assert NotDomain(d)[1..] == NotDomain(d[1..]);
      FillFront(d, b);
      UnfixedFront(d);
      UnfixedFront(NotDomain(d));
      if FixedAt(d, 0) {
        NotFill(d[1..], b);
      } else {
        NotFill(d[1..], b[1..]);
        assert NotBits(b)[1..] == NotBits(b[1..]);
      }
      FillFront(NotDomain(d), NotBits(b));
    }
  }

  lemma {:induction false} NotUnfixed(d: Domain)
    ensures Unfixed(NotDomain(d)) == Unfixed(d)
  {
    NotFill(d, seq(Unfixed(d), _ => false));
  }

  lemma {:induction false} NotShape(d: Domain)
    requires Valid(d)
    ensures Valid(NotDomain(d)) && Hi(NotDomain(d)) == NotBits(Lo(d))
  {
  }

  /** What is least for the complements is the complement of what is greatest. */
  lemma {:induction false} LeastIsGreatest(d: Domain, max: Bits, r: Bits)
    requires |max| == |d| && IsLeast(NotDomain(d), NotBits(max), NotBits(r))
    ensures IsGreatest(d, max, r)
  {
    NotUnfixed(d);
    hide Fill, Nat, Unfixed, NotDomain;
    forall b: Bits | |b| == |r|
      ensures Nat(Fill(d, b)) <= Nat(max) <==> Nat(b) <= Nat(r)
    {
      NotFill(d, b);
      NatNot(b);
      NatNot(r);
      NatNot(max);
      NatNot(Fill(d, b));
      assert Nat(NotBits(max)) <= Nat(Fill(NotDomain(d), NotBits(b))) <==> Nat(NotBits(r)) <= Nat(NotBits(b));
    }
  }

  /** A position and its complement. */
  lemma {:induction false} NotPosition(d: Domain, max: Bits, i: nat)
    requires i < |d| == |max|
    ensures NotDomain(d)[i] == Bit(!d[i].hi, !d[i].lo) && NotBits(max)[i] == !max[i]
    ensures FixedAt(NotDomain(d), i) == FixedAt(d, i)
  {
  }

  lemma {:induction false} NotUpdate(r: Bits, q: nat, bit: bool)
    requires q < |r|
    ensures NotBits(r[q := bit]) == NotBits(r)[q := !bit]
  {
  }

  lemma {:induction false} MaxStart(d: Domain, max: Bits, r: Bits)
    requires Valid(d) && |max| == |d| && Nat(Lo(d)) <= Nat(max) && |r| == Unfixed(d)
    requires forall q :: 0 <= q < |r| ==> r[q]
    ensures MinAt(NotDomain(d), NotBits(max), NotBits(r), |d|, |r|) && LowestZero(NotBits(r), |r|, |r| - 1)
    ensures Valid(NotDomain(d)) && Nat(NotBits(max)) <= Nat(Hi(NotDomain(d)))
  {
    hide Nat, Unfixed;
    NotUnfixed(d);
    NotShape(d);
    NatNot(Lo(d));
    NatNot(max);
    MinStart(NotDomain(d), NotBits(max), NotBits(r));
    StartZero(NotBits(r));
  }

  /** The domain has a 1 where `max` has a 0: the next lower way to fill the bits above is greatest. */
  lemma {:induction false} MaxBelow(d: Domain, max: Bits, r: Bits, k: nat, m: nat, p: int, r': Bits)
    requires Valid(NotDomain(d)) && Nat(NotBits(max)) <= Nat(Hi(NotDomain(d))) && |max| == |d|
    requires MinAt(NotDomain(d), NotBits(max), NotBits(r), k, m) && k > 0 && d[k - 1].lo && !max[k - 1]
    requires LowestZero(NotBits(r), m, p)
    requires 0 <= p < |r| ==> |r'| == |r| && !r'[p] && r'[p + 1..] == r[p + 1..] && forall q :: 0 <= q < p ==> r'[q]
    ensures 0 <= p < |r| && IsGreatest(d, max, r')
  {
    hide Nat, Unfixed, Fill, MinAt, LowestZero, IsGreatest, IsLeast, Hi, Valid;
    MinSizes(NotDomain(d), NotBits(max), NotBits(r), k, m);
    NotPosition(d, max, k - 1);
    ZeroAbove(NotDomain(d), NotBits(max), NotBits(r), k, m, p);
    NotTail(r, r', p);
    MinBelow(NotDomain(d), NotBits(max), NotBits(r), k, m, p, NotBits(r'));
    LeastIsGreatest(d, max, r');
  }

  lemma {:induction false} MinSizes(d: Domain, min: Bits, r: Bits, k: nat, m: nat)
    requires MinAt(d, min, r, k, m)
    ensures k <= |d| && m <= |r|
  {
  }

  /** The second loop of `bzla_bvdomain_gen_init_range`: the first one on complements. */
  method BitsMax(d: Domain, max: Bits) returns (r: Bits)
    requires Valid(d) && |max| == |d| && Nat(Lo(d)) <= Nat(max)
    ensures IsGreatest(d, max, r)
  {
    hide MinAt, IsLeast, IsGreatest, LowestZero, Valid, Fill, Nat, Unfixed, NotBits, NotDomain, FixedAt, Hi;
    var bw, cnt: int := |d|, Unfixed(d);
    ghost var nd, nmax := NotDomain(d), NotBits(max);
    r := seq(cnt, _ => true);
    MaxStart(d, max, r);
    var j: int, j0: int := 0, 0;
    for i := 0 to bw
      invariant j <= cnt == |r| && MinAt(nd, nmax, NotBits(r), bw - i, cnt - j)
      invariant LowestZero(NotBits(r), cnt - j, cnt - 1 - j0) && 0 <= j0 <= j && (j0 < cnt || cnt == 0)
    {
      var idx := bw - 1 - i;
      ghost var k, m := bw - i, cnt - j;
      var bit := max[idx];
      NotPosition(d, max, idx);
      if !FixedAt(d, idx) {
        MinFree(nd, nmax, NotBits(r), k, m);
        ZeroKept(NotBits(r), m, cnt - 1 - j0, !bit);
        NotUpdate(r, cnt - 1 - j, bit);
        r := r[cnt - 1 - j := bit];
        if bit { j0 := j; }
        j := j + 1;
      } else if d[idx].lo && !bit {
        ghost var before := r;
        ZeroAbove(nd, nmax, NotBits(r), k, m, cnt - 1 - j0);
        r := r[cnt - 1 - j0 := false];
        r := SetBelow(r, cnt - 1 - j0, true);
        MaxBelow(d, max, before, k, m, cnt - 1 - j0, r);
        return;
      } else if !d[idx].lo && bit {
        FixedHi(d, idx);
        MinAbove(nd, nmax, NotBits(r), k, m);
        LeastIsGreatest(d, max, r);
        return;
      } else {
        FixedHi(d, idx);
        MinFixed(nd, nmax, NotBits(r), k, m);
      }
    }
    MinMet(nd, nmax, NotBits(r), cnt - j);
    LeastIsGreatest(d, max, r);
  }

  lemma {:induction false} FixedHi(d: Domain, i: nat)
    requires i < |d| && FixedAt(d, i)
    ensures d[i].hi == d[i].lo
  {
  }

  lemma {:induction false} NotTail(u: Bits, v: Bits, p: nat)
    requires p < |u| == |v| && v[p + 1..] == u[p + 1..]
    ensures NotBits(v)[p + 1..] == NotBits(u)[p + 1..]
  {
    forall q | p < q < |u|
      ensures NotBits(v)[q] == NotBits(u)[q]
    {
      assert v[p + 1..][q - p - 1] == u[p + 1..][q - p - 1];
    }
  }

  // ---------------------------------------------------------------- the generator

  /** The values that a generator is asked for.  A domain without a free bit yields nothing. */
  ghost predicate Wanted(d: Domain, min: Option<Bits>, max: Option<Bits>, v: Bits) {
    !Fixed(d) && Member(d, v) && (min.Some? ==> Nat(min.value) <= Nat(v)) && (max.Some? ==> Nat(v) <= Nat(max.value))
  }

  ghost function AllWanted(d: Domain, min: Option<Bits>, max: Option<Bits>): iset<Bits> {
    iset v: Bits | Wanted(d, min, max, v)
  }

  /** `bzla_bv_inc` */
  function Inc(b: Bits): (r: Bits)
    ensures |r| == |b|
  { OfNat((Nat(b) + 1) % Pow2(|b|), |b|) }

  lemma {:induction false} IncNext(b: Bits, c: Bits)
    requires |b| == |c| && Nat(b) < Nat(c)
    ensures Nat(Inc(b)) == Nat(b) + 1
  {
    NatBound(c);
    NatOfNat(Nat(b) + 1, |b|);
    DivModUnique(Nat(b) + 1, Pow2(|b|), 0, Nat(b) + 1);
  }

  ghost predicate Least(v: Bits, s: iset<Bits>) {
    v in s && forall u :: u in s ==> Nat(v) <= Nat(u)
  }

  class Generator {
    const domain: Domain
    /** The bits of the next value, none when all were generated. */
    var bits: Option<Bits>
    var bitsMin: Bits
    var bitsMax: Bits
    var cur: Option<Bits>
    /** The range, clamped to the domain; kept for checking only. */
    ghost const min: Bits
    ghost const max: Bits

    ghost predicate Valid()
      reads this
    {
      && BvDomain.Valid(domain)
      && (bits.Some? ==>
        && IsLeast(domain, min, bitsMin) && IsGreatest(domain, max, bitsMax)
        && |bits.value| == |bitsMin| && Nat(bitsMin) <= Nat(bits.value) <= Nat(bitsMax))
    }

    /** The value is in the range of the generator. */
    ghost predicate InRange(v: Bits) {
      Member(domain, v) && Nat(min) <= Nat(v) <= Nat(max)
    }

    /** The value is still to come. */
    ghost predicate Pending(v: Bits)
      reads this
    {
      bits.Some? && |bits.value| == Unfixed(domain) && InRange(v) && Nat(Fill(domain, bits.value)) <= Nat(v)
    }

    /** The values that are still to come. */
    ghost function Coming(): iset<Bits>
      reads this
    { iset v: Bits | Pending(v) }

    /** How many more bits there are to try. */
    ghost function Left(): nat
      requires Valid()
      reads this
    { if bits.Some? then Nat(bitsMax) + 1 - Nat(bits.value) else 0 }

    /** `bzla_bvdomain_gen_init_range`; without bounds, `bzla_bvdomain_gen_init`. */
    constructor (d: Domain, min0: Option<Bits>, max0: Option<Bits>)
      requires BvDomain.Valid(d) && (min0.Some? ==> |min0.value| == |d|) && (max0.Some? ==> |max0.value| == |d|)
      ensures Valid() && domain == d && cur == None
      ensures Coming() == AllWanted(d, min0, max0)
      ensures bits.Some? ==> forall v: Bits :: InRange(v) ==> Wanted(d, min0, max0, v)
      ensures min0.Some? ==> Nat(min) >= Nat(min0.value)
      ensures max0.Some? ==> Nat(max) <= Nat(max0.value)
    {
      hide Nat, Fill, Unfixed, IsLeast, IsGreatest, Member, BvDomain.Valid, Fixed, Lo, Hi;
      var cnt := Unfixed(d);
      var lower := if min0.None? || Nat(Lo(d)) > Nat(min0.value) then Lo(d) else min0.value;
      var upper := if max0.None? || Nat(Hi(d)) < Nat(max0.value) then Hi(d) else max0.value;
      var b: Option<Bits> := None;
      var bMin: Bits, bMax: Bits := [], [];
      if cnt != 0 && Nat(lower) <= Nat(Hi(d)) && Nat(upper) >= Nat(Lo(d)) {
        bMin := BitsMin(d, lower);
        bMax := BitsMax(d, upper);
        if Nat(bMin) <= Nat(bMax) { b := Some(bMin); }
      }
      domain, bits, bitsMin, bitsMax, cur := d, b, bMin, bMax, None;
      min, max := lower, upper;
      new;
      UnfixedZero(d);
      forall v: Bits
        ensures Wanted(d, min0, max0, v) <==> cnt != 0 && Member(d, v) && Nat(lower) <= Nat(v) <= Nat(upper)
        ensures Pending(v) <==> Wanted(d, min0, max0, v)
      {
        if Member(d, v) {
          MemberBounds(d, v);
          if cnt != 0 && Nat(lower) <= Nat(Hi(d)) && Nat(upper) >= Nat(Lo(d)) {
            StartAt(d, lower, upper, bMin, bMax, v);
          }
        }
      }
    }

    /** `bzla_bvdomain_gen_has_next` */
    method HasNext() returns (has: bool)
      requires Valid()
      ensures has <==> bits.Some?
      ensures has <==> Coming() != iset{}
    {
      hide Nat, Fill, Unfixed, IsLeast, IsGreatest, Member, BvDomain.Valid;
      has := bits.Some? && Nat(bits.value) <= Nat(bitsMax);
      if has {
        BoundSizes(domain, min, max, bitsMin, bitsMax);
        FirstPending(domain, min, max, bitsMin, bitsMax, bits.value);
        assert Fill(domain, bits.value) in Coming();
      }
    }

    /** `gen_next_bits`: the value for the current, or for random, bits; then one step on. */
    method NextBits(random: bool) returns (v: Bits)
      requires Valid() && bits.Some?
      modifies `bits, `cur
      ensures Valid() && cur == Some(v) && InRange(v)
      ensures !random ==> Least(v, old(Coming())) && Coming() == old(Coming()) - iset{v} && Left() < old(Left())
      ensures random ==> bits.Some?
    {
      hide Nat, Fill, Unfixed, IsLeast, IsGreatest, Member, BvDomain.Valid, Inc;
      var b := bits.value;
      BoundSizes(domain, min, max, bitsMin, bitsMax);
      if random {
        var n: nat :| Nat(bitsMin) <= n <= Nat(bitsMax);
        NatBound(bitsMax);
        b := OfNat(n, |bitsMin|);
        NatOfNat(n, |bitsMin|);
      }
      FirstPending(domain, min, max, bitsMin, bitsMax, b);
      v := Deposit(domain, b);
      if b == bitsMax {
        bits := if random then Some(bitsMin) else None;
      } else {
        if Nat(b) == Nat(bitsMax) { NatInjective(b, bitsMax); }
        IncNext(b, bitsMax);
        bits := Some(Inc(b));
      }
      cur := Some(v);
      if !random {
        forall u: Bits
          ensures Pending(u) <==> old(Pending(u)) && u != v
        {
          if InRange(u) { StepOver(domain, max, bitsMax, b, u); }
        }
      }
    }

    /** `bzla_bvdomain_gen_next`: the least value that is still to come. */
    method Next() returns (v: Bits)
      requires Valid() && bits.Some?
      modifies `bits, `cur
      ensures Valid() && cur == Some(v) && Least(v, old(Coming())) && Coming() == old(Coming()) - iset{v}
      ensures Left() < old(Left())
    {
      v := NextBits(false);
    }

    /** `bzla_bvdomain_gen_random`: any value of the range; a generator never runs out this way. */
    method Random() returns (v: Bits)
      requires Valid() && bits.Some?
      modifies `bits, `cur
      ensures Valid() && cur == Some(v) && InRange(v) && bits.Some?
    {
      v := NextBits(true);
    }
  }

  /** The first loop of `gen_next_bits`. */
  method Deposit(d: Domain, bits: Bits) returns (res: Bits)
    requires |bits| == Unfixed(d)
    ensures res == Fill(d, bits)
  {
    res := Lo(d);
    var j := 0;
    EmptyPrefix(d, bits);
    for i := 0 to |d|
      invariant |res| == |d| && j <= |bits| && res[i..] == Lo(d)[i..]
      invariant j == Unfixed(d[..i]) && res[..i] == Fill(d[..i], bits[..j])
    {
      PrefixStep(d, bits, i, j);
      ghost var before := res;
      if !FixedAt(d, i) {
        res := res[i := bits[j]];
        j := j + 1;
      }
      assert res[..i + 1] == before[..i] + [res[i]];
      assert before[i..][0] == Lo(d)[i];
      assert res[i + 1..] == before[i..][1..];
    }
    assert d[..|d|] == d && bits[..|bits|] == bits && res[..|d|] == res;
  }

  lemma {:induction false} EmptyPrefix(d: Domain, bits: Bits)
    ensures d[..0] == [] && bits[..0] == [] && Unfixed(d[..0]) == 0 && Fill(d[..0], bits[..0]) == []
  {
  }

  /** One position of the domain, and one of the bits if the position is free. */
  lemma {:induction false} PrefixStep(d: Domain, bits: Bits, i: nat, j: nat)
    requires |bits| == Unfixed(d) && i < |d| && j == Unfixed(d[..i]) && j <= |bits|
    ensures FixedAt(d, i) ==>
              Unfixed(d[..i + 1]) == j && Fill(d[..i + 1], bits[..j]) == Fill(d[..i], bits[..j]) + [d[i].lo]
    ensures !FixedAt(d, i) ==> j < |bits| && Unfixed(d[..i + 1]) == j + 1
    ensures !FixedAt(d, i) ==> Fill(d[..i + 1], bits[..j + 1]) == Fill(d[..i], bits[..j]) + bits[j..j + 1]
  {
    hide Fill, Unfixed;
    DomainTop(d, i + 1);
    assert d == d[..i + 1] + d[i + 1..];
    UnfixedConcat(d[..i + 1], d[i + 1..]);
    var c := if FixedAt(d, i) then [] else bits[j..j + 1];
    OnePosition(d, i, c);
    FillConcat(d[..i], [d[i]], bits[..j], c);
    assert bits[..j] + c == if FixedAt(d, i) then bits[..j] else bits[..j + 1];
  }

  lemma {:induction false} OnePosition(d: Domain, i: nat, c: Bits)
    requires i < |d| && |c| == if FixedAt(d, i) then 0 else 1
    ensures |c| == Unfixed([d[i]]) && Fill([d[i]], c) == if FixedAt(d, i) then [d[i].lo] else c
  {
    assert [d[i]][1..] == [];
  }

  lemma {:induction false} BoundSizes(d: Domain, min: Bits, max: Bits, bMin: Bits, bMax: Bits)
    requires IsLeast(d, min, bMin) && IsGreatest(d, max, bMax)
    ensures |bMin| == |bMax| == Unfixed(d)
  {
  }

  /** Bits between the bounds give a value in the range. */
  lemma {:induction false} FirstPending(d: Domain, min: Bits, max: Bits, bMin: Bits, bMax: Bits, b: Bits)
    requires BvDomain.Valid(d) && IsLeast(d, min, bMin) && IsGreatest(d, max, bMax)
    requires |b| == |bMin| && Nat(bMin) <= Nat(b) <= Nat(bMax)
    ensures |b| == Unfixed(d) && Member(d, Fill(d, b)) && Nat(min) <= Nat(Fill(d, b)) <= Nat(max)
  {
    hide Nat, Fill, Unfixed, Member, IsLeast, IsGreatest;
    BoundSizes(d, min, max, bMin, bMax);
    LeastAt(d, min, bMin, b);
    GreatestAt(d, max, bMax, b);
    FillMember(d, b);
  }

  lemma {:induction false} LeastAt(d: Domain, min: Bits, r: Bits, b: Bits)
    requires IsLeast(d, min, r) && |b| == |r|
    ensures Nat(min) <= Nat(Fill(d, b)) <==> Nat(r) <= Nat(b)
  {
    hide Nat, Fill, Unfixed;
  }

  lemma {:induction false} GreatestAt(d: Domain, max: Bits, r: Bits, b: Bits)
    requires IsGreatest(d, max, r) && |b| == |r|
    ensures Nat(Fill(d, b)) <= Nat(max) <==> Nat(b) <= Nat(r)
  {
    hide Nat, Fill, Unfixed;
  }

  /** The value after `b` in the order is the one that the next bits give. */
  lemma {:induction false} StepOver(d: Domain, max: Bits, bMax: Bits, b: Bits, u: Bits)
    requires IsGreatest(d, max, bMax) && |b| == Unfixed(d) && Member(d, u) && Nat(u) <= Nat(max) && Nat(b) <= Nat(bMax)
    ensures b == bMax ==> (Nat(Fill(d, b)) <= Nat(u) <==> u == Fill(d, b))
    ensures b != bMax ==> (Nat(Fill(d, Inc(b))) <= Nat(u) <==> Nat(Fill(d, b)) <= Nat(u) && u != Fill(d, b))
  {
    hide Nat, Inc;
    var c := FreeBits(d, u);
    FillFree(d, u);
    FillOrder(d, b, c);
    FreeFill(d, b);
    if Nat(b) == Nat(c) { NatInjective(b, c); }
    if b != bMax {
      if Nat(b) == Nat(bMax) { NatInjective(b, bMax); }
      IncNext(b, bMax);
      FillOrder(d, Inc(b), c);
    }
  }

  /** Between the bounds of the free bits lie exactly the members in the range. */
  lemma {:induction false} StartAt(d: Domain, min: Bits, max: Bits, bMin: Bits, bMax: Bits, v: Bits)
    requires BvDomain.Valid(d) && IsLeast(d, min, bMin) && IsGreatest(d, max, bMax) && Member(d, v)
    ensures |bMin| == |bMax| == Unfixed(d)
    ensures Nat(min) <= Nat(v) <= Nat(max) <==> Nat(bMin) <= Nat(FreeBits(d, v)) <= Nat(bMax)
    ensures Nat(Fill(d, bMin)) <= Nat(v) <==> Nat(min) <= Nat(v)
    ensures Nat(bMin) > Nat(bMax) ==> !(Nat(min) <= Nat(v) <= Nat(max))
  {
    FillFree(d, v);
    FillOrder(d, bMin, FreeBits(d, v));
  }

  ghost predicate Ascending(s: seq<Bits>) {
    forall i, j :: 0 <= i < j < |s| ==> Nat(s[i]) < Nat(s[j])
  }

  /** Of all the values, `s` has those that are not to come, and they are smaller. */
  ghost predicate Prefix(s: seq<Bits>, rest: iset<Bits>, all: iset<Bits>) {
    && Ascending(s)
    && (forall v: Bits :: v in all <==> v in s || v in rest)
    && forall v, u :: v in s && u in rest ==> Nat(v) < Nat(u)
  }

  lemma {:induction false} OneMore(s: seq<Bits>, rest: iset<Bits>, all: iset<Bits>, v: Bits)
    requires Prefix(s, rest, all) && Least(v, rest) && forall u :: u in rest ==> |u| == |v|
    ensures Prefix(s + [v], rest - iset{v}, all)
  {
    hide Nat;
    forall u | u in rest && u != v
      ensures Nat(v) < Nat(u)
    {
      if Nat(v) == Nat(u) { NatInjective(v, u); }
    }
  }

  lemma {:induction false} NoneYet(all: iset<Bits>)
    ensures Prefix([], all, all)
  {
  }

  lemma {:induction false} WantedSize(d: Domain, min: Option<Bits>, max: Option<Bits>, s: seq<Bits>, rest: iset<Bits>)
    requires Prefix(s, rest, AllWanted(d, min, max))
    ensures forall u :: u in rest ==> |u| == |d|
  {
  }

  /** A whole run: exactly the wanted values, each once, in ascending order. */
  method AllValues(d: Domain, min: Option<Bits>, max: Option<Bits>) returns (values: seq<Bits>)
    requires BvDomain.Valid(d) && (min.Some? ==> |min.value| == |d|) && (max.Some? ==> |max.value| == |d|)
    ensures forall v: Bits :: v in values <==> Wanted(d, min, max, v)
    ensures Ascending(values)
  {
    hide Nat, Fill, Prefix, AllWanted, Ascending, Wanted;
    var gen := new Generator(d, min, max);
    ghost var all := AllWanted(d, min, max);
    values := [];
    NoneYet(all);
    var has := gen.HasNext();
    while has
      invariant gen.Valid() && has == gen.bits.Some? && (has <==> gen.Coming() != iset{})
      invariant Prefix(values, gen.Coming(), all)
      decreases gen.Left()
    {
      ghost var rest := gen.Coming();
      WantedSize(d, min, max, values, rest);
      var v := gen.Next();
      OneMore(values, rest, all, v);
      values := values + [v];
      has := gen.HasNext();
    }
    AllDone(d, min, max, values);
  }

  lemma {:induction false} AllDone(d: Domain, min: Option<Bits>, max: Option<Bits>, s: seq<Bits>)
    requires Prefix(s, iset{}, AllWanted(d, min, max))
    ensures Ascending(s) && forall v: Bits :: v in s <==> Wanted(d, min, max, v)
  {
    hide Wanted;
    assert forall v: Bits :: v in AllWanted(d, min, max) <==> Wanted(d, min, max, v);
  }
}
