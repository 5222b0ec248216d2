/** The free bits of a domain: filling them is an order isomorphism between the bit-vectors
    of that many bits and the values of the domain. */
module BvFill {
  import opened Arith
  import opened BvDomain
  import opened BvPropBasic
  import opened BvNat

  datatype Option<T> = None | Some(value: T)

  predicate FixedAt(d: Domain, i: nat)
    requires i < |d|
  { d[i].lo == d[i].hi }

  /** The value of the domain with the given bits in its free positions. */
  function Fill(d: Domain, b: Bits): (v: Bits)
    requires |b| == Unfixed(d)
    ensures |v| == |d|
  {
    if d == [] then []
    else if d[0].lo == d[0].hi then [d[0].lo] + Fill(d[1..], b)
    else [b[0]] + Fill(d[1..], b[1..])
  }

  /** The bits of a value in the free positions. */
  function FreeBits(d: Domain, v: Bits): (b: Bits)
    requires |v| == |d|
    ensures |b| == Unfixed(d)
  {
    if d == [] then []
    else if d[0].lo == d[0].hi then FreeBits(d[1..], v[1..])
    else [v[0]] + FreeBits(d[1..], v[1..])
  }

  lemma {:induction false} FillMember(d: Domain, b: Bits)
    requires Valid(d) && |b| == Unfixed(d)
    ensures Member(d, Fill(d, b))
  {
    if d != [] {
      assert Valid(d[1..]);
      var rest := if d[0].lo == d[0].hi then b else b[1..];
      FillMember(d[1..], rest);
      forall i | 0 <= i < |d|
        ensures Allows(d[i], Fill(d, b)[i])
      {
        if i > 0 { assert Allows(d[1..][i - 1], Fill(d[1..], rest)[i - 1]); }
      }
    }
  }

  lemma {:induction false} FillFree(d: Domain, v: Bits)
    requires Member(d, v)
    ensures Fill(d, FreeBits(d, v)) == v
  {
    if d != [] {
      assert Allows(d[0], v[0]);
      assert Member(d[1..], v[1..]) by {
        forall i | 0 <= i < |d| - 1
          ensures Allows(d[1..][i], v[1..][i])
        {
          assert Allows(d[i + 1], v[i + 1]);
        }
      }
      FillFree(d[1..], v[1..]);
      assert v == [v[0]] + v[1..];
    }
  }

  lemma {:induction false} FreeFill(d: Domain, b: Bits)
    requires |b| == Unfixed(d)
    ensures FreeBits(d, Fill(d, b)) == b
  {
    if d != [] {
      var rest := if d[0].lo == d[0].hi then b else b[1..];
      FreeFill(d[1..], rest);
      assert Fill(d, b)[1..] == Fill(d[1..], rest);
    }
  }

  /** Filling keeps the order. */
  lemma {:induction false} FillLess(d: Domain, b: Bits, c: Bits)
    requires |b| == |c| == Unfixed(d) && Nat(b) < Nat(c)
    ensures Nat(Fill(d, b)) < Nat(Fill(d, c))
  {
    if d != [] {
      var u, v := Fill(d, b), Fill(d, c);
      if d[0].lo == d[0].hi {
        FillLess(d[1..], b, c);
        assert u[1..] == Fill(d[1..], b) && v[1..] == Fill(d[1..], c);
      } else {
        assert u[1..] == Fill(d[1..], b[1..]) && v[1..] == Fill(d[1..], c[1..]);
        if Nat(b[1..]) < Nat(c[1..]) {
          FillLess(d[1..], b[1..], c[1..]);
        } else {
          NatInjective(b[1..], c[1..]);
        }
      }
    }
  }

  lemma {:induction false} FillOrder(d: Domain, b: Bits, c: Bits)
    requires |b| == |c| == Unfixed(d)
    ensures Nat(Fill(d, b)) <= Nat(Fill(d, c)) <==> Nat(b) <= Nat(c)
  {
    if Nat(b) < Nat(c) {
      FillLess(d, b, c);
    } else if Nat(c) < Nat(b) {
      FillLess(d, c, b);
    } else {
      NatInjective(b, c);
    }
  }

  lemma {:induction false} UnfixedConcat(d: Domain, e: Domain)
    ensures Unfixed(d + e) == Unfixed(d) + Unfixed(e)
  {
    if d == [] {
      assert d + e == e;
    } else {
      assert (d + e)[1..] == d[1..] + e;
      UnfixedConcat(d[1..], e);
    }
  }

  lemma {:induction false} FillNone(d: Domain, b: Bits)
    requires d == [] && |b| == Unfixed(d)
    ensures b == [] && Fill(d, b) == []
  {
  }

  lemma {:induction false} UnfixedFront(d: Domain)
    requires d != []
    ensures Unfixed(d) == (if FixedAt(d, 0) then 0 else 1) + Unfixed(d[1..])
  {
  }

  lemma {:induction false} FillFront(d: Domain, b: Bits)
    requires d != [] && |b| == Unfixed(d)
    ensures FixedAt(d, 0) ==> |b| == Unfixed(d[1..]) && Fill(d, b) == [d[0].lo] + Fill(d[1..], b)
    ensures !FixedAt(d, 0) ==> |b| > 0 && |b[1..]| == Unfixed(d[1..]) && Fill(d, b) == [b[0]] + Fill(d[1..], b[1..])
  {
  }

  lemma {:induction false} FillConcat(d: Domain, e: Domain, b: Bits, c: Bits)
    requires |b| == Unfixed(d) && |c| == Unfixed(e)
    ensures Unfixed(d + e) == |b + c| && Fill(d + e, b + c) == Fill(d, b) + Fill(e, c)
  {
    hide Fill, Unfixed;
    UnfixedConcat(d, e);
    if d == [] {
      FillNone(d, b);
      assert d + e == e && b + c == c;
    } else {
      FillFront(d, b);
      FillFront(d + e, b + c);
      assert (d + e)[1..] == d[1..] + e;
      if FixedAt(d, 0) {
        FillConcat(d[1..], e, b, c);
      } else {
        assert (b + c)[1..] == b[1..] + c;
        FillConcat(d[1..], e, b[1..], c);
      }
    }
  }

  /** A value is least, or greatest, if its free bits are all zeros, or ones. */
  lemma {:induction false} FillExtreme(d: Domain, b: Bits)
    requires |b| == Unfixed(d) && Valid(d)
    ensures (forall q :: 0 <= q < |b| ==> !b[q]) ==> Fill(d, b) == Lo(d)
    ensures (forall q :: 0 <= q < |b| ==> b[q]) ==> Fill(d, b) == Hi(d)
  {
    if d != [] {
      assert Valid(d[1..]);
      assert Lo(d) == [d[0].lo] + Lo(d[1..]) && Hi(d) == [d[0].hi] + Hi(d[1..]);
      FillExtreme(d[1..], if d[0].lo == d[0].hi then b else b[1..]);
      assert d[0].lo ==> d[0].hi;
    }
  }

  /** The members of a domain lie between its bounds. */
  lemma {:induction false} MemberBounds(d: Domain, v: Bits)
    requires Member(d, v)
    ensures Nat(Lo(d)) <= Nat(v) <= Nat(Hi(d))
  {
    if d != [] {
      assert Allows(d[0], v[0]);
      forall i | 0 <= i < |d| - 1
        ensures Allows(d[1..][i], v[1..][i])
      {
        assert Allows(d[i + 1], v[i + 1]);
      }
      MemberBounds(d[1..], v[1..]);
      assert Lo(d)[1..] == Lo(d[1..]) && Hi(d)[1..] == Hi(d[1..]);
    }
  }

  lemma {:induction false} UnfixedZero(d: Domain)
    ensures Unfixed(d) == 0 <==> Fixed(d)
  {
    if d != [] {
      UnfixedZero(d[1..]);
      assert Fixed(d[1..]) && d[0].lo == d[0].hi ==> Fixed(d) by {
        if Fixed(d[1..]) && d[0].lo == d[0].hi {
          forall i | 0 <= i < |d|
            ensures d[i].lo == d[i].hi
          {
            if i > 0 { assert d[1..][i - 1] == d[i]; }
          }
        }
      }
      if Fixed(d) {
        assert forall i :: 0 <= i < |d| - 1 ==> d[1..][i] == d[i + 1];
      }
    }
  }

  // ---------------------------------------------------------------- order from the top bits

  lemma {:induction false} TopOf(a: nat, x: nat, b: nat, y: nat, p: nat)
    requires a < p && x < y
    ensures a + p * x < b + p * y
  {
    MulMono(x + 1, y, p);
    Distribute(p, x, 1);
  }

  /** The high parts decide if they differ. */
  lemma {:induction false} TopLess(u: Bits, v: Bits, k: nat)
    requires |u| == |v| && k <= |u| && Nat(u[k..]) < Nat(v[k..])
    ensures Nat(u) < Nat(v)
  {
    hide Nat, Pow2;
    NatSplit(u, k);
    NatSplit(v, k);
    NatBound(u[..k]);
    TopOf(Nat(u[..k]), Nat(u[k..]), Nat(v[..k]), Nat(v[k..]), Pow2(k));
  }

  /** The low parts decide if the high parts are the same. */
  lemma {:induction false} TopSame(u: Bits, v: Bits, k: nat)
    requires |u| == |v| && k <= |u| && u[k..] == v[k..]
    ensures Nat(u) <= Nat(v) <==> Nat(u[..k]) <= Nat(v[..k])
  {
    NatSplit(u, k);
    NatSplit(v, k);
  }

  /** Turning the lowest zero into a one and the ones below it into zeros adds 1. */
  lemma {:induction false} NatCarry(u: Bits, v: Bits, p: nat)
    requires |u| == |v| && p < |u| && !u[p] && v[p] && u[p + 1..] == v[p + 1..]
    requires forall q :: 0 <= q < p ==> u[q] && !v[q]
    ensures Nat(v) == Nat(u) + 1
  {
    NatSplit(u, p);
    NatSplit(v, p);
    NatOnes(u[..p]);
    NatZeros(v[..p]);
    NatTop(u, p + 1);
    NatTop(v, p + 1);
    Distribute(Pow2(p), 2 * Nat(u[p + 1..]), 1);
  }

}
