/** When a value of one operand can give a target: the meaning of the consistency checks
    (src/bzlaconsutils.c:49-840), against the operators of src/bzlabv.c. */
module BvReach {
  import opened Arith
  import opened BvDomain
  import opened BvPropBasic
  import opened BvFill
  import opened BvNat
  import opened BvRef

  datatype Op = And | Ult | Slt | Sll | Srl | Sra | Mul | Udiv | Urem

  /** `bzla_bv_sra` */
  function BvSra(a: nat, b: nat, w: nat): nat
    requires w > 0
  { if a >= Pow2(w - 1) then BvNot(BvSrl(BvNot(a, w), b, w), w) else BvSrl(a, b, w) }

  /** The operators on operands of width `w`. */
  function Apply(op: Op, a: nat, b: nat, w: nat): nat
    requires w > 0
  {
    match op
    case And => BvAnd(a, b, w)
    case Ult => BvUlt(a, b)
    case Slt => BvSlt(a, b, w)
    case Sll => BvSll(a, b, w)
    case Srl => BvSrl(a, b, w)
    case Sra => BvSra(a, b, w)
    case Mul => BvMul(a, b, w)
    case Udiv => BvUdiv(a, b, w)
    case Urem => BvUrem(a, b)
  }

  /** With `v` as operand `pos`, the other operand `s` gives the target. */
  predicate Gives(op: Op, pos: nat, v: Bits, s: nat, t: Bits)
    requires |v| > 0
  {
    s < Pow2(|v|) && (if pos == 0 then Apply(op, Nat(v), s, |v|) else Apply(op, s, Nat(v), |v|)) == Nat(t)
  }

  ghost predicate Reaches(op: Op, pos: nat, v: Bits, t: Bits)
    requires |v| > 0
  {
    exists s: nat :: Gives(op, pos, v, s, t)
  }

  /** Some value of the domain and some other operand give the target. */
  ghost predicate Consistent(op: Op, pos: nat, x: Domain, t: Bits) {
    exists v: Bits :: |v| > 0 && Member(x, v) && Reaches(op, pos, v, t)
  }

  lemma {:induction false} ReachesBy(op: Op, pos: nat, v: Bits, s: Bits, t: Bits)
    requires |v| == |s| > 0
    requires (if pos == 0 then Apply(op, Nat(v), Nat(s), |v|) else Apply(op, Nat(s), Nat(v), |v|)) == Nat(t)
    ensures Reaches(op, pos, v, t)
  {
    NatBound(s);
    assert Gives(op, pos, v, Nat(s), t);
  }

  lemma {:induction false} IsConsistent(op: Op, pos: nat, x: Domain, v: Bits, t: Bits)
    requires |v| > 0 && Member(x, v) && Reaches(op, pos, v, t)
    ensures Consistent(op, pos, x, t)
  {
  }

  /** The other operand as bits. */
  lemma {:induction false} Other(op: Op, pos: nat, v: Bits, t: Bits) returns (s: Bits)
    requires |v| > 0 && Reaches(op, pos, v, t)
    ensures |s| == |v|
    ensures (if pos == 0 then Apply(op, Nat(v), Nat(s), |v|) else Apply(op, Nat(s), Nat(v), |v|)) == Nat(t)
  {
    var n: nat :| Gives(op, pos, v, n, t);
    s := OfNat(n, |v|);
    NatOfNat(n, |v|);
  }

  // ---------------------------------------------------------------- shifts on bits

  /** `bzla_bv_sra` on bits: a negative number is complemented, shifted and complemented back. */
  function SraBits(v: Bits, n: nat): (r: Bits)
    requires |v| > 0
    ensures |r| == |v|
  { if v[|v| - 1] then NotBits(SrlBits(NotBits(v), n)) else SrlBits(v, n) }

  lemma {:induction false} NatSign(v: Bits)
    requires |v| > 0
    ensures v[|v| - 1] <==> Nat(v) >= Pow2(|v| - 1)
  {
    var k := |v| - 1;
    NatSplit(v, k);
    NatTop(v, |v|);
    assert v[|v|..] == [];
  }

  lemma {:induction false} NatSra(v: Bits, n: nat)
    requires |v| > 0
    ensures Nat(SraBits(v, n)) == BvSra(Nat(v), n, |v|)
  {
    NatSign(v);
    if v[|v| - 1] {
      NatOfNot(v);
      NatSrl(NotBits(v), n);
      NatOfNot(SrlBits(NotBits(v), n));
    } else {
      NatSrl(v, n);
    }
    hide Nat, BvSrl, BvNot, Pow2, NotBits, SrlBits;
  }

  lemma {:induction false} NatOfNot(v: Bits)
    ensures Nat(NotBits(v)) == BvNot(Nat(v), |v|)
  {
    NatBound(v);
    NatNot(v);
  }

  lemma {:induction false} SrlAt(v: Bits, n: nat, i: nat)
    requires i < |v|
    ensures SrlBits(v, n)[i] == (i + n < |v| && v[i + n])
  {
  }

  lemma {:induction false} NotAt(v: Bits, i: nat)
    requires i < |v|
    ensures NotBits(v)[i] == !v[i]
  {
  }

  /** Bit `i` of an arithmetic shift: the sign above the shifted bits. */
  lemma {:induction false} SraAt(v: Bits, n: nat, i: nat)
    requires i < |v|
    ensures SraBits(v, n)[i] == if i + n < |v| then v[i + n] else v[|v| - 1]
  {
    hide NotBits, SrlBits;
    if v[|v| - 1] {
      NotAt(SrlBits(NotBits(v), n), i);
      SrlAt(NotBits(v), n, i);
      if i + n < |v| { NotAt(v, i + n); }
    } else {
      SrlAt(v, n, i);
    }
  }

  // ---------------------------------------------------------------- counting zeros

  /** `bzla_bv_get_num_trailing_zeros` */
  function Ctz(v: Bits): (r: nat)
    ensures r <= |v| && (forall i :: 0 <= i < r ==> !v[i]) && (r < |v| ==> v[r])
  { if v == [] || v[0] then 0 else 1 + Ctz(v[1..]) }

  /** The number of leading bits that equal `b`: `bzla_bv_get_num_leading_zeros` and `_ones`. */
  function Leading(v: Bits, b: bool): (r: nat)
    ensures r <= |v| && (forall i :: |v| - r <= i < |v| ==> v[i] == b) && (r < |v| ==> v[|v| - 1 - r] != b)
  {
    var k := |v| - 1;
    if v == [] || v[k] != b then 0 else 1 + Leading(v[..k], b)
  }

  lemma {:induction false} CtzZero(t: Bits)
    ensures Ctz(t) == |t| <==> Nat(t) == 0
  {
    if Ctz(t) == |t| {
      NatZeros(t);
    } else if Nat(t) == 0 {
      var z: Bits := seq(|t|, _ => false);
      NatZeros(z);
      NatInjective(t, z);
    }
  }

  lemma {:induction false} LeadingZero(t: Bits)
    ensures Leading(t, false) == |t| <==> Nat(t) == 0
  {
    if Leading(t, false) == |t| {
      NatZeros(t);
    } else if Nat(t) == 0 {
      var z: Bits := seq(|t|, _ => false);
      NatZeros(z);
      NatInjective(t, z);
    }
  }

  // ---------------------------------------------------------------- left shift

  lemma {:induction false} SllShift(v: Bits, n: nat, t: Bits)
    requires |v| == |t| > 0 && Ctz(t) < |t|
    ensures SllBits(v, n) == t <==> n <= Ctz(t) && v[..|t| - n] == t[n..]
  {
    var w, c := |t|, Ctz(t);
    hide Ctz;
    if SllBits(v, n) == t {
      assert t[c] == SllBits(v, n)[c];
      forall i | 0 <= i < w - n
        ensures v[..w - n][i] == t[n..][i]
      {
        SllAt(v, n, i + n);
      }
    }
    if n <= c && v[..w - n] == t[n..] {
      forall i | 0 <= i < w
        ensures SllBits(v, n)[i] == t[i]
      {
        if i >= n { assert v[..w - n][i - n] == t[n..][i - n]; }
      }
    }
  }

  lemma {:induction false} SllAt(v: Bits, n: nat, i: nat)
    requires i < |v|
    ensures SllBits(v, n)[i] == (i >= n && v[i - n])
  {
  }

  /** `v` can be shifted left to `t`: it matches `t` above some of its trailing zeros. */
  lemma {:induction false} SllLeft(v: Bits, t: Bits)
    requires |v| == |t| > 0 && Ctz(t) < |t|
    ensures Reaches(Sll, 0, v, t) <==> exists n: nat :: n <= Ctz(t) && v[..|t| - n] == t[n..]
  {
    if Reaches(Sll, 0, v, t) {
      var s := Other(Sll, 0, v, t);
      NatSll(v, Nat(s));
      NatInjective(SllBits(v, Nat(s)), t);
      SllShift(v, Nat(s), t);
    }
    if n: nat :| n <= Ctz(t) && v[..|t| - n] == t[n..] {
      SllShift(v, n, t);
      NatSll(v, n);
      Pow2Above(|t|);
      assert Gives(Sll, 0, v, n, t);
    }
  }

  lemma {:induction false} ShiftBack(t: Bits, n: nat)
    requires Ctz(t) == |t| || n <= Ctz(t)
    ensures SllBits(SrlBits(t, n), n) == t
  {
  }

  /** Something can be shifted left by `v` to `t`: there are enough trailing zeros. */
  lemma {:induction false} SllRight(v: Bits, t: Bits)
    requires |v| == |t| > 0
    ensures Reaches(Sll, 1, v, t) <==> Nat(t) == 0 || Nat(v) <= Ctz(t)
  {
    var n := Nat(v);
    CtzZero(t);
    if Nat(t) == 0 || n <= Ctz(t) {
      var s := SrlBits(t, n);
      NatSll(s, n);
      ShiftBack(t, n);
      ReachesBy(Sll, 1, v, s, t);
    }
    if Reaches(Sll, 1, v, t) && Nat(t) != 0 {
      var s := Other(Sll, 1, v, t);
      NatSll(s, n);
      NatInjective(SllBits(s, n), t);
      SllShift(s, n, t);
    }
  }

  // ---------------------------------------------------------------- right shifts

  lemma {:induction false} SrlShift(v: Bits, n: nat, t: Bits)
    requires |v| == |t| > 0 && Leading(t, false) < |t|
    ensures SrlBits(v, n) == t <==> n <= Leading(t, false) && v[n..] == t[..|t| - n]
  {
    var w, c := |t|, Leading(t, false);
    if SrlBits(v, n) == t {
      assert t[w - 1 - c] == SrlBits(v, n)[w - 1 - c];
      forall i | 0 <= i < w - n
        ensures v[n..][i] == t[..w - n][i]
      {
        assert t[i] == SrlBits(v, n)[i];
      }
    }
    if n <= c && v[n..] == t[..w - n] {
      forall i | 0 <= i < w
        ensures SrlBits(v, n)[i] == t[i]
      {
        if i + n < w { assert v[n..][i] == t[..w - n][i]; }
      }
    }
  }

  lemma {:induction false} SrlLeft(v: Bits, t: Bits)
    requires |v| == |t| > 0 && Leading(t, false) < |t|
    ensures Reaches(Srl, 0, v, t) <==> exists n: nat :: n <= Leading(t, false) && v[n..] == t[..|t| - n]
  {
    if Reaches(Srl, 0, v, t) {
      var s := Other(Srl, 0, v, t);
      NatSrl(v, Nat(s));
      NatInjective(SrlBits(v, Nat(s)), t);
      SrlShift(v, Nat(s), t);
    }
    if n: nat :| n <= Leading(t, false) && v[n..] == t[..|t| - n] {
      SrlShift(v, n, t);
      NatSrl(v, n);
      Pow2Above(|t|);
      assert Gives(Srl, 0, v, n, t);
    }
  }

  lemma {:induction false} SrlRight(v: Bits, t: Bits)
    requires |v| == |t| > 0
    ensures Reaches(Srl, 1, v, t) <==> Nat(t) == 0 || Nat(v) <= Leading(t, false)
  {
    var n := Nat(v);
    LeadingZero(t);
    if Nat(t) == 0 || n <= Leading(t, false) {
      var s := SllBits(t, n);
      NatSrl(s, n);
      assert SrlBits(s, n) == t;
      ReachesBy(Srl, 1, v, s, t);
    }
    if Reaches(Srl, 1, v, t) && Nat(t) != 0 {
      var s := Other(Srl, 1, v, t);
      NatSrl(s, n);
      NatInjective(SrlBits(s, n), t);
      SrlShift(s, n, t);
    }
  }

  /** The target is neither 0 nor all ones: the sign bits that it starts with. */
  function Run(t: Bits): (r: nat)
    requires |t| > 0
  { Leading(t, t[|t| - 1]) }

  lemma {:induction false} SraShift(v: Bits, n: nat, t: Bits)
    requires |v| == |t| > 0 && Run(t) < |t|
    ensures SraBits(v, n) == t <==> n < Run(t) && v[n..] == t[..|t| - n]
  {
    hide SraBits, Run;
    if SraBits(v, n) == t { SraFrom(v, n, t); }
    if n < Run(t) && v[n..] == t[..|t| - n] { SraTo(v, n, t); }
  }

  lemma {:induction false} SraFrom(v: Bits, n: nat, t: Bits)
    requires |v| == |t| > 0 && Run(t) < |t| && SraBits(v, n) == t
    ensures n < Run(t) && v[n..] == t[..|t| - n]
  {
    var w, c := |t|, Run(t);
    SraAt(v, n, w - 1 - c);
    SraAt(v, n, w - 1);
    forall i | 0 <= i < w - n
      ensures v[n..][i] == t[..w - n][i]
    {
      SraAt(v, n, i);
    }
  }

  lemma {:induction false} SraTo(v: Bits, n: nat, t: Bits)
    requires |v| == |t| > 0 && Run(t) < |t| && n < Run(t) && v[n..] == t[..|t| - n]
    ensures SraBits(v, n) == t
  {
    var w := |t|;
    assert v[w - 1] == v[n..][w - 1 - n] == t[w - 1 - n];
    forall i | 0 <= i < w
      ensures SraBits(v, n)[i] == t[i]
    {
      SraAt(v, n, i);
      if i + n < w { assert v[n..][i] == t[..w - n][i]; }
    }
  }

  lemma {:induction false} SraLeft(v: Bits, t: Bits)
    requires |v| == |t| > 0 && Run(t) < |t|
    ensures Reaches(Sra, 0, v, t) <==> exists n: nat :: n < Run(t) && v[n..] == t[..|t| - n]
  {
    if Reaches(Sra, 0, v, t) {
      var s := Other(Sra, 0, v, t);
      NatSra(v, Nat(s));
      NatInjective(SraBits(v, Nat(s)), t);
      SraShift(v, Nat(s), t);
    }
    if n: nat :| n < Run(t) && v[n..] == t[..|t| - n] {
      SraShift(v, n, t);
      NatSra(v, n);
      Pow2Above(|t|);
      assert Gives(Sra, 0, v, n, t);
    }
  }

  lemma {:induction false} SraRight(v: Bits, t: Bits)
    requires |v| == |t| > 0 && Run(t) < |t|
    ensures Reaches(Sra, 1, v, t) <==> Nat(v) < Run(t)
  {
    var n, w := Nat(v), |t|;
    if n < Run(t) {
      var s := SllBits(t, n);
      assert s[n..] == t[..w - n];
      SraShift(s, n, t);
      NatSra(s, n);
      ReachesBy(Sra, 1, v, s, t);
    }
    if Reaches(Sra, 1, v, t) {
      var s := Other(Sra, 1, v, t);
      NatSra(s, n);
      NatInjective(SraBits(s, n), t);
      SraShift(s, n, t);
    }
  }

  /** 0 and all ones are reached from exactly the values of that sign. */
  /** A target of equal bits is what shifting everything out leaves. */
  lemma {:induction false} SraAllOut(v: Bits, n: nat, t: Bits)
    requires |v| == |t| > 0 && Run(t) == |t| && v[|v| - 1] == t[|t| - 1]
    requires n >= |v| || v == t
    ensures SraBits(v, n) == t
  {
    hide SraBits;
    forall i | 0 <= i < |t|
      ensures SraBits(v, n)[i] == t[i]
    {
      SraAt(v, n, i);
    }
  }

  lemma {:induction false} SraExtreme(v: Bits, t: Bits)
    requires |v| == |t| > 0 && Run(t) == |t|
    ensures Reaches(Sra, 0, v, t) <==> v[|v| - 1] == t[|t| - 1]
    ensures Reaches(Sra, 1, v, t)
  {
    hide Nat, SraBits, Run, BvSra;
    var w := |t|;
    if v[w - 1] == t[w - 1] {
      SraAllOut(v, w, t);
      NatSra(v, w);
      Pow2Above(w);
      assert Gives(Sra, 0, v, w, t);
    }
    if Reaches(Sra, 0, v, t) {
      var s := Other(Sra, 0, v, t);
      NatSra(v, Nat(s));
      NatInjective(SraBits(v, Nat(s)), t);
      SraAt(v, Nat(s), w - 1);
    }
    SraAllOut(t, Nat(v), t);
    NatSra(t, Nat(v));
    ReachesBy(Sra, 1, v, t, t);
  }
}
