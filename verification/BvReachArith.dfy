/** When a value of one operand can give a target: arithmetic, comparison and conjunction
    (src/bzlaconsutils.c:49-175, 536-840). */
module BvReachArith {
  import opened Arith
  import opened BvDomain
  import opened BvPropBasic
  import opened BvFill
  import opened BvNat
  import opened BvRef
  import opened BvReach
  import opened BvSignedGenerator

  // ---------------------------------------------------------------- multiplication

  /** An odd number has every multiple modulo a power of two. */
  lemma {:induction false} OddSolve(a: nat, u: nat, m: nat) returns (s: nat)
    requires a % 2 == 1
    ensures s < Pow2(m) && a * s % Pow2(m) == u % Pow2(m)
  {
    if m == 0 {
      s := 0;
    } else {
      var r := OddSolve(a, u, m - 1);
      s := OddLift(a, u, r, Pow2(m - 1));
    }
  }

  /** From modulus `p` to `2 * p`: `r` or `r + p`. */
  lemma {:induction false} OddLift(a: nat, u: nat, r: nat, p: nat) returns (s: nat)
    requires a % 2 == 1 && r < p && a * r % p == u % p
    ensures s < 2 * p && a * s % (2 * p) == u % (2 * p)
  {
    var x := a * r;
    var q1 := Divide(x, p);
    var q2 := Divide(u, p);
    s := LiftBy(a, u, r, p, q1, q2, u % p);
  }

  lemma {:induction false} LiftBy(a: nat, u: nat, r: nat, p: nat, q1: nat, q2: nat, rest: nat) returns (s: nat)
    requires a % 2 == 1 && r < p && rest < p && a * r == q1 * p + rest && u == q2 * p + rest
    ensures s < 2 * p && a * s % (2 * p) == u % (2 * p)
  {
    if q1 % 2 == q2 % 2 {
      s := r;
      SameHalf(a * r, u, q1, q2, rest, p);
    } else {
      s := r + p;
      LiftOther(a, u, r, p, q1, q2, rest);
    }
  }

  lemma {:induction false} LiftOther(a: nat, u: nat, r: nat, p: nat, q1: nat, q2: nat, rest: nat)
    requires a % 2 == 1 && rest < p && a * r == q1 * p + rest && u == q2 * p + rest && q1 % 2 != q2 % 2
    ensures a * (r + p) % (2 * p) == u % (2 * p)
  {
    AddHalf(a, r, p, q1, rest);
    SameHalf(a * (r + p), u, q1 + a, q2, rest, p);
  }

  lemma {:induction false} SameHalf(x: nat, y: nat, q1: nat, q2: nat, rest: nat, p: nat)
    requires x == q1 * p + rest && y == q2 * p + rest && rest < p && q1 % 2 == q2 % 2
    ensures x % (2 * p) == y % (2 * p)
  {
    HalfMod(q1, rest, p);
    HalfMod(q2, rest, p);
  }

  lemma {:induction false} AddHalf(a: nat, r: nat, p: nat, q: nat, rest: nat)
    requires a * r == q * p + rest
    ensures a * (r + p) == (q + a) * p + rest
  {
    Distribute(a, r, p);
    Distribute(p, q, a);
  }

  lemma {:induction false} HalfMod(q: nat, r: nat, p: nat)
    requires r < p
    ensures (q * p + r) % (2 * p) == (q % 2) * p + r
  {
    var h := q / 2;
    assert q == 2 * h + q % 2;
    Distribute(p, 2 * h, q % 2);
    Associate(h, 2, p);
    if q % 2 == 1 {
      DivModUnique(q * p + r, 2 * p, h, p + r);
    } else {
      DivModUnique(q * p + r, 2 * p, h, r);
    }
  }

  /** A common power of two can be taken out of a product and its modulus. */
  lemma {:induction false} TakeOut(y: nat, k: nat, m: nat)
    ensures Pow2(k) * y % Pow2(k + m) == Pow2(k) * (y % Pow2(m))
  {
    hide Pow2;
    var q := Divide(y, Pow2(m));
    var r := y % Pow2(m);
    Pow2Add(k, m);
    Distribute(Pow2(k), q * Pow2(m), r);
    assert Pow2(k) * y == Pow2(k) * (q * Pow2(m)) + Pow2(k) * r;
    assert Pow2(k) * (q * Pow2(m)) == q * (Pow2(k) * Pow2(m)) by { Reorder(Pow2(k), q, Pow2(m)); }
    MulMono(r + 1, Pow2(m), Pow2(k));
    Distribute(Pow2(k), r, 1);
    DivModUnique(Pow2(k) * y, Pow2(k + m), q, Pow2(k) * r);
  }

  lemma {:induction false} Reorder(a: nat, b: nat, c: nat)
    ensures a * (b * c) == b * (a * c)
  {
    Associate(a, b, c);
    Associate(b, a, c);
  }

  /** The number as its odd part, or a multiple of it, times a power of two. */
  lemma {:induction false} TrailingZeros(v: Bits, k: nat)
    requires k <= Ctz(v)
    ensures k <= |v| && Nat(v) == Pow2(k) * Nat(v[k..])
    ensures k == Ctz(v) < |v| ==> Nat(v[k..]) % 2 == 1
  {
    NatZeros(v[..k]);
    HighOnly(v, k);
    if k == Ctz(v) < |v| { OddTop(v[k..]); }
  }

  lemma {:induction false} OddTop(u: Bits)
    requires |u| > 0 && u[0]
    ensures Nat(u) % 2 == 1
  {
    var h := Nat(u[1..]);
    assert Nat(u) == 1 + 2 * h;
    hide Nat;
    DivModUnique(Nat(u), 2, h, 1);
  }

  lemma {:induction false} MulFrom(v: Bits, t: Bits)
    requires |v| == |t| > 0 && Ctz(v) <= Ctz(t) < |t|
    ensures exists s: nat :: s < Pow2(|v|) && Nat(v) * s % Pow2(|v|) == Nat(t)
  {
    hide Pow2, Nat, Ctz;
    var w, k := |v|, Ctz(v);
    TrailingZeros(v, k);
    TrailingZeros(t, k);
    var a, u := Nat(v[k..]), Nat(t[k..]);
    NatBound(t[k..]);
    var s := OddSolve(a, u, w - k);
    Pow2Mono(w - k, w);
    Factored(Nat(v), s, a, u, k, w - k);
    assert k + (w - k) == w;
    assert Nat(v) * s % Pow2(w) == Nat(t);
  }

  lemma {:induction false} Factored(n: nat, s: nat, a: nat, u: nat, k: nat, m: nat)
    requires n == Pow2(k) * a && u < Pow2(m) && a * s % Pow2(m) == u % Pow2(m)
    ensures n * s % Pow2(k + m) == Pow2(k) * u
  {
    hide Pow2;
    DivModUnique(u, Pow2(m), 0, u);
    Associate(Pow2(k), a, s);
    TakeOut(a * s, k, m);
  }

  lemma {:induction false} MulOnly(v: Bits, s: nat, t: Bits)
    requires |v| == |t| > 0 && Nat(v) * s % Pow2(|v|) == Nat(t) && Ctz(t) < |t|
    ensures Ctz(v) <= Ctz(t)
  {
    hide Pow2, Nat;
    if Ctz(v) > Ctz(t) {
      LowPart(v, s, Ctz(t) + 1);
      LowMod(t, Ctz(t));
    }
  }

  /** A multiple of 2^k stays one modulo 2^w. */
  lemma {:induction false} LowPart(v: Bits, s: nat, k: nat)
    requires k <= Ctz(v)
    ensures Nat(v) * s % Pow2(|v|) % Pow2(k) == 0
  {
    TrailingZeros(v, k);
    hide Pow2, Nat, Ctz;
    StillMultiple(Nat(v), Nat(v[k..]), s, k, |v| - k);
    assert k + (|v| - k) == |v|;
  }

  lemma {:induction false} StillMultiple(n: nat, y: nat, s: nat, k: nat, m: nat)
    requires n == Pow2(k) * y
    ensures n * s % Pow2(k + m) % Pow2(k) == 0
  {
    hide Pow2;
    Associate(Pow2(k), y, s);
    TakeOut(y * s, k, m);
    var z := y * s % Pow2(m);
    DivModUnique(Pow2(k) * z, Pow2(k), z, 0);
  }

  /** A set bit shows modulo the next power. */
  lemma {:induction false} LowMod(t: Bits, c: nat)
    requires c < |t| && t[c]
    ensures Nat(t) % Pow2(c + 1) > 0
  {
    LowBit(t, c);
    hide Pow2, Nat;
    NatSplit(t, c + 1);
    SplitMod(Nat(t), Nat(t[c + 1..]), Nat(t[..c + 1]), Pow2(c + 1));
  }

  lemma {:induction false} SplitMod(n: nat, up: nat, low: nat, d: nat)
    requires n == low + d * up && low < d
    ensures n % d == low
  {
    DivModUnique(n, d, up, low);
  }

  lemma {:induction false} LowBit(t: Bits, c: nat)
    requires c < |t| && t[c]
    ensures Nat(t[..c + 1]) > 0
  {
    NatSplit(t[..c + 1], c);
    assert t[..c + 1][c..] == [true];
    assert [true][1..] == [];
    assert Nat([true]) == 1;
  }

  /** A product can be `t` if and only if `v` has no more trailing zeros. */
  lemma {:induction false} MulReach(v: Bits, pos: nat, t: Bits)
    requires |v| == |t| > 0
    ensures Reaches(Mul, pos, v, t) <==> Nat(t) == 0 || Ctz(v) <= Ctz(t)
  {
    hide Pow2, Nat, Ctz;
    CtzZero(t);
    if Nat(t) == 0 {
      DivModUnique(0, Pow2(|v|), 0, 0);
      assert Gives(Mul, pos, v, 0, t);
    } else if Ctz(v) <= Ctz(t) {
      MulFrom(v, t);
      var s: nat :| s < Pow2(|v|) && Nat(v) * s % Pow2(|v|) == Nat(t);
      assert s * Nat(v) == Nat(v) * s;
      assert Gives(Mul, pos, v, s, t);
    } else if Reaches(Mul, pos, v, t) {
      var s: nat :| Gives(Mul, pos, v, s, t);
      assert s * Nat(v) == Nat(v) * s;
      MulOnly(v, s, t);
    }
  }

  // ---------------------------------------------------------------- division

  function AllOnes(w: nat): nat { Pow2(w) - 1 }

  /** A dividend exists for the divisor `v` and the quotient `t`. */
  lemma {:induction false} UdivReach(v: Bits, t: Bits)
    requires |v| == |t| > 0
    ensures Nat(t) == AllOnes(|t|) ==> (Reaches(Udiv, 1, v, t) <==> Nat(v) <= 1)
    ensures Nat(t) != AllOnes(|t|) ==> (Reaches(Udiv, 1, v, t) <==> Nat(v) > 0 && Nat(v) * Nat(t) < Pow2(|t|))
  {
    var a, b, w := Nat(v), Nat(t), |t|;
    NatBound(t);
    hide Nat;
    if s: nat :| Gives(Udiv, 1, v, s, t) {
      if a > 0 {
        var q := Divide(s, a);
        assert a * b <= s;
        if a >= 2 { MulMono(2, a, b); }
      }
    }
    if a > 0 && a * b < Pow2(w) {
      DivModUnique(a * b, a, b, 0);
      assert Gives(Udiv, 1, v, a * b, t);
    }
    if a == 0 && b == AllOnes(w) { assert Gives(Udiv, 1, v, 0, t); }
  }

  lemma {:induction false} UremReach(v: Bits, t: Bits)
    requires |v| == |t| > 0
    ensures Reaches(Urem, 1, v, t) <==> Nat(v) == 0 || Nat(t) < Nat(v)
  {
    NatBound(t);
    hide Nat, Pow2;
    if Nat(v) == 0 || Nat(t) < Nat(v) {
      if Nat(v) != 0 { DivModUnique(Nat(t), Nat(v), 0, Nat(t)); }
      assert Gives(Urem, 1, v, Nat(t), t);
    }
  }

  // ---------------------------------------------------------------- conjunction

  lemma {:induction false} NatAnd(u: Bits, v: Bits)
    requires |u| == |v|
    ensures Nat(AndBits(u, v)) == BvAnd(Nat(u), Nat(v), |u|)
  {
    if u != [] {
      var k := |u| - 1;
      var r := AndBits(u, v);
      assert r[..k] == AndBits(u[..k], v[..k]);
      NatAnd(u[..k], v[..k]);
      TopBit(u);
      TopBit(v);
      TopBit(r);
    }
  }

  lemma {:induction false} TopBit(u: Bits)
    requires |u| > 0
    ensures var k := |u| - 1;
            Nat(u) == Nat(u[..k]) + (if u[k] then Pow2(k) else 0) && Low(Nat(u), Pow2(k)) == Nat(u[..k])
            && (u[k] <==> Nat(u) >= Pow2(k))
  {
    var k := |u| - 1;
    var h := Nat(u[k..]);
    NatTop(u, |u|);
    assert u[|u|..] == [];
    assert h == if u[k] then 1 else 0;
    hide Nat, Pow2;
    NatSplit(u, k);
    OneOrNone(Pow2(k), h);
  }

  lemma {:induction false} OneOrNone(p: nat, h: nat)
    requires h <= 1
    ensures p * h == if h == 1 then p else 0
  {
  }

  /** A conjunction can be `t` if and only if `v` has all bits of `t`. */
  lemma {:induction false} AndReach(v: Bits, pos: nat, t: Bits)
    requires |v| == |t| > 0
    ensures Reaches(And, pos, v, t) <==> AndBits(v, t) == t
  {
    hide Nat, Pow2;
    if AndBits(v, t) == t {
      NatAnd(v, t);
      NatAnd(t, v);
      assert AndBits(t, v) == t;
      ReachesBy(And, pos, v, t, t);
    }
    if Reaches(And, pos, v, t) {
      var s := Other(And, pos, v, t);
      NatAnd(v, s);
      NatAnd(s, v);
      assert AndBits(s, v) == AndBits(v, s);
      NatInjective(AndBits(v, s), t);
    }
  }

  // ---------------------------------------------------------------- comparison

  lemma {:induction false} UltReach(v: Bits, t: Bits)
    requires |v| > 0 && |t| == 1
    ensures Reaches(Ult, 0, v, t) <==> !t[0] || Nat(v) != AllOnes(|v|)
    ensures Reaches(Ult, 1, v, t) <==> !t[0] || Nat(v) != 0
  {
    NatBound(v);
    OneBit(t);
    hide Nat;
    assert !t[0] ==> Gives(Ult, 0, v, 0, t) && Gives(Ult, 1, v, Nat(v), t);
    assert t[0] && Nat(v) != AllOnes(|v|) ==> Gives(Ult, 0, v, AllOnes(|v|), t);
    assert t[0] && Nat(v) != 0 ==> Gives(Ult, 1, v, 0, t);
  }

  lemma {:induction false} OneBit(t: Bits)
    requires |t| == 1
    ensures Nat(t) == if t[0] then 1 else 0
  {
    assert t[1..] == [];
  }

  lemma {:induction false} SltReach(v: Bits, t: Bits)
    requires |v| > 0 && |t| == 1
    ensures Reaches(Slt, 0, v, t) <==> !t[0] || v != MaxSigned(|v|)
    ensures Reaches(Slt, 1, v, t) <==> !t[0] || v != MinSigned(|v|)
  {
    var w := |v|;
    var a, b := MinSigned(w), MaxSigned(w);
    NatBound(v);
    NatBound(a);
    NatBound(b);
    OneBit(t);
    SignedExtremes(w, v);
    if SignedNat(v) == SignedNat(b) { SignedInjective(v, b); }
    if SignedNat(v) == SignedNat(a) { SignedInjective(v, a); }
    hide Nat, Pow2, Signed, MinSigned, MaxSigned;
    assert !t[0] ==> Gives(Slt, 0, v, Nat(v), t) && Gives(Slt, 1, v, Nat(v), t);
    assert t[0] && v != b ==> Gives(Slt, 0, v, Nat(b), t);
    assert t[0] && v != a ==> Gives(Slt, 1, v, Nat(a), t);
    if t[0] { NotPast(v, t); }
  }

  /** Nothing lies past the extreme values. */
  lemma {:induction false} NotPast(v: Bits, t: Bits)
    requires |v| > 0 && |t| == 1 && t[0]
    ensures v == MaxSigned(|v|) ==> !Reaches(Slt, 0, v, t)
    ensures v == MinSigned(|v|) ==> !Reaches(Slt, 1, v, t)
  {
    OneBit(t);
    hide Nat, Pow2, Signed;
    if v == MaxSigned(|v|) && Reaches(Slt, 0, v, t) {
      var s := Other(Slt, 0, v, t);
      SignedExtremes(|v|, s);
    }
    if v == MinSigned(|v|) && Reaches(Slt, 1, v, t) {
      var s := Other(Slt, 1, v, t);
      SignedExtremes(|v|, s);
    }
  }
}
