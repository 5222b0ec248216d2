/** Signed comparison on AIG vectors (src/bzlaaigvec.c:195-262). */
module AigSigned {
  import opened Arith
  import opened BvRef
  import opened AigGraph
  import opened References
  import opened AigManager
  import opened AigNum
  import opened AigVector
  import opened AigLogic

  /** The comparison as a function of the two sign bits and of the comparison of the rest. */
  function SltBit(sign1: nat, sign2: nat, ult: nat): nat {
    if sign1 != sign2 then (if sign1 > sign2 then 1 else 0) else ult
  }

  lemma {:induction false} SltSplit(a: nat, b: nat, w: nat)
    requires w > 1 && a < Pow2(w) && b < Pow2(w)
    ensures BvSlt(a, b, w) == SltBit(BvSlice(a, w - 1, w - 1), BvSlice(b, w - 1, w - 1),
                                     BvUlt(BvSlice(a, w - 2, 0), BvSlice(b, w - 2, 0)))
  {
    SignAndRest(a, w);
    SignAndRest(b, w);
  }

  lemma {:induction false} SignAndRest(a: nat, w: nat)
    requires w > 1 && a < Pow2(w)
    ensures BvSlice(a, w - 1, w - 1) == (if a >= Pow2(w - 1) then 1 else 0)
    ensures BvSlice(a, w - 2, 0) == Low(a, Pow2(w - 1))
  {
    var p := Pow2(w - 1);
    assert Pow2(0) == 1 && Pow2(1) == 2;
    var sign := if a >= p then 1 else 0;
    DivModUnique(a, p, sign, Low(a, p));
    assert sign % 2 == sign;
  }

  lemma {:induction false} OneBit(g: Graph, v: seq<Lit>, env: Env)
    requires |v| == 1
    ensures Num(g, v, env) <= 1
  {
    NumBound(g, v, env);
    assert Pow2(1) == 2 * Pow2(0);
  }

  lemma {:induction false} AndOne(x: nat, y: nat)
    requires x <= 1 && y <= 1
    ensures BvAnd(x, y, 1) == AndBit(x, y)
  {
    assert BvAnd(Low(x, 1), Low(y, 1), 0) == 0;
  }

  function NotBit(x: nat): nat { if x == 0 then 1 else 0 }

  /** `by_sign \/ (eq_sign /\ ult)`, built from the complement of `by_sign` by two in-place
      inversions. */
  method SltCombine(m: Manager, bySignInv: array<Lit>, eqSign: array<Lit>, ult: array<Lit>) returns (res: array<Lit>)
    requires m.Valid() && bySignInv.Length == eqSign.Length == ult.Length == 1
    requires HeldVec(m.handles, bySignInv[..]) && HeldVec(m.handles, eqSign[..]) && HeldVec(m.handles, ult[..])
    modifies m
    ensures m.Valid() && fresh(res) && res.Length == 1
    ensures Made(old(m.handles), old(m.graph), m.handles, m.graph, res[..])
    ensures forall env: Env :: Num(m.graph, res[..], env)
              == NotBit(AndBit(Num(old(m.graph), bySignInv[..], env),
                               NotBit(AndBit(Num(old(m.graph), eqSign[..], env), Num(old(m.graph), ult[..], env)))))
  {
    hide m.Valid, Eval, Val, NodeValue, Extends, NodeRef, Num, Refs, HeldVec, Within, BvAnd, BvNot, Inverted;
    ghost var h0, g0, x, y, z := m.handles, m.graph, bySignInv[..], eqSign[..], ult[..];
    HeldWithin(m, x);
    HeldWithin(m, y);
    HeldWithin(m, z);
    var both := MakeAndVec(m, eqSign, ult);
    ghost var h1, g1, t := m.handles, m.graph, both[..];
    MadeKeeps(h0, g0, h1, g1, t);
    Invert(both);
    ghost var ti := both[..];
    InvertedKeeps(h1, g1, t, ti);
    res := MakeAndVec(m, bySignInv, both);
    ghost var h2, g2, u := m.handles, m.graph, res[..];
    MadeKeeps(h1, g1, h2, g2, u);
    Invert(res);
    ghost var ui := res[..];
    InvertedKeeps(h2, g2, u, ui);
    ReleaseLast(m, both, h0, Refs(ui));
    ExtendsTrans(g0, g1, g2);
    forall env: Env
      ensures Num(g2, ui, env) == NotBit(AndBit(Num(g0, x, env), NotBit(AndBit(Num(g0, y, env), Num(g0, z, env)))))
    {
      OneBitAnd(g1, t, g0, y, z, env);
      OneBitNot(g1, ti, t, env);
      OneBitAnd(g2, u, g1, x, ti, env);
      OneBitNot(g2, ui, u, env);
    }
  }

  lemma {:induction false} OneBitAnd(g': Graph, t: seq<Lit>, g: Graph, x: seq<Lit>, y: seq<Lit>, env: Env)
    requires |x| == |y| == 1 && Num(g', t, env) == BvAnd(Num(g, x, env), Num(g, y, env), 1)
    ensures Num(g', t, env) == AndBit(Num(g, x, env), Num(g, y, env))
  {
    hide Num;
    OneBit(g, x, env);
    OneBit(g, y, env);
    AndOne(Num(g, x, env), Num(g, y, env));
  }

  lemma {:induction false} OneBitNot(g: Graph, t: seq<Lit>, x: seq<Lit>, env: Env)
    requires |x| == 1 && Num(g, t, env) == BvNot(Num(g, x, env), 1)
    ensures Num(g, t, env) == NotBit(Num(g, x, env))
  {
    hide Num;
    OneBit(g, x, env);
    BvNotOne(Num(g, x, env));
  }

  /** The part of `bzla_aigvec_slt` from `sign1_inv /\ sign2` on. */
  method SltEqSign(m: Manager, sign1Inv: array<Lit>, sign2: array<Lit>, bySignInv: array<Lit>, ult: array<Lit>)
    returns (res: array<Lit>)
    requires m.Valid() && sign1Inv.Length == sign2.Length == bySignInv.Length == ult.Length == 1
    requires HeldVec(m.handles, sign1Inv[..]) && HeldVec(m.handles, sign2[..])
    requires HeldVec(m.handles, bySignInv[..]) && HeldVec(m.handles, ult[..])
    modifies m
    ensures m.Valid() && fresh(res) && res.Length == 1
    ensures Made(old(m.handles), old(m.graph), m.handles, m.graph, res[..])
    ensures forall env: Env :: Num(m.graph, res[..], env)
              == EqSignBit(Num(old(m.graph), sign1Inv[..], env), Num(old(m.graph), sign2[..], env),
                           Num(old(m.graph), bySignInv[..], env), Num(old(m.graph), ult[..], env))
  {
    hide m.Valid, Eval, Val, NodeValue, Extends, NodeRef, Num, Refs, HeldVec, Within, BvAnd, BvNot, Inverted;
    ghost var h0, g0, x, y, b, z := m.handles, m.graph, sign1Inv[..], sign2[..], bySignInv[..], ult[..];
    HeldWithin(m, x);
    HeldWithin(m, y);
    HeldWithin(m, b);
    HeldWithin(m, z);
    var r := MakeAndVec(m, sign1Inv, sign2);
    ghost var h1, g1, t := m.handles, m.graph, r[..];
    MadeKeeps(h0, g0, h1, g1, t);
    var rInv := MakeNot(m, r);
    ghost var h2, ti := m.handles, rInv[..];
    MadeKeeps(h1, g1, h2, g1, ti);
    var eqSign := MakeAndVec(m, bySignInv, rInv);
    ghost var h3, g3, e := m.handles, m.graph, eqSign[..];
    MadeKeeps(h2, g1, h3, g3, e);
    res := SltCombine(m, bySignInv, eqSign, ult);
    ghost var h4, g4, u := m.handles, m.graph, res[..];
    MadeKeeps(h3, g3, h4, g4, u);
    ReleaseLast(m, eqSign, h2, Refs(u));
    ReleaseLast(m, rInv, h1, Refs(u));
    ReleaseLast(m, r, h0, Refs(u));
    ExtendsTrans(g0, g1, g3);
    ExtendsTrans(g0, g3, g4);
    forall env: Env
      ensures Num(g4, u, env) == EqSignBit(Num(g0, x, env), Num(g0, y, env), Num(g0, b, env), Num(g0, z, env))
    {
      OneBitAnd(g1, t, g0, x, y, env);
      OneBitNot(g1, ti, t, env);
      OneBitAnd(g3, e, g1, b, ti, env);
    }
  }

  function EqSignBit(sign1Inv: nat, sign2: nat, bySignInv: nat, ult: nat): nat {
    var eqSign := AndBit(bySignInv, NotBit(AndBit(sign1Inv, sign2)));
    NotBit(AndBit(bySignInv, NotBit(AndBit(eqSign, ult))))
  }

  /** The gates behind the two sign bits and the unsigned comparison of the rest. */
  method SltGates(m: Manager, sign1: array<Lit>, sign2: array<Lit>, ult: array<Lit>) returns (res: array<Lit>)
    requires m.Valid() && sign1.Length == sign2.Length == ult.Length == 1
    requires HeldVec(m.handles, sign1[..]) && HeldVec(m.handles, sign2[..]) && HeldVec(m.handles, ult[..])
    modifies m
    ensures m.Valid() && fresh(res) && res.Length == 1
    ensures Made(old(m.handles), old(m.graph), m.handles, m.graph, res[..])
    ensures forall env: Env :: Num(m.graph, res[..], env)
              == SltBit(Num(old(m.graph), sign1[..], env), Num(old(m.graph), sign2[..], env),
              Num(old(m.graph), ult[..], env))
  {
    hide m.Valid, Eval, Val, NodeValue, Extends, NodeRef, Num, Refs, HeldVec, Within, BvAnd, BvNot, Inverted;
    ghost var h0, g0, x, y, z := m.handles, m.graph, sign1[..], sign2[..], ult[..];
    HeldWithin(m, x);
    HeldWithin(m, y);
    HeldWithin(m, z);
    var sign1Inv := MakeNot(m, sign1);
    ghost var h1, xi := m.handles, sign1Inv[..];
    MadeKeeps(h0, g0, h1, g0, xi);
    var sign2Inv := MakeNot(m, sign2);
    ghost var h2, yi := m.handles, sign2Inv[..];
    MadeKeeps(h1, g0, h2, g0, yi);
    var bySign := MakeAndVec(m, sign1, sign2Inv);
    ghost var h3, g3, b := m.handles, m.graph, bySign[..];
    MadeKeeps(h2, g0, h3, g3, b);
    var bySignInv := MakeNot(m, bySign);
    ghost var h4, bi := m.handles, bySignInv[..];
    MadeKeeps(h3, g3, h4, g3, bi);
    res := SltEqSign(m, sign1Inv, sign2, bySignInv, ult);
    ghost var h5, g5, u := m.handles, m.graph, res[..];
    MadeKeeps(h4, g3, h5, g5, u);
    ReleaseLast(m, bySignInv, h3, Refs(u));
    ReleaseLast(m, bySign, h2, Refs(u));
    ReleaseLast(m, sign2Inv, h1, Refs(u));
    ReleaseLast(m, sign1Inv, h0, Refs(u));
    ExtendsTrans(g0, g3, g5);
    forall env: Env
      ensures Num(g5, u, env) == SltBit(Num(g0, x, env), Num(g0, y, env), Num(g0, z, env))
    {
      OneBit(g0, x, env);
      OneBit(g0, y, env);
      OneBit(g0, z, env);
      OneBitNot(g0, xi, x, env);
      OneBitNot(g0, yi, y, env);
      OneBitAnd(g3, b, g0, x, yi, env);
      OneBitNot(g3, bi, b, env);
    }
  }

  /** Compare the rests without sign and combine with the signs. */
  method SltParts(m: Manager, sign1: array<Lit>, sign2: array<Lit>, rest1: array<Lit>, rest2: array<Lit>)
    returns (res: array<Lit>)
    requires m.Valid() && sign1.Length == sign2.Length == 1 && 0 < rest1.Length == rest2.Length
    requires HeldVec(m.handles, sign1[..]) && HeldVec(m.handles, sign2[..])
    requires HeldVec(m.handles, rest1[..]) && HeldVec(m.handles, rest2[..])
    modifies m
    ensures m.Valid() && fresh(res) && res.Length == 1
    ensures Made(old(m.handles), old(m.graph), m.handles, m.graph, res[..])
    ensures forall env: Env :: Num(m.graph, res[..], env)
              == SltBit(Num(old(m.graph), sign1[..], env), Num(old(m.graph), sign2[..], env),
                        BvUlt(Num(old(m.graph), rest1[..], env), Num(old(m.graph), rest2[..], env)))
  {
    hide m.Valid, Eval, Val, NodeValue, Extends, NodeRef, Num, Refs, HeldVec, Within, BvUlt, SltBit;
    ghost var h0, g0, s1, s2 := m.handles, m.graph, sign1[..], sign2[..];
    HeldWithin(m, s1);
    HeldWithin(m, s2);
    var ult := MakeUlt(m, rest1, rest2);
    ghost var h1, g1, u := m.handles, m.graph, ult[..];
    MadeKeeps(h0, g0, h1, g1, u);
    res := SltGates(m, sign1, sign2, ult);
    ghost var h2, g2, t := m.handles, m.graph, res[..];
    MadeKeeps(h1, g1, h2, g2, t);
    ReleaseLast(m, ult, h0, Refs(t));
    ExtendsTrans(g0, g1, g2);
  }

  /** `bzla_aigvec_slt` for more than one bit: sign bits, unsigned comparison of the rest. */
  method SltWide(m: Manager, av1: array<Lit>, av2: array<Lit>) returns (res: array<Lit>)
    requires m.Valid() && 1 < av1.Length == av2.Length && HeldVec(m.handles, av1[..]) && HeldVec(m.handles, av2[..])
    modifies m
    ensures m.Valid() && fresh(res) && res.Length == 1
    ensures Made(old(m.handles), old(m.graph), m.handles, m.graph, res[..])
    ensures forall env: Env :: Num(m.graph, res[..], env)
              == BvSlt(Num(old(m.graph), av1[..], env), Num(old(m.graph), av2[..], env), av1.Length)
  {
    hide m.Valid, Eval, Val, NodeValue, Extends, NodeRef, Num, Refs, HeldVec, Within, BvSlice, BvSlt, BvUlt, SltBit;
    hide Pow2;
    var w := av1.Length;
    ghost var h0, g0, a, b := m.handles, m.graph, av1[..], av2[..];
    HeldWithin(m, a);
    HeldWithin(m, b);
    var sign1 := MakeSlice(m, av1, w - 1, w - 1);
    ghost var h1, s1 := m.handles, sign1[..];
    MadeKeeps(h0, g0, h1, g0, s1);
    var sign2 := MakeSlice(m, av2, w - 1, w - 1);
    ghost var h2, s2 := m.handles, sign2[..];
    MadeKeeps(h1, g0, h2, g0, s2);
    var rest1 := MakeSlice(m, av1, w - 2, 0);
    ghost var h3, r1 := m.handles, rest1[..];
    MadeKeeps(h2, g0, h3, g0, r1);
    var rest2 := MakeSlice(m, av2, w - 2, 0);
    ghost var h4, r2 := m.handles, rest2[..];
    MadeKeeps(h3, g0, h4, g0, r2);
    assert sign1[..] == s1 && sign2[..] == s2 && rest1[..] == r1;
    assert HeldVec(h4, s1) && HeldVec(h4, s2) && HeldVec(h4, r1) && HeldVec(h4, r2);
    res := SltParts(m, sign1, sign2, rest1, rest2);
    ghost var h6, g6, t := m.handles, m.graph, res[..];
    MadeKeeps(h4, g0, h6, g6, t);
    ReleaseLast(m, rest2, h3, Refs(t));
    ReleaseLast(m, rest1, h2, Refs(t));
    ReleaseLast(m, sign2, h1, Refs(t));
    ReleaseLast(m, sign1, h0, Refs(t));
    forall env: Env
      ensures Num(g6, t, env) == BvSlt(Num(g0, a, env), Num(g0, b, env), w)
    {
      SltWhole(g0, a, b, env);
    }
  }

  /** The gates read the signs and the remaining bits of the two vectors. */
  lemma {:induction false} SltWhole(g: Graph, a: seq<Lit>, b: seq<Lit>, env: Env)
    requires 1 < |a| == |b|
    ensures var x, y, w := Num(g, a, env), Num(g, b, env), |a|;
            BvSlt(x, y, w) == SltBit(BvSlice(x, w - 1, w - 1), BvSlice(y, w - 1, w - 1),
                                     BvUlt(BvSlice(x, w - 2, 0), BvSlice(y, w - 2, 0)))
  {
    hide Num, BvSlice, BvSlt, BvUlt, SltBit;
    NumBound(g, a, env);
    NumBound(g, b, env);
    SltSplit(Num(g, a, env), Num(g, b, env), |a|);
  }

  /** `bzla_aigvec_slt` */
  method MakeSlt(m: Manager, av1: array<Lit>, av2: array<Lit>) returns (res: array<Lit>)
    requires m.Valid() && 0 < av1.Length == av2.Length && HeldVec(m.handles, av1[..]) && HeldVec(m.handles, av2[..])
    modifies m
    ensures m.Valid() && fresh(res) && res.Length == 1
    ensures Made(old(m.handles), old(m.graph), m.handles, m.graph, res[..])
    ensures forall env: Env :: Num(m.graph, res[..], env)
              == BvSlt(Num(old(m.graph), av1[..], env), Num(old(m.graph), av2[..], env), av1.Length)
  {
    hide m.Valid, Eval, Val, NodeValue, Extends, NodeRef, Num, Refs, HeldVec, Within, BvSlt, BvAnd, BvNot, Inverted;
    if av1.Length == 1 {
      ghost var h0, g0, a, b := m.handles, m.graph, av1[..], av2[..];
      HeldWithin(m, a);
      HeldWithin(m, b);
      var av2Inv := MakeNot(m, av2);
      ghost var h1, bi := m.handles, av2Inv[..];
      MadeKeeps(h0, g0, h1, g0, bi);
      res := MakeAndVec(m, av1, av2Inv);
      ghost var h2, g2, t := m.handles, m.graph, res[..];
      MadeKeeps(h1, g0, h2, g2, t);
      ReleaseLast(m, av2Inv, h0, Refs(t));
      forall env: Env
        ensures Num(g2, t, env) == BvSlt(Num(g0, a, env), Num(g0, b, env), 1)
      {
        OneBitNot(g0, bi, b, env);
        OneBitAnd(g2, t, g0, a, bi, env);
        OneBit(g0, a, env);
        OneBit(g0, b, env);
        SltOne(Num(g0, a, env), Num(g0, b, env));
      }
    } else {
      res := SltWide(m, av1, av2);
    }
  }

  /** With one bit, 1 stands for -1. */
  lemma {:induction false} SltOne(a: nat, b: nat)
    requires a <= 1 && b <= 1
    ensures BvSlt(a, b, 1) == AndBit(a, NotBit(b))
  {
    assert Pow2(1) == 2 * Pow2(0);
  }
}
