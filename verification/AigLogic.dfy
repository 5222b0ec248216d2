/** Bitwise and comparison circuits on AIG vectors (src/bzlaaigvec.c:135-290, 849-872). */
module AigLogic {
  import opened Arith
  import opened BvRef
  import opened AigGraph
  import opened References
  import opened AigManager
  import opened AigGates
  import opened AigNum
  import opened AigVector

  // ---------------------------------------------------------------- cell relations

  /** Cell by cell, `r` is the conjunction of `a` and `b`. */
  ghost predicate AndCells(g: Graph, r: seq<Lit>, g0: Graph, a: seq<Lit>, b: seq<Lit>, env: Env) {
    && |r| == |a| == |b|
    && forall j :: 0 <= j < |r| ==> Val(g, r[j], env) == AndBit(Val(g0, a[j], env), Val(g0, b[j], env))
  }

  function AndBit(x: nat, y: nat): nat { if x == 1 && y == 1 then 1 else 0 }

  ghost predicate SameCells(g: Graph, r: seq<Lit>, g0: Graph, a: seq<Lit>, env: Env) {
    && |r| == |a|
    && forall j :: 0 <= j < |r| ==> Val(g, r[j], env) == Val(g0, a[j], env)
  }

  lemma {:induction false} NumAnd(g: Graph, r: seq<Lit>, g0: Graph, a: seq<Lit>, b: seq<Lit>, env: Env)
    requires AndCells(g, r, g0, a, b, env)
    ensures Num(g, r, env) == BvAnd(Num(g0, a, env), Num(g0, b, env), |r|)
  {
    hide Val, Pow2;
    if |r| > 0 {
      NumAnd(g, r[1..], g0, a[1..], b[1..], env);
      NumBound(g0, a[1..], env);
      NumBound(g0, b[1..], env);
    }
  }

  lemma {:induction false} NumSame(g: Graph, r: seq<Lit>, g0: Graph, a: seq<Lit>, env: Env)
    requires SameCells(g, r, g0, a, env)
    ensures Num(g, r, env) == Num(g0, a, env)
  {
    hide Val, Pow2;
    if |r| > 0 { NumSame(g, r[1..], g0, a[1..], env); }
  }

  /** Equal numbers have equal bits. */
  lemma {:induction false} NumInjective(g: Graph, r: seq<Lit>, g0: Graph, a: seq<Lit>, env: Env)
    requires |r| == |a| && Num(g, r, env) == Num(g0, a, env)
    ensures SameCells(g, r, g0, a, env)
  {
    hide Val, Pow2;
    if |r| > 0 {
      NumBound(g, r[1..], env);
      NumBound(g0, a[1..], env);
      NumInjective(g, r[1..], g0, a[1..], env);
      forall j | 0 <= j < |r|
        ensures Val(g, r[j], env) == Val(g0, a[j], env)
      {
        if j > 0 { assert r[j] == r[1..][j - 1] && a[j] == a[1..][j - 1]; }
      }
    }
  }

  // ---------------------------------------------------------------- conjunction

  lemma {:induction false} AndStep(g: Graph, g': Graph, r: seq<Lit>, x: Lit, g0: Graph, a: seq<Lit>, b: seq<Lit>,
        env: Env)
    requires |r| < |a| == |b| && AndCells(g, r, g0, a[..|r|], b[..|r|], env)
    requires Extends(g, g') && Within(g, r) && Val(g', x, env) == AndBit(Val(g0, a[|r|], env), Val(g0, b[|r|], env))
    ensures AndCells(g', r + [x], g0, a[..|r| + 1], b[..|r| + 1], env)
  {
    hide Val, Extends, AndBit;
    forall j | 0 <= j <= |r|
      ensures Val(g', (r + [x])[j], env) == AndBit(Val(g0, a[..|r| + 1][j], env), Val(g0, b[..|r| + 1][j], env))
    {
      if j < |r| {
        ExtendsEval(g, g', r[j], env);
        assert a[..|r|][j] == a[j] && b[..|r|][j] == b[j];
      }
    }
  }

  /** `bzla_aigvec_and` */
  method MakeAndVec(m: Manager, av1: array<Lit>, av2: array<Lit>) returns (result: array<Lit>)
    requires m.Valid() && av1.Length == av2.Length && HeldVec(m.handles, av1[..]) && HeldVec(m.handles, av2[..])
    modifies m
    ensures m.Valid() && fresh(result) && result.Length == av1.Length
    ensures Made(old(m.handles), old(m.graph), m.handles, m.graph, result[..])
    ensures forall env: Env :: Num(m.graph, result[..], env)
              == BvAnd(Num(old(m.graph), av1[..], env), Num(old(m.graph), av2[..], env), av1.Length)
  {
    hide m.Valid, Eval, Val, NodeValue, Extends, NodeRef, Num, Refs, AndCells, HeldVec, Within;
    ghost var g0, h0, a, b := m.graph, m.handles, av1[..], av2[..];
    HeldWithin(m, a);
    HeldWithin(m, b);
    RefsEmpty();
    ExtendsSelf(g0);
    WithinEmpty(g0);
    AndStart(g0, a, b);
    var w := av1.Length;
    result := new Lit[w](_ => FALSE_LIT);
    ghost var r: seq<Lit> := [];
    for i := 0 to w
      invariant result[..i] == r && m.Valid() && av1[..] == a && av2[..] == b
      invariant m.handles == h0 + Refs(r)
      invariant Extends(g0, m.graph) && Within(m.graph, r)
      invariant forall env: Env :: AndCells(m.graph, r, g0, a[..i], b[..i], env)
    {
      ghost var g := m.graph;
      HeldCell(h0, a, i, Refs(r));
      HeldCell(h0, b, i, Refs(r));
      WithinCell(g0, a, i);
      WithinCell(g0, b, i);
      var x := m.MakeAnd(av1[i], av2[i]);
      ghost var r', a', b' := r + [x], a[..i + 1], b[..i + 1];
      forall env: Env
        ensures AndCells(m.graph, r', g0, a', b', env)
      {
        AndValue(m.graph, x, g, a[i], b[i], env);
        ExtendsEval(g0, g, a[i], env);
        ExtendsEval(g0, g, b[i], env);
        AndStep(g, m.graph, r, x, g0, a, b, env);
      }
      result[i] := x;
      WithinSnoc(g, m.graph, r, x);
      ExtendsTrans(g0, g, m.graph);
      RefsPush(r, x);
      r := r + [x];
    }
    assert a[..w] == a && b[..w] == b && result[..w] == result[..];
    forall env: Env
      ensures Num(m.graph, result[..], env) == BvAnd(Num(g0, a, env), Num(g0, b, env), w)
    {
      NumAnd(m.graph, r, g0, a, b, env);
    }
  }

  lemma {:induction false} AndStart(g: Graph, a: seq<Lit>, b: seq<Lit>)
    ensures forall env: Env :: AndCells(g, [], g, a[..0], b[..0], env)
  {
  }

  lemma {:induction false} AndValue(g': Graph, x: Lit, g: Graph, a: Lit, b: Lit, env: Env)
    requires Eval(g', x, env) == (Eval(g, a, env) && Eval(g, b, env))
    ensures Val(g', x, env) == AndBit(Val(g, a, env), Val(g, b, env))
  {
  }

  // ---------------------------------------------------------------- if-then-else

  /** The branch that the condition selects. */
  ghost function Chosen(g: Graph, c: Lit, a: seq<Lit>, b: seq<Lit>, env: Env): (r: seq<Lit>)
    ensures |a| == |b| ==> |r| == |a|
  {
    if Val(g, c, env) == 1 then a else b
  }

  /** Cell by cell, `r` is the beginning of the chosen branch. */
  ghost predicate CondCells(g: Graph, r: seq<Lit>, g0: Graph, c: Lit, a: seq<Lit>, b: seq<Lit>, env: Env) {
    |r| <= |a| == |b| && SameCells(g, r, g0, Chosen(g0, c, a, b, env)[..|r|], env)
  }

  lemma {:induction false} CondStep(g: Graph, g': Graph, r: seq<Lit>, x: Lit, g0: Graph, c: Lit, a: seq<Lit>,
        b: seq<Lit>, env: Env)
    requires |r| < |a| == |b| && CondCells(g, r, g0, c, a, b, env)
    requires Extends(g, g') && Within(g, r)
    requires Eval(g', x, env) == if Eval(g0, c, env) then Eval(g0, a[|r|], env) else Eval(g0, b[|r|], env)
    ensures CondCells(g', r + [x], g0, c, a, b, env)
  {
    var s := Chosen(g0, c, a, b, env);
    assert Val(g', x, env) == Val(g0, s[|r|], env);
    hide Val, Extends, Chosen, Eval;
    forall j | 0 <= j <= |r|
      ensures Val(g', (r + [x])[j], env) == Val(g0, s[..|r| + 1][j], env)
    {
      if j < |r| {
        ExtendsEval(g, g', r[j], env);
        assert s[..|r|][j] == s[j];
      }
    }
  }

  /** `bzla_aigvec_cond` */
  method MakeCondVec(m: Manager, avc: array<Lit>, av1: array<Lit>, av2: array<Lit>) returns (result: array<Lit>)
    requires m.Valid() && avc.Length == 1 && av1.Length == av2.Length
    requires HeldVec(m.handles, avc[..]) && HeldVec(m.handles, av1[..]) && HeldVec(m.handles, av2[..])
    modifies m
    ensures m.Valid() && fresh(result) && result.Length == av1.Length
    ensures Made(old(m.handles), old(m.graph), m.handles, m.graph, result[..])
    ensures forall env: Env :: Num(m.graph, result[..], env)
              == BvCond(Num(old(m.graph), avc[..], env), Num(old(m.graph), av1[..], env),
              Num(old(m.graph), av2[..], env))
  {
    hide m.Valid, Eval, Val, NodeValue, Extends, NodeRef, Num, Refs, CondCells, HeldVec, Within, Chosen;
    ghost var g0, h0, a, b := m.graph, m.handles, av1[..], av2[..];
    HeldWithin(m, a);
    HeldWithin(m, b);
    HeldWithin(m, avc[..]);
    var c := avc[0];
    assert avc[..] == [c];
    HeldCell(h0, [c], 0, multiset{});
    WithinCell(g0, [c], 0);
    RefsEmpty();
    ExtendsSelf(g0);
    WithinEmpty(g0);
    CondStart(g0, c, a, b);
    var w := av1.Length;
    result := new Lit[w](_ => FALSE_LIT);
    ghost var r: seq<Lit> := [];
    for i := 0 to w
      invariant result[..i] == r && m.Valid() && av1[..] == a && av2[..] == b
      invariant m.handles == h0 + Refs(r)
      invariant Extends(g0, m.graph) && Within(m.graph, r)
      invariant forall env: Env :: CondCells(m.graph, r, g0, c, a, b, env)
    {
      ghost var g := m.graph;
      HeldCell(h0, a, i, Refs(r));
      HeldCell(h0, b, i, Refs(r));
      WithinCell(g0, a, i);
      WithinCell(g0, b, i);
      var x := MakeCond(m, c, av1[i], av2[i]);
      ghost var r' := r + [x];
      forall env: Env
        ensures CondCells(m.graph, r', g0, c, a, b, env)
      {
        ExtendsEval(g0, g, c, env);
        ExtendsEval(g0, g, a[i], env);
        ExtendsEval(g0, g, b[i], env);
        CondStep(g, m.graph, r, x, g0, c, a, b, env);
      }
      result[i] := x;
      WithinSnoc(g, m.graph, r, x);
      ExtendsTrans(g0, g, m.graph);
      RefsPush(r, x);
      r := r + [x];
    }
    assert result[..w] == result[..];
    forall env: Env
      ensures Num(m.graph, result[..], env) == BvCond(Num(g0, avc[..], env), Num(g0, a, env), Num(g0, b, env))
    {
      CondWhole(m.graph, r, g0, c, a, b, env);
    }
  }

  lemma {:induction false} CondStart(g: Graph, c: Lit, a: seq<Lit>, b: seq<Lit>)
    requires |a| == |b|
    ensures forall env: Env :: CondCells(g, [], g, c, a, b, env)
  {
  }

  lemma {:induction false} CondWhole(g': Graph, r: seq<Lit>, g: Graph, c: Lit, a: seq<Lit>, b: seq<Lit>, env: Env)
    requires |a| == |b| == |r| && CondCells(g', r, g, c, a, b, env)
    ensures Num(g', r, env) == BvCond(Num(g, [c], env), Num(g, a, env), Num(g, b, env))
  {
    var s := Chosen(g, c, a, b, env);
    assert |s| == |r| && s[..|r|] == s;
    NumSame(g', r, g, s, env);
    NumOne(g, c, env);
  }

  // ---------------------------------------------------------------- equality

  /** `bzla_aigvec_eq`: the conjunction of the bit equivalences. */
  method MakeEqVec(m: Manager, av1: array<Lit>, av2: array<Lit>) returns (result: array<Lit>)
    requires m.Valid() && 0 < av1.Length == av2.Length && HeldVec(m.handles, av1[..]) && HeldVec(m.handles, av2[..])
    modifies m
    ensures m.Valid() && fresh(result) && result.Length == 1
    ensures Made(old(m.handles), old(m.graph), m.handles, m.graph, result[..])
    ensures forall env: Env ::
              Num(m.graph, result[..], env) == BvEq(Num(old(m.graph), av1[..], env), Num(old(m.graph), av2[..], env))
  {
    hide m.Valid, Eval, Val, NodeValue, Extends, NodeRef, Num, SameCells, HeldVec, Within, EqualSoFar, BvEq;
    ghost var g0, h0, a, b := m.graph, m.handles, av1[..], av2[..];
    HeldWithin(m, a);
    HeldWithin(m, b);
    HeldCell(h0, a, 0, multiset{});
    HeldCell(h0, b, 0, multiset{});
    var acc := MakeEq(m, av1[0], av2[0]);
    EqStart(m.graph, acc, g0, a, b);
    var i := 1;
    while i < av1.Length
      invariant 1 <= i <= av1.Length && m.Valid() && av1[..] == a && av2[..] == b
      invariant m.handles == h0 + Ref(acc) && acc.id < |m.graph| && Extends(g0, m.graph)
      invariant EqualSoFar(m.graph, acc, g0, a[..i], b[..i])
    {
      ghost var g := m.graph;
      HeldCell(h0, a, i, Ref(acc));
      HeldCell(h0, b, i, Ref(acc));
      WithinCell(g0, a, i);
      WithinCell(g0, b, i);
      var t1 := MakeEq(m, av1[i], av2[i]);
      ghost var g1 := m.graph;
      var t2 := m.MakeAnd(acc, t1);
      ghost var g2 := m.graph;
      EqNext(g0, a, b, i, g, acc, g1, t1, g2, t2);
      m.Release(t1);
      m.Release(acc);
      ExtendsTrans(g0, g, g1);
      ExtendsTrans(g0, g1, g2);
      acc := t2;
      i := i + 1;
    }
    assert a[..av1.Length] == a && b[..av1.Length] == b;
    result := new Lit[1](_ => acc);
    assert result[..] == [acc];
    RefsOne(acc);
    WithinOne(m.graph, acc);
    EqWholes(m.graph, acc, g0, a, b);
  }

  ghost predicate AllEqual(g: Graph, acc: Lit, g0: Graph, a: seq<Lit>, b: seq<Lit>, env: Env) {
    Val(g, acc, env) == 1 <==> SameCells(g0, a, g0, b, env)
  }

  ghost predicate EqualSoFar(g: Graph, acc: Lit, g0: Graph, a: seq<Lit>, b: seq<Lit>) {
    forall env: Env :: AllEqual(g, acc, g0, a, b, env)
  }

  /** One more pair of cells, compared by `t1` in `g1` and taken in by `t2` in `g2`. */
  lemma {:induction false} EqNext(g0: Graph, a: seq<Lit>, b: seq<Lit>, i: nat, g: Graph, acc: Lit, g1: Graph, t1: Lit,
        g2: Graph, t2: Lit)
    requires i < |a| == |b| && EqualSoFar(g, acc, g0, a[..i], b[..i]) && Extends(g0, g) && Extends(g, g1)
    requires a[i].id < |g0| && b[i].id < |g0| && acc.id < |g|
    requires forall env: Env {:trigger Eval(g1, t1, env)} ::
            Eval(g1, t1, env) == (Eval(g, a[i], env) == Eval(g, b[i], env))
    requires forall env: Env {:trigger Eval(g2, t2, env)} ::
            Eval(g2, t2, env) == (Eval(g1, acc, env) && Eval(g1, t1, env))
    ensures EqualSoFar(g2, t2, g0, a[..i + 1], b[..i + 1])
  {
    hide Eval, Val, NodeValue, Extends, SameCells, AllEqual;
    ghost var a', b' := a[..i] + [a[i]], b[..i] + [b[i]];
    forall env: Env
      ensures AllEqual(g2, t2, g0, a', b', env)
    {
      ExtendsEval(g0, g, a[i], env);
      ExtendsEval(g0, g, b[i], env);
      ExtendsEval(g, g1, acc, env);
      EqValue(g1, t1, g, a[i], b[i], env);
      AndValue(g2, t2, g1, acc, t1, env);
      EqStep(g2, t2, Val(g1, t1, env), g, acc, g0, a[..i], b[..i], a[i], b[i], env);
    }
    assert a[..i + 1] == a' && b[..i + 1] == b';
  }

  lemma {:induction false} EqWholes(g: Graph, acc: Lit, g0: Graph, a: seq<Lit>, b: seq<Lit>)
    requires |a| == |b| && EqualSoFar(g, acc, g0, a, b)
    ensures forall env: Env {:trigger Num(g, [acc], env)} ::
              Num(g, [acc], env) == BvEq(Num(g0, a, env), Num(g0, b, env))
  {
    hide Num, AllEqual, BvEq;
    forall env: Env
      ensures Num(g, [acc], env) == BvEq(Num(g0, a, env), Num(g0, b, env))
    {
      EqWhole(g, acc, g0, a, b, env);
    }
  }

  lemma {:induction false} EqStart(g: Graph, acc: Lit, g0: Graph, a: seq<Lit>, b: seq<Lit>)
    requires 0 < |a| == |b|
    requires forall env: Env {:trigger Eval(g, acc, env)} ::
            Eval(g, acc, env) == (Eval(g0, a[0], env) == Eval(g0, b[0], env))
    ensures EqualSoFar(g, acc, g0, a[..1], b[..1])
  {
    forall env: Env
      ensures AllEqual(g, acc, g0, a[..1], b[..1], env)
    {
      assert Eval(g, acc, env) == (Eval(g0, a[0], env) == Eval(g0, b[0], env));
      assert a[..1][0] == a[0] && b[..1][0] == b[0];
    }
  }

  lemma {:induction false} EqValue(g1: Graph, t1: Lit, g: Graph, x: Lit, y: Lit, env: Env)
    requires Eval(g1, t1, env) == (Eval(g, x, env) == Eval(g, y, env))
    ensures Val(g1, t1, env) == EqBit(Val(g, x, env), Val(g, y, env))
  {
  }

  function EqBit(x: nat, y: nat): nat { if x == y then 1 else 0 }

  lemma {:induction false} EqStep(g2: Graph, t2: Lit, same: nat, g: Graph, acc: Lit, g0: Graph, a: seq<Lit>,
        b: seq<Lit>, x: Lit, y: Lit, env: Env)
    requires |a| == |b| && AllEqual(g, acc, g0, a, b, env)
    requires same == EqBit(Val(g0, x, env), Val(g0, y, env)) && Val(g2, t2, env) == AndBit(Val(g, acc, env), same)
    ensures AllEqual(g2, t2, g0, a + [x], b + [y], env)
  {
    hide Val, SameCells;
    SameSnoc(g0, a, b, x, y, env);
  }

  lemma {:induction false} SameSnoc(g: Graph, a: seq<Lit>, b: seq<Lit>, x: Lit, y: Lit, env: Env)
    requires |a| == |b|
    ensures SameCells(g, a + [x], g, b + [y], env) <==> SameCells(g, a, g, b, env) && Val(g, x, env) == Val(g, y, env)
  {
    hide Val;
    if SameCells(g, a + [x], g, b + [y], env) {
      forall j | 0 <= j < |a|
        ensures Val(g, a[j], env) == Val(g, b[j], env)
      {
        assert (a + [x])[j] == a[j] && (b + [y])[j] == b[j];
      }
      assert (a + [x])[|a|] == x && (b + [y])[|a|] == y;
    }
  }

  lemma {:induction false} EqWhole(g: Graph, acc: Lit, g0: Graph, a: seq<Lit>, b: seq<Lit>, env: Env)
    requires |a| == |b| && AllEqual(g, acc, g0, a, b, env)
    ensures Num(g, [acc], env) == BvEq(Num(g0, a, env), Num(g0, b, env))
  {
    hide Num, Val, SameCells;
    NumOne(g, acc, env);
    if Val(g, acc, env) == 1 {
      NumSame(g0, a, g0, b, env);
    } else if Num(g0, a, env) == Num(g0, b, env) {
      NumInjective(g0, a, g0, b, env);
    }
  }

  // ---------------------------------------------------------------- unsigned comparison

  /** The comparison of the low cells processed so far. */
  ghost predicate LessSoFar(g: Graph, res: Lit, g0: Graph, a: seq<Lit>, b: seq<Lit>, env: Env) {
    Val(g, res, env) == BvUlt(Num(g0, a, env), Num(g0, b, env))
  }

  /** `ult_aigvec`: from the least significant bit up, a higher bit overrides. */
  method UltCell(m: Manager, av1: array<Lit>, av2: array<Lit>) returns (res: Lit)
    requires m.Valid() && av1.Length == av2.Length && HeldVec(m.handles, av1[..]) && HeldVec(m.handles, av2[..])
    modifies m
    ensures m.Valid() && res.id < |m.graph| && m.handles == old(m.handles) + Ref(res) && Extends(old(m.graph), m.graph)
    ensures forall env: Env :: LessSoFar(m.graph, res, old(m.graph), av1[..], av2[..], env)
  {
    hide m.Valid, Eval, Val, NodeValue, Extends, NodeRef, Num, HeldVec, Within, LessSoFar;
    ghost var g0, h0, a, b := m.graph, m.handles, av1[..], av2[..];
    HeldWithin(m, a);
    HeldWithin(m, b);
    m.HandlesKnown();
    ExtendsSelf(g0);
    NodeRefZero();
    res := FALSE_LIT;
    assert |a| == av1.Length == |b|;
    LessStart(g0, res, a, b);
    var i := av1.Length;
    while i > 0
      invariant 0 <= i <= av1.Length && m.Valid() && av1[..] == a && av2[..] == b
      invariant m.handles == h0 + Ref(res) && res.id < |m.graph| && Extends(g0, m.graph)
      invariant forall env: Env :: LessSoFar(m.graph, res, g0, a[i..], b[i..], env)
    {
      i := i - 1;
      ghost var g := m.graph;
      HeldCell(h0, a, i, Ref(res));
      HeldCell(h0, b, i, Ref(res));
      WithinCell(g0, a, i);
      WithinCell(g0, b, i);
      var next := UltStep(m, av1[i], av2[i], res);
      forall env: Env
        ensures LessSoFar(m.graph, next, g0, a[i..], b[i..], env)
      {
        assert a[i..] == [a[i]] + a[i + 1..] && b[i..] == [b[i]] + b[i + 1..];
        ExtendsEval(g0, g, a[i], env);
        ExtendsEval(g0, g, b[i], env);
        LessStep(m.graph, next, g, res, g0, a[i + 1..], b[i + 1..], a[i], b[i], env);
      }
      m.Release(res);
      ExtendsTrans(g0, g, m.graph);
      Cancel(m.handles, h0 + Ref(next), Ref(res));
      res := next;
    }
    assert a[0..] == a && b[0..] == b;
  }

  /** The order of the lower bits, kept unless `x` is above `y`. */
  method UltKept(m: Manager, x: Lit, y: Lit, res: Lit) returns (tmp: Lit)
    requires m.Valid() && Held(m.handles, x) && Held(m.handles, y) && Held(m.handles, res)
    modifies m
    ensures m.Valid() && tmp.id < |m.graph| && m.handles == old(m.handles) + Ref(tmp)
    ensures Extends(old(m.graph), m.graph)
    ensures forall env: Env {:trigger Eval(m.graph, tmp, env)} :: Eval(m.graph, tmp, env)
              == (!(Eval(old(m.graph), x, env) && !Eval(old(m.graph), y, env)) && Eval(old(m.graph), res, env))
  {
    hide m.Valid, Eval, NodeValue, Extends, NodeRef;
    ghost var g0 := m.graph;
    m.HandlesKnown();
    var term0 := m.MakeAnd(x, Not(y));
    ghost var g1 := m.graph;
    tmp := m.MakeAnd(Not(term0), res);
    m.Release(term0);
    ExtendsTrans(g0, g1, m.graph);
    forall env: Env
      ensures Eval(m.graph, tmp, env) == (!(Eval(g0, x, env) && !Eval(g0, y, env)) && Eval(g0, res, env))
    {
      EvalNot(g0, y, env);
      EvalNot(g1, term0, env);
      ExtendsEval(g0, g1, res, env);
    }
  }

  /** One round of `ult_aigvec`; the old `res` is still held by the caller. */
  method UltStep(m: Manager, x: Lit, y: Lit, res: Lit) returns (next: Lit)
    requires m.Valid() && Held(m.handles, x) && Held(m.handles, y) && Held(m.handles, res)
    modifies m
    ensures m.Valid() && next.id < |m.graph| && m.handles == old(m.handles) + Ref(next)
    ensures Extends(old(m.graph), m.graph)
    ensures forall env: Env {:trigger Val(m.graph, next, env)} ::
              Val(m.graph, next, env) == UltBit(Val(old(m.graph), x, env), Val(old(m.graph), y, env),
                Val(old(m.graph), res, env))
  {
    hide m.Valid, Eval, Val, NodeValue, Extends, NodeRef, UltBit;
    ghost var g0 := m.graph;
    m.HandlesKnown();
    var tmp := UltKept(m, x, y, res);
    ghost var g2 := m.graph;
    var term1 := m.MakeAnd(Not(x), y);
    ghost var g3 := m.graph;
    next := m.MakeOr(term1, tmp);
    ExtendsTrans(g0, g2, g3);
    ExtendsTrans(g0, g3, m.graph);
    m.Release(term1);
    m.Release(tmp);
    UltGates(g0, g2, g3, m.graph, x, y, res, tmp, term1, next);
  }

  /** What the gates of a step, built one after the other, compute. */
  lemma {:induction false} UltGates(g0: Graph, g2: Graph, g3: Graph, g: Graph, x: Lit, y: Lit, res: Lit, tmp: Lit,
        term1: Lit, next: Lit)
    requires Extends(g0, g2) && Extends(g2, g3)
    requires x.id < |g0| && y.id < |g0| && res.id < |g0| && tmp.id < |g2|
    requires forall env: Env {:trigger Eval(g2, tmp, env)} ::
              Eval(g2, tmp, env) == (!(Eval(g0, x, env) && !Eval(g0, y, env)) && Eval(g0, res, env))
    requires forall env: Env {:trigger Eval(g3, term1, env)} ::
              Eval(g3, term1, env) == (Eval(g2, Not(x), env) && Eval(g2, y, env))
    requires forall env: Env {:trigger Eval(g, next, env)} ::
              Eval(g, next, env) == (Eval(g3, term1, env) || Eval(g3, tmp, env))
    ensures forall env: Env {:trigger Val(g, next, env)} ::
              Val(g, next, env) == UltBit(Val(g0, x, env), Val(g0, y, env), Val(g0, res, env))
  {
    hide Eval, Extends;
    forall env: Env
      ensures Val(g, next, env) == UltBit(Val(g0, x, env), Val(g0, y, env), Val(g0, res, env))
    {
      ExtendsEval(g0, g2, x, env);
      ExtendsEval(g0, g2, y, env);
      EvalNot(g2, x, env);
      ExtendsEval(g2, g3, tmp, env);
    }
  }

  function UltBit(x: nat, y: nat, res: nat): nat {
    if x != y then (if x < y then 1 else 0) else res
  }

  lemma {:induction false} LessStart(g: Graph, res: Lit, a: seq<Lit>, b: seq<Lit>)
    requires |g| > 0 && g[0] == Const && res == FALSE_LIT
    ensures forall env: Env :: LessSoFar(g, res, g, a[|a|..], b[|b|..], env)
  {
    forall env: Env
      ensures LessSoFar(g, res, g, a[|a|..], b[|b|..], env)
    {
      EvalConst(g, res, env);
    }
  }

  lemma {:induction false} LessStep(g': Graph, next: Lit, g: Graph, res: Lit, g0: Graph, a: seq<Lit>, b: seq<Lit>,
        x: Lit, y: Lit, env: Env)
    requires |a| == |b| && LessSoFar(g, res, g0, a, b, env)
    requires Val(g', next, env) == UltBit(Val(g0, x, env), Val(g0, y, env), Val(g, res, env))
    ensures LessSoFar(g', next, g0, [x] + a, [y] + b, env)
  {
    hide Num, Val, Pow2;
    NumCons(g0, x, a, env);
    NumCons(g0, y, b, env);
    NumBound(g0, a, env);
    NumBound(g0, b, env);
  }

  /** `bzla_aigvec_ult` */
  method MakeUlt(m: Manager, av1: array<Lit>, av2: array<Lit>) returns (result: array<Lit>)
    requires m.Valid() && 0 < av1.Length == av2.Length && HeldVec(m.handles, av1[..]) && HeldVec(m.handles, av2[..])
    modifies m
    ensures m.Valid() && fresh(result) && result.Length == 1
    ensures Made(old(m.handles), old(m.graph), m.handles, m.graph, result[..])
    ensures forall env: Env ::
              Num(m.graph, result[..], env) == BvUlt(Num(old(m.graph), av1[..], env), Num(old(m.graph), av2[..], env))
  {
    hide m.Valid, Val, Num, Extends, HeldVec, Refs, NodeRef;
    ghost var g0, a, b := m.graph, av1[..], av2[..];
    var res := UltCell(m, av1, av2);
    assert av1[..] == a && av2[..] == b;
    result := new Lit[1](_ => res);
    assert result[..] == [res];
    RefsOne(res);
    WithinOne(m.graph, res);
    forall env: Env
      ensures Num(m.graph, result[..], env) == BvUlt(Num(g0, a, env), Num(g0, b, env))
    {
      NumOne(m.graph, res, env);
      assert LessSoFar(m.graph, res, g0, a, b, env);
    }
  }
}
