/** The array divider on AIG vectors (src/bzlaaigvec.c:675-823). */
module AigDiv {
  import opened Arith
  import opened BvRef
  import opened AigGraph
  import opened References
  import opened AigManager
  import opened AigGates
  import opened AigNum
  import opened AigVector
  import opened AigLogic

  // ---------------------------------------------------------------- numbers, least significant bit first

  ghost function NumL(g: Graph, v: seq<Lit>, env: Env): nat {
    if |v| == 0 then 0 else NumL(g, v[..|v| - 1], env) + Weigh(Val(g, v[|v| - 1], env), Pow2(|v| - 1))
  }

  lemma {:induction false} NumLPush(g: Graph, v: seq<Lit>, x: Lit, env: Env)
    ensures NumL(g, v + [x], env) == NumL(g, v, env) + Weigh(Val(g, x, env), Pow2(|v|))
  {
    assert (v + [x])[..|v|] == v;
  }

  lemma {:induction false} NumLBound(g: Graph, v: seq<Lit>, env: Env)
    ensures NumL(g, v, env) < Pow2(|v|)
  {
    if |v| > 0 { NumLBound(g, v[..|v| - 1], env); }
  }

  lemma {:induction false} NumLExtends(g: Graph, g': Graph, v: seq<Lit>, env: Env)
    requires Extends(g, g') && Within(g, v)
    ensures NumL(g', v, env) == NumL(g, v, env)
  {
    if |v| > 0 {
      NumLExtends(g, g', v[..|v| - 1], env);
      ExtendsEval(g, g', v[|v| - 1], env);
    }
  }

  /** Putting a cell below the others doubles them. */
  lemma {:induction false} NumLCons(g: Graph, x: Lit, v: seq<Lit>, env: Env)
    ensures NumL(g, [x] + v, env) == Val(g, x, env) + 2 * NumL(g, v, env)
  {
    if |v| == 0 {
      assert [x] + v == [] + [x];
      NumLPush(g, [], x, env);
      assert Pow2(0) == 1;
    } else {
      var u, y := v[..|v| - 1], v[|v| - 1];
      assert [x] + v == ([x] + u) + [y] && v == u + [y];
      NumLPush(g, [x] + u, y, env);
      NumLPush(g, u, y, env);
      NumLCons(g, x, u, env);
      Pow2Succ(|u|);
    }
  }

  function Reversed(v: seq<Lit>): (r: seq<Lit>)
    ensures |r| == |v| && forall i :: 0 <= i < |v| ==> r[i] == v[|v| - 1 - i]
  {
    seq(|v|, i requires 0 <= i < |v| => v[|v| - 1 - i])
  }

  lemma {:induction false} NumReversed(g: Graph, v: seq<Lit>, env: Env)
    ensures NumL(g, Reversed(v), env) == Num(g, v, env)
  {
    if |v| > 0 {
      assert Reversed(v) == Reversed(v[1..]) + [v[0]];
      NumLPush(g, Reversed(v[1..]), v[0], env);
      NumReversed(g, v[1..], env);
    }
  }

  // ---------------------------------------------------------------- the arithmetic of one row

  function GeqBit(a: nat, b: nat): nat { if a >= b then 1 else 0 }

  function MajBit(x: nat, y: nat, z: nat): nat { if x + y + z >= 2 then 1 else 0 }

  function XorBit(x: nat, y: nat): nat { if x == y then 0 else 1 }

  /** The sum cell: subtract where the quotient bit `q` is set, keep the cell otherwise. */
  function SumCell(r: nat, nd: nat, c: nat, q: nat): nat { XorBit(AndBit(XorBit(nd, c), q), r) }

  /** Subtraction with wrap-around at `p`. */
  function Sub(s: nat, d: nat, p: nat): int { if s >= d then s - d else s - d + p }

  /** What one row leaves: the difference if the quotient bit is set. */
  function RowRest(s: nat, d: nat, p: nat, q: nat): int { if q == 1 then Sub(s, d, p) else s }

  lemma {:induction false} CarryStep(S: nat, D: nat, p: nat, s: nat, d: nat)
    requires S < p && D < p && s <= 1 && d <= 1
    ensures GeqBit(S + Weigh(s, p), D + Weigh(d, p)) == MajBit(s, 1 - d, GeqBit(S, D))
  {
  }

  lemma {:induction false} RestStep(S: nat, D: nat, p: nat, s: nat, d: nat, q: nat)
    requires S < p && D < p && s <= 1 && d <= 1 && q <= 1
    ensures RowRest(S + Weigh(s, p), D + Weigh(d, p), 2 * p, q)
            == RowRest(S, D, p, q) + Weigh(SumCell(s, 1 - d, GeqBit(S, D), q), p)
  {
  }

  /** One row of long division: from the remainder of the top bits to that of one more. */
  lemma {:induction false} DivideStep(T: nat, D: nat, bit: nat, w: nat, j: nat, low: nat, top: nat, q: nat)
    requires bit <= 1 && top <= 1 && j < w && T < Pow2(j) && D < Pow2(w) && low < Pow2(w)
    requires 2 * BvUrem(T, D) + bit == low + Weigh(top, Pow2(w))
    requires q == (if low >= D || top == 1 then 1 else 0)
    ensures RowRest(low, D, Pow2(w), q) == BvUrem(2 * T + bit, D)
    ensures 2 * BvUdiv(T, D, j) + q == BvUdiv(2 * T + bit, D, j + 1)
  {
    Pow2Mono(j + 1, w);
    Pow2Succ(j);
    if D > 0 {
      var k := Divide(T, D);
      var V := 2 * (T % D) + bit;
      Distribute(D, k, k);
      if q == 1 {
        Distribute(D, 2 * k, 1);
        DivModUnique(2 * T + bit, D, 2 * k + 1, V - D);
      } else {
        DivModUnique(2 * T + bit, D, 2 * k, V);
      }
    }
  }

  // ---------------------------------------------------------------- gates

  /** `SC_GATE_CO_aigvec`: the carry out of one cell. */
  method CarryGate(m: Manager, r: Lit, d: Lit, ci: Lit) returns (co: Lit)
    requires m.Valid() && Held(m.handles, r) && Held(m.handles, d) && Held(m.handles, ci)
    modifies m
    ensures m.Valid() && co.id < |m.graph| && m.handles == old(m.handles) + Ref(co) && Extends(old(m.graph), m.graph)
    ensures forall env: Env {:trigger Val(m.graph, co, env)} :: Val(m.graph, co, env)
              == MajBit(Val(old(m.graph), r, env), Val(old(m.graph), d, env), Val(old(m.graph), ci, env))
  {
    hide m.Valid, Eval, NodeValue, Extends, NodeRef;
    ghost var g0, h0 := m.graph, m.handles;
    m.HandlesKnown();
    var dOrCi := m.MakeOr(d, ci);
    ghost var g1 := m.graph;
    var dAndCi := m.MakeAnd(d, ci);
    ghost var g2 := m.graph;
    var both := m.MakeAnd(dOrCi, r);
    ghost var g3 := m.graph;
    co := m.MakeOr(both, dAndCi);
    ExtendsTrans(g0, g1, g2);
    ExtendsTrans(g0, g2, g3);
    ExtendsTrans(g0, g3, m.graph);
    ReleaseThree(m, dOrCi, dAndCi, both, co, h0);
    forall env: Env
      ensures Val(m.graph, co, env) == MajBit(Val(g0, r, env), Val(g0, d, env), Val(g0, ci, env))
    {
      ExtendsEval(g0, g1, d, env);
      ExtendsEval(g0, g1, ci, env);
      ExtendsEval(g1, g2, dOrCi, env);
      ExtendsEval(g0, g2, r, env);
      ExtendsEval(g2, g3, dAndCi, env);
    }
  }

  /** The first half of `SC_GATE_S_aigvec`: the exclusive or of `d` and `ci`, if `q` is set. */
  method MaskedXor(m: Manager, d: Lit, ci: Lit, q: Lit) returns (t2: Lit)
    requires m.Valid() && Held(m.handles, d) && Held(m.handles, ci) && Held(m.handles, q)
    modifies m
    ensures m.Valid() && t2.id < |m.graph| && m.handles == old(m.handles) + Ref(t2) && Extends(old(m.graph), m.graph)
    ensures forall env: Env {:trigger Val(m.graph, t2, env)} :: Val(m.graph, t2, env)
              == AndBit(XorBit(Val(old(m.graph), d, env), Val(old(m.graph), ci, env)), Val(old(m.graph), q, env))
  {
    hide m.Valid, Eval, NodeValue, Extends, NodeRef;
    ghost var g0, h0 := m.graph, m.handles;
    m.HandlesKnown();
    var dOrCi := m.MakeOr(d, ci);
    ghost var g1 := m.graph;
    var dAndCi := m.MakeAnd(d, ci);
    ghost var g2 := m.graph;
    var t1 := m.MakeAnd(dOrCi, Not(dAndCi));
    ghost var g3 := m.graph;
    t2 := m.MakeAnd(t1, q);
    ExtendsTrans(g0, g1, g2);
    ExtendsTrans(g0, g2, g3);
    ExtendsTrans(g0, g3, m.graph);
    ReleaseThree(m, dOrCi, dAndCi, t1, t2, h0);
    forall env: Env
      ensures Val(m.graph, t2, env) == AndBit(XorBit(Val(g0, d, env), Val(g0, ci, env)), Val(g0, q, env))
    {
      ExtendsEval(g0, g1, d, env);
      ExtendsEval(g0, g1, ci, env);
      ExtendsEval(g1, g2, dOrCi, env);
      EvalNot(g2, dAndCi, env);
      ExtendsEval(g0, g3, q, env);
    }
  }

  /** `SC_GATE_S_aigvec`: the cell below in the next row. */
  method SumGate(m: Manager, r: Lit, d: Lit, ci: Lit, q: Lit) returns (res: Lit)
    requires m.Valid() && Held(m.handles, r) && Held(m.handles, d) && Held(m.handles, ci) && Held(m.handles, q)
    modifies m
    ensures m.Valid() && res.id < |m.graph| && m.handles == old(m.handles) + Ref(res) && Extends(old(m.graph), m.graph)
    ensures forall env: Env {:trigger Val(m.graph, res, env)} :: Val(m.graph, res, env)
              == SumCell(Val(old(m.graph), r, env), Val(old(m.graph), d, env), Val(old(m.graph), ci, env),
              Val(old(m.graph), q, env))
  {
    hide m.Valid, Eval, NodeValue, Extends, NodeRef;
    ghost var g0, h0 := m.graph, m.handles;
    m.HandlesKnown();
    var t2 := MaskedXor(m, d, ci, q);
    ghost var g1 := m.graph;
    var t2OrR := m.MakeOr(t2, r);
    ghost var g2 := m.graph;
    var t2AndR := m.MakeAnd(t2, r);
    ghost var g3 := m.graph;
    res := m.MakeAnd(t2OrR, Not(t2AndR));
    ExtendsTrans(g0, g1, g2);
    ExtendsTrans(g0, g2, g3);
    ExtendsTrans(g0, g3, m.graph);
    ReleaseThree(m, t2, t2OrR, t2AndR, res, h0);
    forall env: Env
      ensures Val(m.graph, res, env)
              == SumCell(Val(g0, r, env), Val(g0, d, env), Val(g0, ci, env), Val(g0, q, env))
    {
      assert Val(g1, t2, env) == AndBit(XorBit(Val(g0, d, env), Val(g0, ci, env)), Val(g0, q, env));
      ExtendsEval(g0, g1, r, env);
      ExtendsEval(g1, g2, t2, env);
      ExtendsEval(g0, g2, r, env);
      ExtendsEval(g2, g3, t2OrR, env);
      EvalNot(g3, t2AndR, env);
    }
  }

  // ---------------------------------------------------------------- the carries of a row

  /** Carry `i` says whether the low `i` cells of the row are at least those of the divisor. */
  ghost predicate Carries(g: Graph, c: seq<Lit>, g0: Graph, s: seq<Lit>, d: seq<Lit>, env: Env) {
    && |c| <= |s| + 1 && |c| <= |d| + 1
    && forall i :: 0 <= i < |c| ==> Val(g, c[i], env) == GeqBit(NumL(g0, s[..i], env), NumL(g0, d[..i], env))
  }

  ghost predicate RowCarries(g: Graph, c: seq<Lit>, g0: Graph, s: seq<Lit>, d: seq<Lit>) {
    forall env: Env :: Carries(g, c, g0, s, d, env)
  }

  lemma {:induction false} CarriesStart(g: Graph, s: seq<Lit>, d: seq<Lit>)
    requires |g| > 0 && g[0] == Const
    ensures RowCarries(g, [TRUE_LIT], g, s, d)
  {
    forall env: Env
      ensures Carries(g, [TRUE_LIT], g, s, d, env)
    {
      EvalConst(g, TRUE_LIT, env);
      assert s[..0] == [] && d[..0] == [];
    }
  }

  lemma {:induction false} CarriesStep(g: Graph, g': Graph, c: seq<Lit>, co: Lit, g0: Graph, s: seq<Lit>, d: seq<Lit>,
        env: Env)
    requires 0 < |c| <= |s| && |c| <= |d| && Carries(g, c, g0, s, d, env) && Extends(g, g') && Within(g, c)
    requires var i := |c| - 1; Val(g', co, env) == MajBit(Val(g0, s[i], env), 1 - Val(g0, d[i], env), Val(g, c[i], env))
    ensures Carries(g', c + [co], g0, s, d, env)
  {
    hide NumL, Val, Extends, MajBit, GeqBit, Weigh, Pow2;
    var i := |c| - 1;
    assert s[..i + 1] == s[..i] + [s[i]] && d[..i + 1] == d[..i] + [d[i]];
    NumLPush(g0, s[..i], s[i], env);
    NumLPush(g0, d[..i], d[i], env);
    NumLBound(g0, s[..i], env);
    NumLBound(g0, d[..i], env);
    CarryStep(NumL(g0, s[..i], env), NumL(g0, d[..i], env), Pow2(i), Val(g0, s[i], env), Val(g0, d[i], env));
    forall k | 0 <= k < |c|
      ensures Val(g', c[k], env) == Val(g, c[k], env)
    {
      ExtendsEval(g, g', c[k], env);
    }
  }

  // ---------------------------------------------------------------- the cells of the next row

  ghost predicate Rests(g: Graph, n: seq<Lit>, g0: Graph, s: seq<Lit>, d: seq<Lit>, q: Lit, env: Env) {
    && |n| <= |s| && |n| <= |d|
    && NumL(g, n, env) == RowRest(NumL(g0, s[..|n|], env), NumL(g0, d[..|n|], env), Pow2(|n|), Val(g0, q, env))
  }

  ghost predicate RowRests(g: Graph, n: seq<Lit>, g0: Graph, s: seq<Lit>, d: seq<Lit>, q: Lit) {
    forall env: Env :: Rests(g, n, g0, s, d, q, env)
  }

  lemma {:induction false} RestsStep(g: Graph, g': Graph, n: seq<Lit>, x: Lit, g0: Graph, c: seq<Lit>, s: seq<Lit>,
        d: seq<Lit>, q: Lit, env: Env)
    requires |n| < |s| && |n| < |d| && |n| < |c| && Rests(g, n, g0, s, d, q, env) && Carries(g0, c, g0, s, d, env)
    requires Extends(g, g') && Within(g, n)
    requires Val(g', x, env) == SumCell(Val(g0, s[|n|], env), 1 - Val(g0, d[|n|], env), Val(g0, c[|n|], env),
            Val(g0, q, env))
    ensures Rests(g', n + [x], g0, s, d, q, env)
  {
    hide NumL, Val, Extends, SumCell, GeqBit, Weigh, RowRest, Pow2;
    var i := |n|;
    assert s[..i + 1] == s[..i] + [s[i]] && d[..i + 1] == d[..i] + [d[i]];
    NumLPush(g0, s[..i], s[i], env);
    NumLPush(g0, d[..i], d[i], env);
    NumLPush(g', n, x, env);
    NumLExtends(g, g', n, env);
    NumLBound(g0, s[..i], env);
    NumLBound(g0, d[..i], env);
    RestStep(NumL(g0, s[..i], env), NumL(g0, d[..i], env), Pow2(i), Val(g0, s[i], env), Val(g0, d[i], env),
      Val(g0, q, env));
    Pow2Succ(i);
    assert |n + [x]| == i + 1;
  }

  // ---------------------------------------------------------------- rows of the S and C matrices

  ghost function Row(grid: array2<Lit>, j: nat): (r: seq<Lit>)
    requires j < grid.Length0
    reads grid
    ensures |r| == grid.Length1 && forall i :: 0 <= i < |r| ==> r[i] == grid[j, i]
  {
    seq(grid.Length1, i requires 0 <= i < grid.Length1 reads grid => grid[j, i])
  }

  /** The cells of a row above its lowest one: the partial remainder. */
  ghost function Upper(grid: array2<Lit>, j: nat): (r: seq<Lit>)
    requires j < grid.Length0 && grid.Length1 > 0
    reads grid
  {
    Row(grid, j)[1..]
  }

  /** Only row `j` may differ between the two states of the matrix. */
  twostate predicate OnlyRow(grid: array2<Lit>, j: nat)
    reads grid
  {
    forall k: nat, i: nat :: k < grid.Length0 && i < grid.Length1 && k != j ==> grid[k, i] == old(grid[k, i])
  }

  /** The carry gate at the last place, built between `g` and `g'`, extends the row. */
  lemma {:induction false} CarriesNext(g: Graph, g': Graph, c: seq<Lit>, co: Lit, g0: Graph, s: seq<Lit>, d: seq<Lit>,
        nd: seq<Lit>)
    requires 0 < |c| <= |s| && |c| <= |d| == |nd| && nd == Inverted(d) && RowCarries(g, c, g0, s, d)
    requires Extends(g0, g) && Extends(g, g') && Within(g, c)
    requires var i := |c| - 1; s[i].id < |g0| && nd[i].id < |g0|
    requires forall env: Env {:trigger Val(g', co, env)} :: var i := |c| - 1;
              Val(g', co, env) == MajBit(Val(g, s[i], env), Val(g, nd[i], env), Val(g, c[i], env))
    ensures RowCarries(g', c + [co], g0, s, d)
  {
    hide Val, Extends, Carries, MajBit, Within;
    var i := |c| - 1;
    forall env: Env
      ensures Carries(g', c + [co], g0, s, d, env)
    {
      ExtendsEval(g0, g, s[i], env);
      ExtendsEval(g0, g, nd[i], env);
      ValNot(g0, d[i], env);
      CarriesStep(g, g', c, co, g0, s, d, env);
    }
  }

  /** The same for the sum gate. */
  lemma {:induction false} RestsNext(g: Graph, g': Graph, n: seq<Lit>, x: Lit, g0: Graph, c: seq<Lit>, s: seq<Lit>,
        d: seq<Lit>, nd: seq<Lit>, q: Lit)
    requires |n| < |s| && |n| < |d| == |nd| && |n| < |c| && nd == Inverted(d)
    requires RowRests(g, n, g0, s, d, q) && RowCarries(g0, c, g0, s, d)
    requires Extends(g0, g) && Extends(g, g') && Within(g, n) && q.id < |g0|
    requires var i := |n|; s[i].id < |g0| && nd[i].id < |g0| && c[i].id < |g0|
    requires forall env: Env {:trigger Val(g', x, env)} :: var i := |n|;
              Val(g', x, env) == SumCell(Val(g, s[i], env), Val(g, nd[i], env), Val(g, c[i], env), Val(g, q, env))
    ensures RowRests(g', n + [x], g0, s, d, q)
  {
    hide Val, Extends, Carries, Rests, SumCell, Within;
    var i := |n|;
    forall env: Env
      ensures Rests(g', n + [x], g0, s, d, q, env)
    {
      ExtendsEval(g0, g, s[i], env);
      ExtendsEval(g0, g, c[i], env);
      ExtendsEval(g0, g, nd[i], env);
      ExtendsEval(g0, g, q, env);
      ValNot(g0, d[i], env);
      RestsStep(g, g', n, x, g0, c, s, d, q, env);
    }
  }

  /** The carries of row `j`. */
  method CarryRow(m: Manager, S: array2<Lit>, C: array2<Lit>, nD: array<Lit>, j: nat, ghost d: seq<Lit>)
    requires m.Valid() && S.Length0 == S.Length1 == C.Length0 == C.Length1 == nD.Length + 1 && j < nD.Length && S != C
    requires HeldVec(m.handles, Row(S, j)) && HeldVec(m.handles, nD[..]) && nD[..] == Inverted(d)
    modifies m, C
    ensures m.Valid() && OnlyRow(C, j) && Made(old(m.handles), old(m.graph), m.handles, m.graph, Row(C, j))
    ensures RowCarries(m.graph, Row(C, j), old(m.graph), Row(S, j), d)
  {
    hide m.Valid, Eval, Val, NodeValue, Extends, NodeRef, Refs, HeldVec, Within, RowCarries;
    ghost var h0, g0, s, nd := m.handles, m.graph, Row(S, j), nD[..];
    var size := nD.Length;
    m.HandlesKnown();
    HeldWithin(m, s);
    HeldWithin(m, nd);
    ExtendsSelf(g0);
    CarriesStart(g0, s, d);
    RefsOne(TRUE_LIT);
    NodeRefZero();
    WithinOne(g0, TRUE_LIT);
    C[j, 0] := TRUE_LIT;
    ghost var c: seq<Lit> := [TRUE_LIT];
    for i := 0 to size
      invariant m.Valid() && |c| == i + 1 && nD[..] == nd && OnlyRow(C, j) && Row(S, j) == s
      invariant forall k :: 0 <= k < |c| ==> C[j, k] == c[k]
      invariant m.handles == h0 + Refs(c) && Extends(g0, m.graph) && Within(m.graph, c)
      invariant RowCarries(m.graph, c, g0, s, d)
    {
      ghost var g := m.graph;
      HeldCell(h0, s, i, Refs(c));
      HeldCell(h0, nd, i, Refs(c));
      HeldLast(h0, c);
      WithinCell(g0, s, i);
      WithinCell(g0, nd, i);
      var co := CarryGate(m, S[j, i], nD[i], C[j, i]);
      ghost var c' := c + [co];
      CarriesNext(g, m.graph, c, co, g0, s, d, nd);
      C[j, i + 1] := co;
      WithinSnoc(g, m.graph, c, co);
      ExtendsTrans(g0, g, m.graph);
      RefsPush(c, co);
      c := c';
    }
    assert Row(C, j) == c;
  }

  lemma {:induction false} HeldLast(h: multiset<nat>, c: seq<Lit>)
    requires |c| > 0
    ensures Ref(c[|c| - 1]) <= h + Refs(c)
  {
    hide Refs, NodeRef;
    RefsLast(c);
  }

  /** The cells of row `j + 1` above its lowest one. */
  method SumRow(m: Manager, S: array2<Lit>, C: array2<Lit>, nD: array<Lit>, q: Lit, j: nat, ghost d: seq<Lit>)
    requires m.Valid() && S.Length0 == S.Length1 == C.Length0 == C.Length1 == nD.Length + 1 && j < nD.Length && S != C
    requires HeldVec(m.handles, Row(S, j)) && HeldVec(m.handles, Row(C, j)) && HeldVec(m.handles, nD[..])
    requires Held(m.handles, q)
    requires nD[..] == Inverted(d)
    requires RowCarries(m.graph, Row(C, j), m.graph, Row(S, j), d)
    modifies m, S
    ensures m.Valid() && OnlyRow(S, j + 1) && S[j + 1, 0] == old(S[j + 1, 0])
    ensures Made(old(m.handles), old(m.graph), m.handles, m.graph, Upper(S, j + 1))
    ensures RowRests(m.graph, Upper(S, j + 1), old(m.graph), Row(S, j), d, q)
  {
    hide m.Valid, Eval, Val, NodeValue, Extends, NodeRef, Refs, HeldVec, Within, RowCarries, RowRests;
    ghost var h0, g0, s, c, nd := m.handles, m.graph, Row(S, j), Row(C, j), nD[..];
    var size := nD.Length;
    m.HandlesKnown();
    HeldWithin(m, s);
    HeldWithin(m, c);
    HeldWithin(m, nd);
    ExtendsSelf(g0);
    RestsStart(g0, s, d, q);
    RefsEmpty();
    WithinEmpty(g0);
    ghost var n: seq<Lit> := [];
    for i := 0 to size
      invariant m.Valid() && |n| == i && nD[..] == nd && OnlyRow(S, j + 1) && Row(S, j) == s && Row(C, j) == c
      invariant S[j + 1, 0] == old(S[j + 1, 0]) && forall k :: 0 <= k < |n| ==> S[j + 1, k + 1] == n[k]
      invariant m.handles == h0 + Refs(n) && Extends(g0, m.graph) && Within(m.graph, n)
      invariant RowRests(m.graph, n, g0, s, d, q)
    {
      ghost var g := m.graph;
      HeldCell(h0, s, i, Refs(n));
      HeldCell(h0, c, i, Refs(n));
      HeldCell(h0, nd, i, Refs(n));
      WithinCell(g0, s, i);
      WithinCell(g0, c, i);
      WithinCell(g0, nd, i);
      var x := SumGate(m, S[j, i], nD[i], C[j, i], q);
      ghost var n' := n + [x];
      RestsNext(g, m.graph, n, x, g0, c, s, d, nd, q);
      S[j + 1, i + 1] := x;
      WithinSnoc(g, m.graph, n, x);
      ExtendsTrans(g0, g, m.graph);
      RefsPush(n, x);
      n := n';
    }
    assert Upper(S, j + 1) == n;
  }

  lemma {:induction false} RestsStart(g: Graph, s: seq<Lit>, d: seq<Lit>, q: Lit)
    ensures RowRests(g, [], g, s, d, q)
  {
    forall env: Env
      ensures Rests(g, [], g, s, d, q, env)
    {
      assert s[..0] == [] && d[..0] == [];
      assert Pow2(0) == 1;
    }
  }

  // ---------------------------------------------------------------- one row

  /** After `j` rows: the partial remainder and the quotient bits are those of dividing
      the number formed by the top `j` bits of the dividend. */
  ghost predicate Divided(g: Graph, u: seq<Lit>, quot: seq<Lit>, g0: Graph, a: seq<Lit>, d: seq<Lit>, env: Env) {
    && NumL(g, u, env) == BvUrem(Num(g0, a, env), NumL(g0, d, env))
    && Num(g, quot, env) == BvUdiv(Num(g0, a, env), NumL(g0, d, env), |a|)
  }

  lemma {:induction false} DividedStart(g: Graph, u: seq<Lit>, d: seq<Lit>, env: Env)
    requires |g| > 0 && g[0] == Const && forall i :: 0 <= i < |u| ==> u[i] == FALSE_LIT
    ensures Divided(g, u, [], g, [], d, env)
  {
    ZeroRow(g, u, env);
    assert Pow2(0) == 1;
    if NumL(g, d, env) > 0 { DivModUnique(0, NumL(g, d, env), 0, 0); }
  }

  lemma {:induction false} ZeroRow(g: Graph, u: seq<Lit>, env: Env)
    requires |g| > 0 && g[0] == Const && forall i :: 0 <= i < |u| ==> u[i] == FALSE_LIT
    ensures NumL(g, u, env) == 0
  {
    if |u| > 0 {
      ZeroRow(g, u[..|u| - 1], env);
      EvalConst(g, FALSE_LIT, env);
    }
  }

  function OrBit(x: nat, y: nat): nat { if x == 1 || y == 1 then 1 else 0 }

  lemma {:induction false} WithinTake(g: Graph, v: seq<Lit>, i: nat)
    requires Within(g, v) && i <= |v|
    ensures Within(g, v[..i])
  {
  }

  /** The carries keep their meaning while the quotient bit is made. */
  lemma {:induction false} CarriesLift(g: Graph, g1: Graph, g2: Graph, c: seq<Lit>, s: seq<Lit>, d: seq<Lit>, env: Env)
    requires Carries(g1, c, g, s, d, env) && Extends(g, g1) && Extends(g1, g2) && Within(g1, c) && Within(g, s)
    requires Within(g, d)
    ensures Carries(g2, c, g2, s, d, env)
  {
    hide Extends, NumL, Val, Within, GeqBit;
    ExtendsTrans(g, g1, g2);
    forall i | 0 <= i < |c|
      ensures Val(g2, c[i], env) == GeqBit(NumL(g2, s[..i], env), NumL(g2, d[..i], env))
    {
      WithinCell(g1, c, i);
      ExtendsEval(g1, g2, c[i], env);
      WithinTake(g, s, i);
      WithinTake(g, d, i);
      NumLExtends(g, g2, s[..i], env);
      NumLExtends(g, g2, d[..i], env);
    }
  }

  lemma {:induction false} DividedStep(g: Graph, g1: Graph, g2: Graph, g3: Graph, u: seq<Lit>, x: Lit, c: seq<Lit>,
        q: Lit, n: seq<Lit>, quot: seq<Lit>, g0: Graph, a: seq<Lit>, d: seq<Lit>, env: Env)
    requires |a| < |d| == |u| == |n| && |c| == |d| + 1
    requires Extends(g0, g) && Extends(g, g1) && Extends(g1, g2) && Extends(g2, g3)
    requires Within(g0, d) && x.id < |g0| && Within(g, u) && Within(g1, c) && Within(g, quot) && q.id < |g2|
    requires Divided(g, u, quot, g0, a, d, env)
    requires Carries(g1, c, g, [x] + u, d, env)
    requires Val(g2, q, env) == OrBit(Val(g1, c[|d|], env), Val(g1, ([x] + u)[|d|], env))
    requires Rests(g3, n, g2, [x] + u, d, q, env)
    ensures Divided(g3, n, quot + [q], g0, a + [x], d, env)
  {
    hide Extends, NumL, Num, Val, Within, Weigh, Pow2, RowRest, BvUrem, BvUdiv;
    var s, w := [x] + u, |d|;
    ExtendsTrans(g, g1, g2);
    ExtendsTrans(g0, g, g2);
    ExtendsTrans(g, g2, g3);
    ExtendsEval(g0, g, x, env);
    WithinCons(g, g, x, u) by { ExtendsSelf(g); }
    WithinTake(g, s, w);
    WithinCell(g, s, w);
    assert s[..w] + [s[w]] == s && d[..w] == d && s[..|n|] == s[..w] && d[..|n|] == d;
    NumLCons(g, x, u, env);
    NumLPush(g, s[..w], s[w], env);
    NumLExtends(g, g2, s[..w], env);
    NumLExtends(g0, g, d, env);
    NumLExtends(g0, g2, d, env);
    ExtendsEval(g, g1, s[w], env);
    ExtendsEval(g2, g3, q, env);
    NumExtends(g, g3, quot, env);
    NumSnoc(g0, a, x, env);
    NumSnoc(g3, quot, q, env);
    NumBound(g0, a, env);
    NumLBound(g0, d, env);
    NumLBound(g, s[..w], env);
    DivideStep(Num(g0, a, env), NumL(g0, d, env), Val(g0, x, env), w, |a|, NumL(g, s[..w], env), Val(g, s[w], env),
      Val(g2, q, env));
    assert |a + [x]| == |a| + 1;
  }

  ghost predicate DividedAll(g: Graph, u: seq<Lit>, quot: seq<Lit>, g0: Graph, a: seq<Lit>, d: seq<Lit>) {
    forall env: Env :: Divided(g, u, quot, g0, a, d, env)
  }

  /** A literal that is the OR of two others. */
  ghost predicate IsOr(g: Graph, q: Lit, g0: Graph, c: Lit, s: Lit) {
    forall env: Env {:trigger Val(g, q, env)} :: Val(g, q, env) == OrBit(Val(g0, c, env), Val(g0, s, env))
  }

  /** The quotient bit of row `j`: a carry out of the row, or a bit above the divisor's width. */
  method QuotientBit(m: Manager, c: Lit, s: Lit) returns (q: Lit)
    requires m.Valid() && Held(m.handles, c) && Held(m.handles, s)
    modifies m
    ensures m.Valid() && q.id < |m.graph| && m.handles == old(m.handles) + Ref(q) && Extends(old(m.graph), m.graph)
    ensures IsOr(m.graph, q, old(m.graph), c, s)
  {
    hide m.Valid, Extends, NodeRef, Eval;
    ghost var g0 := m.graph;
    q := m.MakeOr(c, s);
    forall env: Env
      ensures Val(m.graph, q, env) == OrBit(Val(g0, c, env), Val(g0, s, env))
    {
      assert Eval(m.graph, q, env) == (Eval(g0, c, env) || Eval(g0, s, env));
    }
  }

  lemma {:induction false} RowCarriesLift(g: Graph, g1: Graph, g2: Graph, c: seq<Lit>, s: seq<Lit>, d: seq<Lit>)
    requires RowCarries(g1, c, g, s, d) && Extends(g, g1) && Extends(g1, g2) && Within(g1, c) && Within(g, s)
    requires Within(g, d)
    ensures RowCarries(g2, c, g2, s, d)
  {
    hide Carries, Extends, Within;
    forall env: Env
      ensures Carries(g2, c, g2, s, d, env)
    {
      CarriesLift(g, g1, g2, c, s, d, env);
    }
  }

  lemma {:induction false} DividedNext(g: Graph, g1: Graph, g2: Graph, g3: Graph, u: seq<Lit>, x: Lit, c: seq<Lit>,
        q: Lit, n: seq<Lit>, quot: seq<Lit>, g0: Graph, a: seq<Lit>, d: seq<Lit>)
    requires |a| < |d| == |u| == |n| && |c| == |d| + 1
    requires Extends(g0, g) && Extends(g, g1) && Extends(g1, g2) && Extends(g2, g3)
    requires Within(g0, d) && x.id < |g0| && Within(g, u) && Within(g1, c) && Within(g, quot) && q.id < |g2|
    requires DividedAll(g, u, quot, g0, a, d) && RowCarries(g1, c, g, [x] + u, d)
    requires IsOr(g2, q, g1, c[|d|], ([x] + u)[|d|]) && RowRests(g3, n, g2, [x] + u, d, q)
    ensures DividedAll(g3, n, quot + [q], g0, a + [x], d)
  {
    hide Carries, Rests, Divided, Extends, Within, Val;
    forall env: Env
      ensures Divided(g3, n, quot + [q], g0, a + [x], d, env)
    {
      assert Divided(g, u, quot, g0, a, d, env) && Carries(g1, c, g, [x] + u, d, env);
      assert Rests(g3, n, g2, [x] + u, d, q, env);
      DividedStep(g, g1, g2, g3, u, x, c, q, n, quot, g0, a, d, env);
    }
  }

  /** The first half of a turn: the next dividend bit goes in, the carries and the quotient bit come out. */
  method FrontRow(m: Manager, S: array2<Lit>, C: array2<Lit>, nD: array<Lit>, x: Lit, j: nat, ghost d: seq<Lit>)
    returns (q: Lit, ghost g1: Graph)
    requires m.Valid() && S.Length0 == S.Length1 == C.Length0 == C.Length1 == nD.Length + 1 && j < nD.Length && S != C
    requires S[j, 0] == FALSE_LIT && nD[..] == Inverted(d)
    requires HeldVec(m.handles, Upper(S, j)) && HeldVec(m.handles, nD[..]) && Held(m.handles, x)
    modifies m, S, C
    ensures m.Valid() && nD[..] == old(nD[..]) && OnlyRow(C, j) && Row(S, j) == [x] + old(Upper(S, j))
    ensures forall k: nat, i: nat :: k < S.Length0 && i < S.Length1 && k != j ==> S[k, i] == old(S[k, i])
    ensures m.handles == old(m.handles) + Ref(x) + Refs(Row(C, j)) + Ref(q)
    ensures HeldVec(m.handles, Row(S, j)) && HeldVec(m.handles, Row(C, j)) && HeldVec(m.handles, nD[..])
    ensures Held(m.handles, q) && q.id < |m.graph| && Within(g1, Row(C, j))
    ensures Extends(old(m.graph), g1) && Extends(g1, m.graph)
    ensures RowCarries(g1, Row(C, j), old(m.graph), Row(S, j), d)
    ensures IsOr(m.graph, q, g1, C[j, nD.Length], S[j, nD.Length])
  {
    hide m.Valid, Eval, Val, NodeValue, Extends, NodeRef, Refs, HeldVec, Within, RowCarries, IsOr, Inverted;
    ghost var g, h, u, nd := m.graph, m.handles, Upper(S, j), nD[..];
    HeldWithin(m, u);
    S[j, 0] := m.Copy(x);
    ghost var s, h1 := [x] + u, m.handles;
    assert Row(S, j) == s;
    HeldMono(h, h1);
    HeldCons(h1, x, u);
    CarryRow(m, S, C, nD, j, d);
    g1 := m.graph;
    ghost var h2, c := m.handles, Row(C, j);
    MadeKeeps(h1, g, h2, g1, c);
    HeldCell(h2, c, nD.Length, multiset{});
    HeldCell(h2, s, nD.Length, multiset{});
    assert Row(S, j) == s;
    q := QuotientBit(m, C[j, nD.Length], S[j, nD.Length]);
    HeldMono(h2, m.handles);
  }

  /** One turn of the outer loop of `udiv_urem_aigvec`; `x` is the next dividend bit. */
  method DivRow(m: Manager, S: array2<Lit>, C: array2<Lit>, nD: array<Lit>, x: Lit, j: nat,
                ghost g0: Graph, ghost a: seq<Lit>, ghost d: seq<Lit>, ghost quot: seq<Lit>) returns (q: Lit)
    requires m.Valid() && S.Length0 == S.Length1 == C.Length0 == C.Length1 == nD.Length + 1 && |a| == j < nD.Length
    requires S != C
    requires S[j, 0] == FALSE_LIT && nD[..] == Inverted(d)
    requires HeldVec(m.handles, Upper(S, j)) && HeldVec(m.handles, nD[..]) && Held(m.handles, x)
    requires Extends(g0, m.graph) && Within(g0, d) && x.id < |g0| && Within(m.graph, quot)
    requires DividedAll(m.graph, Upper(S, j), quot, g0, a, d)
    modifies m, S, C
    ensures m.Valid() && nD[..] == old(nD[..]) && OnlyRow(C, j) && S[j + 1, 0] == old(S[j + 1, 0])
    ensures forall k: nat, i: nat :: k < S.Length0 && i < S.Length1 && k != j && k != j + 1 ==> S[k, i] == old(S[k, i])
    ensures Row(S, j) == [x] + old(Upper(S, j))
    ensures m.handles == old(m.handles) + Ref(x) + Refs(Row(C, j)) + Ref(q) + Refs(Upper(S, j + 1))
    ensures Extends(old(m.graph), m.graph) && q.id < |m.graph|
    ensures DividedAll(m.graph, Upper(S, j + 1), quot + [q], g0, a + [x], d)
  {
    hide m.Valid, Eval, Val, NodeValue, Extends, NodeRef, Refs, HeldVec, Within, RowCarries, RowRests, DividedAll;
    hide Inverted, IsOr;
    ghost var g, u := m.graph, Upper(S, j);
    ghost var s := [x] + u;
    HeldWithin(m, u);
    ghost var g1;
    q, g1 := FrontRow(m, S, C, nD, x, j, d);
    ghost var g2, c := m.graph, Row(C, j);
    WithinSum(g0, g, d, x, u);
    RowCarriesLift(g, g1, g2, c, s, d);
    SumRow(m, S, C, nD, q, j, d);
    ghost var g3, n := m.graph, Upper(S, j + 1);
    assert Row(S, j) == s;
    DividedNext(g, g1, g2, g3, u, x, c, q, n, quot, g0, a, d);
    ExtendsTrans(g, g1, g2);
    ExtendsTrans(g, g2, g3);
  }

  lemma {:induction false} WithinSum(g0: Graph, g: Graph, d: seq<Lit>, x: Lit, u: seq<Lit>)
    requires Extends(g0, g) && Within(g0, d) && x.id < |g0| && Within(g, u)
    ensures Within(g, d) && Within(g, [x] + u) && x.id < |g|
  {
  }

  // ---------------------------------------------------------------- releasing the matrices

  /** The matrix holds these rows from the first one on. */
  ghost predicate RowsAre(grid: array2<Lit>, rows: seq<seq<Lit>>)
    reads grid
  {
    |rows| <= grid.Length0 && forall k :: 0 <= k < |rows| ==> rows[k] == Row(grid, k)
  }

  method ReleaseRow(m: Manager, grid: array2<Lit>, j: nat, ghost base: multiset<nat>)
    requires m.Valid() && j < grid.Length0 && m.handles == base + Refs(Row(grid, j))
    modifies m
    ensures m.Valid() && m.graph == old(m.graph) && m.handles == base
  {
    hide m.Valid, Refs, NodeRef;
    ghost var row := Row(grid, j);
    assert row[0..] == row;
    for i := 0 to grid.Length1
      invariant m.Valid() && m.graph == old(m.graph) && Row(grid, j) == row && m.handles == base + Refs(row[i..])
    {
      assert row[i..] == [row[i]] + row[i + 1..];
      RefsCons(row[i], row[i + 1..]);
      m.Release(grid[j, i]);
      Cancel(m.handles, base + Refs(row[i + 1..]), Ref(row[i]));
    }
    assert row[grid.Length1..] == [];
    RefsEmpty();
  }

  method ReleaseGrid(m: Manager, grid: array2<Lit>, ghost rows: seq<seq<Lit>>, ghost base: multiset<nat>)
    requires m.Valid() && |rows| == grid.Length0 && RowsAre(grid, rows) && m.handles == base + RowsRefs(rows)
    modifies m
    ensures m.Valid() && m.graph == old(m.graph) && m.handles == base
  {
    hide m.Valid, Refs, NodeRef;
    assert rows[0..] == rows;
    for j := 0 to grid.Length0
      invariant m.Valid() && m.graph == old(m.graph) && RowsAre(grid, rows) && m.handles == base + RowsRefs(rows[j..])
    {
      assert rows[j..][0] == rows[j] == Row(grid, j) && rows[j..][1..] == rows[j + 1..];
      assert m.handles == base + RowsRefs(rows[j + 1..]) + Refs(Row(grid, j));
      ReleaseRow(m, grid, j, base + RowsRefs(rows[j + 1..]));
    }
  }

  /** The loop that copies the last row of S, top cell first, into the remainder. */
  method RemainderCells(m: Manager, S: array2<Lit>, size: nat) returns (R: array<Lit>)
    requires m.Valid() && S.Length0 == S.Length1 == size + 1 && HeldVec(m.handles, Upper(S, size))
    modifies m
    ensures m.Valid() && fresh(R) && R.Length == size && R[..] == Reversed(Upper(S, size))
    ensures m.graph == old(m.graph) && m.handles == old(m.handles) + Refs(R[..])
  {
    hide m.Valid, Refs, NodeRef, HeldVec;
    ghost var h0, u := m.handles, Upper(S, size);
    R := new Lit[size](_ => FALSE_LIT);
    RefsEmpty();
    var i := size;
    ghost var r: seq<Lit> := [];
    while i >= 1
      invariant 0 <= i <= size && m.Valid() && m.graph == old(m.graph) && Upper(S, size) == u
      invariant R[..size - i] == r && r == Reversed(u)[..size - i]
      invariant m.handles == h0 + Refs(r)
    {
      HeldCell(h0, u, i - 1, Refs(r));
      R[size - i] := m.Copy(S[size, i]);
      RefsPush(r, u[i - 1]);
      r := r + [u[i - 1]];
      i := i - 1;
    }
    assert R[..size] == R[..];
  }

  // ---------------------------------------------------------------- the divider

  /** Everything the matrices hold after `j` rows; the rows below are still constant. */
  ghost predicate Filled(S: array2<Lit>, C: array2<Lit>, j: nat, size: nat, rowsS: seq<seq<Lit>>,
        rowsC: seq<seq<Lit>>, u: seq<Lit>)
    reads S, C
  {
    && S.Length0 == S.Length1 == C.Length0 == C.Length1 == size + 1 && j <= size
    && |rowsS| == |rowsC| == j && RowsAre(S, rowsS) && RowsAre(C, rowsC)
    && Row(S, j) == [FALSE_LIT] + u
    && (forall k: nat, i: nat :: j < k <= size && i <= size ==> S[k, i] == FALSE_LIT)
    && (forall k: nat, i: nat :: j <= k <= size && i <= size ==> C[k, i] == FALSE_LIT)
  }

  lemma {:induction false} FilledStart(S: array2<Lit>, C: array2<Lit>, size: nat)
    requires S.Length0 == S.Length1 == C.Length0 == C.Length1 == size + 1
    requires forall k: nat, i: nat :: k <= size && i <= size ==> S[k, i] == FALSE_LIT && C[k, i] == FALSE_LIT
    ensures Filled(S, C, 0, size, [], [], seq(size, _ => FALSE_LIT))
  {
    assert Row(S, 0) == [FALSE_LIT] + seq(size, _ => FALSE_LIT);
  }

  lemma {:induction false} FilledUpper(S: array2<Lit>, C: array2<Lit>, j: nat, size: nat, rowsS: seq<seq<Lit>>,
        rowsC: seq<seq<Lit>>, u: seq<Lit>)
    requires Filled(S, C, j, size, rowsS, rowsC, u)
    ensures S.Length0 == S.Length1 == C.Length0 == C.Length1 == size + 1 && j <= size
    ensures Upper(S, j) == u && S[j, 0] == FALSE_LIT && |u| == size && |rowsS| == |rowsC| == j
  {
    assert Row(S, j)[0] == FALSE_LIT;
  }

  lemma {:induction false} FilledEnd(S: array2<Lit>, C: array2<Lit>, size: nat, rowsS: seq<seq<Lit>>,
        rowsC: seq<seq<Lit>>, u: seq<Lit>)
    requires Filled(S, C, size, size, rowsS, rowsC, u)
    ensures RowsAre(S, rowsS + [Row(S, size)]) && RowsRefs(rowsS + [Row(S, size)]) == RowsRefs(rowsS) + Refs(u)
    ensures RowsAre(C, rowsC + [Row(C, size)]) && RowsRefs(rowsC + [Row(C, size)]) == RowsRefs(rowsC)
  {
    hide Refs, NodeRef;
    RowsRefsPush(rowsS, Row(S, size));
    RowsRefsPush(rowsC, Row(C, size));
    RefsConsts(Row(C, size));
    RefsCons(FALSE_LIT, u);
    NodeRefZero();
  }

  lemma {:induction false} DivHandles(h: multiset<nat>, h': multiset<nat>, base: multiset<nat>, rs: multiset<nat>,
        rc: multiset<nat>, qs: multiset<nat>, u: multiset<nat>, x: multiset<nat>, c: multiset<nat>, q: multiset<nat>,
        n: multiset<nat>)
    requires h == base + rs + rc + qs + u && h' == h + x + c + q + n
    ensures h' == base + (rs + (x + u)) + (rc + c) + (qs + q) + n
  {
    forall i: nat
      ensures h'[i] == (base + (rs + (x + u)) + (rc + c) + (qs + q) + n)[i]
    {
      assert h[i] == (base + rs + rc + qs + u)[i] && h'[i] == (h + x + c + q + n)[i];
    }
  }

  lemma {:induction false} NextHandles(h: multiset<nat>, h': multiset<nat>, h0: multiset<nat>, rowsS: seq<seq<Lit>>,
        rowsC: seq<seq<Lit>>, quot: seq<Lit>, u: seq<Lit>, x: Lit, c: seq<Lit>, q: Lit, n: seq<Lit>)
    requires h == h0 + RowsRefs(rowsS) + RowsRefs(rowsC) + Refs(quot) + Refs(u)
    requires h' == h + Ref(x) + Refs(c) + Ref(q) + Refs(n)
    ensures h' == h0 + RowsRefs(rowsS + [[x] + u]) + RowsRefs(rowsC + [c]) + Refs(quot + [q]) + Refs(n)
  {
    hide RowsRefs, Refs, NodeRef;
    DivHandles(h, h', h0, RowsRefs(rowsS), RowsRefs(rowsC), Refs(quot), Refs(u), Ref(x), Refs(c), Ref(q), Refs(n));
    RowsRefsPush(rowsS, [x] + u);
    RowsRefsPush(rowsC, c);
    RefsCons(x, u);
    RefsPush(quot, q);
  }

  /** One row, seen from what the matrices hold. */
  method NextRow(m: Manager, S: array2<Lit>, C: array2<Lit>, nD: array<Lit>, x: Lit, j: nat, ghost g0: Graph,
        ghost a: seq<Lit>, ghost d: seq<Lit>, ghost quot: seq<Lit>, ghost rowsS: seq<seq<Lit>>,
        ghost rowsC: seq<seq<Lit>>, ghost u: seq<Lit>) returns (q: Lit)
    requires m.Valid() && Filled(S, C, j, nD.Length, rowsS, rowsC, u) && |a| == j < nD.Length && S != C
    requires nD[..] == Inverted(d)
    requires HeldVec(m.handles, u) && HeldVec(m.handles, nD[..]) && Held(m.handles, x)
    requires Extends(g0, m.graph) && Within(g0, d) && x.id < |g0| && Within(m.graph, quot)
    requires DividedAll(m.graph, u, quot, g0, a, d)
    modifies m, S, C
    ensures m.Valid() && nD[..] == old(nD[..]) && S.Length0 == S.Length1 == C.Length0 == C.Length1 == nD.Length + 1
    ensures Filled(S, C, j + 1, nD.Length, rowsS + [[x] + u], rowsC + [Row(C, j)], Upper(S, j + 1))
    ensures m.handles == old(m.handles) + Ref(x) + Refs(Row(C, j)) + Ref(q) + Refs(Upper(S, j + 1))
    ensures Extends(old(m.graph), m.graph) && q.id < |m.graph|
    ensures DividedAll(m.graph, Upper(S, j + 1), quot + [q], g0, a + [x], d)
  {
    hide m.Valid, Extends, NodeRef, Refs, HeldVec, Within, Inverted, DividedAll;
    FilledUpper(S, C, j, nD.Length, rowsS, rowsC, u);
    q := DivRow(m, S, C, nD, x, j, g0, a, d, quot);
    ghost var rowsS', rowsC' := rowsS + [[x] + u], rowsC + [Row(C, j)];
    forall k | 0 <= k <= j
      ensures rowsS'[k] == Row(S, k) && rowsC'[k] == Row(C, k)
    {
      if k < j {
        assert rowsS[k] == old(Row(S, k)) && rowsC[k] == old(Row(C, k));
        assert old(Row(S, k)) == Row(S, k) && old(Row(C, k)) == Row(C, k);
      }
    }
    assert Row(S, j + 1) == [FALSE_LIT] + Upper(S, j + 1);
  }

  /** The row loop of `udiv_urem_aigvec`. */
  method DivRows(m: Manager, S: array2<Lit>, C: array2<Lit>, A: array<Lit>, nD: array<Lit>, Q: array<Lit>,
        ghost a: seq<Lit>, ghost d: seq<Lit>)
    returns (ghost rowsS: seq<seq<Lit>>, ghost rowsC: seq<seq<Lit>>)
    requires m.Valid() && A.Length == nD.Length == Q.Length > 0 && A != Q && nD != Q && S != C
    requires A[..] == Reversed(a) && nD[..] == Inverted(d) && HeldVec(m.handles, a) && HeldVec(m.handles, d)
    requires Filled(S, C, 0, A.Length, [], [], seq(A.Length, _ => FALSE_LIT))
    modifies m, S, C, Q
    ensures m.Valid() && Filled(S, C, A.Length, A.Length, rowsS, rowsC, Upper(S, A.Length))
    ensures m.handles == old(m.handles) + RowsRefs(rowsS) + RowsRefs(rowsC) + Refs(Q[..]) + Refs(Upper(S, A.Length))
    ensures Extends(old(m.graph), m.graph) && Within(m.graph, Q[..])
    ensures DividedAll(m.graph, Upper(S, A.Length), Q[..], old(m.graph), a, d)
  {
    hide m.Valid, Eval, Val, NodeValue, Extends, NodeRef, Refs, HeldVec, Within, Divided, Inverted, Row, Filled;
    hide RowsRefs, Upper, DividedAll;
    ghost var h0, g0, nd := m.handles, m.graph, nD[..];
    var size := A.Length;
    HeldWithin(m, a);
    HeldWithin(m, d);
    InvertedKeeps(h0, g0, d, nd);
    ghost var u := seq(size, _ => FALSE_LIT);
    ghost var quot: seq<Lit> := [];
    rowsS, rowsC := [], [];
    m.HandlesKnown();
    DivStart(g0, u, d);
    ExtendsSelf(g0);
    WithinEmpty(g0);
    for j := 0 to size
      invariant m.Valid() && A[..] == Reversed(a) && nD[..] == nd && Q[..j] == quot
      invariant Filled(S, C, j, size, rowsS, rowsC, u) && |u| == size
      invariant m.handles == h0 + RowsRefs(rowsS) + RowsRefs(rowsC) + Refs(quot) + Refs(u)
      invariant Extends(g0, m.graph) && Within(m.graph, quot)
      invariant DividedAll(m.graph, u, quot, g0, a[..j], d)
    {
      ghost var g, h, x := m.graph, m.handles, a[j];
      FilledUpper(S, C, j, size, rowsS, rowsC, u);
      ghost var others := RowsRefs(rowsS) + RowsRefs(rowsC) + Refs(quot);
      assert h == h0 + others + Refs(u);
      HeldOwn(h0 + others, u);
      HeldMono(h0, h);
      HeldCell(h0, a, j, others + Refs(u));
      WithinCell(g0, a, j);
      var q := NextRow(m, S, C, nD, A[size - j - 1], j, g0, a[..j], d, quot, rowsS, rowsC, u);
      ghost var c, n := Row(C, j), Upper(S, j + 1);
      NextHandles(h, m.handles, h0, rowsS, rowsC, quot, u, x, c, q, n);
      WithinSnoc(g, m.graph, quot, q);
      ExtendsTrans(g0, g, m.graph);
      assert a[..j + 1] == a[..j] + [x];
      rowsS, rowsC, u, quot := rowsS + [[x] + u], rowsC + [c], n, quot + [q];
      Q[j] := q;
      FilledUpper(S, C, j + 1, size, rowsS, rowsC, u);
    }
    FilledUpper(S, C, size, size, rowsS, rowsC, u);
    assert a[..size] == a && Q[..size] == Q[..];
  }

  lemma {:induction false} DivStart(g: Graph, u: seq<Lit>, d: seq<Lit>)
    requires |g| > 0 && g[0] == Const && forall i :: 0 <= i < |u| ==> u[i] == FALSE_LIT
    ensures DividedAll(g, u, [], g, [], d) && Refs(u) == multiset{} && Refs([]) == multiset{}
    ensures RowsRefs([]) == multiset{}
  {
    hide Divided, Refs, NodeRef;
    RefsConsts(u);
    RefsEmpty();
    forall env: Env
      ensures Divided(g, u, [], g, [], d, env)
    {
      DividedStart(g, u, d, env);
    }
  }

  /** The end of `udiv_urem_aigvec`: read off the remainder and give the matrices back. */
  method DivFinish(m: Manager, S: array2<Lit>, C: array2<Lit>, size: nat, ghost rowsS: seq<seq<Lit>>,
        ghost rowsC: seq<seq<Lit>>, ghost base: multiset<nat>) returns (R: array<Lit>)
    requires m.Valid() && S.Length0 == S.Length1 == size + 1
    requires Filled(S, C, size, size, rowsS, rowsC, Upper(S, size))
    requires m.handles == base + RowsRefs(rowsS) + RowsRefs(rowsC) + Refs(Upper(S, size))
    modifies m
    ensures m.Valid() && fresh(R) && R.Length == size && R[..] == Reversed(Upper(S, size))
    ensures m.graph == old(m.graph) && m.handles == base + Refs(R[..])
  {
    hide m.Valid, NodeRef, Refs, HeldVec, RowsRefs, Row;
    ghost var u := Upper(S, size);
    FilledEnd(S, C, size, rowsS, rowsC, u);
    HeldOwn(base + RowsRefs(rowsS) + RowsRefs(rowsC), u);
    R := RemainderCells(m, S, size);
    ghost var r := R[..];
    assert m.handles == (base + Refs(r)) + (RowsRefs(rowsS) + Refs(u)) + RowsRefs(rowsC);
    ReleaseGrid(m, C, rowsC + [Row(C, size)], (base + Refs(r)) + (RowsRefs(rowsS) + Refs(u)));
    ReleaseGrid(m, S, rowsS + [Row(S, size)], base + Refs(r));
  }

  lemma {:induction false} DivValues(g: Graph, u: seq<Lit>, quot: seq<Lit>, r: seq<Lit>, g0: Graph, a: seq<Lit>,
        b: seq<Lit>, env: Env)
    requires DividedAll(g, u, quot, g0, a, Reversed(b)) && r == Reversed(u)
    ensures Num(g, quot, env) == BvUdiv(Num(g0, a, env), Num(g0, b, env), |a|)
    ensures Num(g, r, env) == BvUrem(Num(g0, a, env), Num(g0, b, env))
  {
    hide Num, NumL, BvUdiv, BvUrem;
    assert Divided(g, u, quot, g0, a, Reversed(b), env);
    NumReversed(g0, b, env);
    NumReversed(g, r, env);
    assert Reversed(r) == u;
  }

  method FalseGrid(n: nat) returns (grid: array2<Lit>)
    ensures fresh(grid) && grid.Length0 == grid.Length1 == n
    ensures forall k: nat, i: nat :: k < n && i < n ==> grid[k, i] == FALSE_LIT
  {
    grid := new Lit[n, n]((_, _) => FALSE_LIT);
  }

  /** The operands least significant bit first, the divisor inverted; all-false matrices. */
  method DivSetup(ain: array<Lit>, din: array<Lit>)
    returns (A: array<Lit>, nD: array<Lit>, S: array2<Lit>, C: array2<Lit>, Q: array<Lit>)
    requires ain.Length == din.Length
    ensures fresh(A) && fresh(nD) && fresh(S) && fresh(C) && fresh(Q) && A != Q && nD != Q && S != C
    ensures A.Length == nD.Length == Q.Length == ain.Length
    ensures S.Length0 == S.Length1 == C.Length0 == C.Length1 == ain.Length + 1
    ensures A[..] == Reversed(ain[..]) && nD[..] == Inverted(Reversed(din[..]))
    ensures Filled(S, C, 0, ain.Length, [], [], seq(ain.Length, _ => FALSE_LIT))
  {
    var size := ain.Length;
    A := new Lit[size](i requires 0 <= i < size reads ain => ain[size - 1 - i]);
    assert A[..] == Reversed(ain[..]);
    nD := new Lit[size](i requires 0 <= i < size reads din => Not(din[size - 1 - i]));
    assert nD[..] == Inverted(Reversed(din[..]));
    hide Reversed, Inverted;
    S := FalseGrid(size + 1);
    C := FalseGrid(size + 1);
    Q := new Lit[size](_ => FALSE_LIT);
    FilledStart(S, C, size);
    hide Filled;
  }

  /** `udiv_urem_aigvec`: quotient and remainder from the same matrices. */
  method DivideBoth(m: Manager, ain: array<Lit>, din: array<Lit>) returns (Q: array<Lit>, R: array<Lit>)
    requires m.Valid() && 0 < ain.Length == din.Length && HeldVec(m.handles, ain[..]) && HeldVec(m.handles, din[..])
    modifies m
    ensures m.Valid() && fresh(Q) && fresh(R) && Q != R && Q.Length == R.Length == ain.Length
    ensures m.handles == old(m.handles) + Refs(Q[..]) + Refs(R[..])
    ensures Extends(old(m.graph), m.graph) && Within(m.graph, Q[..]) && Within(m.graph, R[..])
    ensures forall env: Env :: Num(m.graph, Q[..], env)
              == BvUdiv(Num(old(m.graph), ain[..], env), Num(old(m.graph), din[..], env), ain.Length)
    ensures forall env: Env :: Num(m.graph, R[..], env)
              == BvUrem(Num(old(m.graph), ain[..], env), Num(old(m.graph), din[..], env))
  {
    hide m.Valid, Eval, Val, NodeValue, Extends, NodeRef, Refs, HeldVec, Within, DividedAll, RowsRefs, Num, NumL;
    hide BvUdiv, BvUrem, Filled, Row, Reversed, Inverted;
    ghost var h0, g0, a, b := m.handles, m.graph, ain[..], din[..];
    ghost var d := Reversed(b);
    var size := ain.Length;
    var A, nD, S, C;
    A, nD, S, C, Q := DivSetup(ain, din);
    HeldReversed(h0, b);
    ghost var rowsS, rowsC := DivRows(m, S, C, A, nD, Q, a, d);
    ghost var g1, u, quot := m.graph, Upper(S, size), Q[..];
    R := DivFinish(m, S, C, size, rowsS, rowsC, h0 + Refs(quot));
    ghost var r := R[..];
    m.HandlesKnown();
    HeldOwn(h0 + Refs(quot), r);
    HeldWithin(m, r);
    forall env: Env
      ensures Num(g1, quot, env) == BvUdiv(Num(g0, a, env), Num(g0, b, env), size)
      ensures Num(g1, r, env) == BvUrem(Num(g0, a, env), Num(g0, b, env))
    {
      DivValues(g1, u, quot, r, g0, a, b, env);
    }
  }

  lemma {:induction false} HeldReversed(h: multiset<nat>, v: seq<Lit>)
    requires HeldVec(h, v)
    ensures HeldVec(h, Reversed(v))
  {
    hide NodeRef;
  }

  /** `bzla_aigvec_udiv` */
  method MakeUdiv(m: Manager, av1: array<Lit>, av2: array<Lit>) returns (quotient: array<Lit>)
    requires m.Valid() && 0 < av1.Length == av2.Length && HeldVec(m.handles, av1[..]) && HeldVec(m.handles, av2[..])
    modifies m
    ensures m.Valid() && fresh(quotient) && quotient.Length == av1.Length
    ensures Made(old(m.handles), old(m.graph), m.handles, m.graph, quotient[..])
    ensures forall env: Env :: Num(m.graph, quotient[..], env)
              == BvUdiv(Num(old(m.graph), av1[..], env), Num(old(m.graph), av2[..], env), av1.Length)
  {
    hide m.Valid, Extends, NodeRef, Refs, HeldVec, Within, Num, BvUdiv, BvUrem;
    ghost var h0 := m.handles;
    var remainder;
    quotient, remainder := DivideBoth(m, av1, av2);
    ReleaseVec(m, remainder);
    Cancel(m.handles, h0 + Refs(quotient[..]), Refs(remainder[..]));
  }

  /** `bzla_aigvec_urem` */
  method MakeUrem(m: Manager, av1: array<Lit>, av2: array<Lit>) returns (remainder: array<Lit>)
    requires m.Valid() && 0 < av1.Length == av2.Length && HeldVec(m.handles, av1[..]) && HeldVec(m.handles, av2[..])
    modifies m
    ensures m.Valid() && fresh(remainder) && remainder.Length == av1.Length
    ensures Made(old(m.handles), old(m.graph), m.handles, m.graph, remainder[..])
    ensures forall env: Env :: Num(m.graph, remainder[..], env)
              == BvUrem(Num(old(m.graph), av1[..], env), Num(old(m.graph), av2[..], env))
  {
    hide m.Valid, Extends, NodeRef, Refs, HeldVec, Within, Num, BvUdiv, BvUrem;
    ghost var h0 := m.handles;
    var quotient;
    quotient, remainder := DivideBoth(m, av1, av2);
    ReleaseVec(m, quotient);
    Cancel(m.handles, h0 + Refs(remainder[..]), Refs(quotient[..]));
  }
}
