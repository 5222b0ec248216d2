/** Small circuits over single literals: equivalence, if-then-else and the adders
    (src/bzlaaig.c:744-769, src/bzlaaigvec.c:292-319). */
module AigGates {
  import opened Arith
  import opened AigGraph
  import opened References
  import opened AigManager

  /** The caller holds a reference to the literal (constants need none). */
  ghost predicate Held(handles: multiset<nat>, l: Lit) {
    Ref(l) <= handles
  }

  lemma {:induction false} OneOfFour(h: multiset<nat>, a: multiset<nat>, b: multiset<nat>, c: multiset<nat>,
        d: multiset<nat>)
    ensures h + a + b + c + d == h + b + c + d + a && a <= h + a + b + c + d
  {
  }

  /** Give three intermediate gates back, the result staying held. */
  method ReleaseThree(m: Manager, a: Lit, b: Lit, c: Lit, ghost res: Lit, ghost h: multiset<nat>)
    requires m.Valid() && m.handles == h + Ref(a) + Ref(b) + Ref(c) + Ref(res)
    modifies m
    ensures m.Valid() && m.graph == old(m.graph) && m.handles == h + Ref(res)
  {
    hide m.Valid, Ref;
    ghost var x, y, z, r := Ref(a), Ref(b), Ref(c), Ref(res);
    OneOfFour(h, x, y, z, r);
    m.Release(a);
    Cancel(m.handles, h + y + z + r, x);
    OneOfFour(h, y, z, r, multiset{});
    m.Release(b);
    Cancel(m.handles, h + z + r, y);
    OneOfFour(h, z, r, multiset{}, multiset{});
    m.Release(c);
    Cancel(m.handles, h + r, z);
  }

  method MakeEq(m: Manager, a: Lit, b: Lit) returns (res: Lit)
    requires m.Valid() && Held(m.handles, a) && Held(m.handles, b)
    modifies m
    ensures m.Valid() && res.id < |m.graph|
    ensures m.handles == old(m.handles) + Ref(res)
    ensures Extends(old(m.graph), m.graph)
    ensures forall env: Env {:trigger Eval(m.graph, res, env)} ::
            Eval(m.graph, res, env) == (Eval(old(m.graph), a, env) == Eval(old(m.graph), b, env))
  {
    hide m.Valid, Eval, NodeValue, Extends, NodeRef;
    ghost var g0 := m.graph;
    m.HandlesKnown();
    var x := m.MakeAnd(a, Not(b));
    ghost var g1 := m.graph;
    var y := m.MakeAnd(Not(a), b);
    ghost var g2 := m.graph;
    res := m.MakeAnd(Not(x), Not(y));
    ExtendsTrans(g0, g1, g2);
    ExtendsTrans(g0, g2, m.graph);
    m.Release(x);
    m.Release(y);
    forall env: Env
      ensures Eval(m.graph, res, env) == (Eval(g0, a, env) == Eval(g0, b, env))
    {
      EvalNot(g0, b, env);
      EvalNot(g1, a, env);
      EvalNot(g2, x, env);
      EvalNot(g2, y, env);
      ExtendsEval(g0, g1, a, env);
      ExtendsEval(g0, g1, b, env);
      ExtendsEval(g1, g2, x, env);
    }
  }

  method MakeCond(m: Manager, c: Lit, a: Lit, b: Lit) returns (res: Lit)
    requires m.Valid() && Held(m.handles, c) && Held(m.handles, a) && Held(m.handles, b)
    modifies m
    ensures m.Valid() && res.id < |m.graph|
    ensures m.handles == old(m.handles) + Ref(res)
    ensures Extends(old(m.graph), m.graph)
    ensures forall env: Env {:trigger Eval(m.graph, res, env)} ::
              Eval(m.graph, res, env) == if Eval(old(m.graph), c, env) then Eval(old(m.graph), a, env)
                else Eval(old(m.graph), b, env)
  {
    hide m.Valid, Eval, NodeValue, Extends, NodeRef;
    ghost var g0 := m.graph;
    m.HandlesKnown();
    var x := m.MakeAnd(a, c);
    ghost var g1 := m.graph;
    var y := m.MakeAnd(b, Not(c));
    ghost var g2 := m.graph;
    res := m.MakeOr(x, y);
    ExtendsTrans(g0, g1, g2);
    ExtendsTrans(g0, g2, m.graph);
    m.Release(x);
    m.Release(y);
    forall env: Env
      ensures Eval(m.graph, res, env) == if Eval(g0, c, env) then Eval(g0, a, env) else Eval(g0, b, env)
    {
      EvalNot(g1, c, env);
      ExtendsEval(g0, g1, c, env);
      ExtendsEval(g0, g1, b, env);
      ExtendsEval(g1, g2, x, env);
    }
  }

  method HalfAdder(m: Manager, x: Lit, y: Lit) returns (res: Lit, cout: Lit)
    requires m.Valid() && Held(m.handles, x) && Held(m.handles, y)
    modifies m
    ensures m.Valid() && res.id < |m.graph| && cout.id < |m.graph|
    ensures m.handles == old(m.handles) + Ref(res) + Ref(cout)
    ensures Extends(old(m.graph), m.graph)
    ensures forall env: Env {:trigger Val(m.graph, res, env)} {:trigger Val(m.graph, cout, env)} ::
              Val(m.graph, res, env) + 2 * Val(m.graph, cout, env)
              == Val(old(m.graph), x, env) + Val(old(m.graph), y, env)
  {
    hide m.Valid, Eval, NodeValue, Extends, NodeRef;
    ghost var g0 := m.graph;
    m.HandlesKnown();
    cout := m.MakeAnd(x, y);
    ghost var g1 := m.graph;
    var neither := m.MakeAnd(Not(x), Not(y));
    ghost var g2 := m.graph;
    var xnor := m.MakeOr(cout, neither);
    res := Not(xnor);
    ExtendsTrans(g0, g1, g2);
    ExtendsTrans(g0, g2, m.graph);
    m.Release(neither);
    forall env: Env
      ensures Val(m.graph, res, env) + 2 * Val(m.graph, cout, env) == Val(g0, x, env) + Val(g0, y, env)
    {
      ExtendsEval(g0, g1, x, env);
      ExtendsEval(g0, g1, y, env);
      ExtendsEval(g1, g2, cout, env);
      ExtendsEval(g2, m.graph, cout, env);
      EvalNot(g1, x, env);
      EvalNot(g1, y, env);
      EvalNot(m.graph, xnor, env);
    }
  }

  /** Of the two carries at most one is set, so that their disjunction is their sum. */
  lemma {:induction false} CarryOr(g: Graph, g': Graph, c1: Lit, c2: Lit, c: Lit, env: Env)
    requires Eval(g', c, env) == (Eval(g, c1, env) || Eval(g, c2, env))
    ensures Val(g, c1, env) + Val(g, c2, env) <= 1 ==> Val(g', c, env) == Val(g, c1, env) + Val(g, c2, env)
  {
    hide Eval;
  }

  method FullAdder(m: Manager, x: Lit, y: Lit, cin: Lit) returns (res: Lit, cout: Lit)
    requires m.Valid() && Held(m.handles, x) && Held(m.handles, y) && Held(m.handles, cin)
    modifies m
    ensures m.Valid() && res.id < |m.graph| && cout.id < |m.graph|
    ensures m.handles == old(m.handles) + Ref(res) + Ref(cout)
    ensures Extends(old(m.graph), m.graph)
    ensures forall env: Env {:trigger Val(m.graph, res, env)} {:trigger Val(m.graph, cout, env)} ::
              Val(m.graph, res, env) + 2 * Val(m.graph, cout, env)
              == Val(old(m.graph), x, env) + Val(old(m.graph), y, env) + Val(old(m.graph), cin, env)
  {
    hide m.Valid, Eval, NodeValue, Extends, NodeRef, Val;
    ghost var g0 := m.graph;
    m.HandlesKnown();
    var sum, c1 := HalfAdder(m, x, y);
    ghost var g1 := m.graph;
    var c2;
    res, c2 := HalfAdder(m, sum, cin);
    ghost var g2 := m.graph;
    cout := m.MakeOr(c1, c2);
    ghost var g3 := m.graph;
    ExtendsTrans(g0, g1, g2);
    ExtendsTrans(g0, g2, g3);
    m.Release(sum);
    m.Release(c1);
    m.Release(c2);
    forall env: Env
      ensures Val(m.graph, res, env) + 2 * Val(m.graph, cout, env)
              == Val(g0, x, env) + Val(g0, y, env) + Val(g0, cin, env)
    {
      ExtendsEval(g0, g1, cin, env);
      ExtendsEval(g1, g2, c1, env);
      ExtendsEval(g2, g3, res, env);
      CarryOr(g2, g3, c1, c2, cout, env);
    }
  }
}
