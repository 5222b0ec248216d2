/** Ripple-carry addition on AIG vectors (src/bzlaaigvec.c:321-367). */
module AigAdder {
  import opened Arith
  import opened BvRef
  import opened AigGraph
  import opened References
  import opened AigManager
  import opened AigGates
  import opened AigNum

  /** `bzla_aig_compare` */
  function CompareLit(a: Lit, b: Lit): int {
    if a == b then 0
    else if Not(a) == b then (if a.inv then -1 else 1)
    else if a.id == 0 then -1
    else if b.id == 0 then 1
    else a.id - b.id
  }

  /** `compare_aigvec_lsb_first` (the comparison that decides whether operands are swapped). */
  method CompareVec(a: array<Lit>, b: array<Lit>) returns (res: int)
    requires a.Length == b.Length
    ensures res == 0 ==> forall i :: 0 <= i < a.Length ==> CompareLit(a[i], b[i]) == 0
    ensures res != 0 ==> exists i :: 0 <= i < a.Length && res == CompareLit(a[i], b[i])
                                     && forall j :: 0 <= j < i ==> CompareLit(a[j], b[j]) == 0
  {
    res := 0;
    var i := 0;
    while res == 0 && i < a.Length
      invariant 0 <= i <= a.Length
      invariant res == 0 ==> forall j :: 0 <= j < i ==> CompareLit(a[j], b[j]) == 0
      invariant res != 0 ==> i > 0 && res == CompareLit(a[i - 1], b[i - 1])
                             && forall j :: 0 <= j < i - 1 ==> CompareLit(a[j], b[j]) == 0
    {
      res := CompareLit(a[i], b[i]);
      i := i + 1;
    }
  }

  /** Sum so far, with the pending carry at the next weight. */
  ghost predicate SumSoFar(g: Graph, r: seq<Lit>, cin: Lit, g0: Graph, a: seq<Lit>, b: seq<Lit>, env: Env) {
    Num(g, r, env) + Weigh(Val(g, cin, env), Pow2(|r|)) == Num(g0, a, env) + Num(g0, b, env)
  }

  lemma {:induction false} SumStep(g: Graph, g': Graph, g0: Graph, r: seq<Lit>, cin: Lit, s: Lit, cout: Lit,
        a: seq<Lit>, b: seq<Lit>, x: Lit, y: Lit, env: Env)
    requires SumSoFar(g, r, cin, g0, a, b, env) && |a| == |b| == |r|
    requires Extends(g0, g) && Extends(g, g') && Within(g, r) && x.id < |g0| && y.id < |g0|
    requires Val(g', s, env) + 2 * Val(g', cout, env) == Val(g, x, env) + Val(g, y, env) + Val(g, cin, env)
    ensures SumSoFar(g', [s] + r, cout, g0, [x] + a, [y] + b, env)
  {
    hide Extends, Eval, Num, Within, Pow2, Val, Weigh;
    NumCons(g', s, r, env);
    NumCons(g0, x, a, env);
    NumCons(g0, y, b, env);
    NumExtends(g, g', r, env);
    ExtendsEval(g0, g, x, env);
    ExtendsEval(g0, g, y, env);
    Column(Pow2(|r|), Val(g', s, env), Val(g', cout, env), Val(g0, x, env), Val(g0, y, env), Val(g, cin, env));
    Pow2Succ(|r|);
    assert |[s] + r| == |r| + 1;
  }

  ghost predicate SumsSoFar(g: Graph, r: seq<Lit>, cin: Lit, g0: Graph, a: seq<Lit>, b: seq<Lit>) {
    forall env: Env :: SumSoFar(g, r, cin, g0, a, b, env)
  }

  /** One more column of the addition, added by a full adder between `g` and `g'`. */
  lemma {:induction false} SumNext(g: Graph, g': Graph, g0: Graph, r: seq<Lit>, cin: Lit, s: Lit, cout: Lit,
        a: seq<Lit>, b: seq<Lit>, i: nat)
    requires i < |a| == |b| && |r| == |a| - i - 1 && SumsSoFar(g, r, cin, g0, a[i + 1..], b[i + 1..])
    requires Extends(g0, g) && Extends(g, g') && Within(g, r) && a[i].id < |g0| && b[i].id < |g0|
    requires forall env: Env {:trigger Val(g', s, env)} {:trigger Val(g', cout, env)} ::
              Val(g', s, env) + 2 * Val(g', cout, env) == Val(g, a[i], env) + Val(g, b[i], env) + Val(g, cin, env)
    ensures SumsSoFar(g', [s] + r, cout, g0, a[i..], b[i..])
  {
    hide Extends, Val, Within, SumSoFar;
    assert a[i..] == [a[i]] + a[i + 1..] && b[i..] == [b[i]] + b[i + 1..];
    forall env: Env
      ensures SumSoFar(g', [s] + r, cout, g0, a[i..], b[i..], env)
    {
      SumStep(g, g', g0, r, cin, s, cout, a[i + 1..], b[i + 1..], a[i], b[i], env);
    }
  }

  lemma {:induction false} SumsEnd(g: Graph, r: seq<Lit>, cin: Lit, g0: Graph, a: seq<Lit>, b: seq<Lit>)
    requires SumsSoFar(g, r, cin, g0, a, b)
    ensures forall env: Env {:trigger Num(g, r, env)} ::
              Num(g, r, env) == (Num(g0, a, env) + Num(g0, b, env)) % Pow2(|r|)
  {
    hide SumSoFar, Num, Pow2;
    forall env: Env
      ensures Num(g, r, env) == (Num(g0, a, env) + Num(g0, b, env)) % Pow2(|r|)
    {
      SumEnd(g, r, cin, g0, a, b, env);
    }
  }

  lemma {:induction false} SumStart(g: Graph, a: seq<Lit>, b: seq<Lit>, cin: Lit)
    requires |g| > 0 && g[0] == Const && cin == FALSE_LIT
    ensures SumsSoFar(g, [], cin, g, a[|a|..], b[|b|..])
  {
    forall env: Env
      ensures SumSoFar(g, [], cin, g, a[|a|..], b[|b|..], env)
    {
      EvalConst(g, cin, env);
    }
  }

  lemma {:induction false} SumEnd(g: Graph, r: seq<Lit>, cin: Lit, g0: Graph, a: seq<Lit>, b: seq<Lit>, env: Env)
    requires SumSoFar(g, r, cin, g0, a, b, env)
    ensures Num(g, r, env) == (Num(g0, a, env) + Num(g0, b, env)) % Pow2(|r|)
  {
    hide Num, Val, Weigh, Pow2;
    NumBound(g, r, env);
    ModCarry(Num(g0, a, env) + Num(g0, b, env), Num(g, r, env), Val(g, cin, env), Pow2(|r|));
  }

  lemma {:induction false} SetFront(cells: seq<Lit>, cells': seq<Lit>, i: nat, s: Lit, r: seq<Lit>)
    requires i < |cells| && cells' == cells[i := s] && cells[i + 1..] == r
    ensures cells'[i..] == [s] + r
  {
  }

  /** `bzla_aigvec_add` after the operands were put in order: from the last cell to the
      first, the carry is threaded through the full adders. */
  method Ripple(m: Manager, av1: array<Lit>, av2: array<Lit>) returns (result: array<Lit>)
    requires m.Valid() && 0 < av1.Length == av2.Length
    requires HeldVec(m.handles, av1[..]) && HeldVec(m.handles, av2[..])
    modifies m
    ensures m.Valid() && fresh(result) && result.Length == av1.Length
    ensures m.handles == old(m.handles) + Refs(result[..])
    ensures Extends(old(m.graph), m.graph) && Within(m.graph, result[..])
    ensures forall env: Env :: Num(m.graph, result[..], env)
              == (Num(old(m.graph), av1[..], env) + Num(old(m.graph), av2[..], env)) % Pow2(av1.Length)
  {
    hide m.Valid, Eval, Val, NodeValue, Extends, NodeRef, Num, Refs, SumsSoFar, HeldVec, Within, Pow2;
    ghost var g0, h0, a, b := m.graph, m.handles, av1[..], av2[..];
    HeldWithin(m, a);
    HeldWithin(m, b);
    var w := av1.Length;
    result := new Lit[w](_ => FALSE_LIT);
    var cin := FALSE_LIT;
    var i := w;
    ghost var r: seq<Lit> := [];
    m.HandlesKnown();
    SumStart(g0, a, b, cin);
    RefsEmpty();
    NodeRefZero();
    ExtendsSelf(g0);
    WithinEmpty(g0);
    while i > 0
      invariant 0 <= i <= w && result[..][i..] == r && m.Valid() && av1[..] == a && av2[..] == b
      invariant m.handles == h0 + Refs(r) + Ref(cin)
      invariant Extends(g0, m.graph) && Within(m.graph, r) && cin.id < |m.graph|
      invariant SumsSoFar(m.graph, r, cin, g0, a[i..], b[i..])
    {
      i := i - 1;
      ghost var g := m.graph;
      HeldCell(h0, a, i, Refs(r) + Ref(cin));
      HeldCell(h0, b, i, Refs(r) + Ref(cin));
      WithinCell(g0, a, i);
      WithinCell(g0, b, i);
      var s, cout := FullAdder(m, av1[i], av2[i], cin);
      ghost var g' := m.graph;
      SumNext(g, g', g0, r, cin, s, cout, a, b, i);
      ghost var cells := result[..];
      result[i] := s;
      SetFront(cells, result[..], i, s, r);
      m.Release(cin);
      cin := cout;
      WithinCons(g, g', s, r);
      ExtendsTrans(g0, g, g');
      RefsCons(s, r);
      r := [s] + r;
    }
    assert a[0..] == a && b[0..] == b && result[..][0..] == result[..];
    SumsEnd(m.graph, r, cin, g0, a, b);
    m.Release(cin);
    assert result[..] == r;
    Cancel(m.handles, h0 + Refs(r), Ref(cin));
  }

  /** `bzla_aigvec_add`, with the option that puts the operands in a fixed order. */
  method MakeAdd(m: Manager, sortVec: bool, av1: array<Lit>, av2: array<Lit>) returns (result: array<Lit>)
    requires m.Valid() && 0 < av1.Length == av2.Length
    requires HeldVec(m.handles, av1[..]) && HeldVec(m.handles, av2[..])
    modifies m
    ensures m.Valid() && fresh(result) && result.Length == av1.Length
    ensures Made(old(m.handles), old(m.graph), m.handles, m.graph, result[..])
    ensures forall env: Env :: Num(m.graph, result[..], env)
              == BvAdd(Num(old(m.graph), av1[..], env), Num(old(m.graph), av2[..], env), av1.Length)
  {
    hide m.Valid, Num, Extends, Within, HeldVec, Refs;
    var order := CompareVec(av1, av2);
    if sortVec && order > 0 {
      result := Ripple(m, av2, av1);
    } else {
      result := Ripple(m, av1, av2);
    }
  }
}
