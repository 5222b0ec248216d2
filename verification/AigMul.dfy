/** Shift-add multiplication on AIG vectors (src/bzlaaigvec.c:625-673). */
module AigMul {
  import opened Arith
  import opened BvRef
  import opened AigGraph
  import opened References
  import opened AigManager
  import opened AigGates
  import opened AigAdder
  import opened AigNum
  import opened AigVector
  import opened AigLogic

  /** The low cells of one row so far: old row plus the masked multiplicand. */
  ghost predicate RowSoFar(g: Graph, r: seq<Lit>, cin: Lit, g0: Graph, row: seq<Lit>, a: seq<Lit>, bit: Lit, env: Env) {
    Num(g, r, env) + Weigh(Val(g, cin, env), Pow2(|r|)) == Num(g0, row, env) + Weigh(Val(g0, bit, env), Num(g0, a, env))
  }

  lemma {:induction false} RowStep(g: Graph, g': Graph, g0: Graph, r: seq<Lit>, cin: Lit, s: Lit, cout: Lit,
        row: seq<Lit>, a: seq<Lit>, bit: Lit, x: Lit, y: Lit, andVal: nat, env: Env)
    requires RowSoFar(g, r, cin, g0, row, a, bit, env) && |row| == |a| == |r|
    requires Extends(g, g') && Within(g, r)
    requires andVal == AndBit(Val(g0, y, env), Val(g0, bit, env))
    requires Val(g', s, env) + 2 * Val(g', cout, env) == Val(g0, x, env) + andVal + Val(g, cin, env)
    ensures RowSoFar(g', [s] + r, cout, g0, [x] + row, [y] + a, bit, env)
  {
    hide Extends, Eval, Num, Within, Pow2, Val, Weigh;
    NumCons(g', s, r, env);
    NumCons(g0, x, row, env);
    NumCons(g0, y, a, env);
    NumExtends(g, g', r, env);
    Column(Pow2(|r|), Val(g', s, env), Val(g', cout, env), Val(g0, x, env), andVal, Val(g, cin, env));
    WeighAnd(Val(g0, y, env), Val(g0, bit, env), Pow2(|r|), Num(g0, a, env));
    Pow2Succ(|r|);
    assert |[s] + r| == |r| + 1;
  }

  /** The same for every assignment, from cell `j` of the row on. */
  ghost predicate RowsSoFar(g: Graph, r: seq<Lit>, cin: Lit, g0: Graph, row: seq<Lit>, low: seq<Lit>, bit: Lit, j: nat)
    requires j <= |row| == |low|
  {
    forall env: Env :: RowSoFar(g, r, cin, g0, row[j..], low[j..], bit, env)
  }

  lemma {:induction false} RowCells(g: Graph, g': Graph, g0: Graph, r: seq<Lit>, cin: Lit, s: Lit, cout: Lit,
        row: seq<Lit>, low: seq<Lit>, bit: Lit, j: nat)
    requires j < |row| == |low| && |r| == |row| - j - 1 && Extends(g0, g) && Extends(g, g') && Within(g, r)
    requires row[j].id < |g0| && low[j].id < |g0| && bit.id < |g0| && RowsSoFar(g, r, cin, g0, row, low, bit, j + 1)
    requires forall env: Env {:trigger Val(g', s, env)} ::
               Val(g', s, env) + 2 * Val(g', cout, env)
                 == Val(g, row[j], env) + AndBit(Val(g, low[j], env), Val(g, bit, env)) + Val(g, cin, env)
    ensures RowsSoFar(g', [s] + r, cout, g0, row, low, bit, j)
  {
    hide Extends, Eval, Num, Within, Val, RowSoFar, AndBit;
    var rowRest, lowRest := row[j + 1..], low[j + 1..];
    assert row[j..] == [row[j]] + rowRest && low[j..] == [low[j]] + lowRest;
    forall env: Env
      ensures RowSoFar(g', [s] + r, cout, g0, row[j..], low[j..], bit, env)
    {
      ExtendsEval(g0, g, row[j], env);
      ExtendsEval(g0, g, low[j], env);
      ExtendsEval(g0, g, bit, env);
      assert RowSoFar(g, r, cin, g0, rowRest, lowRest, bit, env);
      RowStep(g, g', g0, r, cin, s, cout, rowRest, lowRest, bit, row[j], low[j],
        AndBit(Val(g0, low[j], env), Val(g0, bit, env)), env);
    }
  }

  lemma {:induction false} WeighAnd(y: nat, bit: nat, p: nat, rest: nat)
    requires y <= 1 && bit <= 1
    ensures Weigh(bit, Weigh(y, p) + rest) == Weigh(AndBit(y, bit), p) + Weigh(bit, rest)
  {
  }

  lemma {:induction false} RowStart(g: Graph, cin: Lit, row: seq<Lit>, a: seq<Lit>, bit: Lit)
    requires |g| > 0 && g[0] == Const && cin == FALSE_LIT && |row| == |a|
    ensures RowsSoFar(g, [], cin, g, row, a, bit, |row|)
  {
    forall env: Env
      ensures RowSoFar(g, [], cin, g, row[|row|..], a[|a|..], bit, env)
    {
      EvalConst(g, cin, env);
    }
  }

  /** What one row does: the upper cells of the result take in the multiplicand, shifted
      to this row's weight, if the multiplier bit is set. */
  ghost predicate RowDone(g: Graph, r: seq<Lit>, g0: Graph, row: seq<Lit>, a: seq<Lit>, bit: Lit, env: Env) {
    Num(g, r, env) == (Num(g0, row, env) + Weigh(Val(g0, bit, env), Num(g0, a, env))) % Pow2(|r|)
  }

  ghost predicate RowAdded(g: Graph, r: seq<Lit>, g0: Graph, row: seq<Lit>, a: seq<Lit>, bit: Lit) {
    forall env: Env :: RowDone(g, r, g0, row, a, bit, env)
  }

  lemma {:induction false} RowEnd(g: Graph, r: seq<Lit>, cin: Lit, g0: Graph, row: seq<Lit>, a: seq<Lit>, bit: Lit,
        env: Env)
    requires RowSoFar(g, r, cin, g0, row, a, bit, env)
    ensures RowDone(g, r, g0, row, a, bit, env)
  {
    hide Num, Val, Weigh, Pow2;
    NumBound(g, r, env);
    ModCarry(Num(g0, row, env) + Weigh(Val(g0, bit, env), Num(g0, a, env)), Num(g, r, env), Val(g, cin, env),
      Pow2(|r|));
  }

  lemma {:induction false} RowEnds(g: Graph, r: seq<Lit>, cin: Lit, g0: Graph, row: seq<Lit>, a: seq<Lit>, bit: Lit)
    requires |row| == |a| == |r| && RowsSoFar(g, r, cin, g0, row, a, bit, 0)
    ensures RowAdded(g, r, g0, row, a, bit)
  {
    hide RowSoFar, RowDone;
    assert row[0..] == row && a[0..] == a;
    forall env: Env
      ensures RowDone(g, r, g0, row, a, bit, env)
    {
      RowEnd(g, r, cin, g0, row, a, bit, env);
    }
  }

  // ---------------------------------------------------------------- bookkeeping

  lemma {:induction false} RefsCell(v: seq<Lit>, j: nat)
    requires j < |v|
    ensures Refs(v) == Refs(v[j := FALSE_LIT]) + Ref(v[j])
  {
    RefsUpdate(v, j, FALSE_LIT);
    NodeRefZero();
  }

  lemma {:induction false} RefsUpdate(v: seq<Lit>, j: nat, x: Lit)
    requires j < |v|
    ensures Refs(v[j := x]) + Ref(v[j]) == Refs(v) + Ref(x)
  {
    hide Refs, NodeRef;
    RefsConcat(v[..j] + [v[j]], v[j + 1..]);
    RefsConcat(v[..j] + [x], v[j + 1..]);
    RefsPush(v[..j], v[j]);
    RefsPush(v[..j], x);
    assert v == (v[..j] + [v[j]]) + v[j + 1..];
    assert v[j := x] == (v[..j] + [x]) + v[j + 1..];
  }

  lemma {:induction false} RefsWithin(m: Manager, v: seq<Lit>, base: multiset<nat>)
    requires m.Valid() && m.handles == base + Refs(v)
    ensures Within(m.graph, v)
  {
    hide m.Valid, Refs, NodeRef;
    m.HandlesKnown();
    forall j | 0 <= j < |v|
      ensures v[j].id < |m.graph|
    {
      RefsCell(v, j);
    }
  }

  /** Replacing one cell: the new cell and carry are taken in, the old ones given back. */
  lemma {:induction false} CellSwapped(h0: multiset<nat>, h1: multiset<nat>, h2: multiset<nat>, h3: multiset<nat>,
        h4: multiset<nat>, h5: multiset<nat>, base: multiset<nat>, old_: multiset<nat>, new_: multiset<nat>,
        conj: multiset<nat>, s: multiset<nat>, c: multiset<nat>, cell: multiset<nat>, cin: multiset<nat>)
    requires h0 == base + old_ + cin && new_ + cell == old_ + s && h1 == h0 + conj && h2 == h1 + s + c
    requires h3 + conj == h2 && h4 + cell == h3 && h5 + cin == h4
    ensures h5 == base + new_ + c
  {
    forall i: nat
      ensures h5[i] == (base + new_ + c)[i]
    {
      assert h0[i] == (base + old_ + cin)[i] && (new_ + cell)[i] == (old_ + s)[i];
      assert h1[i] == (h0 + conj)[i] && h2[i] == (h1 + s + c)[i];
      assert (h3 + conj)[i] == h2[i] && (h4 + cell)[i] == h3[i] && (h5 + cin)[i] == h4[i];
    }
  }

  // ---------------------------------------------------------------- the multiplier

  /** One cell of a row: add the masked multiplicand bit and the carry into cell `j`. */
  method AddCell(m: Manager, y: Lit, bit: Lit, res: array<Lit>, j: nat, cin: Lit, ghost base: multiset<nat>)
    returns (cout: Lit)
    requires m.Valid() && j < res.Length && m.handles == base + Refs(res[..]) + Ref(cin)
    requires Held(base, y) && Held(base, bit)
    modifies m, res
    ensures m.Valid() && m.handles == base + Refs(res[..]) + Ref(cout)
    ensures res[..] == old(res[..])[j := res[j]]
    ensures Extends(old(m.graph), m.graph) && res[j].id < |m.graph| && cout.id < |m.graph|
    ensures forall env: Env {:trigger Val(m.graph, res[j], env)} ::
            Val(m.graph, res[j], env) + 2 * Val(m.graph, cout, env)
              == Val(old(m.graph), old(res[j]), env) + AndBit(Val(old(m.graph), y, env),
              Val(old(m.graph), bit, env)) + Val(old(m.graph), cin, env)
  {
    hide m.Valid, Eval, Val, NodeValue, Extends, NodeRef, Refs;
    ghost var g0, h0, v := m.graph, m.handles, res[..];
    m.HandlesKnown();
    RefsCell(v, j);
    var conj := m.MakeAnd(y, bit);
    ghost var g1, h1 := m.graph, m.handles;
    var tmp := res[j];
    var s;
    s, cout := FullAdder(m, tmp, conj, cin);
    ghost var h2 := m.handles;
    res[j] := s;
    assert res[..] == v[j := s];
    RefsUpdate(v, j, s);
    m.Release(conj);
    ghost var h3 := m.handles;
    m.Release(tmp);
    ghost var h4 := m.handles;
    m.Release(cin);
    CellSwapped(h0, h1, h2, h3, h4, m.handles, base, Refs(v), Refs(v[j := s]), Ref(conj), Ref(s), Ref(cout), Ref(tmp),
      Ref(cin));
    ExtendsTrans(g0, g1, m.graph);
    forall env: Env
      ensures Val(m.graph, s, env) + 2 * Val(m.graph, cout, env)
              == Val(g0, v[j], env) + AndBit(Val(g0, y, env), Val(g0, bit, env)) + Val(g0, cin, env)
    {
      AndValue(g1, conj, g0, y, bit, env);
      ExtendsEval(g0, g1, v[j], env);
      ExtendsEval(g0, g1, cin, env);
    }
  }

  lemma {:induction false} SetCell(row: seq<Lit>, j: nat, r: seq<Lit>, rest: seq<Lit>, s: Lit)
    requires j < |row|
    ensures (row[..j + 1] + r + rest)[j := s] == row[..j] + ([s] + r) + rest
  {
  }

  /** One round of `mul_aigvec`: add the multiplicand into the cells 0..i, from cell i up. */
  method AddRow(m: Manager, a: array<Lit>, bit: Lit, res: array<Lit>, i: nat, ghost base: multiset<nat>)
    requires m.Valid() && a.Length == res.Length && a != res && i < res.Length
    requires m.handles == base + Refs(res[..]) && HeldVec(base, a[..]) && Held(base, bit)
    modifies m, res
    ensures m.Valid() && m.handles == base + Refs(res[..]) && res[i + 1..] == old(res[i + 1..])
    ensures Extends(old(m.graph), m.graph) && Within(m.graph, res[..])
    ensures RowAdded(m.graph, res[..i + 1], old(m.graph), old(res[..i + 1]), old(a[..])[a.Length - 1 - i..], bit)
  {
    hide m.Valid, Eval, Val, NodeValue, Extends, NodeRef, Num, Refs, RowSoFar, RowsSoFar, RowDone, HeldVec, Within;
    var w := a.Length;
    ghost var g0, av, row, rest := m.graph, a[..], res[..i + 1], res[i + 1..];
    ghost var low := av[w - 1 - i..];
    m.HandlesKnown();
    ghost var all := res[..];
    RefsWithin(m, all, base);
    HeldSum(base, Refs(all), av);
    HeldWithin(m, av);
    ExtendsSelf(g0);
    NodeRefZero();
    WithinEmpty(g0);
    var cout := FALSE_LIT;
    RowStart(g0, cout, row, low, bit);
    ghost var r: seq<Lit> := [];
    var j := i + 1;
    assert res[..] == row[..j] + r + rest && |row| == j == |low|;
    while j > 0
      invariant 0 <= j <= i + 1 && m.Valid() && a[..] == av
      invariant res[..] == row[..j] + r + rest
      invariant m.handles == base + Refs(res[..]) + Ref(cout)
      invariant Extends(g0, m.graph) && Within(m.graph, r) && cout.id < |m.graph|
      invariant RowsSoFar(m.graph, r, cout, g0, row, low, bit, j)
    {
      j := j - 1;
      ghost var g, cin := m.graph, cout;
      HeldCell(base, av, w - 1 - i + j, multiset{});
      WithinCell(g0, av, w - 1 - i + j);
      WithinCell(g0, all, j);
      ghost var v := res[..];
      cout := AddCell(m, a[w - 1 - i + j], bit, res, j, cout, base);
      ghost var s := res[j];
      assert res[..] == v[j := s];
      SetCell(row, j, r, rest, s);
      RowCells(g, m.graph, g0, r, cin, s, cout, row, low, bit, j);
      WithinCons(g, m.graph, s, r);
      ExtendsTrans(g0, g, m.graph);
      r := [s] + r;
    }
    assert res[..i + 1] == r;
    RowEnds(m.graph, r, cout, g0, row, low, bit);
    m.Release(cout);
    Cancel(m.handles, base + Refs(res[..]), Ref(cout));
    RefsWithin(m, res[..], base);
  }

  lemma {:induction false} HeldSum(base: multiset<nat>, more: multiset<nat>, v: seq<Lit>)
    requires HeldVec(base, v)
    ensures HeldVec(base + more, v)
  {
  }

  /** The first row masks the multiplicand with the lowest multiplier bit. */
  ghost predicate Masked(g: Graph, r: seq<Lit>, g0: Graph, a: seq<Lit>, bit: Lit, env: Env) {
    Num(g, r, env) == Weigh(Val(g0, bit, env), Num(g0, a, env))
  }

  lemma {:induction false} MaskStep(g: Graph, g': Graph, r: seq<Lit>, x: Lit, g0: Graph, a: seq<Lit>, bit: Lit,
        y: Lit, env: Env)
    requires Masked(g, r, g0, a, bit, env) && Extends(g, g') && Within(g, r)
    requires Val(g', x, env) == AndBit(Val(g0, y, env), Val(g0, bit, env))
    ensures Masked(g', r + [x], g0, a + [y], bit, env)
  {
    hide Num, Val, Extends, Within;
    NumExtends(g, g', r, env);
    NumSnoc(g', r, x, env);
    NumSnoc(g0, a, y, env);
  }

  method FirstRow(m: Manager, a: array<Lit>, bit: Lit) returns (res: array<Lit>)
    requires m.Valid() && HeldVec(m.handles, a[..]) && Held(m.handles, bit)
    modifies m
    ensures m.Valid() && fresh(res) && res.Length == a.Length
    ensures Made(old(m.handles), old(m.graph), m.handles, m.graph, res[..])
    ensures forall env: Env :: Masked(m.graph, res[..], old(m.graph), old(a[..]), bit, env)
  {
    hide m.Valid, Eval, Val, NodeValue, Extends, NodeRef, Num, Refs, Masked, HeldVec, Within;
    ghost var g0, h0, av := m.graph, m.handles, a[..];
    m.HandlesKnown();
    HeldWithin(m, av);
    RefsEmpty();
    ExtendsSelf(g0);
    WithinEmpty(g0);
    MaskStart(g0, av, bit);
    res := new Lit[a.Length](_ => FALSE_LIT);
    ghost var r: seq<Lit> := [];
    for k := 0 to a.Length
      invariant res[..k] == r && m.Valid() && a[..] == av
      invariant m.handles == h0 + Refs(r)
      invariant Extends(g0, m.graph) && Within(m.graph, r)
      invariant forall env: Env :: Masked(m.graph, r, g0, av[..k], bit, env)
    {
      ghost var g := m.graph;
      HeldCell(h0, av, k, Refs(r));
      WithinCell(g0, av, k);
      var x := m.MakeAnd(a[k], bit);
      ghost var r', a' := r + [x], av[..k + 1];
      forall env: Env
        ensures Masked(m.graph, r', g0, a', bit, env)
      {
        assert a' == av[..k] + [av[k]];
        AndValue(m.graph, x, g, av[k], bit, env);
        ExtendsEval(g0, g, av[k], env);
        ExtendsEval(g0, g, bit, env);
        MaskStep(g, m.graph, r, x, g0, av[..k], bit, av[k], env);
      }
      res[k] := x;
      WithinSnoc(g, m.graph, r, x);
      ExtendsTrans(g0, g, m.graph);
      RefsPush(r, x);
      r := r + [x];
    }
    assert av[..a.Length] == av && res[..a.Length] == res[..];
  }

  lemma {:induction false} MaskStart(g: Graph, a: seq<Lit>, bit: Lit)
    ensures forall env: Env :: Masked(g, [], g, a[..0], bit, env)
  {
  }

  /** The arithmetic of one row: with L the finished low cells and H the others, adding the
      low part of A into H where the multiplier bit is set multiplies by one more bit. */
  lemma {:induction false} MulStep(A: nat, up: nat, low: nat, B: nat, bit: nat, H: nat, L: nat, H': nat, P: nat, S: nat)
    requires P > 0 && L < S && H < P && A == up * P + low
    requires H * S + L == (A * B) % (P * S) && H' == (H + Weigh(bit, low)) % P
    ensures H' * S + L == (A * (Weigh(bit, S) + B)) % (P * S)
  {
    if bit == 0 {
      DivModUnique(H, P, 0, H);
    } else {
      var W := P * S;
      var q := Divide(A * B, W);
      var k := Divide(H + low, P);
      MulRow(A, up, low, B, H, L, H', q, k, P, S, W);
      RowFits(H', L, P, S);
      DivModUnique(A * (S + B), W, up + q + k, H' * S + L);
    }
  }

  lemma {:induction false} MulRow(A: nat, up: nat, low: nat, B: nat, H: nat, L: nat, H': nat, q: nat, k: nat, P: nat,
        S: nat, W: nat)
    requires W == P * S && A == up * P + low && H + low == k * P + H' && A * B == q * W + (H * S + L)
    ensures A * (S + B) == (up + q + k) * W + (H' * S + L)
  {
    calc {
      A * (S + B);
    == { Distribute(A, S, B); }
      A * S + A * B;
    == { Spread(up, P, low, S); }
      up * W + low * S + q * W + H * S + L;
    == { Distribute(S, H, low); }
      up * W + q * W + (H + low) * S + L;
    == { Spread(k, P, H', S); }
      up * W + q * W + k * W + H' * S + L;
    == { Gather(up, q, k, W); }
      (up + q + k) * W + (H' * S + L);
    }
  }

  lemma {:induction false} Spread(a: nat, P: nat, b: nat, S: nat)
    ensures (a * P + b) * S == a * (P * S) + b * S
  {
    Distribute(S, a * P, b);
    Associate(a, P, S);
  }

  lemma {:induction false} Gather(a: nat, b: nat, c: nat, W: nat)
    ensures (a + b + c) * W == a * W + b * W + c * W
  {
  }

  lemma {:induction false} RowFits(H: nat, L: nat, P: nat, S: nat)
    requires H < P && L < S
    ensures H * S + L < P * S
  {
    MulMono(H + 1, P, S);
    Distribute(S, H, 1);
  }

  /** The product with the multiplier bits from cell `i` on. */
  ghost predicate ProductSoFar(g: Graph, r: seq<Lit>, g0: Graph, a: seq<Lit>, b: seq<Lit>, env: Env) {
    Num(g, r, env) == BvMul(Num(g0, a, env), Num(g0, b, env), |r|)
  }

  lemma {:induction false} ProductStart(g: Graph, r: seq<Lit>, g0: Graph, a: seq<Lit>, bit: Lit, env: Env)
    requires |r| == |a| && Masked(g, r, g0, a, bit, env)
    ensures ProductSoFar(g, r, g0, a, [bit], env)
  {
    hide Num, Val, Pow2;
    NumOne(g0, bit, env);
    NumBound(g0, a, env);
    DivModUnique(Num(g0, a, env), Pow2(|r|), 0, Num(g0, a, env));
    DivModUnique(0, Pow2(|r|), 0, 0);
  }

  lemma {:induction false} ProductStep(g: Graph, r: seq<Lit>, g': Graph, r': seq<Lit>, g0: Graph, a: seq<Lit>,
        b: seq<Lit>, bit: Lit, env: Env)
    requires |r| == |r'| == |a| && 0 < |b| < |a|
    requires Extends(g0, g) && Extends(g, g') && Within(g0, a) && Within(g, r) && bit.id < |g0|
    requires ProductSoFar(g, r, g0, a, b, env)
    requires var n := |a| - |b|; r'[n..] == r[n..] && RowDone(g', r'[..n], g, r[..n], a[|b|..], bit, env)
    ensures ProductSoFar(g', r', g0, a, [bit] + b, env)
  {
    hide Num, Val, Pow2, Extends;
    var n, s := |a| - |b|, |b|;
    var low, up := a[s..], a[..s];
    NumExtends(g0, g, low, env);
    ExtendsEval(g0, g, bit, env);
    NumExtends(g, g', r[n..], env);
    assert r == r[..n] + r[n..] && r' == r'[..n] + r'[n..] && a == up + low;
    NumConcat(g, r[..n], r[n..], env);
    NumConcat(g', r'[..n], r'[n..], env);
    NumConcat(g0, up, low, env);
    NumCons(g0, bit, b, env);
    NumBound(g, r[..n], env);
    NumBound(g, r[n..], env);
    Pow2Add(n, s);
    MulStep(Num(g0, a, env), Num(g0, up, env), Num(g0, low, env), Num(g0, b, env), Val(g0, bit, env),
            Num(g, r[..n], env), Num(g, r[n..], env), Num(g', r'[..n], env), Pow2(n), Pow2(s));
  }

  /** `mul_aigvec` after the operands were put in order. */
  method MulRows(m: Manager, a: array<Lit>, b: array<Lit>) returns (res: array<Lit>)
    requires m.Valid() && 0 < a.Length == b.Length && HeldVec(m.handles, a[..]) && HeldVec(m.handles, b[..])
    modifies m
    ensures m.Valid() && fresh(res) && res.Length == a.Length
    ensures Made(old(m.handles), old(m.graph), m.handles, m.graph, res[..])
    ensures forall env: Env :: Num(m.graph, res[..], env)
              == BvMul(Num(old(m.graph), a[..], env), Num(old(m.graph), b[..], env), a.Length)
  {
    hide m.Valid, Eval, Val, NodeValue, Extends, NodeRef, Num, Refs, Masked, HeldVec, Within, ProductSoFar, RowAdded;
    hide RowDone;
    var w := a.Length;
    ghost var g0, h0, av, bv := m.graph, m.handles, a[..], b[..];
    HeldWithin(m, av);
    HeldWithin(m, bv);
    HeldCell(h0, bv, w - 1, multiset{});
    res := FirstRow(m, a, b[w - 1]);
    ghost var r, last := res[..], bv[w - 1..];
    forall env: Env
      ensures ProductSoFar(m.graph, r, g0, av, last, env)
    {
      assert last == [bv[w - 1]];
      ProductStart(m.graph, r, g0, av, bv[w - 1], env);
    }
    var i := w - 1;
    while i > 0
      invariant 0 <= i < w && m.Valid() && a[..] == av && b[..] == bv && res[..] == r
      invariant m.handles == h0 + Refs(r)
      invariant Extends(g0, m.graph) && Within(m.graph, r)
      invariant forall env: Env :: ProductSoFar(m.graph, r, g0, av, bv[i..], env)
    {
      i := i - 1;
      ghost var g := m.graph;
      HeldCell(h0, bv, i, multiset{});
      WithinCell(g0, bv, i);
      assert res[..i + 1] == r[..i + 1] && res[i + 1..] == r[i + 1..];
      AddRow(m, a, b[i], res, i, h0);
      ghost var r' := res[..];
      assert r'[..i + 1] == res[..i + 1] && r'[i + 1..] == res[i + 1..];
      forall env: Env
        ensures ProductSoFar(m.graph, r', g0, av, bv[i..], env)
      {
        assert bv[i..] == [bv[i]] + bv[i + 1..];
        RowOf(m.graph, r'[..i + 1], g, r[..i + 1], av[w - 1 - i..], bv[i], env);
        ProductStep(g, r, m.graph, r', g0, av, bv[i + 1..], bv[i], env);
      }
      ExtendsTrans(g0, g, m.graph);
      r := r';
    }
    assert bv[0..] == bv;
    forall env: Env
      ensures Num(m.graph, res[..], env) == BvMul(Num(g0, av, env), Num(g0, bv, env), w)
    {
      assert ProductSoFar(m.graph, r, g0, av, bv, env);
      ProductOf(m.graph, r, g0, av, bv, env);
    }
  }

  lemma {:induction false} RowOf(g: Graph, r: seq<Lit>, g0: Graph, row: seq<Lit>, a: seq<Lit>, bit: Lit, env: Env)
    requires RowAdded(g, r, g0, row, a, bit)
    ensures RowDone(g, r, g0, row, a, bit, env)
  {
  }

  lemma {:induction false} ProductOf(g: Graph, r: seq<Lit>, g0: Graph, a: seq<Lit>, b: seq<Lit>, env: Env)
    requires ProductSoFar(g, r, g0, a, b, env)
    ensures Num(g, r, env) == BvMul(Num(g0, a, env), Num(g0, b, env), |r|)
  {
  }

  /** `bzla_aigvec_mul`, with the option that puts the operands in a fixed order. */
  method MakeMul(m: Manager, sortVec: bool, a: array<Lit>, b: array<Lit>) returns (res: array<Lit>)
    requires m.Valid() && 0 < a.Length == b.Length && HeldVec(m.handles, a[..]) && HeldVec(m.handles, b[..])
    modifies m
    ensures m.Valid() && fresh(res) && res.Length == a.Length
    ensures Made(old(m.handles), old(m.graph), m.handles, m.graph, res[..])
    ensures forall env: Env :: Num(m.graph, res[..], env)
              == BvMul(Num(old(m.graph), a[..], env), Num(old(m.graph), b[..], env), a.Length)
  {
    hide m.Valid, Num, Made, HeldVec;
    var order := CompareVec(a, b);
    if sortVec && order > 0 {
      res := MulRows(m, b, a);
    } else {
      res := MulRows(m, a, b);
    }
  }
}
