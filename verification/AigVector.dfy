/** The simple operations on AIG vectors (src/bzlaaigvec.c:24-290, 825-954).

    A vector is an array of literals, most significant bit first, that owns one
    reference per cell.
 */
module AigVector {
  import opened Arith
  import opened BvRef
  import opened AigGraph
  import opened References
  import opened AigManager
  import opened AigGates
  import opened AigNum

  function Inverted(v: seq<Lit>): (r: seq<Lit>)
    ensures |r| == |v| && forall i :: 0 <= i < |v| ==> r[i] == Not(v[i])
  {
    seq(|v|, i requires 0 <= i < |v| => Not(v[i]))
  }

  // ---------------------------------------------------------------- meaning of cells

  lemma {:induction false} ValNot(g: Graph, l: Lit, env: Env)
    ensures Val(g, Not(l), env) == 1 - Val(g, l, env)
  {
    EvalNot(g, l, env);
  }

  /** Inverting every cell is bitwise negation. */
  lemma {:induction false} NumInverted(g: Graph, v: seq<Lit>, env: Env)
    ensures Num(g, Inverted(v), env) == BvNot(Num(g, v, env), |v|)
  {
    if |v| > 0 {
      assert Inverted(v)[1..] == Inverted(v[1..]);
      NumInverted(g, v[1..], env);
      NumBound(g, v[1..], env);
      ValNot(g, v[0], env);
    }
  }

  lemma {:induction false} NumSlice(g: Graph, v: seq<Lit>, i: nat, j: nat, env: Env)
    requires i < j <= |v|
    ensures Num(g, v[i..j], env) == BvSlice(Num(g, v, env), |v| - 1 - i, |v| - j)
  {
    hide Num, Pow2;
    var u, s, t := v[..i], v[i..j], v[j..];
    assert v == (u + s) + t;
    NumConcat(g, u + s, t, env);
    NumConcat(g, u, s, env);
    NumBound(g, t, env);
    NumBound(g, s, env);
    DivModUnique(Num(g, v, env), Pow2(|t|), Num(g, u + s, env), Num(g, t, env));
    DivModUnique(Num(g, u + s, env), Pow2(|s|), Num(g, u, env), Num(g, s, env));
  }

  lemma {:induction false} NumConsts(g: Graph, v: seq<Lit>, env: Env)
    requires |g| > 0 && g[0] == Const && forall i :: 0 <= i < |v| ==> v[i] == FALSE_LIT
    ensures Num(g, v, env) == 0
  {
    if |v| > 0 {
      EvalConst(g, v[0], env);
      NumConsts(g, v[1..], env);
    }
  }

  // ---------------------------------------------------------------- bookkeeping

  /** Copy every given cell into a new vector (`bzla_aigvec_copy`, and with inverted or
      selected cells the body of `bzla_aigvec_not`, `_slice` and `_concat`). */
  method CopyCells(m: Manager, cells: seq<Lit>) returns (result: array<Lit>)
    requires m.Valid() && HeldVec(m.handles, cells)
    modifies m
    ensures m.Valid() && fresh(result) && result[..] == cells
    ensures m.graph == old(m.graph) && Made(old(m.handles), old(m.graph), m.handles, m.graph, cells)
  {
    hide m.Valid, NodeRef, Refs, Within, HeldVec;
    ghost var h0, g0 := m.handles, m.graph;
    HeldWithin(m, cells);
    ExtendsSelf(g0);
    RefsEmpty();
    result := new Lit[|cells|](_ => FALSE_LIT);
    for i := 0 to |cells|
      invariant m.Valid() && m.graph == g0
      invariant result[..i] == cells[..i]
      invariant m.handles == h0 + Refs(cells[..i])
    {
      HeldCell(h0, cells, i, Refs(cells[..i]));
      result[i] := m.Copy(cells[i]);
      RefsPush(cells[..i], cells[i]);
      assert cells[..i + 1] == cells[..i] + [cells[i]];
    }
    assert cells[..|cells|] == cells;
  }

  /** `bzla_aigvec_release_delete` */
  method ReleaseVec(m: Manager, av: array<Lit>)
    requires m.Valid() && Refs(av[..]) <= m.handles
    modifies m
    ensures m.Valid() && m.graph == old(m.graph)
    ensures m.handles + Refs(av[..]) == old(m.handles)
  {
    hide m.Valid, NodeRef, Refs;
    ghost var h0, cells := m.handles, av[..];
    RefsEmpty();
    for i := 0 to av.Length
      invariant m.Valid() && m.graph == old(m.graph) && av[..] == cells
      invariant m.handles + Refs(cells[..i]) == h0
    {
      RefsPush(cells[..i], cells[i]);
      RefsPart(m.handles, h0, cells, i);
      m.Release(av[i]);
      assert cells[..i + 1] == cells[..i] + [cells[i]];
    }
    assert cells[..av.Length] == cells;
  }

  /** Release a vector made on top of `h`, while the references `kept` made since then stay. */
  method ReleaseLast(m: Manager, av: array<Lit>, ghost h: multiset<nat>, ghost kept: multiset<nat>)
    requires m.Valid() && m.handles == h + Refs(av[..]) + kept
    modifies m
    ensures m.Valid() && m.graph == old(m.graph) && m.handles == h + kept
  {
    hide m.Valid, Refs;
    ReleaseVec(m, av);
    Cancel(m.handles, h + kept, Refs(av[..]));
  }

  lemma {:induction false} RefsPart(h: multiset<nat>, h0: multiset<nat>, v: seq<Lit>, i: nat)
    requires i < |v| && Refs(v) <= h0 && h + Refs(v[..i]) == h0
    ensures Ref(v[i]) <= h
  {
    hide Refs, NodeRef;
    assert v == (v[..i] + [v[i]]) + v[i + 1..];
    RefsConcat(v[..i] + [v[i]], v[i + 1..]);
    RefsPush(v[..i], v[i]);
    MiddlePart(h, Refs(v[..i]), Ref(v[i]), Refs(v[i + 1..]), h0);
  }

  lemma {:induction false} MiddlePart(h: multiset<nat>, x: multiset<nat>, r: multiset<nat>, t: multiset<nat>,
        h0: multiset<nat>)
    requires h + x == h0 && x + r + t <= h0
    ensures r <= h
  {
    forall i: nat
      ensures r[i] <= h[i]
    {
      assert (x + r + t)[i] <= h0[i];
      assert (h + x)[i] == h0[i];
    }
  }

  /** `bzla_aigvec_invert`: flip every cell in place; no reference changes. */
  method Invert(av: array<Lit>)
    modifies av
    ensures av[..] == Inverted(old(av[..]))
  {
    var i := 0;
    while i < av.Length
      invariant 0 <= i <= av.Length
      invariant forall j :: 0 <= j < i ==> av[j] == Not(old(av[j]))
      invariant forall j :: i <= j < av.Length ==> av[j] == old(av[j])
    {
      av[i] := Not(av[i]);
      i := i + 1;
    }
  }

  /** Inverting twice restores the vector. */
  lemma {:induction false} InvertedTwice(v: seq<Lit>)
    ensures Inverted(Inverted(v)) == v
  {
  }

  lemma {:induction false} RefsInverted(v: seq<Lit>)
    ensures Refs(Inverted(v)) == Refs(v)
  {
    if |v| > 0 {
      assert Inverted(v)[..|v| - 1] == Inverted(v[..|v| - 1]);
      RefsInverted(v[..|v| - 1]);
    }
  }

  /** What inverting a vector in place does to its holder. */
  lemma {:induction false} InvertedKeeps(h: multiset<nat>, g: Graph, v: seq<Lit>, u: seq<Lit>)
    requires HeldVec(h, v) && Within(g, v) && u == Inverted(v)
    ensures HeldVec(h, u) && Within(g, u) && Refs(u) == Refs(v)
    ensures forall env: Env {:trigger Num(g, u, env)} :: Num(g, u, env) == BvNot(Num(g, v, env), |v|)
  {
    hide NodeRef, Num;
    RefsInverted(v);
    forall env: Env
      ensures Num(g, u, env) == BvNot(Num(g, v, env), |v|)
    {
      NumInverted(g, v, env);
    }
    forall i | 0 <= i < |u|
      ensures Ref(u[i]) <= h && u[i].id < |g|
    {
      assert u[i] == Not(v[i]);
      hide Inverted;
      assert Ref(v[i]) <= h;
    }
  }

  // ---------------------------------------------------------------- copies

  /** `bzla_aigvec_copy` */
  method Copy(m: Manager, av: array<Lit>) returns (result: array<Lit>)
    requires m.Valid() && HeldVec(m.handles, av[..])
    modifies m
    ensures m.Valid() && fresh(result) && result[..] == av[..]
    ensures m.graph == old(m.graph) && Made(old(m.handles), old(m.graph), m.handles, m.graph, result[..])
  {
    result := CopyCells(m, av[..]);
  }

  /** `bzla_aigvec_not` */
  method MakeNot(m: Manager, av: array<Lit>) returns (result: array<Lit>)
    requires m.Valid() && HeldVec(m.handles, av[..])
    modifies m
    ensures m.Valid() && fresh(result) && result.Length == av.Length && result[..] == Inverted(av[..])
    ensures m.graph == old(m.graph) && Made(old(m.handles), old(m.graph), m.handles, m.graph, result[..])
    ensures forall env: Env :: Num(m.graph, result[..], env) == BvNot(Num(old(m.graph), av[..], env), av.Length)
  {
    hide m.Valid, Num, Refs, Within, NodeRef;
    result := CopyCells(m, Inverted(av[..]));
    forall env: Env
      ensures Num(m.graph, result[..], env) == BvNot(Num(old(m.graph), av[..], env), av.Length)
    {
      NumInverted(m.graph, av[..], env);
    }
  }

  /** `bzla_aigvec_slice` */
  method MakeSlice(m: Manager, av: array<Lit>, upper: nat, lower: nat) returns (result: array<Lit>)
    requires m.Valid() && HeldVec(m.handles, av[..]) && lower <= upper < av.Length
    modifies m
    ensures m.Valid() && fresh(result) && result.Length == upper - lower + 1
    ensures m.graph == old(m.graph) && Made(old(m.handles), old(m.graph), m.handles, m.graph, result[..])
    ensures result[..] == av[..][av.Length - 1 - upper..av.Length - lower]
    ensures forall env: Env :: Num(m.graph, result[..], env) == BvSlice(Num(old(m.graph), av[..], env), upper, lower)
  {
    hide m.Valid, Num, Refs, Within, NodeRef, BvSlice;
    var w := av.Length;
    result := CopyCells(m, av[..][w - 1 - upper..w - lower]);
    forall env: Env
      ensures Num(m.graph, result[..], env) == BvSlice(Num(old(m.graph), av[..], env), upper, lower)
    {
      NumSlice(m.graph, av[..], w - 1 - upper, w - lower, env);
    }
  }

  /** `bzla_aigvec_concat` */
  method MakeConcat(m: Manager, av1: array<Lit>, av2: array<Lit>) returns (result: array<Lit>)
    requires m.Valid() && HeldVec(m.handles, av1[..]) && HeldVec(m.handles, av2[..])
    modifies m
    ensures m.Valid() && fresh(result) && result.Length == av1.Length + av2.Length
    ensures m.graph == old(m.graph) && Made(old(m.handles), old(m.graph), m.handles, m.graph, result[..])
    ensures result[..] == av1[..] + av2[..]
    ensures forall env: Env :: Num(m.graph, result[..], env)
              == BvConcat(Num(old(m.graph), av1[..], env), Num(old(m.graph), av2[..], env), av2.Length)
  {
    hide m.Valid, Num, Refs, Within, NodeRef;
    result := CopyCells(m, av1[..] + av2[..]);
    forall env: Env
      ensures Num(m.graph, result[..], env)
              == BvConcat(Num(m.graph, av1[..], env), Num(m.graph, av2[..], env), av2.Length)
    {
      NumConcat(m.graph, av1[..], av2[..], env);
    }
  }

  /** `bzla_aigvec_zero`: constants carry no references. */
  method MakeZero(m: Manager, width: nat) returns (result: array<Lit>)
    requires m.Valid()
    ensures fresh(result) && result.Length == width
    ensures Made(m.handles, m.graph, m.handles, m.graph, result[..])
    ensures forall i :: 0 <= i < width ==> result[i] == FALSE_LIT
    ensures forall env: Env :: Num(m.graph, result[..], env) == 0
  {
    hide m.Valid, Num, NodeRef, Refs;
    result := new Lit[width](_ => FALSE_LIT);
    m.HandlesKnown();
    ExtendsSelf(m.graph);
    RefsConsts(result[..]);
    forall env: Env
      ensures Num(m.graph, result[..], env) == 0
    {
      NumConsts(m.graph, result[..], env);
    }
  }

  lemma {:induction false} RefsConsts(v: seq<Lit>)
    requires forall i :: 0 <= i < |v| ==> v[i].id == 0
    ensures Refs(v) == multiset{}
  {
    if |v| > 0 { RefsConsts(v[..|v| - 1]); }
  }

  // ---------------------------------------------------------------- constants and variables

  /** The bit of weight 2^k. */
  function BitAt(a: nat, k: nat): nat { a / Pow2(k) % 2 }

  /** The cells of the constant `bits` from the most significant one on, `n` of them still below. */
  ghost predicate ConstCells(v: seq<Lit>, bits: nat, n: nat) {
    forall i :: 0 <= i < |v| ==> v[i] == if BitAt(bits, |v| - 1 - i + n) == 1 then TRUE_LIT else FALSE_LIT
  }

  lemma {:induction false} ConstTail(v: seq<Lit>, bits: nat)
    requires |v| > 0 && ConstCells(v, bits, 0)
    ensures ConstCells(v[1..], bits % Pow2(|v| - 1), 0)
    ensures v[0] == if BitAt(bits, |v| - 1) == 1 then TRUE_LIT else FALSE_LIT
  {
    var w := |v| - 1;
    forall i | 0 <= i < w
      ensures v[1..][i] == if BitAt(bits % Pow2(w), w - 1 - i) == 1 then TRUE_LIT else FALSE_LIT
    {
      LowBit(bits, w, w - 1 - i);
    }
    hide BitAt;
  }

  lemma {:induction false} TopBit(bits: nat, w: nat)
    requires bits < Pow2(w + 1)
    ensures BitAt(bits, w) <= 1 && bits == Weigh(BitAt(bits, w), Pow2(w)) + bits % Pow2(w) && bits % Pow2(w) < Pow2(w)
  {
    var high := Arith.Divide(bits, Pow2(w));
    DivBelow(bits, 2, Pow2(w));
    assert high <= 1 && high % 2 == high;
  }

  lemma {:induction false} NumConstCells(g: Graph, v: seq<Lit>, bits: nat, env: Env)
    requires |g| > 0 && g[0] == Const && ConstCells(v, bits, 0) && bits < Pow2(|v|)
    ensures Num(g, v, env) == bits
  {
    if |v| > 0 {
      var w := |v| - 1;
      ConstTail(v, bits);
      TopBit(bits, w);
      NumConstCells(g, v[1..], bits % Pow2(w), env);
      EvalConst(g, v[0], env);
      assert v == [v[0]] + v[1..];
      NumCons(g, v[0], v[1..], env);
      hide ConstCells, BitAt, Eval, NodeValue, Num, Pow2;
    } else {
      assert Pow2(0) == 1;
    }
  }

  /** Cutting off high bits does not change the low ones. */
  lemma {:induction false} LowBit(a: nat, w: nat, k: nat)
    requires k < w
    ensures BitAt(a % Pow2(w), k) == BitAt(a, k)
  {
    hide Pow2;
    var f := Pow2(w - k - 1);
    Pow2Succ(w - k - 1);
    Pow2Add(w - k, k);
    var q := Arith.Divide(a, (2 * f) * Pow2(k));
    CutHigh(a, q, a % Pow2(w), f, Pow2(k));
  }

  lemma {:induction false} CutHigh(a: nat, q: nat, r: nat, f: nat, d: nat)
    requires d > 0 && a == q * ((2 * f) * d) + r
    ensures r / d % 2 == a / d % 2
  {
    var p := Arith.Divide(r, d);
    calc {
      a;
    == { Associate(q, 2 * f, d); }
      (q * (2 * f)) * d + (p * d + r % d);
    == { Distribute(d, q * (2 * f), p); }
      (q * (2 * f) + p) * d + r % d;
    }
    DivModUnique(a, d, q * (2 * f) + p, r % d);
    Associate(q, f, 2);
    ModAddMultiple(p, q * f, 2);
  }

  /** `bzla_aigvec_const` */
  method MakeConst(m: Manager, bits: nat, width: nat) returns (result: array<Lit>)
    requires m.Valid() && bits < Pow2(width)
    ensures fresh(result) && result.Length == width
    ensures Made(m.handles, m.graph, m.handles, m.graph, result[..])
    ensures forall env: Env :: Num(m.graph, result[..], env) == bits
  {
    hide m.Valid, Num, NodeRef, Refs;
    result := new Lit[width](_ => FALSE_LIT);
    for i := 0 to width
      invariant forall k :: 0 <= k < i ==> result[k] == if BitAt(bits, width - 1 - k) == 1 then TRUE_LIT else FALSE_LIT
    {
      result[i] := if BitAt(bits, width - 1 - i) == 1 then TRUE_LIT else FALSE_LIT;
    }
    m.HandlesKnown();
    ExtendsSelf(m.graph);
    RefsConsts(result[..]);
    forall env: Env
      ensures Num(m.graph, result[..], env) == bits
    {
      NumConstCells(m.graph, result[..], bits, env);
    }
  }

  /** New variables, the highest id first; all of them are below `top`. */
  ghost predicate FreshVars(g: Graph, v: seq<Lit>, top: nat) {
    |v| <= top == |g| && forall k :: 0 <= k < |v| ==> v[k] == Lit(top - 1 - k, false) && g[top - 1 - k] == Var
  }

  lemma {:induction false} FreshMore(g: Graph, v: seq<Lit>, top: nat)
    requires FreshVars(g, v, top)
    ensures FreshVars(g + [Var], [Lit(top, false)] + v, top + 1)
  {
    var v' := [Lit(top, false)] + v;
    forall k | 0 <= k < |v'|
      ensures v'[k] == Lit(top - k, false) && (g + [Var])[top - k] == Var
    {
      if k > 0 {
        var j := k - 1;
        assert v'[k] == v[j] == Lit(top - 1 - j, false) && g[top - 1 - j] == Var;
        assert (g + [Var])[top - k] == g[top - 1 - j];
      }
    }
  }

  /** `bzla_aigvec_var` */
  method MakeVars(m: Manager, width: nat) returns (result: array<Lit>)
    requires m.Valid()
    modifies m
    ensures m.Valid() && fresh(result) && result.Length == width
    ensures m.handles == old(m.handles) + Refs(result[..])
    ensures Grows(old(m.graph), m.graph) && Within(m.graph, result[..])
    ensures FreshVars(m.graph, result[..], |old(m.graph)| + width)
  {
    hide m.Valid, NodeRef, Refs, Grows, Within;
    ghost var h0, g0 := m.handles, m.graph;
    GrowsSelf(g0);
    RefsEmpty();
    WithinEmpty(g0);
    result := new Lit[width](_ => FALSE_LIT);
    ghost var r: seq<Lit> := [];
    for i := 1 to width + 1
      invariant m.Valid() && |r| == i - 1 && result[width + 1 - i..] == r
      invariant m.handles == h0 + Refs(r) && Grows(g0, m.graph) && Within(m.graph, r)
      invariant FreshVars(m.graph, r, |g0| + i - 1)
    {
      ghost var g := m.graph;
      var x := m.NewVar();
      result[width - i] := x;
      WithinGrown(g, m.graph, x, r);
      GrowsTrans(g0, g, m.graph);
      RefsCons(x, r);
      FreshMore(g, r, |g0| + i - 1);
      r := [x] + r;
    }
    assert result[..] == r;
  }
}
