/** Barrel shifters on AIG vectors (src/bzlaaigvec.c:369-623). */
module AigShift {
  import opened Arith
  import opened BvRef
  import opened AigGraph
  import opened References
  import opened AigManager
  import opened AigGates
  import opened AigNum
  import opened AigVector
  import opened AigLogic

  datatype Direction = ShiftLeft | ShiftRight

  /** The cells moved `n` places, zeros shifted in. */
  function Moved(dir: Direction, v: seq<Lit>, n: nat): (r: seq<Lit>)
    requires n <= |v|
    ensures |r| == |v|
  {
    if dir.ShiftLeft? then v[n..] + seq(n, _ => FALSE_LIT) else seq(n, _ => FALSE_LIT) + v[..|v| - n]
  }

  lemma {:induction false} MovedAt(dir: Direction, v: seq<Lit>, n: nat, i: nat)
    requires n <= |v| && i < |v|
    ensures Moved(dir, v, n)[i] ==
            if dir.ShiftLeft? then (if i + n < |v| then v[i + n] else FALSE_LIT)
            else (if i < n then FALSE_LIT else v[i - n])
  {
  }

  /** The number moved `b` places in a word of `w` bits. */
  function Shifted(dir: Direction, a: nat, b: nat, w: nat): nat {
    if dir.ShiftLeft? then a * Pow2(b) % Pow2(w) else Quotient(a, Pow2(b))
  }

  lemma {:induction false} NumMoved(g: Graph, dir: Direction, v: seq<Lit>, n: nat, env: Env)
    requires |g| > 0 && g[0] == Const && n <= |v|
    ensures Num(g, Moved(dir, v, n), env) == Shifted(dir, Num(g, v, env), n, |v|)
  {
    hide Num, Pow2;
    var zeros := seq(n, _ => FALSE_LIT);
    NumConsts(g, zeros, env);
    if dir.ShiftLeft? {
      NumConcat(g, v[n..], zeros, env);
      NumConcat(g, v[..n], v[n..], env);
      assert v == v[..n] + v[n..];
      NumBound(g, v[n..], env);
      ShiftOut(Num(g, v[..n], env), Num(g, v[n..], env), |v| - n, n);
    } else {
      var k := |v| - n;
      NumConcat(g, zeros, v[..k], env);
      NumConcat(g, v[..k], v[k..], env);
      assert v == v[..k] + v[k..];
      NumBound(g, v[k..], env);
      DivModUnique(Num(g, v, env), Pow2(n), Num(g, v[..k], env), Num(g, v[k..], env));
    }
  }

  /** Two shifts in a row are one. */
  lemma {:induction false} ShiftTwice(dir: Direction, a: nat, b: nat, n: nat, w: nat)
    ensures Shifted(dir, Shifted(dir, a, b, w), n, w) == Shifted(dir, a, b + n, w)
  {
    Pow2Add(b, n);
    if dir.ShiftLeft? {
      MulModLeft(a * Pow2(b), Pow2(n), Pow2(w));
      Associate(a, Pow2(b), Pow2(n));
    } else {
      DivDiv(a, Pow2(b), Pow2(n));
    }
  }

  lemma {:induction false} DivDiv(a: nat, d: nat, e: nat)
    requires d > 0 && e > 0
    ensures d * e > 0 && a / d / e == a / (d * e)
  {
    var q := a / d;
    var p := q / e;
    MulMono(1, d, e);
    assert a == d * q + a % d && q == e * p + q % e;
    Associate(d, e, p);
    Distribute(d, e * p, q % e);
    MulMono(q % e, e - 1, d);
    MulSign(d, q % e);
    Distribute(d, e, -1);
    DivModUnique(a, d * e, p, d * (q % e) + a % d);
  }

  // ---------------------------------------------------------------- one amount bit

  /** A cell that stays or takes the value of another one. */
  method ShiftCell(m: Manager, stay: Lit, move: Lit, shift: Lit) returns (res: Lit)
    requires m.Valid() && Held(m.handles, stay) && Held(m.handles, move) && Held(m.handles, shift)
    modifies m
    ensures m.Valid() && res.id < |m.graph| && m.handles == old(m.handles) + Ref(res) && Extends(old(m.graph), m.graph)
    ensures forall env: Env {:trigger Eval(m.graph, res, env)} ::
              Eval(m.graph, res, env) == if Eval(old(m.graph), shift, env) then Eval(old(m.graph), move, env)
                else Eval(old(m.graph), stay, env)
  {
    hide m.Valid, Eval, NodeValue, Extends, NodeRef;
    ghost var g0 := m.graph;
    m.HandlesKnown();
    var and1 := m.MakeAnd(stay, Not(shift));
    ghost var g1 := m.graph;
    var and2 := m.MakeAnd(move, shift);
    ghost var g2 := m.graph;
    res := m.MakeOr(and1, and2);
    ExtendsTrans(g0, g1, g2);
    ExtendsTrans(g0, g2, m.graph);
    m.Release(and1);
    m.Release(and2);
    forall env: Env
      ensures Eval(m.graph, res, env) == if Eval(g0, shift, env) then Eval(g0, move, env) else Eval(g0, stay, env)
    {
      EvalNot(g0, shift, env);
      ExtendsEval(g0, g1, shift, env);
      ExtendsEval(g0, g1, move, env);
      ExtendsEval(g1, g2, and1, env);
    }
  }

  /** A cell that stays or becomes zero. */
  method ClearCell(m: Manager, stay: Lit, shift: Lit) returns (res: Lit)
    requires m.Valid() && Held(m.handles, stay) && Held(m.handles, shift)
    modifies m
    ensures m.Valid() && res.id < |m.graph| && m.handles == old(m.handles) + Ref(res) && Extends(old(m.graph), m.graph)
    ensures forall env: Env {:trigger Eval(m.graph, res, env)} ::
              Eval(m.graph, res, env) == if Eval(old(m.graph), shift, env) then Eval(old(m.graph), FALSE_LIT, env)
                else Eval(old(m.graph), stay, env)
  {
    hide m.Valid, Eval, NodeValue, Extends, NodeRef;
    ghost var g0 := m.graph;
    m.HandlesKnown();
    res := m.MakeAnd(stay, Not(shift));
    forall env: Env
      ensures Eval(m.graph, res, env) == if Eval(g0, shift, env) then Eval(g0, FALSE_LIT, env) else Eval(g0, stay, env)
    {
      EvalNot(g0, shift, env);
      EvalConst(g0, FALSE_LIT, env);
    }
  }

  /** The cells done so far of a shifted vector. */
  ghost predicate ShiftCells(g: Graph, r: seq<Lit>, g0: Graph, c: Lit, a: seq<Lit>, b: seq<Lit>) {
    && Extends(g0, g) && Within(g, r)
    && forall env: Env :: CondCells(g, r, g0, c, a, b, env)
  }

  lemma {:induction false} CellStep(g: Graph, g': Graph, r: seq<Lit>, x: Lit, g0: Graph, c: Lit, a: seq<Lit>,
        b: seq<Lit>, p: Lit, q: Lit)
    requires |r| < |a| == |b| && a[|r|] == p && b[|r|] == q
    requires Extends(g, g') && x.id < |g'| && c.id < |g0| && p.id < |g0| && q.id < |g0|
    requires ShiftCells(g, r, g0, c, a, b)
    requires forall env: Env {:trigger Eval(g', x, env)} :: Eval(g', x, env) == if Eval(g, c, env) then Eval(g, p, env)
            else Eval(g, q, env)
    ensures ShiftCells(g', r + [x], g0, c, a, b) && |g0| <= |g'|
  {
    hide Eval, Val, NodeValue, Extends, CondCells, Within, Chosen;
    ExtendsTrans(g0, g, g');
    WithinSnoc(g, g', r, x);
    ghost var r' := r + [x];
    forall env: Env
      ensures CondCells(g', r', g0, c, a, b, env)
    {
      ExtendsEval(g0, g, c, env);
      ExtendsEval(g0, g, p, env);
      ExtendsEval(g0, g, q, env);
      assert Eval(g', x, env) == if Eval(g0, c, env) then Eval(g0, p, env) else Eval(g0, q, env);
      assert CondCells(g, r, g0, c, a, b, env);
      CondStep(g, g', r, x, g0, c, a, b, env);
    }
  }

  lemma {:induction false} CellsStart(g: Graph, c: Lit, a: seq<Lit>, b: seq<Lit>)
    requires |a| == |b|
    ensures ShiftCells(g, [], g, c, a, b)
  {
    hide Eval, NodeValue;
    ExtendsSelf(g);
    CondStart(g, c, a, b);
  }

  /** What one stage of the shifter is: the moved cells where the amount bit is set. */
  ghost predicate Stage(g: Graph, r: seq<Lit>, g0: Graph, dir: Direction, shift: Lit, v: seq<Lit>, n: nat) {
    n <= |v| && |r| == |v| && forall env: Env :: CondCells(g, r, g0, shift, Moved(dir, v, n), v, env)
  }

  lemma {:induction false} StageDone(g: Graph, r: seq<Lit>, g0: Graph, dir: Direction, shift: Lit, v: seq<Lit>, n: nat)
    requires n <= |v| == |r| && ShiftCells(g, r, g0, shift, Moved(dir, v, n), v)
    ensures Stage(g, r, g0, dir, shift, v, n) && Extends(g0, g) && Within(g, r)
  {
  }

  lemma {:induction false} SameStage(g: Graph, dir: Direction, v: seq<Lit>, shift: Lit)
    ensures Stage(g, v, g, dir, shift, v, 0)
  {
    assert Moved(dir, v, 0) == v;
    forall env: Env
      ensures CondCells(g, v, g, shift, v, v, env)
    {
      assert Chosen(g, shift, v, v, env)[..|v|] == v;
    }
  }

  /** The loop over the cells that another cell moves into. */
  method MoveRange(m: Manager, av: array<Lit>, result: array<Lit>, dir: Direction, n: nat, lo: nat, hi: nat, shift: Lit,
                   ghost g0: Graph, ghost h0: multiset<nat>)
    requires m.Valid() && av.Length == result.Length && av != result && n <= av.Length && lo <= hi <= av.Length
    requires dir.ShiftLeft? ==> hi + n <= av.Length
    requires dir.ShiftRight? ==> n <= lo
    requires HeldVec(h0, av[..]) && Within(g0, av[..]) && Held(h0, shift) && shift.id < |g0| <= |m.graph|
    requires m.handles == h0 + Refs(result[..lo])
    requires ShiftCells(m.graph, result[..lo], g0, shift, Moved(dir, av[..], n), av[..])
    modifies m, result
    ensures m.Valid() && av[..] == old(av[..]) && |g0| <= |m.graph|
    ensures m.handles == h0 + Refs(result[..hi])
    ensures ShiftCells(m.graph, result[..hi], g0, shift, Moved(dir, av[..], n), av[..])
  {
    hide m.Valid, Eval, Val, NodeValue, Extends, NodeRef, Refs, CondCells, HeldVec, Within, ShiftCells, Moved;
    ghost var v := av[..];
    ghost var moved, r := Moved(dir, v, n), result[..lo];
    for i := lo to hi
      invariant result[..i] == r && m.Valid() && av[..] == v
      invariant m.handles == h0 + Refs(r)
      invariant |g0| <= |m.graph| && ShiftCells(m.graph, r, g0, shift, moved, v)
    {
      var k := if dir.ShiftLeft? then i + n else i - n;
      ghost var g := m.graph;
      HeldCell(h0, v, i, Refs(r));
      HeldCell(h0, v, k, Refs(r));
      WithinCell(g0, v, i);
      WithinCell(g0, v, k);
      var x := ShiftCell(m, av[i], av[k], shift);
      MovedAt(dir, v, n, i);
      CellStep(g, m.graph, r, x, g0, shift, moved, v, v[k], v[i]);
      result[i] := x;
      RefsPush(r, x);
      r := r + [x];
    }
  }

  /** The loop over the cells that a zero moves into. */
  method ClearRange(m: Manager, av: array<Lit>, result: array<Lit>, dir: Direction, n: nat, lo: nat, hi: nat,
        shift: Lit, ghost g0: Graph, ghost h0: multiset<nat>)
    requires m.Valid() && av.Length == result.Length && av != result && n <= av.Length && lo <= hi <= av.Length
    requires dir.ShiftLeft? ==> lo + n >= av.Length
    requires dir.ShiftRight? ==> hi <= n
    requires HeldVec(h0, av[..]) && Within(g0, av[..]) && Held(h0, shift) && shift.id < |g0| <= |m.graph|
    requires m.handles == h0 + Refs(result[..lo])
    requires ShiftCells(m.graph, result[..lo], g0, shift, Moved(dir, av[..], n), av[..])
    modifies m, result
    ensures m.Valid() && av[..] == old(av[..]) && |g0| <= |m.graph|
    ensures m.handles == h0 + Refs(result[..hi])
    ensures ShiftCells(m.graph, result[..hi], g0, shift, Moved(dir, av[..], n), av[..])
  {
    hide m.Valid, Eval, Val, NodeValue, Extends, NodeRef, Refs, CondCells, HeldVec, Within, ShiftCells, Moved;
    ghost var v := av[..];
    ghost var moved, r := Moved(dir, v, n), result[..lo];
    for i := lo to hi
      invariant result[..i] == r && m.Valid() && av[..] == v
      invariant m.handles == h0 + Refs(r)
      invariant |g0| <= |m.graph| && ShiftCells(m.graph, r, g0, shift, moved, v)
    {
      ghost var g := m.graph;
      HeldCell(h0, v, i, Refs(r));
      WithinCell(g0, v, i);
      var x := ClearCell(m, av[i], shift);
      MovedAt(dir, v, n, i);
      CellStep(g, m.graph, r, x, g0, shift, moved, v, FALSE_LIT, v[i]);
      result[i] := x;
      RefsPush(r, x);
      r := r + [x];
    }
  }

  /** `sll_n_bits_aigvec` and `srl_n_bits_aigvec`: the cells that zeros move into come last
      in a left shift and first in a right shift. */
  method ShiftBits(m: Manager, dir: Direction, av: array<Lit>, n: nat, shift: Lit) returns (result: array<Lit>)
    requires m.Valid() && n < av.Length && HeldVec(m.handles, av[..]) && Held(m.handles, shift)
    modifies m
    ensures m.Valid() && fresh(result) && result.Length == av.Length
    ensures Made(old(m.handles), old(m.graph), m.handles, m.graph, result[..])
    ensures Stage(m.graph, result[..], old(m.graph), dir, shift, av[..], n)
  {
    hide m.Valid, Extends, NodeRef, Refs, HeldVec, Within, ShiftCells, Moved, Stage;
    ghost var g0, h0, v := m.graph, m.handles, av[..];
    if n == 0 {
      result := Copy(m, av);
      SameStage(m.graph, dir, v, shift);
      return;
    }
    HeldWithin(m, v);
    m.HandlesKnown();
    RefsEmpty();
    CellsStart(g0, shift, Moved(dir, v, n), v);
    var width := av.Length;
    result := new Lit[width](_ => FALSE_LIT);
    assert result[..0] == [];
    if dir.ShiftLeft? {
      MoveRange(m, av, result, dir, n, 0, width - n, shift, g0, h0);
      ClearRange(m, av, result, dir, n, width - n, width, shift, g0, h0);
    } else {
      ClearRange(m, av, result, dir, n, 0, n, shift, g0, h0);
      MoveRange(m, av, result, dir, n, n, width, shift, g0, h0);
    }
    assert result[..width] == result[..];
    StageDone(m.graph, result[..], g0, dir, shift, v, n);
  }

  // ---------------------------------------------------------------- the barrel shifter

  /** The value after the amount bits from cell `i` on. */
  ghost predicate ShiftSoFar(g: Graph, r: seq<Lit>, g0: Graph, dir: Direction, v: seq<Lit>, amount: seq<Lit>,
        env: Env) {
    Num(g, r, env) == Shifted(dir, Num(g0, v, env), Num(g0, amount, env), |v|)
  }

  lemma {:induction false} StageValue(g: Graph, r: seq<Lit>, g0: Graph, dir: Direction, shift: Lit, v: seq<Lit>,
        n: nat, env: Env)
    requires Stage(g, r, g0, dir, shift, v, n) && |g0| > 0 && g0[0] == Const
    ensures Num(g, r, env) == Shifted(dir, Num(g0, v, env), Weigh(Val(g0, shift, env), n), |v|)
  {
    hide Num, Pow2, CondCells, Moved;
    assert CondCells(g, r, g0, shift, Moved(dir, v, n), v, env);
    CondWhole(g, r, g0, shift, Moved(dir, v, n), v, env);
    NumOne(g0, shift, env);
    NumMoved(g0, dir, v, n, env);
    NumBound(g0, v, env);
    ShiftZero(dir, Num(g0, v, env), |v|);
  }

  lemma {:induction false} ShiftZero(dir: Direction, a: nat, w: nat)
    requires a < Pow2(w)
    ensures Shifted(dir, a, 0, w) == a
  {
    assert Pow2(0) == 1;
    DivModUnique(a, Pow2(w), 0, a);
  }

  lemma {:induction false} ShiftStart(g: Graph, r: seq<Lit>, g0: Graph, dir: Direction, v: seq<Lit>, bit: Lit, env: Env)
    requires Stage(g, r, g0, dir, bit, v, 1) && |g0| > 0 && g0[0] == Const
    ensures ShiftSoFar(g, r, g0, dir, v, [bit], env)
  {
    hide Num, Stage, Shifted;
    StageValue(g, r, g0, dir, bit, v, 1, env);
    NumOne(g0, bit, env);
  }

  lemma {:induction false} ShiftStep(g: Graph, r: seq<Lit>, g': Graph, r': seq<Lit>, g0: Graph, dir: Direction,
        v: seq<Lit>, amount: seq<Lit>, bit: Lit, env: Env)
    requires ShiftSoFar(g, r, g0, dir, v, amount, env) && |r| == |v| && |g| > 0 && g[0] == Const
    requires Stage(g', r', g, dir, bit, r, Pow2(|amount|)) && Extends(g0, g) && bit.id < |g0|
    ensures ShiftSoFar(g', r', g0, dir, v, [bit] + amount, env)
  {
    hide Num, Stage, Shifted, Val, Pow2, Extends, Eval;
    StageValue(g', r', g, dir, bit, r, Pow2(|amount|), env);
    ExtendsEval(g0, g, bit, env);
    NumCons(g0, bit, amount, env);
    ShiftTwice(dir, Num(g0, v, env), Num(g0, amount, env), Weigh(Val(g0, bit, env), Pow2(|amount|)), |v|);
  }

  /** `aigvec_sll` and `aigvec_srl`: one stage for each amount bit, least significant first. */
  method Barrel(m: Manager, dir: Direction, av1: array<Lit>, av2: array<Lit>) returns (result: array<Lit>)
    requires m.Valid() && av2.Length > 0 && av1.Length == Pow2(av2.Length)
    requires HeldVec(m.handles, av1[..]) && HeldVec(m.handles, av2[..])
    modifies m
    ensures m.Valid() && fresh(result) && result.Length == av1.Length
    ensures Made(old(m.handles), old(m.graph), m.handles, m.graph, result[..])
    ensures forall env: Env :: ShiftSoFar(m.graph, result[..], old(m.graph), dir, av1[..], av2[..], env)
  {
    hide m.Valid, Eval, Val, NodeValue, Extends, NodeRef, Refs, HeldVec, Within, Stage, ShiftSoFar, Num;
    var width := av2.Length;
    ghost var h0, g0, v, amount := m.handles, m.graph, av1[..], av2[..];
    m.HandlesKnown();
    HeldWithin(m, amount);
    Pow2Above(width);
    HeldCell(h0, amount, width - 1, multiset{});
    result := ShiftBits(m, dir, av1, 1, av2[width - 1]);
    ghost var r, last := result[..], amount[width - 1..];
    forall env: Env
      ensures ShiftSoFar(m.graph, r, g0, dir, v, last, env)
    {
      assert last == [amount[width - 1]];
      ShiftStart(m.graph, r, g0, dir, v, amount[width - 1], env);
    }
    var i := width - 1;
    while i > 0
      invariant 0 <= i < width && m.Valid() && av2[..] == amount && result[..] == r && fresh(result) && |r| == |v|
      invariant m.handles == h0 + Refs(r) && Extends(g0, m.graph) && Within(m.graph, r)
      invariant forall env: Env :: ShiftSoFar(m.graph, r, g0, dir, v, amount[i..], env)
    {
      i := i - 1;
      ghost var g, h := m.graph, m.handles;
      m.HandlesKnown();
      HeldCell(h0, amount, i, Refs(r));
      HeldOwn(h0, r);
      WithinCell(g0, amount, i);
      Pow2Below(width - i - 1, width);
      var temp := result;
      result := ShiftBits(m, dir, temp, Pow2(width - i - 1), av2[i]);
      ghost var r' := result[..];
      forall env: Env
        ensures ShiftSoFar(m.graph, r', g0, dir, v, amount[i..], env)
      {
        assert amount[i..] == [amount[i]] + amount[i + 1..];
        ShiftStep(g, r, m.graph, r', g0, dir, v, amount[i + 1..], amount[i], env);
      }
      ReleaseLast(m, temp, h0, Refs(r'));
      ExtendsTrans(g0, g, m.graph);
      r := r';
    }
    assert amount[0..] == amount;
  }

  lemma {:induction false} Pow2Below(a: nat, b: nat)
    requires a < b
    ensures Pow2(a) < Pow2(b)
  {
    Pow2Mono(a + 1, b);
    Pow2Succ(a);
  }

  lemma {:induction false} ShiftOf(g: Graph, r: seq<Lit>, g0: Graph, dir: Direction, v: seq<Lit>, amount: seq<Lit>,
        env: Env)
    requires ShiftSoFar(g, r, g0, dir, v, amount, env)
    ensures Num(g, r, env) == Shifted(dir, Num(g0, v, env), Num(g0, amount, env), |v|)
  {
  }

  // ---------------------------------------------------------------- any width

  /** The reference meaning of both shifts. */
  function BvShift(dir: Direction, a: nat, b: nat, w: nat): nat {
    if dir.ShiftLeft? then BvSll(a, b, w) else BvSrl(a, b, w)
  }

  lemma {:induction false} ModMod(x: nat, w: nat, p: nat)
    requires w <= p
    ensures x % Pow2(p) % Pow2(w) == x % Pow2(w)
  {
    hide Pow2;
    Pow2Add(p - w, w);
    ModOfMod(x, Pow2(p - w), Pow2(w));
  }

  /** Shifting in a wider word and cutting off the top. */
  lemma {:induction false} ShiftCut(dir: Direction, a: nat, b: nat, w: nat, p: nat)
    requires 0 < w <= p && a < Pow2(w)
    ensures BvSlice(Shifted(dir, a, b, p), w - 1, 0) == Shifted(dir, a, b, w)
  {
    hide Pow2;
    assert Pow2(0) == 1 by { Pow2Zero(); }
    if dir.ShiftLeft? {
      ModMod(a * Pow2(b), w, p);
    } else {
      DivLe(a, Pow2(b));
      DivModUnique(a / Pow2(b), Pow2(w), 0, a / Pow2(b));
    }
  }

  lemma {:induction false} Pow2Zero()
    ensures Pow2(0) == 1
  {
  }

  /** An amount that is not below the width leaves nothing. */
  lemma {:induction false} ShiftAll(dir: Direction, a: nat, b: nat, w: nat)
    requires b >= w && a < Pow2(w)
    ensures Shifted(dir, a, b, w) == 0
  {
    if dir.ShiftLeft? {
      Pow2Add(b - w, w);
      Associate(a, Pow2(b - w), Pow2(w));
      DivModUnique(a * Pow2(b), Pow2(w), a * Pow2(b - w), 0);
    } else {
      Pow2Mono(w, b);
      DivModUnique(a, Pow2(b), 0, a);
    }
  }

  /** A set bit above the shift width makes the amount too large. */
  lemma {:induction false} ShiftSplit(dir: Direction, a: nat, b: nat, w: nat, k: nat)
    requires 0 < k < w <= Pow2(k) && a < Pow2(w) && b < Pow2(w)
    ensures BvShift(dir, a, b, w) == if BvSlice(b, w - 1, k) != 0 then 0 else Shifted(dir, a, BvSlice(b, k - 1, 0), w)
  {
    hide Pow2, Shifted;
    Pow2Zero();
    var up := Divide(b, Pow2(k));
    Pow2Add(w - k, k);
    DivBelow(b, Pow2(w - k), Pow2(k));
    DivModUnique(up, Pow2(w - k), 0, up);
    if up != 0 { MulMono(1, up, Pow2(k)); }
    ShiftKnown(dir, a, b, w);
  }

  lemma {:induction false} ShiftKnown(dir: Direction, a: nat, b: nat, w: nat)
    requires a < Pow2(w)
    ensures BvShift(dir, a, b, w) == if b >= w then 0 else Shifted(dir, a, b, w)
    ensures b >= w ==> Shifted(dir, a, b, w) == 0
  {
    if b >= w { ShiftAll(dir, a, b, w); }
  }

  /** The smallest power of two that is not below the width, and its logarithm. */
  method PowerOfTwoFor(width: nat) returns (pow2: nat, widthShift: nat)
    requires width > 0
    ensures pow2 == Pow2(widthShift) && width <= pow2
    ensures widthShift > 0 ==> Pow2(widthShift - 1) < width
    ensures widthShift < width && (width > 1 ==> widthShift > 0)
  {
    pow2, widthShift := 1, 0;
    while pow2 < width
      invariant pow2 == Pow2(widthShift) && (widthShift > 0 ==> Pow2(widthShift - 1) < width)
      decreases width - pow2
    {
      pow2 := pow2 * 2;
      widthShift := widthShift + 1;
    }
    if widthShift > 0 { Pow2Above(widthShift - 1); }
  }

  /** The condition that the amount has a set bit above the shift width. */
  method ShiftTooFar(m: Manager, upper: array<Lit>) returns (res: array<Lit>)
    requires m.Valid() && upper.Length > 0 && HeldVec(m.handles, upper[..])
    modifies m
    ensures m.Valid() && fresh(res) && res.Length == 1
    ensures Made(old(m.handles), old(m.graph), m.handles, m.graph, res[..])
    ensures forall env: Env :: Num(m.graph, res[..], env) == if Num(old(m.graph), upper[..], env) != 0 then 1 else 0
  {
    hide m.Valid, Eval, Val, NodeValue, Extends, NodeRef, Num, Refs, HeldVec, Within, BvNot, Inverted;
    ghost var h0, g0, u := m.handles, m.graph, upper[..];
    HeldWithin(m, u);
    if upper.Length > 1 {
      var zero := MakeZero(m, upper.Length);
      ghost var z := zero[..];
      MadeKeeps(h0, g0, h0, g0, z);
      var tmp := MakeEqVec(m, zero, upper);
      ghost var h1, g1, t := m.handles, m.graph, tmp[..];
      MadeKeeps(h0, g0, h1, g1, t);
      res := MakeNot(m, tmp);
      ghost var r := res[..];
      MadeKeeps(h1, g1, m.handles, g1, r);
      ReleaseLast(m, tmp, h0, Refs(r));
      ReleaseLast(m, zero, h0, Refs(r));
      forall env: Env
        ensures Num(g1, r, env) == if Num(g0, u, env) != 0 then 1 else 0
      {
        BvNotOne(Num(g1, t, env));
      }
    } else {
      res := Copy(m, upper);
      forall env: Env
        ensures Num(g0, u, env) == if Num(g0, u, env) != 0 then 1 else 0
      {
        NumBound(g0, u, env);
        Pow2Succ(0);
        Pow2Zero();
      }
    }
  }

  /** The vector to be shifted, with leading zeros up to a power-of-two width. */
  method Padded(m: Manager, av: array<Lit>, pow2: nat) returns (res: array<Lit>)
    requires m.Valid() && 0 < av.Length <= pow2 && HeldVec(m.handles, av[..])
    modifies m
    ensures m.Valid() && fresh(res) && res.Length == pow2 && m.graph == old(m.graph)
    ensures Made(old(m.handles), old(m.graph), m.handles, m.graph, res[..])
    ensures forall env: Env :: Num(m.graph, res[..], env) == Num(old(m.graph), av[..], env)
  {
    hide m.Valid, Eval, Val, NodeValue, Extends, NodeRef, Num, Refs, HeldVec, Within, Pow2;
    ghost var h0, g0, v := m.handles, m.graph, av[..];
    if pow2 == av.Length {
      res := Copy(m, av);
    } else {
      var tmp := MakeZero(m, pow2 - av.Length);
      ghost var z := tmp[..];
      MadeKeeps(h0, g0, h0, g0, z);
      res := MakeConcat(m, tmp, av);
      ghost var r := res[..];
      MadeKeeps(h0, g0, m.handles, g0, r);
      ReleaseLast(m, tmp, h0, Refs(r));
      forall env: Env
        ensures Num(g0, r, env) == Num(g0, v, env)
      {
        assert Num(g0, z, env) == 0;
      }
    }
  }

  /** The else branch: shift in the wider word, then cut back to the width. */
  method ShiftWithin(m: Manager, dir: Direction, av: array<Lit>, amount: array<Lit>) returns (res: array<Lit>)
    requires m.Valid() && 0 < amount.Length && 0 < av.Length <= Pow2(amount.Length)
    requires HeldVec(m.handles, av[..]) && HeldVec(m.handles, amount[..])
    modifies m
    ensures m.Valid() && fresh(res) && res.Length == av.Length
    ensures Made(old(m.handles), old(m.graph), m.handles, m.graph, res[..])
    ensures forall env: Env :: Num(m.graph, res[..], env)
              == Shifted(dir, Num(old(m.graph), av[..], env), Num(old(m.graph), amount[..], env), av.Length)
  {
    hide m.Valid, Eval, Val, NodeValue, Extends, NodeRef, Num, Refs, HeldVec, Within, Pow2, Shifted, BvSlice;
    hide ShiftSoFar;
    ghost var h0, g0, v, b := m.handles, m.graph, av[..], amount[..];
    HeldWithin(m, v);
    HeldWithin(m, b);
    var width, pow2 := av.Length, Pow2(amount.Length);
    var wide := Padded(m, av, pow2);
    ghost var h1, x := m.handles, wide[..];
    MadeKeeps(h0, g0, h1, g0, x);
    res := Barrel(m, dir, wide, amount);
    assert wide[..] == x && amount[..] == b;
    ghost var h2, g2, y := m.handles, m.graph, res[..];
    MadeKeeps(h1, g0, h2, g2, y);
    ReleaseLast(m, wide, h0, Refs(y));
    forall env: Env
      ensures Num(g2, y, env) == Shifted(dir, Num(g0, v, env), Num(g0, b, env), pow2)
    {
      ShiftOf(g2, y, g0, dir, x, b, env);
    }
    if width < pow2 {
      var tmp := res;
      ghost var h3 := m.handles;
      HeldOwn(h0, y);
      res := MakeSlice(m, tmp, width - 1, 0);
      ghost var r := res[..];
      MadeKeeps(h3, g2, m.handles, g2, r);
      ReleaseLast(m, tmp, h0, Refs(r));
      forall env: Env
        ensures Num(g2, r, env) == Shifted(dir, Num(g0, v, env), Num(g0, b, env), width)
      {
        NumBound(g0, v, env);
        ShiftCut(dir, Num(g0, v, env), Num(g0, b, env), width, pow2);
      }
    }
  }

  /** `translate_shift` for more than one bit. */
  method ShiftWide(m: Manager, dir: Direction, av1: array<Lit>, av2: array<Lit>) returns (res: array<Lit>)
    requires m.Valid() && 1 < av1.Length == av2.Length && HeldVec(m.handles, av1[..]) && HeldVec(m.handles, av2[..])
    modifies m
    ensures m.Valid() && fresh(res) && res.Length == av1.Length
    ensures Made(old(m.handles), old(m.graph), m.handles, m.graph, res[..])
    ensures forall env: Env :: Num(m.graph, res[..], env)
              == BvShift(dir, Num(old(m.graph), av1[..], env), Num(old(m.graph), av2[..], env), av1.Length)
  {
    hide m.Valid, Eval, Val, NodeValue, Extends, NodeRef, Num, Refs, HeldVec, Within, Pow2, Shifted, BvSlice, BvShift;
    var width := av1.Length;
    var pow2, widthShift := PowerOfTwoFor(width);
    ghost var h0, g0, a, b := m.handles, m.graph, av1[..], av2[..];
    HeldWithin(m, a);
    HeldWithin(m, b);
    var upper := MakeSlice(m, av2, width - 1, widthShift);
    ghost var h1, u := m.handles, upper[..];
    MadeKeeps(h0, g0, h1, g0, u);
    var lower := MakeSlice(m, av2, widthShift - 1, 0);
    ghost var h2, l := m.handles, lower[..];
    MadeKeeps(h1, g0, h2, g0, l);
    res := ShiftSelect(m, dir, av1, upper, lower);
    ghost var h3, g3, r := m.handles, m.graph, res[..];
    MadeKeeps(h2, g0, h3, g3, r);
    ReleaseLast(m, lower, h1, Refs(r));
    ReleaseLast(m, upper, h0, Refs(r));
    forall env: Env
      ensures Num(g3, r, env) == BvShift(dir, Num(g0, a, env), Num(g0, b, env), width)
    {
      NumBound(g0, a, env);
      NumBound(g0, b, env);
      ShiftSplit(dir, Num(g0, a, env), Num(g0, b, env), width, widthShift);
    }
  }

  /** Zero if the upper part of the amount is set, the shifted vector otherwise. */
  method ShiftSelect(m: Manager, dir: Direction, av: array<Lit>, upper: array<Lit>, lower: array<Lit>)
    returns (res: array<Lit>)
    requires m.Valid() && 0 < upper.Length && 0 < lower.Length && 0 < av.Length <= Pow2(lower.Length)
    requires HeldVec(m.handles, av[..]) && HeldVec(m.handles, upper[..]) && HeldVec(m.handles, lower[..])
    modifies m
    ensures m.Valid() && fresh(res) && res.Length == av.Length
    ensures Made(old(m.handles), old(m.graph), m.handles, m.graph, res[..])
    ensures forall env: Env :: Num(m.graph, res[..], env)
              == if Num(old(m.graph), upper[..], env) != 0 then 0
                 else Shifted(dir, Num(old(m.graph), av[..], env), Num(old(m.graph), lower[..], env), av.Length)
  {
    hide m.Valid, Eval, Val, NodeValue, Extends, NodeRef, Num, Refs, HeldVec, Within, Pow2, Shifted;
    ghost var h0, g0, v, u, l := m.handles, m.graph, av[..], upper[..], lower[..];
    HeldWithin(m, v);
    HeldWithin(m, u);
    HeldWithin(m, l);
    var avCond := ShiftTooFar(m, upper);
    ghost var h1, g1, c := m.handles, m.graph, avCond[..];
    MadeKeeps(h0, g0, h1, g1, c);
    var avThen := MakeZero(m, av.Length);
    ghost var z := avThen[..];
    MadeKeeps(h1, g1, h1, g1, z);
    var avElse := ShiftWithin(m, dir, av, lower);
    ghost var h2, g2, e := m.handles, m.graph, avElse[..];
    MadeKeeps(h1, g1, h2, g2, e);
    res := MakeCondVec(m, avCond, avThen, avElse);
    ghost var h3, g3, r := m.handles, m.graph, res[..];
    MadeKeeps(h2, g2, h3, g3, r);
    ReleaseLast(m, avElse, h1, Refs(r));
    ReleaseLast(m, avThen, h1, Refs(r));
    ReleaseLast(m, avCond, h0, Refs(r));
    ExtendsTrans(g0, g1, g2);
    ExtendsTrans(g0, g2, g3);
  }

  /** `bzla_aigvec_sll` and `bzla_aigvec_srl` */
  method MakeShift(m: Manager, dir: Direction, av1: array<Lit>, av2: array<Lit>) returns (res: array<Lit>)
    requires m.Valid() && 0 < av1.Length == av2.Length && HeldVec(m.handles, av1[..]) && HeldVec(m.handles, av2[..])
    modifies m
    ensures m.Valid() && fresh(res) && res.Length == av1.Length
    ensures Made(old(m.handles), old(m.graph), m.handles, m.graph, res[..])
    ensures forall env: Env :: Num(m.graph, res[..], env)
              == BvShift(dir, Num(old(m.graph), av1[..], env), Num(old(m.graph), av2[..], env), av1.Length)
  {
    hide m.Valid, Eval, Val, NodeValue, Extends, NodeRef, Num, Refs, HeldVec, Within, BvShift, BvAnd, BvNot, Inverted;
    if av1.Length == 1 {
      ghost var h0, g0, a, b := m.handles, m.graph, av1[..], av2[..];
      HeldWithin(m, a);
      HeldWithin(m, b);
      var tmp := MakeNot(m, av2);
      ghost var h1, t := m.handles, tmp[..];
      MadeKeeps(h0, g0, h1, g0, t);
      res := MakeAndVec(m, av1, tmp);
      ghost var h2, g2, r := m.handles, m.graph, res[..];
      MadeKeeps(h1, g0, h2, g2, r);
      ReleaseLast(m, tmp, h0, Refs(r));
      forall env: Env
        ensures Num(g2, r, env) == BvShift(dir, Num(g0, a, env), Num(g0, b, env), 1)
      {
        NumBound(g0, a, env);
        NumBound(g0, b, env);
        ShiftOne(dir, Num(g0, a, env), Num(g0, b, env));
      }
    } else {
      res := ShiftWide(m, dir, av1, av2);
    }
  }

  lemma {:induction false} ShiftOne(dir: Direction, a: nat, b: nat)
    requires a < Pow2(1) && b < Pow2(1)
    ensures b <= 1 && BvShift(dir, a, b, 1) == BvAnd(a, BvNot(b, 1), 1)
  {
    Pow2Succ(0);
    Pow2Zero();
    assert forall x: nat, y: nat :: BvAnd(x, y, 0) == 0;
    assert a * 1 == a && a / 1 == a;
  }
}
