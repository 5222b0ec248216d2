/** The Tseitin encoder (src/bzlaaig.c:903-1035, 1097-1365). */
module AigCnf {
  import opened AigGraph
  import opened AigRewrite
  import opened UniqueTable
  import opened References
  import opened AigManager
  import WorkList

  // ---------------------------------------------------------------- clauses

  /** An assignment of the CNF variables. */
  type Model = nat -> bool

  ghost predicate LitTrue(M: Model, l: int) { if l > 0 then M(l) else !M(-l) }

  ghost predicate SatClause(M: Model, c: seq<int>) { exists j :: 0 <= j < |c| && LitTrue(M, c[j]) }

  ghost predicate SatAll(M: Model, cs: seq<seq<int>>) { forall k :: 0 <= k < |cs| ==> SatClause(M, cs[k]) }

  lemma {:induction false} SatConcat(M: Model, cs: seq<seq<int>>, ds: seq<seq<int>>)
    ensures SatAll(M, cs + ds) <==> SatAll(M, cs) && SatAll(M, ds)
  {
    hide SatClause;
    if SatAll(M, cs + ds) {
      forall k | 0 <= k < |cs|
        ensures SatClause(M, cs[k])
      {
        assert (cs + ds)[k] == cs[k];
      }
      forall k | 0 <= k < |ds|
        ensures SatClause(M, ds[k])
      {
        assert (cs + ds)[|cs| + k] == ds[k];
      }
    }
  }

  lemma {:induction false} SatTwo(M: Model, a: int, b: int)
    ensures SatClause(M, [a, b]) <==> LitTrue(M, a) || LitTrue(M, b)
  {
    var c := [a, b];
    assert c[0] == a && c[1] == b;
  }

  lemma {:induction false} SatThree(M: Model, a: int, b: int, c: int)
    ensures SatClause(M, [a, b, c]) <==> LitTrue(M, a) || LitTrue(M, b) || LitTrue(M, c)
  {
    var s := [a, b, c];
    assert s[0] == a && s[1] == b && s[2] == c;
  }

  // ---------------------------------------------------------------- shapes

  datatype Shape = XorShape | IteShape | AndShape

  /** Every variable below an AND has another holder. */
  ghost predicate VarsShared(t: Graph, refs: seq<nat>) {
    && |refs| == |t|
    && forall i: nat :: IsAndId(t, i) ==>
         && (t[i].left.id < |t| && t[t[i].left.id].Var? ==> refs[t[i].left.id] > 1)
         && (t[i].right.id < |t| && t[t[i].right.id].Var? ==> refs[t[i].right.id] > 1)
  }

  /** Both children are complemented and have no other holder. */
  predicate Unshared(t: Graph, refs: seq<nat>, n: nat)
    requires n < |t| && t[n].And?
  {
    var l, r := t[n].left, t[n].right;
    l.inv && l.id < |refs| && refs[l.id] <= 1 && r.inv && r.id < |refs| && refs[r.id] <= 1
  }

  /** Children that nobody else holds are read for their own children: they must be ANDs. */
  predicate Readable(t: Graph, refs: seq<nat>, n: nat)
    requires n < |t| && t[n].And?
  {
    Unshared(t, refs, n) ==> IsAnd(t, t[n].left) && IsAnd(t, t[n].right)
  }

  /** That is what the shared variables are for. */
  lemma {:induction false} SharedReadable(t: Graph, refs: seq<nat>, n: nat)
    requires Closed(t) && VarsShared(t, refs) && IsAndId(t, n)
    ensures Readable(t, refs, n)
  {
    AndChildren(t, n);
  }

  /** `is_xor_aig` and `is_ite_aig`: the shape of an AND node and its leaves, in the order
      in which they are collected. */
  function ShapeOf(t: Graph, refs: seq<nat>, n: nat): (Shape, seq<Lit>)
    requires n < |t| && t[n].And? && Readable(t, refs, n)
  {
    var l, r := t[n].left, t[n].right;
    if Unshared(t, refs, n) then
      var ll, lr, rl, rr := Left(t, l), Right(t, l), Left(t, r), Right(t, r);
      if ll == Not(rl) && lr == Not(rr) then (XorShape, [rr, ll])
      else if Not(lr) == rl then (IteShape, [Not(ll), Not(rr), rl])
      else if Not(ll) == rl then (IteShape, [Not(lr), Not(rr), rl])
      else if Not(lr) == rr then (IteShape, [Not(ll), Not(rl), rr])
      else if Not(ll) == rr then (IteShape, [Not(lr), Not(rl), rr])
      else (AndShape, [l, r])
    else (AndShape, [l, r])
  }

  /** A node is a plain AND unless its operands are negated ANDs that nobody else holds, with complementary
      children; it is an XOR if these are complementary place by place. */
  lemma {:induction false} ShapeExact(t: Graph, refs: seq<nat>, n: nat)
    requires n < |t| && t[n].And? && Readable(t, refs, n)
    ensures var shape := ShapeOf(t, refs, n).0; var l, r := t[n].left, t[n].right;
            && (shape.AndShape? <==> !(Unshared(t, refs, n) && ChildrenClash(t, l, r)))
            && (shape.XorShape? <==>
                  Unshared(t, refs, n) && Left(t, l) == Not(Left(t, r)) && Right(t, l) == Not(Right(t, r)))
  {
  }

  lemma {:induction false} ShapeKids(t: Graph, refs: seq<nat>, n: nat)
    requires Closed(t) && IsAndId(t, n) && Readable(t, refs, n)
    ensures var (shape, leaves) := ShapeOf(t, refs, n);
            && |leaves| == (if shape.IteShape? then 3 else 2)
            && forall k :: 0 <= k < |leaves| ==> 2 <= leaves[k].id < n && IsLive(t, leaves[k])
  {
  }

  /** The value of a node of this shape from the values of its leaves. */
  ghost predicate ShapeTrue(shape: Shape, g: Graph, leaves: seq<Lit>, env: Env)
    requires |leaves| == if shape.IteShape? then 3 else 2
  {
    match shape
    case XorShape => Eval(g, leaves[0], env) == Eval(g, leaves[1], env)
    case IteShape => if Eval(g, leaves[2], env) then Eval(g, leaves[1], env) else Eval(g, leaves[0], env)
    case AndShape => Eval(g, leaves[0], env) && Eval(g, leaves[1], env)
  }

  lemma {:induction false} ShapeValue(t: Graph, g: Graph, refs: seq<nat>, n: nat, env: Env)
    requires Closed(t) && WellFormed(g) && Remembers(g, t) && IsAndId(t, n) && Readable(t, refs, n)
    ensures var (shape, leaves) := ShapeOf(t, refs, n);
            |leaves| == (if shape.IteShape? then 3 else 2) &&
            Eval(g, Lit(n, false), env) == ShapeTrue(shape, g, leaves, env)
  {
    hide Eval, NodeValue, Closed, WellFormed, Remembers;
    ShapeKids(t, refs, n);
    var l, r := t[n].left, t[n].right;
    EvalAnd(t, g, Lit(n, false), env);
    if Unshared(t, refs, n) {
      EvalAnd(t, g, l, env);
      EvalAnd(t, g, r, env);
      EvalNot(g, Left(t, l), env);
      EvalNot(g, Right(t, l), env);
      EvalNot(g, Left(t, r), env);
      EvalNot(g, Right(t, r), env);
    }
  }

  // ---------------------------------------------------------------- what is emitted

  /** The clauses that tie variable `x` to the leaves. */
  function Clauses(shape: Shape, x: int, ls: seq<int>): seq<seq<int>>
    requires |ls| == if shape.IteShape? then 3 else 2
  {
    match shape
    case XorShape =>
      var a, b := ls[0], ls[1];
      [[-x, a, -b], [-x, -a, b], [x, -a, -b], [x, a, b]]
    case IteShape =>
      var a, b, c := ls[0], ls[1], ls[2];
      [[-x, -c, b], [-x, c, a], [x, -c, -b], [x, c, -a]]
    case AndShape =>
      [[-ls[0], -ls[1], x], [-x, ls[0]], [-x, ls[1]]]
  }

  ghost predicate ShapeSat(shape: Shape, M: Model, ls: seq<int>)
    requires |ls| == if shape.IteShape? then 3 else 2
  {
    match shape
    case XorShape => LitTrue(M, ls[0]) == LitTrue(M, ls[1])
    case IteShape => if LitTrue(M, ls[2]) then LitTrue(M, ls[1]) else LitTrue(M, ls[0])
    case AndShape => LitTrue(M, ls[0]) && LitTrue(M, ls[1])
  }

  lemma {:induction false} LitNeg(M: Model, l: int)
    requires l != 0
    ensures LitTrue(M, -l) == !LitTrue(M, l)
  {
  }

  /** The clauses of a shape say exactly that `x` has the value of the shape. */
  lemma {:induction false} ClausesMean(shape: Shape, M: Model, x: int, ls: seq<int>)
    requires |ls| == (if shape.IteShape? then 3 else 2) && x != 0 && forall k :: 0 <= k < |ls| ==> ls[k] != 0
    ensures SatAll(M, Clauses(shape, x, ls)) <==> (LitTrue(M, x) == ShapeSat(shape, M, ls))
  {
    hide LitTrue, SatClause;
    LitNeg(M, x);
    LitNeg(M, ls[0]);
    LitNeg(M, ls[1]);
    var cs := Clauses(shape, x, ls);
    match shape {
      case XorShape =>
        var a, b := ls[0], ls[1];
        SatThree(M, -x, a, -b);
        SatThree(M, -x, -a, b);
        SatThree(M, x, -a, -b);
        SatThree(M, x, a, b);
        FourClauses(M, cs[0], cs[1], cs[2], cs[3]);
      case IteShape =>
        var a, b, c := ls[0], ls[1], ls[2];
        LitNeg(M, c);
        SatThree(M, -x, -c, b);
        SatThree(M, -x, c, a);
        SatThree(M, x, -c, -b);
        SatThree(M, x, c, -a);
        FourClauses(M, cs[0], cs[1], cs[2], cs[3]);
      case AndShape =>
        SatThree(M, -ls[0], -ls[1], x);
        SatTwo(M, -x, ls[0]);
        SatTwo(M, -x, ls[1]);
        ThreeClauses(M, cs[0], cs[1], cs[2]);
    }
  }

  lemma {:induction false} FourClauses(M: Model, a: seq<int>, b: seq<int>, c: seq<int>, d: seq<int>)
    ensures SatAll(M, [a, b, c, d]) <==> SatClause(M, a) && SatClause(M, b) && SatClause(M, c) && SatClause(M, d)
  {
    hide SatClause;
    var s := [a, b, c, d];
    assert s[0] == a && s[1] == b && s[2] == c && s[3] == d;
  }

  lemma {:induction false} ThreeClauses(M: Model, a: seq<int>, b: seq<int>, c: seq<int>)
    ensures SatAll(M, [a, b, c]) <==> SatClause(M, a) && SatClause(M, b) && SatClause(M, c)
  {
    hide SatClause;
    var s := [a, b, c];
    assert s[0] == a && s[1] == b && s[2] == c;
  }

  // ---------------------------------------------------------------- what the clause set means

  /** The CNF variables of AIG variables have the values of the assignment. */
  ghost predicate VarsMeet(M: Model, env: Env, g: Graph, numbered: map<nat, nat>) {
    forall c :: c in numbered && numbered[c] < |g| && g[numbered[c]].Var? ==> M(c) == env(numbered[c])
  }

  /** Every CNF variable has the value of its node. */
  ghost predicate Meets(M: Model, env: Env, g: Graph, numbered: map<nat, nat>) {
    forall c :: c in numbered ==> M(c) == Eval(g, Lit(numbered[c], false), env)
  }

  ghost predicate RootsTrue(g: Graph, asserted: seq<Lit>, env: Env) {
    forall k :: 0 <= k < |asserted| ==> Eval(g, asserted[k], env)
  }

  ghost predicate Numbered(g: Graph, numbered: map<nat, nat>, next: nat) {
    && next >= 2
    && (forall c :: c in numbered ==> 2 <= c < next && 2 <= numbered[c] < |g|)
    && forall c, d :: c in numbered && d in numbered && numbered[c] == numbered[d] && g[numbered[c]].Var? ==> c == d
  }

  /** For each assignment of the AIG variables the clauses hold in exactly one way: all
      numbered nodes have their AIG values, and that is a model iff the asserted roots hold. */
  ghost predicate Faithful(g: Graph, numbered: map<nat, nat>, clauses: seq<seq<int>>, asserted: seq<Lit>) {
    forall M: Model, env: Env :: VarsMeet(M, env, g, numbered) ==>
      (SatAll(M, clauses) <==> M(1) && Meets(M, env, g, numbered) && RootsTrue(g, asserted, env))
  }

  ghost predicate Encoded(g: Graph, numbered: map<nat, nat>, next: nat, clauses: seq<seq<int>>, asserted: seq<Lit>) {
    && Numbered(g, numbered, next) && Faithful(g, numbered, clauses, asserted)
    && forall k :: 0 <= k < |asserted| ==> asserted[k].id < |g|
  }

  lemma {:induction false} EncodedStart(g: Graph)
    ensures Encoded(g, map[], 2, [[1]], [])
  {
    forall M: Model
      ensures SatAll(M, [[1]]) <==> M(1)
    {
      assert [1][0] == 1 && [[1]][0] == [1];
      assert SatClause(M, [1]) <==> LitTrue(M, 1);
    }
  }

  /** Growing the graph does not touch the meaning of the clauses. */
  lemma {:induction false} EncodedGrow(g: Graph, g': Graph, numbered: map<nat, nat>, next: nat,
        clauses: seq<seq<int>>, asserted: seq<Lit>)
    requires Encoded(g, numbered, next, clauses, asserted) && Grows(g, g')
    ensures Encoded(g', numbered, next, clauses, asserted)
  {
    hide Eval, SatAll;
    forall M: Model, env: Env | VarsMeet(M, env, g', numbered)
      ensures SatAll(M, clauses) <==> M(1) && Meets(M, env, g', numbered) && RootsTrue(g', asserted, env)
    {
      assert VarsMeet(M, env, g, numbered);
      forall c | c in numbered
        ensures Eval(g', Lit(numbered[c], false), env) == Eval(g, Lit(numbered[c], false), env)
      {
        GrowsEval(g, g', Lit(numbered[c], false), env);
      }
      forall k | 0 <= k < |asserted|
        ensures Eval(g', asserted[k], env) == Eval(g, asserted[k], env)
      {
        GrowsEval(g, g', asserted[k], env);
      }
    }
  }

  /** A variable gets its number. */
  lemma {:induction false} NumberVar(g: Graph, numbered: map<nat, nat>, next: nat, clauses: seq<seq<int>>,
        asserted: seq<Lit>, n: nat)
    requires Encoded(g, numbered, next, clauses, asserted) && 2 <= n < |g| && g[n].Var?
    requires forall c :: c in numbered ==> numbered[c] != n
    ensures Encoded(g, numbered[next := n], next + 1, clauses, asserted)
  {
    hide Eval, SatAll, RootsTrue;
    var numbered' := numbered[next := n];
    forall M: Model, env: Env | VarsMeet(M, env, g, numbered')
      ensures SatAll(M, clauses) <==> M(1) && Meets(M, env, g, numbered') && RootsTrue(g, asserted, env)
    {
      assert VarsMeet(M, env, g, numbered) by {
        forall c | c in numbered && numbered[c] < |g| && g[numbered[c]].Var?
          ensures M(c) == env(numbered[c])
        {
          assert numbered'[c] == numbered[c];
        }
      }
      EvalVar(g, Lit(n, false), env);
      assert numbered'[next] == n;
      MeetsMore(M, env, g, numbered, next, n);
    }
  }

  lemma {:induction false} MeetsMore(M: Model, env: Env, g: Graph, numbered: map<nat, nat>, x: nat, n: nat)
    requires x !in numbered
    ensures Meets(M, env, g, numbered[x := n]) <==> Meets(M, env, g, numbered) && M(x) == Eval(g, Lit(n, false), env)
  {
    hide Eval;
    var numbered' := numbered[x := n];
    if Meets(M, env, g, numbered') {
      forall c | c in numbered
        ensures M(c) == Eval(g, Lit(numbered[c], false), env)
      {
        assert numbered'[c] == numbered[c];
      }
      assert numbered'[x] == n;
    }
  }

  /** The literal that stands for an AIG literal (`bzla_aig_get_cnf_id`). */
  function CnfLit(cnfId: seq<nat>, l: Lit): int
    requires l.id < |cnfId|
  {
    if l == TRUE_LIT then 1 else if l == FALSE_LIT then -1
    else var c: int := cnfId[l.id]; if l.inv then -c else c
  }

  function CnfLits(cnfId: seq<nat>, ls: seq<Lit>): (r: seq<int>)
    requires forall k :: 0 <= k < |ls| ==> ls[k].id < |cnfId|
    ensures |r| == |ls| && forall k :: 0 <= k < |r| ==> r[k] == CnfLit(cnfId, ls[k])
  {
    seq(|ls|, k requires 0 <= k < |ls| => CnfLit(cnfId, ls[k]))
  }

  ghost predicate LeafNumbered(cnfId: seq<nat>, numbered: map<nat, nat>, l: Lit) {
    l.id < |cnfId| && cnfId[l.id] > 0 && cnfId[l.id] in numbered && numbered[cnfId[l.id]] == l.id
  }

  /** In a model that meets the numbering, a numbered literal has its AIG value. */
  lemma {:induction false} LitValue(M: Model, env: Env, g: Graph, numbered: map<nat, nat>, cnfId: seq<nat>, l: Lit)
    requires Meets(M, env, g, numbered) && 2 <= l.id && LeafNumbered(cnfId, numbered, l)
    ensures CnfLit(cnfId, l) != 0 && LitTrue(M, CnfLit(cnfId, l)) == Eval(g, l, env)
  {
    EvalNot(g, Lit(l.id, false), env);
  }

  /** An AND node gets its number and its clauses. */
  lemma {:induction false} NumberAnd(g: Graph, numbered: map<nat, nat>, next: nat, clauses: seq<seq<int>>,
        asserted: seq<Lit>, t: Graph, refs: seq<nat>, cnfId: seq<nat>, n: nat)
    requires Encoded(g, numbered, next, clauses, asserted)
    requires Closed(t) && WellFormed(g) && Remembers(g, t) && IsAndId(t, n) && Readable(t, refs, n) && |cnfId| == |t|
    requires forall k :: 0 <= k < |ShapeOf(t, refs, n).1| ==> LeafNumbered(cnfId, numbered, ShapeOf(t, refs, n).1[k])
    ensures var (shape, leaves) := ShapeOf(t, refs, n);
            && |leaves| == (if shape.IteShape? then 3 else 2)
            && Encoded(g, numbered[next := n], next + 1, clauses + Clauses(shape, next, CnfLits(cnfId, leaves)),
               asserted)
  {
    hide Eval, NodeValue, SatAll, RootsTrue, Closed, WellFormed, Remembers, ShapeOf, LitTrue, CnfLit, Meets;
    hide ShapeTrue, ShapeSat, Clauses;
    ShapeKids(t, refs, n);
    var (shape, leaves) := ShapeOf(t, refs, n);
    var ls := CnfLits(cnfId, leaves);
    var numbered' := numbered[next := n];
    var more := Clauses(shape, next, ls);
    NodeKept(g, t, n);
    forall M: Model, env: Env | VarsMeet(M, env, g, numbered')
      ensures SatAll(M, clauses + more) <==> M(1) && Meets(M, env, g, numbered') && RootsTrue(g, asserted, env)
    {
      VarsMeetLess(M, env, g, numbered, next, n);
      SatConcat(M, clauses, more);
      MeetsMore(M, env, g, numbered, next, n);
      if Meets(M, env, g, numbered) {
        ShapeValue(t, g, refs, n, env);
        NodeClauses(g, numbered, cnfId, M, env, shape, leaves, next);
      }
    }
  }

  lemma {:induction false} NodeKept(g: Graph, t: Graph, n: nat)
    requires Remembers(g, t) && IsAndId(t, n)
    ensures n < |g| && g[n].And?
  {
  }

  lemma {:induction false} VarsMeetLess(M: Model, env: Env, g: Graph, numbered: map<nat, nat>, x: nat, n: nat)
    requires VarsMeet(M, env, g, numbered[x := n]) && x !in numbered
    ensures VarsMeet(M, env, g, numbered)
  {
    var numbered' := numbered[x := n];
    forall c | c in numbered && numbered[c] < |g| && g[numbered[c]].Var?
      ensures M(c) == env(numbered[c])
    {
      assert numbered'[c] == numbered[c];
    }
  }

  lemma {:induction false} NodeClauses(g: Graph, numbered: map<nat, nat>, cnfId: seq<nat>, M: Model, env: Env,
        shape: Shape, leaves: seq<Lit>, x: nat)
    requires Meets(M, env, g, numbered) && x > 0 && |leaves| == if shape.IteShape? then 3 else 2
    requires forall k :: 0 <= k < |leaves| ==> 2 <= leaves[k].id < |cnfId| && LeafNumbered(cnfId, numbered, leaves[k])
    ensures SatAll(M, Clauses(shape, x, CnfLits(cnfId, leaves))) <==> (M(x) == ShapeTrue(shape, g, leaves, env))
  {
    hide Eval, SatAll, Meets, Clauses, CnfLit;
    var ls := CnfLits(cnfId, leaves);
    forall k | 0 <= k < |leaves|
      ensures ls[k] != 0 && LitTrue(M, ls[k]) == Eval(g, leaves[k], env)
    {
      LitValue(M, env, g, numbered, cnfId, leaves[k]);
    }
    ClausesMean(shape, M, x, ls);
  }

  // ---------------------------------------------------------------- the encoder

  /** The leaf ids of every live AND: the children of the traversal. */
  ghost function LeafIds(t: Graph, refs: seq<nat>): (r: seq<seq<nat>>)
    ensures |r| == |t|
  {
    seq(|t|, i requires 0 <= i < |t| => LeavesOf(t, refs, i))
  }

  ghost function LeavesOf(t: Graph, refs: seq<nat>, i: nat): seq<nat>
    requires i < |t|
  {
    if t[i].And? && Readable(t, refs, i) then LitIds(ShapeOf(t, refs, i).1) else []
  }

  function LitIds(ls: seq<Lit>): (r: seq<nat>)
    ensures |r| == |ls| && forall k :: 0 <= k < |ls| ==> r[k] == ls[k].id
  {
    seq(|ls|, k requires 0 <= k < |ls| => ls[k].id)
  }

  /** The nodes that have a CNF variable. */
  ghost function HasId(cnfId: seq<nat>): set<nat> { set i: nat {:trigger cnfId[i]} | i < |cnfId| && cnfId[i] != 0 }

  lemma {:induction false} HasIdSet(cnfId: seq<nat>, i: nat, c: nat)
    requires i < |cnfId| && c != 0
    ensures HasId(cnfId[i := c]) == HasId(cnfId) + {i}
  {
    forall k: nat
      ensures k in HasId(cnfId[i := c]) <==> k in HasId(cnfId) + {i}
    {
      if k < |cnfId| && k != i { assert cnfId[i := c][k] == cnfId[k]; }
      assert cnfId[i := c][i] == c;
    }
  }

  /** Everything about the manager that holds while the encoder runs. */
  ghost predicate Encoding(m: Manager)
    reads m, m.smgr
  {
    && m.Sane() && VarsShared(m.id2aig, m.refs)
    && Encoded(m.graph, m.smgr.numbered, m.smgr.nextCnfId, m.smgr.clauses, m.smgr.asserted)
  }

  /** `set_next_id_aig_mgr`: hand out the next CNF variable. */
  method NumberNode(m: Manager, n: nat)
    requires m.Sane() && IsLive(m.id2aig, Lit(n, false)) && n >= 2 && m.cnfId[n] == 0
    requires Numbered(m.graph, m.smgr.numbered, m.smgr.nextCnfId)
    modifies m`cnfId, m.smgr`nextCnfId, m.smgr`numbered
    ensures m.Sane() && m.cnfId == old(m.cnfId)[n := old(m.smgr.nextCnfId)] && m.cnfId[n] != 0
    ensures m.smgr.nextCnfId == old(m.smgr.nextCnfId) + 1
    ensures m.smgr.numbered == old(m.smgr.numbered)[old(m.smgr.nextCnfId) := n]
  {
    CnfNumber(m.id2aig, m.graph, m.cnfId, m.smgr.numbered, m.smgr.nextCnfId, n);
    hide Closed, WellFormed, Remembers, Counted, TableOk, CnfLinked, Numbered;
    m.smgr.numbered := m.smgr.numbered[m.smgr.nextCnfId := n];
    m.cnfId := m.cnfId[n := m.smgr.nextCnfId];
    m.smgr.nextCnfId := m.smgr.nextCnfId + 1;
    hide m.Sane;
    m.SaneNow();
  }

  lemma {:induction false} CnfNumber(t: Graph, g: Graph, cnfId: seq<nat>, numbered: map<nat, nat>, next: nat, n: nat)
    requires CnfLinked(t, g, cnfId, numbered) && Numbered(g, numbered, next) && Remembers(g, t)
    requires 2 <= n < |t| && !t[n].Freed? && cnfId[n] == 0
    ensures CnfLinked(t, g, cnfId[n := next], numbered[next := n])
  {
    var numbered' := numbered[next := n];
    forall c: nat | c in numbered' && t[numbered'[c]].Var?
      ensures cnfId[n := next][numbered'[c]] == c
    {
      if c != next {
        assert numbered'[c] == numbered[c];
        assert cnfId[numbered[c]] == c;
      }
    }
    forall i: nat | 2 <= i < |t| && !t[i].Freed? && cnfId[n := next][i] != 0
      ensures cnfId[n := next][i] in numbered' && numbered'[cnfId[n := next][i]] == i
    {
      if i != n { assert cnfId[i] in numbered && numbered[cnfId[i]] == i; }
    }
  }

  /** The second visit of an AND node: number it and add its clauses. */
  method EncodeAnd(m: Manager, n: nat)
    requires Encoding(m) && IsAndId(m.id2aig, n) && m.cnfId[n] == 0
    requires forall k :: 0 <= k < |LeavesOf(m.id2aig, m.refs, n)| ==> LeavesOf(m.id2aig, m.refs, n)[k] in HasId(m.cnfId)
    modifies m`cnfId, m.smgr
    ensures Encoding(m) && m.cnfId == old(m.cnfId)[n := m.cnfId[n]] && m.cnfId[n] != 0
    ensures m.smgr.asserted == old(m.smgr.asserted)
  {
    hide ShapeOf, Readable, Encoded, Numbered, VarsShared, m.Sane, Clauses, LeavesOf, HasId, CnfLits, Closed;
    hide WellFormed, Remembers, CnfLinked;
    EncodingParts(m);
    NodeReadable(m, n);
    LeavesNumbered(m, n);
    ShapeKids(m.id2aig, m.refs, n);
    NumberAnd(m.graph, m.smgr.numbered, m.smgr.nextCnfId, m.smgr.clauses, m.smgr.asserted, m.id2aig, m.refs, m.cnfId,
      n);
    var (shape, leaves) := ShapeOf(m.id2aig, m.refs, n);
    var ls := CnfLits(m.cnfId, leaves);
    var x := m.smgr.nextCnfId;
    NumberNode(m, n);
    m.smgr.clauses := m.smgr.clauses + Clauses(shape, x, ls);
  }

  lemma {:induction false} EncodingParts(m: Manager)
    requires Encoding(m)
    ensures Closed(m.id2aig) && WellFormed(m.graph) && Remembers(m.graph, m.id2aig)
    ensures |m.refs| == |m.id2aig| == |m.cnfId| == |m.mark| == |m.local|
    ensures CnfLinked(m.id2aig, m.graph, m.cnfId, m.smgr.numbered)
    ensures Numbered(m.graph, m.smgr.numbered, m.smgr.nextCnfId)
    ensures forall c :: c in m.smgr.numbered ==> c >= 2
  {
  }

  lemma {:induction false} NodeReadable(m: Manager, n: nat)
    requires Encoding(m) && IsAndId(m.id2aig, n)
    ensures Readable(m.id2aig, m.refs, n)
  {
    hide Closed, Readable, VarsShared, Encoded;
    SharedReadable(m.id2aig, m.refs, n);
  }

  lemma {:induction false} LeavesNumbered(m: Manager, n: nat)
    requires Encoding(m) && IsAndId(m.id2aig, n) && Readable(m.id2aig, m.refs, n)
    requires forall k :: 0 <= k < |LeavesOf(m.id2aig, m.refs, n)| ==> LeavesOf(m.id2aig, m.refs, n)[k] in HasId(m.cnfId)
    ensures forall k :: 0 <= k < |ShapeOf(m.id2aig, m.refs, n).1| ==>
              LeafNumbered(m.cnfId, m.smgr.numbered, ShapeOf(m.id2aig, m.refs, n).1[k])
  {
    ShapeKids(m.id2aig, m.refs, n);
    var leaves := ShapeOf(m.id2aig, m.refs, n).1;
    hide ShapeOf, Encoded, VarsShared, Closed, WellFormed, Counted, TableOk, Remembers;
    forall k | 0 <= k < |leaves|
      ensures LeafNumbered(m.cnfId, m.smgr.numbered, leaves[k])
    {
      assert LeavesOf(m.id2aig, m.refs, n)[k] == leaves[k].id;
      assert leaves[k].id in HasId(m.cnfId);
    }
  }

  lemma {:induction false} VarUnnumbered(t: Graph, g: Graph, cnfId: seq<nat>, numbered: map<nat, nat>, n: nat)
    requires Remembers(g, t) && CnfLinked(t, g, cnfId, numbered) && n < |t| && t[n].Var? && cnfId[n] == 0
    requires forall c :: c in numbered ==> c >= 2
    ensures g[n].Var? && forall c :: c in numbered ==> numbered[c] != n
  {
  }

  /** The first visit of a variable. */
  method EncodeVar(m: Manager, n: nat)
    requires Encoding(m) && n < |m.id2aig| && 2 <= n && m.id2aig[n].Var? && m.cnfId[n] == 0
    modifies m`cnfId, m.smgr
    ensures Encoding(m) && m.cnfId == old(m.cnfId)[n := m.cnfId[n]] && m.cnfId[n] != 0
    ensures m.smgr.asserted == old(m.smgr.asserted)
  {
    hide Encoded, Numbered, VarsShared, m.Sane, Closed, WellFormed, Remembers, CnfLinked;
    EncodingParts(m);
    VarUnnumbered(m.id2aig, m.graph, m.cnfId, m.smgr.numbered, n);
    NumberVar(m.graph, m.smgr.numbered, m.smgr.nextCnfId, m.smgr.clauses, m.smgr.asserted, n);
    NumberNode(m, n);
  }

  /** How the marks of a traversal stand: visited nodes are marked and on the list of marked
      nodes, and a node marked 2 has its CNF variable. */
  ghost predicate Marks(t: Graph, mark: seq<nat>, local: seq<nat>, cnfId: seq<nat>, cache: set<nat>, marked: seq<nat>) {
    && |mark| == |local| == |t| == |cnfId|
    && (forall i: nat :: i < |mark| ==> (mark[i] != 0 <==> i in cache))
    && (forall i: nat :: i < |mark| && mark[i] == 2 ==> cnfId[i] != 0)
    && (forall i: nat :: i < |local| && local[i] != 0 ==> i in cache)
    && (forall i: nat :: i in cache ==> i in marked)
    && (forall k :: 0 <= k < |marked| ==> IsAndId(t, marked[k]))
  }

  ghost function Ids(t: Graph): set<nat> { set i: nat {:trigger t[i]} | i < |t| }

  lemma {:induction false} PushLeaves(t: Graph, refs: seq<nat>, n: nat)
    requires Closed(t) && IsAndId(t, n) && Readable(t, refs, n)
    ensures LeafIds(t, refs)[n] == LeavesOf(t, refs, n)
    ensures forall done: set<nat> :: WorkList.Covered(LeafIds(t, refs)[n], LeafIds(t, refs)[n], done)
    ensures forall q :: 0 <= q < |LeafIds(t, refs)[n]| ==> LeafIds(t, refs)[n][q] < n
  {
    ShapeKids(t, refs, n);
  }

  /** Only ANDs have leaves and only live nodes are met. */
  lemma {:induction false} MetLive(t: Graph, refs: seq<nat>, n: nat)
    requires Closed(t) && IsAndId(t, n) && Readable(t, refs, n)
    ensures forall q :: 0 <= q < |LeavesOf(t, refs, n)| ==>
            IsLive(t, Lit(LeavesOf(t, refs, n)[q], false)) && LeavesOf(t, refs, n)[q] >= 2
  {
    ShapeKids(t, refs, n);
  }

  ghost predicate AllLive(t: Graph, stack: seq<nat>) {
    forall q :: 0 <= q < |stack| ==> 2 <= stack[q] && IsLive(t, Lit(stack[q], false))
  }

  lemma {:induction false} AllLiveTop(t: Graph, stack: seq<nat>)
    requires AllLive(t, stack) && |stack| > 0 && Closed(t)
    ensures var n := stack[|stack| - 1]; 2 <= n < |t| && (t[n].Var? || t[n].And?) && AllLive(t, stack[..|stack| - 1])
  {
  }

  lemma {:induction false} AllLivePush(t: Graph, refs: seq<nat>, stack: seq<nat>, n: nat)
    requires AllLive(t, stack) && Closed(t) && IsAndId(t, n) && Readable(t, refs, n)
    ensures AllLive(t, stack + LeavesOf(t, refs, n))
  {
    MetLive(t, refs, n);
    hide LeavesOf;
  }

  lemma {:induction false} MarksStart(t: Graph, mark: seq<nat>, local: seq<nat>, cnfId: seq<nat>, start: nat)
    requires Unmarked(mark, local) && |mark| == |local| == |t| == |cnfId| && 2 <= start && IsLive(t, Lit(start, false))
    ensures Marks(t, mark, local, cnfId, {}, []) && AllLive(t, [start])
  {
  }

  lemma {:induction false} MarksKnown(t: Graph, mark: seq<nat>, local: seq<nat>, cnfId: seq<nat>, cache: set<nat>,
        marked: seq<nat>, n: nat)
    requires Marks(t, mark, local, cnfId, cache, marked) && n < |t|
    ensures |mark| == |local| == |t| == |cnfId| && (mark[n] != 0 <==> n in cache)
    ensures mark[n] == 2 ==> cnfId[n] != 0
  {
  }

  lemma {:induction false} MarksCount(t: Graph, mark: seq<nat>, local: seq<nat>, cnfId: seq<nat>, cache: set<nat>,
        marked: seq<nat>, n: nat, v: nat)
    requires Marks(t, mark, local, cnfId, cache, marked) && n in cache && n < |t|
    ensures Marks(t, mark, local[n := v], cnfId, cache, marked)
  {
  }

  lemma {:induction false} MarksFirst(t: Graph, mark: seq<nat>, local: seq<nat>, cnfId: seq<nat>, cache: set<nat>,
        marked: seq<nat>, n: nat)
    requires Marks(t, mark, local, cnfId, cache, marked) && IsAndId(t, n)
    ensures Marks(t, mark[n := 1], local[n := 1], cnfId, cache + {n}, marked + [n])
  {
    assert (marked + [n])[|marked|] == n;
  }

  lemma {:induction false} MarksSecond(t: Graph, mark: seq<nat>, local: seq<nat>, cnfId: seq<nat>, cache: set<nat>,
        marked: seq<nat>, n: nat, c: nat)
    requires Marks(t, mark, local, cnfId, cache, marked) && n in cache && n < |t| && c != 0
    ensures Marks(t, mark[n := 2], local, cnfId[n := c], cache, marked)
  {
  }

  lemma {:induction false} MarksVar(t: Graph, mark: seq<nat>, local: seq<nat>, cnfId: seq<nat>, cache: set<nat>,
        marked: seq<nat>, n: nat, c: nat)
    requires Marks(t, mark, local, cnfId, cache, marked) && n < |t| && c != 0
    ensures Marks(t, mark, local, cnfId[n := c], cache, marked)
  {
  }

  lemma {:induction false} HasIdKnown(cnfId: seq<nat>, i: nat)
    requires i < |cnfId|
    ensures i in HasId(cnfId) <==> cnfId[i] != 0
    ensures cnfId[i] != 0 ==> HasId(cnfId) + {i} == HasId(cnfId)
  {
  }

  /** The marks of a node change; nothing else depends on them. */
  method SetMarks(m: Manager, n: nat, mark: nat, local: nat)
    requires Encoding(m) && n < |m.id2aig|
    modifies m`mark, m`local
    ensures Encoding(m) && m.mark == old(m.mark)[n := mark] && m.local == old(m.local)[n := local]
  {
    hide Closed, WellFormed, Remembers, Counted, TableOk, CnfLinked, Encoded, VarsShared;
    m.mark := m.mark[n := mark];
    m.local := m.local[n := local];
  }

  /** First visit of an AND: it goes back on the stack with its leaves above it. */
  method FirstVisit(m: Manager, root: nat) returns (leaves: seq<nat>)
    requires Encoding(m) && IsAndId(m.id2aig, root)
    modifies m`mark, m`local
    ensures Encoding(m) && m.mark == old(m.mark)[root := 1] && m.local == old(m.local)[root := 1]
    ensures leaves == LeavesOf(m.id2aig, m.refs, root)
  {
    hide Encoding, ShapeOf, Readable, VarsShared;
    EncodingParts(m);
    NodeReadable(m, root);
    leaves := LitIds(ShapeOf(m.id2aig, m.refs, root).1);
    SetMarks(m, root, 1, 1);
  }

  /** Second visit: all leaves have their variables. */
  method SecondVisit(m: Manager, root: nat)
    requires Encoding(m) && IsAndId(m.id2aig, root) && m.cnfId[root] == 0
    requires forall k :: 0 <= k < |LeavesOf(m.id2aig, m.refs, root)| ==>
            LeavesOf(m.id2aig, m.refs, root)[k] in HasId(m.cnfId)
    modifies m`mark, m`local, m`cnfId, m.smgr
    ensures Encoding(m) && m.mark == old(m.mark)[root := 2] && m.local == old(m.local)
    ensures m.cnfId == old(m.cnfId)[root := m.cnfId[root]] && m.cnfId[root] != 0
    ensures m.smgr.asserted == old(m.smgr.asserted)
  {
    hide Encoding, ShapeOf, VarsShared, LeavesOf, HasId;
    EncodingParts(m);
    assert m.local[root := m.local[root]] == m.local;
    SetMarks(m, root, 2, m.local[root]);
    EncodeAnd(m, root);
  }

  /** `bzla_aig_to_sat_tseitin`, the traversal. */
  method Traverse(m: Manager, start: nat) returns (marked: seq<nat>, ghost cache: set<nat>)
    requires Encoding(m) && Unmarked(m.mark, m.local) && 2 <= start && m.Live(Lit(start, false))
    modifies m`mark, m`local, m`cnfId, m.smgr
    ensures Encoding(m) && m.smgr.asserted == old(m.smgr.asserted)
    ensures Marks(m.id2aig, m.mark, m.local, m.cnfId, cache, marked)
    ensures start < |m.cnfId| && m.cnfId[start] != 0
  {
    hide ShapeOf, Readable, Encoding, VarsShared, Closed, Marks, LeavesOf, LeafIds, LitIds, WorkList.Waiting;
    hide WorkList.Covered, AllLive, HasId;
    hide WellFormed, Remembers, CnfLinked, Numbered, Unmarked;
    ghost var kids, t := LeafIds(m.id2aig, m.refs), m.id2aig;
    var stack: seq<nat> := [start];
    marked, cache := [], {};
    ghost var pos: map<nat, nat> := map[];
    EncodingParts(m);
    MarksStart(t, m.mark, m.local, m.cnfId, start);
    WorkList.Start(kids, HasId(m.cnfId), start);
    while stack != []
      invariant Encoding(m) && m.smgr.asserted == old(m.smgr.asserted)
      invariant Marks(t, m.mark, m.local, m.cnfId, cache, marked)
      invariant WorkList.Waiting(kids, HasId(m.cnfId), cache, pos, stack) && AllLive(t, stack)
      invariant |m.cnfId| == |t| && (m.cnfId[start] != 0 || start in stack)
      decreases Ids(t) - cache, |stack|
    {
      var n := |stack| - 1;
      var root: nat := stack[n];
      EncodingParts(m);
      AllLiveTop(t, stack);
      ghost var cnfId := m.cnfId;
      HasIdKnown(cnfId, root);
      MarksKnown(t, m.mark, m.local, cnfId, cache, marked, root);
      if m.mark[root] == 2 {
        MarksCount(t, m.mark, m.local, cnfId, cache, marked, root, m.local[root] + 1);
        WorkList.PopDone(kids, HasId(cnfId), cache, pos, stack);
        assert m.mark[root := 2] == m.mark;
        SetMarks(m, root, 2, m.local[root] + 1);
        stack := stack[..n];
      } else if m.cnfId[root] != 0 {
        WorkList.PopDone(kids, HasId(cnfId), cache, pos, stack);
        stack := stack[..n];
      } else if m.id2aig[root].Var? {
        EncodeVar(m, root);
        HasIdSet(cnfId, root, m.cnfId[root]);
        MarksVar(t, m.mark, m.local, cnfId, cache, marked, root, m.cnfId[root]);
        WorkList.PopDone(kids, HasId(cnfId), cache, pos, stack);
        stack := stack[..n];
      } else if m.mark[root] == 0 {
        NodeReadable(m, root);
        PushLeaves(t, m.refs, root);
        AllLivePush(t, m.refs, stack, root);
        MarksFirst(t, m.mark, m.local, cnfId, cache, marked, root);
        WorkList.PushKids(kids, HasId(cnfId), cache, pos, stack, kids[root]);
        var leaves := FirstVisit(m, root);
        marked := marked + [root];
        pos := pos[root := n];
        cache := cache + {root};
        assert stack[..n] + [root] == stack;
        stack := stack[..n] + [root] + leaves;
      } else {
        ghost var mark, local := m.mark, m.local;
        WorkList.TopReady(kids, HasId(cnfId), cache, pos, stack);
        NodeReadable(m, root);
        PushLeaves(t, m.refs, root);
        SecondVisit(m, root);
        HasIdSet(cnfId, root, m.cnfId[root]);
        MarksSecond(t, mark, local, cnfId, cache, marked, root, m.cnfId[root]);
        WorkList.PopDone(kids, HasId(cnfId), cache, pos, stack);
        stack := stack[..n];
      }
    }
  }

  lemma {:induction false} CnfForget(t: Graph, g: Graph, cnfId: seq<nat>, numbered: map<nat, nat>, n: nat)
    requires CnfLinked(t, g, cnfId, numbered) && n < |t| && t[n].And?
    ensures CnfLinked(t, g, cnfId[n := 0], numbered)
  {
    forall c: nat | c in numbered && t[numbered[c]].Var?
      ensures cnfId[n := 0][numbered[c]] == c
    {
    }
  }

  /** One marked node at the end of a traversal: clear it, and give its variable back if all
      its holders were met on the way. */
  method ClearMarked(m: Manager, cur: nat, start: nat)
    requires Encoding(m) && IsAndId(m.id2aig, cur)
    modifies m`mark, m`local, m`cnfId
    ensures Encoding(m) && m.mark == old(m.mark)[cur := 0] && m.local == old(m.local)[cur := 0]
    ensures m.cnfId == old(m.cnfId) || (cur != start && m.cnfId == old(m.cnfId)[cur := 0])
  {
    hide Closed, WellFormed, Remembers, Counted, TableOk, CnfLinked, Encoded, VarsShared, Numbered;
    EncodingParts(m);
    CnfForget(m.id2aig, m.graph, m.cnfId, m.smgr.numbered, cur);
    var local: nat := m.local[cur];
    m.mark := m.mark[cur := 0];
    m.local := m.local[cur := 0];
    if cur != start && m.refs[cur] <= local && !m.smgr.haveRestore {
      m.cnfId := m.cnfId[cur := 0];
    }
  }

  /** Only nodes on the list can still be marked. */
  ghost predicate MarkedOnly(t: Graph, mark: seq<nat>, local: seq<nat>, marked: seq<nat>) {
    && |mark| == |local| == |t|
    && (forall i: nat :: i < |mark| && (mark[i] != 0 || local[i] != 0) ==> i in marked)
    && (forall k :: 0 <= k < |marked| ==> IsAndId(t, marked[k]))
  }

  lemma {:induction false} MarksLeft(t: Graph, mark: seq<nat>, local: seq<nat>, cnfId: seq<nat>, cache: set<nat>,
        marked: seq<nat>)
    requires Marks(t, mark, local, cnfId, cache, marked)
    ensures MarkedOnly(t, mark, local, marked)
  {
  }

  lemma {:induction false} MarksPop(t: Graph, mark: seq<nat>, local: seq<nat>, marked: seq<nat>)
    requires MarkedOnly(t, mark, local, marked) && |marked| > 0
    ensures var n := |marked| - 1;
            && IsAndId(t, marked[n]) && marked[n] < |mark| == |local|
            && MarkedOnly(t, mark[marked[n] := 0], local[marked[n] := 0], marked[..n])
  {
    var n := |marked| - 1;
    forall i: nat | i < |mark| && i != marked[n] && (mark[i] != 0 || local[i] != 0)
      ensures i in marked[..n]
    {
      var k :| 0 <= k < |marked| && marked[k] == i;
      assert marked[..n][k] == i;
    }
  }

  lemma {:induction false} MarksGone(t: Graph, mark: seq<nat>, local: seq<nat>)
    requires MarkedOnly(t, mark, local, [])
    ensures Unmarked(mark, local)
  {
  }

  /** The encoder's precondition and the state that it keeps. */
  ghost predicate Ready(m: Manager)
    reads m, m.smgr
  {
    m.Valid() && Encoding(m)
  }

  /** `bzla_aig_to_sat_tseitin` */
  method ToSatTseitin(m: Manager, start: Lit)
    requires Ready(m) && m.Live(start)
    modifies m`mark, m`local, m`cnfId, m.smgr
    ensures Ready(m) && m.smgr.asserted == old(m.smgr.asserted)
    ensures |m.cnfId| == |m.id2aig| && start.id < |m.cnfId| && (start.id != 0 ==> m.cnfId[start.id] != 0)
  {
    hide Encoding, Marks, Unmarked, m.Sane, m.Valid, MarkedOnly, Closed, WellFormed, Remembers, CnfLinked, Numbered;
    EncodingParts(m);
    if start.id == 0 { return; }
    var marked: seq<nat>;
    ghost var cache, t := {}, m.id2aig;
    ValidParts(m);
    LiveNode(m.id2aig, start);
    marked, cache := Traverse(m, start.id);
    EncodingParts(m);
    MarksLeft(t, m.mark, m.local, m.cnfId, cache, marked);
    while marked != []
      invariant Encoding(m) && m.smgr.asserted == old(m.smgr.asserted)
      invariant MarkedOnly(t, m.mark, m.local, marked)
      invariant |m.cnfId| == |t| && start.id < |t| && m.cnfId[start.id] != 0
      decreases |marked|
    {
      var n := |marked| - 1;
      MarksPop(t, m.mark, m.local, marked);
      ClearMarked(m, marked[n], start.id);
      marked := marked[..n];
    }
    MarksGone(t, m.mark, m.local);
    ReadyAgain(m);
  }

  lemma {:induction false} LiveNode(t: Graph, l: Lit)
    requires IsLive(t, l) && l.id != 0
    ensures 2 <= l.id && IsLive(t, Lit(l.id, false))
  {
  }

  lemma {:induction false} ValidParts(m: Manager)
    requires m.Valid()
    ensures Unmarked(m.mark, m.local)
  {
  }

  lemma {:induction false} ReadyAgain(m: Manager)
    requires Encoding(m) && Unmarked(m.mark, m.local)
    ensures Ready(m)
  {
  }

  // ---------------------------------------------------------------- over a run of the manager

  /** `bzla_aig_mgr_new` with an initialized SAT side: nothing is encoded yet. */
  method NewManager(sortAig: bool, haveRestore: bool) returns (m: Manager)
    ensures fresh(m) && fresh(m.smgr) && Ready(m) && m.handles == multiset{} && m.sortAig == sortAig
    ensures m.smgr.haveRestore == haveRestore && m.smgr.asserted == [] && m.graph == [Const, Const]
  {
    hide Encoded;
    var smgr := new SatManager(haveRestore);
    m := new Manager(sortAig, smgr);
    EncodedStart(m.graph);
  }

  /** Whatever was encoded over an earlier graph is still right when the graph has grown or lost
      nodes: the encoder may go on once every variable below an AND has another holder. */
  lemma {:induction false} ReadyKept(m: Manager, g: Graph)
    requires m.Valid() && Grows(g, m.graph) && VarsShared(m.id2aig, m.refs)
    requires Encoded(g, m.smgr.numbered, m.smgr.nextCnfId, m.smgr.clauses, m.smgr.asserted)
    ensures Ready(m)
  {
    hide m.Sane, Encoded, VarsShared, Grows, Unmarked;
    EncodedGrow(g, m.graph, m.smgr.numbered, m.smgr.nextCnfId, m.smgr.clauses, m.smgr.asserted);
  }

  // ---------------------------------------------------------------- the encoder may be called

  /** A variable under an AND has a parent edge and a reference from outside. */
  lemma {:induction false} VarsAreShared(m: Manager)
    requires m.Valid() && VarsHeld(m.graph, m.handles)
    ensures VarsShared(m.id2aig, m.refs)
  {
    forall i: nat | IsAndId(m.id2aig, i)
      ensures |m.refs| == |m.id2aig|
      ensures m.id2aig[i].left.id < |m.id2aig| && m.id2aig[m.id2aig[i].left.id].Var? ==> m.refs[m.id2aig[i].left.id] > 1
      ensures m.id2aig[i].right.id < |m.id2aig| && m.id2aig[m.id2aig[i].right.id].Var? ==>
                m.refs[m.id2aig[i].right.id] > 1
    {
      VarShared(m, i, m.id2aig[i].left.id);
      VarShared(m, i, m.id2aig[i].right.id);
    }
    SameSize(m);
  }

  lemma {:induction false} SameSize(m: Manager)
    requires m.Valid()
    ensures |m.refs| == |m.id2aig| == |m.graph|
  {
  }

  lemma {:induction false} VarShared(m: Manager, i: nat, v: nat)
    requires m.Valid() && VarsHeld(m.graph, m.handles) && IsAndId(m.id2aig, i)
    requires m.id2aig[i].left.id == v || m.id2aig[i].right.id == v
    ensures |m.refs| == |m.id2aig| && (v < |m.id2aig| && m.id2aig[v].Var? ==> m.refs[v] > 1)
  {
    SameSize(m);
    if v < |m.id2aig| && m.id2aig[v].Var? {
      VarIsHeld(m, v);
      m.CountsExact(v);
      EdgesAtLeast(m.id2aig, i, v);
    }
  }

  lemma {:induction false} VarIsHeld(m: Manager, v: nat)
    requires m.Valid() && VarsHeld(m.graph, m.handles) && v < |m.id2aig| && m.id2aig[v].Var?
    ensures v >= 2 && m.handles[v] > 0
  {
    assert Remembers(m.graph, m.id2aig);
    assert WellFormed(m.graph);
  }

  /** One call into the manager between two encodings. */
  datatype Call = NewVarCall | AndCall(a: Lit, b: Lit) | CopyCall(l: Lit) | ReleaseCall(l: Lit)

  ghost predicate MayCall(m: Manager, c: Call)
    reads m
  {
    match c
    case NewVarCall => true
    case AndCall(a, b) => m.Usable(a) && m.Usable(b)
    case CopyCall(l) => m.Usable(l)
    case ReleaseCall(l) => Ref(l) <= m.handles
  }

  /** The call does not give back the last reference to a variable. */
  ghost predicate LeavesVars(m: Manager, c: Call)
    reads m
  {
    c.ReleaseCall? && c.l.id < |m.graph| && m.graph[c.l.id].Var? ==> m.handles[c.l.id] > 1
  }

  lemma {:induction false} StillHeld(g: Graph, h: multiset<nat>, g': Graph, h': multiset<nat>, id: nat)
    requires VarsHeld(g, h) && |g| >= 1 && g[0] == Const && g <= g'
    requires forall n: nat :: |g| <= n < |g'| && g'[n].Var? ==> n in h'
    requires forall n: nat :: n < |g| && n != id && n in h ==> n in h'
    requires id < |g| && g[id].Var? ==> id in h'
    ensures VarsHeld(g', h')
  {
  }

  method Perform(m: Manager, c: Call) returns (res: Lit)
    requires Ready(m) && MayCall(m, c)
    modifies m
    ensures m.Valid() && Grows(old(m.graph), m.graph)
    ensures VarsShared(m.id2aig, m.refs) ==> Ready(m)
    ensures old(VarsHeld(m.graph, m.handles) && LeavesVars(m, c)) ==> VarsHeld(m.graph, m.handles) && Ready(m)
  {
    hide m.Sane, Encoded, VarsShared, Grows, Unmarked, VarsHeld;
    ghost var g, h := m.graph, m.handles;
    m.HandlesKnown();
    GrowsSelf(g);
    res := FALSE_LIT;
    match c {
      case NewVarCall => res := m.NewVar();
      case AndCall(a, b) =>
        res := m.MakeAnd(a, b);
        ExtendsGrows(g, m.graph);
      case CopyCall(l) => res := m.Copy(l);
      case ReleaseCall(l) => m.Release(l);
    }
    if old(VarsHeld(m.graph, m.handles) && LeavesVars(m, c)) {
      GrowsPrefix(g, m.graph);
      StillHeld(g, h, m.graph, m.handles, if c.ReleaseCall? then c.l.id else 0);
      VarsAreShared(m);
    }
    if VarsShared(m.id2aig, m.refs) { ReadyKept(m, g); }
  }

  // ---------------------------------------------------------------- asserting a root

  lemma {:induction false} AssertRoot(g: Graph, numbered: map<nat, nat>, next: nat, clauses: seq<seq<int>>,
        asserted: seq<Lit>, root: Lit, more: seq<seq<int>>)
    requires Encoded(g, numbered, next, clauses, asserted) && root.id < |g|
    requires Asserts(g, numbered, root, more)
    ensures Encoded(g, numbered, next, clauses + more, asserted + [root])
  {
    hide Eval, SatAll, Meets;
    forall M: Model, env: Env | VarsMeet(M, env, g, numbered)
      ensures SatAll(M, clauses + more) <==> M(1) && Meets(M, env, g, numbered) && RootsTrue(g, asserted + [root], env)
    {
      SatConcat(M, clauses, more);
      RootsMore(g, asserted, root, env);
    }
  }

  lemma {:induction false} RootsMore(g: Graph, asserted: seq<Lit>, root: Lit, env: Env)
    ensures RootsTrue(g, asserted + [root], env) <==> RootsTrue(g, asserted, env) && Eval(g, root, env)
  {
    hide Eval;
    var a := asserted + [root];
    assert a[|asserted|] == root;
    assert forall k :: 0 <= k < |asserted| ==> a[k] == asserted[k];
  }

  lemma {:induction false} UnitMeans(M: Model, l: int)
    ensures SatAll(M, [[l]]) <==> LitTrue(M, l)
  {
    var c := [l];
    assert c[0] == l && [c][0] == c;
    if LitTrue(M, l) { assert SatClause(M, c); }
  }

  lemma {:induction false} EmptyMeans(M: Model)
    ensures !SatAll(M, [[]]) && SatAll(M, [])
  {
    var c: seq<int> := [];
    assert [c][0] == c && !SatClause(M, c);
  }

  /** Clauses that say that the root holds, for models that meet the numbering. */
  ghost predicate Asserts(g: Graph, numbered: map<nat, nat>, root: Lit, more: seq<seq<int>>) {
    forall M: Model, env: Env :: M(1) && Meets(M, env, g, numbered) ==> (SatAll(M, more) <==> Eval(g, root, env))
  }

  lemma {:induction false} ConstRoot(g: Graph, numbered: map<nat, nat>, root: Lit)
    requires |g| > 0 && g[0] == Const && root.id == 0
    ensures Asserts(g, numbered, root, if root == TRUE_LIT then [] else [[]])
  {
    forall M: Model, env: Env | M(1) && Meets(M, env, g, numbered)
      ensures SatAll(M, if root == TRUE_LIT then [] else [[]]) <==> Eval(g, root, env)
    {
      EmptyMeans(M);
      EvalConst(g, root, env);
    }
  }

  lemma {:induction false} UnitRoot(g: Graph, numbered: map<nat, nat>, cnfId: seq<nat>, root: Lit)
    requires 2 <= root.id && LeafNumbered(cnfId, numbered, root)
    ensures Asserts(g, numbered, root, [[CnfLit(cnfId, root)]])
  {
    hide Eval, SatAll, Meets, LitTrue;
    forall M: Model, env: Env | M(1) && Meets(M, env, g, numbered)
      ensures SatAll(M, [[CnfLit(cnfId, root)]]) <==> Eval(g, root, env)
    {
      UnitMeans(M, CnfLit(cnfId, root));
      LitValue(M, env, g, numbered, cnfId, root);
    }
  }

  /** The clauses of a root are added. */
  method AddClauses(m: Manager, root: Lit, more: seq<seq<int>>)
    requires Ready(m) && root.id < |m.graph| && Asserts(m.graph, m.smgr.numbered, root, more)
    modifies m.smgr`clauses, m.smgr`asserted
    ensures Ready(m) && m.smgr.clauses == old(m.smgr.clauses) + more && m.smgr.asserted == old(m.smgr.asserted) + [root]
  {
    hide m.Sane, Encoded, VarsShared, Unmarked, Asserts;
    AssertRoot(m.graph, m.smgr.numbered, m.smgr.nextCnfId, m.smgr.clauses, m.smgr.asserted, root, more);
    m.smgr.clauses := m.smgr.clauses + more;
    m.smgr.asserted := m.smgr.asserted + [root];
  }

  /** `bzla_aig_add_toplevel_to_sat` */
  method AddToplevel(m: Manager, root: Lit)
    requires Ready(m) && m.Live(root)
    modifies m`mark, m`local, m`cnfId, m.smgr
    ensures Ready(m) && m.smgr.asserted == old(m.smgr.asserted) + [root]
  {
    hide Ready, Asserts, LeafNumbered, CnfLit;
    RootKnown(m, root);
    if root == TRUE_LIT {
      ConstRoot(m.graph, m.smgr.numbered, root);
      AddClauses(m, root, []);
    } else if root == FALSE_LIT {
      ConstRoot(m.graph, m.smgr.numbered, root);
      AddClauses(m, root, [[]]);
    } else {
      ToSatTseitin(m, root);
      RootKnown(m, root);
      UnitRoot(m.graph, m.smgr.numbered, m.cnfId, root);
      AddClauses(m, root, [[CnfLit(m.cnfId, root)]]);
    }
  }

  lemma {:induction false} RootKnown(m: Manager, root: Lit)
    requires Ready(m) && m.Live(root)
    ensures |m.graph| >= 2 && m.graph[0] == Const && root.id < |m.graph| == |m.cnfId|
    ensures root.id >= 2 && m.cnfId[root.id] != 0 ==> LeafNumbered(m.cnfId, m.smgr.numbered, root)
    ensures root.id == 0 || root.id >= 2
  {
  }

  // ---------------------------------------------------------------- the clause set and the roots

  /** The assignment of the CNF variables that an assignment of the AIG variables forces. */
  ghost function Extension(g: Graph, numbered: map<nat, nat>, env: Env): Model {
    (c: nat) => if c in numbered then Eval(g, Lit(numbered[c], false), env) else true
  }

  /** Each assignment of the AIG variables extends in exactly one way to the CNF variables that
      were handed out, and that extension is a model iff the asserted roots hold. */
  lemma {:induction false} UniqueExtension(g: Graph, numbered: map<nat, nat>, next: nat, clauses: seq<seq<int>>,
        asserted: seq<Lit>, env: Env)
    requires Encoded(g, numbered, next, clauses, asserted)
    ensures var E := Extension(g, numbered, env);
            && VarsMeet(E, env, g, numbered)
            && (SatAll(E, clauses) <==> RootsTrue(g, asserted, env))
            && (forall M: Model :: VarsMeet(M, env, g, numbered) && SatAll(M, clauses) ==>
                  forall c :: c in numbered ==> M(c) == E(c))
  {
    var E := Extension(g, numbered, env);
    forall c | c in numbered && numbered[c] < |g| && g[numbered[c]].Var?
      ensures E(c) == env(numbered[c])
    {
      EvalVar(g, Lit(numbered[c], false), env);
    }
    hide SatAll, RootsTrue, Eval;
    assert VarsMeet(E, env, g, numbered) && E(1);
  }

  /** The assignment of the AIG variables that a model of the clauses stands for. */
  ghost function Restriction(numbered: map<nat, nat>, M: Model): Env {
    (n: nat) => exists c :: c in numbered && numbered[c] == n && M(c)
  }

  /** In every model of the clauses each numbered node has its AIG value, and the asserted
      roots hold. */
  lemma {:induction false} ModelMeans(g: Graph, numbered: map<nat, nat>, next: nat, clauses: seq<seq<int>>,
        asserted: seq<Lit>, M: Model)
    requires Encoded(g, numbered, next, clauses, asserted) && SatAll(M, clauses)
    ensures var env := Restriction(numbered, M);
            VarsMeet(M, env, g, numbered) && Meets(M, env, g, numbered) && RootsTrue(g, asserted, env)
  {
    hide SatAll, RootsTrue, Eval;
    var env := Restriction(numbered, M);
    forall c | c in numbered && numbered[c] < |g| && g[numbered[c]].Var?
      ensures M(c) == env(numbered[c])
    {
      if env(numbered[c]) {
        var d :| d in numbered && numbered[d] == numbered[c] && M(d);
        assert c == d;
      }
    }
    assert VarsMeet(M, env, g, numbered);
  }

  /** The clause set is satisfiable exactly when the asserted roots are. */
  lemma {:induction false} Equisatisfiable(g: Graph, numbered: map<nat, nat>, next: nat, clauses: seq<seq<int>>,
        asserted: seq<Lit>)
    requires Encoded(g, numbered, next, clauses, asserted)
    ensures (exists M: Model :: SatAll(M, clauses)) <==> exists env: Env :: RootsTrue(g, asserted, env)
  {
    hide SatAll, RootsTrue, Eval;
    if M: Model :| SatAll(M, clauses) {
      ModelMeans(g, numbered, next, clauses, asserted, M);
      assert RootsTrue(g, asserted, Restriction(numbered, M));
    }
    if env: Env :| RootsTrue(g, asserted, env) {
      UniqueExtension(g, numbered, next, clauses, asserted, env);
      assert SatAll(Extension(g, numbered, env), clauses);
    }
  }
}
