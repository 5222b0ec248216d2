/** Translation of bit-vector expressions into AIG vectors (src/bzlacore.c:2319-2638). */
module AigSynth {
  import opened Arith
  import opened BvRef
  import opened AigGraph
  import opened References
  import opened AigManager
  import opened AigNum
  import opened AigVector
  import AigAdder
  import AigDiv
  import AigLogic
  import AigMul
  import AigShift
  import AigSigned
  import opened Expressions
  import WorkList

  // ---------------------------------------------------------------- one operator

  /** The vector `r` denotes the operator applied to what `u` and `v` denote. */
  ghost predicate Computes(g: Graph, r: seq<Lit>, g0: Graph, kind: Kind, u: seq<Lit>, v: seq<Lit>)
    requires IsBinary(kind) && |v| > 0
  {
    forall env: Env :: Num(g, r, env) == Binary(kind, Num(g0, u, env), Num(g0, v, env), |v|)
  }

  method BuildLogic(m: Manager, kind: Kind, av0: array<Lit>, av1: array<Lit>) returns (res: array<Lit>)
    requires m.Valid() && IsBinary(kind) && IsLogic(kind)
    requires 0 < av0.Length == av1.Length && HeldVec(m.handles, av0[..]) && HeldVec(m.handles, av1[..])
    modifies m
    ensures m.Valid() && fresh(res) && res.Length == BinaryWidth(kind, av0.Length, av1.Length)
    ensures Made(old(m.handles), old(m.graph), m.handles, m.graph, res[..])
    ensures Computes(m.graph, res[..], old(m.graph), kind, av0[..], av1[..])
  {
    hide m.Valid, Num, Made, HeldVec, BvAnd, BvEq, BvUlt, BvSlt;
    match kind {
      case AndNode => res := AigLogic.MakeAndVec(m, av0, av1);
      case EqNode => res := AigLogic.MakeEqVec(m, av0, av1);
      case UltNode => res := AigLogic.MakeUlt(m, av0, av1);
      case SltNode => res := AigSigned.MakeSlt(m, av0, av1);
    }
  }

  method BuildArith(m: Manager, sortVec: bool, kind: Kind, av0: array<Lit>, av1: array<Lit>) returns (res: array<Lit>)
    requires m.Valid() && IsBinary(kind) && IsArith(kind)
    requires 0 < av0.Length == av1.Length && HeldVec(m.handles, av0[..]) && HeldVec(m.handles, av1[..])
    modifies m
    ensures m.Valid() && fresh(res) && res.Length == av0.Length
    ensures Made(old(m.handles), old(m.graph), m.handles, m.graph, res[..])
    ensures Computes(m.graph, res[..], old(m.graph), kind, av0[..], av1[..])
  {
    hide m.Valid, Num, Made, HeldVec, BvAdd, BvMul, BvUdiv, BvUrem;
    match kind {
      case AddNode => res := AigAdder.MakeAdd(m, sortVec, av0, av1);
      case MulNode => res := AigMul.MakeMul(m, sortVec, av0, av1);
      case UdivNode => res := AigDiv.MakeUdiv(m, av0, av1);
      case UremNode => res := AigDiv.MakeUrem(m, av0, av1);
    }
  }

  method BuildMove(m: Manager, kind: Kind, av0: array<Lit>, av1: array<Lit>) returns (res: array<Lit>)
    requires m.Valid() && IsBinary(kind) && (kind.SllNode? || kind.SrlNode? || kind.ConcatNode?)
    requires 0 < av0.Length && 0 < av1.Length && (kind.ConcatNode? || av0.Length == av1.Length)
    requires HeldVec(m.handles, av0[..]) && HeldVec(m.handles, av1[..])
    modifies m
    ensures m.Valid() && fresh(res) && res.Length == BinaryWidth(kind, av0.Length, av1.Length)
    ensures Made(old(m.handles), old(m.graph), m.handles, m.graph, res[..])
    ensures Computes(m.graph, res[..], old(m.graph), kind, av0[..], av1[..])
  {
    hide m.Valid, Num, Made, HeldVec, BvSll, BvSrl, BvConcat;
    match kind {
      case SllNode => res := AigShift.MakeShift(m, AigShift.ShiftLeft, av0, av1);
      case SrlNode => res := AigShift.MakeShift(m, AigShift.ShiftRight, av0, av1);
      case ConcatNode => res := MakeConcat(m, av0, av1);
    }
  }

  /** The switch over the binary node kinds. */
  method BuildBinary(m: Manager, sortVec: bool, kind: Kind, av0: array<Lit>, av1: array<Lit>) returns (res: array<Lit>)
    requires m.Valid() && IsBinary(kind)
    requires 0 < av0.Length && 0 < av1.Length && (kind.ConcatNode? || av0.Length == av1.Length)
    requires HeldVec(m.handles, av0[..]) && HeldVec(m.handles, av1[..])
    modifies m
    ensures m.Valid() && fresh(res) && res.Length == BinaryWidth(kind, av0.Length, av1.Length)
    ensures Made(old(m.handles), old(m.graph), m.handles, m.graph, res[..])
    ensures Computes(m.graph, res[..], old(m.graph), kind, av0[..], av1[..])
  {
    hide m.Valid, Num, Made, HeldVec, Binary;
    if IsLogic(kind) {
      res := BuildLogic(m, kind, av0, av1);
    } else if IsArith(kind) {
      res := BuildArith(m, sortVec, kind, av0, av1);
    } else {
      res := BuildMove(m, kind, av0, av1);
    }
  }

  // ---------------------------------------------------------------- children seen through edges

  /** Cells seen through an edge. */
  function Seen(inv: bool, v: seq<Lit>): (r: seq<Lit>)
    ensures |r| == |v|
  { if inv then Inverted(v) else v }

  lemma {:induction false} SeenTwice(inv: bool, v: seq<Lit>)
    ensures Seen(inv, Seen(inv, v)) == v
  {
    InvertedTwice(v);
  }

  lemma {:induction false} SeenKeeps(h: multiset<nat>, g: Graph, inv: bool, v: seq<Lit>, u: seq<Lit>)
    requires HeldVec(h, v) && Within(g, v) && u == Seen(inv, v)
    ensures HeldVec(h, u) && Within(g, u) && Refs(u) == Refs(v)
    ensures forall env: Env {:trigger Num(g, u, env)} :: Num(g, u, env) == Through(inv, Num(g, v, env), |v|)
  {
    hide Num, NodeRef;
    if inv { InvertedKeeps(h, g, v, u); }
  }

  /** Flip the vector in place if the edge is inverted. */
  method InvertIf(av: array<Lit>, inv: bool)
    modifies av
    ensures av[..] == Seen(inv, old(av[..]))
  {
    if inv { Invert(av); }
  }

  /** A binary node over children in different memory: they are inverted in place, used,
      and inverted back. */
  method SynthApart(m: Manager, sortVec: bool, kind: Kind, av0: array<Lit>, inv0: bool, av1: array<Lit>, inv1: bool)
    returns (res: array<Lit>)
    requires m.Valid() && IsBinary(kind) && av0 != av1
    requires 0 < av0.Length && 0 < av1.Length && (kind.ConcatNode? || av0.Length == av1.Length)
    requires HeldVec(m.handles, av0[..]) && HeldVec(m.handles, av1[..])
    modifies m, av0, av1
    ensures m.Valid() && fresh(res) && res.Length == BinaryWidth(kind, av0.Length, av1.Length)
    ensures av0[..] == old(av0[..]) && av1[..] == old(av1[..])
    ensures Made(old(m.handles), old(m.graph), m.handles, m.graph, res[..])
    ensures forall env: Env :: Num(m.graph, res[..], env)
              == Binary(kind, Through(inv0, Num(old(m.graph), old(av0[..]), env), av0.Length),
                        Through(inv1, Num(old(m.graph), old(av1[..]), env), av1.Length), av1.Length)
  {
    hide m.Valid, Num, Made, HeldVec, Within, Binary, Seen, Through;
    ghost var g, h, v0, v1 := m.graph, m.handles, av0[..], av1[..];
    HeldWithin(m, v0);
    HeldWithin(m, v1);
    InvertIf(av0, inv0);
    InvertIf(av1, inv1);
    ghost var u0, u1 := av0[..], av1[..];
    SeenKeeps(h, g, inv0, v0, u0);
    SeenKeeps(h, g, inv1, v1, u1);
    res := BuildBinary(m, sortVec, kind, av0, av1);
    InvertIf(av0, inv0);
    InvertIf(av1, inv1);
    SeenTwice(inv0, v0);
    SeenTwice(inv1, v1);
  }

  /** `BZLA_AIGVEC_NODE`: a copy of a child's vector as the edge shows it. */
  method CopyThrough(m: Manager, av: array<Lit>, inv: bool) returns (res: array<Lit>)
    requires m.Valid() && HeldVec(m.handles, av[..])
    modifies m
    ensures m.Valid() && fresh(res) && res.Length == av.Length && res[..] == Seen(inv, av[..])
    ensures m.graph == old(m.graph) && Made(old(m.handles), old(m.graph), m.handles, m.graph, res[..])
    ensures forall env: Env :: Num(m.graph, res[..], env) == Through(inv, Num(old(m.graph), av[..], env), av.Length)
  {
    hide m.Valid, Num, Made, HeldVec;
    if inv {
      res := MakeNot(m, av);
    } else {
      res := Copy(m, av);
    }
  }

  /** A binary node whose children share memory: both are copied first. */
  method SynthShared(m: Manager, sortVec: bool, kind: Kind, av: array<Lit>, inv0: bool, inv1: bool)
    returns (res: array<Lit>)
    requires m.Valid() && IsBinary(kind) && 0 < av.Length && HeldVec(m.handles, av[..])
    modifies m
    ensures m.Valid() && fresh(res) && res.Length == BinaryWidth(kind, av.Length, av.Length)
    ensures Made(old(m.handles), old(m.graph), m.handles, m.graph, res[..])
    ensures forall env: Env :: Num(m.graph, res[..], env)
              == Binary(kind, Through(inv0, Num(old(m.graph), av[..], env), av.Length),
                        Through(inv1, Num(old(m.graph), av[..], env), av.Length), av.Length)
  {
    hide m.Valid, Num, HeldVec, Within, Extends, Refs, NodeRef, Binary, Seen, Through;
    ghost var h0, g0, v := m.handles, m.graph, av[..];
    HeldWithin(m, v);
    var av0 := CopyThrough(m, av, inv0);
    ghost var h1, u0 := m.handles, av0[..];
    MadeKeeps(h0, g0, h1, g0, u0);
    var av1 := CopyThrough(m, av, inv1);
    ghost var h2, u1 := m.handles, av1[..];
    MadeKeeps(h1, g0, h2, g0, u1);
    res := BuildBinary(m, sortVec, kind, av0, av1);
    ghost var h3, g3, r := m.handles, m.graph, res[..];
    MadeKeeps(h2, g0, h3, g3, r);
    assert m.handles == h0 + Refs(u0) + (Refs(u1) + Refs(r));
    ReleaseLast(m, av0, h0, Refs(u1) + Refs(r));
    assert m.handles == h0 + Refs(u1) + Refs(r);
    ReleaseLast(m, av1, h0, Refs(r));
  }

  method SynthSlice(m: Manager, av: array<Lit>, inv: bool, upper: nat, lower: nat) returns (res: array<Lit>)
    requires m.Valid() && lower <= upper < av.Length && HeldVec(m.handles, av[..])
    modifies m, av
    ensures m.Valid() && fresh(res) && res.Length == upper - lower + 1 && av[..] == old(av[..])
    ensures Made(old(m.handles), old(m.graph), m.handles, m.graph, res[..])
    ensures forall env: Env :: Num(m.graph, res[..], env)
              == BvSlice(Through(inv, Num(old(m.graph), old(av[..]), env), av.Length), upper, lower)
  {
    hide m.Valid, Num, Made, HeldVec, Within, BvSlice, Seen, Through;
    ghost var g, h, v := m.graph, m.handles, av[..];
    HeldWithin(m, v);
    InvertIf(av, inv);
    SeenKeeps(h, g, inv, v, av[..]);
    res := MakeSlice(m, av, upper, lower);
    InvertIf(av, inv);
    SeenTwice(inv, v);
  }

  method InvertThree(av0: array<Lit>, inv0: bool, av1: array<Lit>, inv1: bool, av2: array<Lit>, inv2: bool)
    requires av0 != av1 && av0 != av2 && av1 != av2
    modifies av0, av1, av2
    ensures av0[..] == Seen(inv0, old(av0[..]))
    ensures av1[..] == Seen(inv1, old(av1[..]))
    ensures av2[..] == Seen(inv2, old(av2[..]))
  {
    hide Seen;
    InvertIf(av0, inv0);
    InvertIf(av1, inv1);
    InvertIf(av2, inv2);
  }

  /** An if-then-else node whose children are all in different memory. */
  method SynthCondApart(m: Manager, av0: array<Lit>, inv0: bool, av1: array<Lit>, inv1: bool, av2: array<Lit>,
        inv2: bool)
    returns (res: array<Lit>)
    requires m.Valid() && av0 != av1 && av0 != av2 && av1 != av2
    requires av0.Length == 1 && 0 < av1.Length == av2.Length
    requires HeldVec(m.handles, av0[..]) && HeldVec(m.handles, av1[..]) && HeldVec(m.handles, av2[..])
    modifies m, av0, av1, av2
    ensures m.Valid() && fresh(res) && res.Length == av1.Length
    ensures av0[..] == old(av0[..]) && av1[..] == old(av1[..]) && av2[..] == old(av2[..])
    ensures Made(old(m.handles), old(m.graph), m.handles, m.graph, res[..])
    ensures forall env: Env :: Num(m.graph, res[..], env)
              == BvCond(Through(inv0, Num(old(m.graph), old(av0[..]), env), 1),
                        Through(inv1, Num(old(m.graph), old(av1[..]), env), av1.Length),
                        Through(inv2, Num(old(m.graph), old(av2[..]), env), av1.Length))
  {
    hide m.Valid, Num, Made, HeldVec, Within, BvCond, Seen, Through;
    ghost var g, h, v0, v1, v2 := m.graph, m.handles, av0[..], av1[..], av2[..];
    HeldWithin(m, v0);
    HeldWithin(m, v1);
    HeldWithin(m, v2);
    InvertThree(av0, inv0, av1, inv1, av2, inv2);
    ghost var u0, u1, u2 := av0[..], av1[..], av2[..];
    SeenKeeps(h, g, inv0, v0, u0);
    SeenKeeps(h, g, inv1, v1, u1);
    SeenKeeps(h, g, inv2, v2, u2);
    res := AigLogic.MakeCondVec(m, av0, av1, av2);
    InvertThree(av0, inv0, av1, inv1, av2, inv2);
    SeenTwice(inv0, v0);
    SeenTwice(inv1, v1);
    SeenTwice(inv2, v2);
  }

  /** An if-then-else node some of whose children share memory: all three are copied first. */
  method SynthCondShared(m: Manager, e0: array<Lit>, inv0: bool, e1: array<Lit>, inv1: bool, e2: array<Lit>, inv2: bool)
    returns (res: array<Lit>)
    requires m.Valid() && e0.Length == 1 && 0 < e1.Length == e2.Length
    requires HeldVec(m.handles, e0[..]) && HeldVec(m.handles, e1[..]) && HeldVec(m.handles, e2[..])
    modifies m
    ensures m.Valid() && fresh(res) && res.Length == e1.Length
    ensures Made(old(m.handles), old(m.graph), m.handles, m.graph, res[..])
    ensures forall env: Env :: Num(m.graph, res[..], env)
              == BvCond(Through(inv0, Num(old(m.graph), e0[..], env), 1),
                        Through(inv1, Num(old(m.graph), e1[..], env), e1.Length),
                        Through(inv2, Num(old(m.graph), e2[..], env), e1.Length))
  {
    hide m.Valid, Num, HeldVec, Within, Extends, Refs, NodeRef, BvCond, Seen, Through;
    ghost var h0, g0, v0, v1, v2 := m.handles, m.graph, e0[..], e1[..], e2[..];
    HeldWithin(m, v0);
    HeldWithin(m, v1);
    HeldWithin(m, v2);
    var av0 := CopyThrough(m, e0, inv0);
    ghost var h1, u0 := m.handles, av0[..];
    MadeKeeps(h0, g0, h1, g0, u0);
    var av1 := CopyThrough(m, e1, inv1);
    ghost var h2, u1 := m.handles, av1[..];
    MadeKeeps(h1, g0, h2, g0, u1);
    var av2 := CopyThrough(m, e2, inv2);
    ghost var h3, u2 := m.handles, av2[..];
    MadeKeeps(h2, g0, h3, g0, u2);
    res := AigLogic.MakeCondVec(m, av0, av1, av2);
    ghost var h4, g4, r := m.handles, m.graph, res[..];
    MadeKeeps(h3, g0, h4, g4, r);
    ReleaseLast(m, av2, h2, Refs(r));
    ReleaseLast(m, av1, h1, Refs(r));
    ReleaseLast(m, av0, h0, Refs(r));
  }

  // ---------------------------------------------------------------- meaning of a whole table

  /** The assignment gives every synthesized variable the value of its vector. */
  ghost predicate Agrees(exps: seq<Exp>, cells: seq<seq<Lit>>, g: Graph, env: Env, x: Assignment)
    requires |cells| == |exps|
  {
    forall v: nat :: v < |exps| && exps[v].kind.VarNode? && cells[v] != [] ==> x(v) == Num(g, cells[v], env)
  }

  /** Every synthesized node has the vector of its value. */
  ghost predicate Denotes(exps: seq<Exp>, cells: seq<seq<Lit>>, g: Graph, env: Env, x: Assignment)
    requires WellTyped(exps) && |cells| == |exps|
  {
    forall i: nat :: i < |exps| && cells[i] != [] ==> Num(g, cells[i], env) == Value(exps, x, i)
  }

  ghost predicate Sound(exps: seq<Exp>, cells: seq<seq<Lit>>, g: Graph)
    requires WellTyped(exps) && |cells| == |exps|
  {
    forall env: Env, x: Assignment :: Agrees(exps, cells, g, env, x) ==> Denotes(exps, cells, g, env, x)
  }

  /** The cells of the synthesized variables are AIG variables, all different. */
  ghost predicate Free(exps: seq<Exp>, cells: seq<seq<Lit>>, g: Graph) {
    && |cells| == |exps|
    && (forall v: nat, k: nat :: v < |exps| && exps[v].kind.VarNode? && k < |cells[v]| ==>
          !cells[v][k].inv && cells[v][k].id < |g| && g[cells[v][k].id].Var?)
    && forall v: nat, k: nat, v': nat, k': nat ::
         (&& v < |exps| && exps[v].kind.VarNode? && k < |cells[v]|
          && v' < |exps| && exps[v'].kind.VarNode? && k' < |cells[v']|
          && cells[v][k].id == cells[v'][k'].id) ==> v == v' && k == k'
  }

  lemma {:induction false} FreeStep(exps: seq<Exp>, cells: seq<seq<Lit>>, g: Graph, g': Graph, i: nat, r: seq<Lit>)
    requires Free(exps, cells, g) && i < |exps| && cells[i] == [] && g <= g'
    requires exps[i].kind.VarNode? ==> FreshVars(g', r, |g| + |r|)
    ensures Free(exps, cells[i := r], g')
  {
  }

  /** The bits of an assignment, read at the cells that stand for them. */
  ghost function EnvFor(exps: seq<Exp>, cells: seq<seq<Lit>>, x: Assignment): Env {
    (n: nat) => exists v: nat, k: nat :: v < |exps| && v < |cells| && exps[v].kind.VarNode? && k < |cells[v]|
                                          && cells[v][k].id == n && BitAt(x(v), |cells[v]| - 1 - k) == 1
  }

  /** Vector cells that carry the bits of a number denote it. */
  lemma {:induction false} NumOfBits(g: Graph, v: seq<Lit>, a: nat, env: Env)
    requires a < Pow2(|v|)
    requires forall k :: 0 <= k < |v| ==> Val(g, v[k], env) == BitAt(a, |v| - 1 - k)
    ensures Num(g, v, env) == a
  {
    if |v| > 0 {
      var w := |v| - 1;
      var high := Arith.Divide(a, Pow2(w));
      DivBelow(a, 2, Pow2(w));
      assert high <= 1 && high % 2 == high;
      forall k | 0 <= k < w
        ensures Val(g, v[1..][k], env) == BitAt(a % Pow2(w), w - 1 - k)
      {
        LowBit(a, w, w - 1 - k);
      }
      NumOfBits(g, v[1..], a % Pow2(w), env);
    } else {
      assert Pow2(0) == 1;
    }
  }

  /** No assignment is lost: every value of the bit-vector variables is taken by the vectors
      under some assignment of the AIG variables. */
  lemma {:induction false} EveryAssignment(exps: seq<Exp>, cells: seq<seq<Lit>>, g: Graph, x: Assignment)
    requires Free(exps, cells, g)
    requires forall v: nat :: v < |exps| && exps[v].kind.VarNode? && cells[v] != [] ==> x(v) < Pow2(|cells[v]|)
    ensures Agrees(exps, cells, g, EnvFor(exps, cells, x), x)
  {
    var env := EnvFor(exps, cells, x);
    forall v: nat | v < |exps| && exps[v].kind.VarNode? && cells[v] != []
      ensures x(v) == Num(g, cells[v], env)
    {
      forall k | 0 <= k < |cells[v]|
        ensures Val(g, cells[v][k], env) == BitAt(x(v), |cells[v]| - 1 - k)
      {
        EvalVar(g, cells[v][k], env);
        assert env(cells[v][k].id) <==> BitAt(x(v), |cells[v]| - 1 - k) == 1;
      }
      NumOfBits(g, cells[v], x(v), env);
    }
  }

  ghost predicate Known(g: Graph, cells: seq<seq<Lit>>) {
    forall i :: 0 <= i < |cells| ==> Within(g, cells[i])
  }

  /** The vector `r` built in `g'` is right for node `i`. */
  ghost predicate Means(exps: seq<Exp>, cells: seq<seq<Lit>>, g: Graph, g': Graph, i: nat, r: seq<Lit>)
    requires WellTyped(exps) && |cells| == |exps| && i < |exps|
  {
    forall env: Env, x: Assignment {:trigger Agrees(exps, cells, g, env, x), Num(g', r, env)} ::
      Agrees(exps, cells, g, env, x) ==> Num(g', r, env) == Value(exps, x, i)
  }

  lemma {:induction false} AgreesBefore(exps: seq<Exp>, cells: seq<seq<Lit>>, g: Graph, g': Graph, i: nat,
        r: seq<Lit>, env: Env, x: Assignment)
    requires |cells| == |exps| && i < |exps| && cells[i] == []
    requires Known(g, cells) && Grows(g, g') && Agrees(exps, cells[i := r], g', env, x)
    ensures Agrees(exps, cells, g, env, x)
  {
    hide Num, Grows;
    forall v: nat | v < |exps| && exps[v].kind.VarNode? && cells[v] != []
      ensures x(v) == Num(g, cells[v], env)
    {
      NumGrows(g, g', cells[v], env);
      assert cells[i := r][v] == cells[v];
    }
  }

  /** Adding a right vector keeps the table sound. */
  lemma {:induction false} SoundStep(exps: seq<Exp>, cells: seq<seq<Lit>>, g: Graph, g': Graph, i: nat, r: seq<Lit>)
    requires WellTyped(exps) && |cells| == |exps| && i < |exps| && cells[i] == []
    requires Sound(exps, cells, g) && Known(g, cells) && Grows(g, g') && Within(g', r)
    requires Means(exps, cells, g, g', i, r) || exps[i].kind.VarNode?
    ensures Sound(exps, cells[i := r], g') && Known(g', cells[i := r])
  {
    hide WellTyped, Num, Grows, Value, Within, Agrees;
    var cells' := cells[i := r];
    forall env: Env, x: Assignment | Agrees(exps, cells', g', env, x)
      ensures Denotes(exps, cells', g', env, x)
    {
      AgreesBefore(exps, cells, g, g', i, r, env, x);
      forall k: nat | k < |exps| && cells'[k] != []
        ensures Num(g', cells'[k], env) == Value(exps, x, k)
      {
        if k != i {
          NumGrows(g, g', cells[k], env);
        } else if exps[i].kind.VarNode? {
          VarValue(exps, cells', g', i, env, x);
        }
      }
    }
    forall k | 0 <= k < |cells'|
      ensures Within(g', cells'[k])
    {
      if k != i { WithinGrows(g, g', cells[k]); }
    }
  }

  lemma {:induction false} VarValue(exps: seq<Exp>, cells: seq<seq<Lit>>, g: Graph, i: nat, env: Env, x: Assignment)
    requires WellTyped(exps) && |cells| == |exps| && i < |exps| && exps[i].kind.VarNode? && cells[i] != []
    requires Agrees(exps, cells, g, env, x)
    ensures Num(g, cells[i], env) == Value(exps, x, i)
  {
  }

  lemma {:induction false} SliceMeans(exps: seq<Exp>, cells: seq<seq<Lit>>, g: Graph, g': Graph, i: nat, r: seq<Lit>)
    requires WellTyped(exps) && |cells| == |exps| && i < |exps| && exps[i].kind.SliceNode? && Sound(exps, cells, g)
    requires |exps[i].e| == 1 && exps[i].e[0].id < |exps| && cells[exps[i].e[0].id] != []
    requires exps[i].kind.lower <= exps[i].kind.upper
    requires forall env: Env :: Num(g', r, env)
               == BvSlice(Through(exps[i].e[0].inv, Num(g, cells[exps[i].e[0].id], env), exps[exps[i].e[0].id].width),
                          exps[i].kind.upper, exps[i].kind.lower)
    ensures Means(exps, cells, g, g', i, r)
  {
    hide Num, BvSlice, Agrees;
    forall env: Env, x: Assignment | Agrees(exps, cells, g, env, x)
      ensures Num(g', r, env) == Value(exps, x, i)
    {
      assert Denotes(exps, cells, g, env, x);
    }
  }

  lemma {:induction false} BinaryMeans(exps: seq<Exp>, cells: seq<seq<Lit>>, g: Graph, g': Graph, i: nat, r: seq<Lit>)
    requires WellTyped(exps) && |cells| == |exps| && i < |exps| && IsBinary(exps[i].kind) && Sound(exps, cells, g)
    requires |exps[i].e| == 2 && exps[i].e[0].id < |exps| && cells[exps[i].e[0].id] != []
    requires exps[i].e[1].id < |exps| && cells[exps[i].e[1].id] != [] && exps[exps[i].e[1].id].width > 0
    requires forall env: Env :: Num(g', r, env)
               == Binary(exps[i].kind,
                         Through(exps[i].e[0].inv, Num(g, cells[exps[i].e[0].id], env), exps[exps[i].e[0].id].width),
                         Through(exps[i].e[1].inv, Num(g, cells[exps[i].e[1].id], env), exps[exps[i].e[1].id].width),
                         exps[exps[i].e[1].id].width)
    ensures Means(exps, cells, g, g', i, r)
  {
    hide Num, Binary, Agrees;
    forall env: Env, x: Assignment | Agrees(exps, cells, g, env, x)
      ensures Num(g', r, env) == Value(exps, x, i)
    {
      assert Denotes(exps, cells, g, env, x);
    }
  }

  lemma {:induction false} CondMeans(exps: seq<Exp>, cells: seq<seq<Lit>>, g: Graph, g': Graph, i: nat, r: seq<Lit>)
    requires WellTyped(exps) && |cells| == |exps| && i < |exps| && exps[i].kind.CondNode? && Sound(exps, cells, g)
    requires |exps[i].e| == 3 && forall k :: 0 <= k < 3 ==> exps[i].e[k].id < |exps| && cells[exps[i].e[k].id] != []
    requires forall env: Env :: Num(g', r, env)
               == BvCond(Through(exps[i].e[0].inv, Num(g, cells[exps[i].e[0].id], env), exps[exps[i].e[0].id].width),
                         Through(exps[i].e[1].inv, Num(g, cells[exps[i].e[1].id], env), exps[exps[i].e[1].id].width),
                         Through(exps[i].e[2].inv, Num(g, cells[exps[i].e[2].id], env), exps[exps[i].e[2].id].width))
    ensures Means(exps, cells, g, g', i, r)
  {
    hide Num, BvCond, Agrees;
    forall env: Env, x: Assignment | Agrees(exps, cells, g, env, x)
      ensures Num(g', r, env) == Value(exps, x, i)
    {
      assert Denotes(exps, cells, g, env, x);
    }
  }

  lemma {:induction false} ConstMeans(exps: seq<Exp>, cells: seq<seq<Lit>>, g: Graph, g': Graph, i: nat, r: seq<Lit>)
    requires WellTyped(exps) && |cells| == |exps| && i < |exps| && exps[i].kind.ConstNode?
    requires forall env: Env :: Num(g', r, env) == exps[i].kind.bits
    ensures Means(exps, cells, g, g', i, r)
  {
    hide Num, Agrees;
  }

  // ---------------------------------------------------------------- the expression table

  /** Every synthesized node has its own vector, with these contents. */
  ghost predicate Holds(exps: seq<Exp>, av: seq<array?<Lit>>, cells: seq<seq<Lit>>)
    reads set i: nat | i < |av| && av[i] != null :: av[i]
  {
    && |av| == |cells| == |exps|
    && (forall i: nat :: i < |av| ==> (av[i] == null <==> cells[i] == []))
    && (forall i: nat :: i < |av| && av[i] != null ==> av[i][..] == cells[i] && |cells[i]| == exps[i].width)
    && (forall i: nat, j: nat :: i < j < |av| && av[i] != null ==> av[i] != av[j])
  }

  // ---------------------------------------------------------------- the work list

  /** Child ids in the order in which they are pushed: the first child ends up on top. */
  function PushOrder(e: seq<Edge>): (r: seq<nat>)
    ensures |r| == |e| && forall k :: 0 <= k < |e| ==> r[k] == e[|e| - 1 - k].id
  {
    seq(|e|, k requires 0 <= k < |e| => e[|e| - 1 - k].id)
  }

  /** The child ids of every node. */
  ghost function Kids(exps: seq<Exp>): (r: seq<seq<nat>>)
    ensures |r| == |exps| && forall i :: 0 <= i < |exps| ==> r[i] == EdgeIds(exps[i].e)
  {
    seq(|exps|, i requires 0 <= i < |exps| => EdgeIds(exps[i].e))
  }

  ghost function EdgeIds(e: seq<Edge>): (r: seq<nat>)
    ensures |r| == |e| && forall k :: 0 <= k < |e| ==> r[k] == e[k].id
  {
    seq(|e|, k requires 0 <= k < |e| => e[k].id)
  }

  /** The synthesized nodes. */
  ghost function Done(cells: seq<seq<Lit>>): set<nat> { set i: nat {:trigger cells[i]} | i < |cells| && cells[i] != [] }

  lemma {:induction false} DoneKnown(cells: seq<seq<Lit>>, i: nat)
    requires i < |cells|
    ensures cells[i] != [] <==> i in Done(cells)
    ensures cells[i] != [] ==> Done(cells) + {i} == Done(cells)
  {
  }

  lemma {:induction false} DoneSet(cells: seq<seq<Lit>>, i: nat, r: seq<Lit>)
    requires i < |cells| && r != []
    ensures Done(cells[i := r]) == Done(cells) + {i}
  {
    assert cells[i := r][i] == r;
    forall k: nat
      ensures k in Done(cells[i := r]) <==> k in Done(cells) + {i}
    {
      if k < |cells| && k != i { assert cells[i := r][k] == cells[k]; }
    }
  }

  /** The top of the stack got its vector: it may be popped, or kept as visited. */
  lemma {:induction false} TopStored(kids: seq<seq<nat>>, cells0: seq<seq<Lit>>, cells: seq<seq<Lit>>,
        cache: set<nat>, pos: map<nat, nat>, stack: seq<nat>)
    requires WorkList.Waiting(kids, Done(cells0), cache, pos, stack) && |stack| > 0
    requires var t := stack[|stack| - 1];
             t < |cells0| && |cells| == |cells0| && cells[t] != [] && cells == cells0[t := cells[t]]
    ensures WorkList.Waiting(kids, Done(cells), cache, pos, stack[..|stack| - 1])
    ensures WorkList.Waiting(kids, Done(cells), cache + {stack[|stack| - 1]}, pos, stack)
  {
    hide WorkList.Waiting, Done;
    var t := stack[|stack| - 1];
    DoneSet(cells0, t, cells[t]);
    WorkList.PopDone(kids, Done(cells0), cache, pos, stack);
    WorkList.KeepDone(kids, Done(cells0), cache, pos, stack);
  }

  lemma {:induction false} PushOrderKids(exps: seq<Exp>, t: nat)
    requires WellTyped(exps) && t < |exps| && Arity(exps[t].kind) > 0
    ensures forall done: set<nat> :: WorkList.Covered(Kids(exps)[t], PushOrder(exps[t].e), done)
    ensures forall q :: 0 <= q < |PushOrder(exps[t].e)| ==> PushOrder(exps[t].e)[q] < t
  {
    assert Typed(exps, t);
    var e := exps[t].e;
    forall d | d in EdgeIds(e)
      ensures d in PushOrder(e)
    {
      var k :| 0 <= k < |e| && EdgeIds(e)[k] == d;
      assert PushOrder(e)[|e| - 1 - k] == d;
    }
  }

  lemma {:induction false} KidsDone(exps: seq<Exp>, cells: seq<seq<Lit>>, t: nat)
    requires WellTyped(exps) && |cells| == |exps| && t < |exps|
    requires forall k :: 0 <= k < |Kids(exps)[t]| ==> Kids(exps)[t][k] in Done(cells)
    ensures forall k :: 0 <= k < |exps[t].e| ==> exps[t].e[k].id < |exps| && cells[exps[t].e[k].id] != []
  {
    assert Typed(exps, t);
    forall k | 0 <= k < |exps[t].e|
      ensures exps[t].e[k].id < |exps| && cells[exps[t].e[k].id] != []
    {
      assert Kids(exps)[t][k] in Done(cells);
    }
  }

  lemma {:induction false} NoRefs(rows: seq<seq<Lit>>)
    requires forall i :: 0 <= i < |rows| ==> rows[i] == []
    ensures RowsRefs(rows) == multiset{}
  {
    if |rows| > 0 { NoRefs(rows[1..]); }
  }

  /** No node has a vector yet. */
  lemma {:induction false} EmptyTable(exps: seq<Exp>, av: seq<array?<Lit>>, cells: seq<seq<Lit>>, g: Graph)
    requires WellTyped(exps) && |av| == |cells| == |exps|
    requires forall i :: 0 <= i < |exps| ==> av[i] == null && cells[i] == []
    ensures Holds(exps, av, cells) && Known(g, cells) && Sound(exps, cells, g) && Free(exps, cells, g)
    ensures RowsRefs(cells) == multiset{}
  {
    hide Value, Refs, WellTyped, Num, RowsRefs;
    NoRefs(cells);
  }

  /** An operation that makes no variables and gives no reference back keeps them held. */
  lemma {:induction false} MadeHeld(h: multiset<nat>, g: Graph, h': multiset<nat>, g': Graph, cells: seq<Lit>)
    requires Made(h, g, h', g', cells)
    ensures h' == h + Refs(cells) && Grows(g, g') && Within(g', cells)
    ensures VarsHeld(g, h) ==> VarsHeld(g', h')
  {
    hide Eval, Refs;
  }

  /** New variables are held by their vector. */
  lemma {:induction false} FreshHeld(h: multiset<nat>, g: Graph, h': multiset<nat>, g': Graph, r: seq<Lit>)
    requires h' == h + Refs(r) && g <= g' && FreshVars(g', r, |g| + |r|)
    requires forall k :: 0 <= k < |r| ==> r[k].id != 0
    ensures VarsHeld(g, h) ==> VarsHeld(g', h')
  {
    if VarsHeld(g, h) {
      forall n: nat | n < |g'| && g'[n].Var?
        ensures n in h'
      {
        if n >= |g| {
          var k := |g'| - 1 - n;
          assert r[k] == Lit(n, false);
          RefsIn(r, k);
        }
      }
    }
  }

  /** The vector of a variable node. */
  method MakeHeldVars(m: Manager, width: nat) returns (res: array<Lit>)
    requires m.Valid()
    modifies m
    ensures m.Valid() && fresh(res) && res.Length == width
    ensures m.handles == old(m.handles) + Refs(res[..])
    ensures Grows(old(m.graph), m.graph) && Within(m.graph, res[..])
    ensures FreshVars(m.graph, res[..], |old(m.graph)| + width)
    ensures old(VarsHeld(m.graph, m.handles)) ==> VarsHeld(m.graph, m.handles)
  {
    hide m.Valid, FreshVars, VarsHeld, Grows, Within, Refs;
    ghost var g, h := m.graph, m.handles;
    NotBelowTwo(m);
    res := MakeVars(m, width);
    GrowsPrefix(g, m.graph);
    FreshIds(m.graph, res[..], |g| + width);
    FreshHeld(h, g, m.handles, m.graph, res[..]);
  }

  lemma {:induction false} FreshIds(g: Graph, v: seq<Lit>, top: nat)
    requires FreshVars(g, v, top) && top - |v| >= 2
    ensures forall k :: 0 <= k < |v| ==> v[k].id != 0
  {
  }

  lemma {:induction false} NotBelowTwo(m: Manager)
    requires m.Valid()
    ensures |m.graph| >= 2
  {
    hide m.Valid;
    m.HandlesKnown();
  }

  lemma {:induction false} RefsIn(v: seq<Lit>, k: nat)
    requires k < |v| && v[k].id != 0
    ensures v[k].id in Refs(v)
  {
    assert v == v[..k] + ([v[k]] + v[k + 1..]);
    RefsConcat(v[..k], [v[k]] + v[k + 1..]);
    RefsCons(v[k], v[k + 1..]);
  }

  class ExpTable {
    const exps: seq<Exp>
    const m: Manager
    const sortVec: bool
    const lazySynth: bool
    var av: seq<array?<Lit>>
    ghost var cells: seq<seq<Lit>>
    ghost var base: multiset<nat>

    ghost function Vectors(): set<object>
      reads this
    {
      set i: nat | i < |av| && av[i] != null :: av[i]
    }

    ghost predicate Facts()
      reads this, m, m.smgr
    {
      && WellTyped(exps) && |cells| == |exps|
      && m.Valid() && Known(m.graph, cells) && Sound(exps, cells, m.graph) && Free(exps, cells, m.graph)
      && m.handles == base + RowsRefs(cells)
    }

    ghost predicate Valid()
      reads this, m, m.smgr, Vectors()
    {
      Holds(exps, av, cells) && Facts()
    }

    constructor (exps: seq<Exp>, m: Manager, sortVec: bool, lazySynth: bool)
      requires WellTyped(exps) && m.Valid()
      ensures Valid() && this.exps == exps && this.m == m && this.lazySynth == lazySynth && this.sortVec == sortVec
      ensures base == m.handles && forall i :: 0 <= i < |exps| ==> av[i] == null
    {
      this.exps, this.m, this.sortVec, this.lazySynth := exps, m, sortVec, lazySynth;
      av := seq(|exps|, _ => null);
      cells := seq(|exps|, _ => []);
      base := m.handles;
      new;
      hide m.Valid, WellTyped, RowsRefs, Known, Sound, Free, Holds;
      EmptyTable(exps, av, cells, m.graph);
    }

    ghost predicate ChildrenDone(i: nat)
      reads this
    {
      i < |exps| && |cells| == |exps| &&
      forall k :: 0 <= k < |exps[i].e| ==> exps[i].e[k].id < |exps| && cells[exps[i].e[k].id] != []
    }

    lemma {:induction false} ChildFacts(i: nat, k: nat)
      requires Valid() && ChildrenDone(i) && k < |exps[i].e|
      ensures var c := exps[i].e[k].id;
              c < |av| && av[c] != null && av[c][..] == cells[c] && av[c].Length == exps[c].width > 0
              && HeldVec(m.handles, cells[c])
    {
      hide Num, RowsRefs, Value, HeldVec, Free;
      assert Typed(exps, exps[i].e[k].id);
      RowHeld(base, cells, exps[i].e[k].id);
    }

    /** A slice node: the last step of its synthesis. */
    method BuildSlice(i: nat) returns (res: array<Lit>)
      requires Valid() && ChildrenDone(i) && exps[i].kind.SliceNode?
      modifies m, Vectors()
      ensures Holds(exps, av, cells) && m.Valid() && fresh(res) && res.Length == exps[i].width
      ensures Made(old(m.handles), old(m.graph), m.handles, m.graph, res[..])
      ensures WellTyped(exps) && Means(exps, cells, old(m.graph), m.graph, i, res[..])
    {
      hide m.Valid, Num, Made, HeldVec, Known, Sound, Free, RowsRefs, Means, Through, BvSlice;
      assert Typed(exps, i);
      ChildFacts(i, 0);
      var e := exps[i].e[0];
      ghost var g := m.graph;
      res := SynthSlice(m, av[e.id], e.inv, exps[i].kind.upper, exps[i].kind.lower);
      SliceMeans(exps, cells, g, m.graph, i, res[..]);
    }

    /** A binary node: in-place inversion, or copies if the children share memory. */
    method BuildOperator(i: nat) returns (res: array<Lit>)
      requires Valid() && ChildrenDone(i) && IsBinary(exps[i].kind)
      modifies m, Vectors()
      ensures Holds(exps, av, cells) && m.Valid() && fresh(res) && res.Length == exps[i].width
      ensures Made(old(m.handles), old(m.graph), m.handles, m.graph, res[..])
      ensures WellTyped(exps) && Means(exps, cells, old(m.graph), m.graph, i, res[..])
    {
      hide m.Valid, Num, Made, HeldVec, Known, Sound, Free, RowsRefs, Means, Through, Binary;
      assert Typed(exps, i);
      ChildFacts(i, 0);
      ChildFacts(i, 1);
      var e0, e1 := exps[i].e[0], exps[i].e[1];
      ghost var g := m.graph;
      if e0.id == e1.id {
        res := SynthShared(m, sortVec, exps[i].kind, av[e0.id], e0.inv, e1.inv);
      } else {
        res := SynthApart(m, sortVec, exps[i].kind, av[e0.id], e0.inv, av[e1.id], e1.inv);
      }
      BinaryMeans(exps, cells, g, m.graph, i, res[..]);
    }

    method BuildCond(i: nat) returns (res: array<Lit>)
      requires Valid() && ChildrenDone(i) && exps[i].kind.CondNode?
      modifies m, Vectors()
      ensures Holds(exps, av, cells) && m.Valid() && fresh(res) && res.Length == exps[i].width
      ensures Made(old(m.handles), old(m.graph), m.handles, m.graph, res[..])
      ensures WellTyped(exps) && Means(exps, cells, old(m.graph), m.graph, i, res[..])
    {
      hide m.Valid, Num, Made, HeldVec, Known, Sound, Free, RowsRefs, Means, Through, BvCond;
      assert Typed(exps, i);
      ChildFacts(i, 0);
      ChildFacts(i, 1);
      ChildFacts(i, 2);
      var e0, e1, e2 := exps[i].e[0], exps[i].e[1], exps[i].e[2];
      ghost var g := m.graph;
      if e0.id == e1.id || e0.id == e2.id || e1.id == e2.id {
        res := SynthCondShared(m, av[e0.id], e0.inv, av[e1.id], e1.inv, av[e2.id], e2.inv);
      } else {
        res := SynthCondApart(m, av[e0.id], e0.inv, av[e1.id], e1.inv, av[e2.id], e2.inv);
      }
      CondMeans(exps, cells, g, m.graph, i, res[..]);
    }

    /** Store the vector of a node that had none. */
    method Store(i: nat, res: array<Lit>, ghost g: Graph, ghost h: multiset<nat>)
      requires i < |exps| && WellTyped(exps) && |cells| == |exps| && Holds(exps, av, cells) && cells[i] == []
      requires forall k: nat :: k < |av| ==> av[k] != res
      requires m.Valid() && res.Length == exps[i].width > 0
      requires Known(g, cells) && Sound(exps, cells, g) && Free(exps, cells, g) && h == base + RowsRefs(cells)
      requires exps[i].kind.VarNode? ==> FreshVars(m.graph, res[..], |g| + res.Length)
      requires m.handles == h + Refs(res[..]) && Grows(g, m.graph) && Within(m.graph, res[..])
      requires Means(exps, cells, g, m.graph, i, res[..]) || exps[i].kind.VarNode?
      modifies `av, `cells
      ensures Valid() && av == old(av)[i := res] && cells == old(cells)[i := res[..]]
    {
      hide m.Valid, Num, HeldVec, Known, Sound, Free, RowsRefs, Means, WellTyped, Grows, Within, Refs, NodeRef;
      hide FreshVars;
      SoundStep(exps, cells, g, m.graph, i, res[..]);
      GrowsPrefix(g, m.graph);
      FreeStep(exps, cells, g, m.graph, i, res[..]);
      RowsRefsSet(cells, i, res[..]);
      RefsEmpty();
      AddFront(base, RowsRefs(cells[i := res[..]]), multiset{}, RowsRefs(cells), Refs(res[..]));
      assert base + RowsRefs(cells[i := res[..]]) + multiset{} == base + RowsRefs(cells[i := res[..]]);
      av := av[i := res];
      cells := cells[i := res[..]];
    }

    /** Only node `i` got a vector; every older vector is the same object with the same cells. */
    twostate predicate OnlyStored(i: nat)
      reads this
    {
      && |av| == |old(av)| && |cells| == |old(cells)| && i < |av| && i < |cells|
      && av == old(av)[i := av[i]] && cells == old(cells)[i := cells[i]] && cells[i] != [] && base == old(base)
    }

    /** A constant or a variable. */
    method SynthLeaf(i: nat)
      requires Valid() && i < |exps| && cells[i] == [] && (exps[i].kind.ConstNode? || exps[i].kind.VarNode?)
      modifies this, m
      ensures Valid() && OnlyStored(i) && av[i] != null && fresh(av[i]) && Grows(old(m.graph), m.graph)
      ensures old(VarsHeld(m.graph, m.handles)) ==> VarsHeld(m.graph, m.handles)
    {
      hide m.Valid, Num, Made, HeldVec, Known, Sound, Free, RowsRefs, Means, FreshVars, VarsHeld, Grows;
      assert Typed(exps, i);
      ghost var g, h := m.graph, m.handles;
      var res;
      if exps[i].kind.ConstNode? {
        res := MakeConst(m, exps[i].kind.bits, exps[i].width);
        ConstMeans(exps, cells, g, m.graph, i, res[..]);
        MadeHeld(h, g, m.handles, m.graph, res[..]);
      } else {
        res := MakeHeldVars(m, exps[i].width);
      }
      Store(i, res, g, h);
    }

    /** A node whose children all have vectors. */
    method SynthInner(i: nat)
      requires Valid() && ChildrenDone(i) && cells[i] == [] && Arity(exps[i].kind) > 0
      modifies this, m, Vectors()
      ensures Valid() && OnlyStored(i) && av[i] != null && fresh(av[i]) && Grows(old(m.graph), m.graph)
      ensures old(VarsHeld(m.graph, m.handles)) ==> VarsHeld(m.graph, m.handles)
    {
      hide m.Valid, Num, Made, HeldVec, Known, Sound, Free, RowsRefs, Means;
      assert Typed(exps, i);
      ghost var g, h := m.graph, m.handles;
      var res;
      if exps[i].kind.SliceNode? {
        res := BuildSlice(i);
      } else if exps[i].kind.CondNode? {
        res := BuildCond(i);
      } else {
        res := BuildOperator(i);
      }
      MadeHeld(h, g, m.handles, m.graph, res[..]);
      hide VarsHeld, Grows;
      Store(i, res, g, h);
    }

    /** `bzla_synthesize_exp` for bit-vector nodes: a work list with a cache of visited nodes. */
    method Synthesize(root: Edge)
      requires Valid() && root.id < |exps|
      modifies this, m, Vectors()
      ensures Valid() && av[root.id] != null && base == old(base) && Grows(old(m.graph), m.graph)
      ensures old(VarsHeld(m.graph, m.handles)) ==> VarsHeld(m.graph, m.handles)
      ensures forall i: nat :: i < |exps| && old(av[i]) != null ==>
                av[i] == old(av[i]) && cells[i] == old(cells[i])
      ensures forall i: nat :: i < |exps| && av[i] != null ==> av[i] == old(av[i]) || fresh(av[i])
    {
      hide Facts, Holds, WorkList.Waiting, WorkList.Covered, WellTyped, PushOrder, Done, Kids, Grows, VarsHeld;
      hide Valid;
      GrowsSelf(m.graph);
      var stack: seq<nat> := [root.id];
      var cache: set<nat> := {};
      ghost var pos: map<nat, nat> := map[];
      ghost var av0, cells0, kids := av, cells, Kids(exps);
      ValidShape();
      WorkList.Start(kids, Done(cells), root.id);
      while stack != []
        invariant Valid() && base == old(base) && |av| == |cells| == |av0| == |exps|
        invariant Grows(old(m.graph), m.graph)
        invariant old(VarsHeld(m.graph, m.handles)) ==> VarsHeld(m.graph, m.handles)
        invariant WorkList.Waiting(kids, Done(cells), cache, pos, stack)
        invariant forall c: nat :: c in cache && c < |exps| ==> cells[c] != [] || Arity(exps[c].kind) > 0
        invariant cells[root.id] != [] || root.id in stack
        invariant forall i: nat :: i < |exps| && av0[i] != null ==> av[i] == av0[i] && cells[i] == cells0[i]
        invariant forall i: nat :: i < |exps| && av[i] != null ==> av[i] == av0[i] || fresh(av[i])
        decreases Ids(exps) - cache, |stack|
      {
        var n := |stack| - 1;
        var cur := stack[n];
        ValidShape();
        WorkList.Top(kids, Done(cells), cache, pos, stack);
        DoneKnown(cells, cur);
        ghost var before := cells;
        if av[cur] != null {
          WorkList.PopDone(kids, Done(cells), cache, pos, stack);
          stack := stack[..n];
        } else if cur !in cache {
          if exps[cur].kind.ConstNode? || exps[cur].kind.VarNode? {
            ghost var g := m.graph;
            SynthLeaf(cur);
            GrowsTrans(old(m.graph), g, m.graph);
            TopStored(kids, before, cells, cache, pos, stack);
            if exps[cur].kind.VarNode? && !lazySynth {
              cache := cache + {cur};
            } else {
              stack := stack[..n];
            }
          } else {
            PushOrderKids(exps, cur);
            WorkList.PushKids(kids, Done(cells), cache, pos, stack, PushOrder(exps[cur].e));
            pos := pos[cur := n];
            cache := cache + {cur};
            stack := stack + PushOrder(exps[cur].e);
          }
        } else {
          WorkList.TopReady(kids, Done(cells), cache, pos, stack);
          KidsDone(exps, cells, cur);
          ghost var g := m.graph;
          SynthInner(cur);
          GrowsTrans(old(m.graph), g, m.graph);
          TopStored(kids, before, cells, cache, pos, stack);
          stack := stack[..n];
        }
      }
      ValidShape();
    }

    /** What synthesis is for: under every assignment the vector of a node evaluates to the
        value of the node, the variables being read off their own vectors. */
    lemma {:induction false} Correct(i: nat, env: Env, x: Assignment)
      requires Valid() && i < |exps| && |av| == |exps| && av[i] != null
      requires |cells| == |exps| && Agrees(exps, cells, m.graph, env, x)
      ensures Num(m.graph, av[i][..], env) == Value(exps, x, i)
    {
      assert Denotes(exps, cells, m.graph, env, x);
    }

    /** And no assignment of the bit-vector variables is lost. */
    lemma {:induction false} Complete(i: nat, x: Assignment)
      requires Valid() && i < |exps| && |av| == |exps| && av[i] != null
      requires forall v: nat :: v < |exps| && exps[v].kind.VarNode? ==> x(v) < Pow2(exps[v].width)
      ensures exists env: Env :: Num(m.graph, av[i][..], env) == Value(exps, x, i)
    {
      EveryAssignment(exps, cells, m.graph, x);
      var env := EnvFor(exps, cells, x);
      Correct(i, env, x);
    }

    lemma {:induction false} ValidShape()
      requires Valid()
      ensures |av| == |cells| == |exps| && WellTyped(exps)
      ensures forall i: nat :: i < |av| ==> (av[i] == null <==> cells[i] == [])
    {
      hide m.Valid, RowsRefs, Known, Sound, Free, WellTyped;
    }
  }

  ghost function Ids(exps: seq<Exp>): set<nat> { set i: nat {:trigger exps[i]} | i < |exps| }
}
