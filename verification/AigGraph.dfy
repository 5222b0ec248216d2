/** And-inverter graphs as tables of gates (src/bzlaaig.h, src/bzlaaig.c).

    A node is its index in the manager's id table.  A literal is what the source
    calls an AIG pointer: a node address with the inversion tag in its lowest bit.
    Node 0 is the null address, so the two constants are the two tagged forms of it.
    Ids 0 and 1 are taken by the constants, real nodes start at id 2.
 */
module AigGraph {

  datatype Lit = Lit(id: nat, inv: bool)

  const FALSE_LIT := Lit(0, false)
  const TRUE_LIT := Lit(0, true)

  function Not(l: Lit): Lit { Lit(l.id, !l.inv) }

  predicate IsConst(l: Lit) { l.id == 0 }

  /** `Freed` marks an id whose node was deleted; ids are never handed out twice. */
  datatype Gate = Freed | Const | Var | And(left: Lit, right: Lit)

  type Graph = seq<Gate>

  /** An assignment of the AIG variables. */
  type Env = nat -> bool

  /** Children have smaller ids than their parent and are never constants. */
  ghost predicate WellFormed(g: Graph) {
    && |g| >= 2 && g[0] == Const && g[1] == Const
    && forall i :: 2 <= i < |g| ==>
         && !g[i].Const?
         && (g[i].And? ==> 2 <= g[i].left.id < i && 2 <= g[i].right.id < i && g[i].left.id != g[i].right.id)
  }

  predicate IsLive(t: Graph, l: Lit) {
    l.id == 0 || (2 <= l.id < |t| && !t[l.id].Freed?)
  }

  /** The table a manager may hold: live ANDs have live children. */
  ghost predicate Closed(t: Graph) {
    && WellFormed(t)
    && forall i :: 2 <= i < |t| && t[i].And? ==> IsLive(t, t[i].left) && IsLive(t, t[i].right)
  }

  lemma {:induction false} AndChildren(t: Graph, i: nat)
    requires Closed(t) && i < |t| && t[i].And?
    ensures 2 <= t[i].left.id < i && 2 <= t[i].right.id < i
    ensures IsLive(t, t[i].left) && IsLive(t, t[i].right)
  {
  }

  lemma {:induction false} NotConst(t: Graph, i: nat)
    requires Closed(t) && 2 <= i < |t|
    ensures !t[i].Const?
  {
  }

  /** The value of a literal under an assignment. */
  ghost function Eval(g: Graph, l: Lit, env: Env): bool
    decreases l.id
  {
    NodeValue(g, l.id, env) != l.inv
  }

  /** The same as a number, 0 or 1. */
  ghost function Val(g: Graph, l: Lit, env: Env): (r: nat)
    ensures r <= 1
  {
    if Eval(g, l, env) then 1 else 0
  }

  ghost function NodeValue(g: Graph, n: nat, env: Env): bool
    decreases n, 0
  {
    if n >= |g| then false else
    match g[n]
    case Freed => false
    case Const => false
    case Var => env(n)
    case And(a, b) => a.id < n && b.id < n && Eval(g, a, env) && Eval(g, b, env)
  }

  /** Table `t` is history `g` with some nodes forgotten. */
  ghost predicate Remembers(g: Graph, t: Graph) {
    && |t| == |g|
    && (forall i :: 0 <= i < |t| ==> t[i] == g[i] || t[i].Freed?)
    && (forall i :: 0 <= i < |g| ==> !g[i].Freed?)
  }

  lemma {:induction false} RemembersFree(g: Graph, t: Graph, id: nat)
    requires Remembers(g, t) && id < |t|
    ensures Remembers(g, t[id := Freed])
  {
  }

  lemma {:induction false} EvalConst(g: Graph, l: Lit, env: Env)
    requires |g| > 0 && g[0] == Const && l.id == 0
    ensures Eval(g, l, env) == l.inv
  {
  }

  lemma {:induction false} EvalVar(g: Graph, l: Lit, env: Env)
    requires l.id < |g| && g[l.id].Var?
    ensures Eval(g, l, env) == (env(l.id) != l.inv)
  {
  }

  lemma {:induction false} EvalNot(g: Graph, l: Lit, env: Env)
    ensures Eval(g, Not(l), env) == !Eval(g, l, env)
  {
  }

  /** Growing the graph never changes what an older literal means. */
  lemma {:induction false} EvalExtend(g: Graph, g': Graph, l: Lit, env: Env)
    requires WellFormed(g) && g <= g' && l.id < |g|
    ensures Eval(g', l, env) == Eval(g, l, env)
    decreases l.id
  {
    assert g'[l.id] == g[l.id];
    if g[l.id].And? && l.id >= 2 {
      EvalExtend(g, g', g[l.id].left, env);
      EvalExtend(g, g', g[l.id].right, env);
    }
  }

  /** Appending a variable, or an AND over two different live nodes, keeps the table in shape. */
  lemma {:induction false} AppendGate(g: Graph, t: Graph, gate: Gate)
    requires Closed(t) && WellFormed(g) && Remembers(g, t)
    requires gate.Var? || (gate.And? && gate.left.id != gate.right.id
                           && 2 <= gate.left.id && 2 <= gate.right.id && IsLive(t, gate.left) && IsLive(t, gate.right))
    ensures Closed(t + [gate]) && WellFormed(g + [gate]) && Remembers(g + [gate], t + [gate])
  {
  }

  predicate IsAnd(t: Graph, l: Lit) { l.id < |t| && t[l.id].And? }

  function Left(t: Graph, l: Lit): Lit
    requires IsAnd(t, l)
  { t[l.id].left }

  function Right(t: Graph, l: Lit): Lit
    requires IsAnd(t, l)
  { t[l.id].right }

  predicate HasKid(t: Graph, a: Lit, n: nat)
    requires IsAnd(t, a)
  { Left(t, a).id == n || Right(t, a).id == n }

  /** One literal in common and the others complementary, at the same places. */
  predicate Resolves(t: Graph, l: Lit, r: Lit)
    requires IsAnd(t, l) && IsAnd(t, r)
  {
    || (Left(t, l) == Left(t, r) && Right(t, l) == Not(Right(t, r)))
    || (Right(t, l) == Right(t, r) && Left(t, l) == Not(Left(t, r)))
  }

  /** No rule over two levels applies to the conjunction of `l` and `r`: neither is a child of the other, they
      have no child node in common unless both are negated, and then they do not resolve. */
  predicate Reduced(t: Graph, l: Lit, r: Lit) {
    && l.id != 0 && r.id != 0 && l.id != r.id
    && (IsAnd(t, l) ==> !HasKid(t, l, r.id)) && (IsAnd(t, r) ==> !HasKid(t, r, l.id))
    && (IsAnd(t, l) && IsAnd(t, r) ==>
          if l.inv && r.inv then !Resolves(t, l, r)
          else !HasKid(t, r, Left(t, l).id) && !HasKid(t, r, Right(t, l).id))
  }

  ghost predicate ReducedAt(g: Graph, n: nat) {
    n < |g| && (g[n].And? ==> g[n].left.id < n && g[n].right.id < n && Reduced(g, g[n].left, g[n].right))
  }

  /** Every AND that was ever made is reduced. */
  ghost predicate AllReduced(g: Graph) { forall n: nat :: n < |g| ==> ReducedAt(g, n) }

  /** Nodes were added behind `g`, only reduced ANDs among them, and nothing in it changed its meaning. */
  ghost predicate Grows(g: Graph, g': Graph) {
    && g <= g'
    && (forall l: Lit, env: Env {:trigger Eval(g', l, env)} :: l.id < |g| ==> Eval(g', l, env) == Eval(g, l, env))
    && forall n: nat :: |g| <= n < |g'| ==> ReducedAt(g', n)
  }

  lemma {:induction false} ReducedPrefix(g: Graph, g': Graph, n: nat)
    requires g <= g' && n < |g|
    ensures ReducedAt(g', n) == ReducedAt(g, n)
  {
  }

  lemma {:induction false} ReducedDistinct(g: Graph, l: Lit, r: Lit)
    requires Reduced(g, l, r)
    ensures l.id != 0 && r.id != 0 && l.id != r.id
  {
  }

  lemma {:induction false} ReducedSwap(g: Graph, l: Lit, r: Lit)
    ensures Reduced(g, l, r) == Reduced(g, r, l)
  {
  }

  /** From a graph in which all ANDs are reduced, every later one is too. */
  lemma {:induction false} GrowsReduced(g: Graph, g': Graph)
    requires AllReduced(g) && Grows(g, g')
    ensures AllReduced(g')
  {
    hide ReducedAt, Eval;
    forall n: nat | n < |g'|
      ensures ReducedAt(g', n)
    {
      if n < |g| { ReducedPrefix(g, g', n); }
    }
  }

  /** The same, by operations that make no variables. */
  ghost predicate Extends(g: Graph, g': Graph) {
    Grows(g, g') && forall n: nat :: |g| <= n < |g'| ==> g'[n].And?
  }

  lemma {:induction false} ExtendsGrows(g: Graph, g': Graph)
    requires Extends(g, g')
    ensures Grows(g, g')
  {
  }

  lemma {:induction false} GrowsTrans(g: Graph, g': Graph, g'': Graph)
    requires Grows(g, g') && Grows(g', g'')
    ensures Grows(g, g'') && |g| <= |g'| <= |g''|
  {
    hide ReducedAt, Eval;
    forall n: nat | |g| <= n < |g''|
      ensures ReducedAt(g'', n)
    {
      if n < |g'| { ReducedPrefix(g', g'', n); }
    }
    assert forall l: Lit, env: Env :: l.id < |g| ==> Eval(g'', l, env) == Eval(g', l, env);
  }

  lemma {:induction false} GrowsEval(g: Graph, g': Graph, l: Lit, env: Env)
    requires Grows(g, g') && l.id < |g|
    ensures Eval(g', l, env) == Eval(g, l, env) && Val(g', l, env) == Val(g, l, env) && l.id < |g'|
  {
  }

  lemma {:induction false} GrowsPrefix(g: Graph, g': Graph)
    requires Grows(g, g')
    ensures g <= g'
  {
  }

  lemma {:induction false} GrowsSelf(g: Graph)
    ensures Grows(g, g)
  {
  }

  lemma {:induction false} ExtendsTrans(g: Graph, g': Graph, g'': Graph)
    requires Extends(g, g') && Extends(g', g'')
    ensures Extends(g, g'') && |g| <= |g'| <= |g''|
  {
    GrowsTrans(g, g', g'');
    hide Grows;
    forall n: nat | |g| <= n < |g''|
      ensures g''[n].And?
    {
      if n < |g'| { GrowsPrefix(g', g''); }
    }
  }

  lemma {:induction false} ExtendsEval(g: Graph, g': Graph, l: Lit, env: Env)
    requires Extends(g, g') && l.id < |g|
    ensures Eval(g', l, env) == Eval(g, l, env) && Val(g', l, env) == Val(g, l, env) && l.id < |g'|
  {
  }

  lemma {:induction false} ExtendsSelf(g: Graph)
    ensures Extends(g, g)
  {
  }

  lemma {:induction false} ExtendsIntro(g: Graph, g': Graph)
    requires WellFormed(g) && g <= g' && forall n: nat :: |g| <= n < |g'| ==> g'[n].And?
    requires forall n: nat :: |g| <= n < |g'| ==> ReducedAt(g', n)
    ensures Extends(g, g')
  {
    hide Eval, ReducedAt;
    GrowsIntro(g, g');
  }

  /** One reduced AND more. */
  lemma {:induction false} ExtendsAnd(g: Graph, gate: Gate)
    requires WellFormed(g) && gate.And? && gate.left.id < |g| && gate.right.id < |g|
    requires Reduced(g, gate.left, gate.right)
    ensures Extends(g, g + [gate])
  {
    hide Eval, WellFormed;
    assert ReducedAt(g + [gate], |g|);
    hide ReducedAt;
    ExtendsIntro(g, g + [gate]);
  }

  lemma {:induction false} GrowsIntro(g: Graph, g': Graph)
    requires WellFormed(g) && g <= g' && forall n: nat :: |g| <= n < |g'| ==> ReducedAt(g', n)
    ensures Grows(g, g')
  {
    hide ReducedAt;
    forall l: Lit, env: Env | l.id < |g|
      ensures Eval(g', l, env) == Eval(g, l, env)
    {
      EvalExtend(g, g', l, env);
    }
  }

  // ---------------------------------------------------------------- parent edges

  function Occurs(gate: Gate, n: nat): nat {
    if gate.And? then (if gate.left.id == n then 1 else 0) + (if gate.right.id == n then 1 else 0) else 0
  }

  /** The number of edges from live ANDs of the table to node `n`. */
  ghost function Edges(t: Graph, n: nat): nat {
    if |t| == 0 then 0 else Edges(t[..|t| - 1], n) + Occurs(t[|t| - 1], n)
  }

  lemma {:induction false} EdgesAppend(t: Graph, gate: Gate, n: nat)
    ensures Edges(t + [gate], n) == Edges(t, n) + Occurs(gate, n)
  {
    assert (t + [gate])[..|t|] == t;
  }

  lemma {:induction false} EdgesFree(t: Graph, i: nat, n: nat)
    requires i < |t|
    ensures Edges(t[i := Freed], n) + Occurs(t[i], n) == Edges(t, n)
  {
    var k := |t| - 1;
    if i == k {
      assert t[i := Freed][..k] == t[..k];
    } else {
      assert t[i := Freed][..k] == t[..k][i := Freed];
      EdgesFree(t[..k], i, n);
    }
  }

  /** A node with a positive edge count has a live AND above it. */
  lemma {:induction false} EdgesWitness(t: Graph, n: nat) returns (p: nat)
    requires Edges(t, n) > 0
    ensures p < |t| && t[p].And? && (t[p].left.id == n || t[p].right.id == n)
  {
    var k := |t| - 1;
    if Occurs(t[k], n) > 0 {
      p := k;
    } else {
      p := EdgesWitness(t[..k], n);
    }
  }

  lemma {:induction false} EdgesAtLeast(t: Graph, p: nat, n: nat)
    requires p < |t|
    ensures Edges(t, n) >= Occurs(t[p], n)
  {
    var k := |t| - 1;
    if p < k { EdgesAtLeast(t[..k], p, n); }
  }

  // ---------------------------------------------------------------- reachability

  /** Node `n` is reachable from node `r` along child edges. */
  ghost predicate Reach(t: Graph, r: nat, n: nat)
    decreases r
  {
    || r == n
    || (r < |t| && t[r].And? && t[r].left.id < r && t[r].right.id < r
        && (Reach(t, t[r].left.id, n) || Reach(t, t[r].right.id, n)))
  }

  lemma {:induction false} ReachTrans(t: Graph, r: nat, p: nat, n: nat)
    requires Reach(t, r, p) && Reach(t, p, n)
    ensures Reach(t, r, n)
    decreases r
  {
    if r != p {
      if Reach(t, t[r].left.id, p) {
        ReachTrans(t, t[r].left.id, p, n);
      } else {
        ReachTrans(t, t[r].right.id, p, n);
      }
    }
  }

  lemma {:induction false} ReachLive(t: Graph, r: nat, n: nat)
    requires Closed(t) && 2 <= r < |t| && !t[r].Freed? && Reach(t, r, n)
    ensures 2 <= n < |t| && !t[n].Freed?
    decreases r
  {
    if r != n {
      if Reach(t, t[r].left.id, n) {
        ReachLive(t, t[r].left.id, n);
      } else {
        ReachLive(t, t[r].right.id, n);
      }
    }
  }
}
