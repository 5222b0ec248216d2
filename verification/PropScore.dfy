/** What the tables of the propagation-based local search must hold (src/aigprop.c:50-127,
    240-340): assignments and scores as functions of the inputs. */
module PropScore {
  import opened AigGraph

  /** The node `n` can be reached from a root. */
  ghost predicate Reachable(t: Graph, roots: seq<Lit>, n: nat) {
    exists k :: 0 <= k < |roots| && roots[k].id >= 2 && Reach(t, roots[k].id, n)
  }

  ghost predicate Rooted(t: Graph, roots: seq<Lit>) {
    Closed(t) && forall k :: 0 <= k < |roots| ==> IsLive(t, roots[k])
  }

  /** The set is closed under children. */
  ghost predicate ClosedSet(t: Graph, S: set<nat>) {
    forall n :: n in S ==> 2 <= n < |t| && (t[n].And? ==> t[n].left.id in S && t[n].right.id in S)
  }

  ghost predicate HasRoots(roots: seq<Lit>, S: set<nat>) {
    forall k :: 0 <= k < |roots| && roots[k].id >= 2 ==> roots[k].id in S
  }

  lemma {:induction false} ReachIn(t: Graph, S: set<nat>, r: nat, n: nat)
    requires ClosedSet(t, S) && r in S && Reach(t, r, n)
    ensures n in S
    decreases r
  {
    if r != n {
      if Reach(t, t[r].left.id, n) {
        ReachIn(t, S, t[r].left.id, n);
      } else {
        ReachIn(t, S, t[r].right.id, n);
      }
    }
  }

  /** A closed set with the roots that holds only reachable nodes holds exactly those. */
  lemma {:induction false} ExactlyReachable(t: Graph, roots: seq<Lit>, S: set<nat>)
    requires ClosedSet(t, S) && HasRoots(roots, S) && forall n :: n in S ==> Reachable(t, roots, n)
    ensures forall n: nat :: n in S <==> Reachable(t, roots, n)
  {
    forall n: nat | Reachable(t, roots, n)
      ensures n in S
    {
      var k :| 0 <= k < |roots| && roots[k].id >= 2 && Reach(t, roots[k].id, n);
      ReachIn(t, S, roots[k].id, n);
    }
  }

  lemma {:induction false} ReachableLive(t: Graph, roots: seq<Lit>, n: nat)
    requires Rooted(t, roots) && Reachable(t, roots, n)
    ensures 2 <= n < |t| && (t[n].Var? || t[n].And?)
  {
    var k :| 0 <= k < |roots| && roots[k].id >= 2 && Reach(t, roots[k].id, n);
    ReachLive(t, roots[k].id, n);
    hide Reach;
  }

  lemma {:induction false} ReachableChild(t: Graph, roots: seq<Lit>, n: nat)
    requires Rooted(t, roots) && Reachable(t, roots, n) && n < |t| && t[n].And?
    ensures Reachable(t, roots, t[n].left.id) && Reachable(t, roots, t[n].right.id)
    ensures 2 <= t[n].left.id < n && 2 <= t[n].right.id < n
  {
    var k :| 0 <= k < |roots| && roots[k].id >= 2 && Reach(t, roots[k].id, n);
    ReachableLive(t, roots, n);
    assert Reach(t, n, t[n].left.id) && Reach(t, n, t[n].right.id) by {
      assert Reach(t, t[n].left.id, t[n].left.id) && Reach(t, t[n].right.id, t[n].right.id);
    }
    ReachTrans(t, roots[k].id, n, t[n].left.id);
    ReachTrans(t, roots[k].id, n, t[n].right.id);
  }

  lemma {:induction false} ReachableRoot(t: Graph, roots: seq<Lit>, k: nat)
    requires k < |roots| && roots[k].id >= 2
    ensures Reachable(t, roots, roots[k].id)
  {
    assert Reach(t, roots[k].id, roots[k].id);
  }

  // ---------------------------------------------------------------- assignments

  /** Assignments are 1 and -1, as in the source. */
  type Model = map<nat, int>

  function Sign(b: bool): int { if b then 1 else -1 }

  /** `bzla_aigprop_get_assignment_aig` */
  function Assignment(m: Model, l: Lit): int
    requires l.id == 0 || l.id in m
  {
    if l.id == 0 then (if l.inv then 1 else -1) else if l.inv then -m[l.id] else m[l.id]
  }

  /** Every node of the model has the value that its inputs give it. */
  ghost predicate Computed(t: Graph, m: Model, env: Env) {
    forall n :: n in m ==> m[n] == Sign(NodeValue(t, n, env))
  }

  lemma {:induction false} AssignmentIs(t: Graph, m: Model, env: Env, l: Lit)
    requires Closed(t) && Computed(t, m, env) && (l.id == 0 || l.id in m)
    ensures Assignment(m, l) == Sign(Eval(t, l, env))
  {
    if l.id == 0 { EvalConst(t, l, env); }
  }

  lemma {:induction false} ComputedAnd(t: Graph, m: Model, env: Env, n: nat)
    requires Closed(t) && 2 <= n < |t| && t[n].And? && Computed(t, m, env)
    requires t[n].left.id in m && t[n].right.id in m
    ensures Sign(NodeValue(t, n, env))
            == (if Assignment(m, t[n].left) < 0 || Assignment(m, t[n].right) < 0 then -1 else 1)
  {
    AssignmentIs(t, m, env, t[n].left);
    AssignmentIs(t, m, env, t[n].right);
  }

  /** A node that does not depend on input `v` keeps its value when `v` changes. */
  lemma {:induction false} Unaffected(t: Graph, n: nat, v: nat, env: Env, env': Env)
    requires Closed(t) && !Reach(t, n, v) && forall k: nat :: k != v ==> env(k) == env'(k)
    ensures NodeValue(t, n, env) == NodeValue(t, n, env')
    decreases n
  {
    if n < |t| && t[n].And? && n >= 2 {
      Unaffected(t, t[n].left.id, v, env, env');
      Unaffected(t, t[n].right.id, v, env, env');
    }
  }

  // ---------------------------------------------------------------- scores

  function Max(a: real, b: real): real { if a > b then a else b }

  /** The mean of two scores, with the source's guard against a rounded-up 1. */
  function Mean(a: real, b: real): real {
    var s := (a + b) / 2.0;
    if s == 1.0 && (a < 1.0 || b < 1.0) then (if a < b then a else b) else s
  }

  /** The score of a literal: how close it is to being true. */
  ghost function ScoreOf(t: Graph, env: Env, l: Lit): (s: real)
    ensures 0.0 <= s <= 1.0
    decreases l.id
  {
    if l.id >= |t| || l.id < 2 then (if l.inv then 1.0 else 0.0) else
    match t[l.id]
    case And(a, b) =>
      if a.id < l.id && b.id < l.id then
        if l.inv then Max(ScoreOf(t, env, Not(a)), ScoreOf(t, env, Not(b)))
        else Mean(ScoreOf(t, env, a), ScoreOf(t, env, b))
      else 0.0
    case _ => if env(l.id) != l.inv then 1.0 else 0.0
  }

  /** A score is 1 exactly when the literal is true. */
  lemma {:induction false} ScoreOne(t: Graph, env: Env, l: Lit)
    requires Closed(t) && l.id >= 2 && IsLive(t, l)
    ensures ScoreOf(t, env, l) == 1.0 <==> Eval(t, l, env)
    decreases l.id
  {
    var n := l.id;
    if t[n].And? {
      AndChildren(t, n);
      var a, b := t[n].left, t[n].right;
      ScoreOne(t, env, if l.inv then Not(a) else a);
      ScoreOne(t, env, if l.inv then Not(b) else b);
      EvalNot(t, a, env);
      EvalNot(t, b, env);
      assert NodeValue(t, n, env) == (Eval(t, a, env) && Eval(t, b, env));
    } else {
      NotConst(t, n);
      EvalVar(t, l, env);
    }
  }

  /** An AND that has to be true needs both operands: its score is the mean of theirs, and in exact
      numbers the guard against rounding never acts.  To be false it needs one of them: the complement
      has the better score of the two complements. */
  lemma {:induction false} AndScoreIs(t: Graph, env: Env, n: nat)
    requires Closed(t) && 2 <= n < |t| && t[n].And?
    ensures 2.0 * ScoreOf(t, env, Lit(n, false)) == ScoreOf(t, env, t[n].left) + ScoreOf(t, env, t[n].right)
    ensures var a, b := ScoreOf(t, env, Not(t[n].left)), ScoreOf(t, env, Not(t[n].right));
            var s := ScoreOf(t, env, Lit(n, true));
            s >= a && s >= b && (s == a || s == b)
  {
    AndChildren(t, n);
  }

  /** A literal of an input or a constant has score 1 or 0. */
  lemma {:induction false} LeafScoreIs(t: Graph, env: Env, l: Lit)
    requires Closed(t) && IsLive(t, l) && l.id < |t| && (l.id == 0 || t[l.id].Var?)
    ensures ScoreOf(t, env, l) == if Eval(t, l, env) then 1.0 else 0.0
  {
    if l.id == 0 { EvalConst(t, l, env); } else { NotConst(t, l.id); EvalVar(t, l, env); }
  }

  lemma {:induction false} UnaffectedScore(t: Graph, l: Lit, v: nat, env: Env, env': Env)
    requires Closed(t) && !Reach(t, l.id, v) && forall k: nat :: k != v ==> env(k) == env'(k)
    ensures ScoreOf(t, env, l) == ScoreOf(t, env', l)
    decreases l.id
  {
    var n := l.id;
    if 2 <= n < |t| && t[n].And? {
      AndChildren(t, n);
      UnaffectedScore(t, t[n].left, v, env, env');
      UnaffectedScore(t, t[n].right, v, env, env');
      UnaffectedScore(t, Not(t[n].left), v, env, env');
      UnaffectedScore(t, Not(t[n].right), v, env, env');
    }
  }

  type Scores = map<Lit, real>

  /** Scored literals have their exact score, in both polarities, and so have their children. */
  ghost predicate Scored(t: Graph, score: Scores, env: Env) {
    && (forall l :: l in score ==> score[l] == ScoreOf(t, env, l))
    && (forall l :: l in score ==> Not(l) in score && 2 <= l.id < |t|)
    && (forall l :: l in score && l.id < |t| && t[l.id].And? ==> t[l.id].left in score && t[l.id].right in score)
  }

  ghost function ScoredIds(score: Scores): set<nat> { set l | l in score && !l.inv :: l.id }

  lemma {:induction false} ScoredId(score: Scores, n: nat)
    ensures n in ScoredIds(score) <==> Lit(n, false) in score
  {
  }

  /** The score of a child, as `compute_score_aig` reads it: constants have no entry. */
  function ChildScore(score: Scores, l: Lit): real
    requires l.id == 0 || l in score
  { if l.id == 0 then (if l == TRUE_LIT then 1.0 else 0.0) else score[l] }

  /** The score that `update_cone` reads for the complement of a right child. */
  function RightComplement(score: Scores, r: Lit): real
    requires r.id == 0 || Not(r) in score
  { if r.id == 0 then (if r == TRUE_LIT then 1.0 else 0.0) else score[Not(r)] }

  /** It is the score of the complement unless the child is a constant. */
  lemma {:induction false} RightComplementExact(score: Scores, r: Lit)
    requires r.id == 0 || Not(r) in score
    ensures RightComplement(score, r) == ChildScore(score, Not(r)) <==> r.id != 0
  {
    if r.id == 0 { assert r == TRUE_LIT || Not(r) == TRUE_LIT; }
  }

  function BothScores(score: Scores, n: nat, a: real, b: real): Scores {
    score[Lit(n, false) := a][Lit(n, true) := b]
  }

  lemma {:induction false} AddScores(t: Graph, score: Scores, env: Env, n: nat, a: real, b: real)
    requires Closed(t) && Scored(t, score, env) && 2 <= n < |t|
    requires t[n].And? ==> t[n].left in score && t[n].right in score
    requires a == ScoreOf(t, env, Lit(n, false)) && b == ScoreOf(t, env, Lit(n, true))
    ensures Scored(t, BothScores(score, n, a, b), env)
    ensures ScoredIds(BothScores(score, n, a, b)) == ScoredIds(score) + {n}
    ensures Lit(n, false) in BothScores(score, n, a, b) && score.Keys <= BothScores(score, n, a, b).Keys
  {
    hide ScoreOf, Closed;
    var s' := BothScores(score, n, a, b);
    forall l | l in s'
      ensures s'[l] == ScoreOf(t, env, l) && Not(l) in s' && 2 <= l.id < |t|
      ensures t[l.id].And? ==> t[l.id].left in s' && t[l.id].right in s'
    {
      if l.id != n { assert l in score; }
    }
    forall k: nat
      ensures k in ScoredIds(s') <==> k in ScoredIds(score) + {n}
    {
      ScoredId(s', k);
      ScoredId(score, k);
    }
  }

  /** The scores of an AND from those of its children. */
  lemma {:induction false} AndScores(t: Graph, score: Scores, env: Env, n: nat)
    requires Closed(t) && Scored(t, score, env) && 2 <= n < |t| && t[n].And?
    requires t[n].left in score && t[n].right in score
    ensures Not(t[n].left) in score && Not(t[n].right) in score
    ensures ScoreOf(t, env, Lit(n, false)) == Mean(score[t[n].left], score[t[n].right])
    ensures ScoreOf(t, env, Lit(n, true)) == Max(score[Not(t[n].left)], score[Not(t[n].right)])
  {
    AndChildren(t, n);
  }

  lemma {:induction false} VarScores(t: Graph, m: Model, env: Env, n: nat)
    requires Closed(t) && Computed(t, m, env) && n in m && 2 <= n < |t| && t[n].Var?
    ensures ScoreOf(t, env, Lit(n, false)) == (if m[n] < 0 then 0.0 else 1.0)
    ensures ScoreOf(t, env, Lit(n, true)) == (if m[n] < 0 then 1.0 else 0.0)
  {
  }
}
