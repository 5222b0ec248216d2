/** Models and scores computed from the inputs for the local search (src/aigprop.c:54-447). */
module PropModel {
  import opened AigGraph
  import opened PropScore
  import WorkList

  /** The children of every node, for the traversals. */
  ghost function ChildIds(t: Graph): (r: seq<seq<nat>>)
    ensures |r| == |t| && forall i :: 0 <= i < |t| ==> r[i] == ChildrenOf(t[i])
  {
    seq(|t|, i requires 0 <= i < |t| => ChildrenOf(t[i]))
  }

  function ChildrenOf(gate: Gate): seq<nat> {
    if gate.And? then [gate.left.id, gate.right.id] else []
  }

  /** The children that were not visited yet, the right one on top. */
  function Unvisited(gate: Gate, cache: set<nat>): (r: seq<nat>)
    requires gate.And?
  {
    (if gate.left.id !in cache then [gate.left.id] else []) + (if gate.right.id !in cache then [gate.right.id] else [])
  }

  /** Pushing only the children that were not visited yet covers all of them. */
  lemma {:induction false} PushUnvisited(t: Graph, done: set<nat>, cache: set<nat>, pos: map<nat, nat>, stack: seq<nat>)
    requires Closed(t) && WorkList.Waiting(ChildIds(t), done, cache, pos, stack) && |stack| > 0
    requires var n := stack[|stack| - 1]; 2 <= n < |t| && t[n].And? && n !in cache
    ensures var n := stack[|stack| - 1];
            WorkList.Waiting(ChildIds(t), done, cache + {n}, pos[n := |stack| - 1], stack + Unvisited(t[n], cache))
  {
    var n := stack[|stack| - 1];
    AndChildren(t, n);
    var l, r := t[n].left.id, t[n].right.id;
    if l in cache { WorkList.SmallerDone(ChildIds(t), done, cache, pos, stack, l); }
    if r in cache { WorkList.SmallerDone(ChildIds(t), done, cache, pos, stack, r); }
    hide WorkList.Waiting;
    assert ChildIds(t)[n] == [l, r];
    assert l !in cache ==> Unvisited(t[n], cache)[0] == l;
    assert r !in cache ==> Unvisited(t[n], cache)[|Unvisited(t[n], cache)| - 1] == r;
    WorkList.PushKids(ChildIds(t), done, cache, pos, stack, Unvisited(t[n], cache));
  }

  /** Only reachable nodes are on the stack. */
  ghost predicate AllReachable(t: Graph, roots: seq<Lit>, stack: seq<nat>) {
    forall q :: 0 <= q < |stack| ==> Reachable(t, roots, stack[q])
  }

  lemma {:induction false} ReachablePush(t: Graph, roots: seq<Lit>, stack: seq<nat>, n: nat, cache: set<nat>)
    requires Rooted(t, roots) && AllReachable(t, roots, stack) && Reachable(t, roots, n) && n < |t| && t[n].And?
    ensures AllReachable(t, roots, stack + Unvisited(t[n], cache))
  {
    ReachableChild(t, roots, n);
    hide Reachable, Rooted;
  }

  lemma {:induction false} ReachableTop(t: Graph, roots: seq<Lit>, stack: seq<nat>)
    requires Rooted(t, roots) && AllReachable(t, roots, stack) && |stack| > 0
    ensures var n := stack[|stack| - 1];
            Reachable(t, roots, n) && 2 <= n < |t| && (t[n].Var? || t[n].And?) &&
              AllReachable(t, roots, stack[..|stack| - 1])
  {
    ReachableLive(t, roots, stack[|stack| - 1]);
    hide Reachable, Rooted;
  }

  ghost function Ids(t: Graph): set<nat> { set i: nat {:trigger t[i]} | i < |t| }

  // ---------------------------------------------------------------- generating a model

  /** The model so far: computed, closed under children and within the reachable nodes. */
  ghost predicate PartialModel(t: Graph, roots: seq<Lit>, m: Model, env: Env) {
    Computed(t, m, env) && ClosedSet(t, m.Keys) && forall n :: n in m ==> Reachable(t, roots, n)
  }

  lemma {:induction false} AddVar(t: Graph, roots: seq<Lit>, m: Model, env: Env, n: nat)
    requires PartialModel(t, roots, m, env) && Reachable(t, roots, n) && 2 <= n < |t| && t[n].Var? && !env(n)
    ensures PartialModel(t, roots, m[n := -1], env)
  {
    hide Reachable;
    AddNode(t, roots, m, env, n, -1);
  }

  lemma {:induction false} AddAnd(t: Graph, roots: seq<Lit>, m: Model, env: Env, n: nat)
    requires Closed(t) && PartialModel(t, roots, m, env) && Reachable(t, roots, n) && 2 <= n < |t| && t[n].And?
    requires t[n].left.id in m && t[n].right.id in m
    ensures PartialModel(t, roots, m[n :=
              if Assignment(m, t[n].left) < 0 || Assignment(m, t[n].right) < 0 then -1 else 1], env)
  {
    hide Reachable, NodeValue, Closed, Assignment;
    ComputedAnd(t, m, env, n);
    var a := if Assignment(m, t[n].left) < 0 || Assignment(m, t[n].right) < 0 then -1 else 1;
    AddNode(t, roots, m, env, n, a);
  }

  lemma {:induction false} AddNode(t: Graph, roots: seq<Lit>, m: Model, env: Env, n: nat, a: int)
    requires PartialModel(t, roots, m, env) && Reachable(t, roots, n) && 2 <= n < |t|
    requires t[n].And? ==> t[n].left.id in m && t[n].right.id in m
    requires a == Sign(NodeValue(t, n, env))
    ensures PartialModel(t, roots, m[n := a], env)
  {
    hide Reachable, NodeValue, Sign;
  }

  /** `recursively_compute_assignment`: unassigned inputs get -1, ANDs follow their children. */
  method ComputeAssignment(t: Graph, ghost roots: seq<Lit>, m0: Model, aig: Lit, ghost env: Env) returns (m: Model)
    requires Rooted(t, roots) && PartialModel(t, roots, m0, env)
    requires aig.id == 0 || Reachable(t, roots, aig.id)
    requires forall n: nat :: n !in m0 ==> !env(n)
    ensures PartialModel(t, roots, m, env) && m0.Keys <= m.Keys && (aig.id != 0 ==> aig.id in m)
  {
    hide PartialModel, Reachable, WorkList.Waiting, Closed, AllReachable, Unvisited;
    m := m0;
    if aig.id == 0 { return; }
    var stack: seq<nat> := [aig.id];
    var cache: set<nat> := {};
    ghost var pos: map<nat, nat> := map[];
    ghost var kids := ChildIds(t);
    StartStack(t, roots, aig.id, m.Keys);
    while stack != []
      invariant PartialModel(t, roots, m, env) && m0.Keys <= m.Keys
      invariant WorkList.Waiting(kids, m.Keys, cache, pos, stack) && AllReachable(t, roots, stack)
      invariant forall c :: c in cache ==> c < |t| && t[c].And?
      invariant aig.id in m || aig.id in stack
      decreases Ids(t) - cache, |stack|
    {
      var n := |stack| - 1;
      var cur: nat := stack[n];
      ReachableTop(t, roots, stack);
      if cur in m {
        WorkList.PopDone(kids, m.Keys, cache, pos, stack);
        assert m.Keys + {cur} == m.Keys;
        stack := stack[..n];
      } else if t[cur].Var? {
        AddVar(t, roots, m, env, cur);
        WorkList.PopDone(kids, m.Keys, cache, pos, stack);
        assert m[cur := -1].Keys == m.Keys + {cur};
        m := m[cur := -1];
        stack := stack[..n];
      } else if cur !in cache {
        PushUnvisited(t, m.Keys, cache, pos, stack);
        ReachablePush(t, roots, stack, cur, cache);
        pos := pos[cur := n];
        stack := stack + Unvisited(t[cur], cache);
        cache := cache + {cur};
      } else {
        WorkList.TopReady(kids, m.Keys, cache, pos, stack);
        assert kids[cur] == [t[cur].left.id, t[cur].right.id];
        assert kids[cur][0] in m && kids[cur][1] in m;
        AddAnd(t, roots, m, env, cur);
        var a := if Assignment(m, t[cur].left) < 0 || Assignment(m, t[cur].right) < 0 then -1 else 1;
        WorkList.PopDone(kids, m.Keys, cache, pos, stack);
        assert m[cur := a].Keys == m.Keys + {cur};
        m := m[cur := a];
        stack := stack[..n];
      }
    }
  }

  lemma {:induction false} StartStack(t: Graph, roots: seq<Lit>, n: nat, done: set<nat>)
    requires Rooted(t, roots) && Reachable(t, roots, n)
    ensures n < |t| && WorkList.Waiting(ChildIds(t), done, {}, map[], [n]) && AllReachable(t, roots, [n])
  {
    ReachableLive(t, roots, n);
    WorkList.Start(ChildIds(t), done, n);
  }

  /** The inputs of a freshly generated model. */
  ghost function AllFalse(): Env { (n: nat) => false }

  /** `bzla_aigprop_generate_model` after a reset: every input is false. */
  method GenerateModel(t: Graph, roots: seq<Lit>) returns (m: Model)
    requires Rooted(t, roots)
    ensures Computed(t, m, AllFalse()) && forall n: nat :: n in m <==> Reachable(t, roots, n)
  {
    hide Reachable, Reach, Closed;
    ghost var env := AllFalse();
    m := map[];
    for k := 0 to |roots|
      invariant PartialModel(t, roots, m, env)
      invariant forall j :: 0 <= j < k && roots[j].id >= 2 ==> roots[j].id in m
    {
      assert IsLive(t, roots[k]);
      if roots[k].id >= 2 { ReachableRoot(t, roots, k); }
      m := ComputeAssignment(t, roots, m, roots[k], env);
    }
    ExactlyReachable(t, roots, m.Keys);
  }

  // ---------------------------------------------------------------- computing scores

  lemma {:induction false} PushAll(t: Graph, done: set<nat>, cache: set<nat>, pos: map<nat, nat>, stack: seq<nat>)
    requires Closed(t) && WorkList.Waiting(ChildIds(t), done, cache, pos, stack) && |stack| > 0
    requires var n := stack[|stack| - 1]; 2 <= n < |t| && n !in cache
    ensures var n := stack[|stack| - 1];
            WorkList.Waiting(ChildIds(t), done, cache + {n}, pos[n := |stack| - 1], stack + ChildrenOf(t[n]))
  {
    var n := stack[|stack| - 1];
    if t[n].And? { AndChildren(t, n); }
    hide WorkList.Waiting;
    WorkList.PushKids(ChildIds(t), done, cache, pos, stack, ChildrenOf(t[n]));
  }

  /** Only nodes of the model are on the stack. */
  ghost predicate AllIn(stack: seq<nat>, S: set<nat>) {
    forall q :: 0 <= q < |stack| ==> stack[q] in S
  }

  lemma {:induction false} InTop(t: Graph, S: set<nat>, stack: seq<nat>)
    requires Closed(t) && ClosedSet(t, S) && AllIn(stack, S) && |stack| > 0
    ensures var n := stack[|stack| - 1];
            n in S && 2 <= n < |t| && AllIn(stack[..|stack| - 1], S) && AllIn(stack + ChildrenOf(t[n]), S)
  {
  }

  /** `compute_score_aig`: score a literal, and everything below it, in both polarities. */
  method ComputeScore(t: Graph, m: Model, score0: Scores, aig: nat, ghost env: Env) returns (score: Scores)
    requires Closed(t) && Computed(t, m, env) && ClosedSet(t, m.Keys) && aig in m && Live(t, m)
    requires Scored(t, score0, env)
    requires Within(score0, m)
    ensures Scored(t, score, env) && Within(score, m) && Lit(aig, false) in score && score0.Keys <= score.Keys
  {
    hide WorkList.Waiting, Closed, Scored, AllIn, ClosedSet, Computed, ScoreOf, ScoredIds, BothScores, Mean, Max;
    hide Within;
    score := score0;
    var stack: seq<nat> := [aig];
    var cache: set<nat> := {};
    ghost var pos: map<nat, nat> := map[];
    ghost var kids := ChildIds(t);
    StartScore(t, m.Keys, aig, ScoredIds(score));
    while stack != []
      invariant Scored(t, score, env) && Within(score, m) && score0.Keys <= score.Keys
      invariant WorkList.Waiting(kids, ScoredIds(score), cache, pos, stack) && AllIn(stack, m.Keys)
      invariant Lit(aig, false) in score || aig in stack
      decreases Ids(t) - cache, |stack|
    {
      var n := |stack| - 1;
      var cur: nat := stack[n];
      InTop(t, m.Keys, stack);
      ScoredId(score, cur);
      ghost var done := ScoredIds(score);
      if Lit(cur, false) in score {
        WorkList.PopDone(kids, done, cache, pos, stack);
        assert done + {cur} == done;
        stack := stack[..n];
      } else if cur !in cache {
        PushAll(t, done, cache, pos, stack);
        pos := pos[cur := n];
        stack := stack + ChildrenOf(t[cur]);
        cache := cache + {cur};
      } else {
        WorkList.TopReady(kids, done, cache, pos, stack);
        WorkList.PopDone(kids, done, cache, pos, stack);
        var a, b := ScoreNode(t, m, score, cur, env);
        AddScores(t, score, env, cur, a, b);
        AddWithin(score, m, cur, a, b);
        score := BothScores(score, cur, a, b);
        stack := stack[..n];
      }
    }
  }

  /** Only nodes of the model are scored. */
  ghost predicate Within(score: Scores, m: Model) {
    forall l :: l in score ==> l.id in m
  }

  lemma {:induction false} AddWithin(score: Scores, m: Model, n: nat, a: real, b: real)
    requires Within(score, m) && n in m
    ensures Within(BothScores(score, n, a, b), m)
  {
  }

  ghost predicate Live(t: Graph, m: Model) {
    forall n :: n in m ==> 2 <= n < |t| && (t[n].Var? || t[n].And?)
  }

  lemma {:induction false} StartScore(t: Graph, S: set<nat>, n: nat, done: set<nat>)
    requires ClosedSet(t, S) && n in S
    ensures WorkList.Waiting(ChildIds(t), done, {}, map[], [n]) && AllIn([n], S)
  {
    WorkList.Start(ChildIds(t), done, n);
  }

  /** The two scores of a node whose children are scored. */
  method ScoreNode(t: Graph, m: Model, score: Scores, n: nat, ghost env: Env) returns (a: real, b: real)
    requires Closed(t) && Computed(t, m, env) && Scored(t, score, env) && n in m && 2 <= n < |t|
    requires (t[n].Var? || t[n].And?)
    requires forall k :: 0 <= k < |ChildrenOf(t[n])| ==> ChildrenOf(t[n])[k] in ScoredIds(score)
    ensures t[n].And? ==> t[n].left in score && t[n].right in score
    ensures a == ScoreOf(t, env, Lit(n, false)) && b == ScoreOf(t, env, Lit(n, true))
  {
    if t[n].Var? {
      VarScores(t, m, env, n);
      a := if m[n] < 0 then 0.0 else 1.0;
      b := if a == 0.0 then 1.0 else 0.0;
    } else {
      ChildScored(t, score, env, n);
      AndScores(t, score, env, n);
      var l, r := t[n].left, t[n].right;
      assert l.id != 0 && r.id != 0;
      a := Mean(ChildScore(score, l), ChildScore(score, r));
      b := Max(ChildScore(score, Not(l)), ChildScore(score, Not(r)));
    }
  }

  lemma {:induction false} ChildScored(t: Graph, score: Scores, env: Env, n: nat)
    requires n < |t| && t[n].And? && Scored(t, score, env)
    requires forall k :: 0 <= k < |ChildrenOf(t[n])| ==> ChildrenOf(t[n])[k] in ScoredIds(score)
    ensures t[n].left in score && t[n].right in score
  {
    var l, r := t[n].left, t[n].right;
    assert ChildrenOf(t[n])[0] == l.id && ChildrenOf(t[n])[1] == r.id;
    ScoredId(score, l.id);
    ScoredId(score, r.id);
    assert Not(Lit(l.id, false)) in score && Not(Lit(r.id, false)) in score;
  }

  /** Every root is scored or still on the stack, and only nodes of the model are there. */
  ghost predicate Pending(roots: seq<Lit>, score: Scores, m: Model, stack: seq<nat>) {
    && (forall k :: 0 <= k < |roots| && roots[k].id >= 2 ==> Lit(roots[k].id, false) in score || roots[k].id in stack)
    && (forall q :: 0 <= q < |stack| ==> stack[q] == 0 || stack[q] in m)
  }

  lemma {:induction false} PendingPop(roots: seq<Lit>, score: Scores, score': Scores, m: Model, stack: seq<nat>)
    requires Pending(roots, score, m, stack) && |stack| > 0 && score.Keys <= score'.Keys
    requires stack[|stack| - 1] == 0 || Lit(stack[|stack| - 1], false) in score'
    ensures Pending(roots, score', m, stack[..|stack| - 1])
  {
    var n := |stack| - 1;
    forall k | 0 <= k < |roots| && roots[k].id >= 2
      ensures Lit(roots[k].id, false) in score' || roots[k].id in stack[..n]
    {
      if roots[k].id in stack && roots[k].id != stack[n] {
        var q :| 0 <= q < |stack| && stack[q] == roots[k].id;
        assert stack[..n][q] == roots[k].id;
      }
    }
  }

  lemma {:induction false} PendingPush(t: Graph, roots: seq<Lit>, score: Scores, m: Model, stack: seq<nat>,
        cache: set<nat>)
    requires Pending(roots, score, m, stack) && |stack| > 0 && ClosedSet(t, m.Keys) && Closed(t)
    requires stack[|stack| - 1] in m && stack[|stack| - 1] < |t| && t[stack[|stack| - 1]].And?
    ensures Pending(roots, score, m, stack + Unvisited(t[stack[|stack| - 1]], cache))
  {
    var u := Unvisited(t[stack[|stack| - 1]], cache);
    forall q | 0 <= q < |u|
      ensures u[q] in m
    {
    }
  }

  lemma {:induction false} PendingTop(t: Graph, roots: seq<Lit>, score: Scores, m: Model, stack: seq<nat>)
    requires Pending(roots, score, m, stack) && |stack| > 0 && Live(t, m)
    ensures var n := stack[|stack| - 1]; n == 0 || (n in m && 2 <= n < |t|)
  {
  }

  lemma {:induction false} PendingStart(roots: seq<Lit>, m: Model)
    requires forall k :: 0 <= k < |roots| ==> roots[k].id == 0 || (roots[k].id >= 2 && roots[k].id in m)
    ensures Pending(roots, map[], m, seq(|roots|, k requires 0 <= k < |roots| => roots[k].id))
  {
    var stack := seq(|roots|, k requires 0 <= k < |roots| => roots[k].id);
    forall k | 0 <= k < |roots|
      ensures roots[k].id in stack
    {
      assert stack[k] == roots[k].id;
    }
  }

  /** `compute_scores`: score every root. */
  method ComputeScores(t: Graph, roots: seq<Lit>, m: Model, ghost env: Env) returns (score: Scores)
    requires Rooted(t, roots) && Computed(t, m, env) && forall n: nat :: n in m <==> Reachable(t, roots, n)
    ensures Scored(t, score, env) && Within(score, m)
    ensures forall k :: 0 <= k < |roots| && roots[k].id >= 2 ==> Lit(roots[k].id, false) in score
  {
    hide Closed, Scored, Computed, ScoreOf, Reach, Pending, Reachable, ClosedSet, Unvisited, Live, Within;
    score := map[];
    ModelShape(t, roots, m);
    var stack: seq<nat> := seq(|roots|, k requires 0 <= k < |roots| => roots[k].id);
    var cache: set<nat> := {};
    NoScores(t, m, env);
    PendingStart(roots, m);
    while stack != []
      invariant Scored(t, score, env) && Within(score, m) && Pending(roots, score, m, stack)
      decreases Ids(t) - cache, |stack|
    {
      var n := |stack| - 1;
      var cur: nat := stack[n];
      PendingTop(t, roots, score, m, stack);
      if cur == 0 || Lit(cur, false) in score {
        PendingPop(roots, score, score, m, stack);
        stack := stack[..n];
      } else if cur !in cache {
        if t[cur].And? {
          PendingPush(t, roots, score, m, stack, cache);
          stack := stack + Unvisited(t[cur], cache);
        }
        cache := cache + {cur};
      } else {
        ghost var before := score;
        score := ComputeScore(t, m, score, cur, env);
        PendingPop(roots, before, score, m, stack);
        stack := stack[..n];
      }
    }
    PendingDone(roots, score, m);
  }

  lemma {:induction false} PendingDone(roots: seq<Lit>, score: Scores, m: Model)
    requires Pending(roots, score, m, [])
    ensures forall k :: 0 <= k < |roots| && roots[k].id >= 2 ==> Lit(roots[k].id, false) in score
  {
  }

  lemma {:induction false} NoScores(t: Graph, m: Model, env: Env)
    ensures Scored(t, map[], env) && Within(map[], m)
  {
  }

  lemma {:induction false} RootsIn(t: Graph, roots: seq<Lit>, m: Model)
    requires Rooted(t, roots) && forall n: nat :: n in m <==> Reachable(t, roots, n)
    ensures forall k :: 0 <= k < |roots| ==> roots[k].id == 0 || (roots[k].id >= 2 && roots[k].id in m)
  {
    hide Reach, Reachable;
    forall k | 0 <= k < |roots|
      ensures roots[k].id == 0 || (roots[k].id >= 2 && roots[k].id in m)
    {
      assert IsLive(t, roots[k]);
      if roots[k].id >= 2 { ReachableRoot(t, roots, k); }
    }
  }

  lemma {:induction false} NodeShape(t: Graph, roots: seq<Lit>, m: Model, n: nat)
    requires Rooted(t, roots) && (forall n: nat :: n in m <==> Reachable(t, roots, n)) && n in m
    ensures 2 <= n < |t| && (t[n].Var? || t[n].And?) && (t[n].And? ==> t[n].left.id in m && t[n].right.id in m)
  {
    hide Reach, Reachable, Rooted;
    ReachableLive(t, roots, n);
    if t[n].And? { ReachableChild(t, roots, n); }
  }

  lemma {:induction false} ModelShape(t: Graph, roots: seq<Lit>, m: Model)
    requires Rooted(t, roots) && forall n: nat :: n in m <==> Reachable(t, roots, n)
    ensures ClosedSet(t, m.Keys) && Live(t, m)
    ensures forall k :: 0 <= k < |roots| ==> roots[k].id == 0 || (roots[k].id >= 2 && roots[k].id in m)
  {
    hide Reachable, Rooted;
    RootsIn(t, roots, m);
    forall n | n in m
      ensures 2 <= n < |t| && (t[n].Var? || t[n].And?) && (t[n].And? ==> t[n].left.id in m && t[n].right.id in m)
    {
      NodeShape(t, roots, m, n);
    }
  }
}
