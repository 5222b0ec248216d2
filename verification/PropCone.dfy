/** Parents, the cone above an input, and what a change of one input does to it
    (src/aigprop.c:452-704, 926-1000). */
module PropCone {
  import opened AigGraph
  import opened PropScore
  import opened PropModel
  import WorkList

  // ---------------------------------------------------------------- parents

  type Parents = map<nat, seq<nat>>

  ghost predicate IsParent(t: Graph, p: nat, n: nat) {
    p < |t| && t[p].And? && (t[p].left.id == n || t[p].right.id == n)
  }

  /** The lists hold exactly the parents that are in `done`. */
  ghost predicate Linked(t: Graph, parents: Parents, done: set<nat>) {
    forall n, p :: n in parents ==> (p in parents[n] <==> p in done && IsParent(t, p, n))
  }

  /** The table has a list for every reachable node: its reachable parents. */
  ghost predicate ParentTable(t: Graph, roots: seq<Lit>, parents: Parents) {
    && (forall n: nat :: n in parents <==> Reachable(t, roots, n))
    && Linked(t, parents, parents.Keys)
  }

  function AddParent(parents: Parents, n: nat, p: nat): Parents
    requires n in parents
  {
    parents[n := parents[n] + [p]]
  }

  lemma {:induction false} NewEntry(t: Graph, parents: Parents, done: set<nat>, n: nat)
    requires Linked(t, parents, done) && n !in parents
    requires forall p :: p in done && IsParent(t, p, n) ==> n in done
    requires done <= parents.Keys
    ensures Linked(t, parents[n := []], done)
  {
  }

  lemma {:induction false} LinkVar(t: Graph, parents: Parents, done: set<nat>, n: nat)
    requires Linked(t, parents, done) && n < |t| && !t[n].And?
    ensures Linked(t, parents, done + {n})
  {
  }

  lemma {:induction false} LinkAnd(t: Graph, parents: Parents, done: set<nat>, n: nat)
    requires Linked(t, parents, done) && n < |t| && t[n].And? && t[n].left.id in parents && t[n].right.id in parents
    ensures Linked(t, AddParent(AddParent(parents, t[n].left.id, n), t[n].right.id, n), done + {n})
  {
    var a := AddParent(parents, t[n].left.id, n);
    var b := AddParent(a, t[n].right.id, n);
    forall k, p | k in b
      ensures p in b[k] <==> p in done + {n} && IsParent(t, p, k)
    {
      assert p in b[k] <==> p in parents[k] || (p == n && IsParent(t, n, k));
    }
  }

  /** Every root is done or waits on the stack. */
  ghost predicate RootsPending(roots: seq<Lit>, done: set<nat>, stack: seq<nat>) {
    forall k :: 0 <= k < |roots| && roots[k].id >= 2 ==> roots[k].id in done || roots[k].id in stack
  }

  /** The ids of the roots that are not constants. */
  function RootIds(roots: seq<Lit>): (r: seq<nat>)
    ensures forall n: nat :: n in r <==> n != 0 && exists k :: 0 <= k < |roots| && roots[k].id == n
  {
    if roots == [] then [] else
    var k := |roots| - 1;
    var rest := RootIds(roots[..k]);
    if roots[k].id == 0 then rest else rest + [roots[k].id]
  }

  lemma {:induction false} StartRoots(t: Graph, roots: seq<Lit>)
    requires Rooted(t, roots)
    ensures WorkList.Waiting(ChildIds(t), {}, {}, map[], RootIds(roots)) && AllReachable(t, roots, RootIds(roots))
    ensures RootsPending(roots, {}, RootIds(roots))
  {
    var s := RootIds(roots);
    forall q | 0 <= q < |s|
      ensures s[q] < |t| && Reachable(t, roots, s[q])
    {
      assert s[q] in s;
      var k :| 0 <= k < |roots| && roots[k].id == s[q];
      assert IsLive(t, roots[k]);
      ReachableRoot(t, roots, k);
    }
  }

  lemma {:induction false} RootsPop(roots: seq<Lit>, done: set<nat>, stack: seq<nat>)
    requires RootsPending(roots, done, stack) && |stack| > 0
    ensures RootsPending(roots, done + {stack[|stack| - 1]}, stack[..|stack| - 1])
  {
    var n := |stack| - 1;
    forall k | 0 <= k < |roots| && roots[k].id >= 2 && roots[k].id !in done + {stack[n]}
      ensures roots[k].id in stack[..n]
    {
      var q :| 0 <= q < |stack| && stack[q] == roots[k].id;
      assert stack[..n][q] == roots[k].id;
    }
  }

  /** The traversal: visited nodes have a list, finished nodes are linked to their children. */
  ghost predicate Collecting(t: Graph, roots: seq<Lit>, parents: Parents, done: set<nat>) {
    && Linked(t, parents, done) && done <= parents.Keys && ClosedSet(t, done)
    && forall n :: n in parents ==> Reachable(t, roots, n)
  }

  lemma {:induction false} CollectNew(t: Graph, roots: seq<Lit>, parents: Parents, done: set<nat>, n: nat)
    requires Collecting(t, roots, parents, done) && n !in parents && Reachable(t, roots, n)
    ensures Collecting(t, roots, parents[n := []], done)
  {
    hide Reachable;
    NewEntry(t, parents, done, n);
  }

  lemma {:induction false} CollectDone(t: Graph, roots: seq<Lit>, parents: Parents, done: set<nat>, n: nat)
    requires Collecting(t, roots, parents, done) && n in parents && 2 <= n < |t|
    requires t[n].And? ==> t[n].left.id in done && t[n].right.id in done
    ensures t[n].And? ==> Collecting(t, roots, AddParent(AddParent(parents, t[n].left.id, n), t[n].right.id, n),
            done + {n})
    ensures !t[n].And? ==> Collecting(t, roots, parents, done + {n})
  {
    hide Reachable, Linked;
    if t[n].And? {
      LinkAnd(t, parents, done, n);
    } else {
      LinkVar(t, parents, done, n);
    }
  }

  lemma {:induction false} Collected(t: Graph, roots: seq<Lit>, parents: Parents, done: set<nat>)
    requires Collecting(t, roots, parents, done) && RootsPending(roots, done, [])
    ensures ParentTable(t, roots, parents)
  {
    hide Reachable, Linked, ClosedSet;
    ExactlyReachable(t, roots, done);
    assert done == parents.Keys;
  }

  /** The first part of `bzla_aigprop_sat`. */
  method CollectParents(t: Graph, roots: seq<Lit>) returns (parents: Parents)
    requires Rooted(t, roots)
    ensures ParentTable(t, roots, parents)
  {
    hide Reachable, WorkList.Waiting, Closed, AllReachable, Linked, Collecting, RootsPending, RootIds, ParentTable;
    parents := map[];
    var stack: seq<nat> := RootIds(roots);
    var done: set<nat> := {};
    ghost var kids := ChildIds(t);
    ghost var pos: map<nat, nat> := map[];
    StartRoots(t, roots);
    CollectStart(t, roots);
    assert parents.Keys == {};
    while stack != []
      invariant Collecting(t, roots, parents, done) && RootsPending(roots, done, stack)
      invariant WorkList.Waiting(kids, done, parents.Keys, pos, stack) && AllReachable(t, roots, stack)
      decreases Ids(t) - parents.Keys, |stack|
    {
      var n := |stack| - 1;
      var cur: nat := stack[n];
      ReachableTop(t, roots, stack);
      if cur in done {
        WorkList.PopDone(kids, done, parents.Keys, pos, stack);
        RootsPop(roots, done, stack);
        assert done + {cur} == done;
        stack := stack[..n];
      } else if cur !in parents {
        PushAll(t, done, parents.Keys, pos, stack);
        ReachableKids(t, roots, stack, cur);
        CollectNew(t, roots, parents, done, cur);
        MorePending(roots, done, stack, ChildrenOf(t[cur]));
        pos := pos[cur := n];
        assert parents[cur := []].Keys == parents.Keys + {cur};
        parents := parents[cur := []];
        stack := stack + ChildrenOf(t[cur]);
      } else {
        WorkList.TopReady(kids, done, parents.Keys, pos, stack);
        assert t[cur].And? ==> kids[cur][0] == t[cur].left.id && kids[cur][1] == t[cur].right.id;
        WorkList.PopDone(kids, done, parents.Keys, pos, stack);
        RootsPop(roots, done, stack);
        CollectDone(t, roots, parents, done, cur);
        if t[cur].And? {
          CollectKeys(t, roots, parents, done);
          ghost var before := parents.Keys;
          parents := AddParent(parents, t[cur].left.id, cur);
          parents := AddParent(parents, t[cur].right.id, cur);
          assert parents.Keys == before;
        }
        done := done + {cur};
        stack := stack[..n];
      }
    }
    Collected(t, roots, parents, done);
  }

  lemma {:induction false} CollectKeys(t: Graph, roots: seq<Lit>, parents: Parents, done: set<nat>)
    requires Collecting(t, roots, parents, done)
    ensures done <= parents.Keys
  {
  }

  lemma {:induction false} CollectStart(t: Graph, roots: seq<Lit>)
    ensures Collecting(t, roots, map[], {})
  {
  }

  lemma {:induction false} MorePending(roots: seq<Lit>, done: set<nat>, stack: seq<nat>, more: seq<nat>)
    requires RootsPending(roots, done, stack)
    ensures RootsPending(roots, done, stack + more)
  {
  }

  lemma {:induction false} ReachableKids(t: Graph, roots: seq<Lit>, stack: seq<nat>, n: nat)
    requires Rooted(t, roots) && AllReachable(t, roots, stack) && Reachable(t, roots, n) && n < |t|
    ensures AllReachable(t, roots, stack + ChildrenOf(t[n]))
  {
    if t[n].And? { ReachableChild(t, roots, n); }
    hide Reachable, Rooted;
  }

  // ---------------------------------------------------------------- the cone above an input

  /** The set holds, with a node, the parents of that node that are not on the stack. */
  ghost predicate UpClosed(parents: Parents, S: set<nat>, stack: seq<nat>) {
    forall n, p :: n in S && n in parents && p in parents[n] ==> p in S || p in stack
  }

  /** Reachable nodes that depend on input `v`. */
  ghost predicate Depends(t: Graph, roots: seq<Lit>, v: nat, n: nat) {
    Reachable(t, roots, n) && Reach(t, n, v)
  }

  ghost predicate AllDepend(t: Graph, roots: seq<Lit>, v: nat, s: seq<nat>) {
    forall q :: 0 <= q < |s| ==> Depends(t, roots, v, s[q])
  }

  lemma {:induction false} ParentDepends(t: Graph, roots: seq<Lit>, parents: Parents, v: nat, n: nat, p: nat)
    requires Closed(t) && ParentTable(t, roots, parents) && Depends(t, roots, v, n) && p in parents[n]
    ensures Depends(t, roots, v, p) && p > n && p < |t| && t[p].And?
  {
    hide Reachable, Reach, Closed;
    assert IsParent(t, p, n);
    AndChildren(t, p);
    ReachStep(t, p, n, v);
  }

  lemma {:induction false} ReachStep(t: Graph, p: nat, n: nat, v: nat)
    requires IsParent(t, p, n) && t[p].left.id < p && t[p].right.id < p && Reach(t, n, v)
    ensures Reach(t, p, v)
  {
  }

  /** A set that is closed upwards and holds `v` holds every reachable node that depends on `v`. */
  lemma {:induction false} ConeComplete(t: Graph, roots: seq<Lit>, parents: Parents, S: set<nat>, v: nat, n: nat)
    requires Rooted(t, roots) && ParentTable(t, roots, parents) && UpClosed(parents, S, []) && v in S
    requires Depends(t, roots, v, n)
    ensures n in S
    decreases n
  {
    if n != v {
      var c := DependsChild(t, roots, v, n);
      hide Reachable, Reach, Closed;
      ConeComplete(t, roots, parents, S, v, c);
      assert IsParent(t, n, c) && c in parents && n in parents;
      assert n in parents[c];
    }
  }

  /** One of the children leads on to the input. */
  lemma {:induction false} DependsChild(t: Graph, roots: seq<Lit>, v: nat, n: nat) returns (c: nat)
    requires Rooted(t, roots) && Depends(t, roots, v, n) && n != v
    ensures Depends(t, roots, v, c) && c < n && IsParent(t, n, c) && Reachable(t, roots, n) && Reachable(t, roots, c)
  {
    hide Reachable;
    ReachableLive(t, roots, n);
    ReachableChild(t, roots, n);
    c := if Reach(t, t[n].left.id, v) then t[n].left.id else t[n].right.id;
  }

  /** `cone` holds exactly the ANDs above `v`. */
  ghost predicate IsCone(t: Graph, roots: seq<Lit>, v: nat, cone: seq<nat>) {
    forall n: nat :: n in cone <==> n != v && Depends(t, roots, v, n)
  }

  /** The state of the search for the cone: `cache` is visited, all but `v` of it is in `cone`. */
  ghost predicate Climbing(t: Graph, roots: seq<Lit>, parents: Parents, v: nat, cache: set<nat>, cone: seq<nat>,
        stack: seq<nat>) {
    && (forall n :: n in cache ==> Depends(t, roots, v, n)) && AllDepend(t, roots, v, stack)
    && UpClosed(parents, cache, stack)
    && (forall n: nat :: n in cone <==> n in cache && n != v)
    && (v in cache || v in stack)
  }

  lemma {:induction false} ClimbStart(t: Graph, roots: seq<Lit>, parents: Parents, v: nat)
    requires Reachable(t, roots, v)
    ensures Climbing(t, roots, parents, v, {}, [], [v])
  {
    hide Reachable;
    assert Reach(t, v, v);
  }

  lemma {:induction false} InPrefix(stack: seq<nat>, p: nat)
    requires |stack| > 0 && p in stack && p != stack[|stack| - 1]
    ensures p in stack[..|stack| - 1]
  {
    var q :| 0 <= q < |stack| && stack[q] == p;
    assert stack[..|stack| - 1][q] == p;
  }

  lemma {:induction false} ClimbPop(t: Graph, roots: seq<Lit>, parents: Parents, v: nat, cache: set<nat>,
        cone: seq<nat>, stack: seq<nat>)
    requires Climbing(t, roots, parents, v, cache, cone, stack) && |stack| > 0 && stack[|stack| - 1] in cache
    ensures Climbing(t, roots, parents, v, cache, cone, stack[..|stack| - 1])
  {
    hide Depends;
    var n := |stack| - 1;
    forall k, p | k in cache && k in parents && p in parents[k] && p !in cache
      ensures p in stack[..n]
    {
      InPrefix(stack, p);
    }
    if v !in cache { InPrefix(stack, v); }
  }

  lemma {:induction false} ClimbPush(t: Graph, roots: seq<Lit>, parents: Parents, v: nat, cache: set<nat>,
        cone: seq<nat>, stack: seq<nat>)
    requires Climbing(t, roots, parents, v, cache, cone, stack) && |stack| > 0 && stack[|stack| - 1] !in cache
    requires Closed(t) && ParentTable(t, roots, parents)
    ensures var n := |stack| - 1; var cur := stack[n];
            cur in parents && Climbing(t, roots, parents, v, cache + {cur},
              if cur != v then cone + [cur] else cone, stack[..n] + parents[cur])
  {
    var n := |stack| - 1;
    var cur := stack[n];
    ClimbTop(t, roots, parents, v, cache, cone, stack);
    ClimbUp(parents, cache, stack);
    hide Depends, Closed, ParentTable, UpClosed;
    if v != cur && v !in cache { InPrefix(stack, v); }
  }

  lemma {:induction false} ClimbUp(parents: Parents, cache: set<nat>, stack: seq<nat>)
    requires UpClosed(parents, cache, stack) && |stack| > 0 && stack[|stack| - 1] in parents
    ensures var n := |stack| - 1;
            UpClosed(parents, cache + {stack[n]}, stack[..n] + parents[stack[n]])
  {
    var n := |stack| - 1;
    var cur := stack[n];
    var stack' := stack[..n] + parents[cur];
    forall k, p | k in cache + {cur} && k in parents && p in parents[k] && p !in cache + {cur}
      ensures p in stack'
    {
      if k != cur { InPrefix(stack, p); }
    }
  }

  /** The node that comes up next, and its parents. */
  lemma {:induction false} ClimbTop(t: Graph, roots: seq<Lit>, parents: Parents, v: nat, cache: set<nat>,
        cone: seq<nat>, stack: seq<nat>)
    requires Climbing(t, roots, parents, v, cache, cone, stack) && |stack| > 0
    requires Closed(t) && ParentTable(t, roots, parents)
    ensures var cur := stack[|stack| - 1];
            cur in parents && Depends(t, roots, v, cur) && AllDepend(t, roots, v, stack[..|stack| - 1]) &&
            AllDepend(t, roots, v, parents[cur])
  {
    var cur := stack[|stack| - 1];
    hide Closed, Linked, UpClosed, Reachable, Reach;
    assert Depends(t, roots, v, cur);
    assert cur in parents;
    forall q | 0 <= q < |parents[cur]|
      ensures Depends(t, roots, v, parents[cur][q])
    {
      ParentDepends(t, roots, parents, v, cur, parents[cur][q]);
    }
  }

  lemma {:induction false} ClimbDone(t: Graph, roots: seq<Lit>, parents: Parents, v: nat, cache: set<nat>,
        cone: seq<nat>)
    requires Rooted(t, roots) && ParentTable(t, roots, parents) && Climbing(t, roots, parents, v, cache, cone, [])
    ensures IsCone(t, roots, v, cone)
  {
    forall n: nat | n != v && Depends(t, roots, v, n)
      ensures n in cone
    {
      ConeComplete(t, roots, parents, cache, v, n);
    }
  }

  /** The first loop of `update_cone`: everything above the input, in the order it is met. */
  method CollectCone(t: Graph, ghost roots: seq<Lit>, parents: Parents, v: nat) returns (cone: seq<nat>)
    requires Rooted(t, roots) && ParentTable(t, roots, parents) && Reachable(t, roots, v)
    ensures IsCone(t, roots, v, cone)
  {
    hide Climbing, ParentTable, Closed, Reachable, IsCone;
    var stack: seq<nat> := [v];
    var cache: set<nat> := {};
    cone := [];
    ClimbStart(t, roots, parents, v);
    while stack != []
      invariant Climbing(t, roots, parents, v, cache, cone, stack)
      decreases parents.Keys - cache, |stack|
    {
      var n := |stack| - 1;
      var cur: nat := stack[n];
      if cur in cache {
        ClimbPop(t, roots, parents, v, cache, cone, stack);
        stack := stack[..n];
      } else {
        ClimbPush(t, roots, parents, v, cache, cone, stack);
        cache := cache + {cur};
        if cur != v { cone := cone + [cur]; }
        stack := stack[..n] + parents[cur];
      }
    }
    ClimbDone(t, roots, parents, v, cache, cone);
  }

  /** `qsort` by ascending id. */
  function Insert(n: nat, s: seq<nat>): seq<nat> {
    if s == [] || n <= s[0] then [n] + s else [s[0]] + Insert(n, s[1..])
  }

  function SortIds(s: seq<nat>): seq<nat> {
    if s == [] then [] else Insert(s[0], SortIds(s[1..]))
  }

  ghost predicate Ascending(s: seq<nat>) {
    forall i, j :: 0 <= i < j < |s| ==> s[i] <= s[j]
  }

  lemma {:induction false} InsertSame(n: nat, s: seq<nat>)
    ensures forall k :: k in Insert(n, s) <==> k == n || k in s
  {
    if s != [] && n > s[0] {
      InsertSame(n, s[1..]);
      assert s == [s[0]] + s[1..];
    }
  }

  lemma {:induction false} InsertSorted(n: nat, s: seq<nat>)
    requires Ascending(s)
    ensures Ascending(Insert(n, s))
  {
    if s != [] && n > s[0] {
      InsertSorted(n, s[1..]);
      InsertSame(n, s[1..]);
      var r := Insert(n, s[1..]);
      forall k | 0 <= k < |r|
        ensures s[0] <= r[k]
      {
        assert r[k] in r;
      }
    }
  }

  lemma {:induction false} SortedIds(s: seq<nat>)
    ensures Ascending(SortIds(s)) && forall n :: n in SortIds(s) <==> n in s
  {
    if s != [] {
      SortedIds(s[1..]);
      InsertSorted(s[0], SortIds(s[1..]));
      InsertSame(s[0], SortIds(s[1..]));
      assert s == [s[0]] + s[1..];
    }
  }

  // ---------------------------------------------------------------- changing one input

  function With(env: Env, v: nat, a: int): Env { (n: nat) => if n == v then a == 1 else env(n) }

  /** Nodes that are not still to be updated have their new value. */
  ghost predicate Settled(t: Graph, m: Model, env: Env, rest: seq<nat>) {
    forall n :: n in m ==> (m[n] == 1 || m[n] == -1) && (n !in rest ==> m[n] == Sign(NodeValue(t, n, env)))
  }

  lemma {:induction false} SettledStart(t: Graph, roots: seq<Lit>, m: Model, env: Env, v: nat, a: int, cone: seq<nat>)
    requires Rooted(t, roots) && Computed(t, m, env) && IsCone(t, roots, v, cone)
    requires forall n: nat :: n in m <==> Reachable(t, roots, n)
    requires v in m && v < |t| && t[v].Var? && (a == 1 || a == -1)
    ensures Settled(t, m[v := a], With(env, v, a), SortIds(cone))
  {
    SortedIds(cone);
    var m' := m[v := a];
    hide Reachable, Closed;
    forall n | n in m' && n !in SortIds(cone)
      ensures m'[n] == Sign(NodeValue(t, n, With(env, v, a)))
    {
      if n != v { Unaffected(t, n, v, env, With(env, v, a)); }
    }
  }

  lemma {:induction false} SettledAnd(t: Graph, m: Model, env: Env, rest: seq<nat>)
    requires Closed(t) && Settled(t, m, env, rest) && Ascending(rest) && |rest| > 0
    requires var n := rest[0]; n in m && 2 <= n < |t| && t[n].And? && t[n].left.id in m && t[n].right.id in m
    ensures var n := rest[0]; var a := if Assignment(m, t[n].left) < 0 || Assignment(m, t[n].right) < 0 then -1 else 1;
            a == Sign(NodeValue(t, n, env)) && Settled(t, m[n := a], env, rest[1..])
  {
    var n := rest[0];
    AndChildren(t, n);
    var l, r := t[n].left, t[n].right;
    assert forall k :: k in rest ==> k >= n;
    assert forall k :: k in rest ==> k == n || k in rest[1..];
    assert Assignment(m, l) == Sign(Eval(t, l, env)) && Assignment(m, r) == Sign(Eval(t, r, env));
    var a := if Assignment(m, l) < 0 || Assignment(m, r) < 0 then -1 else 1;
    assert NodeValue(t, n, env) == (Eval(t, l, env) && Eval(t, r, env));
    hide Eval, NodeValue, Closed, Assignment;
    forall k | k in m[n := a]
      ensures m[n := a][k] == 1 || m[n := a][k] == -1
      ensures k !in rest[1..] ==> m[n := a][k] == Sign(NodeValue(t, k, env))
    {
      if k != n { assert k in m; }
    }
  }

  /** The same for scores. */
  ghost predicate ScoresSettled(t: Graph, score: Scores, env: Env, rest: seq<nat>) {
    forall l :: l in score && l.id !in rest ==> score[l] == ScoreOf(t, env, l)
  }

  lemma {:induction false} ScoresStart(t: Graph, roots: seq<Lit>, score: Scores, env: Env, v: nat, a: int,
        cone: seq<nat>)
    requires Rooted(t, roots) && Scored(t, score, env) && IsCone(t, roots, v, cone)
    requires forall l :: l in score ==> Reachable(t, roots, l.id)
    requires 2 <= v < |t| && t[v].Var? && Lit(v, false) in score && Lit(v, true) in score && (a == 1 || a == -1)
    ensures var s := BothScores(score, v, if a < 0 then 0.0 else 1.0, if a < 0 then 1.0 else 0.0);
            s.Keys == score.Keys && ScoresSettled(t, s, With(env, v, a), SortIds(cone))
  {
    SortedIds(cone);
    var s := BothScores(score, v, if a < 0 then 0.0 else 1.0, if a < 0 then 1.0 else 0.0);
    hide Reachable, Closed;
    forall l | l in s && l.id !in SortIds(cone)
      ensures s[l] == ScoreOf(t, With(env, v, a), l)
    {
      if l.id != v { UnaffectedScore(t, l, v, env, With(env, v, a)); }
    }
  }

  lemma {:induction false} ScoresAnd(t: Graph, score: Scores, env: Env, rest: seq<nat>)
    requires Closed(t) && ScoresSettled(t, score, env, rest) && Ascending(rest) && |rest| > 0
    requires var n := rest[0]; 2 <= n < |t| && t[n].And? && Lit(n, false) in score && Lit(n, true) in score
    requires var g := t[rest[0]]; g.left in score && g.right in score && Not(g.left) in score && Not(g.right) in score
    ensures var g := t[rest[0]];
            var s := BothScores(score, rest[0], Mean(score[g.left], score[g.right]),
              Max(score[Not(g.left)], score[Not(g.right)]));
            s.Keys == score.Keys && ScoresSettled(t, s, env, rest[1..])
  {
    var n := rest[0];
    AndChildren(t, n);
    var l, r := t[n].left, t[n].right;
    assert forall k :: k in rest ==> k >= n;
    assert forall k :: k in rest ==> k == n || k in rest[1..];
    var a, b := Mean(score[l], score[r]), Max(score[Not(l)], score[Not(r)]);
    assert a == ScoreOf(t, env, Lit(n, false)) && b == ScoreOf(t, env, Lit(n, true));
    hide ScoreOf, Closed;
  }

  // ---------------------------------------------------------------- unsatisfied roots

  /** The table holds exactly the roots that the model makes false. */
  ghost predicate UnsatIs(roots: seq<Lit>, m: Model, unsat: set<Lit>) {
    forall l :: l in unsat <==> l in roots && l.id != 0 && l.id in m && Assignment(m, l) == -1
  }

  /** `update_unsatroots_table` */
  function UpdateUnsat(unsat: set<Lit>, n: nat, assignment: int): set<Lit> {
    if Lit(n, false) in unsat then unsat - {Lit(n, false)}
    else if Lit(n, true) in unsat then unsat - {Lit(n, true)}
    else if assignment == -1 then unsat + {Lit(n, false)}
    else unsat + {Lit(n, true)}
  }

  /** When the value of a root flips, the update is right unless both of its literals are roots. */
  lemma {:induction false} UpdateUnsatRight(roots: seq<Lit>, m: Model, unsat: set<Lit>, n: nat, assignment: int)
    requires UnsatIs(roots, m, unsat) && n != 0 && n in m && (Lit(n, false) in roots || Lit(n, true) in roots)
    requires assignment == 1 || assignment == -1
    requires m[n] == -assignment
    ensures UnsatIs(roots, m[n := assignment], UpdateUnsat(unsat, n, assignment))
      <==> !(Lit(n, false) in roots && Lit(n, true) in roots)
  {
    var m' := m[n := assignment];
    var u' := UpdateUnsat(unsat, n, assignment);
    var p, q := Lit(n, false), Lit(n, true);
    assert Assignment(m, p) == m[n] && Assignment(m, q) == -m[n];
    assert Assignment(m', p) == assignment && Assignment(m', q) == -assignment;
    if p in roots && q in roots {
      assert (if assignment == -1 then p else q) !in u';
    } else {
      forall l: Lit
        ensures l in u' <==> l in roots && l.id != 0 && l.id in m' && Assignment(m', l) == -1
      {
        if l.id == n { assert l == p || l == q; }
      }
    }
  }

  lemma {:induction false} UnsatKeeps(roots: seq<Lit>, m: Model, unsat: set<Lit>, n: nat, a: int)
    requires UnsatIs(roots, m, unsat) && n in m
    requires a == m[n] || (Lit(n, false) !in roots && Lit(n, true) !in roots)
    ensures UnsatIs(roots, m[n := a], unsat)
  {
    forall l: Lit
      ensures l in unsat <==> l in roots && l.id != 0 && l.id in m && Assignment(m[n := a], l) == -1
    {
      if l.id == n { assert l == Lit(n, false) || l == Lit(n, true); }
    }
  }
}
