/** The propagation-based local search itself (src/aigprop.c:452-704, 706-917, 926-1083).
    Random picks are left open, scores are exact reals. */
module PropSearch {
  import opened AigGraph
  import opened PropScore
  import opened PropModel
  import opened PropCone

  /** `Running` stands for a search that was stopped by the bound on its moves. */
  datatype Result = Sat | Unsat | Unknown | Running

  /** `BZLA_AIGPROP_MAXSTEPS` */
  function MaxSteps(i: nat): (r: nat)
    ensures r >= 100
  {
    100 * (if i % 2 == 1 then 1 else Shift(i / 2))
  }

  /** Every other round has 100 moves, and those in between have twice as many as the one before of them. */
  lemma {:induction false} MaxStepsAre(i: nat)
    ensures MaxSteps(0) == 100 && MaxSteps(2 * i + 1) == 100 && MaxSteps(2 * i + 2) == 2 * MaxSteps(2 * i)
  {
    assert (2 * i) / 2 == i && (2 * i + 2) / 2 == i + 1;
  }

  /** The moves of the rounds after restart `i` up to restart `j`. */
  ghost function Budget(i: nat, j: nat): nat
    requires i <= j
  { if i == j then 0 else Budget(i, j - 1) + MaxSteps(j) }

  function Shift(k: nat): (r: nat)
    ensures r >= 1
  {
    if k == 0 then 1 else 2 * Shift(k - 1)
  }

  ghost predicate AllTrue(t: Graph, roots: seq<Lit>, env: Env) {
    forall k :: 0 <= k < |roots| ==> Eval(t, roots[k], env)
  }

  /** The two reasons for which the search gives up: a false root, or a root and its complement. */
  ghost predicate Contradictory(roots: seq<Lit>) {
    FALSE_LIT in roots || exists l :: l in roots && l.id != 0 && Not(l) in roots
  }

  lemma {:induction false} ContradictoryUnsat(t: Graph, roots: seq<Lit>, env: Env)
    requires Rooted(t, roots) && Contradictory(roots)
    ensures !AllTrue(t, roots, env)
  {
    if FALSE_LIT in roots {
      var k :| 0 <= k < |roots| && roots[k] == FALSE_LIT;
      EvalConst(t, roots[k], env);
    } else {
      var l :| l in roots && l.id != 0 && Not(l) in roots;
      var j :| 0 <= j < |roots| && roots[j] == l;
      var k :| 0 <= k < |roots| && roots[k] == Not(l);
      EvalNot(t, l, env);
    }
  }

  /** The model has a value for exactly the reachable nodes, and it is the right one. */
  ghost predicate FullModel(t: Graph, roots: seq<Lit>, m: Model, env: Env) {
    Computed(t, m, env) && forall n: nat :: n in m <==> Reachable(t, roots, n)
  }

  /** The score table has both literals of exactly the reachable nodes, with their score. */
  ghost predicate FullScores(t: Graph, m: Model, score: Scores, env: Env) {
    Scored(t, score, env) && Covers(score, m)
  }

  ghost predicate Covers(score: Scores, m: Model) {
    forall l: Lit :: l in score <==> l.id in m
  }

  lemma {:induction false} CoversSame(score: Scores, score': Scores, m: Model, m': Model)
    requires Covers(score, m) && score'.Keys == score.Keys && m'.Keys == m.Keys
    ensures Covers(score', m')
  {
    assert forall l: Lit :: l in score' <==> l in score'.Keys;
    assert forall n: nat :: n in m' <==> n in m'.Keys;
  }

  lemma {:induction false} ScoresComplete(t: Graph, roots: seq<Lit>, m: Model, score: Scores, env: Env)
    requires Rooted(t, roots) && FullModel(t, roots, m, env) && Scored(t, score, env) && Within(score, m)
    requires forall k :: 0 <= k < |roots| && roots[k].id >= 2 ==> Lit(roots[k].id, false) in score
    ensures FullScores(t, m, score, env)
  {
    var S := ScoredIds(score);
    ScoredClosed(t, score, env);
    hide Reachable, Scored, Computed, ScoredIds, Rooted, Closed, ClosedSet;
    forall n | n in S
      ensures Reachable(t, roots, n)
    {
      ScoredId(score, n);
    }
    assert HasRoots(roots, S) by {
      forall k | 0 <= k < |roots| && roots[k].id >= 2
        ensures roots[k].id in S
      {
        ScoredId(score, roots[k].id);
      }
    }
    ExactlyReachable(t, roots, S);
    AllScored(t, m, score, env);
  }

  lemma {:induction false} AllScored(t: Graph, m: Model, score: Scores, env: Env)
    requires Scored(t, score, env) && Within(score, m) && m.Keys <= ScoredIds(score)
    ensures FullScores(t, m, score, env)
  {
    hide Scored, ScoredIds;
    forall l: Lit | l.id in m
      ensures l in score
    {
      ScoredId(score, l.id);
      BothScored(t, score, env, l.id);
      assert l == Lit(l.id, false) || l == Lit(l.id, true);
    }
  }

  lemma {:induction false} ScoredClosed(t: Graph, score: Scores, env: Env)
    requires Scored(t, score, env)
    ensures ClosedSet(t, ScoredIds(score))
  {
    forall n | n in ScoredIds(score)
      ensures 2 <= n < |t| && (t[n].And? ==> t[n].left.id in ScoredIds(score) && t[n].right.id in ScoredIds(score))
    {
      assert Lit(n, false) in score;
      if t[n].And? {
        BothScored(t, score, env, t[n].left.id);
        BothScored(t, score, env, t[n].right.id);
      }
    }
  }

  lemma {:induction false} BothScored(t: Graph, score: Scores, env: Env, n: nat)
    requires Scored(t, score, env) && (Lit(n, false) in score || Lit(n, true) in score)
    ensures Lit(n, false) in score && Lit(n, true) in score
  {
    assert Not(Lit(n, false)) == Lit(n, true) && Not(Lit(n, true)) == Lit(n, false);
  }

  lemma {:induction false} ModelNode(t: Graph, roots: seq<Lit>, m: Model, env: Env, n: nat)
    requires Rooted(t, roots) && FullModel(t, roots, m, env) && n in m
    ensures 2 <= n < |t| && (t[n].Var? || t[n].And?) && (m[n] == 1 || m[n] == -1)
    ensures t[n].And? ==> t[n].left.id in m && t[n].right.id in m && t[n].left.id < n && t[n].right.id < n
    ensures t[n].And? ==> m[n] == (if Assignment(m, t[n].left) < 0 || Assignment(m, t[n].right) < 0 then -1 else 1)
  {
    ReachableLive(t, roots, n);
    if t[n].And? {
      ReachableChild(t, roots, n);
      hide Reachable, Assignment;
      ComputedAnd(t, m, env, n);
    }
  }

  /** All roots are true when none is in the table of unsatisfied ones. */
  lemma {:induction false} NoneUnsat(t: Graph, roots: seq<Lit>, m: Model, env: Env)
    requires Rooted(t, roots) && FullModel(t, roots, m, env) && UnsatIs(roots, m, {}) && !Contradictory(roots)
    ensures AllTrue(t, roots, env)
  {
    forall k | 0 <= k < |roots|
      ensures Eval(t, roots[k], env)
    {
      var l := roots[k];
      assert IsLive(t, l) && l in roots;
      if l.id == 0 {
        assert l != FALSE_LIT;
        EvalConst(t, l, env);
      } else {
        ReachableRoot(t, roots, k);
        AssignmentIs(t, m, env, l);
        assert l !in {};
      }
    }
  }

  /** A floating-point value that may be no number: no comparison with it holds. */
  datatype Bonus = Undefined | Bonus(value: real)

  function Plus(score: real, b: Bonus): Bonus { if b.Bonus? then Bonus(score + b.value) else Undefined }

  predicate Beats(b: Bonus, max: real) { b.Bonus? && b.value > max }

  function Count(selected: map<Lit, nat>, l: Lit): nat { if l in selected then selected[l] else 0 }

  ghost predicate Lists(order: seq<Lit>, s: set<Lit>) {
    && (forall l :: l in order <==> l in s)
    && forall i, j :: 0 <= i < j < |order| ==> order[i] != order[j]
  }

  /** The first of the greatest values above 0 behind the first root, or else the first root. */
  ghost predicate BestRoot(vals: seq<Bonus>, k: nat) {
    && k < |vals|
    && (k == 0 ==> forall j :: 1 <= j < |vals| && vals[j].Bonus? ==> vals[j].value <= 0.0)
    && (k > 0 ==> vals[k].Bonus? && vals[k].value > 0.0 && forall j :: 1 <= j < |vals| && vals[j].Bonus? ==>
          vals[j].value <= vals[k].value && (j < k ==> vals[j].value < vals[k].value))
  }

  lemma {:induction false} OneBestRoot(vals: seq<Bonus>, k: nat, n: nat)
    requires BestRoot(vals, k) && BestRoot(vals, n)
    ensures k == n
  {
    assert k > 0 && n > 0 ==> vals[k].value <= vals[n].value && vals[n].value <= vals[k].value;
  }

  /** The loop of the bandit after the roots below `i`. */
  ghost predicate BestSoFar(vals: seq<Bonus>, i: nat, k: nat, max: real) {
    && 1 <= i <= |vals| && k < i && BestRoot(vals[..i], k)
    && max == (if k == 0 then 0.0 else vals[k].value)
  }

  lemma {:induction false} BestNext(vals: seq<Bonus>, i: nat, k: nat, max: real)
    requires i < |vals| && BestSoFar(vals, i, k, max)
    ensures if Beats(vals[i], max) then BestSoFar(vals, i + 1, i, vals[i].value) else BestSoFar(vals, i + 1, k, max)
  {
    assert forall j :: 0 <= j < i ==> vals[..i + 1][j] == vals[..i][j];
  }

  class AigProp {
    /** The nodes, and the two options of the search. */
    const t: Graph
    const useRestarts: bool
    const useBandit: bool
    const nprops: nat
    /** What is added to a score for the number of selections of a root and of moves:
        `BZLA_AIGPROP_SELECT_CFACT * sqrt (log (selected) / nmoves)`. */
    const bonus: (nat, nat) -> Bonus
    var roots: seq<Lit>
    var parents: Parents
    var model: Model
    var score: Scores
    var unsat: set<Lit>
    /** How often a root was selected since it came into the table; 0 if it has no entry. */
    var selected: map<Lit, nat>
    var props: nat
    var moves: nat
    var restarts: nat
    /** The inputs that the model stands for. */
    ghost var env: Env

    constructor (t: Graph, useRestarts: bool, useBandit: bool, nprops: nat, bonus: (nat, nat) -> Bonus)
      ensures this.t == t && this.useRestarts == useRestarts && this.useBandit == useBandit && this.nprops == nprops
      ensures this.bonus == bonus && selected == map[]
      ensures props == moves == restarts == 0 && roots == [] && model == map[] && score == map[] && unsat == {}
      ensures parents == map[]
    {
      this.t, this.useRestarts, this.useBandit, this.nprops, this.bonus := t, useRestarts, useBandit, nprops, bonus;
      roots, parents, model, score, unsat, selected := [], map[], map[], map[], {}, map[];
      props, moves, restarts := 0, 0, 0;
      env := AllFalse();
    }

    ghost predicate Ready()
      reads this
    {
      Rooted(t, roots) && !Contradictory(roots) && ParentTable(t, roots, parents)
    }

    /** Model, unsatisfied roots and scores are what a full recomputation from the inputs gives. */
    ghost predicate Valid()
      reads this
    {
      && Ready() && FullModel(t, roots, model, env)
      && UnsatIs(roots, model, unsat) && FullScores(t, model, score, env) && selected.Keys <= unsat
    }

    /** A score is 1 exactly when the model makes the literal true. */
    lemma {:induction false} ScoreMeans(l: Lit)
      requires Valid() && l.id in model
      ensures l in score && (score[l] == 1.0 <==> Assignment(model, l) == 1)
      ensures l in unsat ==> score[l] < 1.0
    {
      ModelNode(t, roots, model, env, l.id);
      ScoreOne(t, env, l);
      AssignmentIs(t, model, env, l);
    }

    /** The same for the scores: a conjunction counts the mean of its operands, its complement the better
        of the complements, and an input 1 or 0. */
    lemma {:induction false} ScoreBalance(n: nat)
      requires Valid() && n in model
      ensures 2 <= n < |t| && Lit(n, false) in score && Lit(n, true) in score
      ensures t[n].And? ==> var a, b := t[n].left, t[n].right;
                && a in score && b in score && Not(a) in score && Not(b) in score
                && 2.0 * score[Lit(n, false)] == score[a] + score[b]
                && score[Lit(n, true)] >= score[Not(a)] && score[Lit(n, true)] >= score[Not(b)]
                && (score[Lit(n, true)] == score[Not(a)] || score[Lit(n, true)] == score[Not(b)])
      ensures !t[n].And? ==> score[Lit(n, false)] == (if model[n] == 1 then 1.0 else 0.0)
                             && score[Lit(n, true)] == 1.0 - score[Lit(n, false)]
    {
      ScoreMeans(Lit(n, false));
      ScoreMeans(Lit(n, true));
      ModelNode(t, roots, model, env, n);
      hide ScoreOf;
      if t[n].And? {
        var a, b := t[n].left, t[n].right;
        ScoreMeans(a);
        ScoreMeans(Not(a));
        ScoreMeans(b);
        ScoreMeans(Not(b));
        AndScoreIs(t, env, n);
      } else {
        AssignmentIs(t, model, env, Lit(n, false));
        AssignmentIs(t, model, env, Lit(n, true));
        LeafScoreIs(t, env, Lit(n, false));
        LeafScoreIs(t, env, Lit(n, true));
      }
    }

    /** The part of `update_cone` that is done for every node of the cone, and for the input. */
    method SetAssignment(n: nat, a: int)
      requires !Contradictory(roots) && UnsatIs(roots, model, unsat)
      requires n >= 2 && n in model && (model[n] == 1 || model[n] == -1) && (a == 1 || a == -1)
      requires selected.Keys <= unsat
      modifies `model, `unsat, `selected
      ensures model == old(model)[n := a] && UnsatIs(roots, model, unsat)
      ensures selected.Keys <= unsat
    {
      if model[n] != a && (Lit(n, false) in roots || Lit(n, true) in roots) {
        assert Not(Lit(n, false)) == Lit(n, true);
        UpdateUnsatRight(roots, model, unsat, n, a);
        unsat := UpdateUnsat(unsat, n, a);
        selected := map l | l in selected && l in unsat :: selected[l];
      } else {
        UnsatKeeps(roots, model, unsat, n, a);
      }
      model := model[n := a];
    }

    /** The second loop of `update_cone`: new assignments, in ascending order of the ids. */
    method UpdateModel(cone: seq<nat>, ghost env': Env)
      requires Rooted(t, roots) && !Contradictory(roots) && UnsatIs(roots, model, unsat)
      requires AndsOf(t, model.Keys, cone)
      requires Ascending(cone) && Settled(t, model, env', cone) && selected.Keys <= unsat
      modifies `model, `unsat, `selected
      ensures model.Keys == old(model.Keys) && Settled(t, model, env', []) && UnsatIs(roots, model, unsat)
      ensures selected.Keys <= unsat
    {
      hide Closed, Reachable, Settled, UnsatIs, Contradictory, Assignment, NodeValue, Ascending, AndsOf;
      for i := 0 to |cone|
        invariant model.Keys == old(model.Keys) && Settled(t, model, env', cone[i..]) && UnsatIs(roots, model, unsat)
        invariant selected.Keys <= unsat
      {
        var cur := cone[i];
        ConeNode(t, model.Keys, cone, i);
        var a := if Assignment(model, t[cur].left) < 0 || Assignment(model, t[cur].right) < 0 then -1 else 1;
        SettledAnd(t, model, env', cone[i..]);
        SettledSign(t, model, env', cone[i..], cur);
        assert cone[i..][1..] == cone[i + 1..];
        SetAssignment(cur, a);
      }
      assert cone[|cone|..] == [];
    }

    /** The third loop of `update_cone`: new scores, in the same order. */
    method UpdateScores(cone: seq<nat>, ghost env': Env)
      requires Closed(t) && AndsOf(t, model.Keys, cone) && Covers(score, model)
      requires Ascending(cone) && ScoresSettled(t, score, env', cone)
      modifies `score
      ensures score.Keys == old(score.Keys) && ScoresSettled(t, score, env', [])
    {
      hide Closed, ScoresSettled, Ascending, AndsOf, Mean, Max;
      for i := 0 to |cone|
        invariant score.Keys == old(score.Keys) && ScoresSettled(t, score, env', cone[i..])
      {
        var cur := cone[i];
        ConeNode(t, model.Keys, cone, i);
        var l, r := t[cur].left, t[cur].right;
        assert Lit(cur, false) in score && Lit(cur, true) in score && Not(l) in score && Not(r) in score;
        ScoresAnd(t, score, env', cone[i..]);
        assert cone[i..][1..] == cone[i + 1..];
        AndChildren(t, cur);
        RightComplementExact(score, r);
        var a := Mean(ChildScore(score, l), ChildScore(score, r));
        var b := Max(ChildScore(score, Not(l)), RightComplement(score, r));
        score := BothScores(score, cur, a, b);
      }
      assert cone[|cone|..] == [];
    }

    /** `update_cone`: set an input and everything that depends on it. */
    method UpdateCone(v: nat, assignment: int)
      requires Valid() && v in model && v < |t| && t[v].Var? && (assignment == 1 || assignment == -1)
      modifies `model, `unsat, `selected, `score, `env
      ensures Valid() && env == With(old(env), v, assignment)
    {
      hide Settled, ScoresSettled, UnsatIs, Contradictory, Ascending, AndsOf, ParentTable, IsCone, BothScores, With;
      hide FullModel, FullScores, Rooted, Covers, Closed, Reachable;
      ghost var m0, s0, rs, ps, e := model, score, roots, parents, env;
      ghost var env' := With(e, v, assignment);
      FullShape(t, rs, model, score, e, v);
      var cone := CollectCone(t, rs, parents, v);
      ConeReady(t, rs, model, score, e, v, assignment, cone);
      SetAssignment(v, assignment);
      assert model.Keys == m0.Keys;
      score := BothScores(score, v, if assignment < 0 then 0.0 else 1.0, if assignment < 0 then 1.0 else 0.0);
      cone := SortIds(cone);
      UpdateModel(cone, env');
      CoversSame(s0, score, m0, model);
      assert parents == ps;
      UpdateScores(cone, env');
      assert parents == ps;
      SettledAll(t, rs, m0, model, e, env');
      ScoresAll(t, m0, model, s0, score, e, env');
      env := env';
    }

    /** The table in the order in which it is iterated, whatever that is. */
    method ListRoots() returns (order: seq<Lit>)
      ensures Lists(order, unsat)
    {
      order := [];
      var rest := unsat;
      while rest != {}
        invariant rest <= unsat && Lists(order, unsat - rest)
        decreases rest
      {
        var l :| l in rest;
        rest := rest - {l};
        order := order + [l];
      }
      assert unsat - {} == unsat;
    }

    /** The value that the loop over the roots gives the `j`th one. */
    ghost function ValueAt(order: seq<Lit>, nmoves: nat, j: nat): Bonus
      reads this
      requires j < |order| && order[j] in score
    {
      match bonus(if order[j] in selected then selected[order[j]] else 0, nmoves)
      case Undefined => Undefined
      case Bonus(v) => Bonus(score[order[j]] + v)
    }

    ghost function Values(order: seq<Lit>, nmoves: nat): seq<Bonus>
      reads this
      requires forall j :: 0 <= j < |order| ==> order[j] in score
    { seq(|order|, j requires 0 <= j < |order| reads this requires order[j] in score => ValueAt(order, nmoves, j)) }

    /** The loop of the bandit: the first root of the table unless a later one has a value above 0,
        and then the first of the greatest values. */
    method BanditRoot(order: seq<Lit>, nmoves: nat) returns (k: nat)
      requires Lists(order, unsat) && |order| > 0 && forall j :: 0 <= j < |order| ==> order[j] in score
      modifies `selected
      ensures BestRoot(old(Values(order, nmoves)), k) && k < |order|
      ensures selected == old(selected)[order[0] := Count(old(selected), order[0]) + 1]
    {
      var maxValue := 0.0;
      k := 0;
      ghost var vals := Values(order, nmoves);
      selected := selected[order[0] := Count(selected, order[0]) + 1];
      ghost var counts := selected;
      for i := 1 to |order|
        invariant BestSoFar(vals, i, k, maxValue) && selected == counts
      {
        hide BestSoFar;
        assert order[i] != order[0];
        var value := Plus(score[order[i]], bonus(Count(selected, order[i]), nmoves));
        assert value == vals[i];
        BestNext(vals, i, k, maxValue);
        if Beats(value, maxValue) { k, maxValue := i, value.value; }
      }
      assert vals[..|order|] == vals;
    }

    /** `select_root` */
    method SelectRoot(nmoves: nat) returns (root: Lit, ghost order: seq<Lit>)
      requires Valid() && unsat != {}
      modifies `selected
      ensures Valid() && root in unsat && root in score && score[root] < 1.0
      ensures Lists(order, unsat) && |order| > 0 && forall j :: 0 <= j < |order| ==> order[j] in score
      ensures useBandit ==> exists k: nat :: BestRoot(old(Values(order, nmoves)), k) && root == order[k]
      ensures useBandit ==> selected == old(selected)[order[0] := Count(old(selected), order[0]) + 1]
      ensures !useBandit ==> selected == old(selected)
    {
      hide FullModel, FullScores, UnsatIs, Rooted, Contradictory, ParentTable, BestRoot;
      RootScores();
      var stack := ListRoots();
      order := stack;
      if useBandit {
        var k := BanditRoot(stack, nmoves);
        root := stack[k];
      } else {
        var r: nat :| r < |stack|;
        root := stack[r];
      }
    }

    lemma {:induction false} ValidParts()
      requires Valid()
      ensures FullModel(t, roots, model, env) && UnsatIs(roots, model, unsat) && !Contradictory(roots)
    {
    }

    lemma {:induction false} RootScores()
      requires Valid()
      ensures forall l :: l in unsat ==> l in score && score[l] < 1.0
    {
      forall l | l in unsat
        ensures l in score && score[l] < 1.0
      {
        ScoreMeans(l);
      }
    }

    /** `select_move`: walk down from an unsatisfied root to an input.  The walk falls in the ids,
        and it always ends at a change of the input: each literal on it has to flip. */
    method SelectMove(root: Lit) returns (res: bool, input: nat, assignment: int, ghost path: seq<Lit>)
      requires Valid() && root in unsat
      modifies `props
      ensures Walk(t, model, root, path) && props == old(props) + |path| - 1
      ensures |path| > 1 && nprops != 0 ==> props <= nprops
      ensures !res ==> nprops != 0 && props >= nprops && EndsIn(t, path, false)
      ensures res ==> EndsIn(t, path, true) && input == path[|path| - 1].id
      ensures res ==> input in model && input < |t| && t[input].Var? && Reach(t, root.id, input)
      ensures res ==> (assignment == 1 || assignment == -1) && model[input] == -assignment
    {
      hide Rooted, Contradictory, ParentTable, FullModel, FullScores, UnsatIs, Closed, Reach, Reachable;
      NoSteps(t, model, root);
      var cur, asscur := root, 1;
      res, input, assignment := true, 0, 0;
      RootFalse(t, roots, model, env, unsat, root);
      path := [root];
      if t[cur.id].Var? {
        input, assignment := cur.id, if cur.inv then -asscur else asscur;
        return;
      }
      var n := props;
      while true
        invariant OnWay(t, model, root, cur, asscur) && t[cur.id].And?
        invariant Walk(t, model, root, path) && cur == path[|path| - 1] && n == old(props) + |path| - 1
        invariant |path| > 1 && nprops != 0 ==> n <= nprops
        decreases cur.id
      {
        if nprops != 0 && n >= nprops {
          res := false;
          break;
        }
        asscur := if cur.inv then -asscur else asscur;
        WayDown(t, roots, model, env, root, cur, asscur);
        var c0, c1 := t[cur.id].left, t[cur.id].right;
        var ass0, ass1 := Assignment(model, c0), Assignment(model, c1);
        var second: bool := *;
        if ass0 == -1 && ass1 == 1 {
          second := false;
        } else if ass0 == 1 && ass1 == -1 {
          second := true;
        }
        var assnew := 1;
        if asscur != 1 {
          var negative: bool := *;
          assnew := if (if second then ass0 else ass1) == 1 || negative then -1 else 1;
        }
        WalkMore(t, model, root, path, if second then c1 else c0);
        cur, asscur := if second then c1 else c0, assnew;
        path := path + [cur];
        n := n + 1;
        if t[cur.id].Var? {
          input, assignment := cur.id, if cur.inv then -asscur else asscur;
          break;
        }
      }
      props := n;
    }

    /** `move`: 1 after a move, 0 when the bound on propagations is reached.  The answer -1 of
        the source needs an empty table of unsatisfied roots. */
    method Move(nmoves: nat) returns (moved: int, ghost order: seq<Lit>, ghost path: seq<Lit>)
      requires Valid() && unsat != {}
      modifies `model, `unsat, `selected, `score, `env, `props, `moves
      ensures Valid() && (moved == 1 || moved == 0)
      ensures moved == 0 ==> nprops != 0 && props >= nprops
      ensures moved == 0 ==> model == old(model) && unsat == old(unsat) && score == old(score)
      ensures moved == 0 ==> moves == old(moves) && env == old(env) && EndsIn(t, path, false)
      ensures Lists(order, old(unsat)) && path != [] && path[0] in old(unsat)
      ensures forall j :: 0 <= j < |order| ==> order[j] in old(score)
      ensures useBandit ==> exists k: nat :: BestRoot(old(Values(order, nmoves)), k) && path[0] == order[k]
      ensures Walk(t, old(model), path[0], path) && props == old(props) + |path| - 1
      ensures |path| > 1 && nprops != 0 ==> props <= nprops
      ensures moved == 1 ==> moves == old(moves) + 1 && EndsIn(t, path, true)
      ensures moved == 1 ==> var v := path[|path| - 1].id; v in old(model) && env == With(old(env), v, -old(model)[v])
    {
      hide Rooted, Contradictory, ParentTable, FullModel, FullScores, UnsatIs, Closed, Reach, Reachable, With;
      hide Walk, EndsIn, BestRoot, Lists;
      var root;
      root, order := SelectRoot(nmoves);
      var ok, input, assignment;
      ok, input, assignment, path := SelectMove(root);
      WalkStart(t, model, root, path);
      if ok {
        UpdateCone(input, assignment);
        moves := moves + 1;
        moved := 1;
      } else {
        moved := 0;
      }
    }

    /** The table of unsatisfied roots from the model; false when the roots contradict each other. */
    method CollectUnsat() returns (ok: bool)
      requires Rooted(t, roots) && FullModel(t, roots, model, env)
      modifies `unsat, `selected
      ensures ok <==> !Contradictory(roots)
      ensures ok ==> UnsatIs(roots, model, unsat)
      ensures selected == map[]
    {
      hide FullModel, Rooted, Assignment, UnsatIs;
      unsat, selected := {}, map[];
      NoRoots(model);
      assert roots[..0] == [];
      for k := 0 to |roots|
        invariant UnsatIs(roots[..k], model, unsat) && selected == map[]
        invariant forall j :: 0 <= j < k ==> roots[j] != FALSE_LIT && (roots[j].id == 0 || Not(roots[j]) !in roots)
      {
        var root := roots[k];
        assert roots[..k + 1] == roots[..k] + [root];
        if root == TRUE_LIT {
          NextTrue(roots[..k], model, unsat);
          continue;
        }
        if root == FALSE_LIT {
          return false;
        }
        if Not(root) in roots {
          return false;
        }
        RootKnown(t, roots, model, env, k);
        NextRoot(roots[..k], model, unsat, root);
        if root !in unsat && Assignment(model, root) == -1 {
          unsat := unsat + {root};
        }
      }
      assert roots[..|roots|] == roots;
      ok := true;
    }

    /** Model, unsatisfied roots and scores at the start of a round. */
    method StartRound() returns (ok: bool)
      requires Rooted(t, roots) && ParentTable(t, roots, parents) && FullModel(t, roots, model, env)
      modifies `unsat, `selected, `score
      ensures ok <==> !Contradictory(roots)
      ensures ok ==> Valid()
    {
      hide FullModel, Rooted, UnsatIs, ParentTable, Contradictory, Scored, Within, FullScores;
      ok := CollectUnsat();
      if ok {
        ModelKnown(t, roots, model, env);
        score := ComputeScores(t, roots, model, env);
        ScoresComplete(t, roots, model, score, env);
      }
    }

    /** The moves of one round: until all roots are true, or a bound is reached.  The search began
        at `base` moves. */
    method Round(steps: nat, fuel: nat, base: nat) returns (result: Result, left: nat)
      requires Valid() && unsat != {} && steps > 0 && base <= moves
      modifies `model, `unsat, `selected, `score, `env, `props, `moves
      ensures Valid() && left <= fuel && moves == old(moves) + fuel - left
      ensures result == Result.Sat ==> AllTrue(t, roots, env)
      ensures result == Unknown ==> nprops != 0 && props >= nprops
      ensures useRestarts ==> fuel - left <= steps
      ensures result == Running ==> left == 0 || (useRestarts && fuel - left == steps)
      ensures result != Unsat
    {
      hide Rooted, FullModel, ParentTable, UnsatIs, FullScores, AllTrue, Contradictory;
      var j := 0;
      left := fuel;
      while !useRestarts || j < steps
        invariant Valid() && unsat != {} && left + j == fuel && moves == old(moves) + j && (useRestarts ==> j <= steps)
        decreases left
      {
        if left == 0 { break; }
        var moved, order, path := Move(moves - base);
        if moved == 0 { return Unknown, left; }
        left, j := left - 1, j + 1;
        if unsat == {} {
          NoneUnsat(t, roots, model, env);
          return Result.Sat, left;
        }
      }
      result := Running;
    }

    /** The model for false inputs. */
    method InitialModel()
      requires Rooted(t, roots)
      modifies `model, `env
      ensures FullModel(t, roots, model, env)
    {
      hide Rooted, FullModel;
      model := GenerateModel(t, roots);
      env := AllFalse();
      ModelFull(t, roots, model);
    }

    /** One round with its preparation. */
    method WholeRound(fuel: nat, base: nat) returns (result: Result, left: nat)
      requires Rooted(t, roots) && ParentTable(t, roots, parents) && FullModel(t, roots, model, env) && base <= moves
      modifies `model, `unsat, `selected, `score, `env, `props, `moves
      ensures result == Result.Sat ==> AllTrue(t, roots, env) && FullModel(t, roots, model, env)
      ensures result == Unsat <==> Contradictory(roots)
      ensures result == Unknown ==> nprops != 0 && props >= nprops
      ensures left <= fuel && moves == old(moves) + fuel - left
      ensures useRestarts ==> fuel - left <= MaxSteps(restarts + 1)
      ensures result == Running ==> left == 0 || (useRestarts && fuel - left == MaxSteps(restarts + 1))
    {
      hide Rooted, FullModel, ParentTable, AllTrue, Contradictory, Valid, MaxSteps;
      var ok := StartRound();
      if !ok { return Unsat, fuel; }
      ValidParts();
      if unsat == {} {
        NoneUnsat(t, roots, model, env);
        return Result.Sat, fuel;
      }
      result, left := Round(MaxSteps(restarts + 1), fuel, base);
      ValidParts();
    }

    /** The loop of `bzla_aigprop_sat` over the rounds, stopped after `fuel` moves. */
    method Rounds(fuel: nat) returns (result: Result)
      requires Rooted(t, roots) && ParentTable(t, roots, parents) && FullModel(t, roots, model, env)
      modifies `model, `env, `unsat, `selected, `score, `props, `moves, `restarts
      ensures result == Result.Sat ==> AllTrue(t, roots, env) && FullModel(t, roots, model, env)
      ensures result == Unsat <==> Contradictory(roots)
      ensures result == Unknown ==> nprops != 0 && props >= nprops
      ensures result == Running ==> moves == old(moves) + fuel
      ensures old(restarts) <= restarts && (!useRestarts ==> restarts == old(restarts))
      ensures useRestarts ==> InBudget(old(restarts), restarts, moves - old(moves))
    {
      hide Rooted, FullModel, ParentTable, AllTrue, Contradictory, InBudget, Budget, MaxSteps;
      var left: nat := fuel;
      ghost var used: nat := 0;
      var before := moves;
      NoBudget(restarts);
      while true
        invariant Rooted(t, roots) && ParentTable(t, roots, parents) && FullModel(t, roots, model, env)
        invariant used + left == fuel && moves == before + used
        invariant old(restarts) <= restarts && (!useRestarts ==> restarts == old(restarts))
        invariant useRestarts ==> used == Budget(old(restarts), restarts)
        decreases left
      {
        ghost var left0 := left;
        result, left := WholeRound(left, before);
        if useRestarts { BudgetNext(old(restarts), restarts, left0 - left); }
        used := used + (left0 - left);
        if result != Running || left == 0 { return; }
        InitialModel();
        score, unsat, selected := map[], {}, map[];
        restarts := restarts + 1;
      }
    }

    /** `bzla_aigprop_sat`, stopped after `fuel` moves. */
    method Sat(rs: seq<Lit>, fuel: nat) returns (result: Result)
      requires Rooted(t, rs)
      modifies this
      ensures result == Result.Sat ==> AllTrue(t, rs, env) && FullModel(t, rs, model, env)
      ensures result == Unsat <==> Contradictory(rs)
      ensures result == Unsat ==> forall e: Env :: !AllTrue(t, rs, e)
      ensures result == Unknown ==> nprops != 0 && props >= nprops
      ensures result == Running ==> moves == old(moves) + fuel
      ensures old(restarts) <= restarts && (!useRestarts ==> restarts == old(restarts))
      ensures useRestarts ==> InBudget(old(restarts), restarts, moves - old(moves))
      ensures roots == [] && parents == map[] && unsat == {} && score == map[]
    {
      hide Rooted, FullModel, ParentTable, AllTrue, Contradictory, InBudget;
      roots := rs;
      parents := CollectParents(t, rs);
      InitialModel();
      result := Rounds(fuel);
      if result == Unsat { NeverTrue(t, rs); }
      roots, parents, unsat, selected, score := [], map[], {}, map[], map[];
    }
  }

  /** The last round is the one after restart `j`. */
  ghost predicate InBudget(i: nat, j: nat, moves: int) {
    i <= j && Budget(i, j) <= moves <= Budget(i, j + 1)
  }

  lemma {:induction false} NoBudget(i: nat)
    ensures Budget(i, i) == 0
  {
  }

  lemma {:induction false} BudgetNext(i: nat, j: nat, k: nat)
    requires i <= j && k <= MaxSteps(j + 1)
    ensures InBudget(i, j, Budget(i, j) + k) && Budget(i, j + 1) == Budget(i, j) + MaxSteps(j + 1)
  {
  }

  lemma {:induction false} NeverTrue(t: Graph, roots: seq<Lit>)
    requires Rooted(t, roots) && Contradictory(roots)
    ensures forall e: Env :: !AllTrue(t, roots, e)
  {
    hide Rooted, Contradictory, AllTrue;
    forall e: Env
      ensures !AllTrue(t, roots, e)
    {
      ContradictoryUnsat(t, roots, e);
    }
  }

  lemma {:induction false} FullShape(t: Graph, roots: seq<Lit>, m: Model, score: Scores, env: Env, v: nat)
    requires Rooted(t, roots) && FullModel(t, roots, m, env) && FullScores(t, m, score, env) && v in m
    ensures Closed(t) && Covers(score, m) && Reachable(t, roots, v)
  {
  }

  /** What the loops of `update_cone` start from. */
  lemma {:induction false} ConeReady(t: Graph, roots: seq<Lit>, m: Model, score: Scores, env: Env, v: nat, a: int,
        cone: seq<nat>)
    requires Rooted(t, roots) && FullModel(t, roots, m, env) && FullScores(t, m, score, env)
    requires IsCone(t, roots, v, cone) && v in m && v < |t| && t[v].Var? && (a == 1 || a == -1)
    ensures v >= 2 && (m[v] == 1 || m[v] == -1) && AndsOf(t, m.Keys, SortIds(cone)) && Ascending(SortIds(cone))
    ensures Settled(t, m[v := a], With(env, v, a), SortIds(cone))
    ensures var s := BothScores(score, v, if a < 0 then 0.0 else 1.0, if a < 0 then 1.0 else 0.0);
            s.Keys == score.Keys && ScoresSettled(t, s, With(env, v, a), SortIds(cone))
  {
    hide IsCone, With, BothScores, Closed, Settled, ScoresSettled, Ascending, AndsOf, Reachable;
    ModelNode(t, roots, m, env, v);
    SettledStart(t, roots, m, env, v, a, cone);
    ScoresStart(t, roots, score, env, v, a, cone);
    ConeAnds(t, roots, m, env, v, cone);
    SortedIds(cone);
  }

  /** From an AND to an operand, and to the false one if just one of them is false. */
  ghost predicate WalkStep(t: Graph, m: Model, l: Lit, c: Lit) {
    && l.id < |t| && t[l.id].And?
    && var a, b := t[l.id].left, t[l.id].right;
       a.id in m && b.id in m && (c == a || c == b) && (Assignment(m, a) != Assignment(m, b) ==> Assignment(m, c) == -1)
  }

  /** A path down from the root. */
  ghost predicate Walk(t: Graph, m: Model, root: Lit, path: seq<Lit>) {
    && path != [] && path[0] == root
    && forall j, k :: 0 <= j < |path| && k == j + 1 && k < |path| ==> WalkStep(t, m, path[j], path[k])
  }

  ghost predicate EndsIn(t: Graph, path: seq<Lit>, input: bool) {
    path != [] && var n := path[|path| - 1].id; n < |t| && if input then t[n].Var? else t[n].And?
  }

  lemma {:induction false} NoSteps(t: Graph, m: Model, root: Lit)
    ensures Walk(t, m, root, [root])
  {
  }

  lemma {:induction false} WalkMore(t: Graph, m: Model, root: Lit, path: seq<Lit>, c: Lit)
    requires Walk(t, m, root, path) && WalkStep(t, m, path[|path| - 1], c)
    ensures Walk(t, m, root, path + [c])
  {
    hide WalkStep;
  }

  lemma {:induction false} WalkStart(t: Graph, m: Model, root: Lit, path: seq<Lit>)
    requires Walk(t, m, root, path)
    ensures path != [] && path[0] == root
  {
  }

  lemma {:induction false} ModelFull(t: Graph, roots: seq<Lit>, m: Model)
    requires Computed(t, m, AllFalse()) && forall n: nat :: n in m <==> Reachable(t, roots, n)
    ensures FullModel(t, roots, m, AllFalse())
  {
  }

  lemma {:induction false} ModelKnown(t: Graph, roots: seq<Lit>, m: Model, env: Env)
    requires FullModel(t, roots, m, env)
    ensures Computed(t, m, env) && forall n: nat :: n in m <==> Reachable(t, roots, n)
  {
  }

  lemma {:induction false} NoRoots(m: Model)
    ensures UnsatIs([], m, {})
  {
  }

  lemma {:induction false} NextTrue(roots: seq<Lit>, m: Model, unsat: set<Lit>)
    requires UnsatIs(roots, m, unsat)
    ensures UnsatIs(roots + [TRUE_LIT], m, unsat)
  {
  }

  lemma {:induction false} NextRoot(roots: seq<Lit>, m: Model, unsat: set<Lit>, root: Lit)
    requires UnsatIs(roots, m, unsat) && root.id in m && root.id != 0
    ensures UnsatIs(roots + [root], m, if root !in unsat && Assignment(m, root) == -1 then unsat + {root} else unsat)
  {
  }

  lemma {:induction false} RootKnown(t: Graph, roots: seq<Lit>, m: Model, env: Env, k: nat)
    requires Rooted(t, roots) && FullModel(t, roots, m, env) && k < |roots| && roots[k].id != 0
    ensures roots[k].id in m
  {
    assert IsLive(t, roots[k]);
    ReachableRoot(t, roots, k);
  }

  /** A literal on the way down from the root: it is known, and its value has to change. */
  ghost predicate OnWay(t: Graph, m: Model, root: Lit, cur: Lit, asscur: int) {
    && cur.id in m && 2 <= cur.id < |t| && Reach(t, root.id, cur.id)
    && (asscur == 1 || asscur == -1) && Assignment(m, cur) == -asscur
  }

  lemma {:induction false} RootFalse(t: Graph, roots: seq<Lit>, m: Model, env: Env, unsat: set<Lit>, root: Lit)
    requires Rooted(t, roots) && FullModel(t, roots, m, env) && UnsatIs(roots, m, unsat) && root in unsat
    ensures OnWay(t, m, root, root, 1) && (t[root.id].Var? || t[root.id].And?)
  {
    ModelNode(t, roots, m, env, root.id);
  }

  /** An AND that has to flip to `want`: what is known about its children. */
  lemma {:induction false} WayDown(t: Graph, roots: seq<Lit>, m: Model, env: Env, root: Lit, cur: Lit, want: int)
    requires Rooted(t, roots) && FullModel(t, roots, m, env)
    requires OnWay(t, m, root, cur, if cur.inv then -want else want) && t[cur.id].And?
    ensures var l, r := t[cur.id].left, t[cur.id].right;
            && l.id in m && r.id in m && l.id < cur.id && r.id < cur.id && 2 <= l.id < |t| && 2 <= r.id < |t|
            && Reach(t, root.id, l.id) && Reach(t, root.id, r.id)
            && (t[l.id].Var? || t[l.id].And?) && (t[r.id].Var? || t[r.id].And?)
            && (Assignment(m, l) == 1 || Assignment(m, l) == -1) && (Assignment(m, r) == 1 || Assignment(m, r) == -1)
            && (want == 1 ==> Assignment(m, l) == -1 || Assignment(m, r) == -1)
            && (want == -1 ==> Assignment(m, l) == 1 && Assignment(m, r) == 1)
  {
    var n := cur.id;
    ModelNode(t, roots, m, env, n);
    var l, r := t[n].left, t[n].right;
    ModelNode(t, roots, m, env, l.id);
    ModelNode(t, roots, m, env, r.id);
    assert IsParent(t, n, l.id) && IsParent(t, n, r.id);
    ReachStep(t, n, l.id, l.id);
    ReachStep(t, n, r.id, r.id);
    ReachTrans(t, root.id, n, l.id);
    ReachTrans(t, root.id, n, r.id);
  }

  /** Every node is an AND of the model with both of its children. */
  ghost predicate AndsOf(t: Graph, S: set<nat>, cone: seq<nat>) {
    forall i :: 0 <= i < |cone| ==> AndOf(t, S, cone[i])
  }

  ghost predicate AndOf(t: Graph, S: set<nat>, n: nat) {
    n in S && 2 <= n < |t| && t[n].And? && t[n].left.id in S && t[n].right.id in S
  }

  lemma {:induction false} ConeNode(t: Graph, S: set<nat>, cone: seq<nat>, i: nat)
    requires AndsOf(t, S, cone) && Ascending(cone) && i < |cone|
    ensures AndOf(t, S, cone[i]) && cone[i..][0] == cone[i] && Ascending(cone[i..])
  {
  }

  lemma {:induction false} SettledSign(t: Graph, m: Model, env: Env, rest: seq<nat>, n: nat)
    requires Settled(t, m, env, rest) && n in m
    ensures m[n] == 1 || m[n] == -1
  {
  }

  lemma {:induction false} SettledAll(t: Graph, roots: seq<Lit>, m: Model, m': Model, env: Env, env': Env)
    requires FullModel(t, roots, m, env) && m'.Keys == m.Keys && Settled(t, m', env', [])
    ensures FullModel(t, roots, m', env')
  {
    hide NodeValue, Reachable;
    assert forall n: nat :: n in m' <==> n in m'.Keys;
  }

  lemma {:induction false} ScoresAll(t: Graph, m: Model, m': Model, score: Scores, score': Scores, env: Env, env': Env)
    requires FullScores(t, m, score, env) && score'.Keys == score.Keys && m'.Keys == m.Keys
    requires ScoresSettled(t, score', env', [])
    ensures FullScores(t, m', score', env')
  {
    hide ScoreOf;
    forall l | l in score'
      ensures l in score && score'[l] == ScoreOf(t, env', l)
    {
    }
    CoversSame(score, score', m, m');
  }

  lemma {:induction false} ConeAnds(t: Graph, roots: seq<Lit>, m: Model, env: Env, v: nat, cone: seq<nat>)
    requires Rooted(t, roots) && FullModel(t, roots, m, env) && IsCone(t, roots, v, cone)
    ensures AndsOf(t, m.Keys, SortIds(cone))
  {
    SortedIds(cone);
    var s := SortIds(cone);
    forall i | 0 <= i < |s|
      ensures AndOf(t, m.Keys, s[i])
    {
      assert s[i] in s;
      ModelNode(t, roots, m, env, s[i]);
    }
  }
}
