/** Asserting bit-vector constraints: translation into AIGs, encoding into clauses, and what the
    clauses then say about the constraints (src/bzlacore.c:1073-1168, 3060-3088). */
module BitBlast {
  import opened Arith
  import opened BvRef
  import opened AigGraph
  import opened UniqueTable
  import opened References
  import opened AigManager
  import opened AigNum
  import opened Expressions
  import opened AigSynth
  import opened AigCnf

  /** The constraint holds: the one-bit value of the node, seen through the edge, is 1. */
  ghost predicate IsOne(exps: seq<Exp>, x: Assignment, e: Edge)
    requires WellTyped(exps) && e.id < |exps|
  {
    Through(e.inv, Value(exps, x, e.id), 1) == 1
  }

  ghost predicate Constraints(exps: seq<Exp>, roots: seq<Edge>) {
    WellTyped(exps) && forall e :: e in roots ==> e.id < |exps| && exps[e.id].width == 1
  }

  ghost predicate AllOne(exps: seq<Exp>, x: Assignment, roots: seq<Edge>)
    requires Constraints(exps, roots)
  {
    forall e :: e in roots ==> IsOne(exps, x, e)
  }

  ghost predicate Satisfiable(exps: seq<Exp>, roots: seq<Edge>)
    requires Constraints(exps, roots)
  {
    exists x: Assignment :: InRange(exps, x) && AllOne(exps, x, roots)
  }

  // ---------------------------------------------------------------- literals of constraints

  function ThroughLit(inv: bool, l: Lit): Lit { if inv then Not(l) else l }

  ghost predicate HasCell(cells: seq<seq<Lit>>, e: Edge) { e.id < |cells| && |cells[e.id]| == 1 }

  ghost function RootLit(cells: seq<seq<Lit>>, e: Edge): Lit
    requires HasCell(cells, e)
  { ThroughLit(e.inv, cells[e.id][0]) }

  ghost predicate Sized(exps: seq<Exp>, cells: seq<seq<Lit>>) {
    |cells| == |exps| && forall v: nat :: v < |cells| && cells[v] != [] ==> |cells[v]| == exps[v].width
  }

  /** The table gives every node that has a vector its value. */
  ghost predicate Right(exps: seq<Exp>, cells: seq<seq<Lit>>, g: Graph) {
    WellTyped(exps) && Sized(exps, cells) && Sound(exps, cells, g) && Free(exps, cells, g)
  }

  lemma {:induction false} RootMeans(exps: seq<Exp>, cells: seq<seq<Lit>>, g: Graph, e: Edge, env: Env, x: Assignment)
    requires Right(exps, cells, g) && HasCell(cells, e) && Agrees(exps, cells, g, env, x)
    ensures Eval(g, RootLit(cells, e), env) <==> IsOne(exps, x, e)
  {
    assert Denotes(exps, cells, g, env, x);
    hide WellTyped, Value, Free, Sound, Agrees, Num, Eval;
    var c := cells[e.id][0];
    assert cells[e.id] == [c];
    NumOne(g, c, env);
    EvalNot(g, c, env);
    BvNotOne(Value(exps, x, e.id));
  }

  /** The assignment that the AIG variables stand for. */
  ghost function ReadOff(cells: seq<seq<Lit>>, g: Graph, env: Env): Assignment {
    (v: nat) => if v < |cells| then Num(g, cells[v], env) else 0
  }

  lemma {:induction false} ReadOffAgrees(exps: seq<Exp>, cells: seq<seq<Lit>>, g: Graph, env: Env)
    requires Sized(exps, cells)
    ensures Agrees(exps, cells, g, env, ReadOff(cells, g, env)) && InRange(exps, ReadOff(cells, g, env))
  {
    forall v: nat | v < |exps| && exps[v].kind.VarNode?
      ensures ReadOff(cells, g, env)(v) < Pow2(exps[v].width)
    {
      NumBound(g, cells[v], env);
    }
  }

  lemma {:induction false} InRangeAgrees(exps: seq<Exp>, cells: seq<seq<Lit>>, g: Graph, x: Assignment)
    requires Right(exps, cells, g) && InRange(exps, x)
    ensures Agrees(exps, cells, g, EnvFor(exps, cells, x), x)
  {
    hide WellTyped, Sound, Free, Agrees, Pow2;
    EveryAssignment(exps, cells, g, x);
  }

  /** The asserted literals are those of the constraints `done`. */
  ghost predicate AssertsAll(cells: seq<seq<Lit>>, asserted: seq<Lit>, done: seq<Edge>) {
    && |asserted| == |done|
    && forall k :: 0 <= k < |done| ==> HasCell(cells, done[k]) && asserted[k] == RootLit(cells, done[k])
  }

  /** Some assignment of the AIG makes all asserted literals true exactly when the constraints
      are satisfiable. */
  lemma {:induction false} RootsSatisfiable(exps: seq<Exp>, cells: seq<seq<Lit>>, g: Graph, asserted: seq<Lit>,
        done: seq<Edge>)
    requires Right(exps, cells, g) && AssertsAll(cells, asserted, done) && Constraints(exps, done)
    ensures (exists env: Env :: RootsTrue(g, asserted, env)) <==> Satisfiable(exps, done)
  {
    hide Right, Eval, IsOne, InRange, HasCell, WellTyped;
    if env: Env :| RootsTrue(g, asserted, env) {
      var x := ReadOff(cells, g, env);
      RightParts(exps, cells, g);
      ReadOffAgrees(exps, cells, g, env);
      hide Agrees, Sized, ReadOff;
      forall e | e in done
        ensures IsOne(exps, x, e)
      {
        var k :| 0 <= k < |done| && done[k] == e;
        RootMeans(exps, cells, g, e, env, x);
      }
      assert AllOne(exps, x, done);
    }
    if x: Assignment :| InRange(exps, x) && AllOne(exps, x, done) {
      RightParts(exps, cells, g);
      InRangeAgrees(exps, cells, g, x);
      hide Agrees, Sized;
      var env := EnvFor(exps, cells, x);
      forall k | 0 <= k < |asserted|
        ensures Eval(g, asserted[k], env)
      {
        RootMeans(exps, cells, g, done[k], env, x);
      }
      assert RootsTrue(g, asserted, env);
    }
  }

  lemma {:induction false} RightParts(exps: seq<Exp>, cells: seq<seq<Lit>>, g: Graph)
    requires Right(exps, cells, g)
    ensures WellTyped(exps) && Sized(exps, cells)
  {
  }

  /** A constraint whose literal is the constant false has no solution. */
  lemma {:induction false} FalseRoot(exps: seq<Exp>, cells: seq<seq<Lit>>, g: Graph, e: Edge, x: Assignment)
    requires Right(exps, cells, g) && |g| > 0 && g[0] == Const
    requires HasCell(cells, e) && RootLit(cells, e) == FALSE_LIT && InRange(exps, x)
    ensures !IsOne(exps, x, e)
  {
    InRangeAgrees(exps, cells, g, x);
    var env := EnvFor(exps, cells, x);
    RootMeans(exps, cells, g, e, env, x);
    EvalConst(g, FALSE_LIT, env);
  }

  // ---------------------------------------------------------------- processing the constraints

  /** The table and the clauses belong together. */
  ghost predicate Joined(tab: ExpTable, done: seq<Edge>)
    reads tab, tab.m, tab.m.smgr, tab.Vectors()
  {
    && tab.Valid() && Ready(tab.m)
    && |tab.cells| == |tab.exps| && AssertsAll(tab.cells, tab.m.smgr.asserted, done)
  }

  lemma {:induction false} TableRight(tab: ExpTable)
    requires tab.Valid()
    ensures Right(tab.exps, tab.cells, tab.m.graph) && |tab.m.graph| >= 2 && tab.m.graph[0] == Const
    ensures |tab.av| == |tab.exps| == |tab.cells|
    ensures forall i: nat :: i < |tab.av| ==> (tab.av[i] != null <==> tab.cells[i] != [])
    ensures forall i: nat :: i < |tab.av| && tab.av[i] != null ==>
              tab.av[i][..] == tab.cells[i] && |tab.cells[i]| == tab.exps[i].width
  {
    hide WellTyped, Sound, Free, Num, RowsRefs, tab.m.Valid;
    tab.m.HandlesKnown();
  }

  /** More vectors leave the asserted constraints alone. */
  lemma {:induction false} AssertsKept(cells: seq<seq<Lit>>, cells': seq<seq<Lit>>, asserted: seq<Lit>, done: seq<Edge>)
    requires AssertsAll(cells, asserted, done) && |cells'| == |cells|
    requires forall i: nat :: i < |cells| && cells[i] != [] ==> cells'[i] == cells[i]
    ensures AssertsAll(cells', asserted, done)
  {
    forall k | 0 <= k < |done|
      ensures HasCell(cells', done[k]) && asserted[k] == RootLit(cells', done[k])
    {
      assert HasCell(cells, done[k]);
    }
  }

  lemma {:induction false} AssertsMore(cells: seq<seq<Lit>>, asserted: seq<Lit>, done: seq<Edge>, e: Edge)
    requires AssertsAll(cells, asserted, done) && HasCell(cells, e)
    ensures AssertsAll(cells, asserted + [RootLit(cells, e)], done + [e])
  {
  }

  /** Translating one more node keeps the encoder ready. */
  method SynthesizeReady(tab: ExpTable, exp: Edge, ghost done: seq<Edge>)
    requires Joined(tab, done) && VarsHeld(tab.m.graph, tab.m.handles) && exp.id < |tab.exps|
    modifies tab, tab.m, tab.Vectors()
    ensures Joined(tab, done) && VarsHeld(tab.m.graph, tab.m.handles) && tab.base == old(tab.base)
    ensures |tab.av| == |tab.exps| && tab.av[exp.id] != null
    ensures forall i: nat :: i < |tab.av| && tab.av[i] != null ==> tab.av[i] in old(tab.Vectors()) || fresh(tab.av[i])
  {
    hide VarsHeld, AssertsAll, Grows, Right, tab.Facts, Holds, Encoded, VarsShared, tab.m.Sane, Unmarked;
    ghost var g, cells := tab.m.graph, tab.cells;
    TableRight(tab);
    tab.Synthesize(exp);
    TableRight(tab);
    AssertsKept(cells, tab.cells, tab.m.smgr.asserted, done);
    FactsParts(tab);
    VarsAreShared(tab.m);
    ReadyKept(tab.m, g);
  }

  /** `exp_to_aig`: a reference to the literal of a one-bit node; `h` are those held before it. */
  method ExpToAig(tab: ExpTable, exp: Edge, ghost done: seq<Edge>) returns (aig: Lit, ghost h: multiset<nat>)
    requires Joined(tab, done) && VarsHeld(tab.m.graph, tab.m.handles)
    requires exp.id < |tab.exps| && tab.exps[exp.id].width == 1
    modifies tab, tab.m, tab.Vectors()
    ensures Joined(tab, done) && HasCell(tab.cells, exp) && aig == RootLit(tab.cells, exp)
    ensures tab.m.handles == h + Ref(aig) && tab.base == old(tab.base) + Ref(aig) && VarsHeld(tab.m.graph, h)
    ensures forall i: nat :: i < |tab.av| && tab.av[i] != null ==> tab.av[i] in old(tab.Vectors()) || fresh(tab.av[i])
  {
    hide VarsHeld, AssertsAll, Right, tab.Facts, Holds, Ready;
    SynthesizeReady(tab, exp, done);
    TableRight(tab);
    h := tab.m.handles;
    var av := tab.av[exp.id];
    CellHeld(tab, exp.id);
    aig := HoldRoot(tab, ThroughLit(exp.inv, av[0]), done);
  }

  lemma {:induction false} CellHeld(tab: ExpTable, i: nat)
    requires tab.Valid() && i < |tab.cells| && tab.cells[i] != []
    ensures Ref(tab.cells[i][0]) <= tab.m.handles && Ref(Not(tab.cells[i][0])) <= tab.m.handles
  {
    hide WellTyped, Sound, Free, Num, RowsRefs, NodeRef, tab.m.Valid;
    RowHeld(tab.base, tab.cells, i);
  }

  /** One more reference keeps the encoder ready. */
  method CopyReady(m: Manager, l: Lit) returns (aig: Lit)
    requires Ready(m) && VarsHeld(m.graph, m.handles) && Ref(l) <= m.handles
    modifies m
    ensures Ready(m) && aig == l && m.graph == old(m.graph) && m.handles == old(m.handles) + Ref(l)
  {
    hide m.Sane, Unmarked, Ref, Grows, VarsShared, Encoded, VarsHeld;
    ghost var g := m.graph;
    GrowsSelf(g);
    aig := m.Copy(l);
    HeldMore(g, old(m.handles), m.handles);
    VarsAreShared(m);
    ReadyKept(m, g);
  }

  /** And so does giving it back, if it was not the one that held a variable. */
  method ReleaseReady(m: Manager, l: Lit, ghost h: multiset<nat>)
    requires Ready(m) && m.handles == h + Ref(l) && VarsHeld(m.graph, h)
    modifies m
    ensures Ready(m) && m.graph == old(m.graph) && m.handles == h
  {
    hide m.Sane, Unmarked, Ref, Grows, VarsShared, Encoded, VarsHeld;
    ghost var g := m.graph;
    GrowsSelf(g);
    m.Release(l);
    Cancel(m.handles, h, Ref(l));
    VarsAreShared(m);
    ReadyKept(m, g);
  }

  lemma {:induction false} FactsNow(tab: ExpTable)
    requires WellTyped(tab.exps) && |tab.cells| == |tab.exps| && tab.m.Valid()
    requires Known(tab.m.graph, tab.cells) && Sound(tab.exps, tab.cells, tab.m.graph)
    requires Free(tab.exps, tab.cells, tab.m.graph) && tab.m.handles == tab.base + RowsRefs(tab.cells)
    ensures tab.Facts()
  {
    hide tab.m.Valid, WellTyped, Known, Sound, Free, RowsRefs;
  }

  lemma {:induction false} FactsParts(tab: ExpTable)
    requires tab.Facts()
    ensures WellTyped(tab.exps) && |tab.cells| == |tab.exps| && tab.m.Valid()
    ensures Known(tab.m.graph, tab.cells) && Sound(tab.exps, tab.cells, tab.m.graph)
    ensures Free(tab.exps, tab.cells, tab.m.graph) && tab.m.handles == tab.base + RowsRefs(tab.cells)
  {
    hide tab.m.Valid, WellTyped, Known, Sound, Free, RowsRefs;
  }

  lemma {:induction false} ReadyValid(m: Manager)
    requires Ready(m)
    ensures m.Valid()
  {
  }

  /** The copy that `exp_to_aig` hands out. */
  method HoldRoot(tab: ExpTable, l: Lit, ghost done: seq<Edge>) returns (aig: Lit)
    requires Joined(tab, done) && VarsHeld(tab.m.graph, tab.m.handles) && Ref(l) <= tab.m.handles
    modifies tab`base, tab.m
    ensures Joined(tab, done) && aig == l && tab.m.graph == old(tab.m.graph)
    ensures tab.m.handles == old(tab.m.handles) + Ref(l) && tab.base == old(tab.base) + Ref(l)
  {
    hide WellTyped, Sound, Free, Known, RowsRefs, Refs, Ref, AssertsAll, VarsHeld, Ready, tab.Facts, Holds, tab.m.Valid;
    FactsParts(tab);
    aig := CopyReady(tab.m, l);
    tab.base := tab.base + Ref(l);
    assert old(tab.base) + RowsRefs(tab.cells) + Ref(l) == tab.base + RowsRefs(tab.cells);
    ReadyValid(tab.m);
    FactsNow(tab);
  }

  lemma {:induction false} HeldMore(g: Graph, h: multiset<nat>, h': multiset<nat>)
    requires VarsHeld(g, h) && h <= h'
    ensures VarsHeld(g, h')
  {
  }

  /** The clauses assert one more constraint. */
  method AddRoot(tab: ExpTable, exp: Edge, aig: Lit, ghost done: seq<Edge>)
    requires Joined(tab, done) && HasCell(tab.cells, exp) && aig == RootLit(tab.cells, exp)
    requires Ref(aig) <= tab.m.handles
    modifies tab.m`mark, tab.m`local, tab.m`cnfId, tab.m.smgr
    ensures Joined(tab, done + [exp])
  {
    hide AssertsAll, HasCell, tab.Facts, Holds, Ready, tab.m.Valid, Ref, WellTyped, Sound, Free, Known, RowsRefs;
    FactsParts(tab);
    tab.m.UsableLive(aig);
    AddToplevel(tab.m, aig);
    AssertsMore(tab.cells, old(tab.m.smgr.asserted), done, exp);
    ReadyValid(tab.m);
    FactsNow(tab);
  }

  /** The reference from `exp_to_aig` is given back. */
  method ReleaseRoot(tab: ExpTable, aig: Lit, ghost h: multiset<nat>, ghost base: multiset<nat>, ghost done: seq<Edge>)
    requires Joined(tab, done) && tab.m.handles == h + Ref(aig) && VarsHeld(tab.m.graph, h)
    requires tab.base == base + Ref(aig)
    modifies tab`base, tab.m
    ensures Joined(tab, done) && VarsHeld(tab.m.graph, tab.m.handles) && tab.base == base
  {
    hide WellTyped, Sound, Free, Known, RowsRefs, Refs, Ref, AssertsAll, VarsHeld, Ready, tab.Facts, Holds, tab.m.Valid;
    FactsParts(tab);
    ReleaseReady(tab.m, aig, h);
    assert h + Ref(aig) == base + RowsRefs(tab.cells) + Ref(aig);
    Cancel(h, base + RowsRefs(tab.cells), Ref(aig));
    tab.base := base;
    ReadyValid(tab.m);
    FactsNow(tab);
  }

  /** One constraint of the loop; false is reported before it reaches the clauses. */
  method AssertConstraint(tab: ExpTable, exp: Edge, ghost done: seq<Edge>) returns (isFalse: bool)
    requires Joined(tab, done) && VarsHeld(tab.m.graph, tab.m.handles)
    requires exp.id < |tab.exps| && tab.exps[exp.id].width == 1
    modifies tab, tab.m, tab.m.smgr, tab.Vectors()
    ensures Joined(tab, if isFalse then done else done + [exp]) && VarsHeld(tab.m.graph, tab.m.handles)
    ensures tab.base == old(tab.base)
    ensures forall i: nat :: i < |tab.av| && tab.av[i] != null ==> tab.av[i] in old(tab.Vectors()) || fresh(tab.av[i])
    ensures isFalse ==> WellTyped(tab.exps) && forall x: Assignment :: InRange(tab.exps, x) ==> !IsOne(tab.exps, x, exp)
  {
    hide WellTyped, VarsHeld, AssertsAll, HasCell, tab.Facts, Holds, Ready, IsOne, InRange, NodeRef;
    ghost var base := tab.base;
    var aig;
    ghost var h;
    aig, h := ExpToAig(tab, exp, done);
    TableRight(tab);
    isFalse := aig == FALSE_LIT;
    if isFalse {
      RightParts(tab.exps, tab.cells, tab.m.graph);
      forall x: Assignment | InRange(tab.exps, x)
        ensures !IsOne(tab.exps, x, exp)
      {
        FalseRoot(tab.exps, tab.cells, tab.m.graph, exp, x);
      }
      NodeRefZero();
      assert tab.m.handles == h && tab.base == base;
    } else {
      AddRoot(tab, exp, aig, done);
      ReleaseRoot(tab, aig, h, base, done + [exp]);
    }
  }

  /** `bzla_process_unsynthesized_constraints`: assert the constraints `uc` that are not among the
      ones asserted before, `sc`. */
  method ProcessConstraints(tab: ExpTable, uc: seq<Edge>, sc: set<Edge>, ghost done: seq<Edge>)
    returns (foundFalse: bool, sc': set<Edge>, ghost done': seq<Edge>)
    requires Joined(tab, done) && VarsHeld(tab.m.graph, tab.m.handles) && Constraints(tab.exps, done + uc)
    requires forall e :: e in sc <==> e in done
    modifies tab, tab.m, tab.m.smgr, tab.Vectors()
    ensures Joined(tab, done') && VarsHeld(tab.m.graph, tab.m.handles) && tab.base == old(tab.base)
    ensures Constraints(tab.exps, done') && Constraints(tab.exps, uc) && forall e :: e in sc' <==> e in done'
    ensures foundFalse ==> !Satisfiable(tab.exps, uc)
    ensures !foundFalse ==> forall e :: e in done' <==> e in done || e in uc
    ensures (exists M: Model :: SatAll(M, tab.m.smgr.clauses)) <==> Satisfiable(tab.exps, done')
  {
    hide VarsHeld, AssertsAll, Right, tab.Facts, Holds, Ready, IsOne, InRange, WellTyped, SatAll, Satisfiable;
    sc', done' := sc, done;
    foundFalse := false;
    for i := 0 to |uc|
      invariant Joined(tab, done') && VarsHeld(tab.m.graph, tab.m.handles) && tab.base == old(tab.base)
      invariant forall e :: e in sc' <==> e in done'
      invariant forall e :: e in done' <==> e in done || e in uc[..i]
      invariant forall k: nat :: k < |tab.av| && tab.av[k] != null ==>
                  tab.av[k] in old(tab.Vectors()) || fresh(tab.av[k])
    {
      var cur := uc[i];
      assert cur in uc && cur in done + uc && uc[..i + 1] == uc[..i] + [cur];
      if cur !in sc' {
        var isFalse := AssertConstraint(tab, cur, done');
        if isFalse {
          ConstraintsPart(tab.exps, done + uc, uc);
          NoneSatisfy(tab.exps, uc, cur);
          foundFalse := true;
          break;
        }
        sc', done' := sc' + {cur}, done' + [cur];
      }
    }
    assert uc[..|uc|] == uc;
    ConstraintsPart(tab.exps, done + uc, uc);
    ConstraintsPart(tab.exps, done + uc, done');
    ClausesMeanConstraints(tab, done', done');
  }

  lemma {:induction false} ConstraintsPart(exps: seq<Exp>, roots: seq<Edge>, part: seq<Edge>)
    requires Constraints(exps, roots) && forall e :: e in part ==> e in roots
    ensures Constraints(exps, part)
  {
    hide WellTyped;
  }

  lemma {:induction false} NoneSatisfy(exps: seq<Exp>, uc: seq<Edge>, e: Edge)
    requires Constraints(exps, uc) && e in uc && forall x: Assignment :: InRange(exps, x) ==> !IsOne(exps, x, e)
    ensures !Satisfiable(exps, uc)
  {
    hide IsOne, InRange, WellTyped;
  }

  /** What asserting is for: the clauses have a model exactly when the constraints have a solution. */
  lemma {:induction false} ClausesMeanConstraints(tab: ExpTable, uc: seq<Edge>, done: seq<Edge>)
    requires Joined(tab, done) && Constraints(tab.exps, uc) && forall e :: e in done <==> e in uc
    ensures (exists M: Model :: SatAll(M, tab.m.smgr.clauses)) <==> Satisfiable(tab.exps, uc)
  {
    hide AssertsAll, Right, tab.Facts, Holds, IsOne, InRange, WellTyped, SatAll, Encoded, VarsShared, tab.m.Sane;
    hide RootsTrue;
    TableRight(tab);
    var s := tab.m.smgr;
    Equisatisfiable(tab.m.graph, s.numbered, s.nextCnfId, s.clauses, s.asserted);
    RootsSatisfiable(tab.exps, tab.cells, tab.m.graph, s.asserted, done);
    assert forall x: Assignment {:trigger InRange(tab.exps, x)} ::
        AllOne(tab.exps, x, done) <==> AllOne(tab.exps, x, uc);
  }

  lemma {:induction false} NoVectors(tab: ExpTable)
    requires tab.Valid() && forall i :: 0 <= i < |tab.exps| && i < |tab.av| ==> tab.av[i] == null
    ensures tab.Vectors() == {} && |tab.cells| == |tab.exps|
  {
    hide tab.Facts;
  }

  /** From nothing: a fresh manager, a table for the expressions, and all constraints. */
  method BlastAll(exps: seq<Exp>, uc: seq<Edge>, sortAig: bool, sortVec: bool, lazySynth: bool)
    returns (clauses: seq<seq<int>>, foundFalse: bool)
    requires Constraints(exps, uc)
    ensures foundFalse ==> !Satisfiable(exps, uc)
    ensures !foundFalse ==> ((exists M: Model :: SatAll(M, clauses)) <==> Satisfiable(exps, uc))
  {
    hide Satisfiable, SatAll, Holds, Encoded, VarsShared, Right, WellTyped, RowsRefs, Sound, Free, Known;
    var m := NewManager(sortAig, false);
    ReadyValid(m);
    hide Ready, m.Valid;
    var tab := new ExpTable(exps, m, sortVec, lazySynth);
    hide tab.Facts;
    NoVectors(tab);
    assert [] + uc == uc;
    var sc;
    ghost var done;
    foundFalse, sc, done := ProcessConstraints(tab, uc, {}, []);
    if !foundFalse { ClausesMeanConstraints(tab, uc, done); }
    clauses := m.smgr.clauses;
  }
}
