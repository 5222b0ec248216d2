/** The AIG manager (src/bzlaaig.c): a hash-consed, reference-counted graph. */
module AigManager {
  import opened AigGraph
  import opened AigRewrite
  import opened UniqueTable
  import opened References

  /** The clause side of the SAT manager after its initialization: what was added, which
      node every CNF variable was handed out for, and the roots that were asserted.  CNF
      variable 1 is the true literal; CNF ids are never handed out twice. */
  class SatManager {
    const haveRestore: bool
    var clauses: seq<seq<int>>
    var nextCnfId: nat
    ghost var numbered: map<nat, nat>
    ghost var asserted: seq<Lit>

    constructor (haveRestore: bool)
      ensures this.haveRestore == haveRestore && clauses == [[1]] && nextCnfId == 2
      ensures numbered == map[] && asserted == []
    {
      this.haveRestore := haveRestore;
      clauses := [[1]];
      nextCnfId := 2;
      numbered := map[];
      asserted := [];
    }
  }

  /** No traversal is under way. */
  ghost predicate Unmarked(mark: seq<nat>, local: seq<nat>) {
    && (forall i :: 0 <= i < |mark| ==> mark[i] == 0)
    && (forall i :: 0 <= i < |local| ==> local[i] == 0)
  }

  lemma {:induction false} UnmarkedGrow(mark: seq<nat>, local: seq<nat>)
    requires Unmarked(mark, local)
    ensures Unmarked(mark + [0], local + [0])
  {
  }

  /** A stored CNF id was handed out for its node, and a live variable never loses its own. */
  ghost predicate CnfLinked(t: Graph, g: Graph, cnfId: seq<nat>, numbered: map<nat, nat>) {
    && |cnfId| == |t| == |g|
    && (forall i: nat :: 2 <= i < |t| && !t[i].Freed? && cnfId[i] != 0 ==>
       cnfId[i] in numbered && numbered[cnfId[i]] == i)
    && (forall c: nat :: c in numbered ==> 2 <= numbered[c] < |g|)
    && (forall c: nat :: c in numbered && t[numbered[c]].Var? ==> cnfId[numbered[c]] == c)
  }

  lemma {:induction false} CnfGrow(t: Graph, g: Graph, cnfId: seq<nat>, numbered: map<nat, nat>, gate: Gate)
    requires CnfLinked(t, g, cnfId, numbered)
    ensures CnfLinked(t + [gate], g + [gate], cnfId + [0], numbered)
  {
    forall c: nat | c in numbered
      ensures (t + [gate])[numbered[c]].Var? ==> (cnfId + [0])[numbered[c]] == c
    {
      assert (t + [gate])[numbered[c]] == t[numbered[c]];
    }
  }

  /** A variable is in no chain. */
  lemma {:induction false} TableVar(t: Graph, next: seq<nat>, chains: seq<nat>, buckets: seq<seq<nat>>, count: nat,
        sort: bool)
    requires TableOk(t, next, chains, buckets, count, sort)
    ensures TableOk(t + [Var], next + [0], chains, buckets, count, sort)
  {
    LinkedGrow(next, chains, buckets, 0);
    SortedGrow(t, Ands(t), buckets, Var);
    assert Ands(t + [Var]) == Ands(t);
  }

  lemma {:induction false} CnfFree(t: Graph, g: Graph, cnfId: seq<nat>, cnfId': seq<nat>, numbered: map<nat, nat>,
        id: nat)
    requires CnfLinked(t, g, cnfId, numbered) && id < |t| && (cnfId' == cnfId || cnfId' == cnfId[id := 0])
    ensures CnfLinked(t[id := Freed], g, cnfId', numbered)
  {
    forall c: nat | c in numbered
      ensures t[id := Freed][numbered[c]].Var? ==> cnfId'[numbered[c]] == c
    {
      assert numbered[c] != id ==> t[id := Freed][numbered[c]] == t[numbered[c]];
    }
  }

  /** The table after node `id`, already unlinked if it is an AND, is forgotten. */
  lemma {:induction false} TableFree(t: Graph, ids: set<nat>, next: seq<nat>, chains: seq<nat>,
        buckets: seq<seq<nat>>, sort: bool, id: nat)
    requires 2 <= id < |t| && !t[id].Freed? && ids == Ands(t) - {id}
    requires Linked(next, chains, buckets) && Sorted(t, ids, buckets) && Unique(t) && Ordered(t, sort)
    ensures TableOk(t[id := Freed], next, chains, buckets, |ids|, sort)
  {
    SortedFree(t, ids, buckets, id);
    var t' := t[id := Freed];
    assert Ands(t') == ids;
    assert forall i: nat :: IsAndId(t', i) ==> IsAndId(t, i) && t'[i] == t[i];
  }

  lemma {:induction false} TableFreeVar(t: Graph, next: seq<nat>, chains: seq<nat>, buckets: seq<seq<nat>>,
        count: nat, sort: bool, id: nat)
    requires TableOk(t, next, chains, buckets, count, sort) && 2 <= id < |t| && t[id].Var?
    ensures TableOk(t[id := Freed], next, chains, buckets, count, sort)
  {
    assert Ands(t) - {id} == Ands(t);
    TableFree(t, Ands(t), next, chains, buckets, sort, id);
  }

  ghost function LiveSet(t: Graph): set<nat> { set i: nat | 2 <= i < |t| && !t[i].Freed? }

  lemma {:induction false} FewerLive(t: Graph, id: nat)
    requires 2 <= id < |t| && !t[id].Freed?
    ensures LiveSet(t[id := Freed]) < LiveSet(t)
  {
    assert id in LiveSet(t);
  }

  /** Appending a new AND at the end of the chain of its hash. */
  lemma {:induction false} TableAnd(t: Graph, next: seq<nat>, chains: seq<nat>, buckets: seq<seq<nat>>, count: nat,
        sort: bool, gate: Gate, link: Link)
    requires TableOk(t, next, chains, buckets, count, sort) && |next| == |t| >= 2
    requires gate.And? && Absent(t, gate) && (sort ==> gate.left.id < gate.right.id)
    requires |chains| > 0 && EndOf(link, HashGate(gate, |chains|), buckets)
    ensures var b := HashGate(gate, |chains|);
            b < |buckets| &&
            TableOk(t + [gate], WriteNext(link, next + [0], |t|), WriteChains(link, chains, |t|),
                    buckets[b := buckets[b] + [|t|]], count + 1, sort)
  {
    hide Linked, Sorted, HashGate;
    LinkedShape(next, chains, buckets);
    var b := HashGate(gate, |chains|);
    var t' := t + [gate];
    LinkedGrow(next, chains, buckets, 0);
    SortedGrow(t, Ands(t), buckets, gate);
    AppendBucket(t', Ands(t), next + [0], chains, buckets, link, b, |t|);
    assert Ands(t') == Ands(t) + {|t|};
    assert Unique(t') by {
      forall i: nat, j: nat | IsAndId(t', i) && IsAndId(t', j) && t'[i] == t'[j]
        ensures i == j
      {
        if i < |t| && j < |t| {
          assert IsAndId(t, i) && IsAndId(t, j);
        }
      }
    }
  }

  /** Operands in the order in which `find_and_aig` and `new_and_aig` store them. */
  function Stored(sort: bool, left: Lit, right: Lit): Gate {
    if sort && right.id < left.id then And(right, left) else And(left, right)
  }

  /** A node stored for two operands has the value of their conjunction. */
  lemma {:induction false} StoredValue(t: Graph, g: Graph, sort: bool, left: Lit, right: Lit, res: Lit, env: Env)
    requires Closed(t) && WellFormed(g) && Remembers(g, t)
    requires IsAndId(t, res.id) && t[res.id] == Stored(sort, left, right)
    ensures Eval(g, res, env) == ((Eval(g, left, env) && Eval(g, right, env)) != res.inv)
  {
    EvalAnd(t, g, res, env);
  }

  lemma {:induction false} XorValue(t: Graph, g: Graph, sort: bool, left: Lit, right: Lit, l: nat, r: nat, x: nat,
        env: Env)
    requires Closed(t) && WellFormed(g) && Remembers(g, t)
    requires IsLive(t, left) && IsLive(t, right) && left.inv && IsAnd(t, left) && right.inv && IsAnd(t, right)
    requires Left(t, left) == Not(Left(t, right)) && Right(t, left) == Not(Right(t, right))
    requires IsAndId(t, l) && t[l] == Stored(sort, Left(t, left), Not(Right(t, left)))
    requires IsAndId(t, r) && t[r] == Stored(sort, Not(Left(t, left)), Right(t, left))
    requires IsAndId(t, x) && t[x] == Stored(sort, Lit(l, true), Lit(r, true))
    ensures Eval(g, Lit(x, true), env) == (Eval(g, left, env) && Eval(g, right, env))
  {
    hide Eval, NodeValue, Closed, WellFormed, Remembers, Stored;
    var a, b := Left(t, left), Right(t, left);
    EvalAnd(t, g, left, env);
    EvalAnd(t, g, right, env);
    EvalNot(g, a, env);
    EvalNot(g, b, env);
    EvalNot(g, Not(a), env);
    EvalNot(g, Not(b), env);
    StoredValue(t, g, sort, a, Not(b), Lit(l, true), env);
    StoredValue(t, g, sort, Not(a), b, Lit(r, true), env);
    StoredValue(t, g, sort, Lit(l, true), Lit(r, true), Lit(x, true), env);
  }

  lemma {:induction false} InitialState(sort: bool)
    ensures var t: Graph := [Const, Const];
            && Closed(t) && WellFormed(t) && Remembers(t, t) && Counted(t, [0, 0], multiset{})
            && TableOk(t, [0, 0], [0], [[]], 0, sort) && CnfLinked(t, t, [0, 0], map[])
  {
    var t: Graph := [Const, Const];
    assert Ands(t) == {};
  }

  /** Two ANDs with the same children in some order. */
  predicate SameChildren(t: Graph, i: nat, j: nat) {
    IsAndId(t, i) && IsAndId(t, j) && {t[j].left, t[j].right} == {t[i].left, t[i].right}
  }

  /** A node that was made has operands in which the bounded search finds no contradiction, and that have no
      XOR in the table. */
  ghost predicate NewIsUnclashed(t: Graph, t': Graph, sort: bool, res: Lit) {
    t' == t || (res.id < |t'| && t'[res.id].And? && Unclashed(t, t'[res.id].left, t'[res.id].right)
                && !XorThere(t, sort, t'[res.id].left, t'[res.id].right))
  }

  /** The operands are !(a & b) and !(!a & !b), and the nodes of the XOR of a and b are in the table. */
  ghost predicate XorThere(t: Graph, sort: bool, left: Lit, right: Lit) {
    && left.inv && IsAnd(t, left) && right.inv && IsAnd(t, right)
    && Left(t, left) == Not(Left(t, right)) && Right(t, left) == Not(Right(t, right))
    && exists l: nat, r: nat, x: nat :: XorNodes(t, sort, Left(t, left), Right(t, left), l, r, x)
  }

  ghost predicate XorNodes(t: Graph, sort: bool, a: Lit, b: Lit, l: nat, r: nat, x: nat) {
    && IsAndId(t, l) && t[l] == Stored(sort, a, Not(b)) && IsAndId(t, r) && t[r] == Stored(sort, Not(a), b)
    && IsAndId(t, x) && t[x] == Stored(sort, Lit(l, true), Lit(r, true))
  }

  /** With sorted operands the order of the operands does not matter. */
  lemma {:induction false} XorSwap(t: Graph, left: Lit, right: Lit)
    requires Closed(t) && XorThere(t, true, left, right)
    ensures XorThere(t, true, right, left)
  {
    var a, b := Left(t, left), Right(t, left);
    var l, r, x :| XorNodes(t, true, a, b, l, r, x);
    assert l != r by { XorApart(t, a, b, l, r, x); }
    assert XorNodes(t, true, Not(a), Not(b), r, l, x);
  }

  lemma {:induction false} XorApart(t: Graph, a: Lit, b: Lit, l: nat, r: nat, x: nat)
    requires Closed(t) && XorNodes(t, true, a, b, l, r, x)
    ensures l != r
  {
  }

  lemma {:induction false} NotThere(t: Graph, sort: bool, left: Lit, right: Lit, l: nat, r: nat)
    requires Unique(t) && left.inv && IsAnd(t, left)
    requires var a, b := Left(t, left), Right(t, left);
             Absent(t, Stored(sort, a, Not(b))) || Absent(t, Stored(sort, Not(a), b)) ||
             (IsAndId(t, l) && t[l] == Stored(sort, a, Not(b)) && IsAndId(t, r) && t[r] == Stored(sort, Not(a), b) &&
               Absent(t, Stored(sort, Lit(l, true), Lit(r, true))))
    ensures !XorThere(t, sort, left, right)
  {
    hide Stored;
    var a, b := Left(t, left), Right(t, left);
    forall l': nat, r': nat, x: nat
      ensures !XorNodes(t, sort, a, b, l', r', x)
    {
    }
  }

  lemma {:induction false} NoPattern(t: Graph, sort: bool, left: Lit, right: Lit)
    ensures XorThere(t, sort, left, right) ==>
              && left.inv && IsAnd(t, left) && right.inv && IsAnd(t, right)
              && Left(t, left) == Not(Left(t, right)) && Right(t, left) == Not(Right(t, right))
  {
  }

  lemma {:induction false} IsThere(t: Graph, sort: bool, left: Lit, right: Lit, l: nat, r: nat, x: nat)
    requires left.inv && IsAnd(t, left) && right.inv && IsAnd(t, right)
    requires Left(t, left) == Not(Left(t, right)) && Right(t, left) == Not(Right(t, right))
    requires IsAndId(t, l) && t[l] == Stored(sort, Left(t, left), Not(Right(t, left)))
    requires IsAndId(t, r) && t[r] == Stored(sort, Not(Left(t, left)), Right(t, left))
    requires IsAndId(t, x) && t[x] == Stored(sort, Lit(l, true), Lit(r, true))
    ensures XorThere(t, sort, left, right)
  {
    hide Stored;
    assert XorNodes(t, sort, Left(t, left), Right(t, left), l, r, x);
  }

  lemma {:induction false} NothingNew(t: Graph, sort: bool)
    ensures forall res: Lit :: NewIsUnclashed(t, t, sort, res)
  {
  }

  lemma {:induction false} NewNode(t: Graph, t': Graph, sort: bool, left: Lit, right: Lit, res: Lit)
    requires res.id < |t'| && t'[res.id] == Stored(sort, left, right) && Unclashed(t, left, right)
    requires Unclashed(t, right, left) && Closed(t) && !XorThere(t, sort, left, right)
    ensures NewIsUnclashed(t, t', sort, res)
  {
    hide Unclashed, XorThere, Closed;
    if sort && XorThere(t, true, right, left) { XorSwap(t, right, left); }
  }

  class Manager {
    const sortAig: bool
    const smgr: SatManager
    var id2aig: Graph
    var refs: seq<nat>
    var next: seq<nat>
    var chains: seq<nat>
    var numElements: nat
    var cnfId: seq<nat>
    var mark: seq<nat>
    var local: seq<nat>
    ghost var graph: Graph
    ghost var handles: multiset<nat>
    ghost var buckets: seq<seq<nat>>

    /** The manager between two operations. */
    ghost predicate Valid()
      reads this, smgr`numbered
    {
      Sane() && Unmarked(mark, local)
    }

    ghost predicate Sane()
      reads this, smgr`numbered
    {
      && Closed(id2aig) && WellFormed(graph) && Remembers(graph, id2aig)
      && Counted(id2aig, refs, handles)
      && 2 <= |graph| == |refs| == |next| == |mark| == |local| == |cnfId| == |id2aig|
      && TableOk(id2aig, next, chains, buckets, numElements, sortAig)
      && CnfLinked(id2aig, graph, cnfId, smgr.numbered)
    }

    /** The literal may be used: it is a constant or its node was not deleted. */
    predicate Live(l: Lit)
      reads this
    {
      IsLive(id2aig, l)
    }

    /** A pointer that may be passed in: the caller holds a reference, or the node is live. */
    ghost predicate Usable(l: Lit)
      reads this
    {
      Ref(l) <= handles || Live(l)
    }

    lemma {:induction false} HandlesKnown()
      requires Valid()
      ensures 2 <= |graph| && graph[0] == Const
      ensures forall id: nat {:trigger NodeRef(id)} :: NodeRef(id) <= handles ==> id < |graph|
    {
      forall id: nat | NodeRef(id) <= handles
        ensures id < |graph|
      {
        assert id == 0 || id in NodeRef(id);
      }
      hide Closed, TableOk, Remembers, CnfLinked;
    }

    lemma {:induction false} UsableLive(l: Lit)
      requires Valid() && Usable(l)
      ensures Live(l) && l.id < |graph|
    {
      assert l.id == 0 || l.id in Ref(l);
      hide Closed, WellFormed, TableOk, Remembers, CnfLinked;
    }

    constructor (sortAig: bool, smgr: SatManager)
      requires smgr.numbered == map[]
      ensures Valid() && handles == multiset{} && this.sortAig == sortAig && this.smgr == smgr
      ensures numElements == 0 && |id2aig| == 2 && graph == [Const, Const]
    {
      this.sortAig := sortAig;
      this.smgr := smgr;
      id2aig, graph := [Const, Const], [Const, Const];
      refs, next, cnfId, mark, local := [0, 0], [0, 0], [0, 0], [0, 0], [0, 0];
      chains, buckets := [0], [[]];
      numElements := 0;
      handles := multiset{};
      new;
      InitialState(sortAig);
      hide Closed, WellFormed, TableOk, CnfLinked, Counted, Remembers, Valid, Sane;
      ValidNow();
    }

    /** `bzla_aig_copy`: one more reference to the same node. */
    method Copy(l: Lit) returns (res: Lit)
      requires Valid() && Usable(l)
      modifies this
      ensures Valid() && res == l
      ensures handles == old(handles) + Ref(l)
      ensures id2aig == old(id2aig) && graph == old(graph)
      ensures numElements == old(numElements)
    {
      hide Counted, Closed, WellFormed, Remembers, TableOk, CnfLinked;
      UsableLive(l);
      res := l;
      if l.id != 0 {
        CountedHold(id2aig, refs, handles, l.id);
        refs := refs[l.id := refs[l.id] + 1];
        handles := handles + multiset{l.id};
      }
    }

    method ReplaceTable(next': seq<nat>, chains': seq<nat>, ghost buckets': seq<seq<nat>>, count: nat)
      modifies `next, `chains, `buckets, `numElements
      ensures next == next' && chains == chains' && buckets == buckets' && numElements == count
    {
      next, chains, buckets, numElements := next', chains', buckets', count;
    }

    /** Replace the tables of the manager by grown ones. */
    method Replace(t: Graph, ghost g: Graph, refs': seq<nat>, next': seq<nat>, chains': seq<nat>,
          ghost buckets': seq<seq<nat>>, count: nat, cnfId': seq<nat>, mark': seq<nat>, local': seq<nat>,
          ghost handles': multiset<nat>)
      requires Closed(t) && WellFormed(g) && Remembers(g, t) && Counted(t, refs', handles')
      requires 2 <= |g| == |refs'| == |next'| == |mark'| == |local'| == |cnfId'| == |t|
      requires TableOk(t, next', chains', buckets', count, sortAig) && CnfLinked(t, g, cnfId', smgr.numbered)
      requires Unmarked(mark', local')
      modifies this
      ensures Valid() && id2aig == t && graph == g && handles == handles' && numElements == count
    {
      hide *;
      ReplaceTable(next', chains', buckets', count);
      id2aig, graph, handles := t, g, handles';
      refs, cnfId, mark, local := refs', cnfId', mark', local';
      ValidNow();
    }

    lemma {:induction false} SaneNow()
      requires Closed(id2aig) && WellFormed(graph) && Remembers(graph, id2aig) && Counted(id2aig, refs, handles)
      requires 2 <= |graph| == |refs| == |next| == |mark| == |local| == |cnfId| == |id2aig|
      requires TableOk(id2aig, next, chains, buckets, numElements, sortAig)
      requires CnfLinked(id2aig, graph, cnfId, smgr.numbered)
      ensures Sane()
    {
    }

    lemma {:induction false} ValidNow()
      requires Closed(id2aig) && WellFormed(graph) && Remembers(graph, id2aig) && Counted(id2aig, refs, handles)
      requires 2 <= |graph| == |refs| == |next| == |mark| == |local| == |cnfId| == |id2aig|
      requires TableOk(id2aig, next, chains, buckets, numElements, sortAig)
      requires CnfLinked(id2aig, graph, cnfId, smgr.numbered) && Unmarked(mark, local)
      ensures Valid()
    {
    }

    /** `bzla_aig_var`: a fresh variable. */
    method NewVar() returns (res: Lit)
      requires Valid()
      modifies this
      ensures Valid() && Live(res) && !res.inv && res.id == |old(graph)| >= 2
      ensures handles == old(handles) + Ref(res)
      ensures graph == old(graph) + [Var] && id2aig == old(id2aig) + [Var]
      ensures Grows(old(graph), graph)
      ensures forall env: Env :: Eval(graph, res, env) == env(res.id)
    {
      hide Counted, Closed, WellFormed, Remembers, TableOk, CnfLinked, Unmarked;
      var id := |id2aig|;
      res := Lit(id, false);
      CountedNew(id2aig, refs, refs + [1], handles, Var);
      UnmarkedGrow(mark, local);
      AppendGate(graph, id2aig, Var);
      TableVar(id2aig, next, chains, buckets, numElements, sortAig);
      CnfGrow(id2aig, graph, cnfId, smgr.numbered, Var);
      GrowsIntro(graph, graph + [Var]);
      forall env: Env
        ensures Eval(graph + [Var], res, env) == env(res.id)
      {
        EvalVar(graph + [Var], res, env);
      }
      hide Eval, Grows;
      Replace(id2aig + [Var], graph + [Var], refs + [1], next + [0], chains, buckets, numElements,
        cnfId + [0], mark + [0], local + [0], handles + multiset{id});
    }

    /** Walk the chain of `id` down to the node in front of it (0 if there is none). */
    method FindPrev(id: nat, b: nat) returns (prev: nat, ghost k: nat)
      requires b < |chains| && Linked(next, chains, buckets) && id in buckets[b]
      ensures k < |buckets[b]| && buckets[b][k] == id
      ensures prev == if k == 0 then 0 else buckets[b][k - 1]
    {
      ghost var bucket := buckets[b];
      ghost var pos :| 0 <= pos < |bucket| && bucket[pos] == id;
      assert Chain(chains[b], bucket, next) && Distinct(bucket);
      ChainAt(chains[b], bucket, next);
      hide Linked, Chain;
      prev, k := 0, 0;
      var cur := chains[b];
      while cur != id
        invariant k <= pos && cur == bucket[k] && prev == (if k == 0 then 0 else bucket[k - 1])
        decreases pos - k
      {
        assert next[cur] == After(bucket, k);
        prev := cur;
        cur := next[cur];
        k := k + 1;
      }
    }

    /** `delete_aig_nodes_unique_table_entry`: walk the chain of `id` and unlink it. */
    method Unlink(id: nat)
      requires |next| == |id2aig| && IsAndId(id2aig, id)
      requires TableOk(id2aig, next, chains, buckets, numElements, sortAig)
      modifies `next, `chains, `buckets, `numElements
      ensures |next| == |id2aig|
      ensures TableOk(id2aig[id := Freed], next, chains, buckets, numElements, sortAig)
      ensures numElements == old(numElements) - 1
    {
      hide TableOk, Sorted, HashGate, Linked, Skip, Unique, Ordered;
      TableParts(id2aig, next, chains, buckets, numElements, sortAig);
      LinkedShape(next, chains, buckets);
      var b := HashGate(id2aig[id], |chains|);
      ghost var ids := Ands(id2aig);
      assert id in ids;
      BucketOf(id2aig, ids, buckets, id);
      var prev, k := FindPrev(id, b);
      LinkedNext(next, chains, buckets, b, k);
      RemoveBucket(id2aig, ids, next, chains, buckets, b, k);
      buckets := buckets[b := Skip(buckets[b], k)];
      if prev == 0 {
        chains := chains[b := next[id]];
      } else {
        next := next[prev := next[id]];
      }
      numElements := numElements - 1;
      TableFree(id2aig, ids - {id}, next, chains, buckets, sortAig, id);
    }

    /** The last reference to `id` is gone: unlink and delete the node.  Its child
        references pass to the caller. */
    method DeleteNode(id: nat)
      requires Valid() && id in handles && refs[id] == 1
      modifies this
      ensures Valid() && graph == old(graph) && id2aig == old(id2aig)[id := Freed]
      ensures handles == old(handles) - multiset{id} + Children(old(id2aig)[id])
    {
      hide Closed, WellFormed, TableOk, CnfLinked, Counted, Remembers, Children, IsLive;
      HandleLive(id2aig, refs, handles, id);
      CountedFree(id2aig, refs, handles, id);
      NotConst(id2aig, id);
      RemembersFree(graph, id2aig, id);
      CnfFree(id2aig, graph, cnfId, cnfId, smgr.numbered, id);
      CnfFree(id2aig, graph, cnfId, cnfId[id := 0], smgr.numbered, id);
      if id2aig[id].And? {
        Unlink(id);
      } else {
        TableFreeVar(id2aig, next, chains, buckets, numElements, sortAig, id);
      }
      ForgetNode(id);
      hide Valid, Sane;
      ValidNow();
    }

    /** The fields of the freed node itself. */
    method ForgetNode(id: nat)
      requires id < |id2aig| && id < |cnfId|
      modifies `cnfId, `handles, `id2aig
      ensures id2aig == old(id2aig)[id := Freed]
      ensures handles == old(handles) - multiset{id} + Children(old(id2aig)[id])
      ensures cnfId == (if old(cnfId)[id] != 0 && !smgr.haveRestore then old(cnfId)[id := 0] else old(cnfId))
    {
      hide Children;
      if cnfId[id] != 0 && !smgr.haveRestore {
        cnfId := cnfId[id := 0];
      }
      handles := handles - multiset{id} + Children(id2aig[id]);
      id2aig := id2aig[id := Freed];
    }

    /** One turn of the release loop: take back one reference of `cur`.  The result are
        the child pointers that go onto the stack. */
    method ReleaseStep(cur: nat) returns (pushed: seq<Lit>)
      requires Valid() && cur in handles
      modifies this
      ensures Valid() && graph == old(graph)
      ensures handles == old(handles) - multiset{cur} + Refs(pushed)
      ensures LiveSet(id2aig) < LiveSet(old(id2aig)) || (id2aig == old(id2aig) && pushed == [])
      ensures NoConsts(pushed)
    {
      hide Closed, WellFormed, TableOk, Remembers, CnfLinked, Counted, Refs, LiveSet, Children;
      HandleLive(id2aig, refs, handles, cur);
      RefsEmpty();
      pushed := [];
      if refs[cur] > 1 {
        CountedDrop(id2aig, refs, handles, cur);
        refs := refs[cur := refs[cur] - 1];
        handles := handles - multiset{cur};
      } else {
        if id2aig[cur].And? {
          AndChildren(id2aig, cur);
          pushed := [id2aig[cur].right, id2aig[cur].left];
        }
        RefsOfChildren(id2aig[cur]);
        FewerLive(id2aig, cur);
        DeleteNode(cur);
      }
    }

    /** `bzla_aig_release`: give one reference back; nodes that lose their last one are
        deleted, and their own references are given back in turn. */
    method Release(l: Lit)
      requires Valid() && Ref(l) <= handles
      modifies this
      ensures Valid() && graph == old(graph)
      ensures handles + Ref(l) == old(handles)
    {
      if l.id == 0 { return; }
      assert l.id in Ref(l) && l.id in handles;
      hide Valid, Refs, LiveSet, NoConsts;
      var stack: seq<Lit> := [l];
      ghost var base := handles - Ref(l);
      RefsOne(l);
      NoConstsOne(l);
      while stack != []
        invariant Valid() && graph == old(graph) && handles == base + Refs(stack)
        invariant NoConsts(stack)
        decreases LiveSet(id2aig), |stack|
      {
        var cur := stack[|stack| - 1].id;
        PopRef(handles, base, stack);
        ghost var before := handles;
        var pushed := ReleaseStep(cur);
        PushRefs(before, handles, base, stack, pushed);
        stack := stack[..|stack| - 1] + pushed;
      }
      RefsEmpty();
    }

    /** `find_and_aig`: the node with these children, or the cell where the search ended. */
    method FindAnd(left: Lit, right: Lit) returns (link: Link, found: nat)
      requires TableOk(id2aig, next, chains, buckets, numElements, sortAig) && |next| == |id2aig|
      ensures found != 0 ==> IsAndId(id2aig, found) && id2aig[found] == Stored(sortAig, left, right)
      ensures found == 0 ==> Absent(id2aig, Stored(sortAig, left, right))
      ensures found == 0 ==> |chains| > 0 && EndOf(link, HashGate(Stored(sortAig, left, right), |chains|), buckets)
    {
      hide TableOk, Sorted, HashGate, Absent, Stored, Unique, Ordered;
      TableParts(id2aig, next, chains, buckets, numElements, sortAig);
      var gate := Stored(sortAig, left, right);
      var b := HashGate(gate, |chains|);
      ghost var bucket := buckets[b];
      assert Chain(chains[b], bucket, next);
      ChainAt(chains[b], bucket, next);
      hide Linked, Distinct, Chain;
      link := Head(b);
      var cur := chains[b];
      ghost var k := 0;
      while cur != 0
        invariant k <= |bucket| && cur == (if k < |bucket| then bucket[k] else 0)
        invariant link == if k == 0 then Head(b) else NextOf(bucket[k - 1])
        invariant forall j :: 0 <= j < k ==> bucket[j] < |id2aig| && id2aig[bucket[j]] != gate
        decreases |bucket| - k
      {
        BucketMember(id2aig, Ands(id2aig), buckets, b, cur);
        if id2aig[cur] == gate {
          found := cur;
          return;
        }
        assert next[cur] == After(bucket, k);
        link := NextOf(cur);
        cur := next[cur];
        k := k + 1;
      }
      found := 0;
      NotInBucket(id2aig, buckets, gate);
    }

    /** `enlarge_aig_nodes_unique_table`: double the table and push every node onto the
        front of its new chain. */
    method Enlarge()
      requires TableOk(id2aig, next, chains, buckets, numElements, sortAig) && |next| == |id2aig|
      modifies `next, `chains, `buckets
      ensures TableOk(id2aig, next, chains, buckets, numElements, sortAig) && |next| == |id2aig|
      ensures |chains| == 2 * |old(chains)|
    {
      hide TableOk, Sorted, HashGate, Linked, Processed, Unique, Ordered;
      TableParts(id2aig, next, chains, buckets, numElements, sortAig);
      LinkedShape(next, chains, buckets);
      var size := |chains|;
      var oldChains := chains;
      ghost var oldBuckets := buckets;
      var links := next;
      var newChains: seq<nat> := seq(2 * size, _ => 0);
      ghost var newBuckets: seq<seq<nat>> := seq(2 * size, _ => []);
      ghost var moved: set<nat> := {};
      EmptyTable(id2aig, links, newChains, newBuckets);
      ProcessedNone(id2aig, size);
      ChainsFrom(links, oldChains, oldBuckets);
      for i := 0 to size
        invariant |links| == |id2aig| && |newChains| == 2 * size == |newBuckets|
        invariant Linked(links, newChains, newBuckets) && Sorted(id2aig, moved, newBuckets)
        invariant Pending(links, oldChains, oldBuckets, i)
        invariant Processed(id2aig, moved, size, i, [])
      {
        ghost var bucket := oldBuckets[i];
        var cur: nat := oldChains[i];
        ghost var k := 0;
        assert bucket[0..] == bucket && bucket[..0] == [];
        while cur != 0
          invariant k <= |bucket| && |links| == |id2aig| && |newChains| == 2 * size == |newBuckets|
          invariant Linked(links, newChains, newBuckets) && Sorted(id2aig, moved, newBuckets)
          invariant Chain(cur, bucket[k..], links) && Pending(links, oldChains, oldBuckets, i + 1)
          invariant Processed(id2aig, moved, size, i, bucket[..k])
          decreases |bucket| - k
        {
          MoveOne(id2aig, oldBuckets, i, k, moved);
          var temp := links[cur];
          var hash := HashGate(id2aig[cur], 2 * size);
          PushFront(id2aig, moved, links, newChains, newBuckets, hash, cur);
          newBuckets := newBuckets[hash := [cur] + newBuckets[hash]];
          ProcessedStep(id2aig, moved, size, i, bucket, k);
          MoveFrame(id2aig, links, oldChains, oldBuckets, i, k, newChains[hash]);
          links := links[cur := newChains[hash]];
          newChains := newChains[hash := cur];
          moved := moved + {cur};
          cur := temp;
          k := k + 1;
        }
        assert bucket[..k] == bucket;
        ProcessedBucket(id2aig, oldBuckets, moved, i);
      }
      ProcessedAll(id2aig, moved, size);
      next, chains, buckets := links, newChains, newBuckets;
      TableWhole(id2aig, next, chains, buckets, numElements, sortAig);
    }

    /** `new_and_aig` and the bookkeeping around it: a node that is not in the table yet. */
    method CreateAnd(gate: Gate, link: Link) returns (res: Lit)
      requires Valid() && gate.And? && gate.left.id >= 2 && gate.right.id >= 2 && gate.left.id != gate.right.id
      requires Live(gate.left) && Live(gate.right)
      requires Absent(id2aig, gate) && (sortAig ==> gate.left.id < gate.right.id)
      requires |chains| > 0 && EndOf(link, HashGate(gate, |chains|), buckets)
      modifies this
      ensures Valid() && res == Lit(|old(graph)|, false) && res.id >= 2
      ensures handles == old(handles) + multiset{res.id}
      ensures graph == old(graph) + [gate] && id2aig == old(id2aig) + [gate]
      ensures numElements == old(numElements) + 1
    {
      hide Closed, WellFormed, TableOk, CnfLinked, Counted, Remembers, HashGate, EndOf, Absent, NewRefs, WriteNext;
      hide WriteChains, Unmarked, Eval, NodeValue;
      var id := |id2aig|;
      res := Lit(id, false);
      var refs' := NewRefs(refs, gate);
      UnmarkedGrow(mark, local);
      AppendGate(graph, id2aig, gate);
      CountedNew(id2aig, refs, refs', handles, gate);
      TableAnd(id2aig, next, chains, buckets, numElements, sortAig, gate, link);
      CnfGrow(id2aig, graph, cnfId, smgr.numbered, gate);
      ghost var b := HashGate(gate, |chains|);
      var next', chains' := WriteNext(link, next + [0], id), WriteChains(link, chains, id);
      ghost var buckets' := buckets[b := buckets[b] + [id]];
      Replace(id2aig + [gate], graph + [gate], refs', next', chains', buckets', numElements + 1,
        cnfId + [0], mark + [0], local + [0], handles + multiset{id});
    }

    /** The last part of `bzla_aig_and`: share an existing node or make a new one. */
    method FindOrCreate(left: Lit, right: Lit) returns (res: Lit)
      requires Valid() && Live(left) && Live(right) && Reduced(id2aig, left, right)
      modifies this
      ensures Valid() && Live(res)
      ensures handles == old(handles) + Ref(res)
      ensures old(id2aig) <= id2aig && Extends(old(graph), graph)
      ensures IsAndId(id2aig, res.id) && !res.inv && id2aig[res.id] == Stored(sortAig, left, right)
      ensures graph == old(graph) || res.id == |old(graph)|
      ensures !Absent(old(id2aig), Stored(sortAig, left, right)) ==> id2aig == old(id2aig)
    {
      hide Closed, WellFormed, CnfLinked, Counted, Remembers, HashGate, EndOf, Absent, TableOk, Reduced;
      var link, found := FindAnd(left, right);
      if found != 0 {
        ExtendsIntro(graph, graph);
        res := Copy(Lit(found, false));
      } else {
        if numElements == |chains| && Log2(|chains|) < TABLE_LIMIT {
          Enlarge();
          link, found := FindAnd(left, right);
          AbsentNot(id2aig, Stored(sortAig, left, right), found);
        }
        ReducedSame(id2aig, graph, left, right);
        ReducedDistinct(graph, left, right);
        ReducedSwap(graph, left, right);
        ExtendsAnd(graph, Stored(sortAig, left, right));
        res := CreateAnd(Stored(sortAig, left, right), link);
      }
    }

    /** The implicit XOR normalization: for !(a & b) & !(!a & !b), use the complement of
        !(a & !b) & !(!a & b) if its three nodes exist.  `found` is 0 otherwise. */
    method FindXor(left: Lit, right: Lit) returns (found: nat)
      requires Valid() && Live(left) && Live(right)
      ensures found != 0 ==> IsAndId(id2aig, found)
      ensures found != 0 <==> XorThere(id2aig, sortAig, left, right)
      ensures found != 0 ==> forall env: Env ::
              Eval(graph, Lit(found, true), env) == (Eval(graph, left, env) && Eval(graph, right, env))
    {
      hide Closed, WellFormed, CnfLinked, Counted, Remembers, EndOf, Absent, HashGate, Stored, XorThere;
      assert Unique(id2aig);
      hide TableOk, Unique;
      found := 0;
      NoPattern(id2aig, sortAig, left, right);
      if left.inv && IsAnd(id2aig, left) && right.inv && IsAnd(id2aig, right) {
        var ll, lr := Left(id2aig, left), Right(id2aig, left);
        if ll == Not(Left(id2aig, right)) && lr == Not(Right(id2aig, right)) {
          var _, l := FindAnd(ll, Not(lr));
          if l == 0 {
            NotThere(id2aig, sortAig, left, right, 0, 0);
          } else {
            var _, r := FindAnd(Not(ll), lr);
            if r == 0 {
              NotThere(id2aig, sortAig, left, right, 0, 0);
            } else {
              var _, x := FindAnd(Lit(l, true), Lit(r, true));
              if x == 0 {
                NotThere(id2aig, sortAig, left, right, l, r);
              } else {
                found := x;
                IsThere(id2aig, sortAig, left, right, l, r, x);
                forall env: Env
                  ensures Eval(graph, Lit(x, true), env) == (Eval(graph, left, env) && Eval(graph, right, env))
                {
                  XorValue(id2aig, graph, sortAig, left, right, l, r, x, env);
                }
              }
            }
          }
        }
      }
    }

    /** `bzla_aig_and`: two-level rewriting with retries, deep contradictions, XOR
        normalization, then hash-consing. */
    method MakeAnd(a: Lit, b: Lit) returns (res: Lit)
      requires Valid() && Usable(a) && Usable(b)
      modifies this
      ensures Valid() && Live(res) && res.id < |graph|
      ensures a.id < |old(graph)| && b.id < |old(graph)|
      ensures handles == old(handles) + Ref(res)
      ensures old(id2aig) <= id2aig && Extends(old(graph), graph)
      ensures forall env: Env {:trigger Eval(graph, res, env)} ::
              Eval(graph, res, env) == (old(Eval(graph, a, env)) && old(Eval(graph, b, env)))
      ensures NewIsUnclashed(old(id2aig), id2aig, sortAig, res)
    {
      hide NewIsUnclashed, Reduced;
      NothingNew(id2aig, sortAig);
      hide Closed, WellFormed, CnfLinked, Counted, Remembers, TableOk, Eval, NodeValue, TwoLevel, Deep;
      UsableLive(a);
      UsableLive(b);
      var left, right := a, b;
      ExtendsIntro(graph, graph);
      var w := TwoLevel(id2aig, left, right);
      while !w.Keep?
        invariant Valid() && Live(left) && Live(right)
        invariant graph == old(graph) && id2aig == old(id2aig) && handles == old(handles)
        invariant w == TwoLevel(id2aig, left, right)
        invariant forall env: Env ::
                    (Eval(graph, left, env) && Eval(graph, right, env))
                      == (old(Eval(graph, a, env)) && old(Eval(graph, b, env)))
        decreases left.id + right.id
      {
        forall env: Env
          ensures w.Done? ==> Eval(graph, w.res, env) == (Eval(graph, left, env) && Eval(graph, right, env))
          ensures w.Retry? ==>
                    (Eval(graph, w.left, env) && Eval(graph, w.right, env))
                      == (Eval(graph, left, env) && Eval(graph, right, env))
        {
          TwoLevelSound(id2aig, graph, left, right, env);
        }
        TwoLevelSound(id2aig, graph, left, right, n => false);
        if w.Done? {
          res := Copy(w.res);
          return;
        }
        left, right := w.left, w.right;
        w := TwoLevel(id2aig, left, right);
      }
      res := FinishAnd(left, right);
    }

    method FinishAnd(left: Lit, right: Lit) returns (res: Lit)
      requires Valid() && Live(left) && Live(right) && TwoLevel(id2aig, left, right).Keep?
      modifies this
      ensures Valid() && Live(res)
      ensures handles == old(handles) + Ref(res)
      ensures old(id2aig) <= id2aig && Extends(old(graph), graph)
      ensures forall env: Env {:trigger Eval(graph, res, env)} ::
              Eval(graph, res, env) == (old(Eval(graph, left, env)) && old(Eval(graph, right, env)))
      ensures NewIsUnclashed(old(id2aig), id2aig, sortAig, res)
    {
      hide Closed, WellFormed, CnfLinked, Counted, Remembers, TableOk, Eval, NodeValue, TwoLevel, Deep, Absent;
      hide NewIsUnclashed, Unclashed, Reduced, XorThere;
      NothingNew(id2aig, sortAig);
      TwoLevelExact(id2aig, left, right);
      ExtendsIntro(graph, graph);
      HandlesKnown();
      var (clash, _) := Deep(id2aig, left, right, 0);
      if clash {
        res := FALSE_LIT;
        forall env: Env
          ensures Eval(graph, res, env) == (Eval(graph, left, env) && Eval(graph, right, env))
        {
          DeepSound(id2aig, graph, left, right, 0, env);
          EvalConst(graph, FALSE_LIT, env);
        }
      } else {
        var x := FindXor(left, right);
        if x != 0 {
          res := Copy(Lit(x, true));
        } else {
          ghost var g := graph;
          res := FindOrCreate(left, right);
          forall env: Env
            ensures Eval(graph, res, env) == (Eval(g, left, env) && Eval(g, right, env))
          {
            StoredValue(id2aig, graph, sortAig, left, right, res, env);
          }
          DeepUnclashed(old(id2aig), left, right);
          NewNode(old(id2aig), id2aig, sortAig, left, right, res);
        }
      }
    }

    /** `bzla_aig_or` */
    method MakeOr(a: Lit, b: Lit) returns (res: Lit)
      requires Valid() && Usable(a) && Usable(b)
      modifies this
      ensures Valid() && res.id < |graph|
      ensures handles == old(handles) + Ref(res)
      ensures Extends(old(graph), graph)
      ensures forall env: Env {:trigger Eval(graph, res, env)} ::
              Eval(graph, res, env) == (old(Eval(graph, a, env)) || old(Eval(graph, b, env)))
    {
      hide Valid, Eval, NodeValue, Extends;
      var x := MakeAnd(Not(a), Not(b));
      res := Not(x);
      forall env: Env
        ensures Eval(graph, res, env) == (old(Eval(graph, a, env)) || old(Eval(graph, b, env)))
      {
        EvalNot(graph, x, env);
        EvalNot(old(graph), a, env);
        EvalNot(old(graph), b, env);
      }
    }

    // ------------------------------------------------------------ what holds in every state

    /** Reference conservation: the stored count of a live node is the number of held handles
        plus the number of edges from live parents. */
    lemma {:induction false} CountsExact(n: nat)
      requires Valid() && 2 <= n < |id2aig| && !id2aig[n].Freed?
      ensures n < |refs| && refs[n] == handles[n] + Edges(id2aig, n) >= 1
    {
      hide Closed, TableOk, Edges;
    }

    /** A node is live exactly when a held handle reaches it: nothing leaks and nothing
        dangles. */
    lemma {:induction false} LiveExactly(n: nat)
      requires Valid() && 2 <= n < |id2aig|
      ensures !id2aig[n].Freed? <==> exists r: nat :: r in handles && Reach(id2aig, r, n)
    {
      hide TableOk, CnfLinked;
      LiveIffReachable(id2aig, refs, handles, n);
    }

    /** Releasing every handle frees every node and empties the unique table. */
    lemma {:induction false} NothingLeft()
      requires Valid() && handles == multiset{}
      ensures numElements == 0 && forall n: nat :: 2 <= n < |id2aig| ==> id2aig[n].Freed?
    {
      hide Closed, Counted;
      forall n: nat | 2 <= n < |id2aig|
        ensures id2aig[n].Freed?
      {
        AllReleased(id2aig, refs, n);
      }
      assert Ands(id2aig) == {};
    }

    /** Hash-consing: a live AND sits in the chain of its hash and nowhere else, and no other
        live AND has the same children (with sorting on, not even swapped). */
    lemma {:induction false} SharedOnce(i: nat)
      requires Valid() && IsAndId(id2aig, i)
      ensures |buckets| == |chains| > 0 && numElements == |Ands(id2aig)|
      ensures forall b: nat :: b < |buckets| ==>
                Chain(chains[b], buckets[b], next) && Distinct(buckets[b]) &&
                  (i in buckets[b] <==> b == HashGate(id2aig[i], |chains|))
      ensures forall j: nat :: IsAndId(id2aig, j) && id2aig[j] == id2aig[i] ==> j == i
      ensures forall j: nat :: sortAig && SameChildren(id2aig, i, j) ==> j == i
    {
      hide Closed, Counted, Remembers, CnfLinked, HashGate;
      assert i in Ands(id2aig);
      forall j: nat | sortAig && SameChildren(id2aig, i, j)
        ensures j == i
      {
        UniqueUpToSwap(id2aig, i, j);
      }
    }
  }
}
