/** Reference counts of AIG nodes (src/bzlaaig.c:183-348).

    `handles` is the multiset of references held from outside the graph.  The
    stored count of a live node is always handles plus live parent edges.
 */
module References {
  import opened AigGraph

  /** The reference a literal stands for; constants are not counted. */
  ghost function Ref(l: Lit): multiset<nat> { NodeRef(l.id) }

  ghost function NodeRef(id: nat): multiset<nat> {
    if id == 0 then multiset{} else multiset{id}
  }

  /** The references a sequence of literals stands for. */
  ghost function Refs(s: seq<Lit>): multiset<nat> {
    if |s| == 0 then multiset{} else Refs(s[..|s| - 1]) + Ref(s[|s| - 1])
  }

  lemma {:induction false} Cancel(a: multiset<nat>, b: multiset<nat>, x: multiset<nat>)
    requires a + x == b + x
    ensures a == b
  {
    forall i: nat
      ensures a[i] == b[i]
    {
      assert (a + x)[i] == (b + x)[i];
    }
  }

  lemma {:induction false} NodeRefZero()
    ensures NodeRef(0) == multiset{}
  {
  }

  lemma {:induction false} RefsEmpty()
    ensures Refs([]) == multiset{}
  {
  }

  lemma {:induction false} RefsOne(l: Lit)
    ensures Refs([l]) == Ref(l)
  {
    assert [l][..0] == [];
  }

  lemma {:induction false} RefsPush(s: seq<Lit>, l: Lit)
    ensures Refs(s + [l]) == Refs(s) + Ref(l)
  {
    assert (s + [l])[..|s|] == s;
  }

  lemma {:induction false} RefsLast(s: seq<Lit>)
    requires |s| > 0
    ensures Refs(s) == Refs(s[..|s| - 1]) + Ref(s[|s| - 1])
  {
  }

  ghost predicate Counted(t: Graph, refs: seq<nat>, handles: multiset<nat>) {
    && |refs| == |t|
    && (forall i: nat :: i in handles ==> 2 <= i < |t| && !t[i].Freed?)
    && (forall i: nat :: 2 <= i < |t| && !t[i].Freed? ==> refs[i] == handles[i] + Edges(t, i) && refs[i] >= 1)
  }

  /** The references a node holds on its children. */
  ghost function Children(gate: Gate): multiset<nat> {
    if gate.And? then multiset{gate.right.id, gate.left.id} else multiset{}
  }

  ghost predicate NoConsts(s: seq<Lit>) {
    forall k :: 0 <= k < |s| ==> s[k].id != 0
  }

  lemma {:induction false} NoConstsOne(l: Lit)
    requires l.id != 0
    ensures NoConsts([l])
  {
  }

  lemma {:induction false} PopRef(handles: multiset<nat>, base: multiset<nat>, s: seq<Lit>)
    requires |s| > 0 && NoConsts(s) && handles == base + Refs(s)
    ensures s[|s| - 1].id in handles
  {
  }

  lemma {:induction false} Exchange(h: multiset<nat>, h': multiset<nat>, base: multiset<nat>, rest: multiset<nat>,
        gone: multiset<nat>, more: multiset<nat>)
    requires h == base + (rest + gone) && h' == h - gone + more
    ensures h' == base + (rest + more)
  {
    forall i: nat
      ensures h'[i] == (base + (rest + more))[i]
    {
      assert h[i] == (base + (rest + gone))[i];
      assert h'[i] == (h - gone + more)[i];
    }
  }

  lemma {:induction false} PushRefs(h: multiset<nat>, h': multiset<nat>, base: multiset<nat>, s: seq<Lit>,
        pushed: seq<Lit>)
    requires |s| > 0 && NoConsts(s) && NoConsts(pushed) && h == base + Refs(s)
    requires h' == h - multiset{s[|s| - 1].id} + Refs(pushed)
    ensures h' == base + Refs(s[..|s| - 1] + pushed) && NoConsts(s[..|s| - 1] + pushed)
  {
    var last := s[|s| - 1];
    assert Ref(last) == multiset{last.id};
    hide NodeRef, Refs;
    RefsLast(s);
    RefsConcat(s[..|s| - 1], pushed);
    Exchange(h, h', base, Refs(s[..|s| - 1]), Ref(last), Refs(pushed));
  }

  lemma {:induction false} RefsConcat(s: seq<Lit>, u: seq<Lit>)
    ensures Refs(s + u) == Refs(s) + Refs(u)
  {
    if |u| == 0 {
      assert s + u == s;
    } else {
      assert (s + u)[..|s + u| - 1] == s + u[..|u| - 1];
      RefsConcat(s, u[..|u| - 1]);
    }
  }

  lemma {:induction false} RefsOfChildren(gate: Gate)
    requires gate.And? ==> gate.left.id != 0 && gate.right.id != 0
    ensures Children(gate) == Refs(if gate.And? then [gate.right, gate.left] else [])
  {
    if gate.And? {
      assert [gate.right, gate.left] == [gate.right] + [gate.left];
      RefsPush([gate.right], gate.left);
      RefsOne(gate.right);
    }
  }

  lemma {:induction false} HandleLive(t: Graph, refs: seq<nat>, handles: multiset<nat>, i: nat)
    requires Counted(t, refs, handles) && i in handles
    ensures 2 <= i < |t| == |refs| && !t[i].Freed? && refs[i] >= 1
  {
  }

  lemma {:induction false} CountedHold(t: Graph, refs: seq<nat>, handles: multiset<nat>, i: nat)
    requires Counted(t, refs, handles) && 2 <= i < |t| && !t[i].Freed?
    ensures Counted(t, refs[i := refs[i] + 1], handles + multiset{i})
  {
    hide Edges;
  }

  lemma {:induction false} CountedDrop(t: Graph, refs: seq<nat>, handles: multiset<nat>, i: nat)
    requires Counted(t, refs, handles) && i in handles && refs[i] > 1
    ensures Counted(t, refs[i := refs[i] - 1], handles - multiset{i})
  {
    hide Edges;
  }

  /** The counts after adding an AND: one for the new node, one more for each child. */
  function NewRefs(refs: seq<nat>, gate: Gate): (r: seq<nat>)
    requires gate.And? && gate.left.id < |refs| && gate.right.id < |refs| && gate.left.id != gate.right.id
    ensures |r| == |refs| + 1 && r[|refs|] == 1
    ensures forall i :: 0 <= i < |refs| ==> r[i] == refs[i] + Occurs(gate, i)
  {
    var r := refs + [1];
    r[gate.left.id := r[gate.left.id] + 1][gate.right.id := r[gate.right.id] + 1]
  }

  /** A new node starts with one handle; a new AND adds one edge to each child. */
  lemma {:induction false} CountedNew(t: Graph, refs: seq<nat>, refs': seq<nat>, handles: multiset<nat>, gate: Gate)
    requires Closed(t) && Counted(t, refs, handles)
    requires gate.Var? || (gate.And? && gate.left.id >= 2 && gate.right.id >= 2 && IsLive(t, gate.left) &&
            IsLive(t, gate.right))
    requires |refs'| == |t| + 1 && refs'[|t|] == 1
    requires forall i :: 0 <= i < |t| ==> refs'[i] == refs[i] + Occurs(gate, i)
    ensures Counted(t + [gate], refs', handles + multiset{|t|})
  {
    hide Edges;
    var t' := t + [gate];
    forall i: nat | 2 <= i < |t'| && !t'[i].Freed?
      ensures refs'[i] == (handles + multiset{|t|})[i] + Edges(t', i) && refs'[i] >= 1
    {
      EdgesAppend(t, gate, i);
      if i == |t| { NoEdgesAbove(t, |t|); }
    }
  }

  lemma {:induction false} NoEdgesAbove(t: Graph, n: nat)
    requires Closed(t) && n >= |t|
    ensures Edges(t, n) == 0
  {
    if Edges(t, n) > 0 {
      var p := EdgesWitness(t, n);
    }
  }

  /** Deleting the node behind the last reference: its edges become references held
      on the release stack, and nothing that is still live loses a child. */
  lemma {:induction false} CountedFree(t: Graph, refs: seq<nat>, handles: multiset<nat>, i: nat)
    requires Closed(t) && Counted(t, refs, handles) && i in handles && refs[i] == 1
    ensures Closed(t[i := Freed])
    ensures Counted(t[i := Freed], refs,
                    handles - multiset{i} + Children(t[i]))
  {
    hide Edges;
    var t' := t[i := Freed];
    assert handles[i] == 1 && Edges(t, i) == 0;
    ClosedFree(t, i);
    var handles' := handles - multiset{i} + Children(t[i]);
    forall j: nat | 2 <= j < |t'| && !t'[j].Freed?
      ensures refs[j] == handles'[j] + Edges(t', j) && refs[j] >= 1
    {
      EdgesFree(t, i, j);
    }
    assert t[i].And? ==> IsLive(t, t[i].left) && IsLive(t, t[i].right);
  }

  lemma {:induction false} ClosedFree(t: Graph, i: nat)
    requires Closed(t) && 2 <= i < |t| && Edges(t, i) == 0
    ensures Closed(t[i := Freed])
  {
    hide Edges;
    forall p | 2 <= p < |t| && t[p].And?
      ensures t[p].left.id != i && t[p].right.id != i
    {
      EdgesAtLeast(t, p, i);
    }
  }

  /** Every AIG variable is referenced from outside the graph. */
  ghost predicate VarsHeld(g: Graph, h: multiset<nat>) {
    forall n: nat :: n < |g| && g[n].Var? ==> n in h
  }

  /** No leak and no dangling node: the live nodes are exactly the nodes reachable
      from a held reference. */
  lemma {:induction false} LiveIffReachable(t: Graph, refs: seq<nat>, handles: multiset<nat>, n: nat)
    requires Closed(t) && Counted(t, refs, handles) && 2 <= n < |t|
    ensures !t[n].Freed? <==> exists r: nat :: r in handles && Reach(t, r, n)
    decreases |t| - n
  {
    if !t[n].Freed? {
      if handles[n] > 0 {
        assert n in handles && Reach(t, n, n);
      } else {
        var p := EdgesWitness(t, n);
        LiveIffReachable(t, refs, handles, p);
        var r: nat :| r in handles && Reach(t, r, p);
        assert Reach(t, t[p].left.id, n) || Reach(t, t[p].right.id, n);
        ReachTrans(t, r, p, n);
      }
    } else if r: nat :| r in handles && Reach(t, r, n) {
      ReachLive(t, r, n);
    }
  }

  /** Releasing every handle frees every node. */
  lemma {:induction false} AllReleased(t: Graph, refs: seq<nat>, n: nat)
    requires Closed(t) && Counted(t, refs, multiset{}) && 2 <= n < |t|
    ensures t[n].Freed?
  {
    LiveIffReachable(t, refs, multiset{}, n);
  }
}
