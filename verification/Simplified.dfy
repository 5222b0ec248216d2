/** Chasing and shortening chains of simplified expressions (src/bzlacore.c:2163-2241): a
    union-find structure whose links carry an inversion bit. */
module Simplified {
  import opened Expressions

  /** The `simplified` field of a node. */
  datatype Link = NoLink | To(e: Edge)

  function Inverted(e: Edge): Edge { Edge(e.id, !e.inv) }

  function InvertIf(c: bool, e: Edge): Edge { if c then Inverted(e) else e }

  /** Links lead to nodes of lower rank: chains are acyclic. */
  ghost predicate Acyclic(s: seq<Link>, rank: seq<nat>) {
    && |rank| == |s|
    && forall i: nat :: i < |s| && s[i].To? ==> s[i].e.id < |s| && rank[s[i].e.id] < rank[i]
  }

  /** The representative at the end of the chain, with the accumulated inversion. */
  ghost function Final(s: seq<Link>, rank: seq<nat>, e: Edge): Edge
    requires Acyclic(s, rank) && e.id < |s|
    decreases rank[e.id]
  {
    if s[e.id].NoLink? then e else Final(s, rank, InvertIf(e.inv, s[e.id].e))
  }

  lemma {:induction false} FinalInverted(s: seq<Link>, rank: seq<nat>, e: Edge)
    requires Acyclic(s, rank) && e.id < |s|
    ensures Final(s, rank, Inverted(e)) == Inverted(Final(s, rank, e))
    decreases rank[e.id]
  {
    if s[e.id].To? {
      FinalInverted(s, rank, InvertIf(e.inv, s[e.id].e));
      assert InvertIf(!e.inv, s[e.id].e) == Inverted(InvertIf(e.inv, s[e.id].e));
    }
  }

  lemma {:induction false} FinalEnd(s: seq<Link>, rank: seq<nat>, e: Edge)
    requires Acyclic(s, rank) && e.id < |s|
    ensures Final(s, rank, e).id < |s| && s[Final(s, rank, e).id].NoLink? && rank[Final(s, rank, e).id] <= rank[e.id]
    ensures s[e.id].To? ==> rank[Final(s, rank, e).id] < rank[e.id]
    decreases rank[e.id]
  {
    if s[e.id].To? { FinalEnd(s, rank, InvertIf(e.inv, s[e.id].e)); }
  }

  /** Node `i` lies on the chain that starts at node `n`. */
  ghost predicate OnPath(s: seq<Link>, rank: seq<nat>, n: nat, i: nat)
    requires Acyclic(s, rank) && n < |s|
    decreases rank[n]
  {
    n == i || (s[n].To? && OnPath(s, rank, s[n].e.id, i))
  }

  lemma {:induction false} SameEnd(s: seq<Link>, rank: seq<nat>, e: Edge)
    requires Acyclic(s, rank) && e.id < |s|
    ensures Final(s, rank, e).id == Final(s, rank, Edge(e.id, false)).id
  {
    FinalInverted(s, rank, Edge(e.id, false));
  }

  /** All nodes of a chain have the same representative. */
  lemma {:induction false} PathEnd(s: seq<Link>, rank: seq<nat>, n: nat, i: nat)
    requires Acyclic(s, rank) && n < |s| && i < |s| && OnPath(s, rank, n, i)
    ensures Final(s, rank, Edge(i, false)).id == Final(s, rank, Edge(n, false)).id
    decreases rank[n]
  {
    if n != i {
      PathEnd(s, rank, s[n].e.id, i);
      SameEnd(s, rank, s[n].e);
    }
  }

  /** Some links were redirected straight to the representative of their node. */
  ghost predicate Shortened(s: seq<Link>, s0: seq<Link>, rank: seq<nat>)
    requires Acyclic(s0, rank)
  {
    |s| == |s0| && forall i: nat :: i < |s| ==>
    s[i] == s0[i] || (s0[i].To? && s[i] == To(Final(s0, rank, Edge(i, false))))
  }

  lemma {:induction false} ShortenedAcyclic(s: seq<Link>, s0: seq<Link>, rank: seq<nat>)
    requires Acyclic(s0, rank) && Shortened(s, s0, rank)
    ensures Acyclic(s, rank)
  {
    forall i: nat | i < |s| && s[i].To?
      ensures s[i].e.id < |s| && rank[s[i].e.id] < rank[i]
    {
      FinalEnd(s0, rank, Edge(i, false));
    }
  }

  /** Shortening keeps every node's representative and its parity. */
  lemma {:induction false} ShortenedFinal(s: seq<Link>, s0: seq<Link>, rank: seq<nat>, e: Edge)
    requires Acyclic(s0, rank) && Shortened(s, s0, rank) && Acyclic(s, rank) && e.id < |s|
    ensures Final(s, rank, e) == Final(s0, rank, e)
    decreases rank[e.id]
  {
    if s[e.id].To? {
      ShortenedFinal(s, s0, rank, InvertIf(e.inv, s[e.id].e));
      if s[e.id] != s0[e.id] {
        var f := Final(s0, rank, Edge(e.id, false));
        FinalEnd(s0, rank, Edge(e.id, false));
        if e.inv { FinalInverted(s0, rank, Edge(e.id, false)); }
      }
    }
  }

  /** A node of the chain, once its own inversion is counted, is linked straight. */
  lemma {:induction false} Straight(s: seq<Link>, rank: seq<nat>, n: nat, invert: bool, rep: Edge)
    requires Acyclic(s, rank) && n < |s| && Final(s, rank, Edge(n, invert)) == rep
    ensures InvertIf(invert, rep) == Final(s, rank, Edge(n, false))
  {
    FinalInverted(s, rank, Edge(n, true));
  }

  /** The edge with which the chain of `e` comes to node `n`. */
  ghost function Upto(s: seq<Link>, rank: seq<nat>, e: Edge, n: nat): (r: Edge)
    requires Acyclic(s, rank) && e.id < |s| && OnPath(s, rank, e.id, n)
    ensures r.id == n
    decreases rank[e.id]
  {
    if e.id == n then e else Upto(s, rank, InvertIf(e.inv, s[e.id].e), n)
  }

  /** A representative ends exactly the chains that come to it. */
  lemma {:induction false} UptoEnd(s: seq<Link>, rank: seq<nat>, e: Edge, n: nat)
    requires Acyclic(s, rank) && e.id < |s| && n < |s| && s[n].NoLink?
    ensures OnPath(s, rank, e.id, n) <==> Final(s, rank, e).id == n
    ensures OnPath(s, rank, e.id, n) ==> Upto(s, rank, e, n) == Final(s, rank, e)
    decreases rank[e.id]
  {
    if s[e.id].To? { UptoEnd(s, rank, InvertIf(e.inv, s[e.id].e), n); }
  }

  /** Linking a node to a representative moves exactly the chains there that come to the node. */
  lemma {:induction false} LinkedFinal(s: seq<Link>, rank: seq<nat>, s': seq<Link>, rank': seq<nat>, n: nat, to: Edge,
        e: Edge)
    requires Acyclic(s, rank) && Acyclic(s', rank') && n < |s| && to.id < |s| && n != to.id && s[to.id].NoLink?
    requires s' == s[n := To(to)] && e.id < |s|
    ensures Final(s', rank', e)
            == if OnPath(s, rank, e.id, n) then InvertIf(Upto(s, rank, e, n).inv, to) else Final(s, rank, e)
    decreases rank[e.id]
  {
    if e.id != n && s[e.id].To? { LinkedFinal(s, rank, s', rank', n, to, InvertIf(e.inv, s[e.id].e)); }
  }

  /** The second loop has come to `cur`: the part of the chain above it is linked straight,
      everything else is untouched. */
  ghost predicate Walked(s: seq<Link>, s0: seq<Link>, rank: seq<nat>, node: nat, cur: nat) {
    && Acyclic(s0, rank) && node < |s0| && cur < |s0| && Shortened(s, s0, rank)
    && (forall i: nat :: i < |s0| && OnPath(s0, rank, cur, i) ==> OnPath(s0, rank, node, i))
    && (forall i: nat :: i < |s0| && rank[i] <= rank[cur] ==> s[i] == s0[i])
    && (forall i: nat :: i < |s0| && s0[i].To? && OnPath(s0, rank, node, i) ==>
          OnPath(s0, rank, cur, i) || s[i] == To(Final(s0, rank, Edge(i, false))))
    && (forall i: nat :: i < |s0| && !OnPath(s0, rank, node, i) ==> s[i] == s0[i])
  }

  lemma {:induction false} RankSize(s: seq<Link>, rank: seq<nat>)
    requires Acyclic(s, rank)
    ensures |rank| == |s|
  {
  }

  lemma {:induction false} WalkStart(s: seq<Link>, rank: seq<nat>, node: nat)
    requires Acyclic(s, rank) && node < |s|
    ensures Walked(s, s, rank, node, node)
  {
  }

  lemma {:induction false} WalkStep(s: seq<Link>, s0: seq<Link>, rank: seq<nat>, node: nat, n: nat)
    requires Walked(s, s0, rank, node, n) && s0[n].To?
    ensures |s| == |s0| && s0[n].e.id < |s0| && rank[s0[n].e.id] < rank[n] && s[n] == s0[n]
    ensures Walked(s[n := To(Final(s0, rank, Edge(n, false)))], s0, rank, node, s0[n].e.id)
    ensures s[n := To(Final(s0, rank, Edge(n, false)))][s0[n].e.id] == s0[s0[n].e.id]
  {
    hide Final;
    assert OnPath(s0, rank, n, s0[n].e.id);
  }

  lemma {:induction false} WalkEnd(s: seq<Link>, s0: seq<Link>, rank: seq<nat>, node: nat, cur: nat)
    requires Walked(s, s0, rank, node, cur) && s[cur].NoLink?
    ensures Shortened(s, s0, rank) && Acyclic(s0, rank)
    ensures forall i: nat :: i < |s| && s0[i].To? ==>
              s[i] == if OnPath(s0, rank, node, i) then To(Final(s0, rank, Edge(i, false))) else s0[i]
  {
    hide Final;
    assert s0[cur].NoLink?;
  }

  class NodeTable {
    var simplified: seq<Link>
    ghost var rank: seq<nat>

    ghost predicate Valid()
      reads this
    {
      Acyclic(simplified, rank)
    }

    constructor (n: nat)
      ensures Valid() && |simplified| == n && forall i :: 0 <= i < n ==> simplified[i] == NoLink
    {
      simplified := seq(n, _ => NoLink);
      rank := seq(n, _ => 0);
    }

    /** `bzla_set_simplified_exp`: the node goes to a representative, whatever it was linked to. */
    method SetSimplified(n: nat, to: Edge)
      requires Valid() && n < |simplified| && to.id < |simplified| && n != to.id
      requires simplified[to.id].NoLink?
      modifies this
      ensures Valid() && simplified == old(simplified)[n := To(to)]
      ensures forall e: Edge :: e.id < |simplified| ==>
                Final(simplified, rank, e)
                  == if old(OnPath(simplified, rank, e.id, n)) then InvertIf(old(Upto(simplified, rank, e, n)).inv, to)
                     else old(Final(simplified, rank, e))
    {
      ghost var s0, r0 := simplified, rank;
      rank := seq(|rank|, i requires 0 <= i < |r0| => if OnPath(s0, r0, i, n) then r0[i] + r0[to.id] + 1 else r0[i]);
      simplified := simplified[n := To(to)];
      forall e: Edge | e.id < |simplified|
        ensures Final(simplified, rank, e)
                == if OnPath(s0, r0, e.id, n) then InvertIf(Upto(s0, r0, e, n).inv, to) else Final(s0, r0, e)
      {
        LinkedFinal(s0, r0, simplified, rank, n, to, e);
      }
    }

    /** `bzla_node_get_simplified`: the representative seen through the edge.  Nothing changes
        its representative or its parity, and the nodes on the way are linked straight to it. */
    method GetSimplified(exp: Edge) returns (res: Edge)
      requires Valid() && exp.id < |simplified|
      modifies `simplified
      ensures Valid() && res == Final(old(simplified), rank, exp) && Shortened(simplified, old(simplified), rank)
      ensures forall e: Edge :: e.id < |simplified| ==> Final(simplified, rank, e) == Final(old(simplified), rank, e)
      ensures forall i: nat ::
                i < |simplified| && old(simplified)[i].To? && OnPath(old(simplified), rank, exp.id, i) ==>
                simplified[i] == To(Edge(res.id, simplified[i].e.inv))
    {
      ghost var s0 := simplified;
      if simplified[exp.id].NoLink? {
        return exp;
      }
      if simplified[simplified[exp.id].e.id].NoLink? {
        return InvertIf(exp.inv, simplified[exp.id].e);
      }
      var rep := Chase(exp.id);
      Shorten(exp.id, rep);
      res := InvertIf(exp.inv, rep);
      if exp.inv { FinalInverted(s0, rank, Edge(exp.id, false)); }
      forall e: Edge | e.id < |simplified|
        ensures Final(simplified, rank, e) == Final(s0, rank, e)
      {
        ShortenedFinal(simplified, s0, rank, e);
      }
      forall i: nat | i < |simplified| && s0[i].To? && OnPath(s0, rank, exp.id, i)
        ensures simplified[i] == To(Edge(res.id, simplified[i].e.inv))
      {
        PathEnd(s0, rank, exp.id, i);
      }
    }

    /** The first loop: walk to the end of the chain and count inversions. */
    method Chase(node: nat) returns (rep: Edge)
      requires Valid() && node < |simplified| && simplified[node].To? && simplified[simplified[node].e.id].To?
      ensures rep == Final(simplified, rank, Edge(node, false))
    {
      var invert := false;
      rep := simplified[node].e;
      var first := true;
      while first || simplified[rep.id].To?
        invariant rep.id < |simplified| && (first ==> simplified[rep.id].To?)
        invariant Final(simplified, rank, InvertIf(invert, rep)) == Final(simplified, rank, Edge(node, false))
        decreases rank[rep.id]
      {
        first := false;
        if rep.inv { invert := !invert; }
        rep := simplified[rep.id].e;
      }
      rep := InvertIf(invert, rep);
    }

    /** The second loop: every node of the chain is linked straight to the end. */
    method Shorten(node: nat, rep: Edge)
      requires Valid() && node < |simplified| && simplified[node].To?
      requires rep == Final(simplified, rank, Edge(node, false))
      modifies `simplified
      ensures Valid() && Shortened(simplified, old(simplified), rank)
      ensures forall i: nat :: i < |simplified| && old(simplified)[i].To? ==>
                simplified[i] == if OnPath(old(simplified), rank, node, i)
                                 then To(Final(old(simplified), rank, Edge(i, false)))
                                 else old(simplified)[i]
    {
      hide Walked, Acyclic, Shortened, OnPath;
      ghost var s0 := simplified;
      WalkStart(s0, rank, node);
      assert |rank| == |s0| && Acyclic(s0, rank) by { RankSize(s0, rank); }
      var invert := false;
      var cur := Edge(node, false);
      var first := true;
      while first || simplified[cur.id].To?
        invariant cur.id < |simplified| == |s0| && simplified[cur.id] == s0[cur.id] && (first ==> s0[cur.id].To?)
        invariant Final(s0, rank, InvertIf(invert, cur)) == rep
        invariant Walked(simplified, s0, rank, node, cur.id)
        decreases rank[cur.id]
      {
        first := false;
        if cur.inv { invert := !invert; }
        var n := cur.id;
        var next := simplified[n].e;
        Straight(s0, rank, n, invert, rep);
        WalkStep(simplified, s0, rank, node, n);
        simplified := simplified[n := To(InvertIf(invert, rep))];
        cur := next;
      }
      WalkEnd(simplified, s0, rank, node, cur.id);
      ShortenedAcyclic(simplified, s0, rank);
    }
  }
}
