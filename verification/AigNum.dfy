/** The number an AIG vector denotes.  Cell 0 of a vector is the most significant bit. */
module AigNum {
  import opened Arith
  import opened AigGraph
  import opened References
  import opened AigManager

  ghost function Num(g: Graph, v: seq<Lit>, env: Env): nat {
    if |v| == 0 then 0 else Weigh(Val(g, v[0], env), Pow2(|v| - 1)) + Num(g, v[1..], env)
  }

  /** Every node of the vector is in the graph. */
  ghost predicate Within(g: Graph, v: seq<Lit>) {
    forall i :: 0 <= i < |v| ==> v[i].id < |g|
  }

  /** The caller holds a reference to every cell. */
  ghost predicate HeldVec(handles: multiset<nat>, v: seq<Lit>) {
    forall i :: 0 <= i < |v| ==> Ref(v[i]) <= handles
  }

  /** What every operation that makes a vector leaves behind: the new references are
      exactly those of its cells, and nothing old changed its meaning. */
  ghost predicate Made(h: multiset<nat>, g: Graph, h': multiset<nat>, g': Graph, cells: seq<Lit>) {
    h' == h + Refs(cells) && Extends(g, g') && Within(g', cells)
  }

  lemma {:induction false} NumBound(g: Graph, v: seq<Lit>, env: Env)
    ensures Num(g, v, env) < Pow2(|v|)
  {
    if |v| > 0 { NumBound(g, v[1..], env); }
  }

  lemma {:induction false} NumExtends(g: Graph, g': Graph, v: seq<Lit>, env: Env)
    requires Extends(g, g') && Within(g, v)
    ensures Num(g', v, env) == Num(g, v, env)
  {
    if |v| > 0 {
      ExtendsEval(g, g', v[0], env);
      NumExtends(g, g', v[1..], env);
    }
  }

  lemma {:induction false} NumCons(g: Graph, x: Lit, v: seq<Lit>, env: Env)
    ensures Num(g, [x] + v, env) == Weigh(Val(g, x, env), Pow2(|v|)) + Num(g, v, env)
  {
    assert ([x] + v)[1..] == v;
  }

  lemma {:induction false} NumConcat(g: Graph, u: seq<Lit>, v: seq<Lit>, env: Env)
    ensures Num(g, u + v, env) == Num(g, u, env) * Pow2(|v|) + Num(g, v, env)
  {
    if |u| == 0 {
      assert u + v == v;
    } else {
      assert (u + v)[1..] == u[1..] + v;
      NumConcat(g, u[1..], v, env);
      Pow2Add(|u| - 1, |v|);
      var b, p, q := Val(g, u[0], env), Pow2(|u| - 1), Pow2(|v|);
      Distribute(q, Weigh(b, p), Num(g, u[1..], env));
    }
  }

  lemma {:induction false} NumGrows(g: Graph, g': Graph, v: seq<Lit>, env: Env)
    requires Grows(g, g') && Within(g, v)
    ensures Num(g', v, env) == Num(g, v, env)
  {
    if |v| > 0 {
      GrowsEval(g, g', v[0], env);
      NumGrows(g, g', v[1..], env);
    }
  }

  lemma {:induction false} WithinGrows(g: Graph, g': Graph, v: seq<Lit>)
    requires Grows(g, g') && Within(g, v)
    ensures Within(g', v)
  {
  }

  lemma {:induction false} WithinGrown(g: Graph, g': Graph, x: Lit, v: seq<Lit>)
    requires Grows(g, g') && Within(g, v) && x.id < |g'|
    ensures Within(g', [x] + v)
  {
  }

  lemma {:induction false} WithinExtends(g: Graph, g': Graph, v: seq<Lit>)
    requires Extends(g, g') && Within(g, v)
    ensures Within(g', v)
  {
  }

  lemma {:induction false} HeldWithin(m: Manager, v: seq<Lit>)
    requires m.Valid() && HeldVec(m.handles, v)
    ensures Within(m.graph, v)
  {
    hide m.Valid;
    m.HandlesKnown();
  }

  lemma {:induction false} RefsCons(x: Lit, v: seq<Lit>)
    ensures Refs([x] + v) == Ref(x) + Refs(v)
  {
    RefsConcat([x], v);
    RefsOne(x);
  }

  /** Making a vector keeps every older one: its references, its nodes and its value. */
  lemma {:induction false} MadeKeeps(h: multiset<nat>, g: Graph, h': multiset<nat>, g': Graph, cells: seq<Lit>)
    requires Made(h, g, h', g', cells)
    ensures HeldVec(h', cells) && Within(g', cells) && h' == h + Refs(cells)
    ensures Extends(g, g')
    ensures forall v: seq<Lit> {:trigger HeldVec(h', v)} :: HeldVec(h, v) ==> HeldVec(h', v)
    ensures forall v: seq<Lit> {:trigger Within(g', v)} :: Within(g, v) ==> Within(g', v)
    ensures forall v: seq<Lit>, env: Env {:trigger Num(g', v, env)} ::
            Within(g, v) ==> Num(g', v, env) == Num(g, v, env)
  {
    hide Extends, Num, Refs, NodeRef;
    HeldOwn(h, cells);
    forall v: seq<Lit>, env: Env | Within(g, v)
      ensures Num(g', v, env) == Num(g, v, env)
    {
      NumExtends(g, g', v, env);
    }
    forall v: seq<Lit> | Within(g, v)
      ensures Within(g', v)
    {
      WithinExtends(g, g', v);
    }
  }

  lemma {:induction false} HeldMono(h: multiset<nat>, h': multiset<nat>)
    requires h <= h'
    ensures forall v: seq<Lit> {:trigger HeldVec(h', v)} :: HeldVec(h, v) ==> HeldVec(h', v)
  {
    hide NodeRef;
  }

  lemma {:induction false} HeldCons(h: multiset<nat>, x: Lit, v: seq<Lit>)
    requires Ref(x) <= h && HeldVec(h, v)
    ensures HeldVec(h, [x] + v)
  {
    hide NodeRef;
  }

  lemma {:induction false} HeldOwn(h: multiset<nat>, v: seq<Lit>)
    ensures HeldVec(h + Refs(v), v)
  {
    hide NodeRef;
    if |v| > 0 {
      HeldOwn(h, v[..|v| - 1]);
      forall i | 0 <= i < |v|
        ensures Ref(v[i]) <= h + Refs(v)
      {
        assert i < |v| - 1 ==> v[..|v| - 1][i] == v[i];
      }
    }
  }

  lemma {:induction false} HeldCell(h: multiset<nat>, v: seq<Lit>, i: nat, more: multiset<nat>)
    requires HeldVec(h, v) && i < |v|
    ensures Ref(v[i]) <= h && Ref(v[i]) <= h + more
  {
  }

  lemma {:induction false} WithinCell(g: Graph, v: seq<Lit>, i: nat)
    requires Within(g, v) && i < |v|
    ensures v[i].id < |g|
  {
  }

  lemma {:induction false} WithinEmpty(g: Graph)
    ensures Within(g, [])
  {
  }

  lemma {:induction false} WithinCons(g: Graph, g': Graph, x: Lit, v: seq<Lit>)
    requires Extends(g, g') && Within(g, v) && x.id < |g'|
    ensures Within(g', [x] + v)
  {
  }

  lemma {:induction false} WithinSnoc(g: Graph, g': Graph, v: seq<Lit>, x: Lit)
    requires Extends(g, g') && Within(g, v) && x.id < |g'|
    ensures Within(g', v + [x])
  {
  }

  lemma {:induction false} WithinOne(g: Graph, x: Lit)
    requires x.id < |g|
    ensures Within(g, [x])
  {
  }

  lemma {:induction false} NumOne(g: Graph, x: Lit, env: Env)
    ensures Num(g, [x], env) == Val(g, x, env)
  {
    assert [x][1..] == [];
    assert Pow2(0) == 1;
  }

  lemma {:induction false} NumSnoc(g: Graph, v: seq<Lit>, x: Lit, env: Env)
    ensures Num(g, v + [x], env) == 2 * Num(g, v, env) + Val(g, x, env)
  {
    NumConcat(g, v, [x], env);
    NumOne(g, x, env);
    assert Pow2(1) == 2 * Pow2(0);
  }

  /** The references of a sequence of vectors. */
  ghost function RowsRefs(rows: seq<seq<Lit>>): multiset<nat> {
    if |rows| == 0 then multiset{} else Refs(rows[0]) + RowsRefs(rows[1..])
  }

  lemma {:induction false} RowsRefsPush(rows: seq<seq<Lit>>, row: seq<Lit>)
    ensures RowsRefs(rows + [row]) == RowsRefs(rows) + Refs(row)
  {
    hide Refs;
    if |rows| == 0 {
      assert rows + [row] == [row];
    } else {
      assert (rows + [row])[1..] == rows[1..] + [row];
      RowsRefsPush(rows[1..], row);
    }
  }

  lemma {:induction false} RowsRefsSet(rows: seq<seq<Lit>>, i: nat, row: seq<Lit>)
    requires i < |rows|
    ensures RowsRefs(rows[i := row]) + Refs(rows[i]) == RowsRefs(rows) + Refs(row)
  {
    hide Refs;
    if i == 0 {
      assert rows[0 := row][1..] == rows[1..];
    } else {
      assert rows[i := row][1..] == rows[1..][i - 1 := row];
      RowsRefsSet(rows[1..], i - 1, row);
      AddFront(Refs(rows[0]), RowsRefs(rows[1..][i - 1 := row]), Refs(rows[i]), RowsRefs(rows[1..]), Refs(row));
    }
  }

  lemma {:induction false} AddFront(r: multiset<nat>, a: multiset<nat>, b: multiset<nat>, c: multiset<nat>,
        d: multiset<nat>)
    requires a + b == c + d
    ensures r + a + b == r + c + d
  {
    forall i: nat
      ensures (r + a + b)[i] == (r + c + d)[i]
    {
      assert (a + b)[i] == (c + d)[i];
    }
  }

  lemma {:induction false} RowHeld(base: multiset<nat>, rows: seq<seq<Lit>>, i: nat)
    requires i < |rows|
    ensures HeldVec(base + RowsRefs(rows), rows[i])
  {
    hide Refs, NodeRef, HeldVec;
    RowsRefsSet(rows, i, []);
    RefsEmpty();
    HeldOwn(base + RowsRefs(rows[i := []]), rows[i]);
    AddFront(base, RowsRefs(rows[i := []]), Refs(rows[i]), RowsRefs(rows), multiset{});
    assert base + RowsRefs(rows) + multiset{} == base + RowsRefs(rows);
  }
}
