/** The local rewrite rules of `bzla_aig_and` (src/bzlaaig.c:373-673).

    Each group of rules is a decision on the two operands and their children.
    The loop in `AigManager.Manager.MakeAnd` runs the groups in this order and stops at the
    first one that applies.
 */
module AigRewrite {
  import opened AigGraph

  /** What a rule decides: nothing, a finished result, or a retry with smaller operands. */
  datatype Rewrite = Keep | Done(res: Lit) | Retry(left: Lit, right: Lit)

  /** `l` is one of the two children of the AND below `a`. */
  predicate IsChild(t: Graph, a: Lit, l: Lit)
    requires IsAnd(t, a)
  { Left(t, a) == l || Right(t, a) == l }

  /** Some child of `a` is the complement of some child of `b`. */
  predicate ChildrenClash(t: Graph, a: Lit, b: Lit)
    requires IsAnd(t, a) && IsAnd(t, b)
  { IsChild(t, b, Not(Left(t, a))) || IsChild(t, b, Not(Right(t, a))) }

  function Trivial(l: Lit, r: Lit): Rewrite {
    if l == FALSE_LIT || r == FALSE_LIT then Done(FALSE_LIT)
    else if l == TRUE_LIT then Done(r)
    else if r == TRUE_LIT || l == r then Done(l)
    else if l == Not(r) then Done(FALSE_LIT)
    else Keep
  }

  function Contradiction(t: Graph, l: Lit, r: Lit): Rewrite {
    if IsAnd(t, l) && !l.inv && IsChild(t, l, Not(r)) then Done(FALSE_LIT)
    else if IsAnd(t, r) && !r.inv && IsChild(t, r, Not(l)) then Done(FALSE_LIT)
    else if IsAnd(t, l) && IsAnd(t, r) && !l.inv && !r.inv && ChildrenClash(t, l, r) then Done(FALSE_LIT)
    else Keep
  }

  function Subsumption(t: Graph, l: Lit, r: Lit): Rewrite {
    if IsAnd(t, l) && l.inv && IsChild(t, l, Not(r)) then Done(r)
    else if IsAnd(t, r) && r.inv && IsChild(t, r, Not(l)) then Done(l)
    else if IsAnd(t, l) && IsAnd(t, r) && l.inv && !r.inv && ChildrenClash(t, l, r) then Done(r)
    else if IsAnd(t, l) && IsAnd(t, r) && !l.inv && r.inv && ChildrenClash(t, l, r) then Done(l)
    else Keep
  }

  function Resolution(t: Graph, l: Lit, r: Lit): Rewrite {
    if IsAnd(t, l) && IsAnd(t, r) && l.inv && r.inv then
      var ll, lr, rl, rr := Left(t, l), Right(t, l), Left(t, r), Right(t, r);
      if (ll == rl && lr == Not(rr)) || (ll == rr && lr == Not(rl)) then Done(Not(ll))
      else if (rr == lr && rl == Not(ll)) || (rr == ll && rl == Not(lr)) then Done(Not(rr))
      else Keep
    else Keep
  }

  function Idempotency(t: Graph, l: Lit, r: Lit): Rewrite {
    if IsAnd(t, l) && !l.inv && IsChild(t, l, r) then Done(l)
    else if IsAnd(t, r) && !r.inv && IsChild(t, r, l) then Done(r)
    else if IsAnd(t, l) && IsAnd(t, r) && !l.inv && !r.inv && IsChild(t, l, Left(t, r)) then Retry(l, Right(t, r))
    else if IsAnd(t, l) && IsAnd(t, r) && !l.inv && !r.inv && IsChild(t, l, Right(t, r)) then Retry(l, Left(t, r))
    else Keep
  }

  function AsymmetricSubstitution(t: Graph, l: Lit, r: Lit): Rewrite {
    if IsAnd(t, l) && l.inv && Right(t, l) == r then Retry(Not(Left(t, l)), r)
    else if IsAnd(t, l) && l.inv && Left(t, l) == r then Retry(Not(Right(t, l)), r)
    else if IsAnd(t, r) && r.inv && Left(t, r) == l then Retry(l, Not(Right(t, r)))
    else if IsAnd(t, r) && r.inv && Right(t, r) == l then Retry(l, Not(Left(t, r)))
    else Keep
  }

  function SymmetricSubstitution(t: Graph, l: Lit, r: Lit): Rewrite {
    if IsAnd(t, l) && IsAnd(t, r) && l.inv && !r.inv && IsChild(t, r, Right(t, l)) then Retry(Not(Left(t, l)), r)
    else if IsAnd(t, l) && IsAnd(t, r) && l.inv && !r.inv && IsChild(t, r, Left(t, l)) then Retry(Not(Right(t, l)), r)
    else if IsAnd(t, l) && IsAnd(t, r) && !l.inv && r.inv && IsChild(t, l, Left(t, r)) then Retry(l, Not(Right(t, r)))
    else if IsAnd(t, l) && IsAnd(t, r) && !l.inv && r.inv && IsChild(t, l, Right(t, r)) then Retry(l, Not(Left(t, r)))
    else Keep
  }

  const CONTRADICTION_LIMIT: nat := 8

  /** Depth-first search below `a` for the complement of `a0` or `a1`.  The second
      result is the updated call counter, which bounds the whole search. */
  function FindContradiction(t: Graph, a: Lit, a0: Lit, a1: Lit, calls: nat): (bool, nat)
    decreases a.id
  {
    if calls >= CONTRADICTION_LIMIT then (false, calls)
    else if !a.inv && IsAnd(t, a) && Left(t, a).id < a.id && Right(t, a).id < a.id then
      if IsChild(t, a, Not(a0)) || IsChild(t, a, Not(a1)) then (true, calls)
      else
        var (found, calls') := FindContradiction(t, Left(t, a), a0, a1, calls + 1);
        if found then (true, calls') else FindContradiction(t, Right(t, a), a0, a1, calls')
    else (false, calls)
  }

  function Deep(t: Graph, l: Lit, r: Lit, calls: nat): (bool, nat) {
    var (found, calls') := FindContradiction(t, l, l, r, calls);
    if found then (true, calls') else FindContradiction(t, r, l, r, calls')
  }

  /** All rules up to the substitution rules, in source order. */
  function TwoLevel(t: Graph, l: Lit, r: Lit): Rewrite {
    var a := Trivial(l, r);
    if !a.Keep? then a else
    var b := Contradiction(t, l, r);
    if !b.Keep? then b else
    var c := Subsumption(t, l, r);
    if !c.Keep? then c else
    var d := Resolution(t, l, r);
    if !d.Keep? then d else
    var e := Idempotency(t, l, r);
    if !e.Keep? then e else
    var f := AsymmetricSubstitution(t, l, r);
    if !f.Keep? then f else
    SymmetricSubstitution(t, l, r)
  }

  // ---------------------------------------------------------------- soundness

  /** A rule is right when it keeps the conjunction, stays inside the live nodes
      and, on a retry, strictly lowers the sum of the operand ids. */
  ghost predicate Right2(t: Graph, g: Graph, l: Lit, r: Lit, w: Rewrite, env: Env) {
    match w
    case Keep => true
    case Done(res) => IsLive(t, res) && Eval(g, res, env) == (Eval(g, l, env) && Eval(g, r, env))
    case Retry(l', r') =>
      && IsLive(t, l') && IsLive(t, r') && l'.id + r'.id < l.id + r.id
      && (Eval(g, l', env) && Eval(g, r', env)) == (Eval(g, l, env) && Eval(g, r, env))
  }

  ghost predicate Operands(t: Graph, g: Graph, l: Lit, r: Lit) {
    Closed(t) && WellFormed(g) && Remembers(g, t) && IsLive(t, l) && IsLive(t, r)
  }

  /** The value of an AND is the conjunction of its children's values. */
  lemma {:induction false} EvalAnd(t: Graph, g: Graph, l: Lit, env: Env)
    requires Closed(t) && WellFormed(g) && Remembers(g, t) && IsLive(t, l) && IsAnd(t, l)
    ensures Eval(g, l, env) == ((Eval(g, Left(t, l), env) && Eval(g, Right(t, l), env)) != l.inv)
    ensures Left(t, l).id < l.id && Right(t, l).id < l.id
    ensures IsLive(t, Left(t, l)) && IsLive(t, Right(t, l))
  {
    assert t[l.id] == g[l.id];
  }

  lemma {:induction false} TrivialSound(t: Graph, g: Graph, l: Lit, r: Lit, env: Env)
    requires Operands(t, g, l, r)
    ensures Right2(t, g, l, r, Trivial(l, r), env)
  {
    if l == Not(r) { EvalNot(g, r, env); }
  }

  lemma {:induction false} ContradictionSound(t: Graph, g: Graph, l: Lit, r: Lit, env: Env)
    requires Operands(t, g, l, r)
    ensures Right2(t, g, l, r, Contradiction(t, l, r), env)
  {
    EvalNot(g, l, env);
    EvalNot(g, r, env);
    if IsAnd(t, l) {
      EvalAnd(t, g, l, env);
      EvalNot(g, Left(t, l), env);
      EvalNot(g, Right(t, l), env);
    }
    if IsAnd(t, r) { EvalAnd(t, g, r, env); }
  }

  lemma {:induction false} SubsumptionSound(t: Graph, g: Graph, l: Lit, r: Lit, env: Env)
    requires Operands(t, g, l, r)
    ensures Right2(t, g, l, r, Subsumption(t, l, r), env)
  {
    EvalNot(g, l, env);
    EvalNot(g, r, env);
    if IsAnd(t, l) {
      EvalAnd(t, g, l, env);
      EvalNot(g, Left(t, l), env);
      EvalNot(g, Right(t, l), env);
    }
    if IsAnd(t, r) { EvalAnd(t, g, r, env); }
  }

  lemma {:induction false} ResolutionSound(t: Graph, g: Graph, l: Lit, r: Lit, env: Env)
    requires Operands(t, g, l, r)
    ensures Right2(t, g, l, r, Resolution(t, l, r), env)
  {
    if IsAnd(t, l) && IsAnd(t, r) {
      EvalAnd(t, g, l, env);
      EvalAnd(t, g, r, env);
      EvalNot(g, Left(t, l), env);
      EvalNot(g, Right(t, l), env);
      EvalNot(g, Left(t, r), env);
      EvalNot(g, Right(t, r), env);
    }
  }

  lemma {:induction false} IdempotencySound(t: Graph, g: Graph, l: Lit, r: Lit, env: Env)
    requires Operands(t, g, l, r)
    ensures Right2(t, g, l, r, Idempotency(t, l, r), env)
  {
    if IsAnd(t, l) { EvalAnd(t, g, l, env); }
    if IsAnd(t, r) { EvalAnd(t, g, r, env); }
  }

  lemma {:induction false} AsymmetricSubstitutionSound(t: Graph, g: Graph, l: Lit, r: Lit, env: Env)
    requires Operands(t, g, l, r)
    ensures Right2(t, g, l, r, AsymmetricSubstitution(t, l, r), env)
  {
    if IsAnd(t, l) {
      EvalAnd(t, g, l, env);
      EvalNot(g, Left(t, l), env);
      EvalNot(g, Right(t, l), env);
    }
    if IsAnd(t, r) {
      EvalAnd(t, g, r, env);
      EvalNot(g, Left(t, r), env);
      EvalNot(g, Right(t, r), env);
    }
  }

  lemma {:induction false} SymmetricSubstitutionSound(t: Graph, g: Graph, l: Lit, r: Lit, env: Env)
    requires Operands(t, g, l, r)
    ensures Right2(t, g, l, r, SymmetricSubstitution(t, l, r), env)
  {
    if IsAnd(t, l) {
      EvalAnd(t, g, l, env);
      EvalNot(g, Left(t, l), env);
      EvalNot(g, Right(t, l), env);
    }
    if IsAnd(t, r) {
      EvalAnd(t, g, r, env);
      EvalNot(g, Left(t, r), env);
      EvalNot(g, Right(t, r), env);
    }
  }

  /** Every two-level rule keeps the meaning of the conjunction, and every retry
      is on operands with a strictly smaller sum of ids. */
  lemma {:induction false} TwoLevelSound(t: Graph, g: Graph, l: Lit, r: Lit, env: Env)
    requires Operands(t, g, l, r)
    ensures Right2(t, g, l, r, TwoLevel(t, l, r), env)
  {
    hide Right2, Operands, Trivial, Contradiction, Subsumption, Resolution, Idempotency;
    hide AsymmetricSubstitution, SymmetricSubstitution;
    TrivialSound(t, g, l, r, env);
    ContradictionSound(t, g, l, r, env);
    SubsumptionSound(t, g, l, r, env);
    ResolutionSound(t, g, l, r, env);
    IdempotencySound(t, g, l, r, env);
    AsymmetricSubstitutionSound(t, g, l, r, env);
    SymmetricSubstitutionSound(t, g, l, r, env);
  }

  /** A contradiction found below `a` means `a`, `a0` and `a1` are never all true. */
  lemma {:induction false} FindContradictionSound(t: Graph, g: Graph, a: Lit, a0: Lit, a1: Lit, calls: nat, env: Env)
    requires Closed(t) && WellFormed(g) && Remembers(g, t) && IsLive(t, a)
    requires FindContradiction(t, a, a0, a1, calls).0
    ensures !(Eval(g, a, env) && Eval(g, a0, env) && Eval(g, a1, env))
    decreases a.id
  {
    EvalAnd(t, g, a, env);
    EvalNot(g, a0, env);
    EvalNot(g, a1, env);
    if !(IsChild(t, a, Not(a0)) || IsChild(t, a, Not(a1))) {
      var (found, calls') := FindContradiction(t, Left(t, a), a0, a1, calls + 1);
      if found {
        FindContradictionSound(t, g, Left(t, a), a0, a1, calls + 1, env);
      } else {
        FindContradictionSound(t, g, Right(t, a), a0, a1, calls', env);
      }
    }
  }

  lemma {:induction false} DeepSound(t: Graph, g: Graph, l: Lit, r: Lit, calls: nat, env: Env)
    requires Operands(t, g, l, r) && Deep(t, l, r, calls).0
    ensures !(Eval(g, l, env) && Eval(g, r, env))
  {
    var (found, calls') := FindContradiction(t, l, l, r, calls);
    if found {
      FindContradictionSound(t, g, l, l, r, calls, env);
    } else {
      FindContradictionSound(t, g, r, l, r, calls', env);
    }
  }

  // ---------------------------------------------------------------- completeness

  /** Two negated operands that resolve crosswise; the rules see this in one of its two forms only. */
  predicate Crossed(t: Graph, l: Lit, r: Lit) {
    IsAnd(t, l) && IsAnd(t, r) && l.inv && r.inv && Left(t, l) == Right(t, r) && Right(t, l) == Not(Left(t, r))
  }

  /** The rules leave alone exactly the operands that share no node within two levels, except two negated
      ones that do not resolve. */
  lemma {:induction false} TwoLevelExact(t: Graph, l: Lit, r: Lit)
    ensures TwoLevel(t, l, r).Keep? <==> Reduced(t, l, r) && !Crossed(t, l, r)
  {
    if IsAnd(t, l) && IsAnd(t, r) {
      if l.inv && r.inv { KeepNegated(t, l, r); } else { KeepMixed(t, l, r); }
    } else {
      KeepOne(t, l, r);
    }
  }

  lemma {:induction false} KeepOne(t: Graph, l: Lit, r: Lit)
    requires !(IsAnd(t, l) && IsAnd(t, r))
    ensures TwoLevel(t, l, r).Keep? <==> Reduced(t, l, r)
  {
  }

  lemma {:induction false} KeepNegated(t: Graph, l: Lit, r: Lit)
    requires IsAnd(t, l) && IsAnd(t, r) && l.inv && r.inv
    ensures TwoLevel(t, l, r).Keep? <==> Reduced(t, l, r) && !Crossed(t, l, r)
  {
  }

  lemma {:induction false} KeepMixed(t: Graph, l: Lit, r: Lit)
    requires IsAnd(t, l) && IsAnd(t, r) && !(l.inv && r.inv)
    ensures TwoLevel(t, l, r).Keep? <==> Reduced(t, l, r)
  {
  }

  /** Two negated operands resolve here, but not with their places exchanged. */
  lemma {:induction false} CrossedExample()
    ensures var g4, g5 := And(Lit(2, false), Lit(3, false)), And(Lit(3, true), Lit(2, false));
            var t: Graph := [Const, Const, Var, Var, g4, g5];
            && Closed(t) && TwoLevel(t, Lit(4, true), Lit(5, true)).Done?
            && TwoLevel(t, Lit(5, true), Lit(4, true)).Keep?
  {
    var g4, g5 := And(Lit(2, false), Lit(3, false)), And(Lit(3, true), Lit(2, false));
    var t: Graph := [Const, Const, Var, Var, g4, g5];
    assert t[4] == g4 && t[5] == g5;
  }

  lemma {:induction false} SortedNotCrossed(t: Graph, l: Lit, r: Lit)
    requires IsAnd(t, l) && Left(t, l).id < Right(t, l).id && IsAnd(t, r) && Left(t, r).id < Right(t, r).id
    ensures !Crossed(t, l, r) && !Crossed(t, r, l)
  {
  }

  /** The live nodes are enough to see it. */
  lemma {:induction false} ReducedSame(t: Graph, g: Graph, l: Lit, r: Lit)
    requires Remembers(g, t) && IsLive(t, l) && IsLive(t, r) && Closed(t) && WellFormed(g)
    ensures Reduced(t, l, r) == Reduced(g, l, r)
  {
    assert (l.id != 0 ==> t[l.id] == g[l.id]) && (r.id != 0 ==> t[r.id] == g[r.id]);
  }

  /** How many calls a search below `a` would make without a limit. */
  ghost function Calls(t: Graph, a: Lit): nat
    decreases a.id
  {
    if !a.inv && IsAnd(t, a) && Left(t, a).id < a.id && Right(t, a).id < a.id then
      1 + Calls(t, Left(t, a)) + Calls(t, Right(t, a))
    else 0
  }

  /** Literal `c` is below `a` along ANDs that are not inverted. */
  ghost predicate Conjunct(t: Graph, a: Lit, c: Lit)
    decreases a.id
  {
    && !a.inv && IsAnd(t, a) && Left(t, a).id < a.id && Right(t, a).id < a.id
    && (IsChild(t, a, c) || Conjunct(t, Left(t, a), c) || Conjunct(t, Right(t, a), c))
  }

  /** A search that does not meet its limit finds every contradiction below `a`. */
  lemma {:induction false} FindContradictionComplete(t: Graph, a: Lit, a0: Lit, a1: Lit, calls: nat)
    requires calls + Calls(t, a) < CONTRADICTION_LIMIT
    ensures var (found, calls') := FindContradiction(t, a, a0, a1, calls);
            && (found <==> Conjunct(t, a, Not(a0)) || Conjunct(t, a, Not(a1)))
            && calls <= calls' <= calls + Calls(t, a)
    decreases a.id
  {
    if !a.inv && IsAnd(t, a) && Left(t, a).id < a.id && Right(t, a).id < a.id {
      FindContradictionComplete(t, Left(t, a), a0, a1, calls + 1);
      var (found, calls') := FindContradiction(t, Left(t, a), a0, a1, calls + 1);
      if !found { FindContradictionComplete(t, Right(t, a), a0, a1, calls'); }
    }
  }

  lemma {:induction false} DeepComplete(t: Graph, l: Lit, r: Lit, calls: nat)
    requires calls + Calls(t, l) + Calls(t, r) < CONTRADICTION_LIMIT
    ensures Deep(t, l, r, calls).0 <==> Conjunct(t, l, Not(l)) || Conjunct(t, l, Not(r)) || Conjunct(t, r, Not(l))
                                        || Conjunct(t, r, Not(r))
  {
    FindContradictionComplete(t, l, l, r, calls);
    var (found, calls') := FindContradiction(t, l, l, r, calls);
    if !found { FindContradictionComplete(t, r, l, r, calls'); }
  }

  /** As far as the search goes, no conjunct of the operands is the complement of one of them. */
  ghost predicate Unclashed(t: Graph, l: Lit, r: Lit) {
    Calls(t, l) + Calls(t, r) < CONTRADICTION_LIMIT ==>
      !Conjunct(t, l, Not(l)) && !Conjunct(t, l, Not(r)) && !Conjunct(t, r, Not(l)) && !Conjunct(t, r, Not(r))
  }

  lemma {:induction false} DeepUnclashed(t: Graph, l: Lit, r: Lit)
    requires !Deep(t, l, r, 0).0
    ensures Unclashed(t, l, r) && Unclashed(t, r, l)
  {
    if Calls(t, l) + Calls(t, r) < CONTRADICTION_LIMIT { DeepComplete(t, l, r, 0); }
  }
}
