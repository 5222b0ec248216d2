/** Decompositions as lists of steps over a store of domains.

    The loops of the composed propagators (src/bzlabvprop.c:2306-2437, 2720-2850, 3016-3118,
    3656-4024) repeat a fixed sequence of `decomp_step` calls on their `tmp_` domains until
    none of them changes a domain.  Here the domains are the cells of a store and a step
    names the cells it works on.
 */
module BvPropSteps {
  import opened BvDomain
  import opened BvPropBasic
  import opened BvCarry

  datatype Step =
    | StepNot(x: nat, z: nat)
    | StepAnd(x: nat, y: nat, z: nat)
    | StepOr(x: nat, y: nat, z: nat)
    | StepXor(x: nat, y: nat, z: nat)
    | StepEq(x: nat, y: nat, z: nat)
    | StepSll(x: nat, z: nat, n: nat)
    | StepSlice(x: nat, z: nat, upper: nat, lower: nat)
    | StepCond(x: nat, y: nat, z: nat, c: nat)
    | StepAdd(x: nat, y: nat, z: nat)
    | StepAddCarry(x: nat, y: nat, z: nat, c: nat)
    | StepUlt(x: nat, y: nat, z: nat)

  /** How deep the propagators behind a step are nested. */
  function Rank(p: Step): nat {
    if p.StepUlt? then 2 else if p.StepAdd? || p.StepAddCarry? then 1 else 0
  }

  type Store = seq<Domain>

  ghost predicate Distinct3(a: nat, b: nat, c: nat) { a != b && a != c && b != c }

  ghost predicate SameWidth3(s: Store, a: nat, b: nat, c: nat) {
    a < |s| && b < |s| && c < |s| && |s[a]| == |s[b]| == |s[c]| && Distinct3(a, b, c)
  }

  /** The step names different cells of the right widths. */
  ghost predicate Fits(p: Step, s: Store) {
    match p
    case StepNot(x, z) => x < |s| && z < |s| && x != z && |s[x]| == |s[z]|
    case StepAnd(x, y, z) => SameWidth3(s, x, y, z)
    case StepOr(x, y, z) => SameWidth3(s, x, y, z)
    case StepXor(x, y, z) => SameWidth3(s, x, y, z)
    case StepEq(x, y, z) => x < |s| && y < |s| && z < |s| && Distinct3(x, y, z) && |s[x]| == |s[y]| && |s[z]| == 1
    case StepSll(x, z, n) => x < |s| && z < |s| && x != z && |s[x]| == |s[z]|
    case StepSlice(x, z, u, l) => x < |s| && z < |s| && x != z && l <= u < |s[x]| && |s[z]| == u - l + 1
    case StepCond(x, y, z, c) =>
      SameWidth3(s, x, y, z) && |s[x]| > 0 && c < |s| && c != x && c != y && c != z && |s[c]| == 1
    case StepAdd(x, y, z) => SameWidth3(s, x, y, z) && |s[x]| > 0
    case StepAddCarry(x, y, z, c) =>
      SameWidth3(s, x, y, z) && |s[x]| > 0 && c < |s| && c != x && c != y && c != z && |s[c]| == |s[x]|
    case StepUlt(x, y, z) =>
      x < |s| && y < |s| && z < |s| && Distinct3(x, y, z) && |s[x]| == |s[y]| > 0 && |s[z]| == 1
  }

  ghost predicate AllFit(steps: seq<Step>, s: Store) {
    forall k :: 0 <= k < |steps| ==> Fits(steps[k], s)
  }

  /** A value for every cell. */
  type Values = seq<Bits>

  /** The values satisfy the equation of the step. */
  ghost predicate Holds(p: Step, V: Values) {
    match p
    case StepNot(x, z) => x < |V| && z < |V| && V[z] == NotBits(V[x])
    case StepAnd(x, y, z) => x < |V| && y < |V| && z < |V| && |V[x]| == |V[y]| && V[z] == AndBits(V[x], V[y])
    case StepOr(x, y, z) => x < |V| && y < |V| && z < |V| && |V[x]| == |V[y]| && V[z] == OrBits(V[x], V[y])
    case StepXor(x, y, z) => x < |V| && y < |V| && z < |V| && |V[x]| == |V[y]| && V[z] == XorBits(V[x], V[y])
    case StepEq(x, y, z) => x < |V| && y < |V| && z < |V| && V[z] == [V[x] == V[y]]
    case StepSll(x, z, n) => x < |V| && z < |V| && V[z] == SllBits(V[x], n)
    case StepSlice(x, z, u, l) => x < |V| && z < |V| && l <= u < |V[x]| && V[z] == V[x][l..u + 1]
    case StepCond(x, y, z, c) => x < |V| && y < |V| && z < |V| && c < |V| && |V[c]| == 1 &&
      V[z] == CondBits(V[c][0], V[x], V[y])
    case StepAdd(x, y, z) => x < |V| && y < |V| && z < |V| && IsSum(V[x], V[y], V[z])
    case StepAddCarry(x, y, z, c) =>
      x < |V| && y < |V| && z < |V| && c < |V| && IsSum(V[x], V[y], V[z]) && V[c] == CarryBits(V[x], V[y])
    case StepUlt(x, y, z) => x < |V| && y < |V| && z < |V| && V[z] == [Nat(V[x]) < Nat(V[y])]
  }

  ghost predicate AllHold(steps: seq<Step>, V: Values) {
    forall k :: 0 <= k < |steps| ==> Holds(steps[k], V)
  }

  ghost predicate InStore(s: Store, V: Values) {
    |s| == |V| && forall i :: 0 <= i < |s| ==> Member(s[i], V[i])
  }

  ghost predicate ValidStore(s: Store) { forall i :: 0 <= i < |s| ==> Valid(s[i]) }

  ghost predicate NarrowsStore(r: Store, s: Store) {
    |r| == |s| && forall i :: 0 <= i < |s| ==> Narrows(r[i], s[i])
  }

  lemma {:induction false} NarrowsStoreSelf(s: Store)
    ensures NarrowsStore(s, s)
  {
  }

  lemma {:induction false} NarrowsStoreTrans(r: Store, s: Store, t: Store)
    requires NarrowsStore(r, s) && NarrowsStore(s, t)
    ensures NarrowsStore(r, t)
  {
    hide Narrows;
    forall i | 0 <= i < |t|
      ensures Narrows(r[i], t[i])
    {
      NarrowsTrans(r[i], s[i], t[i]);
    }
  }

  lemma {:induction false} FitsNarrow(p: Step, r: Store, s: Store)
    requires Fits(p, s) && NarrowsStore(r, s)
    ensures Fits(p, r)
  {
    assert forall i :: 0 <= i < |s| ==> |r[i]| == |s[i]|;
  }

  lemma {:induction false} AllFitNarrow(steps: seq<Step>, r: Store, s: Store)
    requires AllFit(steps, s) && NarrowsStore(r, s)
    ensures AllFit(steps, r)
  {
    hide Fits, NarrowsStore;
    forall k | 0 <= k < |steps|
      ensures Fits(steps[k], r)
    {
      FitsNarrow(steps[k], r, s);
    }
  }

  ghost function UnfixedStore(s: Store): nat {
    if |s| == 0 then 0 else Unfixed(s[0]) + UnfixedStore(s[1..])
  }

  lemma {:induction false} StoreLess(r: Store, s: Store)
    requires NarrowsStore(r, s) && ValidStore(r)
    ensures UnfixedStore(r) <= UnfixedStore(s) && (r != s ==> UnfixedStore(r) < UnfixedStore(s))
  {
    hide Narrows, Valid, Unfixed;
    if |s| > 0 {
      UnfixedLess(r[0], s[0]);
      StoreLess(r[1..], s[1..]);
      assert r == [r[0]] + r[1..] && s == [s[0]] + s[1..];
    }
  }

  // ---------------------------------------------------------------- writing results back

  /** One cell gets a narrower domain. */
  lemma {:induction false} PutOne(s: Store, i: nat, d: Domain)
    requires ValidStore(s) && i < |s| && Narrows(d, s[i]) && Valid(d)
    ensures NarrowsStore(s[i := d], s) && ValidStore(s[i := d])
  {
    NarrowsAll(s);
    hide Narrows, Valid;
  }

  lemma {:induction false} NarrowsAll(s: Store)
    ensures forall i :: 0 <= i < |s| ==> Narrows(s[i], s[i])
  {
  }

  lemma {:induction false} PutMember(s: Store, V: Values, i: nat, d: Domain)
    requires InStore(s, V) && i < |s| && Member(d, V[i])
    ensures InStore(s[i := d], V)
  {
    hide Member;
  }

  lemma {:induction false} Cell(s: Store, V: Values, i: nat)
    requires InStore(s, V) && i < |s|
    ensures i < |V| && Member(s[i], V[i]) && |s[i]| == |V[i]|
  {
  }

  /** A step whose propagator is an expression: what it answers and the new store. */
  function Put2(s: Store, x: nat, z: nat, r: Two): Store
    requires x < |s| && z < |s|
  { s[x := r.x][z := r.z] }

  function Put3(s: Store, x: nat, y: nat, z: nat, r: Three): Store
    requires x < |s| && y < |s| && z < |s|
  { s[x := r.x][y := r.y][z := r.z] }

  lemma {:induction false} Put2Keeps(s: Store, x: nat, z: nat, r: Two)
    requires ValidStore(s) && x < |s| && z < |s| && x != z && Keeps2(r, s[x], s[z]) && r.ok
    ensures NarrowsStore(Put2(s, x, z, r), s) && ValidStore(Put2(s, x, z, r))
  {
    hide Narrows, Valid;
    PutOne(s, x, r.x);
    PutOne(s[x := r.x], z, r.z);
    NarrowsStoreTrans(Put2(s, x, z, r), s[x := r.x], s);
  }

  lemma {:induction false} Put3Keeps(s: Store, x: nat, y: nat, z: nat, r: Three)
    requires ValidStore(s) && x < |s| && y < |s| && z < |s| && Distinct3(x, y, z) && Keeps3(r, s[x], s[y], s[z]) && r.ok
    ensures NarrowsStore(Put3(s, x, y, z, r), s) && ValidStore(Put3(s, x, y, z, r))
  {
    hide Narrows, Valid;
    PutOne(s, x, r.x);
    PutOne(s[x := r.x], y, r.y);
    PutOne(s[x := r.x][y := r.y], z, r.z);
    NarrowsStoreTrans(s[x := r.x][y := r.y], s[x := r.x], s);
    NarrowsStoreTrans(Put3(s, x, y, z, r), s[x := r.x][y := r.y], s);
  }

  lemma {:induction false} Put2Has(s: Store, V: Values, x: nat, z: nat, r: Two)
    requires InStore(s, V) && x < |s| && z < |s| && x != z && Has2(r, V[x], V[z])
    ensures InStore(Put2(s, x, z, r), V)
  {
    hide Member;
    PutMember(s, V, x, r.x);
    PutMember(s[x := r.x], V, z, r.z);
  }

  lemma {:induction false} Put3Has(s: Store, V: Values, x: nat, y: nat, z: nat, r: Three)
    requires InStore(s, V) && x < |s| && y < |s| && z < |s| && Distinct3(x, y, z) && Has3(r, V[x], V[y], V[z])
    ensures InStore(Put3(s, x, y, z, r), V)
  {
    hide Member;
    PutMember(s, V, x, r.x);
    PutMember(s[x := r.x], V, y, r.y);
    PutMember(s[x := r.x][y := r.y], V, z, r.z);
  }

  // ---------------------------------------------------------------- steps with an expression

  predicate IsBasic(p: Step) { Rank(p) == 0 && !p.StepCond? }

  /** The answer of a basic step and the store after it. */
  function Apply(p: Step, s: Store): (r: (bool, Store))
    requires IsBasic(p) && FitsBasic(p, s)
  {
    match p
    case StepNot(x, z) => var r := PropNot(s[x], s[z]); (r.ok, Put2(s, x, z, r))
    case StepSll(x, z, n) => var r := PropSll(s[x], s[z], n); (r.ok, Put2(s, x, z, r))
    case StepSlice(x, z, u, l) => var r := PropSlice(s[x], s[z], u, l); (r.ok, Put2(s, x, z, r))
    case StepAnd(x, y, z) => var r := PropAnd(s[x], s[y], s[z]); (r.ok, Put3(s, x, y, z, r))
    case StepOr(x, y, z) => var r := PropOr(s[x], s[y], s[z]); (r.ok, Put3(s, x, y, z, r))
    case StepXor(x, y, z) => var r := PropXor(s[x], s[y], s[z]); (r.ok, Put3(s, x, y, z, r))
    case StepEq(x, y, z) => var r := PropEq(s[x], s[y], s[z]); (r.ok, Put3(s, x, y, z, r))
    case _ => (true, s)
  }

  /** The part of `Fits` that a basic step needs. */
  predicate FitsBasic(p: Step, s: Store) {
    match p
    case StepNot(x, z) => x < |s| && z < |s| && |s[x]| == |s[z]|
    case StepSll(x, z, n) => x < |s| && z < |s| && |s[x]| == |s[z]|
    case StepSlice(x, z, u, l) => x < |s| && z < |s| && l <= u < |s[x]| && |s[z]| == u - l + 1
    case StepAnd(x, y, z) => x < |s| && y < |s| && z < |s| && |s[x]| == |s[y]| == |s[z]|
    case StepOr(x, y, z) => x < |s| && y < |s| && z < |s| && |s[x]| == |s[y]| == |s[z]|
    case StepXor(x, y, z) => x < |s| && y < |s| && z < |s| && |s[x]| == |s[y]| == |s[z]|
    case StepEq(x, y, z) => x < |s| && y < |s| && z < |s| && |s[x]| == |s[y]| && |s[z]| == 1
    case _ => true
  }

  lemma {:induction false} ApplyKeeps(p: Step, s: Store)
    requires IsBasic(p) && Fits(p, s) && ValidStore(s)
    ensures FitsBasic(p, s)
    ensures Apply(p, s).0 ==> NarrowsStore(Apply(p, s).1, s) && ValidStore(Apply(p, s).1)
  {
    hide Valid, Narrows, PropNot, PropSll, PropSlice, PropAnd, PropOr, PropXor, PropEq, Put2, Put3, NarrowsStore;
    match p {
      case StepNot(x, z) =>
        BitwiseKeeps(s[x], s[x], s[z]);
        if Apply(p, s).0 { Put2Keeps(s, x, z, PropNot(s[x], s[z])); }
      case StepSll(x, z, n) =>
        ShiftKeeps(s[x], s[z], n);
        if Apply(p, s).0 { Put2Keeps(s, x, z, PropSll(s[x], s[z], n)); }
      case StepSlice(x, z, u, l) =>
        if Apply(p, s).0 {
          SliceKeeps(s[x], s[z], u, l);
          Put2Keeps(s, x, z, PropSlice(s[x], s[z], u, l));
        }
      case StepAnd(x, y, z) =>
        BitwiseKeeps(s[x], s[y], s[z]);
        if Apply(p, s).0 { Put3Keeps(s, x, y, z, PropAnd(s[x], s[y], s[z])); }
      case StepOr(x, y, z) =>
        BitwiseKeeps(s[x], s[y], s[z]);
        if Apply(p, s).0 { Put3Keeps(s, x, y, z, PropOr(s[x], s[y], s[z])); }
      case StepXor(x, y, z) =>
        BitwiseKeeps(s[x], s[y], s[z]);
        if Apply(p, s).0 { Put3Keeps(s, x, y, z, PropXor(s[x], s[y], s[z])); }
      case StepEq(x, y, z) =>
        EqKeeps(s[x], s[y], s[z]);
        if Apply(p, s).0 { Put3Keeps(s, x, y, z, PropEq(s[x], s[y], s[z])); }
      case _ =>
    }
  }

  lemma {:induction false} ApplySound(p: Step, s: Store, V: Values)
    requires IsBasic(p) && Fits(p, s) && InStore(s, V) && Holds(p, V)
    ensures FitsBasic(p, s) && Apply(p, s).0 && InStore(Apply(p, s).1, V)
  {
    hide Member, Valid, Narrows, PropNot, PropSll, PropSlice, PropAnd, PropOr, PropXor, PropEq, Put2, Put3, InStore;
    hide NotBits, AndBits, OrBits, XorBits, SllBits;
    Cell(s, V, p.x);
    Cell(s, V, p.z);
    match p {
      case StepNot(x, z) =>
        NotSound(s[x], s[z], V[x]);
        Put2Has(s, V, x, z, PropNot(s[x], s[z]));
      case StepSll(x, z, n) =>
        SllSound(s[x], s[z], n, V[x]);
        Put2Has(s, V, x, z, PropSll(s[x], s[z], n));
      case StepSlice(x, z, u, l) =>
        SliceSound(s[x], s[z], u, l, V[x]);
        Put2Has(s, V, x, z, PropSlice(s[x], s[z], u, l));
      case StepAnd(x, y, z) =>
        Cell(s, V, y);
        AndSound(s[x], s[y], s[z], V[x], V[y]);
        Put3Has(s, V, x, y, z, PropAnd(s[x], s[y], s[z]));
      case StepOr(x, y, z) =>
        Cell(s, V, y);
        OrSound(s[x], s[y], s[z], V[x], V[y]);
        Put3Has(s, V, x, y, z, PropOr(s[x], s[y], s[z]));
      case StepXor(x, y, z) =>
        Cell(s, V, y);
        XorSound(s[x], s[y], s[z], V[x], V[y]);
        Put3Has(s, V, x, y, z, PropXor(s[x], s[y], s[z]));
      case StepEq(x, y, z) =>
        Cell(s, V, y);
        EqSound(s[x], s[y], s[z], V[x], V[y]);
        Put3Has(s, V, x, y, z, PropEq(s[x], s[y], s[z]));
      case _ =>
    }
  }

  // ---------------------------------------------------------------- fixed cells

  /** Fixed operands have fixed the result of the step; equal parts are known equally well. */
  ghost predicate Settled(p: Step, s: Store) {
    Fits(p, s) &&
    match p
    case StepNot(x, z) => Fixed(s[x]) ==> s[z] == NewFixed(NotBits(Lo(s[x])))
    case StepAnd(x, y, z) => Fixed(s[x]) && Fixed(s[y]) ==> s[z] == NewFixed(AndBits(Lo(s[x]), Lo(s[y])))
    case StepOr(x, y, z) => Fixed(s[x]) && Fixed(s[y]) ==> s[z] == NewFixed(OrBits(Lo(s[x]), Lo(s[y])))
    case StepXor(x, y, z) => Fixed(s[x]) && Fixed(s[y]) ==> s[z] == NewFixed(XorBits(Lo(s[x]), Lo(s[y])))
    case StepEq(x, y, z) =>
      && (Fixed(s[x]) && Fixed(s[y]) ==> s[z] == [FixedBit(Lo(s[x]) == Lo(s[y]))])
      && (s[z] == [ONE] ==> s[x] == s[y])
    case StepSll(x, z, n) => Fixed(s[x]) ==> s[z] == NewFixed(SllBits(Lo(s[x]), n))
    case StepSlice(x, z, u, l) => s[x][l..u + 1] == s[z]
    case StepCond(x, y, z, c) => Fixed(s[c]) ==> s[z] == if s[c][0].lo then s[x] else s[y]
    case StepAdd(x, y, z) => Fixed(s[x]) && Fixed(s[y]) ==> s[z] == NewFixed(AddBits(Lo(s[x]), Lo(s[y])))
    case StepAddCarry(x, y, z, c) => Fixed(s[x]) && Fixed(s[y]) ==>
      s[z] == NewFixed(AddBits(Lo(s[x]), Lo(s[y]))) && s[c] == NewFixed(CarryBits(Lo(s[x]), Lo(s[y])))
    case StepUlt(x, y, z) => Fixed(s[x]) && Fixed(s[y]) ==> s[z] == [FixedBit(Nat(Lo(s[x])) < Nat(Lo(s[y])))]
  }

  ghost predicate AllSettled(steps: seq<Step>, s: Store) {
    forall p :: p in steps ==> Settled(p, s)
  }

  lemma {:induction false} CellsPut(s: Store, x: nat, y: nat, z: nat, r: Three)
    requires x < |s| && y < |s| && z < |s| && Distinct3(x, y, z)
    ensures var t := Put3(s, x, y, z, r); |t| == |s| && t[x] == r.x && t[y] == r.y && t[z] == r.z
  {
  }

  lemma {:induction false} CellsPutTwo(s: Store, x: nat, z: nat, r: Two)
    requires x < |s| && z < |s| && x != z
    ensures var t := Put2(s, x, z, r); |t| == |s| && t[x] == r.x && t[z] == r.z
  {
  }

  lemma {:induction false} ApplySettled(p: Step, s: Store)
    requires IsBasic(p) && Fits(p, s) && ValidStore(s) && FitsBasic(p, s) && Apply(p, s).0
    requires NarrowsStore(Apply(p, s).1, s)
    ensures Settled(p, Apply(p, s).1)
  {
    FitsNarrow(p, Apply(p, s).1, s);
    hide Valid, Narrows, PropNot, PropSll, PropSlice, PropAnd, PropOr, PropXor, PropEq, Put2, Put3, NarrowsStore;
    hide NotBits, AndBits, OrBits, XorBits, SllBits, Fits, Fixed, Lo, NewFixed;
    match p {
      case StepNot(x, z) =>
        FitsCells(p, s);
        CellsPutTwo(s, x, z, PropNot(s[x], s[z]));
        if Fixed(PropNot(s[x], s[z]).x) { NotSettles(s[x], s[z]); }
      case StepSll(x, z, n) =>
        FitsCells(p, s);
        CellsPutTwo(s, x, z, PropSll(s[x], s[z], n));
        if Fixed(PropSll(s[x], s[z], n).x) { SllSettles(s[x], s[z], n); }
      case StepSlice(x, z, u, l) =>
        FitsCells(p, s);
        CellsPutTwo(s, x, z, PropSlice(s[x], s[z], u, l));
        SliceSettles(s[x], s[z], u, l);
      case StepAnd(x, y, z) =>
        FitsCells(p, s);
        var r := PropAnd(s[x], s[y], s[z]);
        CellsPut(s, x, y, z, r);
        if Fixed(r.x) && Fixed(r.y) { AndSettles(s[x], s[y], s[z]); }
      case StepOr(x, y, z) =>
        FitsCells(p, s);
        var r := PropOr(s[x], s[y], s[z]);
        CellsPut(s, x, y, z, r);
        if Fixed(r.x) && Fixed(r.y) { OrSettles(s[x], s[y], s[z]); }
      case StepXor(x, y, z) =>
        FitsCells(p, s);
        var r := PropXor(s[x], s[y], s[z]);
        CellsPut(s, x, y, z, r);
        if Fixed(r.x) && Fixed(r.y) { XorSettles(s[x], s[y], s[z]); }
      case StepEq(x, y, z) =>
        FitsCells(p, s);
        CellsPut(s, x, y, z, PropEq(s[x], s[y], s[z]));
        EqSettles(s[x], s[y], s[z]);
      case _ =>
    }
  }

  /** The cells of a step are different. */
  lemma {:induction false} FitsCells(p: Step, s: Store)
    requires Fits(p, s)
    ensures p.x < |s| && p.z < |s| && p.x != p.z
    ensures !p.StepNot? && !p.StepSll? && !p.StepSlice? ==> p.y < |s| && Distinct3(p.x, p.y, p.z)
  {
  }

  /** The cell holds just this value. */
  ghost predicate Holding(s: Store, V: Values, c: nat) {
    c < |s| && c < |V| && s[c] == NewFixed(V[c])
  }

  lemma {:induction false} FixedLo(v: Bits)
    ensures Fixed(NewFixed(v)) && Lo(NewFixed(v)) == v
  {
  }

  lemma {:induction false} FixedOne(b: bool)
    ensures NewFixed([b]) == [FixedBit(b)]
  {
  }

  /** From the operands to the result. */
  lemma {:induction false} Forward(p: Step, s: Store, V: Values)
    requires Settled(p, s) && Holds(p, V) && |V| == |s| && Holding(s, V, p.x)
    requires !p.StepNot? && !p.StepSll? && !p.StepSlice? ==> Holding(s, V, p.y)
    requires p.StepCond? ==> Holding(s, V, p.c)
    ensures Holding(s, V, p.z) && (p.StepAddCarry? ==> Holding(s, V, p.c))
  {
    FixedLo(V[p.x]);
    if !p.StepNot? && !p.StepSll? && !p.StepSlice? { FixedLo(V[p.y]); }
    hide Fixed, Lo, NotBits, AndBits, OrBits, XorBits, SllBits, AddBits, CarryBits, Nat;
    match p {
      case StepEq(x, y, z) => FixedOne(V[x] == V[y]);
      case StepUlt(x, y, z) => FixedOne(Nat(V[x]) < Nat(V[y]));
      case StepAdd(x, y, z) => SumIsAdd(V[x], V[y], V[z]);
      case StepAddCarry(x, y, z, c) => SumIsAdd(V[x], V[y], V[z]);
      case StepCond(x, y, z, c) => FixedLo(V[c]);
      case _ =>
    }
  }

  /** Both ways over an equality that must hold. */
  lemma {:induction false} ForwardEqual(p: Step, s: Store, V: Values)
    requires Settled(p, s) && Holds(p, V) && |V| == |s| && p.StepEq? && Holding(s, V, p.x) && Holding(s, V, p.z)
    requires V[p.z] == [true]
    ensures Holding(s, V, p.y)
  {
    FixedOne(true);
    hide NewFixed;
  }

  lemma {:induction false} SettledIn(steps: seq<Step>, p: Step, s: Store)
    requires AllSettled(steps, s) && p in steps
    ensures Settled(p, s)
  {
    hide Settled;
  }

  lemma {:induction false} HoldsIn(steps: seq<Step>, p: Step, V: Values)
    requires AllHold(steps, V) && p in steps
    ensures Holds(p, V)
  {
    hide Holds;
  }

  /** A step of the list. */
  lemma {:induction false} ForwardIn(steps: seq<Step>, p: Step, s: Store, V: Values)
    requires AllSettled(steps, s) && AllHold(steps, V) && p in steps && |V| == |s| && Holding(s, V, p.x)
    requires !p.StepNot? && !p.StepSll? && !p.StepSlice? ==> Holding(s, V, p.y)
    requires p.StepCond? ==> Holding(s, V, p.c)
    ensures Holding(s, V, p.z) && (p.StepAddCarry? ==> Holding(s, V, p.c))
  {
    hide Settled, Holds, Holding, AllSettled, AllHold;
    SettledIn(steps, p, s);
    HoldsIn(steps, p, V);
    Forward(p, s, V);
  }
}
