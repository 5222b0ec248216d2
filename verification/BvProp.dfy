/** The composed propagators for +, <, * and division (src/bzlabvprop.c:2224-3151,
    3411-4161), run by one loop that repeats a list of decomposition steps to a fixpoint. */
module BvProp {
  import opened Arith
  import opened BvDomain
  import opened BvPropBasic
  import opened BvNat
  import opened BvPropBest
  import opened BvPropCond
  import opened BvCarry
  import opened BvPropSteps

  /** Every solution of the step in `s` is still there. */
  ghost predicate StepSolid(p: Step, s: Store, ok: bool, r: Store) {
    forall V: Values :: InStore(s, V) && Holds(p, V) ==> ok && InStore(r, V)
  }

  ghost predicate RunSolid(steps: seq<Step>, s: Store, ok: bool, r: Store) {
    forall V: Values :: InStore(s, V) && AllHold(steps, V) ==> ok && InStore(r, V)
  }

  /** `decomp_step`: one propagator on the cells that the step names. */
  method DecompStep(p: Step, s: Store) returns (ok: bool, r: Store)
    requires ValidStore(s) && Fits(p, s)
    ensures ok ==> NarrowsStore(r, s) && ValidStore(r)
    ensures StepSolid(p, s, ok, r)
    ensures IsBasic(p) ==> FitsBasic(p, s) && (ok, r) == Apply(p, s)
    ensures ok ==> Settled(p, r)
    decreases Rank(p), 1
  {
    hide Valid, Narrows, InStore, Apply, Holds, Member, Settled;
    if IsBasic(p) {
      ApplyKeeps(p, s);
      if Apply(p, s).0 { ApplySettled(p, s); }
      forall V: Values | InStore(s, V) && Holds(p, V)
        ensures Apply(p, s).0 && InStore(Apply(p, s).1, V)
      {
        ApplySound(p, s, V);
      }
      var a := Apply(p, s);
      ok, r := a.0, a.1;
    } else if p.StepCond? {
      ok, r := CondOnStore(p, s);
    } else if p.StepUlt? {
      ok, r := UltOnStore(p, s);
    } else {
      ok, r := AddOnStore(p, s);
    }
  }

  method CondOnStore(p: Step, s: Store) returns (ok: bool, r: Store)
    requires ValidStore(s) && Fits(p, s) && p.StepCond?
    ensures ok ==> NarrowsStore(r, s) && ValidStore(r)
    ensures StepSolid(p, s, ok, r)
    ensures ok ==> Settled(p, r)
  {
    hide Valid, Narrows, Member, InStore, NarrowsStore, CondSolution, Settled, Fixed, Best;
    var x, y, z, c := p.x, p.y, p.z, p.c;
    var rx, ry, rz, rc;
    ValidCells(s);
    ok, rx, ry, rz, rc := PropCond(s[x], s[y], s[z], s[c]);
    r := Put3(s, x, y, z, Three(ok, rx, ry, rz))[c := rc];
    if ok {
      CondKeeps(p, s, rx, ry, rz, rc);
      NarrowsSize(rc, s[c]);
      CondSettled(p, s, r, Three(ok, rx, ry, rz), rc);
    }
    forall V: Values | InStore(s, V) && Holds(p, V)
      ensures ok && InStore(r, V)
    {
      CondValues(p, s, V);
      assert CondSolution(s[x], s[y], s[z], s[c], V[x], V[y], V[c]);
      CondBack(p, s, V, rx, ry, rz, rc);
    }
  }

  lemma {:induction false} CondSettled(p: Step, s: Store, r: Store, t: Three, rc: Domain)
    requires Fits(p, s) && p.StepCond? && r == Put3(s, p.x, p.y, p.z, t)[p.c := rc] && NarrowsStore(r, s)
    requires |rc| == 1 && (Fixed(rc) ==> t.z == if rc[0].lo then t.x else t.y)
    ensures Settled(p, r)
  {
    FitsNarrow(p, r, s);
    hide Fixed, Narrows;
    CellsPut(s, p.x, p.y, p.z, t);
  }

  lemma {:induction false} ValidCells(s: Store)
    requires ValidStore(s)
    ensures forall i :: 0 <= i < |s| ==> Valid(s[i])
  {
  }

  lemma {:induction false} CondKeeps(p: Step, s: Store, rx: Domain, ry: Domain, rz: Domain, rc: Domain)
    requires ValidStore(s) && Fits(p, s) && p.StepCond?
    requires Narrows(rx, s[p.x]) && Narrows(ry, s[p.y]) && Narrows(rz, s[p.z]) && Narrows(rc, s[p.c])
    requires Valid(rx) && Valid(ry) && Valid(rz) && Valid(rc)
    ensures var r := Put3(s, p.x, p.y, p.z, Three(true, rx, ry, rz))[p.c := rc];
            NarrowsStore(r, s) && ValidStore(r)
  {
    hide Valid, Narrows;
    var t := Put3(s, p.x, p.y, p.z, Three(true, rx, ry, rz));
    Put3Keeps(s, p.x, p.y, p.z, Three(true, rx, ry, rz));
    PutOne(t, p.c, rc);
    NarrowsStoreTrans(t[p.c := rc], t, s);
  }

  lemma {:induction false} CondValues(p: Step, s: Store, V: Values)
    requires Fits(p, s) && p.StepCond? && InStore(s, V) && Holds(p, V)
    ensures |V| == |s| && CondSolution(s[p.x], s[p.y], s[p.z], s[p.c], V[p.x], V[p.y], V[p.c])
  {
  }

  lemma {:induction false} CondBack(p: Step, s: Store, V: Values, rx: Domain, ry: Domain, rz: Domain, rc: Domain)
    requires Fits(p, s) && p.StepCond? && InStore(s, V) && Holds(p, V)
    requires CondSolution(rx, ry, rz, rc, V[p.x], V[p.y], V[p.c])
    ensures InStore(Put3(s, p.x, p.y, p.z, Three(true, rx, ry, rz))[p.c := rc], V)
    ensures InStore(Put3(s, p.x, p.y, p.z, Three(false, rx, ry, rz))[p.c := rc], V)
  {
    hide Member;
    Put3Has(s, V, p.x, p.y, p.z, Three(true, rx, ry, rz));
    PutMember(Put3(s, p.x, p.y, p.z, Three(true, rx, ry, rz)), V, p.c, rc);
  }

  // ---------------------------------------------------------------- the fixpoint loop

  /** No basic step of the list changes the store. */
  ghost predicate Stable(steps: seq<Step>, n: nat, s: Store) {
    forall k :: 0 <= k < n && k < |steps| && IsBasic(steps[k]) ==>
      FitsBasic(steps[k], s) && Apply(steps[k], s) == (true, s)
  }

  /** In the store `r` below `s` no step finds out anything more. */
  ghost predicate AtRest(steps: seq<Step>, s: Store, r: Store) {
    NarrowsStore(r, s) && ValidStore(r) && Stable(steps, |steps|, r) && AllSettled(steps, r)
  }

  ghost predicate AllRank(steps: seq<Step>, rank: nat) {
    forall k :: 0 <= k < |steps| ==> Rank(steps[k]) <= rank
  }

  /** The do-while loop of the composed propagators. */
  method Run(steps: seq<Step>, s: Store, rank: nat) returns (ok: bool, r: Store)
    requires ValidStore(s) && AllFit(steps, s) && AllRank(steps, rank)
    ensures NarrowsStore(r, s) && ValidStore(r)
    ensures RunSolid(steps, s, ok, r)
    ensures ok ==> Stable(steps, |steps|, r) && AllSettled(steps, r)
    decreases rank, 2
  {
    hide NarrowsStore, ValidStore, RunSolid, StepSolid, Stable, Apply, Fits, AllFit, InStore, Holds;
    hide Settled, AllSettled, SettledSoFar;
    r := s;
    var progress := true;
    NarrowsStoreSelf(s);
    RunSelf(steps, s);
    StableNone(steps, s);
    while progress
      invariant NarrowsStore(r, s) && ValidStore(r) && RunSolid(steps, s, true, r)
      invariant !progress ==> Stable(steps, |steps|, r) && SettledSoFar(steps, |steps|, r)
      decreases UnfixedStore(r), if progress then 1 else 0
    {
      progress := false;
      ghost var r0 := r;
      NarrowsStoreSelf(r0);
      StableNone(steps, r);
      for k := 0 to |steps|
        invariant NarrowsStore(r, r0) && NarrowsStore(r, s) && ValidStore(r) && RunSolid(steps, s, true, r)
        invariant progress ==> UnfixedStore(r) < UnfixedStore(r0)
        invariant !progress ==> r == r0 && Stable(steps, k, r) && SettledSoFar(steps, k, r)
      {
        AllFitNarrow(steps, r, s);
        StepFits(steps, r, k);
        var t;
        ok, t := DecompStep(steps[k], r);
        RunStep(steps, k, s, r, ok, t);
        if !ok { return; }
        StoreLess(t, r);
        NarrowsStoreTrans(t, r, r0);
        NarrowsStoreTrans(t, r, s);
        if !progress {
          StableMore(steps, k, r, ok, t);
          if t == r { SettledMore(steps, k, r); }
        }
        if t != r { progress := true; }
        r := t;
      }
    }
    ok := true;
    SettledAll(steps, r);
  }

  ghost predicate SettledSoFar(steps: seq<Step>, n: nat, s: Store) {
    forall k :: 0 <= k < n && k < |steps| ==> Settled(steps[k], s)
  }

  lemma {:induction false} SettledMore(steps: seq<Step>, k: nat, s: Store)
    requires k < |steps| && SettledSoFar(steps, k, s) && Settled(steps[k], s)
    ensures SettledSoFar(steps, k + 1, s)
  {
    hide Settled;
  }

  lemma {:induction false} SettledAll(steps: seq<Step>, s: Store)
    requires SettledSoFar(steps, |steps|, s)
    ensures AllSettled(steps, s)
  {
    hide Settled;
  }

  lemma {:induction false} RunSelf(steps: seq<Step>, s: Store)
    ensures RunSolid(steps, s, true, s)
  {
  }

  lemma {:induction false} StableNone(steps: seq<Step>, s: Store)
    ensures Stable(steps, 0, s) && SettledSoFar(steps, 0, s)
  {
  }

  lemma {:induction false} StepFits(steps: seq<Step>, s: Store, k: nat)
    requires AllFit(steps, s) && k < |steps|
    ensures Fits(steps[k], s)
  {
  }

  lemma {:induction false} RunStep(steps: seq<Step>, k: nat, s: Store, r: Store, ok: bool, t: Store)
    requires k < |steps| && RunSolid(steps, s, true, r) && StepSolid(steps[k], r, ok, t)
    ensures RunSolid(steps, s, ok, t)
    ensures !ok ==> RunSolid(steps, s, ok, r)
  {
    hide InStore, Holds;
    forall V: Values | InStore(s, V) && AllHold(steps, V)
      ensures ok && InStore(t, V)
    {
      assert InStore(r, V) && Holds(steps[k], V);
    }
  }

  lemma {:induction false} StableMore(steps: seq<Step>, k: nat, r: Store, ok: bool, t: Store)
    requires k < |steps| && Stable(steps, k, r) && ok
    requires IsBasic(steps[k]) ==> FitsBasic(steps[k], r) && (ok, t) == Apply(steps[k], r)
    ensures t == r ==> Stable(steps, k + 1, r)
  {
    hide Apply;
  }

  // ---------------------------------------------------------------- addition

  ghost predicate AddSolution(dx: Domain, dy: Domain, dz: Domain, dc: Domain, x: Bits, y: Bits, z: Bits, c: Bits) {
    && Member(dx, x) && Member(dy, y) && Member(dz, z) && Member(dc, c)
    && IsSum(x, y, z) && c == CarryBits(x, y)
  }

  /** x, y, z, cin, cout, x ^ y, x & y, cin & (x ^ y) */
  function AddStore(dx: Domain, dy: Domain, dz: Domain, dc: Domain): Store
    requires |dx| > 0
  {
    var w := |dx|;
    [dx, dy, dz, NewInit(w)[0 := ZERO], dc, NewInit(w), NewInit(w), NewInit(w)]
  }

  function AddSteps(): seq<Step> {
    [StepXor(0, 1, 5), StepXor(5, 3, 2), StepAnd(0, 1, 6), StepAnd(3, 5, 7), StepOr(6, 7, 4), StepSll(4, 3, 1)]
  }

  ghost function AddValues(x: Bits, y: Bits): Values
    requires |x| == |y|
  {
    [x, y, AddBits(x, y), CinBits(x, y), CarryBits(x, y), XorBits(x, y), AndBits(x, y),
     AndBits(CinBits(x, y), XorBits(x, y))]
  }

  lemma {:induction false} AddStart(dx: Domain, dy: Domain, dz: Domain, dc: Domain)
    requires |dx| == |dy| == |dz| == |dc| > 0 && Valid(dx) && Valid(dy) && Valid(dz) && Valid(dc)
    ensures var s := AddStore(dx, dy, dz, dc); ValidStore(s) && AllFit(AddSteps(), s) && AllRank(AddSteps(), 0)
  {
  }

  lemma {:induction false} AddIn(dx: Domain, dy: Domain, dz: Domain, dc: Domain, x: Bits, y: Bits, z: Bits, c: Bits)
    requires |dx| == |dy| == |dz| == |dc| > 0 && AddSolution(dx, dy, dz, dc, x, y, z, c)
    ensures InStore(AddStore(dx, dy, dz, dc), AddValues(x, y)) && AllHold(AddSteps(), AddValues(x, y))
    ensures z == AddBits(x, y)
  {
    SumIsAdd(x, y, z);
    FullAdder(x, y);
    var w, s, V := |dx|, AddStore(dx, dy, dz, dc), AddValues(x, y);
    hide AndBits, OrBits, XorBits, CinBits, CarryBits, IsSum, AddBits;
    MemberInit(w, V[5]);
    MemberInit(w, V[6]);
    MemberInit(w, V[7]);
    CarryInZero(x, y, w);
    assert V[2] == XorBits(V[5], V[3]) by { AddBitsIs(x, y); }
  }

  lemma {:induction false} CarryInZero(x: Bits, y: Bits, w: nat)
    requires |x| == |y| == w > 0
    ensures Member(NewInit(w)[0 := ZERO], CinBits(x, y))
  {
  }

  lemma {:induction false} AddBitsIs(x: Bits, y: Bits)
    requires |x| == |y|
    ensures AddBits(x, y) == XorBits(XorBits(x, y), CinBits(x, y))
  {
  }

  /** At least two of the operands and the sum are fixed. */
  ghost predicate TwoFixed(x: Domain, y: Domain, z: Domain) {
    (Fixed(x) && Fixed(y)) || (Fixed(x) && Fixed(z)) || (Fixed(y) && Fixed(z))
  }

  /** At a fixpoint with two of them fixed every carry, and so every bit of the third, is fixed. */
  lemma {:induction false} CarriesFixed(s: Store, w: nat, i: nat)
    requires AddStable(s, w) && TwoFixed(s[0], s[1], s[2]) && i < w
    ensures s[0][i].lo == s[0][i].hi && s[1][i].lo == s[1][i].hi
    ensures s[3][i] == FixedBit(CarryIn(Lo(s[0]), Lo(s[1]), i))
    ensures s[2][i] == FixedBit(AddBits(Lo(s[0]), Lo(s[1]))[i])
    ensures s[4][i] == FixedBit(CarryIn(Lo(s[0]), Lo(s[1]), i + 1))
  {
    var x, y := Lo(s[0]), Lo(s[1]);
    if i > 0 {
      CarriesFixed(s, w, i - 1);
    }
    CellFix(s, w, i);
    assert CarryIn(x, y, i + 1) == Maj(x[i], y[i], CarryIn(x, y, i));
  }

  /** The equations of the steps at a fixpoint, for the result cells. */
  ghost predicate AddStable(s: Store, w: nat) {
    && |s| == 8 && (forall k :: 0 <= k < 8 ==> |s[k]| == w) && ValidStore(s)
    && XorStable(s, 0, 1, 5, w) && XorStable(s, 5, 3, 2, w)
    && (forall i :: 0 <= i < w ==> s[6][i] == AndResult(s[0][i], s[1][i], s[6][i]))
    && (forall i :: 0 <= i < w ==> s[7][i] == AndResult(s[3][i], s[5][i], s[7][i]))
    && (forall i :: 0 <= i < w ==> s[4][i] == OrResult(s[6][i], s[7][i], s[4][i]))
    && (forall i :: 0 < i < w ==> s[3][i] == Bit(s[4][i - 1].lo || s[3][i].lo, s[4][i - 1].hi && s[3][i].hi))
    && (w > 0 ==> s[3][0] == ZERO)
  }

  ghost predicate XorStable(s: Store, x: nat, y: nat, z: nat, w: nat) {
    && x < |s| && y < |s| && z < |s| && |s[x]| == |s[y]| == |s[z]| == w
    && forall i :: 0 <= i < w ==>
         && s[x][i] == XorOne(s[x][i], s[y][i], s[z][i]) && s[y][i] == XorOne(s[y][i], s[x][i], s[z][i])
         && s[z][i] == XorOne(s[z][i], s[x][i], s[y][i])
  }

  lemma {:induction false} CellFix(s: Store, w: nat, i: nat)
    requires AddStable(s, w) && TwoFixed(s[0], s[1], s[2]) && i < w
    requires i > 0 ==> s[4][i - 1] == FixedBit(CarryIn(Lo(s[0]), Lo(s[1]), i))
    ensures var x, y := Lo(s[0]), Lo(s[1]); var c := CarryIn(x, y, i);
            && s[0][i].lo == s[0][i].hi && s[1][i].lo == s[1][i].hi
            && s[3][i] == FixedBit(c) && s[2][i] == FixedBit((x[i] != y[i]) != c)
            && s[4][i] == FixedBit(Maj(x[i], y[i], c))
  {
    assert Valid(s[0]) && Valid(s[1]);
    assert Valid(s[2]) && Valid(s[3]) && Valid(s[4]) && Valid(s[5]) && Valid(s[6]) && Valid(s[7]);
  }

  lemma {:induction false} StableStart(s: Store, dx: Domain, dy: Domain, dz: Domain, dc: Domain)
    requires |dx| == |dy| == |dz| == |dc| > 0 && NarrowsStore(s, AddStore(dx, dy, dz, dc)) && ValidStore(s)
    ensures |s| == 8 && (forall k :: 0 <= k < 8 ==> |s[k]| == |dx|) && s[3][0] == ZERO
  {
    var s0 := AddStore(dx, dy, dz, dc);
    assert forall k :: 0 <= k < 8 ==> |s[k]| == |s0[k]| == |dx|;
    assert NarrowsBit(s[3][0], s0[3][0]) && Valid(s[3]);
  }

  lemma {:induction false} StableAdd(s: Store, dx: Domain, dy: Domain, dz: Domain, dc: Domain)
    requires |dx| == |dy| == |dz| == |dc| > 0 && NarrowsStore(s, AddStore(dx, dy, dz, dc)) && ValidStore(s)
    requires Stable(AddSteps(), 6, s)
    ensures AddStable(s, |dx|)
  {
    hide Apply, Stable, FitsBasic, IsBasic, NarrowsStore, Narrows, Valid, ValidStore, XorStable, AndResult;
    hide OrResult, AddStore;
    var w, steps := |dx|, AddSteps();
    StableStart(s, dx, dy, dz, dc);
    StableStep(s);
    StepXorStable(s, 0, 1, 5, w, steps[0]);
    StepXorStable(s, 5, 3, 2, w, steps[1]);
    StepAndStable(s, 0, 1, 6, w, steps[2]);
    StepAndStable(s, 3, 5, 7, w, steps[3]);
    StepOrStable(s, 6, 7, 4, w, steps[4]);
    StepSllStable(s, 4, 3, w, steps[5]);
  }

  lemma {:induction false} StableStep(s: Store)
    requires Stable(AddSteps(), 6, s)
    ensures |AddSteps()| == 6 && forall k :: 0 <= k < 6 ==> Apply(AddSteps()[k], s) == (true, s)
  {
    hide Apply, FitsBasic;
  }

  lemma {:induction false} FixedNarrow(d: Domain, e: Domain)
    requires Narrows(d, e) && Valid(d) && Fixed(e)
    ensures d == e
  {
    forall i | 0 <= i < |d|
      ensures d[i] == e[i]
    {
      assert NarrowsBit(d[i], e[i]);
    }
  }

  lemma {:induction false} StepXorStable(s: Store, x: nat, y: nat, z: nat, w: nat, p: Step)
    requires p == StepXor(x, y, z) && x < |s| && y < |s| && z < |s| && Distinct3(x, y, z)
    requires |s[x]| == |s[y]| == |s[z]| == w
    requires Apply(p, s) == (true, s)
    ensures XorStable(s, x, y, z, w)
  {
    var r := PropXor(s[x], s[y], s[z]);
    CellsPut(s, x, y, z, r);
    hide Put3;
    assert r.x == s[x] && r.y == s[y] && r.z == s[z];
  }

  lemma {:induction false} StepAndStable(s: Store, x: nat, y: nat, z: nat, w: nat, p: Step)
    requires p == StepAnd(x, y, z) && x < |s| && y < |s| && z < |s| && Distinct3(x, y, z)
    requires |s[x]| == |s[y]| == |s[z]| == w
    requires Apply(p, s) == (true, s)
    ensures forall i :: 0 <= i < w ==> s[z][i] == AndResult(s[x][i], s[y][i], s[z][i])
  {
    assert Put3(s, x, y, z, PropAnd(s[x], s[y], s[z]))[z] == PropAnd(s[x], s[y], s[z]).z;
  }

  lemma {:induction false} StepOrStable(s: Store, x: nat, y: nat, z: nat, w: nat, p: Step)
    requires p == StepOr(x, y, z) && x < |s| && y < |s| && z < |s| && Distinct3(x, y, z)
    requires |s[x]| == |s[y]| == |s[z]| == w
    requires Apply(p, s) == (true, s)
    ensures forall i :: 0 <= i < w ==> s[z][i] == OrResult(s[x][i], s[y][i], s[z][i])
  {
    assert Put3(s, x, y, z, PropOr(s[x], s[y], s[z]))[z] == PropOr(s[x], s[y], s[z]).z;
  }

  lemma {:induction false} StepSllStable(s: Store, x: nat, z: nat, w: nat, p: Step)
    requires p == StepSll(x, z, 1) && x < |s| && z < |s| && x != z && |s[x]| == |s[z]| == w
    requires Apply(p, s) == (true, s)
    ensures forall i :: 0 < i < w ==> s[z][i] == Bit(s[x][i - 1].lo || s[z][i].lo, s[x][i - 1].hi && s[z][i].hi)
  {
    assert Put2(s, x, z, PropSll(s[x], s[z], 1))[z] == PropSll(s[x], s[z], 1).z;
  }

  ghost predicate AddSound(dx: Domain, dy: Domain, dz: Domain, dc: Domain, ok: bool, rx: Domain, ry: Domain,
        rz: Domain, rc: Domain) {
    forall x: Bits, y: Bits, z: Bits, c: Bits {:trigger AddSolution(dx, dy, dz, dc, x, y, z, c)} ::
      AddSolution(dx, dy, dz, dc, x, y, z, c) ==> ok && AddSolution(rx, ry, rz, rc, x, y, z, c)
  }

  /** `bvprop_add_aux` without the overflow constraint; `dc` is the domain of the carries. */
  method PropAddCarry(dx: Domain, dy: Domain, dz: Domain, dc: Domain)
    returns (ok: bool, rx: Domain, ry: Domain, rz: Domain, rc: Domain)
    requires |dx| == |dy| == |dz| == |dc| > 0 && Valid(dx) && Valid(dy) && Valid(dz) && Valid(dc)
    ensures Narrows(rx, dx) && Narrows(ry, dy) && Narrows(rz, dz) && Narrows(rc, dc)
    ensures Valid(rx) && Valid(ry) && Valid(rz) && Valid(rc)
    ensures AddSound(dx, dy, dz, dc, ok, rx, ry, rz, rc)
    ensures ok && TwoFixed(rx, ry, rz) ==>
              && Fixed(rx) && Fixed(ry)
              && rz == NewFixed(AddBits(Lo(rx), Lo(ry))) && rc == NewFixed(CarryBits(Lo(rx), Lo(ry)))
    ensures Fixed(dx) && Fixed(dy) ==> rx == dx && ry == dy
    decreases 1, 0, 0
  {
    hide Valid, Narrows, NarrowsStore, InStore, RunSolid, Stable, AddSteps, Member, AddStable, AllFit, AllRank;
    hide AddBits, CarryBits, Fixed, Lo, NewFixed;
    var s := AddStore(dx, dy, dz, dc);
    AddStart(dx, dy, dz, dc);
    var r;
    ok, r := Run(AddSteps(), s, 0);
    AddCells(s, r, dx, dy, dz, dc);
    rx, ry, rz, rc := r[0], r[1], r[2], r[4];
    forall x: Bits, y: Bits, z: Bits, c: Bits | AddSolution(dx, dy, dz, dc, x, y, z, c)
      ensures ok && AddSolution(rx, ry, rz, rc, x, y, z, c)
    {
      AddIn(dx, dy, dz, dc, x, y, z, c);
      RunOf(AddSteps(), s, ok, r, AddValues(x, y));
      AddOut(r, x, y);
    }
    if ok && TwoFixed(rx, ry, rz) {
      AddStepCount();
      StableAdd(r, dx, dy, dz, dc);
      AddFixed(r, |dx|);
    }
    if Fixed(dx) && Fixed(dy) {
      FixedNarrow(rx, dx);
      FixedNarrow(ry, dy);
    }
  }

  lemma {:induction false} AddStepCount()
    ensures |AddSteps()| == 6
  {
  }

  lemma {:induction false} RunOf(steps: seq<Step>, s: Store, ok: bool, r: Store, V: Values)
    requires RunSolid(steps, s, ok, r) && InStore(s, V) && AllHold(steps, V)
    ensures ok && InStore(r, V)
  {
  }

  lemma {:induction false} AddCells(s: Store, r: Store, dx: Domain, dy: Domain, dz: Domain, dc: Domain)
    requires |dx| > 0 && s == AddStore(dx, dy, dz, dc) && NarrowsStore(r, s) && ValidStore(r)
    ensures |r| == 8 && Narrows(r[0], dx) && Narrows(r[1], dy) && Narrows(r[2], dz) && Narrows(r[4], dc)
    ensures Valid(r[0]) && Valid(r[1]) && Valid(r[2]) && Valid(r[4])
  {
    assert Narrows(r[0], s[0]) && Narrows(r[1], s[1]) && Narrows(r[2], s[2]) && Narrows(r[4], s[4]);
  }

  lemma {:induction false} AddOut(r: Store, x: Bits, y: Bits)
    requires |x| == |y| && |r| == 8 && InStore(r, AddValues(x, y))
    ensures Member(r[0], x) && Member(r[1], y) && Member(r[2], AddBits(x, y)) && Member(r[4], CarryBits(x, y))
  {
    hide Member;
    var V := AddValues(x, y);
    assert Member(r[0], V[0]) && Member(r[1], V[1]) && Member(r[2], V[2]) && Member(r[4], V[4]);
  }

  lemma {:induction false} AddFixed(r: Store, w: nat)
    requires AddStable(r, w) && TwoFixed(r[0], r[1], r[2])
    ensures Fixed(r[0]) && Fixed(r[1])
    ensures r[2] == NewFixed(AddBits(Lo(r[0]), Lo(r[1]))) && r[4] == NewFixed(CarryBits(Lo(r[0]), Lo(r[1])))
  {
    hide AddBits, CarryIn;
    forall i | 0 <= i < w
      ensures r[0][i].lo == r[0][i].hi && r[1][i].lo == r[1][i].hi
      ensures r[2][i] == FixedBit(AddBits(Lo(r[0]), Lo(r[1]))[i])
      ensures r[4][i] == FixedBit(CarryIn(Lo(r[0]), Lo(r[1]), i + 1))
    {
      CarriesFixed(r, w, i);
    }
  }

  /** A domain that allows exactly the sums: `x`, `y` and `z` with `z == x + y` modulo 2^w. */
  ghost predicate SumSolution(dx: Domain, dy: Domain, dz: Domain, x: Bits, y: Bits, z: Bits) {
    Member(dx, x) && Member(dy, y) && Member(dz, z) && IsSum(x, y, z)
  }

  /** `bzla_bvprop_add` */
  method PropAdd(dx: Domain, dy: Domain, dz: Domain) returns (ok: bool, rx: Domain, ry: Domain, rz: Domain)
    requires |dx| == |dy| == |dz| > 0 && Valid(dx) && Valid(dy) && Valid(dz)
    ensures Narrows(rx, dx) && Narrows(ry, dy) && Narrows(rz, dz) && Valid(rx) && Valid(ry) && Valid(rz)
    ensures forall x: Bits, y: Bits, z: Bits {:trigger SumSolution(dx, dy, dz, x, y, z)} ::
              SumSolution(dx, dy, dz, x, y, z) ==> ok && SumSolution(rx, ry, rz, x, y, z)
    ensures ok && TwoFixed(rx, ry, rz) ==> Fixed(rx) && Fixed(ry) && rz == NewFixed(AddBits(Lo(rx), Lo(ry)))
    ensures Fixed(dx) && Fixed(dy) ==> Decides(ok, dz, rz, AddBits(Lo(dx), Lo(dy)))
    decreases 1, 0, 1
  {
    hide Valid, Narrows, AddBits, IsSum, Fixed, CarryBits, Decides, Lo, NewFixed;
    var w := |dx|;
    var rc;
    InitValid(w);
    ok, rx, ry, rz, rc := PropAddCarry(dx, dy, dz, NewInit(w));
    forall x: Bits, y: Bits, z: Bits | SumSolution(dx, dy, dz, x, y, z)
      ensures ok && SumSolution(rx, ry, rz, x, y, z)
    {
      SumCarry(dx, dy, dz, x, y, z);
    }
    if Fixed(dx) && Fixed(dy) {
      if Member(dz, AddBits(Lo(dx), Lo(dy))) { SumFixed(dx, dy, dz); }
      Decided(ok, dz, rz, AddBits(Lo(dx), Lo(dy)));
    }
  }

  lemma {:induction false} SumFixed(dx: Domain, dy: Domain, dz: Domain)
    requires |dx| == |dy| == |dz| && Valid(dx) && Valid(dy) && Member(dz, AddBits(Lo(dx), Lo(dy)))
    ensures SumSolution(dx, dy, dz, Lo(dx), Lo(dy), AddBits(Lo(dx), Lo(dy)))
  {
    LoMember(dx);
    LoMember(dy);
    SumIsAdd(Lo(dx), Lo(dy), AddBits(Lo(dx), Lo(dy)));
  }

  /** On fixed operands the answer is right, and the result domain holds just the value. */
  ghost predicate Decides(ok: bool, dz: Domain, rz: Domain, v: Bits) {
    (ok <==> Member(dz, v)) && (ok ==> rz == NewFixed(v))
  }

  lemma {:induction false} Decided(ok: bool, dz: Domain, rz: Domain, v: Bits)
    requires Narrows(rz, dz) && (ok ==> rz == NewFixed(v)) && (Member(dz, v) ==> ok)
    ensures Decides(ok, dz, rz, v)
  {
    if ok {
      MemberNewFixed(v);
      MemberWider(rz, dz, v);
    }
  }

  lemma {:induction false} InitValid(w: nat)
    ensures Valid(NewInit(w))
  {
  }

  lemma {:induction false} SumCarry(dx: Domain, dy: Domain, dz: Domain, x: Bits, y: Bits, z: Bits)
    requires SumSolution(dx, dy, dz, x, y, z)
    ensures AddSolution(dx, dy, dz, NewInit(|dx|), x, y, z, CarryBits(x, y))
  {
    MemberInit(|dx|, CarryBits(x, y));
  }

  method AddOnStore(p: Step, s: Store) returns (ok: bool, r: Store)
    requires ValidStore(s) && Fits(p, s) && (p.StepAdd? || p.StepAddCarry?)
    ensures ok ==> NarrowsStore(r, s) && ValidStore(r)
    ensures StepSolid(p, s, ok, r)
    ensures ok ==> Settled(p, r)
    decreases 1, 0, 2
  {
    hide Valid, Narrows, Member, InStore, NarrowsStore, AddSolution, SumSolution, IsSum, Settled, Fixed, Lo, NewFixed;
    hide AddBits, CarryBits, Decides;
    var x, y, z := p.x, p.y, p.z;
    ValidCells(s);
    if p.StepAdd? {
      var rx, ry, rz;
      ok, rx, ry, rz := PropAdd(s[x], s[y], s[z]);
      var t := Three(ok, rx, ry, rz);
      r := Put3(s, x, y, z, t);
      if ok {
        Put3Keeps(s, x, y, z, t);
        NarrowsSize(rx, s[x]);
        NarrowsSize(ry, s[y]);
        SumSettled(p, s, r, t);
      }
      forall V: Values | InStore(s, V) && Holds(p, V)
        ensures ok && InStore(r, V)
      {
        SumValues(p, s, V);
        SumBack(p, s, V, t);
      }
    } else {
      var rx, ry, rz, rc;
      ok, rx, ry, rz, rc := PropAddCarry(s[x], s[y], s[z], s[p.c]);
      var t := Three(ok, rx, ry, rz);
      r := Put3(s, x, y, z, t)[p.c := rc];
      if ok {
        CarryKeeps(p, s, t, rc);
        NarrowsSize(rx, s[x]);
        NarrowsSize(ry, s[y]);
        CarrySettled(p, s, r, t, rc);
      }
      forall V: Values | InStore(s, V) && Holds(p, V)
        ensures ok && InStore(r, V)
      {
        CarryValues(p, s, V);
        CarryBack(p, s, V, t, rc);
      }
    }
  }

  lemma {:induction false} SumSettled(p: Step, s: Store, r: Store, t: Three)
    requires Fits(p, s) && p.StepAdd? && r == Put3(s, p.x, p.y, p.z, t) && NarrowsStore(r, s) && |t.x| == |t.y|
    requires Fixed(t.x) && Fixed(t.y) ==> t.z == NewFixed(AddBits(Lo(t.x), Lo(t.y)))
    ensures Settled(p, r)
  {
    FitsNarrow(p, r, s);
    hide Fixed, Narrows, Lo, NewFixed, AddBits;
    CellsPut(s, p.x, p.y, p.z, t);
  }

  lemma {:induction false} CarrySettled(p: Step, s: Store, r: Store, t: Three, rc: Domain)
    requires Fits(p, s) && p.StepAddCarry? && r == Put3(s, p.x, p.y, p.z, t)[p.c := rc] && NarrowsStore(r, s)
    requires |t.x| == |t.y|
    requires Fixed(t.x) && Fixed(t.y) ==>
               t.z == NewFixed(AddBits(Lo(t.x), Lo(t.y))) && rc == NewFixed(CarryBits(Lo(t.x), Lo(t.y)))
    ensures Settled(p, r)
  {
    FitsNarrow(p, r, s);
    hide Fixed, Narrows, Lo, NewFixed, AddBits, CarryBits;
    CellsPut(s, p.x, p.y, p.z, t);
  }

  lemma {:induction false} SumValues(p: Step, s: Store, V: Values)
    requires Fits(p, s) && p.StepAdd? && InStore(s, V) && Holds(p, V)
    ensures |V| == |s| && SumSolution(s[p.x], s[p.y], s[p.z], V[p.x], V[p.y], V[p.z])
  {
  }

  lemma {:induction false} SumBack(p: Step, s: Store, V: Values, t: Three)
    requires Fits(p, s) && p.StepAdd? && InStore(s, V) && t.ok && |V| == |s|
    requires SumSolution(t.x, t.y, t.z, V[p.x], V[p.y], V[p.z])
    ensures InStore(Put3(s, p.x, p.y, p.z, t), V)
  {
    hide Member;
    Put3Has(s, V, p.x, p.y, p.z, t);
  }

  lemma {:induction false} CarryKeeps(p: Step, s: Store, t: Three, rc: Domain)
    requires ValidStore(s) && Fits(p, s) && p.StepAddCarry? && t.ok
    requires Keeps3(t, s[p.x], s[p.y], s[p.z]) && Narrows(rc, s[p.c]) && Valid(rc)
    ensures var r := Put3(s, p.x, p.y, p.z, t)[p.c := rc];
            NarrowsStore(r, s) && ValidStore(r)
  {
    hide Valid, Narrows;
    var u := Put3(s, p.x, p.y, p.z, t);
    Put3Keeps(s, p.x, p.y, p.z, t);
    PutOne(u, p.c, rc);
    NarrowsStoreTrans(u[p.c := rc], u, s);
  }

  lemma {:induction false} CarryValues(p: Step, s: Store, V: Values)
    requires Fits(p, s) && p.StepAddCarry? && InStore(s, V) && Holds(p, V)
    ensures |V| == |s| && AddSolution(s[p.x], s[p.y], s[p.z], s[p.c], V[p.x], V[p.y], V[p.z], V[p.c])
  {
  }

  lemma {:induction false} CarryBack(p: Step, s: Store, V: Values, t: Three, rc: Domain)
    requires Fits(p, s) && p.StepAddCarry? && InStore(s, V) && t.ok && |V| == |s|
    requires AddSolution(t.x, t.y, t.z, rc, V[p.x], V[p.y], V[p.z], V[p.c])
    ensures InStore(Put3(s, p.x, p.y, p.z, t)[p.c := rc], V)
  {
    hide Member;
    Put3Has(s, V, p.x, p.y, p.z, t);
    PutMember(Put3(s, p.x, p.y, p.z, t), V, p.c, rc);
  }

  // ---------------------------------------------------------------- unsigned comparison

  /** `x < y` exactly when neither `~y + 1` nor `x + (~y + 1)` carries out of the top. */
  lemma {:induction false} UltMeans(x: Bits, y: Bits)
    requires |x| == |y| > 0
    ensures var neg := AddBits(NotBits(y), OneBits(|x|));
            !(CarryIn(NotBits(y), OneBits(|x|), |x|) || CarryIn(x, neg, |x|)) <==> Nat(x) < Nat(y)
  {
    hide AddBits, CarryIn, NotBits, OneBits;
    var w := |x|;
    NatNot(y);
    NatOne(w);
    NatBound(x);
    NatBound(y);
    AddWhole(NotBits(y), OneBits(w));
    AddWhole(x, AddBits(NotBits(y), OneBits(w)));
    if Nat(y) > 0 {
      DivModUnique(Pow2(w) - Nat(y), Pow2(w), 0, Pow2(w) - Nat(y));
    }
  }

  ghost predicate UltSolution(dx: Domain, dy: Domain, dz: Domain, x: Bits, y: Bits, z: Bits) {
    |x| == |y| && Member(dx, x) && Member(dy, y) && Member(dz, z) && z == [Nat(x) < Nat(y)]
  }

  /** x, y, z, ~y, ~y + 1, x + (~y + 1), the carries of both, their top bits joined,
      the top bits, one */
  function UltStore(dx: Domain, dy: Domain, dz: Domain): Store {
    var w := |dx|;
    [dx, dy, dz, NewInit(w), NewInit(w), NewInit(w), NewInit(w), NewInit(w),
     NewInit(1), NewInit(1), NewInit(1), NewFixed(OneBits(w))]
  }

  function UltSteps(w: nat): seq<Step>
    requires w > 0
  {
    [StepNot(1, 3), StepAddCarry(3, 11, 4, 6), StepAddCarry(0, 4, 5, 7),
     StepSlice(6, 9, w - 1, w - 1), StepSlice(7, 10, w - 1, w - 1), StepOr(9, 10, 8), StepNot(8, 2)]
  }

  ghost function UltValues(x: Bits, y: Bits): Values
    requires |x| == |y| > 0
  {
    var w := |x|;
    var ny, one := NotBits(y), OneBits(w);
    var neg := AddBits(ny, one);
    var c1, c2 := CarryIn(ny, one, w), CarryIn(x, neg, w);
    [x, y, [!(c1 || c2)], ny, neg, AddBits(x, neg), CarryBits(ny, one), CarryBits(x, neg), [c1 || c2], [c1], [c2], one]
  }

  lemma {:induction false} UltStart(dx: Domain, dy: Domain, dz: Domain)
    requires |dx| == |dy| > 0 && |dz| == 1 && Valid(dx) && Valid(dy) && Valid(dz)
    ensures var s, steps := UltStore(dx, dy, dz), UltSteps(|dx|);
            ValidStore(s) && AllFit(steps, s) && AllRank(steps, 1)
  {
    MemberNewFixed(OneBits(|dx|));
    InitValid(|dx|);
    InitValid(1);
    hide Valid, OneBits;
  }

  lemma {:induction false} UltIn(dx: Domain, dy: Domain, dz: Domain, x: Bits, y: Bits, z: Bits)
    requires |dx| == |dy| > 0 && |dz| == 1 && UltSolution(dx, dy, dz, x, y, z)
    ensures z == UltValues(x, y)[2] && InStore(UltStore(dx, dy, dz), UltValues(x, y))
  {
    hide AddBits, CarryBits, CarryIn, NotBits, OneBits, Nat;
    UltMeans(x, y);
    hide Nat, UltSolution;
    UltStoreIn(dx, dy, dz, x, y);
  }

  lemma {:induction false} UltStoreIn(dx: Domain, dy: Domain, dz: Domain, x: Bits, y: Bits)
    requires |dx| == |dy| == |x| == |y| > 0 && |dz| == 1
    requires Member(dx, x) && Member(dy, y) && Member(dz, UltValues(x, y)[2])
    ensures InStore(UltStore(dx, dy, dz), UltValues(x, y))
  {
    hide Member, AddBits, CarryBits, CarryIn, NotBits, OneBits;
    var w, V := |dx|, UltValues(x, y);
    MemberInit(w, V[3]);
    MemberInit(w, V[4]);
    MemberInit(w, V[5]);
    MemberInit(w, V[6]);
    MemberInit(w, V[7]);
    MemberInit(1, V[8]);
    MemberInit(1, V[9]);
    MemberInit(1, V[10]);
    MemberNewFixed(V[11]);
  }

  lemma {:induction false} UltHold(x: Bits, y: Bits)
    requires |x| == |y| > 0
    ensures AllHold(UltSteps(|x|), UltValues(x, y))
  {
    var w, V, steps := |x|, UltValues(x, y), UltSteps(|x|);
    SumIsAdd(V[3], V[11], V[4]);
    SumIsAdd(x, V[4], V[5]);
    TopCarry(V[3], V[11]);
    TopCarry(x, V[4]);
    BitOps(CarryIn(V[3], V[11], w), CarryIn(x, V[4], w));
    hide AddBits, CarryIn, CarryBits, NotBits, OneBits, IsSum, OrBits;
    forall k | 0 <= k < |steps|
      ensures Holds(steps[k], V)
    {
    }
  }

  lemma {:induction false} TopCarry(x: Bits, y: Bits)
    requires |x| == |y| > 0
    ensures CarryBits(x, y)[|x| - 1..|x|] == [CarryIn(x, y, |x|)]
  {
  }

  lemma {:induction false} BitOps(a: bool, b: bool)
    ensures OrBits([a], [b]) == [a || b] && NotBits([a || b]) == [!(a || b)]
  {
  }

  /** The results are cells of a store at rest. */
  ghost predicate UltRest(dx: Domain, dy: Domain, dz: Domain, rx: Domain, ry: Domain, rz: Domain) {
    |dx| > 0 && exists r: Store ::
      AtRest(UltSteps(|dx|), UltStore(dx, dy, dz), r) && |r| == 12 && r[..3] == [rx, ry, rz]
  }

  lemma {:induction false} UltRests(dx: Domain, dy: Domain, dz: Domain, r: Store)
    requires |dx| > 0 && AtRest(UltSteps(|dx|), UltStore(dx, dy, dz), r) && |r| == 12
    ensures UltRest(dx, dy, dz, r[0], r[1], r[2])
  {
    hide AtRest, UltSteps, UltStore;
    assert r[..3] == [r[0], r[1], r[2]];
  }

  ghost predicate UltSound(dx: Domain, dy: Domain, dz: Domain, ok: bool, rx: Domain, ry: Domain, rz: Domain) {
    forall x: Bits, y: Bits, z: Bits {:trigger UltSolution(dx, dy, dz, x, y, z)} ::
      UltSolution(dx, dy, dz, x, y, z) ==> ok && UltSolution(rx, ry, rz, x, y, z)
  }

  /** `bzla_bvprop_ult` */
  method PropUlt(dx: Domain, dy: Domain, dz: Domain) returns (ok: bool, rx: Domain, ry: Domain, rz: Domain)
    requires |dx| == |dy| > 0 && |dz| == 1 && Valid(dx) && Valid(dy) && Valid(dz)
    ensures Narrows(rx, dx) && Narrows(ry, dy) && Narrows(rz, dz) && Valid(rx) && Valid(ry) && Valid(rz)
    ensures UltSound(dx, dy, dz, ok, rx, ry, rz)
    ensures ok ==> UltRest(dx, dy, dz, rx, ry, rz)
    ensures ok && Fixed(rx) && Fixed(ry) ==> rz == [FixedBit(Nat(Lo(rx)) < Nat(Lo(ry)))]
    ensures Fixed(dx) && Fixed(dy) ==> Decides(ok, dz, rz, [Nat(Lo(dx)) < Nat(Lo(dy))])
    decreases 2, 0, 0
  {
    hide Valid, Narrows, NarrowsStore, InStore, RunSolid, Stable, UltSteps, UltStore, UltValues, Member, AllFit;
    hide AllRank, AllHold, AllSettled, Fixed, Lo, NewFixed, Decides, Nat, UltRest;
    var s, w := UltStore(dx, dy, dz), |dx|;
    UltStart(dx, dy, dz);
    var r;
    ok, r := Run(UltSteps(w), s, 1);
    UltCells(s, r, dx, dy, dz);
    rx, ry, rz := r[0], r[1], r[2];
    forall x: Bits, y: Bits, z: Bits | UltSolution(dx, dy, dz, x, y, z)
      ensures ok && UltSolution(rx, ry, rz, x, y, z)
    {
      UltIn(dx, dy, dz, x, y, z);
      MemberSize(dx, x);
      UltHold(x, y);
      RunOf(UltSteps(w), s, ok, r, UltValues(x, y));
      UltOut(r, x, y);
    }
    if ok { UltRests(dx, dy, dz, r); }
    if ok && Fixed(rx) && Fixed(ry) { UltFixed(s, r, dx, dy, dz); }
    if Fixed(dx) && Fixed(dy) {
      FixedNarrow(rx, dx);
      FixedNarrow(ry, dy);
      FixedOne(Nat(Lo(dx)) < Nat(Lo(dy)));
      if Member(dz, [Nat(Lo(dx)) < Nat(Lo(dy))]) { LessFixed(dx, dy, dz); }
      Decided(ok, dz, rz, [Nat(Lo(dx)) < Nat(Lo(dy))]);
    }
  }

  lemma {:induction false} LessFixed(dx: Domain, dy: Domain, dz: Domain)
    requires |dx| == |dy| && Valid(dx) && Valid(dy) && Member(dz, [Nat(Lo(dx)) < Nat(Lo(dy))])
    ensures UltSolution(dx, dy, dz, Lo(dx), Lo(dy), [Nat(Lo(dx)) < Nat(Lo(dy))])
  {
    LoMember(dx);
    LoMember(dy);
  }

  lemma {:induction false} FixedIs(d: Domain)
    requires Valid(d) && Fixed(d)
    ensures d == NewFixed(Lo(d))
  {
  }

  /** At the fixpoint the cells follow from the operands one after the other. */
  lemma {:induction false} UltFixed(s: Store, r: Store, dx: Domain, dy: Domain, dz: Domain)
    requires |dx| == |dy| > 0 && |dz| == 1 && s == UltStore(dx, dy, dz) && NarrowsStore(r, s) && ValidStore(r)
    requires AllSettled(UltSteps(|dx|), r) && |r| == 12 && Fixed(r[0]) && Fixed(r[1])
    ensures |r[0]| == |r[1]| == |dx| && r[2] == [FixedBit(Nat(Lo(r[0])) < Nat(Lo(r[1])))]
  {
    UltWidths(s, r, dx, dy, dz);
    var w, x, y := |dx|, Lo(r[0]), Lo(r[1]);
    var V, steps := UltValues(x, y), UltSteps(w);
    UltHold(x, y);
    FixedIs(r[0]);
    FixedIs(r[1]);
    UltCell(x, y);
    FixedOne(Nat(x) < Nat(y));
    UltListed(w);
    hide UltSteps, UltValues, UltStore, AllSettled, AllHold, Fixed, Lo, NewFixed, Nat, NarrowsStore, ValidStore, Valid;
    assert Holding(r, V, 0) && Holding(r, V, 1) && Holding(r, V, 11);
    hide Holding;
    ForwardIn(steps, StepNot(1, 3), r, V);
    ForwardIn(steps, StepAddCarry(3, 11, 4, 6), r, V);
    ForwardIn(steps, StepAddCarry(0, 4, 5, 7), r, V);
    ForwardIn(steps, StepSlice(6, 9, w - 1, w - 1), r, V);
    ForwardIn(steps, StepSlice(7, 10, w - 1, w - 1), r, V);
    ForwardIn(steps, StepOr(9, 10, 8), r, V);
    ForwardIn(steps, StepNot(8, 2), r, V);
    HoldingIs(r, V, 2);
  }

  lemma {:induction false} HoldingIs(s: Store, V: Values, c: nat)
    requires Holding(s, V, c)
    ensures c < |s| && c < |V| && s[c] == NewFixed(V[c])
  {
  }

  lemma {:induction false} UltListed(w: nat)
    requires w > 0
    ensures var steps := UltSteps(w);
            && StepNot(1, 3) in steps && StepAddCarry(3, 11, 4, 6) in steps && StepAddCarry(0, 4, 5, 7) in steps
            && StepSlice(6, 9, w - 1, w - 1) in steps && StepSlice(7, 10, w - 1, w - 1) in steps
            && StepOr(9, 10, 8) in steps && StepNot(8, 2) in steps
  {
    var steps := UltSteps(w);
    assert steps[0] == StepNot(1, 3) && steps[1] == StepAddCarry(3, 11, 4, 6) && steps[2] == StepAddCarry(0, 4, 5, 7);
    assert steps[3] == StepSlice(6, 9, w - 1, w - 1) && steps[4] == StepSlice(7, 10, w - 1, w - 1);
    assert steps[5] == StepOr(9, 10, 8) && steps[6] == StepNot(8, 2);
  }

  lemma {:induction false} UltWidths(s: Store, r: Store, dx: Domain, dy: Domain, dz: Domain)
    requires |dx| == |dy| > 0 && |dz| == 1 && s == UltStore(dx, dy, dz) && NarrowsStore(r, s) && ValidStore(r)
    ensures |r| == 12 && |r[0]| == |r[1]| == |dx| && Valid(r[0]) && Valid(r[1]) && r[11] == NewFixed(OneBits(|dx|))
  {
    hide Narrows, Valid, NewFixed;
    NarrowsSize(r[0], dx);
    NarrowsSize(r[1], dy);
    FixedLo(OneBits(|dx|));
    FixedNarrow(r[11], s[11]);
  }

  lemma {:induction false} UltCell(x: Bits, y: Bits)
    requires |x| == |y| > 0
    ensures var V := UltValues(x, y);
            |V| == 12 && V[0] == x && V[1] == y && V[11] == OneBits(|x|) && V[2] == [Nat(x) < Nat(y)]
  {
    UltMeans(x, y);
    hide AddBits, CarryBits, CarryIn, NotBits, OneBits, Nat;
  }

  lemma {:induction false} UltCells(s: Store, r: Store, dx: Domain, dy: Domain, dz: Domain)
    requires s == UltStore(dx, dy, dz) && NarrowsStore(r, s) && ValidStore(r)
    ensures |r| == 12 && Narrows(r[0], dx) && Narrows(r[1], dy) && Narrows(r[2], dz)
    ensures Valid(r[0]) && Valid(r[1]) && Valid(r[2])
  {
    assert Narrows(r[0], s[0]) && Narrows(r[1], s[1]) && Narrows(r[2], s[2]);
  }

  lemma {:induction false} UltOut(r: Store, x: Bits, y: Bits)
    requires |x| == |y| > 0 && |r| == 12 && InStore(r, UltValues(x, y))
    ensures Member(r[0], x) && Member(r[1], y) && Member(r[2], UltValues(x, y)[2])
  {
    hide Member;
    var V := UltValues(x, y);
    assert Member(r[0], V[0]) && Member(r[1], V[1]) && Member(r[2], V[2]);
  }

  method UltOnStore(p: Step, s: Store) returns (ok: bool, r: Store)
    requires ValidStore(s) && Fits(p, s) && p.StepUlt?
    ensures ok ==> NarrowsStore(r, s) && ValidStore(r)
    ensures StepSolid(p, s, ok, r)
    ensures ok ==> Settled(p, r)
    decreases 2, 0, 1
  {
    hide Valid, Narrows, Member, InStore, NarrowsStore, UltSolution, Settled, Fixed, Lo, Nat, Decides, UltRest;
    var x, y, z := p.x, p.y, p.z;
    ValidCells(s);
    var rx, ry, rz;
    ok, rx, ry, rz := PropUlt(s[x], s[y], s[z]);
    var t := Three(ok, rx, ry, rz);
    r := Put3(s, x, y, z, t);
    if ok {
      Put3Keeps(s, x, y, z, t);
      LessSettled(p, s, r, t);
    }
    forall V: Values | InStore(s, V) && Holds(p, V)
      ensures ok && InStore(r, V)
    {
      LessValues(p, s, V);
      LessBack(p, s, V, t);
    }
  }

  lemma {:induction false} LessSettled(p: Step, s: Store, r: Store, t: Three)
    requires Fits(p, s) && p.StepUlt? && r == Put3(s, p.x, p.y, p.z, t) && NarrowsStore(r, s)
    requires Fixed(t.x) && Fixed(t.y) ==> t.z == [FixedBit(Nat(Lo(t.x)) < Nat(Lo(t.y)))]
    ensures Settled(p, r)
  {
    FitsNarrow(p, r, s);
    hide Fixed, Narrows, Lo, Nat;
    CellsPut(s, p.x, p.y, p.z, t);
  }

  lemma {:induction false} LessValues(p: Step, s: Store, V: Values)
    requires Fits(p, s) && p.StepUlt? && InStore(s, V) && Holds(p, V)
    ensures |V| == |s| && UltSolution(s[p.x], s[p.y], s[p.z], V[p.x], V[p.y], V[p.z])
  {
  }

  lemma {:induction false} LessBack(p: Step, s: Store, V: Values, t: Three)
    requires Fits(p, s) && p.StepUlt? && InStore(s, V) && t.ok && |V| == |s|
    requires UltSolution(t.x, t.y, t.z, V[p.x], V[p.y], V[p.z])
    ensures InStore(Put3(s, p.x, p.y, p.z, t), V)
  {
    hide Member;
    Put3Has(s, V, p.x, p.y, p.z, t);
  }
}
