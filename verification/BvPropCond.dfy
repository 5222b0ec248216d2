/** The if-then-else propagator (src/bzlabvprop.c:1951-2215). */
module BvPropCond {
  import opened BvDomain
  import opened BvPropBasic
  import opened BvPropBest

  /** One bit of `z = c ? x : y`, `b` being the condition spread to all positions. */
  function CondSpread(x: Bit, y: Bit, z: Bit, b: Bit): Bit {
    Bit(b.lo || (!z.hi && y.lo) || (z.lo && !y.hi), b.hi && (z.hi || !x.lo) && (!z.lo || x.hi))
  }

  function CondThen(x: Bit, y: Bit, z: Bit, b: Bit): Bit {
    Bit(x.lo || (z.lo && (b.lo || !y.hi)), x.hi && (z.hi || (!b.lo && !y.lo)))
  }

  function CondElse(x: Bit, y: Bit, z: Bit, b: Bit): Bit {
    Bit(y.lo || (z.lo && (!b.hi || !x.hi)), y.hi && (z.hi || (b.hi && !x.lo)))
  }

  function CondResult(x: Bit, y: Bit, z: Bit, b: Bit): Bit {
    Bit(z.lo || (b.lo && x.lo) || (!b.hi && y.lo) || (x.lo && y.lo),
        z.hi && (!b.lo || x.hi) && (b.hi || y.hi) && (x.hi || y.hi))
  }

  datatype Four = Four(x: Domain, y: Domain, z: Domain, b: Domain)

  ghost predicate SameWidth(d: Four) { |d.x| == |d.y| == |d.z| == |d.b| }

  predicate Valid4(d: Four) { Valid(d.b) && Valid(d.x) && Valid(d.y) && Valid(d.z) }

  function CondStep(d: Four): (r: Four)
    requires |d.x| == |d.y| == |d.z| == |d.b|
    ensures |r.x| == |r.y| == |r.z| == |r.b| == |d.x|
  {
    var w := |d.x|;
    Four(seq(w, i requires 0 <= i < w => CondThen(d.x[i], d.y[i], d.z[i], d.b[i])),
         seq(w, i requires 0 <= i < w => CondElse(d.x[i], d.y[i], d.z[i], d.b[i])),
         seq(w, i requires 0 <= i < w => CondResult(d.x[i], d.y[i], d.z[i], d.b[i])),
         seq(w, i requires 0 <= i < w => CondSpread(d.x[i], d.y[i], d.z[i], d.b[i])))
  }

  ghost predicate Narrows4(d: Four, e: Four) {
    Narrows(d.x, e.x) && Narrows(d.y, e.y) && Narrows(d.z, e.z) && Narrows(d.b, e.b)
  }

  ghost function Unfixed4(d: Four): nat { Unfixed(d.x) + Unfixed(d.y) + Unfixed(d.z) + Unfixed(d.b) }

  lemma {:induction false} Less4(d: Four, e: Four)
    requires Narrows4(d, e) && Valid4(d)
    ensures Unfixed4(d) <= Unfixed4(e) && (d != e ==> Unfixed4(d) < Unfixed4(e))
  {
    UnfixedLess(d.x, e.x);
    UnfixedLess(d.y, e.y);
    UnfixedLess(d.z, e.z);
    UnfixedLess(d.b, e.b);
  }

  lemma {:induction false} StepNarrows(d: Four)
    requires SameWidth(d)
    ensures Narrows4(CondStep(d), d)
  {
  }

  /** The condition spread over a word. */
  function Spread(c: bool, w: nat): (r: Bits)
    ensures |r| == w
  { seq(w, _ => c) }

  ghost predicate In4(d: Four, x: Bits, y: Bits, c: Bits) {
    && |c| == 1 && |x| == |y|
    && Member(d.x, x) && Member(d.y, y) && Member(d.z, CondBits(c[0], x, y)) && Member(d.b, Spread(c[0], |x|))
  }

  lemma {:induction false} StepSound(d: Four, x: Bits, y: Bits, c: Bits)
    requires SameWidth(d) && In4(d, x, y, c)
    ensures In4(CondStep(d), x, y, c) && Valid4(CondStep(d))
  {
    var r, z, b := CondStep(d), CondBits(c[0], x, y), Spread(c[0], |x|);
    forall i | 0 <= i < |d.x|
      ensures Allows(r.x[i], x[i]) && Allows(r.y[i], y[i]) && Allows(r.z[i], z[i]) && Allows(r.b[i], b[i])
    {
      assert Allows(d.x[i], x[i]) && Allows(d.y[i], y[i]) && Allows(d.z[i], z[i]) && Allows(d.b[i], b[i]);
    }
    MemberValid(r.x, x);
    MemberValid(r.y, y);
    MemberValid(r.z, z);
    MemberValid(r.b, b);
  }

  /** `c`, `x` and `y` solve `z = c ? x : y` in the given domains. */
  ghost predicate CondSolution(dx: Domain, dy: Domain, dz: Domain, dc: Domain, x: Bits, y: Bits, c: Bits) {
    && |c| == 1 && |x| == |y|
    && Member(dx, x) && Member(dy, y) && Member(dc, c) && Member(dz, CondBits(c[0], x, y))
  }

  ghost predicate Shape(t: Four, w: nat) { |t.x| == |t.y| == |t.z| == |t.b| == w }

  ghost predicate Below(t: Four, c: Domain, dx: Domain, dy: Domain, dz: Domain, dc: Domain) {
    Narrows(t.x, dx) && Narrows(t.y, dy) && Narrows(t.z, dz) && Narrows(c, dc)
  }

  /** The state keeps every solution of the given domains. */
  ghost predicate KeepsAll(t: Four, tc: Domain, dx: Domain, dy: Domain, dz: Domain, dc: Domain) {
    forall x: Bits, y: Bits, c: Bits :: CondSolution(dx, dy, dz, dc, x, y, c) ==> In4(t, x, y, c) && Member(tc, c)
  }

  ghost predicate Start(b: Domain, dc: Domain, w: nat)
    requires |dc| == 1
  {
    b == (if !Fixed(dc) then NewInit(w) else if dc[0].lo then seq(w, _ => ONE) else seq(w, _ => ZERO))
  }

  lemma {:induction false} CondStart(dx: Domain, dy: Domain, dz: Domain, dc: Domain, b: Domain)
    requires |dx| == |dy| == |dz| && |dc| == 1 && Start(b, dc, |dx|)
    requires Valid(dx) && Valid(dy) && Valid(dz) && Valid(dc)
    ensures var t := Four(dx, dy, dz, b);
            Shape(t, |dx|) && Valid4(t) && Below(t, dc, dx, dy, dz, dc) && KeepsAll(t, dc, dx, dy, dz, dc)
  {
    forall x: Bits, y: Bits, c: Bits | CondSolution(dx, dy, dz, dc, x, y, c)
      ensures Member(b, Spread(c[0], |x|))
    {
      assert Allows(dc[0], c[0]);
    }
  }

  lemma {:induction false} StepFacts(t: Four, bw: nat, tc: Domain, dx: Domain, dy: Domain, dz: Domain, dc: Domain)
    requires Shape(t, bw) && Below(t, tc, dx, dy, dz, dc) && KeepsAll(t, tc, dx, dy, dz, dc)
    ensures var r := CondStep(t);
            && Shape(r, bw) && Narrows4(r, t) && Below(r, tc, dx, dy, dz, dc) && KeepsAll(r, tc, dx, dy, dz, dc)
            && (!Valid4(r) ==> forall x: Bits, y: Bits, c: Bits :: !CondSolution(dx, dy, dz, dc, x, y, c))
  {
    hide Valid4, In4, CondStep, Narrows, CondSolution;
    var r := CondStep(t);
    StepNarrows(t);
    NarrowsTrans(r.x, t.x, dx);
    NarrowsTrans(r.y, t.y, dy);
    NarrowsTrans(r.z, t.z, dz);
    forall x: Bits, y: Bits, c: Bits | CondSolution(dx, dy, dz, dc, x, y, c)
      ensures In4(r, x, y, c) && Valid4(r)
    {
      StepSound(t, x, y, c);
    }
  }

  lemma {:induction false} SextFacts(t: Four, tc: Domain, bw: nat, dx: Domain, dy: Domain, dz: Domain, dc: Domain)
    requires Shape(t, bw) && bw > 1 && |tc| == 1 && Below(t, tc, dx, dy, dz, dc) && KeepsAll(t, tc, dx, dy, dz, dc)
    ensures var s := PropSext(tc, t.b);
            && Narrows(s.x, tc) && Narrows(s.z, t.b)
            && (s.ok ==> Valid(s.x) && Valid(s.z))
            && Shape(t.(b := s.z), bw) && |s.x| == 1
            && Below(t.(b := s.z), s.x, dx, dy, dz, dc) && KeepsAll(t.(b := s.z), s.x, dx, dy, dz, dc)
            && (!s.ok ==> forall x: Bits, y: Bits, c: Bits :: !CondSolution(dx, dy, dz, dc, x, y, c))
  {
    hide PropSext, Narrows, CondSolution;
    var s := PropSext(tc, t.b);
    SextKeeps(tc, t.b);
    NarrowsSize(s.x, tc);
    NarrowsSize(s.z, t.b);
    NarrowsTrans(s.x, tc, dc);
    forall x: Bits, y: Bits, c: Bits | CondSolution(dx, dy, dz, dc, x, y, c)
      ensures In4(t.(b := s.z), x, y, c) && Member(s.x, c) && s.ok
    {
      assert In4(t, x, y, c);
      assert Spread(c[0], |x|) == SextBits(c, bw - 1);
      SextSound(tc, t.b, c);
    }
  }

  lemma {:induction false} CondEnd(t: Four, tc: Domain, dx: Domain, dy: Domain, dz: Domain, dc: Domain)
    requires KeepsAll(t, tc, dx, dy, dz, dc)
    ensures forall x: Bits, y: Bits, c: Bits {:trigger CondSolution(dx, dy, dz, dc, x, y, c)} ::
              CondSolution(dx, dy, dz, dc, x, y, c) ==> CondSolution(t.x, t.y, t.z, tc, x, y, c)
  {
  }

  // ---------------------------------------------------------------- the best result

  /** x, y, z and c */
  ghost function CondSolutions(dx: Domain, dy: Domain, dz: Domain, dc: Domain): Solutions {
    iset s: seq<Bits> | |s| == 4 && CondSolution(dx, dy, dz, dc, s[0], s[1], s[3])
      && s[2] == CondBits(s[3][0], s[0], s[1])
  }

  /** Values of `x`, `y` and the condition for one position. */
  predicate FitCond(x: Bit, y: Bit, z: Bit, b: Bit, p: (bool, bool, bool)) {
    Allows(x, p.0) && Allows(y, p.1) && Allows(b, p.2) && Allows(z, if p.2 then p.0 else p.1)
  }

  /** Such values with a given one: for `x`, for `y`, for `z`, for the condition. */
  function WithThen(x: Bit, y: Bit, z: Bit, b: Bit, a: bool): (bool, bool, bool) {
    if Allows(b, true) && Allows(z, a) then (a, y.lo, true) else (a, y.lo || z.lo, false)
  }

  function WithElse(x: Bit, y: Bit, z: Bit, b: Bit, a: bool): (bool, bool, bool) {
    if Allows(b, false) && Allows(z, a) then (x.lo, a, false) else (x.lo || z.lo, a, true)
  }

  function WithResult(x: Bit, y: Bit, z: Bit, b: Bit, a: bool): (bool, bool, bool) {
    if Allows(b, true) && Allows(x, a) then (a, y.lo, true) else (x.lo, a, false)
  }

  function WithCond(x: Bit, y: Bit, z: Bit, c: bool): (bool, bool, bool) {
    if c then (x.lo || z.lo, y.lo, true) else (x.lo, y.lo || z.lo, false)
  }

  predicate ValidStep(x: Bit, y: Bit, z: Bit, b: Bit) {
    ValidBit(CondThen(x, y, z, b)) && ValidBit(CondElse(x, y, z, b)) && ValidBit(CondResult(x, y, z, b))
    && ValidBit(CondSpread(x, y, z, b))
  }

  lemma {:induction false} ThenFits(x: Bit, y: Bit, z: Bit, b: Bit, a: bool)
    requires ValidStep(x, y, z, b) && Allows(CondThen(x, y, z, b), a)
    ensures FitCond(x, y, z, b, WithThen(x, y, z, b, a)) && WithThen(x, y, z, b, a).0 == a
  {
  }

  lemma {:induction false} ElseFits(x: Bit, y: Bit, z: Bit, b: Bit, a: bool)
    requires ValidStep(x, y, z, b) && Allows(CondElse(x, y, z, b), a)
    ensures FitCond(x, y, z, b, WithElse(x, y, z, b, a)) && WithElse(x, y, z, b, a).1 == a
  {
  }

  lemma {:induction false} ResultFits(x: Bit, y: Bit, z: Bit, b: Bit, a: bool)
    requires ValidStep(x, y, z, b) && Allows(CondResult(x, y, z, b), a)
    ensures var p := WithResult(x, y, z, b, a); FitCond(x, y, z, b, p) && (if p.2 then p.0 else p.1) == a
  {
  }

  lemma {:induction false} CondFits(x: Bit, y: Bit, z: Bit, b: Bit, c: bool)
    requires ValidStep(x, y, z, b) && Allows(CondSpread(x, y, z, b), c)
    ensures FitCond(x, y, z, b, WithCond(x, y, z, c)) && WithCond(x, y, z, c).2 == c
  {
  }

  /** All positions hold the domain of the condition. */
  predicate Uniform(b: Domain, tc: Domain) { |tc| == 1 && forall i :: 0 <= i < |b| ==> b[i] == tc[0] }

  /** The last step: nothing changed, or there is one bit only. */
  ghost predicate LastStep(t: Four, tc: Domain) {
    SameWidth(t) && |t.x| > 0 && Uniform(t.b, tc) && Valid4(CondStep(t)) && (|t.x| == 1 || CondStep(t) == t)
  }

  lemma {:induction false} StepBits(t: Four, i: nat)
    requires SameWidth(t) && Valid4(CondStep(t)) && i < |t.x|
    ensures var r := CondStep(t); var x, y, z, b := t.x[i], t.y[i], t.z[i], t.b[i];
            && ValidStep(x, y, z, b) && r.x[i] == CondThen(x, y, z, b) && r.y[i] == CondElse(x, y, z, b)
            && r.z[i] == CondResult(x, y, z, b) && r.b[i] == CondSpread(x, y, z, b)
  {
    var r := CondStep(t);
    var x, y, z, b := r.x[i], r.y[i], r.z[i], r.b[i];
    assert ValidBit(x) && ValidBit(y) && ValidBit(z) && ValidBit(b);
    hide CondThen, CondElse, CondResult, CondSpread;
  }

  /** Values for all positions, under one condition. */
  lemma {:induction false} GlueCond(t: Four, tc: Domain, c: bool, ps: seq<(bool, bool, bool)>) returns (s: seq<Bits>)
    requires SameWidth(t) && |t.x| == |ps| > 0 && Uniform(t.b, tc)
    requires forall i :: 0 <= i < |ps| ==> FitCond(t.x[i], t.y[i], t.z[i], t.b[i], ps[i]) && ps[i].2 == c
    ensures s in CondSolutions(t.x, t.y, t.z, tc) && |s| == 4 && |s[0]| == |s[1]| == |s[2]| == |ps| && s[3] == [c]
    ensures forall i :: 0 <= i < |ps| ==>
              s[0][i] == ps[i].0 && s[1][i] == ps[i].1 && s[2][i] == (if c then ps[i].0 else ps[i].1)
  {
    var x: Bits := seq(|ps|, i requires 0 <= i < |ps| => ps[i].0);
    var y: Bits := seq(|ps|, i requires 0 <= i < |ps| => ps[i].1);
    s := [x, y, CondBits(c, x, y), [c]];
    assert FitCond(t.x[0], t.y[0], t.z[0], t.b[0], ps[0]);
    forall i | 0 <= i < |ps|
      ensures Allows(t.x[i], x[i]) && Allows(t.y[i], y[i]) && Allows(t.z[i], s[2][i])
    {
      assert FitCond(t.x[i], t.y[i], t.z[i], t.b[i], ps[i]);
    }
  }

  /** A value that fits at one position can be completed. */
  lemma {:induction false} CompleteCond(t: Four, tc: Domain, i: nat, p: (bool, bool, bool))
    requires LastStep(t, tc) && i < |t.x| && FitCond(t.x[i], t.y[i], t.z[i], t.b[i], p)
    ensures var S := CondSolutions(t.x, t.y, t.z, tc);
            && Shows(S, 0, i, p.0) && Shows(S, 1, i, p.1) && Shows(S, 2, i, if p.2 then p.0 else p.1)
            && Shows(S, 3, 0, p.2)
  {
    var c := p.2;
    var ps := seq(|t.x|, j requires 0 <= j < |t.x| => if j == i then p else WithCond(t.x[j], t.y[j], t.z[j], c));
    forall j | 0 <= j < |ps|
      ensures FitCond(t.x[j], t.y[j], t.z[j], t.b[j], ps[j]) && ps[j].2 == c
    {
      if j != i { OtherFits(t, tc, i, j, c); }
    }
    hide LastStep, FitCond, WithCond, CondSolutions, Shows;
    var S := CondSolutions(t.x, t.y, t.z, tc);
    LastShape(t, tc);
    var s := GlueCond(t, tc, c, ps);
    Witness(S, s, 0, i);
    Witness(S, s, 1, i);
    Witness(S, s, 2, i);
    Witness(S, s, 3, 0);
  }

  lemma {:induction false} LastShape(t: Four, tc: Domain)
    requires LastStep(t, tc)
    ensures SameWidth(t) && |t.x| > 0 && Uniform(t.b, tc)
  {
  }

  lemma {:induction false} OtherFits(t: Four, tc: Domain, i: nat, j: nat, c: bool)
    requires LastStep(t, tc) && i < |t.x| && j < |t.x| && i != j && Allows(t.b[i], c)
    ensures FitCond(t.x[j], t.y[j], t.z[j], t.b[j], WithCond(t.x[j], t.y[j], t.z[j], c))
    ensures WithCond(t.x[j], t.y[j], t.z[j], c).2 == c
  {
    StepBits(t, j);
    assert t.b[i] == t.b[j];
    hide ValidStep, CondSpread, FitCond, Allows;
    CondFits(t.x[j], t.y[j], t.z[j], t.b[j], c);
  }

  /** Every value that the last step leaves occurs in a solution. */
  lemma {:induction false} LastShows(t: Four, tc: Domain, i: nat, a: bool)
    requires LastStep(t, tc) && i < |t.x|
    ensures var r, S := CondStep(t), CondSolutions(t.x, t.y, t.z, tc);
            && (Allows(r.x[i], a) ==> Shows(S, 0, i, a))
            && (Allows(r.y[i], a) ==> Shows(S, 1, i, a))
            && (Allows(r.z[i], a) ==> Shows(S, 2, i, a))
            && (Allows(r.b[i], a) ==> Shows(S, 3, 0, a))
  {
    StepBits(t, i);
    var x, y, z, b := t.x[i], t.y[i], t.z[i], t.b[i];
    hide LastStep, CondStep, Allows, FitCond, ValidStep, CondThen, CondElse, CondResult, CondSpread, Shows;
    hide WithThen, WithElse, WithResult, WithCond, CondSolutions;
    var r := CondStep(t);
    if Allows(r.x[i], a) {
      ThenFits(x, y, z, b, a);
      CompleteCond(t, tc, i, WithThen(x, y, z, b, a));
    }
    if Allows(r.y[i], a) {
      ElseFits(x, y, z, b, a);
      CompleteCond(t, tc, i, WithElse(x, y, z, b, a));
    }
    if Allows(r.z[i], a) {
      ResultFits(x, y, z, b, a);
      CompleteCond(t, tc, i, WithResult(x, y, z, b, a));
    }
    if Allows(r.b[i], a) {
      CondFits(x, y, z, b, a);
      CompleteCond(t, tc, i, WithCond(x, y, z, a));
    }
  }

  lemma {:induction false} SolutionsWider(t: Four, tc: Domain, dx: Domain, dy: Domain, dz: Domain, dc: Domain, k: nat,
        i: nat, a: bool)
    requires Below(t, tc, dx, dy, dz, dc) && Shows(CondSolutions(t.x, t.y, t.z, tc), k, i, a)
    ensures Shows(CondSolutions(dx, dy, dz, dc), k, i, a)
  {
    hide Narrows, Member;
    var s :| s in CondSolutions(t.x, t.y, t.z, tc) && k < |s| && i < |s[k]| && s[k][i] == a;
    MemberWider(t.x, dx, s[0]);
    MemberWider(t.y, dy, s[1]);
    MemberWider(t.z, dz, s[2]);
    MemberWider(tc, dc, s[3]);
    assert s in CondSolutions(dx, dy, dz, dc);
  }

  /** The domains that are the best of the four: the condition is left alone when there is one bit only. */
  ghost function BestOf(t: Four, tc: Domain): seq<Domain> {
    if |t.x| == 1 then [t.x, t.y, t.z] else [t.x, t.y, t.z, tc]
  }

  lemma {:induction false} CondHolds(r: Four, tc: Domain, dx: Domain, dy: Domain, dz: Domain, dc: Domain, s: seq<Bits>)
    requires KeepsAll(r, tc, dx, dy, dz, dc) && s in CondSolutions(dx, dy, dz, dc)
    ensures |s| == 4 && Member(r.x, s[0]) && Member(r.y, s[1]) && Member(r.z, s[2]) && Member(tc, s[3])
  {
    hide Member;
    assert In4(r, s[0], s[1], s[3]);
  }

  lemma {:induction false} StepSizes(t: Four, tc: Domain)
    requires LastStep(t, tc)
    ensures var r := CondStep(t);
            |r.x| == |r.y| == |r.z| == |r.b| == |t.x| > 0 && |tc| == 1 && (|t.x| > 1 ==> r.b[0] == tc[0])
  {
  }

  /** Part `k` of a solution and its domain. */
  function PartOf(d: Four, k: nat): Domain { if k == 0 then d.x else if k == 1 then d.y else d.z }

  lemma {:induction false} PartShows(t: Four, tc: Domain, dx: Domain, dy: Domain, dz: Domain, dc: Domain, k: nat,
        i: nat, a: bool)
    requires LastStep(t, tc) && Below(t, tc, dx, dy, dz, dc) && k < 3
    requires i < |PartOf(CondStep(t), k)| && Allows(PartOf(CondStep(t), k)[i], a)
    ensures Shows(CondSolutions(dx, dy, dz, dc), k, i, a)
  {
    StepSizes(t, tc);
    hide LastStep, Below, CondStep, Allows, Shows, CondSolutions, SameWidth, Uniform;
    LastWider(t, tc, dx, dy, dz, dc, i, a);
  }

  lemma {:induction false} PartHolds(r: Four, tc: Domain, dx: Domain, dy: Domain, dz: Domain, dc: Domain, k: nat,
        s: seq<Bits>)
    requires KeepsAll(r, tc, dx, dy, dz, dc) && s in CondSolutions(dx, dy, dz, dc) && k < 3
    ensures k < |s| && Member(PartOf(r, k), s[k])
  {
    hide KeepsAll, CondSolutions, Member;
    CondHolds(r, tc, dx, dy, dz, dc, s);
  }

  lemma {:induction false} LeastPart(t: Four, tc: Domain, dx: Domain, dy: Domain, dz: Domain, dc: Domain, k: nat)
    requires LastStep(t, tc) && Below(t, tc, dx, dy, dz, dc) && KeepsAll(CondStep(t), tc, dx, dy, dz, dc) && k < 3
    ensures Least(PartOf(CondStep(t), k), CondSolutions(dx, dy, dz, dc), k)
  {
    LastShape(t, tc);
    hide LastStep, Below, KeepsAll, CondStep, Allows, Shows, CondSolutions, Member, Least, SameWidth, Uniform, PartOf;
    var d, S := PartOf(CondStep(t), k), CondSolutions(dx, dy, dz, dc);
    forall s | s in S
      ensures k < |s| && Member(d, s[k])
    {
      PartHolds(CondStep(t), tc, dx, dy, dz, dc, k, s);
    }
    forall i: nat, a: bool | i < |d| && Allows(d[i], a)
      ensures Shows(S, k, i, a)
    {
      PartShows(t, tc, dx, dy, dz, dc, k, i, a);
    }
    LeastOf(d, S, k);
  }

  lemma {:induction false} LeastCondition(t: Four, tc: Domain, dx: Domain, dy: Domain, dz: Domain, dc: Domain)
    requires LastStep(t, tc) && Below(t, tc, dx, dy, dz, dc) && KeepsAll(CondStep(t), tc, dx, dy, dz, dc)
    ensures Solvable(true, CondSolutions(dx, dy, dz, dc))
    ensures |t.x| > 1 ==> Least(tc, CondSolutions(dx, dy, dz, dc), 3)
  {
    SomeAllowed(t, tc);
    LastShape(t, tc);
    StepSizes(t, tc);
    hide LastStep, Below, KeepsAll, CondStep, Allows, Shows, CondSolutions, Member, Least, SameWidth, Uniform, Solvable;
    var r, S := CondStep(t), CondSolutions(dx, dy, dz, dc);
    forall s | s in S
      ensures |s| == 4 && Member(r.x, s[0]) && Member(r.y, s[1]) && Member(r.z, s[2]) && Member(tc, s[3])
    {
      CondHolds(r, tc, dx, dy, dz, dc, s);
    }
    LastWider(t, tc, dx, dy, dz, dc, 0, false);
    LastWider(t, tc, dx, dy, dz, dc, 0, true);
    FromShows(S, 3, 0, r.b[0].lo);
    if |t.x| > 1 { LeastBit(tc, S, 3); }
  }

  lemma {:induction false} LeastBit(d: Domain, S: Solutions, k: nat)
    requires |d| == 1 && forall s :: s in S ==> k < |s| && Member(d, s[k])
    requires (Allows(d[0], false) ==> Shows(S, k, 0, false)) && (Allows(d[0], true) ==> Shows(S, k, 0, true))
    ensures Least(d, S, k)
  {
    hide Member, Allows, Shows;
    forall i: nat, b: bool | i < |d| && Allows(d[i], b)
      ensures Shows(S, k, i, b)
    {
    }
  }

  lemma {:induction false} CondBest(t: Four, tc: Domain, dx: Domain, dy: Domain, dz: Domain, dc: Domain)
    requires LastStep(t, tc) && Below(t, tc, dx, dy, dz, dc) && KeepsAll(CondStep(t), tc, dx, dy, dz, dc)
    ensures Best(true, BestOf(CondStep(t), tc), CondSolutions(dx, dy, dz, dc))
  {
    LastShape(t, tc);
    hide LastStep, Below, KeepsAll, CondSolutions, Least, Best, Solvable, SameWidth, Uniform;
    var r, S := CondStep(t), CondSolutions(dx, dy, dz, dc);
    LeastPart(t, tc, dx, dy, dz, dc, 0);
    LeastPart(t, tc, dx, dy, dz, dc, 1);
    LeastPart(t, tc, dx, dy, dz, dc, 2);
    LeastCondition(t, tc, dx, dy, dz, dc);
    if |t.x| > 1 { BestFour(r.x, r.y, r.z, tc, S); } else { BestThree(true, r.x, r.y, r.z, S); }
  }

  lemma {:induction false} BestFour(x: Domain, y: Domain, z: Domain, c: Domain, S: Solutions)
    requires Solvable(true, S) && Least(x, S, 0) && Least(y, S, 1) && Least(z, S, 2) && Least(c, S, 3)
    ensures Best(true, [x, y, z, c], S)
  {
    hide Solvable, Least;
  }

  lemma {:induction false} FromShows(S: Solutions, k: nat, i: nat, a: bool)
    requires Shows(S, k, i, a)
    ensures Solvable(true, S)
  {
  }

  lemma {:induction false} SomeAllowed(t: Four, tc: Domain)
    requires LastStep(t, tc)
    ensures Allows(CondStep(t).b[0], CondStep(t).b[0].lo)
  {
    StepBits(t, 0);
  }

  lemma {:induction false} LastWider(t: Four, tc: Domain, dx: Domain, dy: Domain, dz: Domain, dc: Domain, i: nat,
        a: bool)
    requires LastStep(t, tc) && Below(t, tc, dx, dy, dz, dc) && i < |t.x|
    ensures var r, S := CondStep(t), CondSolutions(dx, dy, dz, dc);
            && (Allows(r.x[i], a) ==> Shows(S, 0, i, a))
            && (Allows(r.y[i], a) ==> Shows(S, 1, i, a))
            && (Allows(r.z[i], a) ==> Shows(S, 2, i, a))
            && (Allows(r.b[i], a) ==> Shows(S, 3, 0, a))
  {
    LastShows(t, tc, i, a);
    LastShape(t, tc);
    hide LastStep, Below, CondStep, Allows, Shows, CondSolutions;
    var r := CondStep(t);
    if Allows(r.x[i], a) { SolutionsWider(t, tc, dx, dy, dz, dc, 0, i, a); }
    if Allows(r.y[i], a) { SolutionsWider(t, tc, dx, dy, dz, dc, 1, i, a); }
    if Allows(r.z[i], a) { SolutionsWider(t, tc, dx, dy, dz, dc, 2, i, a); }
    if Allows(r.b[i], a) { SolutionsWider(t, tc, dx, dy, dz, dc, 3, 0, a); }
  }

  // ---------------------------------------------------------------- the loop

  lemma {:induction false} LastIs(t: Four, tc: Domain)
    requires SameWidth(t) && |t.x| > 0 && Uniform(t.b, tc) && Valid4(CondStep(t)) && (|t.x| == 1 || CondStep(t) == t)
    ensures LastStep(t, tc)
  {
  }

  lemma {:induction false} LastPicks(t: Four, tc: Domain)
    requires LastStep(t, tc) && Fixed(tc)
    ensures CondStep(t).z == if tc[0].lo then CondStep(t).x else CondStep(t).y
  {
    hide CondStep, Fixed, Uniform;
    UniformFixed(t, tc);
  }

  lemma {:induction false} BelowParts(t: Four, c: Domain, dx: Domain, dy: Domain, dz: Domain, dc: Domain)
    requires Below(t, c, dx, dy, dz, dc)
    ensures Narrows(t.x, dx) && Narrows(t.y, dy) && Narrows(t.z, dz) && Narrows(c, dc)
  {
  }

  lemma {:induction false} NoneIsBest(dx: Domain, dy: Domain, dz: Domain, dc: Domain)
    requires forall x: Bits, y: Bits, c: Bits :: !CondSolution(dx, dy, dz, dc, x, y, c)
    ensures forall es: seq<Domain> :: Best(false, es, CondSolutions(dx, dy, dz, dc))
  {
    forall es: seq<Domain>
      ensures Best(false, es, CondSolutions(dx, dy, dz, dc))
    {
    }
  }

  lemma {:induction false} UniformStart(b: Domain, dc: Domain, w: nat)
    requires |dc| == 1 && Valid(dc) && Start(b, dc, w)
    ensures |b| == w && Uniform(b, dc)
  {
  }

  /** A fixed condition stays what it is, and picks one of the operands. */
  lemma {:induction false} UniformFixed(t: Four, tc: Domain)
    requires SameWidth(t) && Uniform(t.b, tc) && Fixed(tc) && Valid4(CondStep(t))
    ensures CondStep(t).b == t.b && CondStep(t).z == if tc[0].lo then CondStep(t).x else CondStep(t).y
  {
    var r := CondStep(t);
    forall i | 0 <= i < |t.b|
      ensures r.b[i] == t.b[i] && r.z[i] == if tc[0].lo then r.x[i] else r.y[i]
    {
      StepBits(t, i);
    }
  }

  lemma {:induction false} UniformSext(b: Domain, tc: Domain)
    requires |tc| == 1 < |b|
    ensures Uniform(PropSext(tc, b).z, PropSext(tc, b).x)
  {
    var s := PropSext(tc, b);
    forall i | 0 <= i < |b|
      ensures s.z[i] == s.x[0]
    {
      TopBits(b, 0, i);
    }
  }

  /** `bzla_bvprop_cond`: with more than one bit, the word-wide condition and the condition
      itself narrow each other through the sign-extension propagator. */
  method PropCond(dx: Domain, dy: Domain, dz: Domain, dc: Domain)
    returns (ok: bool, rx: Domain, ry: Domain, rz: Domain, rc: Domain)
    requires |dx| == |dy| == |dz| > 0 && |dc| == 1
    requires Valid(dx) && Valid(dy) && Valid(dz) && Valid(dc)
    ensures Narrows(rx, dx) && Narrows(ry, dy) && Narrows(rz, dz) && Narrows(rc, dc)
    ensures ok ==> Valid(rx) && Valid(ry) && Valid(rz) && Valid(rc)
    ensures forall x: Bits, y: Bits, c: Bits :: CondSolution(dx, dy, dz, dc, x, y, c) ==>
              ok && CondSolution(rx, ry, rz, rc, x, y, c)
    ensures |dx| == 1 ==> rc == dc
    ensures Best(ok, if |dx| == 1 then [rx, ry, rz] else [rx, ry, rz, rc], CondSolutions(dx, dy, dz, dc))
    ensures ok && Fixed(rc) ==> rz == if rc[0].lo then rx else ry
  {
    hide Valid, Narrows, CondStep, Unfixed4, Narrows4, KeepsAll, CondSolution, PropSext, Fixed, Uniform, LastStep;
    hide CondSolutions, Best, Below;
    var bw := |dx|;
    var cIsFixed := Fixed(dc);
    var b := if !cIsFixed then NewInit(bw) else if dc[0].lo then seq(bw, _ => ONE) else seq(bw, _ => ZERO);
    var t, tmpC := Four(dx, dy, dz, b), dc;
    CondStart(dx, dy, dz, dc, b);
    UniformStart(b, dc, bw);
    ghost var last := t;
    var progress := true;
    while progress
      invariant Shape(t, bw) && Valid4(t) && Valid(tmpC) && |tmpC| == 1
      invariant Below(t, tmpC, dx, dy, dz, dc) && KeepsAll(t, tmpC, dx, dy, dz, dc)
      invariant bw == 1 || cIsFixed ==> tmpC == dc
      invariant Shape(last, bw) && (progress ==> Uniform(t.b, tmpC))
      invariant !progress ==> LastStep(last, tmpC) && t == CondStep(last) && Below(last, tmpC, dx, dy, dz, dc)
      decreases Unfixed4(t) + Unfixed(tmpC), if progress then 1 else 0
    {
      progress := false;
      var r := CondStep(t);
      StepFacts(t, bw, tmpC, dx, dy, dz, dc);
      if !Valid4(r) {
        NoneIsBest(dx, dy, dz, dc);
        BelowParts(r, tmpC, dx, dy, dz, dc);
        return false, r.x, r.y, r.z, tmpC;
      }
      if cIsFixed { UniformFixed(t, tmpC); }
      if bw > 1 {
        progress := r != t;
      }
      Less4(r, t);
      if !progress { LastIs(t, tmpC); }
      last := t;
      t := r;
      if bw > 1 && !cIsFixed && progress {
        var s := PropSext(tmpC, t.b);
        SextFacts(t, tmpC, bw, dx, dy, dz, dc);
        if !s.ok {
          NoneIsBest(dx, dy, dz, dc);
          BelowParts(t, tmpC, dx, dy, dz, dc);
          return false, t.x, t.y, t.z, tmpC;
        }
        UnfixedLess(s.x, tmpC);
        UnfixedLess(s.z, t.b);
        LessB(t, s.z);
        UniformSext(t.b, tmpC);
        tmpC, t := s.x, t.(b := s.z);
      }
    }
    CondEnd(t, tmpC, dx, dy, dz, dc);
    CondBest(last, tmpC, dx, dy, dz, dc);
    BelowParts(t, tmpC, dx, dy, dz, dc);
    if Fixed(tmpC) { LastPicks(last, tmpC); }
    return true, t.x, t.y, t.z, tmpC;
  }

  /** With one-bit operands the condition is left alone even if only one value of it is possible. */
  lemma {:induction false} CondOneBitExample()
    ensures var dx, dy, dz, dc := NewFixed([true]), NewFixed([false]), NewFixed([true]), NewInit(1);
            && Valid(dx) && Valid(dy) && Valid(dz) && Valid(dc) && !Fixed(dc)
            && CondSolution(dx, dy, dz, dc, [true], [false], [true])
            && forall x: Bits, y: Bits, c: Bits :: CondSolution(dx, dy, dz, dc, x, y, c) ==> c == [true]
  {
    var dx, dy, dz, dc := NewFixed([true]), NewFixed([false]), NewFixed([true]), NewInit(1);
    MemberNewFixed([true]);
    MemberNewFixed([false]);
    MemberInit(1, [true]);
    assert !(NewInit(1)[0].lo == NewInit(1)[0].hi);
    assert CondSolution(dx, dy, dz, dc, [true], [false], [true]) by {
      hide Member;
    }
    forall x: Bits, y: Bits, c: Bits | CondSolution(dx, dy, dz, dc, x, y, c)
      ensures c == [true]
    {
      assert Allows(dy[0], y[0]);
      assert Allows(dz[0], CondBits(c[0], x, y)[0]);
    }
  }

  lemma {:induction false} LessB(t: Four, b: Domain)
    requires Unfixed(b) <= Unfixed(t.b)
    ensures Unfixed4(t.(b := b)) <= Unfixed4(t)
  {
  }
}
