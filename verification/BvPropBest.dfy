/** The basic propagators give the best result that domains can hold: every value that a bit of a
    result still allows occurs in a solution (src/bzlabvprop.c:538-849, 1207-1765). */
module BvPropBest {
  import opened BvDomain
  import opened BvPropBasic

  /** A solution lists the values of the operands, and then of the result. */
  type Solutions = iset<seq<Bits>>

  ghost predicate Solvable(ok: bool, S: Solutions) { ok <==> exists s :: s in S }

  /** Some solution has the value `b` at bit `i` of its part `k`. */
  ghost predicate Shows(S: Solutions, k: nat, i: nat, b: bool) {
    exists s :: s in S && k < |s| && i < |s[k]| && s[k][i] == b
  }

  /** The least domain that holds part `k` of all solutions. */
  ghost predicate Least(d: Domain, S: Solutions, k: nat) {
    && (forall s :: s in S ==> k < |s| && Member(d, s[k]))
    && forall i: nat, b: bool :: i < |d| && Allows(d[i], b) ==> Shows(S, k, i, b)
  }

  /** The answer is right, and the domains cannot be any narrower. */
  ghost predicate Best(ok: bool, ds: seq<Domain>, S: Solutions) {
    Solvable(ok, S) && (ok ==> forall k: nat :: k < |ds| ==> Least(ds[k], S, k))
  }

  lemma {:induction false} BestTwo(ok: bool, x: Domain, z: Domain, S: Solutions)
    requires Solvable(ok, S) && (ok ==> Least(x, S, 0) && Least(z, S, 1))
    ensures Best(ok, [x, z], S)
  {
    hide Solvable, Least;
  }

  lemma {:induction false} BestThree(ok: bool, x: Domain, y: Domain, z: Domain, S: Solutions)
    requires Solvable(ok, S) && (ok ==> Least(x, S, 0) && Least(y, S, 1) && Least(z, S, 2))
    ensures Best(ok, [x, y, z], S)
  {
    hide Solvable, Least;
  }

  lemma {:induction false} Witness(S: Solutions, s: seq<Bits>, k: nat, i: nat)
    requires s in S && k < |s| && i < |s[k]|
    ensures Shows(S, k, i, s[k][i])
  {
  }

  lemma {:induction false} LeastOf(d: Domain, S: Solutions, k: nat)
    requires forall s :: s in S ==> k < |s| && Member(d, s[k])
    requires forall i: nat, b: bool :: i < |d| && Allows(d[i], b) ==> Shows(S, k, i, b)
    ensures Least(d, S, k)
  {
    hide Member, Allows, Shows;
  }

  lemma {:induction false} AllShown(r: Three, S: Solutions)
    requires forall s :: s in S ==> |s| == 3 && Has3(r, s[0], s[1], s[2])
    requires r.ok ==> exists s :: s in S
    requires r.ok ==> forall i: nat, b: bool :: i < |r.x| && Allows(r.x[i], b) ==> Shows(S, 0, i, b)
    requires r.ok ==> forall i: nat, b: bool :: i < |r.y| && Allows(r.y[i], b) ==> Shows(S, 1, i, b)
    requires r.ok ==> forall i: nat, b: bool :: i < |r.z| && Allows(r.z[i], b) ==> Shows(S, 2, i, b)
    ensures Best(r.ok, [r.x, r.y, r.z], S)
  {
    hide Member, Shows, Allows;
    BestThree(r.ok, r.x, r.y, r.z, S);
  }

  // ---------------------------------------------------------------- and, or, xor

  /** A gate by its truth table. */
  datatype Gate = Gate(ff: bool, ft: bool, tf: bool, tt: bool) {
    function Of(a: bool, b: bool): bool { if a then (if b then tt else tf) else if b then ft else ff }
  }

  const AND_GATE := Gate(false, false, false, true)
  const OR_GATE := Gate(false, true, true, true)
  const XOR_GATE := Gate(false, true, true, false)

  function GateBits(g: Gate, x: Bits, y: Bits): (r: Bits)
    requires |x| == |y|
    ensures |r| == |x|
  { seq(|x|, i requires 0 <= i < |x| => g.Of(x[i], y[i])) }

  ghost function GateSolutions(g: Gate, dx: Domain, dy: Domain, dz: Domain): Solutions {
    iset s: seq<Bits> | |s| == 3 && |s[0]| == |s[1]| && Member(dx, s[0]) && Member(dy, s[1]) && Member(dz, s[2])
      && s[2] == GateBits(g, s[0], s[1])
  }

  predicate Fit(g: Gate, x: Bit, y: Bit, z: Bit, p: (bool, bool)) {
    Allows(x, p.0) && Allows(y, p.1) && Allows(z, g.Of(p.0, p.1))
  }

  /** Operand values for one position, with a given value of an operand or of the result. */
  function Pick(g: Gate, x: Bit, y: Bit, z: Bit): (bool, bool) {
    if Fit(g, x, y, z, (false, false)) then (false, false) else PickX(g, x, y, z, !Fit(g, x, y, z, (false, true)))
  }

  function PickX(g: Gate, x: Bit, y: Bit, z: Bit, a: bool): (bool, bool) { (a, !Fit(g, x, y, z, (a, false))) }

  function PickY(g: Gate, x: Bit, y: Bit, z: Bit, b: bool): (bool, bool) { (!Fit(g, x, y, z, (false, b)), b) }

  function PickZ(g: Gate, x: Bit, y: Bit, z: Bit, c: bool): (bool, bool) {
    if Fit(g, x, y, z, (false, false)) && g.ff == c then (false, false)
    else if Fit(g, x, y, z, (false, true)) && g.ft == c then (false, true)
    else if Fit(g, x, y, z, (true, false)) && g.tf == c then (true, false)
    else (true, true)
  }

  /** The results `rx`, `ry` and `rz` allow only values that fit. */
  predicate TightBit(g: Gate, x: Bit, y: Bit, z: Bit, rx: Bit, ry: Bit, rz: Bit) {
    && Fit(g, x, y, z, Pick(g, x, y, z))
    && (Allows(rx, false) ==> Fit(g, x, y, z, PickX(g, x, y, z, false)))
    && (Allows(rx, true) ==> Fit(g, x, y, z, PickX(g, x, y, z, true)))
    && (Allows(ry, false) ==> Fit(g, x, y, z, PickY(g, x, y, z, false)))
    && (Allows(ry, true) ==> Fit(g, x, y, z, PickY(g, x, y, z, true)))
    && (Allows(rz, false) ==>
          var p := PickZ(g, x, y, z, false);
          Fit(g, x, y, z, p) && !g.Of(p.0, p.1))
    && (Allows(rz, true) ==>
          var p := PickZ(g, x, y, z, true);
          Fit(g, x, y, z, p) && g.Of(p.0, p.1))
  }

  predicate ValidBit(d: Bit) { d.lo ==> d.hi }

  lemma {:induction false} AndTight(x: Bit, y: Bit, z: Bit)
    requires ValidBit(AndOperand(x, y, z)) && ValidBit(AndOperand(y, x, z)) && ValidBit(AndResult(x, y, z))
    ensures TightBit(AND_GATE, x, y, z, AndOperand(x, y, z), AndOperand(y, x, z), AndResult(x, y, z))
  {
  }

  lemma {:induction false} OrTight(x: Bit, y: Bit, z: Bit)
    requires ValidBit(OrOperand(x, y, z)) && ValidBit(OrOperand(y, x, z)) && ValidBit(OrResult(x, y, z))
    ensures TightBit(OR_GATE, x, y, z, OrOperand(x, y, z), OrOperand(y, x, z), OrResult(x, y, z))
  {
  }

  lemma {:induction false} XorTight(x: Bit, y: Bit, z: Bit)
    requires ValidBit(XorOne(x, y, z)) && ValidBit(XorOne(y, x, z)) && ValidBit(XorOne(z, x, y))
    ensures TightBit(XOR_GATE, x, y, z, XorOne(x, y, z), XorOne(y, x, z), XorOne(z, x, y))
  {
  }

  ghost predicate Tight(g: Gate, dx: Domain, dy: Domain, dz: Domain, r: Three) {
    && |dx| == |dy| == |dz| == |r.x| == |r.y| == |r.z|
    && forall i :: 0 <= i < |dx| ==> TightBit(g, dx[i], dy[i], dz[i], r.x[i], r.y[i], r.z[i])
  }

  /** Values that fit at every position make a solution. */
  lemma {:induction false} Glue(g: Gate, dx: Domain, dy: Domain, dz: Domain, ps: seq<(bool, bool)>)
    returns (s: seq<Bits>)
    requires |dx| == |dy| == |dz| == |ps|
    requires forall i :: 0 <= i < |ps| ==> Fit(g, dx[i], dy[i], dz[i], ps[i])
    ensures s in GateSolutions(g, dx, dy, dz) && |s| == 3 && |s[0]| == |s[1]| == |s[2]| == |ps|
    ensures forall i :: 0 <= i < |ps| ==> s[0][i] == ps[i].0 && s[1][i] == ps[i].1 && s[2][i] == g.Of(ps[i].0, ps[i].1)
  {
    var x: Bits := seq(|ps|, i requires 0 <= i < |ps| => ps[i].0);
    var y: Bits := seq(|ps|, i requires 0 <= i < |ps| => ps[i].1);
    s := [x, y, GateBits(g, x, y)];
    forall i | 0 <= i < |ps|
      ensures Allows(dx[i], x[i]) && Allows(dy[i], y[i]) && Allows(dz[i], s[2][i])
    {
      assert Fit(g, dx[i], dy[i], dz[i], ps[i]);
    }
  }

  /** A value that fits at one position can be completed. */
  lemma {:induction false} Complete(g: Gate, dx: Domain, dy: Domain, dz: Domain, r: Three, i: nat, p: (bool, bool))
    requires Tight(g, dx, dy, dz, r) && i < |dx| && Fit(g, dx[i], dy[i], dz[i], p)
    ensures var S := GateSolutions(g, dx, dy, dz);
            Shows(S, 0, i, p.0) && Shows(S, 1, i, p.1) && Shows(S, 2, i, g.Of(p.0, p.1))
  {
    var ps := seq(|dx|, j requires 0 <= j < |dx| => if j == i then p else Pick(g, dx[j], dy[j], dz[j]));
    forall j | 0 <= j < |ps|
      ensures Fit(g, dx[j], dy[j], dz[j], ps[j])
    {
      assert TightBit(g, dx[j], dy[j], dz[j], r.x[j], r.y[j], r.z[j]);
    }
    hide Tight, Fit, GateSolutions;
    var S := GateSolutions(g, dx, dy, dz);
    var s := Glue(g, dx, dy, dz, ps);
    Witness(S, s, 0, i);
    Witness(S, s, 1, i);
    Witness(S, s, 2, i);
  }

  lemma {:induction false} SomeSolution(g: Gate, dx: Domain, dy: Domain, dz: Domain, r: Three)
    requires Tight(g, dx, dy, dz, r)
    ensures exists s :: s in GateSolutions(g, dx, dy, dz)
  {
    var ps := seq(|dx|, j requires 0 <= j < |dx| => Pick(g, dx[j], dy[j], dz[j]));
    forall j | 0 <= j < |ps|
      ensures Fit(g, dx[j], dy[j], dz[j], ps[j])
    {
      assert TightBit(g, dx[j], dy[j], dz[j], r.x[j], r.y[j], r.z[j]);
    }
    var s := Glue(g, dx, dy, dz, ps);
  }

  lemma {:induction false} GateBest(g: Gate, dx: Domain, dy: Domain, dz: Domain, r: Three)
    requires |dx| == |dy| == |dz| && (r.ok ==> Tight(g, dx, dy, dz, r))
    requires forall s :: s in GateSolutions(g, dx, dy, dz) ==> |s| == 3 && Has3(r, s[0], s[1], s[2])
    ensures Best(r.ok, [r.x, r.y, r.z], GateSolutions(g, dx, dy, dz))
  {
    hide Shows, Fit, Pick, PickX, PickY, PickZ, Allows, GateSolutions, Has3, Best;
    var S := GateSolutions(g, dx, dy, dz);
    if r.ok {
      SomeSolution(g, dx, dy, dz, r);
      forall i: nat, b: bool | i < |dx|
        ensures Allows(r.x[i], b) ==> Shows(S, 0, i, b)
        ensures Allows(r.y[i], b) ==> Shows(S, 1, i, b)
        ensures Allows(r.z[i], b) ==> Shows(S, 2, i, b)
      {
        ShowsAt(g, dx, dy, dz, r, i, b);
      }
    }
    AllShown(r, S);
  }

  lemma {:induction false} ShowsAt(g: Gate, dx: Domain, dy: Domain, dz: Domain, r: Three, i: nat, b: bool)
    requires Tight(g, dx, dy, dz, r) && i < |dx|
    ensures var S := GateSolutions(g, dx, dy, dz);
            && (Allows(r.x[i], b) ==> Shows(S, 0, i, b))
            && (Allows(r.y[i], b) ==> Shows(S, 1, i, b))
            && (Allows(r.z[i], b) ==> Shows(S, 2, i, b))
  {
    var x, y, z := dx[i], dy[i], dz[i];
    assert TightBit(g, x, y, z, r.x[i], r.y[i], r.z[i]);
    hide Shows, Fit, Allows, GateSolutions, Tight;
    if Allows(r.x[i], b) { Complete(g, dx, dy, dz, r, i, PickX(g, x, y, z, b)); }
    if Allows(r.y[i], b) { Complete(g, dx, dy, dz, r, i, PickY(g, x, y, z, b)); }
    if Allows(r.z[i], b) { Complete(g, dx, dy, dz, r, i, PickZ(g, x, y, z, b)); }
  }

  lemma {:induction false} GatesAre(x: Bits, y: Bits)
    requires |x| == |y|
    ensures GateBits(AND_GATE, x, y) == AndBits(x, y)
    ensures GateBits(OR_GATE, x, y) == OrBits(x, y)
    ensures GateBits(XOR_GATE, x, y) == XorBits(x, y)
  {
  }

  ghost function AndSolutions(dx: Domain, dy: Domain, dz: Domain): Solutions {
    iset s: seq<Bits> | |s| == 3 && |s[0]| == |s[1]| && Member(dx, s[0]) && Member(dy, s[1]) && Member(dz, s[2])
      && s[2] == AndBits(s[0], s[1])
  }

  ghost function OrSolutions(dx: Domain, dy: Domain, dz: Domain): Solutions {
    iset s: seq<Bits> | |s| == 3 && |s[0]| == |s[1]| && Member(dx, s[0]) && Member(dy, s[1]) && Member(dz, s[2])
      && s[2] == OrBits(s[0], s[1])
  }

  ghost function XorSolutions(dx: Domain, dy: Domain, dz: Domain): Solutions {
    iset s: seq<Bits> | |s| == 3 && |s[0]| == |s[1]| && Member(dx, s[0]) && Member(dy, s[1]) && Member(dz, s[2])
      && s[2] == XorBits(s[0], s[1])
  }

  lemma {:induction false} SameSolutions(dx: Domain, dy: Domain, dz: Domain)
    ensures GateSolutions(AND_GATE, dx, dy, dz) == AndSolutions(dx, dy, dz)
    ensures GateSolutions(OR_GATE, dx, dy, dz) == OrSolutions(dx, dy, dz)
    ensures GateSolutions(XOR_GATE, dx, dy, dz) == XorSolutions(dx, dy, dz)
  {
    hide Member, GateBits, AndBits, OrBits, XorBits;
    forall s: seq<Bits> | |s| == 3 && |s[0]| == |s[1]|
      ensures GateBits(AND_GATE, s[0], s[1]) == AndBits(s[0], s[1])
      ensures GateBits(OR_GATE, s[0], s[1]) == OrBits(s[0], s[1])
      ensures GateBits(XOR_GATE, s[0], s[1]) == XorBits(s[0], s[1])
    {
      GatesAre(s[0], s[1]);
    }
  }

  /** `bzla_bvprop_and` */
  lemma {:induction false} AndBest(dx: Domain, dy: Domain, dz: Domain)
    requires |dx| == |dy| == |dz|
    ensures var r := PropAnd(dx, dy, dz); Best(r.ok, [r.x, r.y, r.z], AndSolutions(dx, dy, dz))
  {
    var r := PropAnd(dx, dy, dz);
    SameSolutions(dx, dy, dz);
    if r.ok {
      forall i | 0 <= i < |dx|
        ensures TightBit(AND_GATE, dx[i], dy[i], dz[i], r.x[i], r.y[i], r.z[i])
      {
        assert ValidBit(r.x[i]) && ValidBit(r.y[i]) && ValidBit(r.z[i]);
        AndTight(dx[i], dy[i], dz[i]);
      }
    }
    hide PropAnd, Has3, Member, AndBits, TightBit, Best, GateSolutions;
    forall s | s in AndSolutions(dx, dy, dz)
      ensures |s| == 3 && Has3(r, s[0], s[1], s[2])
    {
      AndSound(dx, dy, dz, s[0], s[1]);
    }
    GateBest(AND_GATE, dx, dy, dz, r);
  }

  /** `bzla_bvprop_or` */
  lemma {:induction false} OrBest(dx: Domain, dy: Domain, dz: Domain)
    requires |dx| == |dy| == |dz|
    ensures var r := PropOr(dx, dy, dz); Best(r.ok, [r.x, r.y, r.z], OrSolutions(dx, dy, dz))
  {
    var r := PropOr(dx, dy, dz);
    SameSolutions(dx, dy, dz);
    if r.ok {
      forall i | 0 <= i < |dx|
        ensures TightBit(OR_GATE, dx[i], dy[i], dz[i], r.x[i], r.y[i], r.z[i])
      {
        assert ValidBit(r.x[i]) && ValidBit(r.y[i]) && ValidBit(r.z[i]);
        OrTight(dx[i], dy[i], dz[i]);
      }
    }
    hide PropOr, Has3, Member, OrBits, TightBit, Best, GateSolutions;
    forall s | s in OrSolutions(dx, dy, dz)
      ensures |s| == 3 && Has3(r, s[0], s[1], s[2])
    {
      OrSound(dx, dy, dz, s[0], s[1]);
    }
    GateBest(OR_GATE, dx, dy, dz, r);
  }

  /** `bzla_bvprop_xor` */
  lemma {:induction false} XorBest(dx: Domain, dy: Domain, dz: Domain)
    requires |dx| == |dy| == |dz|
    ensures var r := PropXor(dx, dy, dz); Best(r.ok, [r.x, r.y, r.z], XorSolutions(dx, dy, dz))
  {
    var r := PropXor(dx, dy, dz);
    SameSolutions(dx, dy, dz);
    if r.ok {
      forall i | 0 <= i < |dx|
        ensures TightBit(XOR_GATE, dx[i], dy[i], dz[i], r.x[i], r.y[i], r.z[i])
      {
        assert ValidBit(r.x[i]) && ValidBit(r.y[i]) && ValidBit(r.z[i]);
        XorTight(dx[i], dy[i], dz[i]);
      }
    }
    hide PropXor, Has3, Member, XorBits, TightBit, Best, GateSolutions;
    forall s | s in XorSolutions(dx, dy, dz)
      ensures |s| == 3 && Has3(r, s[0], s[1], s[2])
    {
      XorSound(dx, dy, dz, s[0], s[1]);
    }
    GateBest(XOR_GATE, dx, dy, dz, r);
  }

  /** What an equality that must hold leaves of two domains. */
  function MeetBit(x: Bit, y: Bit): Bit { Bit(x.lo || y.lo, x.hi && y.hi) }

  // ---------------------------------------------------------------- a result that the operand determines

  /** Every member of the operand's result belongs to a solution. */
  lemma {:induction false} FromOperand(S: Solutions, d: Domain, f: Bits -> Bits)
    requires Valid(d) && forall s :: s in S ==> |s| == 2 && Member(d, s[0])
    requires forall v: Bits :: Member(d, v) ==> [v, f(v)] in S
    ensures Least(d, S, 0) && exists s :: s in S
  {
    hide Member, Shows, Valid, Allows;
    var u := Lo(d);
    LoMember(d);
    assert [u, f(u)] in S;
    forall i: nat, b: bool | i < |d| && Allows(d[i], b)
      ensures Shows(S, 0, i, b)
    {
      var v := u[i := b];
      Having(d, u, i, b);
      Witness(S, [v, f(v)], 0, i);
    }
  }

  /** A member with a given bit. */
  lemma {:induction false} WithBit(d: Domain, j: nat, c: bool) returns (v: Bits)
    requires Valid(d) && j < |d| && Allows(d[j], c)
    ensures Member(d, v) && |v| == |d| && v[j] == c
  {
    hide Valid, Allows;
    var u := Lo(d);
    LoMember(d);
    v := u[j := c];
    Having(d, u, j, c);
  }

  lemma {:induction false} OperandBest(r: Two, S: Solutions, f: Bits -> Bits)
    requires (r.ok ==> Valid(r.x)) && forall s :: s in S ==> |s| == 2 && Has2(r, s[0], s[1])
    requires r.ok ==> forall v: Bits :: Member(r.x, v) ==> [v, f(v)] in S
    requires r.ok ==> forall i: nat, b: bool :: i < |r.z| && Allows(r.z[i], b) ==> Shows(S, 1, i, b)
    ensures Best(r.ok, [r.x, r.z], S)
  {
    hide Member, Shows, Valid, Allows;
    if r.ok { FromOperand(S, r.x, f); }
    BestTwo(r.ok, r.x, r.z, S);
  }

  ghost function NotSolutions(dx: Domain, dz: Domain): Solutions {
    iset s: seq<Bits> | |s| == 2 && Member(dx, s[0]) && Member(dz, s[1]) && s[1] == NotBits(s[0])
  }

  lemma {:induction false} NotFrom(dx: Domain, dz: Domain, v: Bits)
    requires |dx| == |dz| && PropNot(dx, dz).ok && Member(PropNot(dx, dz).x, v)
    ensures [v, NotBits(v)] in NotSolutions(dx, dz)
  {
    var r, z := PropNot(dx, dz), NotBits(v);
    forall i | 0 <= i < |dx|
      ensures Allows(dx[i], v[i]) && Allows(dz[i], z[i])
    {
      assert Allows(r.x[i], v[i]);
    }
  }

  lemma {:induction false} NotShows(dx: Domain, dz: Domain, i: nat, b: bool)
    requires |dx| == |dz| && PropNot(dx, dz).ok && i < |dx| && Allows(PropNot(dx, dz).z[i], b)
    ensures Shows(NotSolutions(dx, dz), 1, i, b)
  {
    var r, S := PropNot(dx, dz), NotSolutions(dx, dz);
    var v := WithBit(r.x, i, !b);
    NotFrom(dx, dz, v);
    hide PropNot, NotSolutions, Shows, Member, Valid;
    Witness(S, [v, NotBits(v)], 1, i);
  }

  lemma {:induction false} NotHolds(dx: Domain, dz: Domain, s: seq<Bits>)
    requires |dx| == |dz| && s in NotSolutions(dx, dz)
    ensures |s| == 2 && Has2(PropNot(dx, dz), s[0], s[1])
  {
    hide PropNot, Has2;
    NotSound(dx, dz, s[0]);
  }

  /** `bzla_bvprop_not` */
  lemma {:induction false} NotBest(dx: Domain, dz: Domain)
    requires |dx| == |dz|
    ensures var r := PropNot(dx, dz); Best(r.ok, [r.x, r.z], NotSolutions(dx, dz))
  {
    var r, S, f := PropNot(dx, dz), NotSolutions(dx, dz), (v: Bits) => NotBits(v);
    assert r.ok ==> Valid(r.x);
    hide PropNot, Member, Valid, NotSolutions, Allows, Shows, Has2, Best;
    forall s | s in S
      ensures |s| == 2 && Has2(r, s[0], s[1])
    {
      NotHolds(dx, dz, s);
    }
    if r.ok {
      forall v: Bits | Member(r.x, v)
        ensures [v, f(v)] in S
      {
        NotFrom(dx, dz, v);
      }
      forall i: nat, b: bool | i < |r.z| && Allows(r.z[i], b)
        ensures Shows(S, 1, i, b)
      {
        NotShows(dx, dz, i, b);
      }
    }
    OperandBest(r, S, f);
  }

  // ---------------------------------------------------------------- shifts

  ghost function SllSolutions(dx: Domain, dz: Domain, n: nat): Solutions {
    iset s: seq<Bits> | |s| == 2 && Member(dx, s[0]) && Member(dz, s[1]) && s[1] == SllBits(s[0], n)
  }

  /** The bits of the result domains at one position. */
  lemma {:induction false} SllAt(dx: Domain, dz: Domain, n: nat, i: nat)
    requires |dx| == |dz| && i < |dx|
    ensures var r := PropSll(dx, dz, n);
            && |r.x| == |r.z| == |dx| && (r.ok ==> (r.x[i].lo ==> r.x[i].hi) && (r.z[i].lo ==> r.z[i].hi))
            && r.x[i] == (if i + n < |dx| then MeetBit(dx[i], dz[i + n]) else dx[i])
            && r.z[i] == (if i >= n then MeetBit(dx[i - n], dz[i]) else Bit(dz[i].lo, false))
  {
  }

  lemma {:induction false} SllFrom(dx: Domain, dz: Domain, n: nat, v: Bits)
    requires |dx| == |dz| && PropSll(dx, dz, n).ok && Member(PropSll(dx, dz, n).x, v)
    ensures [v, SllBits(v, n)] in SllSolutions(dx, dz, n)
  {
    var r, z := PropSll(dx, dz, n), SllBits(v, n);
    assert |v| == |dx|;
    hide PropSll;
    forall i | 0 <= i < |dx|
      ensures Allows(dx[i], v[i]) && Allows(dz[i], z[i])
    {
      SllAt(dx, dz, n, i);
      assert Allows(r.x[i], v[i]);
      if i >= n {
        var j := i - n;
        SllAt(dx, dz, n, j);
        assert Allows(r.x[j], v[j]);
      }
    }
  }

  lemma {:induction false} SllBitAt(v: Bits, n: nat, i: nat)
    requires i < |v|
    ensures SllBits(v, n)[i] == (i >= n && v[i - n])
  {
  }

  lemma {:induction false} SllShows(dx: Domain, dz: Domain, n: nat, i: nat, b: bool)
    requires |dx| == |dz| && PropSll(dx, dz, n).ok && i < |dx| && Allows(PropSll(dx, dz, n).z[i], b)
    ensures Shows(SllSolutions(dx, dz, n), 1, i, b)
  {
    var r, S := PropSll(dx, dz, n), SllSolutions(dx, dz, n);
    var j := if i >= n then i - n else i;
    SllAt(dx, dz, n, i);
    SllAt(dx, dz, n, j);
    assert Valid(r.x);
    hide PropSll, SllSolutions, Shows, Member, Valid, SllBits;
    var v := WithBit(r.x, j, if i >= n then b else r.x[i].lo);
    SllFrom(dx, dz, n, v);
    SllBitAt(v, n, i);
    Witness(S, [v, SllBits(v, n)], 1, i);
  }

  lemma {:induction false} SllHolds(dx: Domain, dz: Domain, n: nat, s: seq<Bits>)
    requires |dx| == |dz| && s in SllSolutions(dx, dz, n)
    ensures |s| == 2 && Has2(PropSll(dx, dz, n), s[0], s[1])
  {
    hide PropSll, Has2;
    SllSound(dx, dz, n, s[0]);
  }

  /** `bzla_bvprop_sll_const` */
  lemma {:induction false} SllBest(dx: Domain, dz: Domain, n: nat)
    requires |dx| == |dz|
    ensures var r := PropSll(dx, dz, n); Best(r.ok, [r.x, r.z], SllSolutions(dx, dz, n))
  {
    var r, S, f := PropSll(dx, dz, n), SllSolutions(dx, dz, n), (v: Bits) => SllBits(v, n);
    assert r.ok ==> Valid(r.x);
    hide PropSll, Member, Valid, SllSolutions, Allows, Shows, Has2, Best;
    forall s | s in S
      ensures |s| == 2 && Has2(r, s[0], s[1])
    {
      SllHolds(dx, dz, n, s);
    }
    if r.ok {
      forall v: Bits | Member(r.x, v)
        ensures [v, f(v)] in S
      {
        SllFrom(dx, dz, n, v);
      }
      forall i: nat, b: bool | i < |r.z| && Allows(r.z[i], b)
        ensures Shows(S, 1, i, b)
      {
        SllShows(dx, dz, n, i, b);
      }
    }
    OperandBest(r, S, f);
  }

  ghost function SrlSolutions(dx: Domain, dz: Domain, n: nat): Solutions {
    iset s: seq<Bits> | |s| == 2 && Member(dx, s[0]) && Member(dz, s[1]) && s[1] == SrlBits(s[0], n)
  }

  /** The bits of the result domains at one position. */
  lemma {:induction false} SrlAt(dx: Domain, dz: Domain, n: nat, i: nat)
    requires |dx| == |dz| && i < |dx|
    ensures var r := PropSrl(dx, dz, n);
            && |r.x| == |r.z| == |dx| && (r.ok ==> (r.x[i].lo ==> r.x[i].hi) && (r.z[i].lo ==> r.z[i].hi))
            && r.x[i] == (if i >= n then MeetBit(dx[i], dz[i - n]) else dx[i])
            && r.z[i] == (if i + n < |dx| then MeetBit(dx[i + n], dz[i]) else Bit(dz[i].lo, false))
  {
  }

  lemma {:induction false} SrlFrom(dx: Domain, dz: Domain, n: nat, v: Bits)
    requires |dx| == |dz| && PropSrl(dx, dz, n).ok && Member(PropSrl(dx, dz, n).x, v)
    ensures [v, SrlBits(v, n)] in SrlSolutions(dx, dz, n)
  {
    var r, z := PropSrl(dx, dz, n), SrlBits(v, n);
    assert |v| == |dx|;
    hide PropSrl;
    forall i | 0 <= i < |dx|
      ensures Allows(dx[i], v[i]) && Allows(dz[i], z[i])
    {
      SrlAt(dx, dz, n, i);
      assert Allows(r.x[i], v[i]);
      if i + n < |dx| {
        var j := i + n;
        SrlAt(dx, dz, n, j);
        assert Allows(r.x[j], v[j]);
      }
    }
  }

  lemma {:induction false} SrlBitAt(v: Bits, n: nat, i: nat)
    requires i < |v|
    ensures SrlBits(v, n)[i] == (i + n < |v| && v[i + n])
  {
  }

  lemma {:induction false} SrlShows(dx: Domain, dz: Domain, n: nat, i: nat, b: bool)
    requires |dx| == |dz| && PropSrl(dx, dz, n).ok && i < |dx| && Allows(PropSrl(dx, dz, n).z[i], b)
    ensures Shows(SrlSolutions(dx, dz, n), 1, i, b)
  {
    var r, S := PropSrl(dx, dz, n), SrlSolutions(dx, dz, n);
    var j := if i + n < |dx| then i + n else i;
    SrlAt(dx, dz, n, i);
    SrlAt(dx, dz, n, j);
    assert Valid(r.x);
    hide PropSrl, SrlSolutions, Shows, Member, Valid, SrlBits;
    var v := WithBit(r.x, j, if i + n < |dx| then b else r.x[i].lo);
    SrlFrom(dx, dz, n, v);
    SrlBitAt(v, n, i);
    Witness(S, [v, SrlBits(v, n)], 1, i);
  }

  lemma {:induction false} SrlHolds(dx: Domain, dz: Domain, n: nat, s: seq<Bits>)
    requires |dx| == |dz| && s in SrlSolutions(dx, dz, n)
    ensures |s| == 2 && Has2(PropSrl(dx, dz, n), s[0], s[1])
  {
    hide PropSrl, Has2;
    SrlSound(dx, dz, n, s[0]);
  }

  /** `bzla_bvprop_srl_const` */
  lemma {:induction false} SrlBest(dx: Domain, dz: Domain, n: nat)
    requires |dx| == |dz|
    ensures var r := PropSrl(dx, dz, n); Best(r.ok, [r.x, r.z], SrlSolutions(dx, dz, n))
  {
    var r, S, f := PropSrl(dx, dz, n), SrlSolutions(dx, dz, n), (v: Bits) => SrlBits(v, n);
    assert r.ok ==> Valid(r.x);
    hide PropSrl, Member, Valid, SrlSolutions, Allows, Shows, Has2, Best;
    forall s | s in S
      ensures |s| == 2 && Has2(r, s[0], s[1])
    {
      SrlHolds(dx, dz, n, s);
    }
    if r.ok {
      forall v: Bits | Member(r.x, v)
        ensures [v, f(v)] in S
      {
        SrlFrom(dx, dz, n, v);
      }
      forall i: nat, b: bool | i < |r.z| && Allows(r.z[i], b)
        ensures Shows(S, 1, i, b)
      {
        SrlShows(dx, dz, n, i, b);
      }
    }
    OperandBest(r, S, f);
  }

  // ---------------------------------------------------------------- sign extension

  ghost function SextSolutions(dx: Domain, dz: Domain): Solutions {
    iset s: seq<Bits> | |s| == 2 && 0 < |s[0]| < |s[1]| && Member(dx, s[0]) && Member(dz, s[1])
      && s[1] == SextBits(s[0], |s[1]| - |s[0]|)
  }

  function Extend(v: Bits, w: nat): Bits { if 0 < |v| < w then SextBits(v, w - |v|) else v }

  lemma {:induction false} SextFrom(dx: Domain, dz: Domain, v: Bits)
    requires 0 < |dx| < |dz| && PropSext(dx, dz).ok && Member(PropSext(dx, dz).x, v)
    ensures [v, Extend(v, |dz|)] in SextSolutions(dx, dz)
  {
    var r, z, k := PropSext(dx, dz), Extend(v, |dz|), |dx| - 1;
    forall i | 0 <= i < |dx|
      ensures Allows(dx[i], v[i])
    {
      assert Allows(r.x[i], v[i]);
    }
    forall i | 0 <= i < |dz|
      ensures Allows(dz[i], z[i])
    {
      if i < k {
        assert Allows(r.x[i], v[i]);
      } else {
        assert Allows(r.x[k], v[k]) && z[i] == v[k];
        TopBits(dz, k, i);
      }
    }
  }

  lemma {:induction false} TopBits(dz: Domain, k: nat, i: nat)
    requires k <= i < |dz|
    ensures (dz[i].lo ==> AnyLo(dz, k)) && (AllHi(dz, k) ==> dz[i].hi)
  {
  }

  lemma {:induction false} SextShows(dx: Domain, dz: Domain, i: nat, b: bool)
    requires 0 < |dx| < |dz| && PropSext(dx, dz).ok && i < |dz| && Allows(PropSext(dx, dz).z[i], b)
    ensures Shows(SextSolutions(dx, dz), 1, i, b)
  {
    var r, S, k := PropSext(dx, dz), SextSolutions(dx, dz), |dx| - 1;
    var j := if i < k then i else k;
    hide AnyLo, AllHi;
    assert Valid(r.x) && |r.x| == |dx| && Allows(r.x[j], b);
    hide PropSext, SextSolutions, Shows, Member, Valid;
    var v := WithBit(r.x, j, b);
    SextFrom(dx, dz, v);
    Witness(S, [v, Extend(v, |dz|)], 1, i);
  }

  lemma {:induction false} SextHolds(dx: Domain, dz: Domain, s: seq<Bits>)
    requires 0 < |dx| < |dz| && s in SextSolutions(dx, dz)
    ensures |s| == 2 && Has2(PropSext(dx, dz), s[0], s[1])
  {
    hide PropSext, Has2;
    SextSound(dx, dz, s[0]);
  }

  /** `bzla_bvprop_sext` */
  lemma {:induction false} SextBest(dx: Domain, dz: Domain)
    requires 0 < |dx| < |dz|
    ensures var r := PropSext(dx, dz); Best(r.ok, [r.x, r.z], SextSolutions(dx, dz))
  {
    var r, S, f := PropSext(dx, dz), SextSolutions(dx, dz), (v: Bits) => Extend(v, |dz|);
    assert r.ok ==> Valid(r.x);
    hide PropSext, Member, Valid, SextSolutions, Allows, Shows, Has2, Best;
    forall s | s in S
      ensures |s| == 2 && Has2(r, s[0], s[1])
    {
      SextHolds(dx, dz, s);
    }
    if r.ok {
      forall v: Bits | Member(r.x, v)
        ensures [v, f(v)] in S
      {
        SextFrom(dx, dz, v);
      }
      forall i: nat, b: bool | i < |r.z| && Allows(r.z[i], b)
        ensures Shows(S, 1, i, b)
      {
        SextShows(dx, dz, i, b);
      }
    }
    OperandBest(r, S, f);
  }

  // ---------------------------------------------------------------- slice and concatenation

  lemma {:induction false} EqualMeet(x: Domain, y: Domain)
    requires |x| == |y| && PropEq(x, y, [ONE]).ok
    ensures var e := PropEq(x, y, [ONE]);
            |e.x| == |x| && Valid(e.x) && e.x == e.y && forall i :: 0 <= i < |x| ==> e.x[i] == MeetBit(x[i], y[i])
  {
  }

  ghost function SliceSolutions(dx: Domain, dz: Domain, upper: nat, lower: nat): Solutions {
    iset s: seq<Bits> | |s| == 2 && lower <= upper < |s[0]| && Member(dx, s[0]) && Member(dz, s[1])
      && s[1] == s[0][lower..upper + 1]
  }

  function Part(v: Bits, upper: nat, lower: nat): Bits {
    if lower <= upper < |v| then v[lower..upper + 1] else v
  }

  lemma {:induction false} PartBit(v: Bits, upper: nat, lower: nat, i: nat)
    requires lower <= upper < |v| && i <= upper - lower
    ensures |Part(v, upper, lower)| == upper - lower + 1 && Part(v, upper, lower)[i] == v[lower + i]
  {
  }

  /** The bits of the result domains. */
  lemma {:induction false} SliceMeet(dx: Domain, dz: Domain, upper: nat, lower: nat)
    requires lower <= upper < |dx| && |dz| == upper - lower + 1 && PropSlice(dx, dz, upper, lower).ok
    ensures var r := PropSlice(dx, dz, upper, lower);
            && |r.x| == |dx| && |r.z| == |dz| && Valid(r.x)
            && (forall i :: 0 <= i < |dx| ==>
                  r.x[i] == if lower <= i <= upper then MeetBit(dx[i], dz[i - lower]) else dx[i])
            && (forall i :: 0 <= i < |dz| ==> r.z[i] == MeetBit(dx[lower + i], dz[i]))
  {
    EqualMeet(dx[lower..upper + 1], dz);
    hide PropEq;
  }

  lemma {:induction false} SliceFrom(dx: Domain, dz: Domain, upper: nat, lower: nat, v: Bits)
    requires lower <= upper < |dx| && |dz| == upper - lower + 1 && PropSlice(dx, dz, upper, lower).ok
    requires Member(PropSlice(dx, dz, upper, lower).x, v)
    ensures [v, Part(v, upper, lower)] in SliceSolutions(dx, dz, upper, lower)
  {
    SliceMeet(dx, dz, upper, lower);
    hide PropSlice;
    var r, z := PropSlice(dx, dz, upper, lower), Part(v, upper, lower);
    forall i | 0 <= i < |dx|
      ensures Allows(dx[i], v[i]) && (lower <= i <= upper ==> Allows(dz[i - lower], v[i]))
    {
      assert Allows(r.x[i], v[i]);
    }
    forall i | 0 <= i < |dz|
      ensures Allows(dz[i], z[i])
    {
      assert z[i] == v[lower + i];
    }
  }

  lemma {:induction false} SliceAt(dx: Domain, dz: Domain, upper: nat, lower: nat, i: nat)
    requires lower <= upper < |dx| && |dz| == upper - lower + 1 && PropSlice(dx, dz, upper, lower).ok && i < |dz|
    ensures var r := PropSlice(dx, dz, upper, lower);
            |r.x| == |dx| && |r.z| == |dz| && Valid(r.x) && r.z[i] == r.x[lower + i]
  {
    SliceMeet(dx, dz, upper, lower);
    hide PropSlice, Valid;
  }

  lemma {:induction false} SliceShows(dx: Domain, dz: Domain, upper: nat, lower: nat, i: nat, b: bool)
    requires lower <= upper < |dx| && |dz| == upper - lower + 1 && PropSlice(dx, dz, upper, lower).ok
    requires i < |dz| && Allows(PropSlice(dx, dz, upper, lower).z[i], b)
    ensures Shows(SliceSolutions(dx, dz, upper, lower), 1, i, b)
  {
    SliceAt(dx, dz, upper, lower, i);
    hide PropSlice, SliceSolutions, Part, Member, Shows, Valid, Allows;
    var r, S := PropSlice(dx, dz, upper, lower), SliceSolutions(dx, dz, upper, lower);
    var v := WithBit(r.x, lower + i, b);
    SliceFrom(dx, dz, upper, lower, v);
    PartBit(v, upper, lower, i);
    Witness(S, [v, Part(v, upper, lower)], 1, i);
  }

  lemma {:induction false} SliceHolds(dx: Domain, dz: Domain, upper: nat, lower: nat, s: seq<Bits>)
    requires lower <= upper < |dx| && |dz| == upper - lower + 1 && s in SliceSolutions(dx, dz, upper, lower)
    ensures |s| == 2 && Has2(PropSlice(dx, dz, upper, lower), s[0], s[1])
  {
    hide PropSlice, Has2;
    SliceSound(dx, dz, upper, lower, s[0]);
  }

  /** `bzla_bvprop_slice` */
  lemma {:induction false} SliceBest(dx: Domain, dz: Domain, upper: nat, lower: nat)
    requires lower <= upper < |dx| && |dz| == upper - lower + 1
    ensures var r := PropSlice(dx, dz, upper, lower); Best(r.ok, [r.x, r.z], SliceSolutions(dx, dz, upper, lower))
  {
    var r, S := PropSlice(dx, dz, upper, lower), SliceSolutions(dx, dz, upper, lower);
    var f := (v: Bits) => Part(v, upper, lower);
    hide PropSlice, Member, Valid, SliceSolutions, Allows, Shows, Has2, Best;
    forall s | s in S
      ensures |s| == 2 && Has2(r, s[0], s[1])
    {
      SliceHolds(dx, dz, upper, lower, s);
    }
    if r.ok {
      SliceMeet(dx, dz, upper, lower);
      forall v: Bits | Member(r.x, v)
        ensures [v, f(v)] in S
      {
        SliceFrom(dx, dz, upper, lower, v);
      }
      forall i: nat, b: bool | i < |r.z| && Allows(r.z[i], b)
        ensures Shows(S, 1, i, b)
      {
        SliceShows(dx, dz, upper, lower, i, b);
      }
    }
    OperandBest(r, S, f);
  }

  ghost function ConcatSolutions(dx: Domain, dy: Domain, dz: Domain): Solutions {
    iset s: seq<Bits> | |s| == 3 && Member(dx, s[0]) && Member(dy, s[1]) && Member(dz, s[2]) && s[2] == s[1] + s[0]
  }

  lemma {:induction false} ConcatMeet(dx: Domain, dy: Domain, dz: Domain)
    requires |dz| == |dx| + |dy| && PropConcat(dx, dy, dz).ok
    ensures var r, w := PropConcat(dx, dy, dz), |dy|;
            && |r.x| == |dx| && |r.y| == |dy| && r.z == r.y + r.x && Valid(r.x) && Valid(r.y)
            && (forall i :: 0 <= i < |dx| ==> r.x[i] == MeetBit(dx[i], dz[w + i]))
            && (forall i :: 0 <= i < |dy| ==> r.y[i] == MeetBit(dy[i], dz[i]))
  {
    EqualMeet(dz[|dy|..], dx);
    EqualMeet(dz[..|dy|], dy);
    hide PropEq;
  }

  /** The upper part behind the lower one. */
  function Join(x: Bits, y: Bits): Bits { y + x }

  lemma {:induction false} JoinBit(x: Bits, y: Bits, i: nat)
    requires i < |x| + |y|
    ensures |Join(x, y)| == |x| + |y| && Join(x, y)[i] == if i < |y| then y[i] else x[i - |y|]
  {
  }

  lemma {:induction false} ConcatMember(dx: Domain, dy: Domain, dz: Domain, x: Bits, y: Bits)
    requires |dz| == |dx| + |dy| && |x| == |dx| && |y| == |dy|
    requires forall i :: 0 <= i < |dx| ==> Allows(dz[|dy| + i], x[i])
    requires forall i :: 0 <= i < |dy| ==> Allows(dz[i], y[i])
    ensures Member(dz, y + x)
  {
    hide Allows;
    forall i | 0 <= i < |dz|
      ensures Allows(dz[i], (y + x)[i])
    {
      if i >= |dy| { assert Allows(dz[|dy| + (i - |dy|)], x[i - |dy|]); }
    }
  }

  lemma {:induction false} ConcatFrom(dx: Domain, dy: Domain, dz: Domain, x: Bits, y: Bits)
    requires |dz| == |dx| + |dy| && PropConcat(dx, dy, dz).ok
    requires Member(PropConcat(dx, dy, dz).x, x) && Member(PropConcat(dx, dy, dz).y, y)
    ensures [x, y, Join(x, y)] in ConcatSolutions(dx, dy, dz)
  {
    ConcatMeet(dx, dy, dz);
    hide PropConcat;
    var r, w := PropConcat(dx, dy, dz), |dy|;
    forall i | 0 <= i < |dx|
      ensures Allows(dx[i], x[i]) && Allows(dz[w + i], x[i])
    {
      assert Allows(r.x[i], x[i]);
    }
    forall i | 0 <= i < |dy|
      ensures Allows(dy[i], y[i]) && Allows(dz[i], y[i])
    {
      assert Allows(r.y[i], y[i]);
    }
    hide Allows;
    ConcatMember(dx, dy, dz, x, y);
  }

  lemma {:induction false} ConcatParts(dx: Domain, dy: Domain, dz: Domain)
    requires |dz| == |dx| + |dy| && PropConcat(dx, dy, dz).ok
    ensures var r := PropConcat(dx, dy, dz);
            |r.x| == |dx| && |r.y| == |dy| && r.z == r.y + r.x && Valid(r.x) && Valid(r.y)
  {
    ConcatMeet(dx, dy, dz);
    hide PropConcat, MeetBit, Valid;
  }

  lemma {:induction false} ConcatSizes(dx: Domain, dy: Domain, dz: Domain)
    requires |dz| == |dx| + |dy| && PropConcat(dx, dy, dz).ok
    ensures var r := PropConcat(dx, dy, dz); |r.x| == |dx| && |r.y| == |dy| && Valid(r.x) && Valid(r.y)
  {
    ConcatParts(dx, dy, dz);
    hide PropConcat, Valid;
  }

  lemma {:induction false} ConcatAt(dx: Domain, dy: Domain, dz: Domain, i: nat)
    requires |dz| == |dx| + |dy| && PropConcat(dx, dy, dz).ok
    ensures var r, w := PropConcat(dx, dy, dz), |dy|;
            && |r.x| == |dx| && |r.y| == w && |r.z| == |dz|
            && (i < |dz| ==> r.z[i] == if i < w then r.y[i] else r.x[i - w])
  {
    ConcatParts(dx, dy, dz);
    hide PropConcat, Valid;
  }

  lemma {:induction false} ConcatSome(dx: Domain, dy: Domain, dz: Domain)
    requires |dz| == |dx| + |dy| && PropConcat(dx, dy, dz).ok
    ensures exists s :: s in ConcatSolutions(dx, dy, dz)
  {
    ConcatSizes(dx, dy, dz);
    hide PropConcat, ConcatSolutions, Valid, Member, Join;
    var r := PropConcat(dx, dy, dz);
    LoMember(r.x);
    LoMember(r.y);
    ConcatFrom(dx, dy, dz, Lo(r.x), Lo(r.y));
  }

  /** A bit of the upper operand, and with it one of the result. */
  lemma {:induction false} UpperShows(dx: Domain, dy: Domain, dz: Domain, i: nat, b: bool)
    requires |dz| == |dx| + |dy| && PropConcat(dx, dy, dz).ok
    requires i < |PropConcat(dx, dy, dz).x| && Allows(PropConcat(dx, dy, dz).x[i], b)
    ensures Shows(ConcatSolutions(dx, dy, dz), 0, i, b) && Shows(ConcatSolutions(dx, dy, dz), 2, |dy| + i, b)
  {
    ConcatSizes(dx, dy, dz);
    hide PropConcat, ConcatSolutions, Shows, Allows, Valid, Member, Join;
    var r, S := PropConcat(dx, dy, dz), ConcatSolutions(dx, dy, dz);
    LoMember(r.y);
    var y := Lo(r.y);
    var v := WithBit(r.x, i, b);
    ConcatFrom(dx, dy, dz, v, y);
    JoinBit(v, y, |dy| + i);
    Witness(S, [v, y, Join(v, y)], 0, i);
    Witness(S, [v, y, Join(v, y)], 2, |dy| + i);
  }

  lemma {:induction false} LowerShows(dx: Domain, dy: Domain, dz: Domain, i: nat, b: bool)
    requires |dz| == |dx| + |dy| && PropConcat(dx, dy, dz).ok
    requires i < |PropConcat(dx, dy, dz).y| && Allows(PropConcat(dx, dy, dz).y[i], b)
    ensures Shows(ConcatSolutions(dx, dy, dz), 1, i, b) && Shows(ConcatSolutions(dx, dy, dz), 2, i, b)
  {
    ConcatSizes(dx, dy, dz);
    hide PropConcat, ConcatSolutions, Shows, Allows, Valid, Member, Join;
    var r, S := PropConcat(dx, dy, dz), ConcatSolutions(dx, dy, dz);
    LoMember(r.x);
    var x := Lo(r.x);
    var v := WithBit(r.y, i, b);
    ConcatFrom(dx, dy, dz, x, v);
    JoinBit(x, v, i);
    Witness(S, [x, v, Join(x, v)], 1, i);
    Witness(S, [x, v, Join(x, v)], 2, i);
  }

  lemma {:induction false} ResultShows(dx: Domain, dy: Domain, dz: Domain, i: nat, b: bool)
    requires |dz| == |dx| + |dy| && PropConcat(dx, dy, dz).ok
    requires i < |PropConcat(dx, dy, dz).z| && Allows(PropConcat(dx, dy, dz).z[i], b)
    ensures Shows(ConcatSolutions(dx, dy, dz), 2, i, b)
  {
    ConcatAt(dx, dy, dz, i);
    hide PropConcat, ConcatSolutions, Shows, Allows;
    if i < |dy| {
      LowerShows(dx, dy, dz, i, b);
    } else {
      var k: nat := i - |dy|;
      UpperShows(dx, dy, dz, k, b);
    }
  }

  lemma {:induction false} ConcatHolds(dx: Domain, dy: Domain, dz: Domain, s: seq<Bits>)
    requires |dz| == |dx| + |dy| && s in ConcatSolutions(dx, dy, dz)
    ensures |s| == 3 && Has3(PropConcat(dx, dy, dz), s[0], s[1], s[2])
  {
    hide PropConcat, Has3;
    ConcatSound(dx, dy, dz, s[0], s[1]);
  }

  /** `bzla_bvprop_concat` */
  lemma {:induction false} ConcatBest(dx: Domain, dy: Domain, dz: Domain)
    requires |dz| == |dx| + |dy|
    ensures var r := PropConcat(dx, dy, dz); Best(r.ok, [r.x, r.y, r.z], ConcatSolutions(dx, dy, dz))
  {
    var r, S := PropConcat(dx, dy, dz), ConcatSolutions(dx, dy, dz);
    hide PropConcat, Member, Valid, ConcatSolutions, Allows, Shows, Best, MeetBit, Has3;
    forall s | s in S
      ensures |s| == 3 && Has3(r, s[0], s[1], s[2])
    {
      ConcatHolds(dx, dy, dz, s);
    }
    if r.ok {
      ConcatSome(dx, dy, dz);
      forall i: nat, b: bool | i < |r.x| && Allows(r.x[i], b)
        ensures Shows(S, 0, i, b)
      {
        UpperShows(dx, dy, dz, i, b);
      }
      forall i: nat, b: bool | i < |r.y| && Allows(r.y[i], b)
        ensures Shows(S, 1, i, b)
      {
        LowerShows(dx, dy, dz, i, b);
      }
      forall i: nat, b: bool | i < |r.z| && Allows(r.z[i], b)
        ensures Shows(S, 2, i, b)
      {
        ResultShows(dx, dy, dz, i, b);
      }
    }
    AllShown(r, S);
  }

  // ---------------------------------------------------------------- equality

  ghost function EqSolutions(dx: Domain, dy: Domain, dz: Domain): Solutions {
    iset s: seq<Bits> | |s| == 3 && |s[0]| == |s[1]| && Member(dx, s[0]) && Member(dy, s[1]) && Member(dz, s[2])
      && s[2] == [s[0] == s[1]]
  }

  predicate OpenBit(d: Bit) { d.lo != d.hi }

  /** Both bits are fixed, to the same value. */
  predicate Agreed(x: Bit, y: Bit) { x == y && !OpenBit(x) }

  /** The operands must differ, only at position `i` they still can, and there one of them is fixed. */
  predicate LastChance(dx: Domain, dy: Domain, dz: Domain, i: nat)
    requires |dx| == |dy| && |dz| == 1
  {
    && !dz[0].hi && i < |dx| && OpenBit(dx[i]) != OpenBit(dy[i])
    && forall j :: 0 <= j < |dx| && j != i ==> Agreed(dx[j], dy[j])
  }

  lemma {:induction false} EqWitness(dx: Domain, dy: Domain, dz: Domain, x: Bits, y: Bits)
    requires |dz| == 1 && |dx| == |dy| && Member(dx, x) && Member(dy, y) && Allows(dz[0], x == y)
    ensures [x, y, [x == y]] in EqSolutions(dx, dy, dz)
  {
  }

  lemma {:induction false} EqShows(dx: Domain, dy: Domain, dz: Domain, x: Bits, y: Bits, i: nat)
    requires |dz| == 1 && |dx| == |dy| && Member(dx, x) && Member(dy, y) && Allows(dz[0], x == y) && i < |dx|
    ensures |x| == |y| == |dx|
    ensures Shows(EqSolutions(dx, dy, dz), 0, i, x[i]) && Shows(EqSolutions(dx, dy, dz), 1, i, y[i])
  {
    EqWitness(dx, dy, dz, x, y);
    var s := [x, y, [x == y]];
    assert |x| == |y| == |dx|;
    hide EqSolutions, Member, Allows, Shows;
    Witness(EqSolutions(dx, dy, dz), s, 0, i);
    Witness(EqSolutions(dx, dy, dz), s, 1, i);
  }

  lemma {:induction false} EqShowsResult(dx: Domain, dy: Domain, dz: Domain, x: Bits, y: Bits)
    requires |dz| == 1 && |dx| == |dy| && Member(dx, x) && Member(dy, y) && Allows(dz[0], x == y)
    ensures Shows(EqSolutions(dx, dy, dz), 2, 0, x == y)
  {
    EqWitness(dx, dy, dz, x, y);
    hide EqSolutions, Member, Allows, Shows;
    Witness(EqSolutions(dx, dy, dz), [x, y, [x == y]], 2, 0);
  }

  /** Operands that may be equal. */
  lemma {:induction false} SomeEqual(dx: Domain, dy: Domain) returns (v: Bits)
    requires |dx| == |dy| && Valid(dx) && Valid(dy) && !MustDiffer(dx, dy)
    ensures Member(dx, v) && Member(dy, v)
  {
    v := seq(|dx|, i requires 0 <= i < |dx| => dx[i].lo || dy[i].lo);
    forall i | 0 <= i < |dx|
      ensures Allows(dx[i], v[i]) && Allows(dy[i], v[i])
    {
    }
  }

  /** Where the bits are not agreed, the operands can be made different. */
  lemma {:induction false} Differ(dx: Domain, dy: Domain, x: Bits, y: Bits, j: nat) returns (u: Bits, v: Bits)
    requires |dx| == |dy| && Member(dx, x) && Member(dy, y) && j < |dx| && !Agreed(dx[j], dy[j])
    ensures Member(dx, u) && Member(dy, v) && |u| == |v| == |x| == |y| == |dx| && u != v
    ensures forall i :: 0 <= i < |x| && i != j ==> u[i] == x[i] && v[i] == y[i]
    ensures OpenBit(dy[j]) ==> u == x
    ensures OpenBit(dx[j]) ==> OpenBit(dy[j]) || v == y
  {
    u, v := x, y;
    assert Allows(dx[j], x[j]) && Allows(dy[j], y[j]);
    if x[j] == y[j] {
      if OpenBit(dy[j]) {
        Having(dy, y, j, !y[j]);
        v := y[j := !y[j]];
      } else {
        Having(dx, x, j, !x[j]);
        u := x[j := !x[j]];
      }
    }
    assert u[j] != v[j];
  }

  lemma {:induction false} NotAgreed(dx: Domain, dy: Domain) returns (j: nat)
    requires |dx| == |dy| && Valid(dx) && Valid(dy) && !MustAgree(dx, dy)
    ensures j < |dx| && !Agreed(dx[j], dy[j])
  {
    j :| j < |dx| && !((dx[j].lo && dy[j].lo) || (!dx[j].hi && !dy[j].hi));
  }

  lemma {:induction false} EqHolds(dx: Domain, dy: Domain, dz: Domain, s: seq<Bits>)
    requires |dx| == |dy| && |dz| == 1 && s in EqSolutions(dx, dy, dz)
    ensures |s| == 3 && Has3(PropEq(dx, dy, dz), s[0], s[1], s[2])
  {
    hide PropEq, Has3;
    EqSound(dx, dy, dz, s[0], s[1]);
  }

  /** The operands if the result is not fixed to 0, each value of a bit with some solution. */
  lemma {:induction false} EqOperands(dx: Domain, dy: Domain, dz: Domain, i: nat, b: bool)
    requires |dx| == |dy| && |dz| == 1 && Valid(dx) && Valid(dy) && Valid(dz) && PropEq(dx, dy, dz).ok && dz[0].hi
    ensures var r, S := PropEq(dx, dy, dz), EqSolutions(dx, dy, dz);
            && |r.x| == |r.y| == |dx|
            && (i < |dx| && Allows(r.x[i], b) ==> Shows(S, 0, i, b))
            && (i < |dx| && Allows(r.y[i], b) ==> Shows(S, 1, i, b))
  {
    var r := PropEq(dx, dy, dz);
    assert |r.x| == |r.y| == |dx|;
    if i < |dx| && (Allows(r.x[i], b) || Allows(r.y[i], b)) {
      if dz[0].lo {
        assert dz == [ONE];
        EqualMeet(dx, dy);
        hide PropEq;
        var v := WithBit(r.x, i, b);
        MeetMember(dx, dy, r.x, v);
        EqShows(dx, dy, dz, v, v, i);
      } else {
        LoMember(dx);
        LoMember(dy);
        if Allows(dx[i], b) {
          var v := WithBit(dx, i, b);
          EqShows(dx, dy, dz, v, Lo(dy), i);
        }
        if Allows(dy[i], b) {
          var v := WithBit(dy, i, b);
          EqShows(dx, dy, dz, Lo(dx), v, i);
        }
      }
    }
  }

  lemma {:induction false} MeetMember(dx: Domain, dy: Domain, d: Domain, v: Bits)
    requires |dx| == |dy| == |d| && Member(d, v) && forall i :: 0 <= i < |d| ==> d[i] == MeetBit(dx[i], dy[i])
    ensures Member(dx, v) && Member(dy, v)
  {
    forall i | 0 <= i < |d|
      ensures Allows(dx[i], v[i]) && Allows(dy[i], v[i])
    {
      assert Allows(d[i], v[i]);
    }
  }

  lemma {:induction false} MayDiffer(dx: Domain, dy: Domain, dz: Domain)
    requires |dx| == |dy| && |dz| == 1 && PropEq(dx, dy, dz).ok && !dz[0].hi
    ensures !MustAgree(dx, dy) && Valid(dz)
  {
    var r := PropEq(dx, dy, dz);
    var b := r.z[0];
    assert b.lo ==> b.hi;
  }

  /** The operands if they must differ and have more than one chance to. */
  lemma {:induction false} NeOperands(dx: Domain, dy: Domain, dz: Domain, i: nat, b: bool)
    requires |dx| == |dy| && |dz| == 1 && Valid(dx) && Valid(dy) && PropEq(dx, dy, dz).ok && !dz[0].hi && !dz[0].lo
    requires i < |dx| && !LastChance(dx, dy, dz, i)
    ensures Allows(dx[i], b) ==> Shows(EqSolutions(dx, dy, dz), 0, i, b)
    ensures Allows(dy[i], b) ==> Shows(EqSolutions(dx, dy, dz), 1, i, b)
  {
    LoMember(dx);
    LoMember(dy);
    MayDiffer(dx, dy, dz);
    var j := NotAgreed(dx, dy);
    hide PropEq;
    if k :| 0 <= k < |dx| && k != i && !Agreed(dx[k], dy[k]) {
      j := k;
    }
    if Allows(dx[i], b) {
      var x := WithBit(dx, i, b);
      var u, v := Differ(dx, dy, x, Lo(dy), j);
      EqShows(dx, dy, dz, u, v, i);
    }
    if Allows(dy[i], b) {
      var y := WithBit(dy, i, b);
      var v, u := Differ(dy, dx, y, Lo(dx), j);
      EqShows(dx, dy, dz, u, v, i);
    }
  }

  /** With one chance left, the open bit there should have been fixed. */
  lemma {:induction false} ChanceLost(dx: Domain, dy: Domain, dz: Domain, i: nat)
    requires |dx| == |dy| && |dz| == 1 && Valid(dx) && Valid(dy) && LastChance(dx, dy, dz, i) && PropEq(dx, dy, dz).ok
    ensures var r, S := PropEq(dx, dy, dz), EqSolutions(dx, dy, dz); !(Least(r.x, S, 0) && Least(r.y, S, 1))
  {
    var r, S := PropEq(dx, dy, dz), EqSolutions(dx, dy, dz);
    MayDiffer(dx, dy, dz);
    NeSame(dx, dy, dz);
    hide PropEq;
    var b := if OpenBit(dx[i]) then dy[i].lo else dx[i].lo;
    forall s | s in S
      ensures |s| == 3 && |s[0]| == |s[1]| == |dx| && (if OpenBit(dx[i]) then s[0][i] != b else s[1][i] != b)
    {
      LastDiffers(dx, dy, dz, i, s);
    }
    if OpenBit(dx[i]) {
      assert Allows(dx[i], b) && !Shows(S, 0, i, b);
    } else {
      assert Allows(dy[i], b) && !Shows(S, 1, i, b);
    }
  }

  lemma {:induction false} LastDiffers(dx: Domain, dy: Domain, dz: Domain, i: nat, s: seq<Bits>)
    requires |dx| == |dy| && |dz| == 1 && LastChance(dx, dy, dz, i) && s in EqSolutions(dx, dy, dz)
    ensures |s| == 3 && |s[0]| == |s[1]| == |dx| && s[0][i] != s[1][i]
    ensures if OpenBit(dx[i]) then s[1][i] == dy[i].lo else s[0][i] == dx[i].lo
  {
    var x, y := s[0], s[1];
    assert Allows(dz[0], s[2][0]) && Allows(dx[i], x[i]) && Allows(dy[i], y[i]);
    forall j | 0 <= j < |x| && j != i
      ensures x[j] == y[j]
    {
      assert Allows(dx[j], x[j]) && Allows(dy[j], y[j]) && Agreed(dx[j], dy[j]);
    }
    assert x[i] == y[i] ==> x == y;
  }

  /** The result, and that there is a solution. */
  lemma {:induction false} EqResult(dx: Domain, dy: Domain, dz: Domain)
    requires |dx| == |dy| && |dz| == 1 && Valid(dx) && Valid(dy) && Valid(dz) && PropEq(dx, dy, dz).ok
    ensures var r, S := PropEq(dx, dy, dz), EqSolutions(dx, dy, dz);
            && |r.z| == 1 && (exists s :: s in S)
            && (forall b: bool :: Allows(r.z[0], b) ==> Shows(S, 2, 0, b))
  {
    var r, S := PropEq(dx, dy, dz), EqSolutions(dx, dy, dz);
    assert |r.z| == 1;
    if Allows(r.z[0], true) {
      var v := SomeEqual(dx, dy);
      EqWitness(dx, dy, dz, v, v);
      EqShowsResult(dx, dy, dz, v, v);
    }
    if Allows(r.z[0], false) {
      LoMember(dx);
      LoMember(dy);
      var j := NotAgreed(dx, dy);
      var u, v := Differ(dx, dy, Lo(dx), Lo(dy), j);
      EqWitness(dx, dy, dz, u, v);
      EqShowsResult(dx, dy, dz, u, v);
    }
    assert Allows(r.z[0], true) || Allows(r.z[0], false);
  }

  /** `bzla_bvprop_eq`: the answer and the result are the best, and so are the operands unless they must
      differ and have a last chance to. */
  lemma {:induction false} EqBest(dx: Domain, dy: Domain, dz: Domain)
    requires |dx| == |dy| && |dz| == 1 && Valid(dx) && Valid(dy) && Valid(dz)
    ensures var r, S := PropEq(dx, dy, dz), EqSolutions(dx, dy, dz);
            && Solvable(r.ok, S)
            && (r.ok ==> Least(r.z, S, 2))
            && (r.ok ==> (Least(r.x, S, 0) && Least(r.y, S, 1) <==>
                  forall i: nat :: i < |dx| ==> !LastChance(dx, dy, dz, i)))
  {
    var r, S := PropEq(dx, dy, dz), EqSolutions(dx, dy, dz);
    EqSizes(dx, dy, dz);
    hide PropEq, EqSolutions, LastChance, Allows, Shows, Member, Least, Valid;
    forall s | s in S
      ensures |s| == 3 && r.ok && Member(r.x, s[0]) && Member(r.y, s[1]) && Member(r.z, s[2])
    {
      EqHolds(dx, dy, dz, s);
    }
    if r.ok {
      EqResult(dx, dy, dz);
      LeastOf(r.z, S, 2);
      if i: nat :| i < |dx| && LastChance(dx, dy, dz, i) {
        ChanceLost(dx, dy, dz, i);
      } else {
        forall i: nat, b: bool | i < |dx|
          ensures |r.x| == |r.y| == |dx|
          ensures Allows(r.x[i], b) ==> Shows(S, 0, i, b)
          ensures Allows(r.y[i], b) ==> Shows(S, 1, i, b)
        {
          EqOperand1(dx, dy, dz, i, b);
        }
        LeastOf(r.x, S, 0);
        LeastOf(r.y, S, 1);
      }
    }
  }

  lemma {:induction false} EqSizes(dx: Domain, dy: Domain, dz: Domain)
    requires |dx| == |dy| && |dz| == 1
    ensures var r := PropEq(dx, dy, dz); |r.x| == |r.y| == |dx| && |r.z| == 1
  {
  }

  lemma {:induction false} EqOperand1(dx: Domain, dy: Domain, dz: Domain, i: nat, b: bool)
    requires |dx| == |dy| && |dz| == 1 && Valid(dx) && Valid(dy) && Valid(dz) && PropEq(dx, dy, dz).ok
    requires i < |dx| && !LastChance(dx, dy, dz, i)
    ensures var r, S := PropEq(dx, dy, dz), EqSolutions(dx, dy, dz);
            && |r.x| == |r.y| == |dx|
            && (Allows(r.x[i], b) ==> Shows(S, 0, i, b)) && (Allows(r.y[i], b) ==> Shows(S, 1, i, b))
  {
    if dz[0].hi {
      EqOperands(dx, dy, dz, i, b);
    } else {
      NeSame(dx, dy, dz);
      NeOperands(dx, dy, dz, i, b);
    }
  }

  lemma {:induction false} NeSame(dx: Domain, dy: Domain, dz: Domain)
    requires |dx| == |dy| && |dz| == 1 && Valid(dx) && Valid(dy) && Valid(dz) && !dz[0].hi
    ensures !dz[0].lo && PropEq(dx, dy, dz).x == dx && PropEq(dx, dy, dz).y == dy
  {
    assert !dz[0].lo;
  }

  /** A last chance: the free bit has to be 0, and stays free. */
  lemma {:induction false} EqLastExample()
    ensures var r := PropEq([FREE], [ONE], [ZERO]); r.ok && r.x == [FREE] && LastChance([FREE], [ONE], [ZERO], 0)
    ensures forall s :: s in EqSolutions([FREE], [ONE], [ZERO]) ==> |s| == 3 && s[0] == [false]
  {
    var dx, dy, dz := [FREE], [ONE], [ZERO];
    var r := PropEq(dx, dy, dz);
    assert dy[0] == ONE && dz[0] == ZERO && dx[0] == FREE;
    assert r.x == [EqOperand(false, FREE, ONE)] && r.y == [EqOperand(false, ONE, FREE)];
    forall s | s in EqSolutions(dx, dy, dz)
      ensures |s| == 3 && s[0] == [false]
    {
      LastDiffers(dx, dy, dz, 0, s);
    }
  }
}
