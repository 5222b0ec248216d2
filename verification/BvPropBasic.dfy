/** The basic propagators (src/bzlabvprop.c:538-849, 1207-1765): fresh domains built bit by
    bit from the bounds of the operands.

    Each comes with what makes it usable in a decomposition: no solution leaves the result
    domains, the answer `false` means that there is none, and results only get narrower.
 */
module BvPropBasic {
  import opened BvDomain

  datatype Two = Two(ok: bool, x: Domain, z: Domain)

  datatype Three = Three(ok: bool, x: Domain, y: Domain, z: Domain)

  // ---------------------------------------------------------------- the operations on bits

  function NotBits(x: Bits): (r: Bits)
    ensures |r| == |x|
  { seq(|x|, i requires 0 <= i < |x| => !x[i]) }

  function AndBits(x: Bits, y: Bits): (r: Bits)
    requires |x| == |y|
    ensures |r| == |x|
  { seq(|x|, i requires 0 <= i < |x| => x[i] && y[i]) }

  function OrBits(x: Bits, y: Bits): (r: Bits)
    requires |x| == |y|
    ensures |r| == |x|
  { seq(|x|, i requires 0 <= i < |x| => x[i] || y[i]) }

  function XorBits(x: Bits, y: Bits): (r: Bits)
    requires |x| == |y|
    ensures |r| == |x|
  { seq(|x|, i requires 0 <= i < |x| => x[i] != y[i]) }

  /** Shift left by `n`, zeros shifted in. */
  function SllBits(x: Bits, n: nat): (r: Bits)
    ensures |r| == |x|
  { seq(|x|, i requires 0 <= i < |x| => i >= n && x[i - n]) }

  function SrlBits(x: Bits, n: nat): (r: Bits)
    ensures |r| == |x|
  { seq(|x|, i requires 0 <= i < |x| => i + n < |x| && x[i + n]) }

  /** `n` copies of the top bit on top. */
  function SextBits(x: Bits, n: nat): (r: Bits)
    requires |x| > 0
    ensures |r| == |x| + n
  { x + seq(n, _ => x[|x| - 1]) }

  function CondBits(c: bool, x: Bits, y: Bits): Bits { if c then x else y }

  // ---------------------------------------------------------------- bitwise propagators

  function AndOperand(x: Bit, y: Bit, z: Bit): Bit { Bit(x.lo || z.lo, x.hi && (z.hi || !y.lo)) }

  function AndResult(x: Bit, y: Bit, z: Bit): Bit { Bit(z.lo || (x.lo && y.lo), z.hi && x.hi && y.hi) }

  function OrOperand(x: Bit, y: Bit, z: Bit): Bit { Bit(x.lo || (!y.hi && z.lo), x.hi && z.hi) }

  function OrResult(x: Bit, y: Bit, z: Bit): Bit { Bit(z.lo || x.lo || y.lo, z.hi && (x.hi || y.hi)) }

  function XorOne(x: Bit, y: Bit, z: Bit): Bit {
    Bit(x.lo || (!z.hi && y.lo) || (z.lo && !y.hi), x.hi && (z.hi || y.hi) && !(y.lo && z.lo))
  }

  function NotOne(x: Bit, z: Bit): Bit { Bit(x.lo || !z.hi, x.hi && !z.lo) }

  /** `bzla_bvprop_not` */
  function PropNot(x: Domain, z: Domain): Two
    requires |x| == |z|
  {
    var rx := seq(|x|, i requires 0 <= i < |x| => NotOne(x[i], z[i]));
    var rz := seq(|x|, i requires 0 <= i < |x| => NotOne(z[i], x[i]));
    Two(Valid(rx) && Valid(rz), rx, rz)
  }

  /** `bzla_bvprop_and` */
  function PropAnd(x: Domain, y: Domain, z: Domain): Three
    requires |x| == |y| == |z|
  {
    var rx := seq(|x|, i requires 0 <= i < |x| => AndOperand(x[i], y[i], z[i]));
    var ry := seq(|x|, i requires 0 <= i < |x| => AndOperand(y[i], x[i], z[i]));
    var rz := seq(|x|, i requires 0 <= i < |x| => AndResult(x[i], y[i], z[i]));
    Three(Valid(rx) && Valid(ry) && Valid(rz), rx, ry, rz)
  }

  /** `bzla_bvprop_or` */
  function PropOr(x: Domain, y: Domain, z: Domain): Three
    requires |x| == |y| == |z|
  {
    var rx := seq(|x|, i requires 0 <= i < |x| => OrOperand(x[i], y[i], z[i]));
    var ry := seq(|x|, i requires 0 <= i < |x| => OrOperand(y[i], x[i], z[i]));
    var rz := seq(|x|, i requires 0 <= i < |x| => OrResult(x[i], y[i], z[i]));
    Three(Valid(rx) && Valid(ry) && Valid(rz), rx, ry, rz)
  }

  /** `bzla_bvprop_xor` */
  function PropXor(x: Domain, y: Domain, z: Domain): Three
    requires |x| == |y| == |z|
  {
    var rx := seq(|x|, i requires 0 <= i < |x| => XorOne(x[i], y[i], z[i]));
    var ry := seq(|x|, i requires 0 <= i < |x| => XorOne(y[i], x[i], z[i]));
    var rz := seq(|x|, i requires 0 <= i < |x| => XorOne(z[i], x[i], y[i]));
    Three(Valid(rx) && Valid(ry) && Valid(rz), rx, ry, rz)
  }

  /** What every propagator keeps: results are narrower, and valid if it answers `true`. */
  ghost predicate Keeps2(r: Two, x: Domain, z: Domain) {
    Narrows(r.x, x) && Narrows(r.z, z) && (r.ok ==> Valid(r.x) && Valid(r.z))
  }

  ghost predicate Keeps3(r: Three, x: Domain, y: Domain, z: Domain) {
    Narrows(r.x, x) && Narrows(r.y, y) && Narrows(r.z, z) && (r.ok ==> Valid(r.x) && Valid(r.y) && Valid(r.z))
  }

  /** The solution survives. */
  ghost predicate Has2(r: Two, x: Bits, z: Bits) { r.ok && Member(r.x, x) && Member(r.z, z) }

  ghost predicate Has3(r: Three, x: Bits, y: Bits, z: Bits) {
    r.ok && Member(r.x, x) && Member(r.y, y) && Member(r.z, z)
  }

  lemma {:induction false} NotSound(dx: Domain, dz: Domain, x: Bits)
    requires Member(dx, x) && Member(dz, NotBits(x))
    ensures Has2(PropNot(dx, dz), x, NotBits(x))
  {
    var r, z := PropNot(dx, dz), NotBits(x);
    forall i | 0 <= i < |dx|
      ensures Allows(r.x[i], x[i]) && Allows(r.z[i], z[i])
    {
      assert Allows(dx[i], x[i]) && Allows(dz[i], z[i]);
    }
    MemberValid(r.x, x);
    MemberValid(r.z, z);
  }

  lemma {:induction false} AndSound(dx: Domain, dy: Domain, dz: Domain, x: Bits, y: Bits)
    requires |x| == |y| && Member(dx, x) && Member(dy, y) && Member(dz, AndBits(x, y))
    ensures Has3(PropAnd(dx, dy, dz), x, y, AndBits(x, y))
  {
    var r, z := PropAnd(dx, dy, dz), AndBits(x, y);
    forall i | 0 <= i < |dx|
      ensures Allows(r.x[i], x[i]) && Allows(r.y[i], y[i]) && Allows(r.z[i], z[i])
    {
      assert Allows(dx[i], x[i]) && Allows(dy[i], y[i]) && Allows(dz[i], z[i]);
    }
    MemberValid(r.x, x);
    MemberValid(r.y, y);
    MemberValid(r.z, z);
  }

  lemma {:induction false} OrSound(dx: Domain, dy: Domain, dz: Domain, x: Bits, y: Bits)
    requires |x| == |y| && Member(dx, x) && Member(dy, y) && Member(dz, OrBits(x, y))
    ensures Has3(PropOr(dx, dy, dz), x, y, OrBits(x, y))
  {
    var r, z := PropOr(dx, dy, dz), OrBits(x, y);
    forall i | 0 <= i < |dx|
      ensures Allows(r.x[i], x[i]) && Allows(r.y[i], y[i]) && Allows(r.z[i], z[i])
    {
      assert Allows(dx[i], x[i]) && Allows(dy[i], y[i]) && Allows(dz[i], z[i]);
    }
    MemberValid(r.x, x);
    MemberValid(r.y, y);
    MemberValid(r.z, z);
  }

  lemma {:induction false} XorSound(dx: Domain, dy: Domain, dz: Domain, x: Bits, y: Bits)
    requires |x| == |y| && Member(dx, x) && Member(dy, y) && Member(dz, XorBits(x, y))
    ensures Has3(PropXor(dx, dy, dz), x, y, XorBits(x, y))
  {
    var r, z := PropXor(dx, dy, dz), XorBits(x, y);
    forall i | 0 <= i < |dx|
      ensures Allows(r.x[i], x[i]) && Allows(r.y[i], y[i]) && Allows(r.z[i], z[i])
    {
      assert Allows(dx[i], x[i]) && Allows(dy[i], y[i]) && Allows(dz[i], z[i]);
    }
    MemberValid(r.x, x);
    MemberValid(r.y, y);
    MemberValid(r.z, z);
  }

  lemma {:induction false} BitwiseKeeps(x: Domain, y: Domain, z: Domain)
    requires |x| == |y| == |z|
    ensures Keeps2(PropNot(x, z), x, z)
    ensures Keeps3(PropAnd(x, y, z), x, y, z)
    ensures Keeps3(PropOr(x, y, z), x, y, z)
    ensures Keeps3(PropXor(x, y, z), x, y, z)
  {
  }

  // ---------------------------------------------------------------- equality

  /** A set lower bound of the equality copies the other operand's bounds. */
  function EqOperand(s: bool, x: Bit, y: Bit): Bit { Bit(x.lo || (s && y.lo), x.hi && !(s && !y.hi)) }

  predicate MustAgree(x: Domain, y: Domain)
    requires |x| == |y|
  {
    forall i :: 0 <= i < |x| ==> (x[i].lo && y[i].lo) || (!x[i].hi && !y[i].hi)
  }

  predicate MustDiffer(x: Domain, y: Domain)
    requires |x| == |y|
  {
    exists i :: 0 <= i < |x| && ((x[i].lo && !y[i].hi) || (!x[i].hi && y[i].lo))
  }

  /** `bzla_bvprop_eq`: later parts are only narrowed while the earlier ones stay valid. */
  function PropEq(x: Domain, y: Domain, z: Domain): Three
    requires |x| == |y| && |z| == 1
  {
    var s := z[0].lo;
    var rx := seq(|x|, i requires 0 <= i < |x| => EqOperand(s, x[i], y[i]));
    if !Valid(rx) then Three(false, rx, y, z) else
    var ry := seq(|x|, i requires 0 <= i < |x| => EqOperand(s, y[i], x[i]));
    if !Valid(ry) then Three(false, rx, ry, z) else
    var rz := [Bit(z[0].lo || MustAgree(x, y), z[0].hi && !MustDiffer(x, y))];
    Three(Valid(rz), rx, ry, rz)
  }

  lemma {:induction false} EqSound(dx: Domain, dy: Domain, dz: Domain, x: Bits, y: Bits)
    requires |dx| == |dy| && Member(dx, x) && Member(dy, y) && Member(dz, [x == y])
    ensures Has3(PropEq(dx, dy, dz), x, y, [x == y])
  {
    var s := dz[0].lo;
    assert Allows(dz[0], x == y);
    var rx := seq(|dx|, i requires 0 <= i < |dx| => EqOperand(s, dx[i], dy[i]));
    var ry := seq(|dx|, i requires 0 <= i < |dx| => EqOperand(s, dy[i], dx[i]));
    forall i | 0 <= i < |dx|
      ensures Allows(rx[i], x[i]) && Allows(ry[i], y[i])
    {
      assert Allows(dx[i], x[i]) && Allows(dy[i], y[i]);
    }
    MemberValid(rx, x);
    MemberValid(ry, y);
    if MustAgree(dx, dy) {
      forall i | 0 <= i < |x|
        ensures x[i] == y[i]
      {
        assert Allows(dx[i], x[i]) && Allows(dy[i], y[i]);
        assert (dx[i].lo && dy[i].lo) || (!dx[i].hi && !dy[i].hi);
      }
    }
    if MustDiffer(dx, dy) {
      var i :| 0 <= i < |dx| && ((dx[i].lo && !dy[i].hi) || (!dx[i].hi && dy[i].lo));
      assert Allows(dx[i], x[i]) && Allows(dy[i], y[i]);
      assert x[i] != y[i];
    }
  }

  lemma {:induction false} EqKeeps(x: Domain, y: Domain, z: Domain)
    requires |x| == |y| && |z| == 1 && Valid(x) && Valid(y) && Valid(z)
    ensures Keeps3(PropEq(x, y, z), x, y, z)
  {
  }

  // ---------------------------------------------------------------- shift by a constant

  /** `bzla_bvprop_sll_const` */
  function PropSll(x: Domain, z: Domain, n: nat): Two
    requires |x| == |z|
  {
    var w := |x|;
    var rx := seq(w, i requires 0 <= i < w =>
      Bit(x[i].lo || (i + n < w && z[i + n].lo), (i + n < w ==> z[i + n].hi) && x[i].hi));
    var rz := seq(w, i requires 0 <= i < w =>
      Bit((i >= n && x[i - n].lo) || z[i].lo, i >= n && x[i - n].hi && z[i].hi));
    Two(Valid(rx) && Valid(rz), rx, rz)
  }

  /** `bzla_bvprop_srl_const` */
  function PropSrl(x: Domain, z: Domain, n: nat): Two
    requires |x| == |z|
  {
    var w := |x|;
    var rx := seq(w, i requires 0 <= i < w =>
      Bit(x[i].lo || (i >= n && z[i - n].lo), (i >= n ==> z[i - n].hi) && x[i].hi));
    var rz := seq(w, i requires 0 <= i < w =>
      Bit((i + n < w && x[i + n].lo) || z[i].lo, i + n < w && x[i + n].hi && z[i].hi));
    Two(Valid(rx) && Valid(rz), rx, rz)
  }

  lemma {:induction false} SllSound(dx: Domain, dz: Domain, n: nat, x: Bits)
    requires Member(dx, x) && Member(dz, SllBits(x, n))
    ensures Has2(PropSll(dx, dz, n), x, SllBits(x, n))
  {
    var r, z, w := PropSll(dx, dz, n), SllBits(x, n), |dx|;
    forall i | 0 <= i < w
      ensures Allows(r.x[i], x[i]) && Allows(r.z[i], z[i])
    {
      assert Allows(dx[i], x[i]) && Allows(dz[i], z[i]);
      if i + n < w { assert Allows(dz[i + n], z[i + n]); }
      if i >= n { assert Allows(dx[i - n], x[i - n]); }
    }
    MemberValid(r.x, x);
    MemberValid(r.z, z);
  }

  lemma {:induction false} SrlSound(dx: Domain, dz: Domain, n: nat, x: Bits)
    requires Member(dx, x) && Member(dz, SrlBits(x, n))
    ensures Has2(PropSrl(dx, dz, n), x, SrlBits(x, n))
  {
    var r, z, w := PropSrl(dx, dz, n), SrlBits(x, n), |dx|;
    forall i | 0 <= i < w
      ensures Allows(r.x[i], x[i]) && Allows(r.z[i], z[i])
    {
      assert Allows(dx[i], x[i]) && Allows(dz[i], z[i]);
      if i >= n { assert Allows(dz[i - n], z[i - n]); }
      if i + n < w { assert Allows(dx[i + n], x[i + n]); }
    }
    MemberValid(r.x, x);
    MemberValid(r.z, z);
  }

  lemma {:induction false} ShiftKeeps(x: Domain, z: Domain, n: nat)
    requires |x| == |z|
    ensures Keeps2(PropSll(x, z, n), x, z) && Keeps2(PropSrl(x, z, n), x, z)
  {
  }

  // ---------------------------------------------------------------- slice, concat, sext

  function NewInvalid(w: nat): (d: Domain)
    ensures |d| == w
  { seq(w, _ => Bit(true, false)) }

  /** `bzla_bvprop_slice`: equality of the sliced part, the rest of `x` unchanged. */
  function PropSlice(x: Domain, z: Domain, upper: nat, lower: nat): Two
    requires lower <= upper < |x| && |z| == upper - lower + 1
  {
    var e := PropEq(x[lower..upper + 1], z, [ONE]);
    if !e.ok then Two(false, NewInvalid(|x|), e.x) else
    var rx := x[..lower] + e.x + x[upper + 1..];
    Two(Valid(rx) && Valid(e.x), rx, e.x)
  }

  lemma {:induction false} SliceSound(dx: Domain, dz: Domain, upper: nat, lower: nat, x: Bits)
    requires lower <= upper < |dx| && |dz| == upper - lower + 1
    requires Member(dx, x) && Member(dz, x[lower..upper + 1])
    ensures Has2(PropSlice(dx, dz, upper, lower), x, x[lower..upper + 1])
  {
    hide PropEq;
    var z := x[lower..upper + 1];
    forall i | 0 <= i < |z|
      ensures Allows(dx[lower..upper + 1][i], z[i])
    {
      assert Allows(dx[lower + i], x[lower + i]);
    }
    assert Member(dx[lower..upper + 1], z);
    assert Member([ONE], [z == z]);
    EqSound(dx[lower..upper + 1], dz, [ONE], z, z);
    var e := PropEq(dx[lower..upper + 1], dz, [ONE]);
    var rx := dx[..lower] + e.x + dx[upper + 1..];
    forall i | 0 <= i < |dx|
      ensures Allows(rx[i], x[i])
    {
      assert Allows(dx[i], x[i]);
      if lower <= i <= upper { assert Allows(e.x[i - lower], z[i - lower]); }
    }
    MemberValid(rx, x);
    MemberValid(e.x, z);
  }

  lemma {:induction false} SliceKeeps(x: Domain, z: Domain, upper: nat, lower: nat)
    requires lower <= upper < |x| && |z| == upper - lower + 1 && Valid(x) && Valid(z)
    requires PropSlice(x, z, upper, lower).ok
    ensures Keeps2(PropSlice(x, z, upper, lower), x, z)
  {
    var s := x[lower..upper + 1];
    var e := PropEq(s, z, [ONE]);
    EqKeeps(s, z, [ONE]);
    forall i | 0 <= i < |z|
      ensures NarrowsBit(e.x[i], z[i])
    {
      assert e.x[i] == EqOperand(true, s[i], z[i]);
    }
    var rx := x[..lower] + e.x + x[upper + 1..];
    forall i | 0 <= i < |x|
      ensures NarrowsBit(rx[i], x[i])
    {
      if lower <= i <= upper { assert NarrowsBit(e.x[i - lower], s[i - lower]); }
    }
  }

  /** `bzla_bvprop_concat`; when it answers `false` the results are not used. */
  function PropConcat(x: Domain, y: Domain, z: Domain): Three
    requires |z| == |x| + |y|
  {
    var ex := PropEq(z[|y|..], x, [ONE]);
    if !ex.ok then Three(false, ex.x, y, z) else
    var ey := PropEq(z[..|y|], y, [ONE]);
    if !ey.ok then Three(false, ex.x, ey.x, z) else
    var rz := ey.x + ex.x;
    Three(Valid(ex.x) && Valid(ey.x) && Valid(rz), ex.x, ey.x, rz)
  }

  lemma {:induction false} ConcatSound(dx: Domain, dy: Domain, dz: Domain, x: Bits, y: Bits)
    requires |dz| == |dx| + |dy| && Member(dx, x) && Member(dy, y) && Member(dz, y + x)
    ensures Has3(PropConcat(dx, dy, dz), x, y, y + x)
  {
    hide PropEq;
    var z := y + x;
    forall i | 0 <= i < |dx|
      ensures Allows(dz[|dy|..][i], x[i])
    {
      assert Allows(dz[|dy| + i], z[|dy| + i]);
    }
    forall i | 0 <= i < |dy|
      ensures Allows(dz[..|dy|][i], y[i])
    {
      assert Allows(dz[i], z[i]);
    }
    assert Member([ONE], [x == x]) && Member([ONE], [y == y]);
    EqSound(dz[|dy|..], dx, [ONE], x, x);
    EqSound(dz[..|dy|], dy, [ONE], y, y);
    var ex, ey := PropEq(dz[|dy|..], dx, [ONE]), PropEq(dz[..|dy|], dy, [ONE]);
    forall i | 0 <= i < |dz|
      ensures Allows((ey.x + ex.x)[i], z[i])
    {
      if i < |dy| { assert Allows(ey.x[i], y[i]); } else { assert Allows(ex.x[i - |dy|], x[i - |dy|]); }
    }
    MemberValid(ex.x, x);
    MemberValid(ey.x, y);
    MemberValid(ey.x + ex.x, z);
  }

  predicate AnyLo(z: Domain, k: nat) { exists i :: k <= i < |z| && z[i].lo }

  predicate AllHi(z: Domain, k: nat) { forall i :: k <= i < |z| ==> z[i].hi }

  /** `bzla_bvprop_sext` */
  function PropSext(x: Domain, z: Domain): Two
    requires 0 < |x| < |z|
  {
    var k := |x| - 1;
    var redor, redand := AnyLo(z, k), AllHi(z, k);
    var rx := seq(|x|, i requires 0 <= i < |x| =>
      if i < k then Bit(x[i].lo || z[i].lo, x[i].hi && z[i].hi) else Bit(x[k].lo || redor, x[k].hi && redand));
    var rz := seq(|z|, i requires 0 <= i < |z| =>
      if i < k then Bit(x[i].lo || z[i].lo, x[i].hi && z[i].hi)
      else Bit(z[i].lo || x[k].lo || redor, z[i].hi && x[k].hi && redand));
    Two(Valid(rx) && Valid(rz), rx, rz)
  }

  lemma {:induction false} SextSound(dx: Domain, dz: Domain, x: Bits)
    requires 0 < |dx| < |dz| && Member(dx, x) && Member(dz, SextBits(x, |dz| - |dx|))
    ensures Has2(PropSext(dx, dz), x, SextBits(x, |dz| - |dx|))
  {
    var k := |dx| - 1;
    var r, z := PropSext(dx, dz), SextBits(x, |dz| - |dx|);
    forall i | k <= i < |z|
      ensures z[i] == x[k]
    {
    }
    if AnyLo(dz, k) {
      var i :| k <= i < |dz| && dz[i].lo;
      assert Allows(dz[i], z[i]);
    }
    if !AllHi(dz, k) {
      var i :| k <= i < |dz| && !dz[i].hi;
      assert Allows(dz[i], z[i]);
    }
    assert Allows(dx[k], x[k]);
    forall i | 0 <= i < |dx|
      ensures Allows(r.x[i], x[i])
    {
      assert Allows(dx[i], x[i]) && Allows(dz[i], z[i]);
    }
    forall i | 0 <= i < |dz|
      ensures Allows(r.z[i], z[i])
    {
      assert Allows(dz[i], z[i]);
      if i < k { assert Allows(dx[i], x[i]); }
    }
    MemberValid(r.x, x);
    MemberValid(r.z, z);
  }

  lemma {:induction false} SextKeeps(x: Domain, z: Domain)
    requires 0 < |x| < |z|
    ensures Keeps2(PropSext(x, z), x, z)
  {
  }

  // ---------------------------------------------------------------- fixed operands

  lemma {:induction false} NotSettles(dx: Domain, dz: Domain)
    requires |dx| == |dz| && PropNot(dx, dz).ok && Fixed(PropNot(dx, dz).x)
    ensures PropNot(dx, dz).z == NewFixed(NotBits(Lo(PropNot(dx, dz).x)))
  {
    var r := PropNot(dx, dz);
    forall i | 0 <= i < |dx|
      ensures r.z[i] == FixedBit(!r.x[i].lo)
    {
      var x, z := r.x[i], r.z[i];
      assert (x.lo ==> x.hi) && (z.lo ==> z.hi) && x.lo == x.hi;
    }
  }

  lemma {:induction false} AndSettles(dx: Domain, dy: Domain, dz: Domain)
    requires |dx| == |dy| == |dz| && PropAnd(dx, dy, dz).ok
    requires Fixed(PropAnd(dx, dy, dz).x) && Fixed(PropAnd(dx, dy, dz).y)
    ensures var r := PropAnd(dx, dy, dz); r.z == NewFixed(AndBits(Lo(r.x), Lo(r.y)))
  {
    var r := PropAnd(dx, dy, dz);
    forall i | 0 <= i < |dx|
      ensures r.z[i] == FixedBit(r.x[i].lo && r.y[i].lo)
    {
      var x, y, z := r.x[i], r.y[i], r.z[i];
      assert (x.lo ==> x.hi) && (y.lo ==> y.hi) && (z.lo ==> z.hi) && x.lo == x.hi && y.lo == y.hi;
    }
  }

  lemma {:induction false} OrSettles(dx: Domain, dy: Domain, dz: Domain)
    requires |dx| == |dy| == |dz| && PropOr(dx, dy, dz).ok
    requires Fixed(PropOr(dx, dy, dz).x) && Fixed(PropOr(dx, dy, dz).y)
    ensures var r := PropOr(dx, dy, dz); r.z == NewFixed(OrBits(Lo(r.x), Lo(r.y)))
  {
    var r := PropOr(dx, dy, dz);
    forall i | 0 <= i < |dx|
      ensures r.z[i] == FixedBit(r.x[i].lo || r.y[i].lo)
    {
      var x, y, z := r.x[i], r.y[i], r.z[i];
      assert (x.lo ==> x.hi) && (y.lo ==> y.hi) && (z.lo ==> z.hi) && x.lo == x.hi && y.lo == y.hi;
    }
  }

  lemma {:induction false} XorSettles(dx: Domain, dy: Domain, dz: Domain)
    requires |dx| == |dy| == |dz| && PropXor(dx, dy, dz).ok
    requires Fixed(PropXor(dx, dy, dz).x) && Fixed(PropXor(dx, dy, dz).y)
    ensures var r := PropXor(dx, dy, dz); r.z == NewFixed(XorBits(Lo(r.x), Lo(r.y)))
  {
    var r := PropXor(dx, dy, dz);
    forall i | 0 <= i < |dx|
      ensures r.z[i] == FixedBit(r.x[i].lo != r.y[i].lo)
    {
      var x, y, z := r.x[i], r.y[i], r.z[i];
      assert (x.lo ==> x.hi) && (y.lo ==> y.hi) && (z.lo ==> z.hi) && x.lo == x.hi && y.lo == y.hi;
    }
  }

  lemma {:induction false} EqAgrees(dx: Domain, dy: Domain, dz: Domain)
    requires |dx| == |dy| && |dz| == 1 && Valid(dx) && Valid(dy) && PropEq(dx, dy, dz).ok
    ensures var r := PropEq(dx, dy, dz);
            |r.x| == |r.y| == |dx| && (r.z == [ONE] ==> r.x == r.y)
  {
    var r := PropEq(dx, dy, dz);
    if r.z == [ONE] {
      assert r.z[0] == ONE && (dz[0].lo || MustAgree(dx, dy));
      forall i | 0 <= i < |dx|
        ensures r.x[i] == r.y[i]
      {
        var x, y := dx[i], dy[i];
        assert (x.lo ==> x.hi) && (y.lo ==> y.hi);
      }
    }
  }

  lemma {:induction false} EqSettles(dx: Domain, dy: Domain, dz: Domain)
    requires |dx| == |dy| && |dz| == 1 && Valid(dx) && Valid(dy) && Valid(dz) && PropEq(dx, dy, dz).ok
    ensures var r := PropEq(dx, dy, dz);
            && |r.x| == |r.y| == |dx| && |r.z| == 1
            && (Fixed(r.x) && Fixed(r.y) ==> r.z == [FixedBit(Lo(r.x) == Lo(r.y))])
            && (r.z == [ONE] ==> r.x == r.y)
  {
    EqAgrees(dx, dy, dz);
    var r := PropEq(dx, dy, dz);
    if Fixed(r.x) && Fixed(r.y) {
      if dz[0].hi { EqFixed(dx, dy, dz); } else { NeFixed(dx, dy, dz); }
    }
  }

  lemma {:induction false} EqFixed(dx: Domain, dy: Domain, dz: Domain)
    requires |dx| == |dy| && |dz| == 1 && Valid(dx) && Valid(dy) && Valid(dz) && PropEq(dx, dy, dz).ok && dz[0].hi
    requires Fixed(PropEq(dx, dy, dz).x) && Fixed(PropEq(dx, dy, dz).y)
    ensures var r := PropEq(dx, dy, dz); r.z == [FixedBit(Lo(r.x) == Lo(r.y))]
  {
    var r := PropEq(dx, dy, dz);
    if dz[0].lo {
      assert Lo(r.x) == Lo(r.y);
      forall i | 0 <= i < |dx|
        ensures !((dx[i].lo && !dy[i].hi) || (!dx[i].hi && dy[i].lo))
      {
        var x := r.x[i];
        assert x.lo ==> x.hi;
      }
    } else {
      assert r.x == dx && r.y == dy;
      FixedEqual(dx, dy);
    }
  }

  lemma {:induction false} FixedEqual(dx: Domain, dy: Domain)
    requires |dx| == |dy| && Valid(dx) && Valid(dy) && Fixed(dx) && Fixed(dy)
    ensures MustAgree(dx, dy) <==> Lo(dx) == Lo(dy)
    ensures MustDiffer(dx, dy) <==> Lo(dx) != Lo(dy)
  {
    if Lo(dx) == Lo(dy) {
      forall i | 0 <= i < |dx|
        ensures (dx[i].lo && dy[i].lo) || (!dx[i].hi && !dy[i].hi)
      {
        assert Lo(dx)[i] == Lo(dy)[i];
      }
    } else {
      var i :| 0 <= i < |dx| && Lo(dx)[i] != Lo(dy)[i];
      assert dx[i].lo != dy[i].lo;
    }
  }

  lemma {:induction false} NeFixed(dx: Domain, dy: Domain, dz: Domain)
    requires |dx| == |dy| && |dz| == 1 && Valid(dx) && Valid(dy) && Valid(dz) && PropEq(dx, dy, dz).ok && !dz[0].hi
    requires Fixed(PropEq(dx, dy, dz).x) && Fixed(PropEq(dx, dy, dz).y)
    ensures var r := PropEq(dx, dy, dz); r.z == [FixedBit(Lo(r.x) == Lo(r.y))]
  {
    var r := PropEq(dx, dy, dz);
    assert !dz[0].lo && r.x == dx && r.y == dy;
    var b := r.z[0];
    assert b.lo ==> b.hi;
    FixedEqual(dx, dy);
  }

  lemma {:induction false} SllSettles(dx: Domain, dz: Domain, n: nat)
    requires |dx| == |dz| && PropSll(dx, dz, n).ok && Fixed(PropSll(dx, dz, n).x)
    ensures PropSll(dx, dz, n).z == NewFixed(SllBits(Lo(PropSll(dx, dz, n).x), n))
  {
    var r := PropSll(dx, dz, n);
    forall i | 0 <= i < |dx|
      ensures r.z[i] == FixedBit(i >= n && r.x[i - n].lo)
    {
      var z := r.z[i];
      assert z.lo ==> z.hi;
      if i >= n {
        var x := r.x[i - n];
        assert (x.lo ==> x.hi) && x.lo == x.hi;
      }
    }
  }

  lemma {:induction false} SliceSettles(dx: Domain, dz: Domain, upper: nat, lower: nat)
    requires lower <= upper < |dx| && |dz| == upper - lower + 1 && PropSlice(dx, dz, upper, lower).ok
    ensures var r := PropSlice(dx, dz, upper, lower); |r.x| == |dx| && r.x[lower..upper + 1] == r.z
  {
  }
}
