/** Consistency checks for the shifts (src/bzlaconsutils.c:193-535). */
module BvConsShift {
  import opened Arith
  import opened BvDomain
  import opened BvPropBasic
  import opened BvFill
  import opened BvNat
  import opened BvGenerator
  import opened BvSignedGenerator
  import opened BvRef
  import opened BvReach
  import opened BvReachArith
  import opened BvCons

  /** The answer of a check is right, and a stored value proves it. */
  ghost predicate Right(op: Op, pos: nat, x: Domain, t: Bits, res: bool) { res <==> Consistent(op, pos, x, t) }

  ghost predicate Stored(op: Op, pos: nat, x: Domain, t: Bits, value: Option<Bits>) {
    value.Some? ==> |value.value| > 0 && Member(x, value.value) && Reaches(op, pos, value.value, t)
  }

  /** `bzla_bvdomain_gen_init` and `bzla_bvdomain_gen_random` on a domain with a free bit. */
  method AnyMember(x: Domain, min: Option<Bits>) returns (v: Bits)
    requires Valid(x) && !Fixed(x) && (min.Some? ==> |min.value| == |x| && Nat(min.value) <= Nat(Hi(x)))
    ensures Member(x, v) && (min.Some? ==> Nat(min.value) <= Nat(v))
  {
    var gen := new Generator(x, min, None);
    LoMember(x);
    assert Wanted(x, min, None, if min.Some? then Hi(x) else Lo(x));
    assert (if min.Some? then Hi(x) else Lo(x)) in gen.Coming();
    v := gen.Random();
  }

  /** The same draw without knowing of a free bit: an empty generator has no value to give, where
      the source fails its assertion on the bounds of the free bits. */
  method Draw(x: Domain) returns (v: Option<Bits>)
    requires Valid(x)
    ensures v.Some? <==> AllWanted(x, None, None) != iset{}
    ensures v.Some? <==> !Fixed(x)
    ensures v.Some? ==> Member(x, v.value)
  {
    EmptyIfFixed(x);
    var gen := new Generator(x, None, None);
    var has := gen.HasNext();
    if !has { return None; }
    var u := gen.Random();
    v := Some(u);
  }

  lemma {:induction false} EmptyIfFixed(x: Domain)
    requires Valid(x)
    ensures Fixed(x) <==> AllWanted(x, None, None) == iset{}
  {
    LoMember(x);
    assert Fixed(x) || Lo(x) in AllWanted(x, None, None);
  }

  // ---------------------------------------------------------------- left shift, first operand

  /** Shifted by `n`, the low bits of some value of the domain are the target. */
  ghost predicate SllMatch(x: Domain, t: Bits, n: nat) {
    n <= |x| == |t| && Member(x[..|t| - n], t[n..])
  }

  ghost predicate SrlMatch(x: Domain, t: Bits, n: nat) {
    n <= |x| == |t| && Member(x[n..], t[..|t| - n])
  }

  /** A match at a shift other than 0: the bits shifted out of the target are then drawn from
      a generator, which has none to give when `x` is fixed. */
  ghost predicate SllDraws(x: Domain, t: Bits, limit: nat) { exists n :: 1 <= n < limit && SllMatch(x, t, n) }

  ghost predicate SrlDraws(x: Domain, t: Bits, limit: nat) { exists n :: 1 <= n < limit && SrlMatch(x, t, n) }

  /** The slice of the target is one of those that match. */
  ghost predicate SllSlice(x: Domain, t: Bits, limit: nat, s: Bits) {
    |s| <= |t| && |t| - |s| < limit && SllMatch(x, t, |t| - |s|) && s == t[|t| - |s|..]
  }

  ghost predicate SrlSlice(x: Domain, t: Bits, limit: nat, s: Bits) {
    |s| <= |t| && |t| - |s| < limit && SrlMatch(x, t, |t| - |s|) && s == t[..|s|]
  }

  /** The stack holds the matching slices, for shifts below the limit. */
  ghost predicate SllStack(x: Domain, t: Bits, limit: nat, stack: seq<Bits>) {
    && |x| == |t| && limit <= |t|
    && (forall s :: s in stack ==> SllSlice(x, t, limit, s))
    && forall n :: 0 <= n < limit && SllMatch(x, t, n) ==> t[n..] in stack
  }

  ghost predicate SrlStack(x: Domain, t: Bits, limit: nat, stack: seq<Bits>) {
    && |x| == |t| && limit <= |t|
    && (forall s :: s in stack ==> SrlSlice(x, t, limit, s))
    && forall n :: 0 <= n < limit && SrlMatch(x, t, n) ==> t[..|t| - n] in stack
  }

  method SllMatches(x: Domain, t: Bits, limit: nat) returns (stack: seq<Bits>)
    requires Valid(x) && |x| == |t| && limit <= |t|
    ensures SllStack(x, t, limit, stack)
  {
    stack := [];
    for i := 0 to limit
      invariant SllStack(x, t, i, stack)
    {
      var xSlice, tSlice := x[..|t| - i], t[i..];
      CheckIsMember(xSlice, tSlice);
      if CheckFixedBits(xSlice, tSlice) { stack := stack + [tSlice]; }
    }
  }

  method SrlMatches(x: Domain, t: Bits, limit: nat) returns (stack: seq<Bits>)
    requires Valid(x) && |x| == |t| && limit <= |t|
    ensures SrlStack(x, t, limit, stack)
  {
    stack := [];
    for i := 0 to limit
      invariant SrlStack(x, t, i, stack)
    {
      var xSlice, tSlice := x[i..], t[..|t| - i];
      CheckIsMember(xSlice, tSlice);
      if CheckFixedBits(xSlice, tSlice) { stack := stack + [tSlice]; }
    }
  }

  /** A fixed operand matches at one shift at most: the lowest one of the target tells which. */
  lemma {:induction false} SllMatchOnce(x: Domain, t: Bits, m: nat, n: nat)
    requires Fixed(x) && |x| == |t| && m < n <= Ctz(t) < |t| && SllMatch(x, t, m)
    ensures !SllMatch(x, t, n)
  {
    var c := Ctz(t);
    assert Allows(x[..|t| - m][c - n], t[m..][c - n]);
    assert SllMatch(x, t, n) ==> Allows(x[..|t| - n][c - n], t[n..][c - n]);
  }

  /** The same with the highest bit of the target that differs from its leading ones. */
  lemma {:induction false} SrlMatchOnce(x: Domain, t: Bits, b: bool, m: nat, n: nat)
    requires Fixed(x) && |x| == |t| && m < n <= Leading(t, b) < |t| && SrlMatch(x, t, m)
    ensures !SrlMatch(x, t, n)
  {
    var k := |t| - 1 - Leading(t, b);
    assert Allows(x[m..][k + n - m], t[..|t| - m][k + n - m]);
    assert SrlMatch(x, t, n) ==> Allows(x[n..][k], t[..|t| - n][k]);
  }

  /** So on a fixed operand either every pick needs a draw or none does. */
  lemma {:induction false} SllDrawn(x: Domain, t: Bits, stack: seq<Bits>)
    requires Fixed(x) && |x| == |t| && Ctz(t) < |t| && SllStack(x, t, Ctz(t) + 1, stack)
    ensures SllDraws(x, t, Ctz(t) + 1) <==> stack != [] && forall s :: s in stack ==> |s| < |t|
  {
    hide Ctz, SllMatch, Fixed;
    var c := Ctz(t);
    if SllDraws(x, t, c + 1) {
      var n :| 1 <= n < c + 1 && SllMatch(x, t, n);
      assert t[n..] in stack;
      forall s | s in stack
        ensures |s| < |t|
      {
        assert SllSlice(x, t, c + 1, s);
        if |s| == |t| { SllMatchOnce(x, t, 0, n); }
      }
    } else if stack != [] {
      assert SllSlice(x, t, c + 1, stack[0]);
    }
  }

  lemma {:induction false} SrlDrawn(x: Domain, t: Bits, b: bool, limit: nat, stack: seq<Bits>)
    requires Fixed(x) && |x| == |t| && limit <= Leading(t, b) + 1 <= |t| && SrlStack(x, t, limit, stack)
    ensures SrlDraws(x, t, limit) <==> stack != [] && forall s :: s in stack ==> |s| < |t|
  {
    hide Leading, SrlMatch, Fixed;
    if SrlDraws(x, t, limit) {
      var n :| 1 <= n < limit && SrlMatch(x, t, n);
      assert t[..|t| - n] in stack;
      forall s | s in stack
        ensures |s| < |t|
      {
        assert SrlSlice(x, t, limit, s);
        if |s| == |t| { SrlMatchOnce(x, t, b, 0, n); }
      }
    } else if stack != [] {
      assert SrlSlice(x, t, limit, stack[0]);
    }
  }

  /** The bits that are shifted out are taken from any value of the domain. */
  method SllPick(x: Domain, t: Bits, stack: seq<Bits>) returns (v: Option<Bits>)
    requires Valid(x) && |x| == |t| && Ctz(t) < |t| && stack != [] && SllStack(x, t, Ctz(t) + 1, stack)
    ensures v.Some? <==> !(Fixed(x) && SllDraws(x, t, Ctz(t) + 1))
    ensures v.Some? ==> Member(x, v.value) && exists n :: 0 <= n <= Ctz(t) && v.value[..|t| - n] == t[n..]
  {
    hide Ctz, Fixed;
    var k: nat :| k < |stack|;
    var right := stack[k];
    var w, r := |t|, |right|;
    assert SllSlice(x, t, Ctz(t) + 1, right);
    if Fixed(x) { SllDrawn(x, t, stack); }
    if w == r {
      v := Some(right);
      assert x[..w] == x && t[0..] == t;
      assert v.value[..w - 0] == t[0..];
    } else {
      assert SllMatch(x, t, w - r) && 1 <= w - r < Ctz(t) + 1;
      var tmp := Draw(x);
      if tmp.None? { return None; }
      v := Some(right + tmp.value[r..]);
      JoinMember(x, right, tmp.value, r);
      assert v.value[..w - (w - r)] == t[w - r..];
    }
  }

  method SrlPick(x: Domain, t: Bits, stack: seq<Bits>, ghost b: bool, ghost limit: nat) returns (v: Option<Bits>)
    requires Valid(x) && |x| == |t| && stack != [] && SrlStack(x, t, limit, stack) && limit <= Leading(t, b) + 1 <= |t|
    ensures v.Some? <==> !(Fixed(x) && SrlDraws(x, t, limit))
    ensures v.Some? ==> Member(x, v.value) && exists n :: 0 <= n < limit && v.value[n..] == t[..|t| - n]
  {
    hide Leading, Fixed;
    var k: nat :| k < |stack|;
    var left := stack[k];
    var w, l := |t|, |left|;
    assert SrlSlice(x, t, limit, left);
    if Fixed(x) { SrlDrawn(x, t, b, limit, stack); }
    if w == l {
      v := Some(left);
      assert x[0..] == x && t[..w - 0] == t;
      assert v.value[0..] == t[..w - 0];
    } else {
      assert SrlMatch(x, t, w - l) && 1 <= w - l < limit;
      var tmp := Draw(x);
      if tmp.None? { return None; }
      v := Some(tmp.value[..w - l] + left);
      JoinMember2(x, tmp.value, left, w - l);
      assert v.value[w - l..] == t[..w - (w - l)];
    }
  }

  lemma {:induction false} JoinMember(x: Domain, low: Bits, tmp: Bits, r: nat)
    requires r <= |x| && Member(x, tmp) && |low| == r && Member(x[..r], low)
    ensures Member(x, low + tmp[r..])
  {
    var v := low + tmp[r..];
    forall i | 0 <= i < |x|
      ensures Allows(x[i], v[i])
    {
      if i < r { assert Allows(x[..r][i], low[i]); } else { assert Allows(x[i], tmp[i]); }
    }
  }

  lemma {:induction false} JoinMember2(x: Domain, tmp: Bits, high: Bits, r: nat)
    requires r <= |x| && Member(x, tmp) && Member(x[r..], high)
    ensures Member(x, tmp[..r] + high)
  {
    var v := tmp[..r] + high;
    forall i | 0 <= i < |x|
      ensures Allows(x[i], v[i])
    {
      if i < r { assert Allows(x[i], tmp[i]); } else { assert Allows(x[r..][i - r], high[i - r]); }
    }
  }

  /** A member whose low bits are the shifted target makes its slice a match. */
  lemma {:induction false} SllMatched(x: Domain, v: Bits, t: Bits, n: nat)
    requires Member(x, v) && n <= |x| == |t| && v[..|t| - n] == t[n..]
    ensures SllMatch(x, t, n)
  {
    forall i | 0 <= i < |t| - n
      ensures Allows(x[..|t| - n][i], t[n..][i])
    {
      assert Allows(x[i], v[i]) && v[..|t| - n][i] == t[n..][i];
    }
  }

  lemma {:induction false} SrlMatched(x: Domain, v: Bits, t: Bits, n: nat)
    requires Member(x, v) && n <= |x| == |t| && v[n..] == t[..|t| - n]
    ensures SrlMatch(x, t, n)
  {
    forall i | 0 <= i < |t| - n
      ensures Allows(x[n..][i], t[..|t| - n][i])
    {
      assert Allows(x[n + i], v[n + i]) && v[n..][i] == t[..|t| - n][i];
    }
  }

  method SllFirst(x: Domain, t: Bits) returns (res: bool, value: Option<Bits>)
    requires Valid(x) && |x| == |t| > 0 && Ctz(t) < |t|
    ensures Right(Sll, 0, x, t, res) && Stored(Sll, 0, x, t, value)
    ensures value.Some? <==> res && !(Fixed(x) && SllDraws(x, t, Ctz(t) + 1))
  {
    var c := Ctz(t);
    hide Nat, SllSlice, SllMatch, SllDraws, Member, Reaches, Ctz, Fixed;
    var stack := SllMatches(x, t, c + 1);
    if stack != [] {
      SllConsistent(x, t, stack);
      value := SllPick(x, t, stack);
      if value.Some? {
        MemberSize(x, value.value);
        SllLeft(value.value, t);
      }
      return true, value;
    }
    NoSllMatch(x, t);
    return false, None;
  }

  /** A matching slice is enough: the other bits come from the least value of the domain. */
  lemma {:induction false} SllConsistent(x: Domain, t: Bits, stack: seq<Bits>)
    requires Valid(x) && |x| == |t| > 0 && Ctz(t) < |t| && stack != [] && SllStack(x, t, Ctz(t) + 1, stack)
    ensures Consistent(Sll, 0, x, t)
  {
    var s := stack[0];
    assert SllSlice(x, t, Ctz(t) + 1, s);
    hide Nat, Reaches, Ctz;
    LoMember(x);
    var n, v := |t| - |s|, s + Lo(x)[|s|..];
    JoinMember(x, s, Lo(x), |s|);
    assert v[..|t| - n] == t[n..];
    SllLeft(v, t);
    IsConsistent(Sll, 0, x, v, t);
  }

  lemma {:induction false} SrlConsistent(x: Domain, t: Bits, limit: nat, stack: seq<Bits>)
    requires Valid(x) && |x| == |t| > 0 && stack != [] && SrlStack(x, t, limit, stack)
    ensures Leading(t, false) < |t| && limit <= Leading(t, false) + 1 ==> Consistent(Srl, 0, x, t)
    ensures limit <= Run(t) < |t| ==> Consistent(Sra, 0, x, t)
  {
    var s := stack[0];
    assert SrlSlice(x, t, limit, s);
    hide Nat, Reaches, Leading, Run;
    LoMember(x);
    var n := |t| - |s|;
    var v := Lo(x)[..n] + s;
    JoinMember2(x, Lo(x), s, n);
    assert v[n..] == t[..|t| - n];
    if Leading(t, false) < |t| && limit <= Leading(t, false) + 1 {
      SrlLeft(v, t);
      IsConsistent(Srl, 0, x, v, t);
    }
    if limit <= Run(t) < |t| {
      SraLeft(v, t);
      IsConsistent(Sra, 0, x, v, t);
    }
  }

  lemma {:induction false} NoSllMatch(x: Domain, t: Bits)
    requires |x| == |t| > 0 && Ctz(t) < |t| && forall n :: 0 <= n < Ctz(t) + 1 ==> !SllMatch(x, t, n)
    ensures !Consistent(Sll, 0, x, t)
  {
    hide Nat, SllMatch, Reaches, Ctz;
    if v: Bits :| |v| > 0 && Member(x, v) && Reaches(Sll, 0, v, t) {
      SllLeft(v, t);
      var n: nat :| n <= Ctz(t) && v[..|t| - n] == t[n..];
      SllMatched(x, v, t, n);
    }
  }

  method SrlFirst(x: Domain, t: Bits) returns (res: bool, value: Option<Bits>)
    requires Valid(x) && |x| == |t| > 0 && Leading(t, false) < |t|
    ensures Right(Srl, 0, x, t, res) && Stored(Srl, 0, x, t, value)
    ensures value.Some? <==> res && !(Fixed(x) && SrlDraws(x, t, Leading(t, false) + 1))
  {
    var c := Leading(t, false);
    hide Nat, SrlSlice, SrlMatch, SrlDraws, Member, Reaches, Leading, Fixed;
    var stack := SrlMatches(x, t, c + 1);
    if stack != [] {
      SrlConsistent(x, t, c + 1, stack);
      value := SrlPick(x, t, stack, false, c + 1);
      if value.Some? {
        MemberSize(x, value.value);
        SrlLeft(value.value, t);
      }
      return true, value;
    }
    NoSrlMatch(x, t);
    return false, None;
  }

  lemma {:induction false} NoSrlMatch(x: Domain, t: Bits)
    requires |x| == |t| > 0 && Leading(t, false) < |t|
    requires forall n :: 0 <= n < Leading(t, false) + 1 ==> !SrlMatch(x, t, n)
    ensures !Consistent(Srl, 0, x, t)
  {
    hide Nat, SrlMatch, Reaches, Leading;
    if v: Bits :| |v| > 0 && Member(x, v) && Reaches(Srl, 0, v, t) {
      SrlLeft(v, t);
      var n: nat :| n <= Leading(t, false) && v[n..] == t[..|t| - n];
      SrlMatched(x, v, t, n);
    }
  }

  method SraFirst(x: Domain, t: Bits) returns (res: bool, value: Option<Bits>)
    requires Valid(x) && |x| == |t| > 0 && Run(t) < |t|
    ensures Right(Sra, 0, x, t, res) && Stored(Sra, 0, x, t, value)
    ensures value.Some? <==> res && !(Fixed(x) && SrlDraws(x, t, Run(t)))
  {
    var c := Run(t);
    assert c == Leading(t, t[|t| - 1]);
    hide Nat, SrlSlice, SrlMatch, SrlDraws, Member, Reaches, Run, Leading, Fixed;
    var stack := SrlMatches(x, t, c);
    if stack != [] {
      SrlConsistent(x, t, c, stack);
      value := SrlPick(x, t, stack, t[|t| - 1], c);
      if value.Some? {
        MemberSize(x, value.value);
        SraLeft(value.value, t);
      }
      return true, value;
    }
    NoSraMatch(x, t);
    return false, None;
  }

  lemma {:induction false} NoSraMatch(x: Domain, t: Bits)
    requires |x| == |t| > 0 && Run(t) < |t| && forall n :: 0 <= n < Run(t) ==> !SrlMatch(x, t, n)
    ensures !Consistent(Sra, 0, x, t)
  {
    hide Nat, SrlMatch, Reaches, Run;
    if v: Bits :| |v| > 0 && Member(x, v) && Reaches(Sra, 0, v, t) {
      SraLeft(v, t);
      var n: nat :| n < Run(t) && v[n..] == t[..|t| - n];
      SrlMatched(x, v, t, n);
    }
  }

  // ---------------------------------------------------------------- second operand

  /** The generator over the shift amounts up to a limit: any of them, unless the domain is fixed. */
  method AmountUpTo(x: Domain, limit: nat) returns (res: bool, value: Option<Bits>)
    requires Valid(x) && |x| > 0 && limit < |x|
    ensures res <==> value.Some?
    ensures value.Some? ==> Member(x, value.value) && Nat(value.value) <= limit
    ensures res <==> !Fixed(x) && exists v: Bits :: Member(x, v) && Nat(v) <= limit
  {
    var max := OfNat(limit, |x|);
    Pow2Above(|x|);
    NatOfNat(limit, |x|);
    var gen := new Generator(x, None, Some(max));
    res := gen.HasNext();
    value := None;
    AnyWanted(x, max, gen.Coming());
    if res {
      var v := gen.Random();
      value := Some(v);
    }
  }

  lemma {:induction false} AnyWanted(x: Domain, max: Bits, coming: iset<Bits>)
    requires coming == AllWanted(x, None, Some(max))
    ensures coming != iset{} <==> !Fixed(x) && exists v: Bits :: Member(x, v) && Nat(v) <= Nat(max)
  {
    hide Nat, Member, Fixed;
    if coming != iset{} {
      var v :| v in coming;
      assert Member(x, v) && Nat(v) <= Nat(max);
    }
    if v: Bits :| Member(x, v) && Nat(v) <= Nat(max) && !Fixed(x) {
      assert v in coming;
    }
  }

  // ---------------------------------------------------------------- the checks

  /** `bzla_is_cons_sll_const`, first operand.  The answer is always right; there is no value to
      store if the generator that is asked for the remaining bits is empty. */
  method IsConsSllFirst(x: Domain, t: Bits) returns (res: bool, value: Option<Bits>)
    requires Valid(x) && |x| == |t| > 0
    ensures Right(Sll, 0, x, t, res) && Stored(Sll, 0, x, t, value)
    ensures value.Some? <==> res && Nat(t) != 0 && !(Fixed(x) && SllDraws(x, t, Ctz(t) + 1))
  {
    CtzZero(t);
    if Ctz(t) != |t| {
      res, value := SllFirst(x, t);
    } else {
      res, value := true, None;
      ZeroShift(Sll, x, t);
    }
  }

  /** Zero can be reached by shifting everything out. */
  lemma {:induction false} ZeroShift(op: Op, x: Domain, t: Bits)
    requires Valid(x) && |x| == |t| > 0 && Nat(t) == 0 && (op == Sll || op == Srl)
    ensures Consistent(op, 0, x, t) && Consistent(op, 1, x, t)
  {
    LoMember(x);
    var v := Lo(x);
    Pow2Above(|x|);
    assert Gives(op, 0, v, |x|, t);
    CtzZero(t);
    LeadingZero(t);
    SllRight(v, t);
    SrlRight(v, t);
    hide Nat, Reaches;
    IsConsistent(op, 0, x, v, t);
    IsConsistent(op, 1, x, v, t);
  }

  /** `bzla_is_cons_srl_const`, first operand. */
  method IsConsSrlFirst(x: Domain, t: Bits) returns (res: bool, value: Option<Bits>)
    requires Valid(x) && |x| == |t| > 0
    ensures Right(Srl, 0, x, t, res) && Stored(Srl, 0, x, t, value)
    ensures value.Some? <==> res && Nat(t) != 0 && !(Fixed(x) && SrlDraws(x, t, Leading(t, false) + 1))
  {
    LeadingZero(t);
    if Leading(t, false) != |t| {
      res, value := SrlFirst(x, t);
    } else {
      res, value := true, None;
      ZeroShift(Srl, x, t);
    }
  }

  /** `bzla_is_cons_sll_const`, second operand.  A fixed amount is answered with `false`: that is
      right only for the target 0, or if the amount is too large. */
  method IsConsSllSecond(x: Domain, t: Bits) returns (res: bool, value: Option<Bits>)
    requires Valid(x) && |x| == |t| > 0
    ensures Right(Sll, 1, x, t, res) <==> !Fixed(x) || Nat(t) == 0 || Nat(Lo(x)) > Ctz(t)
    ensures Stored(Sll, 1, x, t, value) && (value.Some? <==> res && Nat(t) != 0)
  {
    hide Nat, Member, Reaches, Fixed;
    CtzZero(t);
    if Ctz(t) != |t| {
      res, value := AmountUpTo(x, Ctz(t));
      if res {
        MemberSize(x, value.value);
        SllRight(value.value, t);
        IsConsistent(Sll, 1, x, value.value, t);
      }
      SllAmounts(x, t);
    } else {
      res, value := true, None;
      ZeroShift(Sll, x, t);
    }
  }

  lemma {:induction false} SllAmounts(x: Domain, t: Bits)
    requires Valid(x) && |x| == |t| > 0 && Nat(t) != 0
    ensures Consistent(Sll, 1, x, t) <==> exists v: Bits :: Member(x, v) && Nat(v) <= Ctz(t)
    ensures Consistent(Sll, 1, x, t) <==> Nat(Lo(x)) <= Ctz(t)
  {
    LoMember(x);
    hide Nat, Reaches, Ctz;
    if v: Bits :| |v| > 0 && Member(x, v) && Reaches(Sll, 1, v, t) {
      SllRight(v, t);
      MemberBounds(x, v);
    }
    if v: Bits :| Member(x, v) && Nat(v) <= Ctz(t) {
      SllRight(v, t);
      MemberBounds(x, v);
      IsConsistent(Sll, 1, x, v, t);
    }
  }

  /** `bzla_is_cons_srl_const`, second operand. */
  method IsConsSrlSecond(x: Domain, t: Bits) returns (res: bool, value: Option<Bits>)
    requires Valid(x) && |x| == |t| > 0
    ensures Right(Srl, 1, x, t, res) <==> !Fixed(x) || Nat(t) == 0 || Nat(Lo(x)) > Leading(t, false)
    ensures Stored(Srl, 1, x, t, value) && (value.Some? <==> res && Nat(t) != 0)
  {
    hide Nat, Member, Reaches, Fixed;
    LeadingZero(t);
    if Leading(t, false) != |t| {
      res, value := AmountUpTo(x, Leading(t, false));
      if res {
        MemberSize(x, value.value);
        SrlRight(value.value, t);
        IsConsistent(Srl, 1, x, value.value, t);
      }
      SrlAmounts(x, t);
    } else {
      res, value := true, None;
      ZeroShift(Srl, x, t);
    }
  }

  lemma {:induction false} SrlAmounts(x: Domain, t: Bits)
    requires Valid(x) && |x| == |t| > 0 && Nat(t) != 0
    ensures Consistent(Srl, 1, x, t) <==> exists v: Bits :: Member(x, v) && Nat(v) <= Leading(t, false)
    ensures Consistent(Srl, 1, x, t) <==> Nat(Lo(x)) <= Leading(t, false)
  {
    LoMember(x);
    hide Nat, Reaches, Leading;
    if v: Bits :| |v| > 0 && Member(x, v) && Reaches(Srl, 1, v, t) {
      SrlRight(v, t);
      MemberBounds(x, v);
    }
    if v: Bits :| Member(x, v) && Nat(v) <= Leading(t, false) {
      SrlRight(v, t);
      MemberBounds(x, v);
      IsConsistent(Srl, 1, x, v, t);
    }
  }

  /** The target is all zeros, or all ones: the value must have its sign. */
  method SraSign(x: Domain, t: Bits) returns (res: bool, value: Option<Bits>)
    requires Valid(x) && |x| == |t| > 0 && Run(t) == |t|
    ensures Right(Sra, 0, x, t, res) <==> !Fixed(x) || x[|x| - 1].lo != t[|t| - 1]
    ensures Stored(Sra, 0, x, t, value) && (value.Some? <==> res)
  {
    hide Member, Reaches, Fixed, SignedNat, Nat;
    var negative := t[|t| - 1];
    var gen := new SignedGenerator(x, if negative then None else Some(t), if negative then Some(t) else None);
    res := gen.HasNext();
    value := None;
    SignWanted(x, t, gen.lower, gen.upper, gen.Coming());
    if res {
      var v := gen.Random();
      SignedSide(v, t, gen.lower, gen.upper);
      SraExtreme(v, t);
      IsConsistent(Sra, 0, x, v, t);
      value := Some(v);
    }
  }

  /** With the target as one bound, the range is the values of its sign. */
  lemma {:induction false} SignedSide(v: Bits, t: Bits, lower: Bits, upper: Bits)
    requires |v| == |t| > 0 && Run(t) == |t|
    requires lower == (if t[|t| - 1] then MinSigned(|t|) else t) && upper == (if t[|t| - 1] then t else MaxSigned(|t|))
    ensures SignedNat(lower) <= SignedNat(v) <= SignedNat(upper) <==> v[|v| - 1] == t[|t| - 1]
  {
    TopIsSign(v);
    TopIsSign(t);
    SignedExtremes(|t|, v);
    if t[|t| - 1] {
      NatOnes(t);
    } else {
      NatZeros(t);
    }
    hide Nat, Pow2;
  }

  lemma {:induction false} SignWanted(x: Domain, t: Bits, lower: Bits, upper: Bits, coming: iset<Bits>)
    requires Valid(x) && |x| == |t| > 0 && Run(t) == |t|
    requires lower == (if t[|t| - 1] then MinSigned(|t|) else t) && upper == (if t[|t| - 1] then t else MaxSigned(|t|))
    requires coming == AllSignedWanted(x, lower, upper)
    ensures coming != iset{} <==> !Fixed(x) && Consistent(Sra, 0, x, t)
    ensures Fixed(x) ==> (Consistent(Sra, 0, x, t) <==> x[|x| - 1].lo == t[|t| - 1])
  {
    hide Nat, SignedNat, Reaches, Run;
    if v :| v in coming {
      SignedSide(v, t, lower, upper);
      SraExtreme(v, t);
      IsConsistent(Sra, 0, x, v, t);
    }
    if v: Bits :| |v| > 0 && Member(x, v) && Reaches(Sra, 0, v, t) {
      SignedSide(v, t, lower, upper);
      SraExtreme(v, t);
      if Fixed(x) { OnlyMember(x, v); } else { assert v in coming; }
    }
    LoMember(x);
    SraExtreme(Lo(x), t);
    if x[|x| - 1].lo == t[|t| - 1] { IsConsistent(Sra, 0, x, Lo(x), t); }
  }

  /** `bzla_is_cons_sra_const`, first operand. */
  method IsConsSraFirst(x: Domain, t: Bits) returns (res: bool, value: Option<Bits>)
    requires Valid(x) && |x| == |t| > 0
    ensures Right(Sra, 0, x, t, res) <==> !(Fixed(x) && Run(t) == |t| && x[|x| - 1].lo == t[|t| - 1])
    ensures Stored(Sra, 0, x, t, value)
    ensures value.Some? <==> res && !(Fixed(x) && Run(t) < |t| && SrlDraws(x, t, Run(t)))
  {
    if Run(t) == |t| {
      res, value := SraSign(x, t);
    } else {
      res, value := SraFirst(x, t);
    }
  }

  /** `bzla_is_cons_sra_const`, second operand. */
  method IsConsSraSecond(x: Domain, t: Bits) returns (res: bool, value: Option<Bits>)
    requires Valid(x) && |x| == |t| > 0
    ensures Right(Sra, 1, x, t, res) <==> !Fixed(x) || Run(t) == |t| || Nat(Lo(x)) >= Run(t)
    ensures Stored(Sra, 1, x, t, value) && (value.Some? <==> res && Run(t) < |t|)
  {
    hide Nat, Member, Reaches, Fixed;
    if Run(t) == |t| {
      res, value := true, None;
      LoMember(x);
      SraExtreme(Lo(x), t);
      IsConsistent(Sra, 1, x, Lo(x), t);
    } else {
      RunPositive(t);
      res, value := AmountUpTo(x, Run(t) - 1);
      if res {
        MemberSize(x, value.value);
        SraRight(value.value, t);
        IsConsistent(Sra, 1, x, value.value, t);
      }
      SraAmounts(x, t);
    }
  }

  lemma {:induction false} RunPositive(t: Bits)
    requires |t| > 0
    ensures Run(t) > 0
  {
  }

  lemma {:induction false} SraAmounts(x: Domain, t: Bits)
    requires Valid(x) && |x| == |t| > 0 && 0 < Run(t) < |t|
    ensures Consistent(Sra, 1, x, t) <==> exists v: Bits :: Member(x, v) && Nat(v) <= Run(t) - 1
    ensures Consistent(Sra, 1, x, t) <==> Nat(Lo(x)) < Run(t)
  {
    LoMember(x);
    hide Nat, Reaches, Run;
    if v: Bits :| |v| > 0 && Member(x, v) && Reaches(Sra, 1, v, t) {
      SraRight(v, t);
      MemberBounds(x, v);
    }
    if v: Bits :| Member(x, v) && Nat(v) <= Run(t) - 1 {
      SraRight(v, t);
      MemberBounds(x, v);
      IsConsistent(Sra, 1, x, v, t);
    }
  }

  // ---------------------------------------------------------------- fixed operands

  /** The operand 1 is accepted for the target 2; the slice picked is short and the generator for
      the rest is empty. */
  lemma {:induction false} SllDrawExample()
    ensures var x, t := NewFixed([true, false]), [false, true];
            && Valid(x) && Fixed(x) && AllWanted(x, None, None) == iset{} && Ctz(t) == 1
            && SllDraws(x, t, Ctz(t) + 1) && Consistent(Sll, 0, x, t)
  {
    var x, t := NewFixed([true, false]), [false, true];
    assert t[1..] == [true];
    assert SllMatch(x, t, 1) by {
      assert x[..1] == NewFixed([true]);
    }
    EmptyIfFixed(x);
    LoMember(x);
    assert Lo(x)[..1] == t[1..];
    hide Reaches, Nat;
    SllLeft(Lo(x), t);
    IsConsistent(Sll, 0, x, Lo(x), t);
  }

  /** The operand 2 for the target 1. */
  lemma {:induction false} SrlDrawExample()
    ensures var x, t := NewFixed([false, true]), [true, false];
            && Valid(x) && Fixed(x) && AllWanted(x, None, None) == iset{} && Leading(t, false) == 1
            && SrlDraws(x, t, Leading(t, false) + 1) && Consistent(Srl, 0, x, t)
  {
    var x, t := NewFixed([false, true]), [true, false];
    assert t[..1] == [true];
    assert SrlMatch(x, t, 1) by {
      assert x[1..] == NewFixed([true]);
    }
    EmptyIfFixed(x);
    LoMember(x);
    assert Lo(x)[1..] == t[..1];
    hide Reaches, Nat;
    SrlLeft(Lo(x), t);
    IsConsistent(Srl, 0, x, Lo(x), t);
  }

  /** The operand 2 of three bits for the target 1. */
  lemma {:induction false} SraDrawExample()
    ensures var x, t := NewFixed([false, true, false]), [true, false, false];
            && Valid(x) && Fixed(x) && AllWanted(x, None, None) == iset{} && Run(t) == 2
            && SrlDraws(x, t, Run(t)) && Consistent(Sra, 0, x, t)
  {
    var x, t := NewFixed([false, true, false]), [true, false, false];
    assert t[..2] == [true, false] && t[..2][..1] == [true];
    assert Leading([true], false) == 0 && Leading([true, false], false) == 1 && Run(t) == 2;
    assert SrlMatch(x, t, 1) by {
      assert x[1..] == NewFixed([true, false]);
    }
    EmptyIfFixed(x);
    LoMember(x);
    assert Lo(x)[1..] == t[..2];
    hide Reaches, Nat, Run;
    SraLeft(Lo(x), t);
    IsConsistent(Sra, 0, x, Lo(x), t);
  }

  /** 0 as a fixed amount is refused for the target 1, which the operand 1 gives. */
  lemma {:induction false} ShiftFixedExample()
    ensures var x := NewFixed([false]); var t := [true];
            && Valid(x) && Fixed(x) && Nat(t) != 0 && Nat(Lo(x)) <= Ctz(t) && Nat(Lo(x)) <= Leading(t, false)
            && Consistent(Sll, 1, x, t) && Consistent(Srl, 1, x, t)
  {
    var x, t := NewFixed([false]), [true];
    NatZeros(Lo(x));
    assert t[1..] == [];
    SllAmounts(x, t);
    SrlAmounts(x, t);
  }

  /** 0 as a fixed operand is refused for the target 0, which every amount gives. */
  lemma {:induction false} SraFirstFixedExample()
    ensures var x := NewFixed([false]); var t := [false];
            Valid(x) && Fixed(x) && Run(t) == |t| && x[0].lo == t[0] && Consistent(Sra, 0, x, t)
  {
    var x, t := NewFixed([false]), [false];
    LoMember(x);
    SraExtreme(Lo(x), t);
    IsConsistent(Sra, 0, x, Lo(x), t);
  }

  /** 0 as a fixed amount is refused for the target 1 of two bits, which the operand 1 gives. */
  lemma {:induction false} SraSecondFixedExample()
    ensures var x := NewFixed([false, false]); var t := [true, false];
            Valid(x) && Fixed(x) && Nat(Lo(x)) < Run(t) < |t| && Consistent(Sra, 1, x, t)
  {
    var x, t := NewFixed([false, false]), [true, false];
    NatZeros(Lo(x));
    assert t[..1] == [true];
    assert Leading([true], false) == 0 && Run(t) == 1;
    SraAmounts(x, t);
  }
}
