/** The multiplication propagator (src/bzlabvprop.c:2498-2944): shift, if-then-else and add
    for every bit of `y` that can be 1. */
module BvPropMul {
  import opened Arith
  import opened BvDomain
  import opened BvPropBasic
  import opened BvNat
  import opened BvPropBest
  import opened BvPropCond
  import opened BvCarry
  import opened BvPropSteps
  import opened BvProp

  // ---------------------------------------------------------------- the sum of the partial products

  /** `ite (y[n:n], x << n, 0)` */
  function Partial(x: Bits, y: Bits, n: nat): (r: Bits)
    requires n < |y| == |x|
    ensures |r| == |x|
  { CondBits(y[n], SllBits(x, n), Zeros(|x|)) }

  predicate Positions(ns: seq<nat>, w: nat) { forall i :: 0 <= i < |ns| ==> ns[i] < w }

  /** The sum of the partial products up to index `j`. */
  function PartialSum(x: Bits, y: Bits, ns: seq<nat>, j: nat): (r: Bits)
    requires |x| == |y| && Positions(ns, |x|) && j < |ns|
    ensures |r| == |x|
  {
    if j == 0 then Partial(x, y, ns[0]) else AddBits(PartialSum(x, y, ns, j - 1), Partial(x, y, ns[j]))
  }

  function BitWeight(y: Bits, n: nat): nat
    requires n < |y|
  { if y[n] then Pow2(n) else 0 }

  /** What the first `j` positions contribute to `y`. */
  function KeptSum(y: Bits, ns: seq<nat>, j: nat): nat
    requires Positions(ns, |y|) && j <= |ns|
  {
    if j == 0 then 0 else KeptSum(y, ns, j - 1) + BitWeight(y, ns[j - 1])
  }

  lemma {:induction false} PartialValue(x: Bits, y: Bits, n: nat)
    requires n < |y| == |x|
    ensures Nat(Partial(x, y, n)) == Nat(x) * BitWeight(y, n) % Pow2(|x|)
  {
    NatSll(x, n);
    ZerosAre(|x|);
    DivModUnique(0, Pow2(|x|), 0, 0);
    assert Nat(x) * 0 == 0;
  }

  lemma {:induction false} PartialSumValue(x: Bits, y: Bits, ns: seq<nat>, j: nat)
    requires |x| == |y| && Positions(ns, |x|) && j < |ns|
    ensures Nat(PartialSum(x, y, ns, j)) == Nat(x) * KeptSum(y, ns, j + 1) % Pow2(|x|)
  {
    hide Partial, BitWeight, AddBits, Pow2;
    var W, b := Pow2(|x|), BitWeight(y, ns[j]);
    PartialValue(x, y, ns[j]);
    if j > 0 {
      PartialSumValue(x, y, ns, j - 1);
      AddWhole(PartialSum(x, y, ns, j - 1), Partial(x, y, ns[j]));
      ModAdd(Nat(x) * KeptSum(y, ns, j), Nat(x) * b, W);
      Distribute(Nat(x), KeptSum(y, ns, j), b);
    } else {
      assert KeptSum(y, ns, 1) == b;
    }
  }

  /** The positions below `k`, highest first, whose bit can be 1; position 0 always stays. */
  function Kept(dy: Domain, k: nat): (ns: seq<nat>)
    requires k <= |dy|
    ensures Positions(ns, k) && (k > 0 ==> |ns| > 0)
  {
    if k == 0 then []
    else if k > 1 && !dy[k - 1].lo && !dy[k - 1].hi then Kept(dy, k - 1)
    else [k - 1] + Kept(dy, k - 1)
  }

  lemma {:induction false} KeptSumCons(y: Bits, n: nat, ns: seq<nat>, j: nat)
    requires n < |y| && Positions(ns, |y|) && j <= |ns|
    ensures Positions([n] + ns, |y|) && KeptSum(y, [n] + ns, j + 1) == BitWeight(y, n) + KeptSum(y, ns, j)
  {
    if j > 0 { KeptSumCons(y, n, ns, j - 1); }
  }

  /** Skipping the bits that must be 0 loses nothing. */
  lemma {:induction false} KeptAll(dy: Domain, y: Bits, k: nat)
    requires Member(dy, y) && k <= |y|
    ensures Positions(Kept(dy, k), |y|) && KeptSum(y, Kept(dy, k), |Kept(dy, k)|) == Nat(y[..k])
  {
    if k > 0 {
      KeptAll(dy, y, k - 1);
      NatPush(y, k - 1);
      assert Allows(dy[k - 1], y[k - 1]);
      KeptSumCons(y, k - 1, Kept(dy, k - 1), |Kept(dy, k - 1)|);
    }
  }

  /** `z` is the product of `x` and `y` modulo 2^w. */
  ghost predicate IsProduct(x: Bits, y: Bits, z: Bits) {
    |x| == |y| == |z| && Nat(z) == Nat(x) * Nat(y) % Pow2(|x|)
  }

  lemma {:induction false} ProductIsSum(dy: Domain, x: Bits, y: Bits, z: Bits)
    requires |x| > 0 && Member(dy, y) && IsProduct(x, y, z)
    ensures Positions(Kept(dy, |y|), |y|) && |Kept(dy, |y|)| > 0
    ensures z == PartialSum(x, y, Kept(dy, |y|), |Kept(dy, |y|)| - 1)
  {
    hide Nat, KeptSum, PartialSum, Pow2, Member;
    MemberSize(dy, y);
    var ns := Kept(dy, |y|);
    KeptAll(dy, y, |y|);
    assert y[..|y|] == y;
    PartialSumValue(x, y, ns, |ns| - 1);
    NatInjective(z, PartialSum(x, y, ns, |ns| - 1));
  }

  // ---------------------------------------------------------------- the decomposition

  function CCell(j: nat): nat { 2 + 4 * j }

  function ShiftCell(j: nat): nat { 3 + 4 * j }

  function IteCell(j: nat): nat { 4 + 4 * j }

  function AddCell(j: nat): nat { 5 + 4 * j }

  /** The cell of the end result: the last adder, or the only if-then-else. */
  function ResultCell(m: nat): nat
    requires m > 0
  { if m == 1 then IteCell(0) else AddCell(m - 1) }

  /** x, 0, and for every kept position: the bit of y, x shifted, the if-then-else, the sum. */
  function MulCell(dx: Domain, dy: Domain, dz: Domain, ns: seq<nat>, i: nat): Domain
    requires |dx| == |dy| && Positions(ns, |dy|) && |ns| > 0 && i < 2 + 4 * |ns|
  {
    var w := |dx|;
    if i == 0 then dx
    else if i == 1 then NewFixed(Zeros(w))
    else if i == ResultCell(|ns|) then dz
    else if i % 4 == 2 then [dy[ns[i / 4]]]
    else NewInit(w)
  }

  lemma {:induction false} CellIndex(i: nat, m: nat)
    requires 2 <= i < 2 + 4 * m
    ensures i % 4 == 2 ==> i / 4 < m && i == CCell(i / 4)
    ensures i % 4 != 2 ==> (i - 3) / 4 < m
  {
  }

  function MulStore(dx: Domain, dy: Domain, dz: Domain, ns: seq<nat>): (s: Store)
    requires |dx| == |dy| && Positions(ns, |dy|) && |ns| > 0
    ensures |s| == 2 + 4 * |ns|
  {
    seq(2 + 4 * |ns|, i requires 0 <= i < 2 + 4 * |ns| => MulCell(dx, dy, dz, ns, i))
  }

  /** The steps of one position. */
  function PositionSteps(ns: seq<nat>, k: nat): seq<Step>
    requires k < |ns|
  {
    [StepSll(0, ShiftCell(k), ns[k]), StepCond(ShiftCell(k), 1, IteCell(k), CCell(k))]
    + (if k == 0 then [] else [StepAdd(if k == 1 then IteCell(0) else AddCell(k - 1), IteCell(k), AddCell(k))])
  }

  /** The steps of the first `j` positions. */
  function MulSteps(ns: seq<nat>, j: nat): seq<Step>
    requires j <= |ns|
  {
    if j == 0 then [] else MulSteps(ns, j - 1) + PositionSteps(ns, j - 1)
  }

  ghost function MulValue(x: Bits, y: Bits, ns: seq<nat>, i: nat): Bits
    requires |x| == |y| && Positions(ns, |y|) && |ns| > 0 && i < 2 + 4 * |ns|
  {
    if i == 0 then x
    else if i == 1 then Zeros(|x|)
    else if i % 4 == 2 then [y[ns[i / 4]]]
    else if i % 4 == 3 then SllBits(x, ns[(i - 3) / 4])
    else if i % 4 == 0 then Partial(x, y, ns[(i - 3) / 4])
    else PartialSum(x, y, ns, (i - 3) / 4)
  }

  ghost function MulValues(x: Bits, y: Bits, ns: seq<nat>): (V: Values)
    requires |x| == |y| && Positions(ns, |y|) && |ns| > 0
    ensures |V| == 2 + 4 * |ns|
  {
    seq(2 + 4 * |ns|, i requires 0 <= i < 2 + 4 * |ns| => MulValue(x, y, ns, i))
  }

  ghost predicate MulSolution(dx: Domain, dy: Domain, dz: Domain, x: Bits, y: Bits, z: Bits) {
    Member(dx, x) && Member(dy, y) && Member(dz, z) && IsProduct(x, y, z)
  }

  lemma {:induction false} ResultValue(x: Bits, y: Bits, ns: seq<nat>)
    requires |x| == |y| > 0 && Positions(ns, |y|) && |ns| > 0
    ensures |MulValues(x, y, ns)| > ResultCell(|ns|)
    ensures MulValues(x, y, ns)[ResultCell(|ns|)] == PartialSum(x, y, ns, |ns| - 1)
  {
  }

  lemma {:induction false} MulIn(dx: Domain, dy: Domain, dz: Domain, x: Bits, y: Bits, z: Bits)
    requires |dx| == |dy| == |dz| > 1 && MulSolution(dx, dy, dz, x, y, z)
    ensures var ns := Kept(dy, |dy|);
            && Positions(ns, |dy|) && |ns| > 0
            && InStore(MulStore(dx, dy, dz, ns), MulValues(x, y, ns)) && MulValues(x, y, ns)[ResultCell(|ns|)] == z
  {
    hide Member, MulStore, MulValues, ResultCell, PartialSum, IsProduct, Kept, Positions;
    var ns := Kept(dy, |dy|);
    MulSizes(dx, dy, dz, x, y, z);
    ProductIsSum(dy, x, y, z);
    ResultValue(x, y, ns);
    forall i | 0 <= i < |MulStore(dx, dy, dz, ns)|
      ensures Member(MulStore(dx, dy, dz, ns)[i], MulValues(x, y, ns)[i])
    {
      MulCellIn(dx, dy, dz, x, y, z, ns, i);
    }
  }

  lemma {:induction false} MulSizes(dx: Domain, dy: Domain, dz: Domain, x: Bits, y: Bits, z: Bits)
    requires MulSolution(dx, dy, dz, x, y, z)
    ensures |x| == |dx| && |y| == |dy| && |z| == |dz|
  {
  }

  lemma {:induction false} MulCellIn(dx: Domain, dy: Domain, dz: Domain, x: Bits, y: Bits, z: Bits, ns: seq<nat>,
        i: nat)
    requires |dx| == |dy| == |dz| > 1 && Member(dx, x) && Member(dy, y) && Member(dz, z)
    requires Positions(ns, |dy|) && |ns| > 0 && MulValues(x, y, ns)[ResultCell(|ns|)] == z
    requires i < |MulStore(dx, dy, dz, ns)|
    ensures Member(MulStore(dx, dy, dz, ns)[i], MulValues(x, y, ns)[i])
  {
    var w := |dx|;
    MemberNewFixed(Zeros(w));
    hide PartialSum;
    if i >= 2 && i != ResultCell(|ns|) {
      CellIndex(i, |ns|);
      if i % 4 == 2 {
        assert Allows(dy[ns[i / 4]], y[ns[i / 4]]);
      } else {
        MemberInit(w, MulValues(x, y, ns)[i]);
      }
    }
  }

  lemma {:induction false} MulHold(x: Bits, y: Bits, ns: seq<nat>, j: nat)
    requires |x| == |y| > 0 && Positions(ns, |y|) && |ns| > 0 && j <= |ns|
    ensures AllHold(MulSteps(ns, j), MulValues(x, y, ns))
  {
    hide SllBits, AddBits, PartialSum, Partial, MulValues, Zeros, IsSum;
    var V := MulValues(x, y, ns);
    if j > 0 {
      var k := j - 1;
      MulHold(x, y, ns, k);
      CellsAt(x, y, ns, k);
      if k > 0 {
        CellsAt(x, y, ns, k - 1);
        SumStep(x, y, ns, k);
      }
      SumFirst(x, y, ns);
      CellsAt(x, y, ns, 0);
    }
  }

  lemma {:induction false} SumFirst(x: Bits, y: Bits, ns: seq<nat>)
    requires |x| == |y| && Positions(ns, |x|) && 0 < |ns|
    ensures PartialSum(x, y, ns, 0) == Partial(x, y, ns[0])
  {
  }

  lemma {:induction false} SumStep(x: Bits, y: Bits, ns: seq<nat>, k: nat)
    requires |x| == |y| && Positions(ns, |x|) && 0 < k < |ns|
    ensures IsSum(PartialSum(x, y, ns, k - 1), Partial(x, y, ns[k]), PartialSum(x, y, ns, k))
  {
    SumIsAdd(PartialSum(x, y, ns, k - 1), Partial(x, y, ns[k]), PartialSum(x, y, ns, k));
  }

  lemma {:induction false} FourCells(k: nat)
    ensures CCell(k) % 4 == 2 && CCell(k) / 4 == k && ShiftCell(k) % 4 == 3 && (ShiftCell(k) - 3) / 4 == k
    ensures IteCell(k) % 4 == 0 && (IteCell(k) - 3) / 4 == k && AddCell(k) % 4 == 1 && (AddCell(k) - 3) / 4 == k
    ensures 2 <= CCell(k) < ShiftCell(k) < IteCell(k) < AddCell(k) < 2 + 4 * (k + 1)
  {
  }

  lemma {:induction false} PartialIs(x: Bits, y: Bits, n: nat)
    requires n < |y| == |x|
    ensures Partial(x, y, n) == CondBits(y[n], SllBits(x, n), Zeros(|x|))
  {
  }

  lemma {:induction false} CellsAt(x: Bits, y: Bits, ns: seq<nat>, k: nat)
    requires |x| == |y| && Positions(ns, |y|) && k < |ns|
    ensures var V := MulValues(x, y, ns);
            && V[0] == x && V[1] == Zeros(|x|) && V[CCell(k)] == [y[ns[k]]] && V[ShiftCell(k)] == SllBits(x, ns[k])
            && V[IteCell(k)] == Partial(x, y, ns[k]) == CondBits(y[ns[k]], SllBits(x, ns[k]), Zeros(|x|))
            && V[AddCell(k)] == PartialSum(x, y, ns, k)
  {
    hide SllBits, Partial, PartialSum, Zeros, MulValue;
    ValueC(x, y, ns, k);
    ValueShift(x, y, ns, k);
    ValueIte(x, y, ns, k);
    ValueAdd(x, y, ns, k);
    ValueFirst(x, y, ns);
    PartialIs(x, y, ns[k]);
  }

  lemma {:induction false} ValueFirst(x: Bits, y: Bits, ns: seq<nat>)
    requires |x| == |y| && Positions(ns, |y|) && |ns| > 0
    ensures MulValue(x, y, ns, 0) == x && MulValue(x, y, ns, 1) == Zeros(|x|)
  {
  }

  lemma {:induction false} ValueC(x: Bits, y: Bits, ns: seq<nat>, k: nat)
    requires |x| == |y| && Positions(ns, |y|) && k < |ns|
    ensures MulValue(x, y, ns, CCell(k)) == [y[ns[k]]]
  {
    FourCells(k);
  }

  lemma {:induction false} ValueShift(x: Bits, y: Bits, ns: seq<nat>, k: nat)
    requires |x| == |y| && Positions(ns, |y|) && k < |ns|
    ensures MulValue(x, y, ns, ShiftCell(k)) == SllBits(x, ns[k])
  {
    hide SllBits, Partial, PartialSum;
    FourCells(k);
  }

  lemma {:induction false} ValueIte(x: Bits, y: Bits, ns: seq<nat>, k: nat)
    requires |x| == |y| && Positions(ns, |y|) && k < |ns|
    ensures MulValue(x, y, ns, IteCell(k)) == Partial(x, y, ns[k])
  {
    hide SllBits, Partial, PartialSum;
    FourCells(k);
  }

  lemma {:induction false} ValueAdd(x: Bits, y: Bits, ns: seq<nat>, k: nat)
    requires |x| == |y| && Positions(ns, |y|) && k < |ns|
    ensures MulValue(x, y, ns, AddCell(k)) == PartialSum(x, y, ns, k)
  {
    hide SllBits, Partial, PartialSum;
    FourCells(k);
  }

  lemma {:induction false} MulFit(dx: Domain, dy: Domain, dz: Domain, ns: seq<nat>, j: nat)
    requires |dx| == |dy| == |dz| > 0 && Positions(ns, |dy|) && |ns| > 0 && j <= |ns|
    ensures AllFit(MulSteps(ns, j), MulStore(dx, dy, dz, ns)) && AllRank(MulSteps(ns, j), 1)
  {
    hide MulStore, Positions, Fits, Rank, ShiftCell, IteCell, CCell, AddCell;
    if j > 0 {
      var k := j - 1;
      MulFit(dx, dy, dz, ns, k);
      StepsFit(dx, dy, dz, ns, k);
      var s := MulStore(dx, dy, dz, ns);
      var two := [StepSll(0, ShiftCell(k), ns[k]), StepCond(ShiftCell(k), 1, IteCell(k), CCell(k))];
      var more := if k == 0 then []
        else [StepAdd(if k == 1 then IteCell(0) else AddCell(k - 1), IteCell(k), AddCell(k))];
      assert AllFit(two, s) && AllRank(two, 1) && AllFit(more, s) && AllRank(more, 1);
      assert MulSteps(ns, j) == MulSteps(ns, k) + two + more;
      FitConcat(MulSteps(ns, k), two, s);
      FitConcat(MulSteps(ns, k) + two, more, s);
    }
  }

  lemma {:induction false} FitConcat(a: seq<Step>, b: seq<Step>, s: Store)
    requires AllFit(a, s) && AllFit(b, s) && AllRank(a, 1) && AllRank(b, 1)
    ensures AllFit(a + b, s) && AllRank(a + b, 1)
  {
    hide Fits, Rank;
  }

  lemma {:induction false} StepsFit(dx: Domain, dy: Domain, dz: Domain, ns: seq<nat>, k: nat)
    requires |dx| == |dy| == |dz| > 0 && Positions(ns, |dy|) && k < |ns|
    ensures var s := MulStore(dx, dy, dz, ns);
            var shift, cond := StepSll(0, ShiftCell(k), ns[k]), StepCond(ShiftCell(k), 1, IteCell(k), CCell(k));
            Fits(shift, s) && Fits(cond, s) && Rank(shift) <= 1 && Rank(cond) <= 1
    ensures k > 0 ==> var add := StepAdd(if k == 1 then IteCell(0) else AddCell(k - 1), IteCell(k), AddCell(k));
                      Fits(add, MulStore(dx, dy, dz, ns)) && Rank(add) <= 1
  {
    WidthsAt(dx, dy, dz, ns, k);
    WidthsAt(dx, dy, dz, ns, if k > 0 then k - 1 else 0);
    WidthsAt(dx, dy, dz, ns, 0);
    hide MulStore, Positions;
  }

  lemma {:induction false} WidthsAt(dx: Domain, dy: Domain, dz: Domain, ns: seq<nat>, k: nat)
    requires |dx| == |dy| == |dz| > 0 && Positions(ns, |dy|) && k < |ns|
    ensures var s, w := MulStore(dx, dy, dz, ns), |dx|;
            |s[0]| == |s[1]| == |s[ShiftCell(k)]| == |s[IteCell(k)]| == |s[AddCell(k)]| == w && |s[CCell(k)]| == 1
  {
  }

  lemma {:induction false} MulValid(dx: Domain, dy: Domain, dz: Domain, ns: seq<nat>)
    requires |dx| == |dy| == |dz| && Positions(ns, |dy|) && |ns| > 0 && Valid(dx) && Valid(dy) && Valid(dz)
    ensures ValidStore(MulStore(dx, dy, dz, ns))
  {
    var s, w := MulStore(dx, dy, dz, ns), |dx|;
    MemberNewFixed(Zeros(w));
    InitValid(w);
    forall i | 0 <= i < |s|
      ensures Valid(s[i])
    {
      if i >= 2 { CellIndex(i, |ns|); }
    }
  }

  // ---------------------------------------------------------------- the propagator

  /** The loop that collects the bits of `y` that are not skipped. */
  method KeptPositions(dy: Domain) returns (ns: seq<nat>)
    requires |dy| > 0
    ensures ns == Kept(dy, |dy|)
  {
    var bw := |dy|;
    ns := [];
    for i := 0 to bw
      invariant ns + Kept(dy, bw - i) == Kept(dy, bw)
    {
      var n := bw - 1 - i;
      if i < bw - 1 && !dy[n].lo && !dy[n].hi {
      } else {
        assert ns + ([n] + Kept(dy, n)) == (ns + [n]) + Kept(dy, n);
        ns := ns + [n];
      }
    }
  }

  predicate Falling(ns: seq<nat>) { forall i, j :: 0 <= i < j < |ns| ==> ns[j] < ns[i] }

  lemma {:induction false} KeptFalling(dy: Domain, k: nat)
    requires k <= |dy|
    ensures Falling(Kept(dy, k))
  {
    if k > 0 { KeptFalling(dy, k - 1); }
  }

  /** The loop that puts the narrowed bits back into `y`. */
  method CollectBits(dy: Domain, ns: seq<nat>, r: Store) returns (ry: Domain)
    requires |dy| > 0 && Positions(ns, |dy|) && Falling(ns) && |r| == 2 + 4 * |ns|
    requires forall j :: 0 <= j < |ns| ==> |r[CCell(j)]| == 1
    ensures |ry| == |dy|
    ensures forall j :: 0 <= j < |ns| ==> ry[ns[j]] == r[CCell(j)][0]
    ensures forall k :: 0 <= k < |dy| && k !in ns ==> ry[k] == dy[k]
  {
    ry := dy;
    for n := 0 to |ns|
      invariant |ry| == |dy|
      invariant forall j :: 0 <= j < n ==> ry[ns[j]] == r[CCell(j)][0]
      invariant forall k :: 0 <= k < |dy| && k !in ns[..n] ==> ry[k] == dy[k]
    {
      assert ns[..n + 1] == ns[..n] + [ns[n]];
      ry := ry[ns[n] := r[CCell(n)][0]];
    }
    assert ns[..|ns|] == ns;
  }

  lemma {:induction false} CollectKeeps(dx: Domain, dy: Domain, dz: Domain, ns: seq<nat>, r: Store, ry: Domain)
    requires |dx| == |dy| > 0 && Positions(ns, |dy|) && |ns| > 0 && Valid(dy)
    requires NarrowsStore(r, MulStore(dx, dy, dz, ns)) && ValidStore(r) && |ry| == |dy|
    requires forall j :: 0 <= j < |ns| ==> |r[CCell(j)]| == 1 && ry[ns[j]] == r[CCell(j)][0]
    requires forall k :: 0 <= k < |dy| && k !in ns ==> ry[k] == dy[k]
    ensures Narrows(ry, dy) && Valid(ry)
  {
    var s := MulStore(dx, dy, dz, ns);
    forall k | 0 <= k < |dy|
      ensures NarrowsBit(ry[k], dy[k]) && (ry[k].lo ==> ry[k].hi)
    {
      if k in ns {
        var j :| 0 <= j < |ns| && ns[j] == k;
        CStart(dx, dy, dz, ns, j);
        assert Narrows(r[CCell(j)], s[CCell(j)]) && Valid(r[CCell(j)]);
        assert NarrowsBit(r[CCell(j)][0], s[CCell(j)][0]);
      }
    }
  }

  lemma {:induction false} CStart(dx: Domain, dy: Domain, dz: Domain, ns: seq<nat>, j: nat)
    requires |dx| == |dy| && Positions(ns, |dy|) && j < |ns|
    ensures MulStore(dx, dy, dz, ns)[CCell(j)] == [dy[ns[j]]]
  {
    FourCells(j);
  }

  lemma {:induction false} CollectHas(x: Bits, y: Bits, ns: seq<nat>, r: Store, dy: Domain, ry: Domain)
    requires |x| == |y| > 0 && Positions(ns, |y|) && |ns| > 0 && Member(dy, y) && |ry| == |dy|
    requires InStore(r, MulValues(x, y, ns))
    requires forall j :: 0 <= j < |ns| ==> |r[CCell(j)]| == 1 && ry[ns[j]] == r[CCell(j)][0]
    requires forall k :: 0 <= k < |dy| && k !in ns ==> ry[k] == dy[k]
    ensures Member(ry, y)
  {
    hide MulValues;
    forall k | 0 <= k < |ry|
      ensures Allows(ry[k], y[k])
    {
      if k in ns {
        var j :| 0 <= j < |ns| && ns[j] == k;
        CellsAt(x, y, ns, j);
        Cell(r, MulValues(x, y, ns), CCell(j));
        assert Allows(r[CCell(j)][0], [y[ns[j]]][0]);
      } else {
        assert Allows(dy[k], y[k]);
      }
    }
  }

  lemma {:induction false} OneCells(dx: Domain, dy: Domain, dz: Domain, ns: seq<nat>, r: Store)
    requires |dx| == |dy| == |dz| > 0 && Positions(ns, |dy|) && |ns| > 0 && NarrowsStore(r, MulStore(dx, dy, dz, ns))
    requires ValidStore(r)
    ensures |r| == 2 + 4 * |ns| && forall j :: 0 <= j < |ns| ==> |r[CCell(j)]| == 1
    ensures Narrows(r[0], dx) && Valid(r[0]) && Narrows(r[ResultCell(|ns|)], dz) && Valid(r[ResultCell(|ns|)])
  {
    var s := MulStore(dx, dy, dz, ns);
    forall j | 0 <= j < |ns|
      ensures |r[CCell(j)]| == 1
    {
      CStart(dx, dy, dz, ns, j);
      assert Narrows(r[CCell(j)], s[CCell(j)]);
    }
    assert Narrows(r[0], s[0]) && Narrows(r[ResultCell(|ns|)], s[ResultCell(|ns|)]);
  }

  /** The results are cells of a store at rest, with the bits of `y` that were skipped as they are. */
  ghost predicate MulRest(dx: Domain, dy: Domain, dz: Domain, rx: Domain, ry: Domain, rz: Domain) {
    |dx| == |dy| > 0 && exists r: Store :: MulCells(dx, dy, dz, rx, ry, rz, r)
  }

  ghost predicate MulCells(dx: Domain, dy: Domain, dz: Domain, rx: Domain, ry: Domain, rz: Domain, r: Store)
    requires |dx| == |dy| > 0
  {
    var ns := Kept(dy, |dy|);
    && AtRest(MulSteps(ns, |ns|), MulStore(dx, dy, dz, ns), r) && |r| == 2 + 4 * |ns| && |ry| == |dy|
    && rx == r[0] && rz == r[ResultCell(|ns|)]
    && (forall j: nat :: j < |ns| ==> r[CCell(j)] == [ry[ns[j]]])
    && forall k: nat :: k < |dy| && k !in ns ==> ry[k] == dy[k]
  }

  lemma {:induction false} MulRests(dx: Domain, dy: Domain, dz: Domain, ry: Domain, r: Store)
    requires |dx| == |dy| == |dz| > 0 && |ry| == |dy|
    requires var ns := Kept(dy, |dy|);
             && AtRest(MulSteps(ns, |ns|), MulStore(dx, dy, dz, ns), r) && |r| == 2 + 4 * |ns|
             && (forall j :: 0 <= j < |ns| ==> |r[CCell(j)]| == 1 && ry[ns[j]] == r[CCell(j)][0])
             && forall k :: 0 <= k < |dy| && k !in ns ==> ry[k] == dy[k]
    ensures ResultCell(|Kept(dy, |dy|)|) < |r| && MulRest(dx, dy, dz, r[0], ry, r[ResultCell(|Kept(dy, |dy|)|)])
  {
    hide AtRest, MulSteps, MulStore, Kept, Positions;
    assert MulCells(dx, dy, dz, r[0], ry, r[ResultCell(|Kept(dy, |dy|)|)], r);
  }

  ghost predicate MulSound(dx: Domain, dy: Domain, dz: Domain, ok: bool, rx: Domain, ry: Domain, rz: Domain) {
    forall x: Bits, y: Bits, z: Bits {:trigger MulSolution(dx, dy, dz, x, y, z)} ::
      MulSolution(dx, dy, dz, x, y, z) ==> ok && MulSolution(rx, ry, rz, x, y, z)
  }

  lemma {:induction false} MulOut(x: Bits, y: Bits, ns: seq<nat>, r: Store)
    requires |x| == |y| && Positions(ns, |y|) && |ns| > 0 && InStore(r, MulValues(x, y, ns))
    ensures |r| == 2 + 4 * |ns| && Member(r[0], x) && Member(r[ResultCell(|ns|)], MulValues(x, y, ns)[ResultCell(|ns|)])
  {
    hide Member, PartialSum, Partial;
    var V := MulValues(x, y, ns);
    assert V[0] == x && Member(r[0], V[0]) && Member(r[ResultCell(|ns|)], V[ResultCell(|ns|)]);
  }

  // ---------------------------------------------------------------- fixed operands

  /** The product modulo 2^w. */
  ghost function ProductBits(x: Bits, y: Bits): (z: Bits)
    ensures |z| == |x|
  { OfNat(Nat(x) * Nat(y) % Pow2(|x|), |x|) }

  lemma {:induction false} ProductIs(x: Bits, y: Bits)
    requires |x| == |y|
    ensures IsProduct(x, y, ProductBits(x, y))
  {
    NatOfNat(Nat(x) * Nat(y) % Pow2(|x|), |x|);
  }

  lemma {:induction false} PositionSettled(ns: seq<nat>, k: nat, j: nat, r: Store, V: Values)
    requires k < j <= |ns| && AllSettled(MulSteps(ns, j), r) && AllHold(MulSteps(ns, j), V)
    ensures AllSettled(PositionSteps(ns, k), r) && AllHold(PositionSteps(ns, k), V)
  {
    hide AllSettled, AllHold, ShiftCell, IteCell, CCell, AddCell;
    var i := j - 1;
    assert MulSteps(ns, j) == MulSteps(ns, i) + PositionSteps(ns, i);
    hide MulSteps, PositionSteps;
    SplitSettled(MulSteps(ns, i), PositionSteps(ns, i), r, V);
    if k < i { PositionSettled(ns, k, i, r, V); }
  }

  lemma {:induction false} SplitSettled(a: seq<Step>, b: seq<Step>, r: Store, V: Values)
    requires AllSettled(a + b, r) && AllHold(a + b, V)
    ensures AllSettled(a, r) && AllSettled(b, r) && AllHold(a, V) && AllHold(b, V)
  {
    hide Settled, Holds;
    assert forall p :: p in a || p in b ==> p in a + b;
    assert forall k :: 0 <= k < |a| ==> (a + b)[k] == a[k];
    assert forall k :: 0 <= k < |b| ==> (a + b)[|a| + k] == b[k];
  }

  lemma {:induction false} PositionListed(ns: seq<nat>, k: nat)
    requires k < |ns|
    ensures var steps := PositionSteps(ns, k);
            && StepSll(0, ShiftCell(k), ns[k]) in steps && StepCond(ShiftCell(k), 1, IteCell(k), CCell(k)) in steps
            && (k > 0 ==> StepAdd(if k == 1 then IteCell(0) else AddCell(k - 1), IteCell(k), AddCell(k)) in steps)
  {
    hide ShiftCell, IteCell, CCell, AddCell;
    var steps := PositionSteps(ns, k);
    assert steps[0] in steps && steps[1] in steps && (k > 0 ==> steps[2] in steps);
  }

  /** What the fixed operands give at the start, and the loop keeps. */
  ghost predicate MulGiven(r: Store, V: Values, ns: seq<nat>) {
    && |V| == |r| == 2 + 4 * |ns| && Holding(r, V, 0) && Holding(r, V, 1)
    && forall k: nat :: k < |ns| ==> Holding(r, V, CCell(k))
  }

  lemma {:induction false} MulBase(dx: Domain, dy: Domain, dz: Domain, ns: seq<nat>, r: Store)
    requires |dx| == |dy| == |dz| > 1 && Positions(ns, |dy|) && |ns| > 0 && Valid(dx) && Valid(dy)
    requires NarrowsStore(r, MulStore(dx, dy, dz, ns)) && ValidStore(r) && Fixed(dx) && Fixed(dy)
    ensures MulGiven(r, MulValues(Lo(dx), Lo(dy), ns), ns)
  {
    var s, V, x, y := MulStore(dx, dy, dz, ns), MulValues(Lo(dx), Lo(dy), ns), Lo(dx), Lo(dy);
    FixedIs(dx);
    FixedLo(Zeros(|dx|));
    FixedNarrow(r[0], s[0]);
    FixedNarrow(r[1], s[1]);
    hide Lo, NewFixed, Fixed, Zeros;
    forall k: nat | k < |ns|
      ensures Holding(r, V, CCell(k))
    {
      MulGivenBit(dx, dy, dz, ns, r, k);
    }
  }

  lemma {:induction false} MulGivenBit(dx: Domain, dy: Domain, dz: Domain, ns: seq<nat>, r: Store, k: nat)
    requires |dx| == |dy| == |dz| > 1 && Positions(ns, |dy|) && k < |ns| && Valid(dy)
    requires NarrowsStore(r, MulStore(dx, dy, dz, ns)) && ValidStore(r) && Fixed(dy)
    ensures Holding(r, MulValues(Lo(dx), Lo(dy), ns), CCell(k))
  {
    var d := dy[ns[k]];
    CStart(dx, dy, dz, ns, k);
    ValueC(Lo(dx), Lo(dy), ns, k);
    assert Valid([d]) && Fixed([d]) && [d] == NewFixed([Lo(dy)[ns[k]]]);
    FixedNarrow(r[CCell(k)], [d]);
  }

  /** At the fixpoint all partial products and sums up to position `j` are fixed. */
  lemma {:induction false} MulFixed(r: Store, V: Values, ns: seq<nat>, j: nat)
    requires MulGiven(r, V, ns) && j <= |ns| && AllSettled(MulSteps(ns, |ns|), r) && AllHold(MulSteps(ns, |ns|), V)
    ensures forall k: nat :: k < j ==> Holding(r, V, IteCell(k)) && (k > 0 ==> Holding(r, V, AddCell(k)))
  {
    hide Holding, AllSettled, AllHold, MulSteps, PositionSteps, CCell, IteCell, ShiftCell, AddCell;
    if j > 0 {
      var k, steps := j - 1, PositionSteps(ns, j - 1);
      MulFixed(r, V, ns, k);
      PositionSettled(ns, k, |ns|, r, V);
      PositionListed(ns, k);
      ForwardIn(steps, StepSll(0, ShiftCell(k), ns[k]), r, V);
      ForwardIn(steps, StepCond(ShiftCell(k), 1, IteCell(k), CCell(k)), r, V);
      if k > 0 {
        ForwardIn(steps, StepAdd(if k == 1 then IteCell(0) else AddCell(k - 1), IteCell(k), AddCell(k)), r, V);
      }
    }
  }

  lemma {:induction false} MulSettled(dx: Domain, dy: Domain, dz: Domain, r: Store)
    requires |dx| == |dy| == |dz| > 1 && Valid(dx) && Valid(dy) && Fixed(dx) && Fixed(dy)
    requires var ns := Kept(dy, |dy|); Positions(ns, |dy|) && |ns| > 0
    requires var ns := Kept(dy, |dy|);
             NarrowsStore(r, MulStore(dx, dy, dz, ns)) && ValidStore(r) && AllSettled(MulSteps(ns, |ns|), r)
    ensures var m := |Kept(dy, |dy|)|;
            ResultCell(m) < |r| && r[ResultCell(m)] == NewFixed(ProductBits(Lo(dx), Lo(dy)))
  {
    hide MulStore, NarrowsStore, ValidStore, AllSettled, MulSteps, MulValues, Lo, NewFixed, Fixed, Valid, Holding;
    hide Positions, Kept, ProductBits, IsProduct;
    var x, y, ns := Lo(dx), Lo(dy), Kept(dy, |dy|);
    var V := MulValues(x, y, ns);
    MulBase(dx, dy, dz, ns, r);
    MulHold(x, y, ns, |ns|);
    MulFixed(r, V, ns, |ns|);
    var k := |ns| - 1;
    assert Holding(r, V, ResultCell(|ns|));
    HoldingIs(r, V, ResultCell(|ns|));
    ResultValue(x, y, ns);
    LoMember(dy);
    ProductIs(x, y);
    ProductIsSum(dy, x, y, ProductBits(x, y));
  }

  lemma {:induction false} ProductSolution(dx: Domain, dy: Domain, dz: Domain)
    requires |dx| == |dy| && Valid(dx) && Valid(dy) && Member(dz, ProductBits(Lo(dx), Lo(dy)))
    ensures MulSolution(dx, dy, dz, Lo(dx), Lo(dy), ProductBits(Lo(dx), Lo(dy)))
  {
    LoMember(dx);
    LoMember(dy);
    ProductIs(Lo(dx), Lo(dy));
  }

  /** More than one bit. */
  method PropMulWide(dx: Domain, dy: Domain, dz: Domain) returns (ok: bool, rx: Domain, ry: Domain, rz: Domain)
    requires |dx| == |dy| == |dz| > 1 && Valid(dx) && Valid(dy) && Valid(dz)
    ensures Narrows(rx, dx) && Narrows(ry, dy) && Narrows(rz, dz) && Valid(rx) && Valid(ry) && Valid(rz)
    ensures MulSound(dx, dy, dz, ok, rx, ry, rz)
    ensures Fixed(dx) && Fixed(dy) ==> Decides(ok, dz, rz, ProductBits(Lo(dx), Lo(dy)))
    ensures ok ==> MulRest(dx, dy, dz, rx, ry, rz)
  {
    hide AllSettled, Fixed, Lo, Decides, ProductBits, NewFixed, MulRest;
    hide Valid, Narrows, NarrowsStore, InStore, RunSolid, Stable, MulSteps, MulStore, MulValues, Member, AllFit;
    hide AllRank, AllHold, ValidStore;
    hide IsProduct, Kept, Falling;
    var bw := |dx|;
    var ns := KeptPositions(dy);
    KeptFalling(dy, bw);
    var s, steps := MulStore(dx, dy, dz, ns), MulSteps(ns, |ns|);
    MulFit(dx, dy, dz, ns, |ns|);
    MulValid(dx, dy, dz, ns);
    var r;
    ok, r := Run(steps, s, 1);
    OneCells(dx, dy, dz, ns, r);
    rx := r[0];
    if ok {
      ry := CollectBits(dy, ns, r);
      rz := r[ResultCell(|ns|)];
      CollectKeeps(dx, dy, dz, ns, r, ry);
      MulRests(dx, dy, dz, ry, r);
    } else {
      ry, rz := dy, dz;
      NarrowsSelf(dy);
      NarrowsSelf(dz);
    }
    forall x: Bits, y: Bits, z: Bits | MulSolution(dx, dy, dz, x, y, z)
      ensures ok && MulSolution(rx, ry, rz, x, y, z)
    {
      MulIn(dx, dy, dz, x, y, z);
      MemberSize(dx, x);
      MemberSize(dy, y);
      MulHold(x, y, ns, |ns|);
      RunOf(steps, s, ok, r, MulValues(x, y, ns));
      MulOut(x, y, ns, r);
      CollectHas(x, y, ns, r, dy, ry);
    }
    if Fixed(dx) && Fixed(dy) {
      if ok { MulSettled(dx, dy, dz, r); }
      if Member(dz, ProductBits(Lo(dx), Lo(dy))) { ProductSolution(dx, dy, dz); }
      Decided(ok, dz, rz, ProductBits(Lo(dx), Lo(dy)));
    }
  }

  lemma {:induction false} MulOneBit(x: Bits, y: Bits, z: Bits)
    requires |x| == 1 && IsProduct(x, y, z)
    ensures z == CondBits(y[0], x, Zeros(1))
  {
    ZerosAre(1);
    Pow2Succ(0);
    assert Nat(x[1..]) == 0 && Nat(y[1..]) == 0 && Nat(z[1..]) == 0;
    assert Nat(x) * Nat(y) <= 1;
  }

  /** A single bit: `z = ite (y, x, 0)`. */
  method PropMulBit(dx: Domain, dy: Domain, dz: Domain) returns (ok: bool, rx: Domain, ry: Domain, rz: Domain)
    requires |dx| == |dy| == |dz| == 1 && Valid(dx) && Valid(dy) && Valid(dz)
    ensures Narrows(rx, dx) && Narrows(ry, dy) && Narrows(rz, dz) && Valid(rx) && Valid(ry) && Valid(rz)
    ensures MulSound(dx, dy, dz, ok, rx, ry, rz)
    ensures Fixed(dx) && Fixed(dy) ==> Decides(ok, dz, rz, ProductBits(Lo(dx), Lo(dy)))
  {
    hide Valid, Narrows, Member, IsProduct, Best, Fixed, Lo, NewFixed, ProductBits, Decides;
    var zero := NewFixed(Zeros(1));
    MemberNewFixed(Zeros(1));
    var r0;
    ok, rx, r0, rz, ry := PropCond(dx, zero, dz, dy);
    forall x: Bits, y: Bits, z: Bits | MulSolution(dx, dy, dz, x, y, z)
      ensures ok && MulSolution(rx, ry, rz, x, y, z)
    {
      MemberSize(dx, x);
      MemberSize(dy, y);
      MulOneBit(x, y, z);
      assert CondSolution(dx, zero, dz, dy, x, Zeros(1), y);
    }
    if !ok {
      rx, ry, rz := dx, dy, dz;
      NarrowsSelf(dx);
      NarrowsSelf(dy);
      NarrowsSelf(dz);
    }
    if Fixed(dx) && Fixed(dy) {
      if ok { BitSettled(dx, dy, rx, ry, r0, rz); }
      if Member(dz, ProductBits(Lo(dx), Lo(dy))) { ProductSolution(dx, dy, dz); }
      Decided(ok, dz, rz, ProductBits(Lo(dx), Lo(dy)));
    }
  }

  lemma {:induction false} BitSettled(dx: Domain, dy: Domain, rx: Domain, ry: Domain, r0: Domain, rz: Domain)
    requires |dx| == |dy| == 1 && Valid(dx) && Valid(dy) && Fixed(dx) && Fixed(dy)
    requires Narrows(rx, dx) && Valid(rx) && Narrows(ry, dy) && Valid(ry)
    requires Narrows(r0, NewFixed(Zeros(1))) && Valid(r0)
    requires Fixed(ry) ==> rz == if ry[0].lo then rx else r0
    ensures rz == NewFixed(ProductBits(Lo(dx), Lo(dy)))
  {
    FixedNarrow(rx, dx);
    FixedNarrow(ry, dy);
    FixedLo(Zeros(1));
    FixedNarrow(r0, NewFixed(Zeros(1)));
    ProductIs(Lo(dx), Lo(dy));
    FixedIs(dx);
    hide ProductBits, IsProduct;
    MulOneBit(Lo(dx), Lo(dy), ProductBits(Lo(dx), Lo(dy)));
    assert Lo(dy)[0] == dy[0].lo;
    hide Fixed, NewFixed, Lo;
    assert rz == if dy[0].lo then NewFixed(Lo(dx)) else NewFixed(Zeros(1));
  }

  /** `bzla_bvprop_mul` */
  method PropMul(dx: Domain, dy: Domain, dz: Domain) returns (ok: bool, rx: Domain, ry: Domain, rz: Domain)
    requires |dx| == |dy| == |dz| > 0 && Valid(dx) && Valid(dy) && Valid(dz)
    ensures Narrows(rx, dx) && Narrows(ry, dy) && Narrows(rz, dz) && Valid(rx) && Valid(ry) && Valid(rz)
    ensures MulSound(dx, dy, dz, ok, rx, ry, rz)
    ensures Fixed(dx) && Fixed(dy) ==> Decides(ok, dz, rz, ProductBits(Lo(dx), Lo(dy)))
    ensures ok && |dx| > 1 ==> MulRest(dx, dy, dz, rx, ry, rz)
  {
    if |dx| == 1 {
      ok, rx, ry, rz := PropMulBit(dx, dy, dz);
    } else {
      ok, rx, ry, rz := PropMulWide(dx, dy, dz);
    }
  }
}
