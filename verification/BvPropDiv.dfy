/** The division and remainder propagators (src/bzlabvprop.c:3411-4161): one group of
    domains and steps for every row of long division. */
module BvPropDiv {
  import opened Arith
  import opened BvDomain
  import opened BvPropBasic
  import opened BvNat
  import opened BvRef
  import opened BvPropCond
  import opened BvCarry
  import opened BvDivBits
  import opened BvPropSteps
  import opened BvProp

  datatype Mode = Quotient | Remainder

  // ---------------------------------------------------------------- cells

  const CX := 0
  const CY := 1
  const CQ := 2
  const NOT_Y := 3
  const NEG_Y := 4
  const EQ_ZERO := 5
  const NOT_EQ_ZERO := 6
  const R_INIT := 7
  const R_INT := 8
  const ZERO_1 := 9
  const ONE_1 := 10
  const ZERO_W := 11
  const ONE_W := 12
  const BASE := 13

  datatype RowCell = XBit | QBit | Row | Next | Ult | Shift | Slice | Diff

  function Offset(t: RowCell): nat {
    match t
    case XBit => 0 case QBit => 1 case Row => 2 case Next => 3
    case Ult => 4 case Shift => 5 case Slice => 6 case Diff => 7
  }

  function CellOf(i: nat, t: RowCell): nat { BASE + 8 * i + Offset(t) }

  function OffsetCell(k: nat): RowCell
    requires k < 8
  {
    if k == 0 then XBit else if k == 1 then QBit else if k == 2 then Row else if k == 3 then Next
    else if k == 4 then Ult else if k == 5 then Shift else if k == 6 then Slice else Diff
  }

  lemma {:induction false} CellOfRow(i: nat, t: RowCell)
    ensures CellOf(i, t) >= BASE && (CellOf(i, t) - BASE) / 8 == i && OffsetCell((CellOf(i, t) - BASE) % 8) == t
    ensures CellOf(i, t) < BASE + 8 * (i + 1)
  {
  }

  // ---------------------------------------------------------------- the initial domains

  function FixedCell(mode: Mode, dy: Domain, dz: Domain, c: nat): Domain
    requires c < BASE
  {
    var w := |dy|;
    if c == CY then dy
    else if c == CQ && mode.Quotient? then dz
    else if c == EQ_ZERO || c == NOT_EQ_ZERO then NewInit(1)
    else if c == R_INIT || c == ZERO_W then NewFixed(seq(w, _ => false))
    else if c == ZERO_1 then [ZERO]
    else if c == ONE_1 then [ONE]
    else if c == ONE_W then NewFixed(OneBits(w))
    else NewInit(w)
  }

  function RowDomain(mode: Mode, dx: Domain, dz: Domain, i: nat, t: RowCell): Domain
    requires |dx| == |dz| && i < |dx|
  {
    var w := |dx|;
    match t
    case XBit => [dx[w - 1 - i]]
    case QBit => if mode.Quotient? then [dz[w - 1 - i]] else NewInit(1)
    case Next => if mode.Remainder? && i == w - 1 then dz else NewInit(w)
    case Ult => NewInit(1)
    case Slice => NewInit(w - 1)
    case _ => NewInit(w)
  }

  function DivStore(mode: Mode, dx: Domain, dy: Domain, dz: Domain): (s: Store)
    requires |dx| == |dy| == |dz|
    ensures |s| == BASE + 8 * |dx|
  {
    seq(BASE + 8 * |dx|, c requires 0 <= c < BASE + 8 * |dx| =>
      if c < BASE then FixedCell(mode, dy, dz, c)
      else RowDomain(mode, dx, dz, (c - BASE) / 8, OffsetCell((c - BASE) % 8)))
  }

  lemma {:induction false} StoreAt(mode: Mode, dx: Domain, dy: Domain, dz: Domain, i: nat, t: RowCell)
    requires |dx| == |dy| == |dz| && i < |dx|
    ensures CellOf(i, t) < BASE + 8 * |dx| && DivStore(mode, dx, dy, dz)[CellOf(i, t)] == RowDomain(mode, dx, dz, i, t)
  {
    hide RowDomain, CellOf, OffsetCell;
    CellOfRow(i, t);
  }

  // ---------------------------------------------------------------- the steps of a row

  /** r = previous << 1 with the next dividend bit. */
  function RowIn(mode: Mode, w: nat, i: nat): seq<Step>
    requires i < w
  {
    var n := w - 1 - i;
    (if w == 1 then [] else
       [if i == 0 then StepEq(R_INIT, CellOf(i, Shift), ONE_1) else StepSll(CellOf(i - 1, Next), CellOf(i, Shift), 1),
        StepSlice(CellOf(i, Row), CellOf(i, Slice), w - 1, 1),
        StepSlice(CellOf(i, Shift), CellOf(i, Slice), w - 1, 1)])
    + [StepSlice(CellOf(i, Row), CellOf(i, XBit), 0, 0)]
    + (if mode.Remainder? then [StepSlice(CX, CellOf(i, XBit), n, n)] else [])
  }

  /** Compare with the divisor and subtract it. */
  function RowMid(i: nat): seq<Step> {
    [StepUlt(CellOf(i, Row), CY, CellOf(i, Ult)),
     StepNot(CY, NOT_Y),
     StepAdd(NOT_Y, ONE_W, NEG_Y),
     StepAdd(CellOf(i, Row), NEG_Y, CellOf(i, Diff)),
     StepEq(CY, ZERO_W, EQ_ZERO)]
  }

  /** Choose the next remainder and the quotient bit. */
  function RowOut(mode: Mode, w: nat, i: nat): seq<Step>
    requires i < w
  {
    var n := w - 1 - i;
    (if mode.Remainder? && i == w - 1 then
       [StepCond(CX, CellOf(i, Diff), R_INT, EQ_ZERO), StepCond(CellOf(i, Row), R_INT, CellOf(i, Next), CellOf(i, Ult))]
     else
       [StepCond(CellOf(i, Row), CellOf(i, Diff), CellOf(i, Next), CellOf(i, Ult))])
    + [StepNot(EQ_ZERO, NOT_EQ_ZERO)]
    + (if mode.Quotient? then
         [StepSlice(CQ, CellOf(i, QBit), n, n), StepCond(ZERO_1, ONE_1, CellOf(i, QBit), CellOf(i, Ult))]
       else [])
  }

  function DivSteps(mode: Mode, w: nat, j: nat): seq<Step>
    requires j <= w
  {
    if j == 0 then [] else
    DivSteps(mode, w, j - 1) + RowIn(mode, w, j - 1) + RowMid(j - 1) + RowOut(mode, w, j - 1)
  }

  lemma {:induction false} AllFitConcat(a: seq<Step>, b: seq<Step>, s: Store)
    requires AllFit(a, s) && AllFit(b, s)
    ensures AllFit(a + b, s)
  {
    hide Fits;
  }

  lemma {:induction false} AllRankConcat(a: seq<Step>, b: seq<Step>, r: nat)
    requires AllRank(a, r) && AllRank(b, r)
    ensures AllRank(a + b, r)
  {
  }

  lemma {:induction false} AllHoldConcat(a: seq<Step>, b: seq<Step>, V: Values)
    requires AllHold(a, V) && AllHold(b, V)
    ensures AllHold(a + b, V)
  {
    hide Holds;
  }

  /** The widths of the cells of one row. */
  ghost predicate RowWidths(s: Store, w: nat, i: nat) {
    && |s| == BASE + 8 * w && i < w
    && CellOf(i, Diff) < |s|
    && |s[CellOf(i, XBit)]| == |s[CellOf(i, QBit)]| == |s[CellOf(i, Ult)]| == 1
    && |s[CellOf(i, Row)]| == |s[CellOf(i, Next)]| == |s[CellOf(i, Shift)]| == |s[CellOf(i, Diff)]| == w
    && |s[CellOf(i, Slice)]| == w - 1
  }

  ghost predicate FixedWidths(s: Store, w: nat) {
    && w > 0 && |s| == BASE + 8 * w
    && |s[CX]| == |s[CY]| == |s[CQ]| == |s[NOT_Y]| == |s[NEG_Y]| == |s[R_INIT]| == |s[R_INT]| == |s[ZERO_W]|
       == |s[ONE_W]| == w
    && |s[EQ_ZERO]| == |s[NOT_EQ_ZERO]| == |s[ZERO_1]| == |s[ONE_1]| == 1
  }

  lemma {:induction false} WidthsKnown(mode: Mode, dx: Domain, dy: Domain, dz: Domain, i: nat)
    requires |dx| == |dy| == |dz| && i < |dx|
    ensures var s := DivStore(mode, dx, dy, dz); RowWidths(s, |dx|, i) && FixedWidths(s, |dx|)
  {
    hide DivStore, CellOf;
    StoreAt(mode, dx, dy, dz, i, XBit);
    StoreAt(mode, dx, dy, dz, i, QBit);
    StoreAt(mode, dx, dy, dz, i, Row);
    StoreAt(mode, dx, dy, dz, i, Next);
    StoreAt(mode, dx, dy, dz, i, Ult);
    StoreAt(mode, dx, dy, dz, i, Shift);
    StoreAt(mode, dx, dy, dz, i, Slice);
    StoreAt(mode, dx, dy, dz, i, Diff);
    FixedAt(mode, dx, dy, dz);
  }

  lemma {:induction false} FixedAt(mode: Mode, dx: Domain, dy: Domain, dz: Domain)
    requires |dx| == |dy| == |dz|
    ensures forall c: nat :: c < BASE ==> DivStore(mode, dx, dy, dz)[c] == FixedCell(mode, dy, dz, c)
  {
  }

  lemma {:induction false} RowInFits(mode: Mode, s: Store, w: nat, i: nat)
    requires RowWidths(s, w, i) && FixedWidths(s, w) && (i > 0 ==> RowWidths(s, w, i - 1))
    ensures AllFit(RowIn(mode, w, i), s) && AllRank(RowIn(mode, w, i), 2)
  {
  }

  lemma {:induction false} RowMidFits(s: Store, w: nat, i: nat)
    requires RowWidths(s, w, i) && FixedWidths(s, w)
    ensures AllFit(RowMid(i), s) && AllRank(RowMid(i), 2)
  {
  }

  lemma {:induction false} RowOutFits(mode: Mode, s: Store, w: nat, i: nat)
    requires RowWidths(s, w, i) && FixedWidths(s, w)
    ensures AllFit(RowOut(mode, w, i), s) && AllRank(RowOut(mode, w, i), 2)
  {
  }

  lemma {:induction false} DivFit(mode: Mode, dx: Domain, dy: Domain, dz: Domain, j: nat)
    requires |dx| == |dy| == |dz| > 0 && j <= |dx|
    ensures AllFit(DivSteps(mode, |dx|, j), DivStore(mode, dx, dy, dz)) && AllRank(DivSteps(mode, |dx|, j), 2)
  {
    hide Fits, DivStore, RowIn, RowMid, RowOut, RowWidths, FixedWidths, AllFit, AllRank;
    var w, s := |dx|, DivStore(mode, dx, dy, dz);
    if j == 0 {
      NoSteps(s);
    } else {
      var i := j - 1;
      DivFit(mode, dx, dy, dz, i);
      WidthsKnown(mode, dx, dy, dz, i);
      if i > 0 { WidthsKnown(mode, dx, dy, dz, i - 1); }
      RowInFits(mode, s, w, i);
      RowMidFits(s, w, i);
      RowOutFits(mode, s, w, i);
      AllFitConcat(DivSteps(mode, w, i), RowIn(mode, w, i), s);
      AllFitConcat(DivSteps(mode, w, i) + RowIn(mode, w, i), RowMid(i), s);
      AllFitConcat(DivSteps(mode, w, i) + RowIn(mode, w, i) + RowMid(i), RowOut(mode, w, i), s);
      AllRankConcat(DivSteps(mode, w, i), RowIn(mode, w, i), 2);
      AllRankConcat(DivSteps(mode, w, i) + RowIn(mode, w, i), RowMid(i), 2);
      AllRankConcat(DivSteps(mode, w, i) + RowIn(mode, w, i) + RowMid(i), RowOut(mode, w, i), 2);
    }
  }

  lemma {:induction false} NoSteps(s: Store)
    ensures AllFit([], s) && AllRank([], 2)
  {
  }

  // ---------------------------------------------------------------- what the cells denote

  ghost function Neg(y: Bits): (r: Bits)
    ensures |r| == |y|
  { AddBits(NotBits(y), OneBits(|y|)) }

  ghost function DiffBits(x: Bits, y: Bits, i: nat): (r: Bits)
    requires |x| == |y| && i < |x|
    ensures |r| == |x|
  { AddBits(RowBits(x, y, i), Neg(y)) }

  ghost function FixedValue(x: Bits, y: Bits, c: nat): Bits
    requires |x| == |y| > 0 && c < BASE
  {
    var w := |x|;
    if c == CX then x
    else if c == CY then y
    else if c == CQ then QuotBits(x, y)
    else if c == NOT_Y then NotBits(y)
    else if c == NEG_Y then Neg(y)
    else if c == EQ_ZERO then [y == Zeros(w)]
    else if c == NOT_EQ_ZERO then NotBits([y == Zeros(w)])
    else if c == R_INT then CondBits(y == Zeros(w), x, DiffBits(x, y, w - 1))
    else if c == ZERO_1 then [false]
    else if c == ONE_1 then [true]
    else if c == ONE_W then OneBits(w)
    else Zeros(w)
  }

  ghost function RowCellValue(x: Bits, y: Bits, i: nat, t: RowCell): Bits
    requires |x| == |y| && i < |x|
  {
    var w := |x|;
    match t
    case XBit => [x[w - 1 - i]]
    case QBit => [QuotBits(x, y)[w - 1 - i]]
    case Row => RowBits(x, y, i)
    case Next => RemBits(x, y, i + 1)
    case Ult => [RowNat(x, y, i) < Nat(y)]
    case Shift => SllBits(RemBits(x, y, i), 1)
    case Slice => RowBits(x, y, i)[1..]
    case Diff => DiffBits(x, y, i)
  }

  ghost function DivValues(x: Bits, y: Bits): (V: Values)
    requires |x| == |y| > 0
    ensures |V| == BASE + 8 * |x|
  {
    seq(BASE + 8 * |x|, c requires 0 <= c < BASE + 8 * |x| =>
      if c < BASE then FixedValue(x, y, c)
      else RowCellValue(x, y, (c - BASE) / 8, OffsetCell((c - BASE) % 8)))
  }

  lemma {:induction false} ValueAt(x: Bits, y: Bits, i: nat, t: RowCell)
    requires |x| == |y| && i < |x|
    ensures CellOf(i, t) < BASE + 8 * |x| && DivValues(x, y)[CellOf(i, t)] == RowCellValue(x, y, i, t)
  {
    hide RowCellValue, CellOf, OffsetCell;
    CellOfRow(i, t);
  }

  lemma {:induction false} FixedValueAt(x: Bits, y: Bits)
    requires |x| == |y| > 0
    ensures forall c: nat :: c < BASE ==> DivValues(x, y)[c] == FixedValue(x, y, c)
  {
    hide FixedValue, RowCellValue;
  }

  /** The values of a row and of the cells that all rows share, by name. */
  ghost predicate RowKnown(V: Values, x: Bits, y: Bits, i: nat) {
    && |x| == |y| && i < |x| && |V| == BASE + 8 * |x| && CellOf(i, Diff) < |V|
    && (forall t: RowCell :: CellOf(i, t) < |V| && V[CellOf(i, t)] == RowCellValue(x, y, i, t))
    && (forall c: nat :: c < BASE ==> V[c] == FixedValue(x, y, c))
  }

  lemma {:induction false} RowKnownAt(x: Bits, y: Bits, i: nat)
    requires |x| == |y| && i < |x|
    ensures RowKnown(DivValues(x, y), x, y, i)
  {
    hide RowCellValue, FixedValue, DivValues;
    forall t: RowCell
      ensures CellOf(i, t) < BASE + 8 * |x| && DivValues(x, y)[CellOf(i, t)] == RowCellValue(x, y, i, t)
    {
      ValueAt(x, y, i, t);
    }
    FixedValueAt(x, y);
    assert CellOf(i, Diff) < |DivValues(x, y)|;
  }

  /** The values solve every step that brings the next dividend bit in. */
  lemma {:induction false} RowInHolds(mode: Mode, V: Values, x: Bits, y: Bits, i: nat)
    requires RowKnown(V, x, y, i) && (i > 0 ==> RowKnown(V, x, y, i - 1))
    ensures AllHold(RowIn(mode, |x|, i), V)
  {
    hide RowBits, RemBits, SllBits, NotBits, Neg, QuotBits, DiffBits, RowNat, Nat, CellOf, OneBits, RowIn;
    var w := |x|;
    RowShift(x, y, i);
    assert V[CellOf(i, Shift)] == SllBits(RemBits(x, y, i), 1);
    assert V[CellOf(i, Row)] == RowBits(x, y, i) && V[CellOf(i, Slice)] == RowBits(x, y, i)[1..];
    assert V[CellOf(i, XBit)] == [x[w - 1 - i]] && V[CX] == x && V[ONE_1] == [true];
    if i == 0 {
      RemStart(x, y);
      SllZero(w);
      assert V[R_INIT] == Zeros(w);
    } else {
      assert V[CellOf(i - 1, Next)] == RemBits(x, y, i);
    }
    RowInSolve(mode, V, w, i);
  }

  lemma {:induction false} RowInSolve(mode: Mode, V: Values, w: nat, i: nat)
    requires i < w && |V| >= BASE && (forall t: RowCell :: CellOf(i, t) < |V|) && (i > 0 ==> CellOf(i - 1, Next) < |V|)
    requires |V[CX]| == |V[CellOf(i, Row)]| == |V[CellOf(i, Shift)]| == w && V[ONE_1] == [true]
    requires V[CellOf(i, Row)][0] == V[CX][w - 1 - i] && V[CellOf(i, XBit)] == [V[CX][w - 1 - i]]
    requires V[CellOf(i, Slice)] == V[CellOf(i, Row)][1..] == V[CellOf(i, Shift)][1..]
    requires if i == 0 then V[CellOf(i, Shift)] == V[R_INIT]
            else V[CellOf(i, Shift)] == SllBits(V[CellOf(i - 1, Next)], 1)
    ensures AllHold(RowIn(mode, w, i), V)
  {
    hide CellOf, SllBits, Holds, AllHold;
    var n := w - 1 - i;
    var row, slice, shift, bit := CellOf(i, Row), CellOf(i, Slice), CellOf(i, Shift), CellOf(i, XBit);
    var first := if i == 0 then StepEq(R_INIT, shift, ONE_1) else StepSll(CellOf(i - 1, Next), shift, 1);
    var a := if w == 1 then [] else [first, StepSlice(row, slice, w - 1, 1), StepSlice(shift, slice, w - 1, 1)];
    var b := [StepSlice(row, bit, 0, 0)];
    var c := if mode.Remainder? then [StepSlice(CX, bit, n, n)] else [];
    NothingHolds(V);
    if w > 1 {
      SolveShift(V, w, i);
      SolveSlice(V, row, slice, w - 1, 1);
      SolveSlice(V, shift, slice, w - 1, 1);
      HoldThree(first, StepSlice(row, slice, w - 1, 1), StepSlice(shift, slice, w - 1, 1), V);
    }
    SolveBit(V, row, bit, 0);
    SolveBit(V, CX, bit, n);
    HoldOne(StepSlice(row, bit, 0, 0), V);
    HoldOne(StepSlice(CX, bit, n, n), V);
    AllHoldConcat(a, b, V);
    AllHoldConcat(a + b, c, V);
    assert RowIn(mode, w, i) == a + b + c;
  }

  /** The first row starts from the initial remainder, the others from the one before, shifted. */
  lemma {:induction false} SolveShift(V: Values, w: nat, i: nat)
    requires |V| >= BASE && CellOf(i, Shift) < |V| && (i > 0 ==> CellOf(i - 1, Next) < |V|) && V[ONE_1] == [true]
    requires if i == 0 then V[CellOf(i, Shift)] == V[R_INIT]
            else V[CellOf(i, Shift)] == SllBits(V[CellOf(i - 1, Next)], 1)
    ensures Holds(if i == 0 then StepEq(R_INIT, CellOf(i, Shift), ONE_1)
            else StepSll(CellOf(i - 1, Next), CellOf(i, Shift), 1), V)
  {
    hide CellOf, SllBits;
  }

  lemma {:induction false} SolveSlice(V: Values, x: nat, z: nat, u: nat, l: nat)
    requires x < |V| && z < |V| && l <= u < |V[x]| && V[z] == V[x][l..][..u + 1 - l]
    ensures Holds(StepSlice(x, z, u, l), V)
  {
    assert V[x][l..][..u + 1 - l] == V[x][l..u + 1];
  }

  lemma {:induction false} SolveBit(V: Values, x: nat, z: nat, n: nat)
    requires x < |V| && z < |V| && n < |V[x]| && V[z] == [V[x][n]]
    ensures Holds(StepSlice(x, z, n, n), V)
  {
    assert V[x][n..n + 1] == [V[x][n]];
  }

  lemma {:induction false} SolveCond(V: Values, x: nat, y: nat, z: nat, c: nat, b: bool)
    requires x < |V| && y < |V| && z < |V| && c < |V| && V[c] == [b] && V[z] == CondBits(b, V[x], V[y])
    ensures Holds(StepCond(x, y, z, c), V)
  {
    hide CondBits;
  }

  lemma {:induction false} HoldOne(p: Step, V: Values)
    requires Holds(p, V)
    ensures AllHold([p], V)
  {
    hide Holds;
  }

  lemma {:induction false} HoldTwo(p: Step, q: Step, V: Values)
    requires Holds(p, V) && Holds(q, V)
    ensures AllHold([p, q], V)
  {
    hide Holds;
  }

  lemma {:induction false} HoldThree(p: Step, q: Step, r: Step, V: Values)
    requires Holds(p, V) && Holds(q, V) && Holds(r, V)
    ensures AllHold([p, q, r], V)
  {
    hide Holds;
  }

  lemma {:induction false} SllZero(w: nat)
    ensures SllBits(Zeros(w), 1) == Zeros(w)
  {
  }

  lemma {:induction false} NegIs(y: Bits)
    requires |y| > 0
    ensures IsSum(NotBits(y), OneBits(|y|), Neg(y)) && Nat(Neg(y)) == (Pow2(|y|) - Nat(y)) % Pow2(|y|)
  {
    hide NotBits, OneBits, Nat, Pow2, AddBits;
    SumIsAdd(NotBits(y), OneBits(|y|), Neg(y));
    NatNot(y);
    NatOne(|y|);
  }

  lemma {:induction false} RowMidHolds(V: Values, x: Bits, y: Bits, i: nat)
    requires RowKnown(V, x, y, i)
    ensures AllHold(RowMid(i), V)
  {
    hide RowBits, RemBits, SllBits, NotBits, Neg, QuotBits, DiffBits, RowNat, Nat, CellOf, OneBits, IsSum, Zeros;
    hide Holds, AllHold;
    RowMidFacts(x, y, i);
    var row, diff, ult := CellOf(i, Row), CellOf(i, Diff), CellOf(i, Ult);
    assert V[row] == RowBits(x, y, i) && V[diff] == DiffBits(x, y, i) && V[ult] == [RowNat(x, y, i) < Nat(y)];
    assert V[CY] == y && V[NOT_Y] == NotBits(y) && V[ONE_W] == OneBits(|x|) && V[NEG_Y] == Neg(y);
    assert V[ZERO_W] == Zeros(|x|) && V[EQ_ZERO] == [y == Zeros(|x|)];
    SolveMid(V, row, diff, ult);
    HoldTwo(StepUlt(row, CY, ult), StepNot(CY, NOT_Y), V);
    HoldThree(StepAdd(NOT_Y, ONE_W, NEG_Y), StepAdd(row, NEG_Y, diff), StepEq(CY, ZERO_W, EQ_ZERO), V);
    AllHoldConcat([StepUlt(row, CY, ult), StepNot(CY, NOT_Y)],
                  [StepAdd(NOT_Y, ONE_W, NEG_Y), StepAdd(row, NEG_Y, diff), StepEq(CY, ZERO_W, EQ_ZERO)], V);
    assert RowMid(i) == [StepUlt(row, CY, ult), StepNot(CY, NOT_Y)]
                        + [StepAdd(NOT_Y, ONE_W, NEG_Y), StepAdd(row, NEG_Y, diff), StepEq(CY, ZERO_W, EQ_ZERO)];
  }

  lemma {:induction false} SolveMid(V: Values, row: nat, diff: nat, ult: nat)
    requires |V| >= BASE && row < |V| && diff < |V| && ult < |V|
    requires V[ult] == [Nat(V[row]) < Nat(V[CY])] && V[NOT_Y] == NotBits(V[CY])
    requires IsSum(V[NOT_Y], V[ONE_W], V[NEG_Y]) && IsSum(V[row], V[NEG_Y], V[diff])
    requires V[EQ_ZERO] == [V[CY] == V[ZERO_W]]
    ensures Holds(StepUlt(row, CY, ult), V) && Holds(StepNot(CY, NOT_Y), V) && Holds(StepAdd(NOT_Y, ONE_W, NEG_Y), V)
    ensures Holds(StepAdd(row, NEG_Y, diff), V) && Holds(StepEq(CY, ZERO_W, EQ_ZERO), V)
  {
    hide Nat, NotBits, IsSum;
  }

  lemma {:induction false} RowMidFacts(x: Bits, y: Bits, i: nat)
    requires |x| == |y| && i < |x|
    ensures Nat(RowBits(x, y, i)) == RowNat(x, y, i)
    ensures IsSum(NotBits(y), OneBits(|y|), Neg(y)) && IsSum(RowBits(x, y, i), Neg(y), DiffBits(x, y, i))
  {
    RowValue(x, y, i);
    NegIs(y);
    SumIsAdd(RowBits(x, y, i), Neg(y), DiffBits(x, y, i));
  }

  lemma {:induction false} NextIs(x: Bits, y: Bits, i: nat)
    requires |x| == |y| && i < |x|
    ensures RemBits(x, y, i + 1) == CondBits(RowNat(x, y, i) < Nat(y), RowBits(x, y, i), DiffBits(x, y, i))
  {
    RowStep(x, y, i);
    if RowNat(x, y, i) >= Nat(y) {
      NegIs(y);
      RowMidFacts(x, y, i);
      SubIs(x, y, i, Neg(y), DiffBits(x, y, i));
    }
  }

  lemma {:induction false} CondPick(c: bool, x: Bits, y: Bits)
    ensures CondBits(c, x, y) == if c then x else y
  {
  }

  lemma {:induction false} LastIs(x: Bits, y: Bits)
    requires |x| == |y| > 0
    ensures var w := |x|;
            RemBits(x, y, w) == CondBits(RowNat(x, y, w - 1) < Nat(y), RowBits(x, y, w - 1),
                                         CondBits(y == Zeros(w), x, DiffBits(x, y, w - 1)))
  {
    hide RowNat, Nat, RowBits, RemBits, DiffBits, Zeros, CondBits;
    var w := |x|;
    var r, d := RowBits(x, y, w - 1), DiffBits(x, y, w - 1);
    var less, zero := RowNat(x, y, w - 1) < Nat(y), y == Zeros(w);
    CondPick(less, r, CondBits(zero, x, d));
    CondPick(zero, x, d);
    if zero {
      ZerosAre(w);
      WholeRem(x, y);
    } else {
      NextIs(x, y, w - 1);
      CondPick(less, r, d);
    }
  }

  lemma {:induction false} WholeRem(x: Bits, y: Bits)
    requires Nat(y) == 0
    ensures RemBits(x, y, |x|) == x
  {
    hide Nat;
    TopWhole(x);
    NatBound(x);
    NatOfNat(Nat(x), |x|);
    NatInjective(x, OfNat(Nat(x), |x|));
  }

  lemma {:induction false} RowOutHolds(mode: Mode, V: Values, x: Bits, y: Bits, i: nat)
    requires RowKnown(V, x, y, i)
    ensures AllHold(RowOut(mode, |x|, i), V)
  {
    hide RowBits, RemBits, SllBits, NotBits, Neg, QuotBits, DiffBits, RowNat, Nat, CellOf, OneBits, Zeros, RowOut;
    hide CondBits;
    var w := |x|;
    NextIs(x, y, i);
    if i == w - 1 { LastIs(x, y); }
    QuotBit(x, y, i);
    assert V[CellOf(i, Row)] == RowBits(x, y, i) && V[CellOf(i, Diff)] == DiffBits(x, y, i);
    assert V[CellOf(i, Ult)] == [RowNat(x, y, i) < Nat(y)] && V[CellOf(i, Next)] == RemBits(x, y, i + 1);
    assert V[CellOf(i, QBit)] == [QuotBits(x, y)[w - 1 - i]];
    assert V[CX] == x && V[CQ] == QuotBits(x, y) && V[EQ_ZERO] == [y == Zeros(w)];
    assert V[NOT_EQ_ZERO] == NotBits([y == Zeros(w)]) && V[ZERO_1] == [false] && V[ONE_1] == [true];
    assert V[R_INT] == CondBits(y == Zeros(w), x, DiffBits(x, y, w - 1));
    RowOutSolve(mode, V, w, i, RowNat(x, y, i) < Nat(y), y == Zeros(w));
  }

  lemma {:induction false} RowOutSolve(mode: Mode, V: Values, w: nat, i: nat, ult: bool, zero: bool)
    requires i < w && |V| >= BASE && forall t: RowCell :: CellOf(i, t) < |V|
    requires V[CellOf(i, Ult)] == [ult] && V[EQ_ZERO] == [zero] && V[NOT_EQ_ZERO] == NotBits([zero])
    requires V[ZERO_1] == [false] && V[ONE_1] == [true] && |V[CQ]| == w
    requires V[CellOf(i, QBit)] == [V[CQ][w - 1 - i]] == [!ult]
    requires V[CellOf(i, Next)] == CondBits(ult, V[CellOf(i, Row)], V[CellOf(i, Diff)])
    requires i == w - 1 ==> V[R_INT] == CondBits(zero, V[CX], V[CellOf(i, Diff)])
    requires i == w - 1 ==> V[CellOf(i, Next)] == CondBits(ult, V[CellOf(i, Row)], V[R_INT])
    ensures AllHold(RowOut(mode, w, i), V)
  {
    hide CellOf, NotBits, Holds, AllHold, CondBits;
    var n := w - 1 - i;
    var row, diff, next, less, bit := CellOf(i, Row), CellOf(i, Diff), CellOf(i, Next), CellOf(i, Ult), CellOf(i, QBit);
    var last := mode.Remainder? && i == w - 1;
    var a := if last then [StepCond(CX, diff, R_INT, EQ_ZERO), StepCond(row, R_INT, next, less)]
      else [StepCond(row, diff, next, less)];
    var b := [StepNot(EQ_ZERO, NOT_EQ_ZERO)];
    var c := if mode.Quotient? then [StepSlice(CQ, bit, n, n), StepCond(ZERO_1, ONE_1, bit, less)] else [];
    NothingHolds(V);
    if last {
      SolveCond(V, CX, diff, R_INT, EQ_ZERO, zero);
      SolveCond(V, row, R_INT, next, less, ult);
      HoldTwo(StepCond(CX, diff, R_INT, EQ_ZERO), StepCond(row, R_INT, next, less), V);
    } else {
      SolveCond(V, row, diff, next, less, ult);
      HoldOne(StepCond(row, diff, next, less), V);
    }
    SolveNot(V, EQ_ZERO, NOT_EQ_ZERO);
    HoldOne(StepNot(EQ_ZERO, NOT_EQ_ZERO), V);
    SolveBit(V, CQ, bit, n);
    CondPick(ult, V[ZERO_1], V[ONE_1]);
    assert V[bit] == CondBits(ult, V[ZERO_1], V[ONE_1]);
    SolveCond(V, ZERO_1, ONE_1, bit, less, ult);
    HoldTwo(StepSlice(CQ, bit, n, n), StepCond(ZERO_1, ONE_1, bit, less), V);
    AllHoldConcat(a, b, V);
    AllHoldConcat(a + b, c, V);
    assert RowOut(mode, w, i) == a + b + c;
  }

  lemma {:induction false} SolveNot(V: Values, x: nat, z: nat)
    requires x < |V| && z < |V| && V[z] == NotBits(V[x])
    ensures Holds(StepNot(x, z), V)
  {
    hide NotBits;
  }

  lemma {:induction false} QuotBit(x: Bits, y: Bits, i: nat)
    requires i < |x|
    ensures QuotBits(x, y)[|x| - 1 - i] == (RowNat(x, y, i) >= Nat(y))
  {
    hide RowNat;
  }

  lemma {:induction false} DivHold(mode: Mode, x: Bits, y: Bits, j: nat)
    requires |x| == |y| > 0 && j <= |x|
    ensures AllHold(DivSteps(mode, |x|, j), DivValues(x, y))
  {
    hide Holds, RowIn, RowMid, RowOut, AllHold, DivValues, RowKnown;
    var w, V := |x|, DivValues(x, y);
    if j == 0 {
      NothingHolds(V);
    } else {
      var i := j - 1;
      DivHold(mode, x, y, i);
      RowKnownAt(x, y, i);
      if i > 0 { RowKnownAt(x, y, i - 1); }
      RowInHolds(mode, V, x, y, i);
      RowMidHolds(V, x, y, i);
      RowOutHolds(mode, V, x, y, i);
      AllHoldConcat(DivSteps(mode, w, i), RowIn(mode, w, i), V);
      AllHoldConcat(DivSteps(mode, w, i) + RowIn(mode, w, i), RowMid(i), V);
      AllHoldConcat(DivSteps(mode, w, i) + RowIn(mode, w, i) + RowMid(i), RowOut(mode, w, i), V);
    }
  }

  lemma {:induction false} NothingHolds(V: Values)
    ensures AllHold([], V)
  {
  }

  // ---------------------------------------------------------------- solutions and the store

  /** `x`, `y` and the result lie in the domains and satisfy the division equation, the
      divisor zero included. */
  ghost predicate DivSolution(mode: Mode, dx: Domain, dy: Domain, dz: Domain, x: Bits, y: Bits, z: Bits) {
    Member(dx, x) && Member(dy, y) && Member(dz, z) && if mode.Quotient? then IsQuot(x, y, z) else IsRem(x, y, z)
  }

  lemma {:induction false} FixedIn(mode: Mode, dx: Domain, dy: Domain, dz: Domain, x: Bits, y: Bits, z: Bits, c: nat)
    requires |dx| == |dy| == |dz| > 0 && DivSolution(mode, dx, dy, dz, x, y, z) && c < BASE
    ensures |x| == |y| && Member(FixedCell(mode, dy, dz, c), FixedValue(x, y, c))
  {
    if mode.Quotient? { QuotIs(x, y, z); }
    hide AddBits, NotBits, QuotBits, IsQuot, IsRem, OneBits, Neg, DiffBits;
    var w, v := |x|, FixedValue(x, y, c);
    if c == R_INIT || c == ZERO_W || c == ONE_W {
      MemberNewFixed(v);
    } else if c == EQ_ZERO || c == NOT_EQ_ZERO {
      NotOneBit(y == Zeros(w));
      MemberInit(1, v);
    } else if c != CY && !(c == CQ && mode.Quotient?) && c != ZERO_1 && c != ONE_1 {
      MemberInit(w, v);
    }
  }

  lemma {:induction false} NotOneBit(b: bool)
    ensures |NotBits([b])| == 1
  {
  }

  lemma {:induction false} RowMember(mode: Mode, dx: Domain, dy: Domain, dz: Domain, x: Bits, y: Bits, z: Bits,
        i: nat, t: RowCell)
    requires |dx| == |dy| == |dz| > 0 && DivSolution(mode, dx, dy, dz, x, y, z) && i < |dx|
    ensures |x| == |y| == |dx| && Member(RowDomain(mode, dx, dz, i, t), RowCellValue(x, y, i, t))
  {
    if mode.Quotient? { QuotIs(x, y, z); } else { RemWhole(x, y, z); }
    hide AddBits, QuotBits, IsQuot, IsRem, Neg, DiffBits, RowBits, RemBits, SllBits, RowNat, Nat;
    var w, v, n := |x|, RowCellValue(x, y, i, t), |x| - 1 - i;
    if t.XBit? {
      BitMember(dx, x, n);
    } else if t.QBit? && mode.Quotient? {
      BitMember(dz, z, n);
    } else if !(t.Next? && mode.Remainder? && i == w - 1) {
      hide Member;
      MemberInit(|v|, v);
    }
  }

  lemma {:induction false} BitMember(d: Domain, v: Bits, n: nat)
    requires Member(d, v) && n < |d|
    ensures Member([d[n]], [v[n]])
  {
    assert Allows(d[n], v[n]);
  }

  lemma {:induction false} RowOfCell(c: nat, w: nat)
    requires BASE <= c < BASE + 8 * w
    ensures (c - BASE) / 8 < w
  {
  }

  lemma {:induction false} DivIn(mode: Mode, dx: Domain, dy: Domain, dz: Domain, x: Bits, y: Bits, z: Bits)
    requires |dx| == |dy| == |dz| > 0 && DivSolution(mode, dx, dy, dz, x, y, z)
    ensures |x| == |y| == |dx| && InStore(DivStore(mode, dx, dy, dz), DivValues(x, y))
  {
    hide Member, RowDomain, RowCellValue, FixedCell, FixedValue, OffsetCell;
    FixedIn(mode, dx, dy, dz, x, y, z, 0);
    RowMember(mode, dx, dy, dz, x, y, z, 0, XBit);
    var s, V := DivStore(mode, dx, dy, dz), DivValues(x, y);
    forall c | 0 <= c < |s|
      ensures Member(s[c], V[c])
    {
      if c < BASE {
        FixedIn(mode, dx, dy, dz, x, y, z, c);
      } else {
        RowOfCell(c, |dx|);
        RowMember(mode, dx, dy, dz, x, y, z, (c - BASE) / 8, OffsetCell((c - BASE) % 8));
      }
    }
  }

  lemma {:induction false} DivValid(mode: Mode, dx: Domain, dy: Domain, dz: Domain)
    requires |dx| == |dy| == |dz| > 0 && Valid(dx) && Valid(dy) && Valid(dz)
    ensures ValidStore(DivStore(mode, dx, dy, dz))
  {
    hide OffsetCell, FixedCell, RowDomain, Valid;
    var s, w := DivStore(mode, dx, dy, dz), |dx|;
    forall c | 0 <= c < |s|
      ensures Valid(s[c])
    {
      if c < BASE {
        FixedValid(mode, dy, dz, c);
      } else {
        RowOfCell(c, w);
        RowValid(mode, dx, dz, (c - BASE) / 8, OffsetCell((c - BASE) % 8));
      }
    }
  }

  lemma {:induction false} FixedValid(mode: Mode, dy: Domain, dz: Domain, c: nat)
    requires |dy| == |dz| && Valid(dy) && Valid(dz) && c < BASE
    ensures Valid(FixedCell(mode, dy, dz, c))
  {
    InitValid(|dy|);
    InitValid(1);
    MemberNewFixed(seq(|dy|, _ => false));
    MemberNewFixed(OneBits(|dy|));
  }

  lemma {:induction false} RowValid(mode: Mode, dx: Domain, dz: Domain, i: nat, t: RowCell)
    requires |dx| == |dz| && i < |dx| && Valid(dx) && Valid(dz)
    ensures Valid(RowDomain(mode, dx, dz, i, t))
  {
    InitValid(|dx|);
    InitValid(1);
    InitValid(|dx| - 1);
  }

  // ---------------------------------------------------------------- fixed operands

  /** The quotient or the remainder, for the divisor 0 all ones or the dividend. */
  ghost function DivBits(mode: Mode, x: Bits, y: Bits): (z: Bits)
    ensures |z| == |x|
  { OfNat(if mode.Quotient? then BvUdiv(Nat(x), Nat(y), |x|) else BvUrem(Nat(x), Nat(y)), |x|) }

  lemma {:induction false} DivBitsAre(mode: Mode, x: Bits, y: Bits)
    requires |x| == |y|
    ensures var z := DivBits(mode, x, y); if mode.Quotient? then IsQuot(x, y, z) else IsRem(x, y, z)
  {
    NatBound(x);
    if Nat(y) > 0 {
      DivLe(Nat(x), Nat(y));
      ModLe(Nat(x), Nat(y));
    }
    hide Nat;
    NatOfNat(if mode.Quotient? then BvUdiv(Nat(x), Nat(y), |x|) else BvUrem(Nat(x), Nat(y)), |x|);
  }

  lemma {:induction false} SettledConcat(a: seq<Step>, b: seq<Step>, s: Store)
    requires AllSettled(a + b, s)
    ensures AllSettled(a, s) && AllSettled(b, s)
  {
    hide Settled;
    assert forall p :: p in a || p in b ==> p in a + b;
  }

  lemma {:induction false} RowSettled(mode: Mode, w: nat, i: nat, j: nat, s: Store)
    requires i < j <= w && AllSettled(DivSteps(mode, w, j), s)
    ensures AllSettled(RowIn(mode, w, i), s) && AllSettled(RowMid(i), s) && AllSettled(RowOut(mode, w, i), s)
  {
    hide AllSettled, RowIn, RowMid, RowOut;
    var k := j - 1;
    var a := DivSteps(mode, w, k) + RowIn(mode, w, k);
    SettledConcat(a + RowMid(k), RowOut(mode, w, k), s);
    SettledConcat(a, RowMid(k), s);
    SettledConcat(DivSteps(mode, w, k), RowIn(mode, w, k), s);
    if i < k { RowSettled(mode, w, i, k, s); }
  }

  /** Bit `n` of the cell is the one of the bit cell. */
  ghost predicate BitFixed(r: Store, V: Values, c: nat, bit: nat, n: nat) {
    && c < |r| && bit < |r| && c < |V| && bit < |V| && n < |r[c]| && n < |V[c]|
    && Holding(r, V, bit) && r[bit] == [r[c][n]] && V[bit] == [V[c][n]]
  }

  /** The same for the bit cell of row `i`, which counts the bits from the top. */
  ghost predicate RowBit(r: Store, V: Values, c: nat, w: nat, t: RowCell, i: nat) {
    i < w && BitFixed(r, V, c, CellOf(i, t), w - 1 - i)
  }

  /** All bits of a cell, from the bit cells of the rows. */
  lemma {:induction false} AllBitsFixed(r: Store, V: Values, c: nat, w: nat, t: RowCell)
    requires c < |r| == |V| && |r[c]| == |V[c]| == w
    requires forall i: nat :: i < w ==> RowBit(r, V, c, w, t, i)
    ensures Holding(r, V, c)
  {
    hide CellOf;
    forall n | 0 <= n < w
      ensures r[c][n] == FixedBit(V[c][n])
    {
      var i: nat := w - 1 - n;
      assert RowBit(r, V, c, w, t, i);
      FixedOne(V[c][n]);
      assert r[CellOf(i, t)][0] == r[c][n];
    }
  }

  lemma {:induction false} BitOf(r: Store, V: Values, c: nat, bit: nat, n: nat)
    requires Settled(StepSlice(c, bit, n, n), r) && Holds(StepSlice(c, bit, n, n), V) && Holding(r, V, bit)
    requires |r| == |V|
    ensures BitFixed(r, V, c, bit, n)
  {
    assert r[c][n..n + 1] == [r[c][n]] && V[c][n..n + 1] == [V[c][n]];
  }

  /** A row from its lowest bit and the bits above. */
  lemma {:induction false} RowJoined(r: Store, V: Values, row: nat, slice: nat, bit: nat, w: nat)
    requires w > 1 && |r| == |V| && Settled(StepSlice(row, slice, w - 1, 1), r) && Settled(StepSlice(row, bit, 0, 0), r)
    requires Holds(StepSlice(row, slice, w - 1, 1), V) && Holds(StepSlice(row, bit, 0, 0), V)
    requires Holding(r, V, slice) && Holding(r, V, bit) && |r[row]| == |V[row]| == w
    ensures Holding(r, V, row)
  {
    var d, v := r[row], V[row];
    assert d == d[0..1] + d[1..w] && v == v[0..1] + v[1..w];
    assert d[0..1] == NewFixed(v[0..1]) && d[1..w] == NewFixed(v[1..w]);
  }

  lemma {:induction false} RowSingle(r: Store, V: Values, row: nat, bit: nat)
    requires |r| == |V| && Settled(StepSlice(row, bit, 0, 0), r) && Holds(StepSlice(row, bit, 0, 0), V)
    requires Holding(r, V, bit) && |r[row]| == |V[row]| == 1
    ensures Holding(r, V, row)
  {
    assert r[row][0..1] == r[row] && V[row][0..1] == V[row];
  }

  lemma {:induction false} RowInListed(mode: Mode, w: nat, i: nat)
    requires i < w
    ensures var steps := RowIn(mode, w, i);
            && StepSlice(CellOf(i, Row), CellOf(i, XBit), 0, 0) in steps
            && (mode.Remainder? ==> StepSlice(CX, CellOf(i, XBit), w - 1 - i, w - 1 - i) in steps)
            && (w > 1 ==> StepSlice(CellOf(i, Row), CellOf(i, Slice), w - 1, 1) in steps
                          && StepSlice(CellOf(i, Shift), CellOf(i, Slice), w - 1, 1) in steps)
            && (w > 1 && i == 0 ==> StepEq(R_INIT, CellOf(i, Shift), ONE_1) in steps)
            && (w > 1 && i > 0 ==> StepSll(CellOf(i - 1, Next), CellOf(i, Shift), 1) in steps)
  {
    hide CellOf;
    var n := w - 1 - i;
    var slice, shift := CellOf(i, Slice), CellOf(i, Shift);
    var first := if i == 0 then StepEq(R_INIT, shift, ONE_1) else StepSll(CellOf(i - 1, Next), shift, 1);
    var a := if w == 1 then []
      else [first, StepSlice(CellOf(i, Row), slice, w - 1, 1), StepSlice(shift, slice, w - 1, 1)];
    var b := [StepSlice(CellOf(i, Row), CellOf(i, XBit), 0, 0)];
    var c := if mode.Remainder? then [StepSlice(CX, CellOf(i, XBit), n, n)] else [];
    assert RowIn(mode, w, i) == a + b + c;
    assert b[0] in b;
    if mode.Remainder? { assert c[0] in c; }
    if w > 1 { assert a[0] in a && a[1] in a && a[2] in a; }
  }

  /** The row, from the remainder of the previous one and the next bit of the dividend. */
  lemma {:induction false} RowInFixed(mode: Mode, r: Store, V: Values, w: nat, i: nat)
    requires i < w && |r| == |V| && AllSettled(RowIn(mode, w, i), r) && AllHold(RowIn(mode, w, i), V)
    requires Holding(r, V, R_INIT) && Holding(r, V, ONE_1) && V[ONE_1] == [true] && Holding(r, V, CellOf(i, XBit))
    requires i > 0 ==> Holding(r, V, CellOf(i - 1, Next))
    requires CellOf(i, Row) < |r| && |r[CellOf(i, Row)]| == |V[CellOf(i, Row)]| == w
    ensures Holding(r, V, CellOf(i, Row))
  {
    hide CellOf, Holding, Settled, Holds, AllSettled, AllHold, RowIn;
    var row, slice, shift, bit := CellOf(i, Row), CellOf(i, Slice), CellOf(i, Shift), CellOf(i, XBit);
    var steps := RowIn(mode, w, i);
    RowInListed(mode, w, i);
    SettledIn(steps, StepSlice(row, bit, 0, 0), r);
    HoldsIn(steps, StepSlice(row, bit, 0, 0), V);
    if w == 1 {
      RowSingle(r, V, row, bit);
    } else {
      if i == 0 {
        SettledIn(steps, StepEq(R_INIT, shift, ONE_1), r);
        HoldsIn(steps, StepEq(R_INIT, shift, ONE_1), V);
        ForwardEqual(StepEq(R_INIT, shift, ONE_1), r, V);
      } else {
        ForwardIn(steps, StepSll(CellOf(i - 1, Next), shift, 1), r, V);
      }
      ForwardIn(steps, StepSlice(shift, slice, w - 1, 1), r, V);
      SettledIn(steps, StepSlice(row, slice, w - 1, 1), r);
      HoldsIn(steps, StepSlice(row, slice, w - 1, 1), V);
      RowJoined(r, V, row, slice, bit, w);
    }
  }

  lemma {:induction false} RowMidFixed(r: Store, V: Values, i: nat)
    requires |r| == |V| && AllSettled(RowMid(i), r) && AllHold(RowMid(i), V)
    requires Holding(r, V, CellOf(i, Row)) && Holding(r, V, CY) && Holding(r, V, ONE_W) && Holding(r, V, ZERO_W)
    ensures Holding(r, V, CellOf(i, Ult)) && Holding(r, V, CellOf(i, Diff)) && Holding(r, V, EQ_ZERO)
  {
    hide CellOf, Holding, Settled, Holds, AllSettled, AllHold;
    var steps := RowMid(i);
    var row, diff, ult := CellOf(i, Row), CellOf(i, Diff), CellOf(i, Ult);
    assert steps[0] == StepUlt(row, CY, ult) && steps[1] == StepNot(CY, NOT_Y);
    assert steps[2] == StepAdd(NOT_Y, ONE_W, NEG_Y) && steps[3] == StepAdd(row, NEG_Y, diff);
    assert steps[4] == StepEq(CY, ZERO_W, EQ_ZERO);
    ForwardIn(steps, StepUlt(row, CY, ult), r, V);
    ForwardIn(steps, StepNot(CY, NOT_Y), r, V);
    ForwardIn(steps, StepAdd(NOT_Y, ONE_W, NEG_Y), r, V);
    ForwardIn(steps, StepAdd(row, NEG_Y, diff), r, V);
    ForwardIn(steps, StepEq(CY, ZERO_W, EQ_ZERO), r, V);
  }

  lemma {:induction false} RowOutListed(mode: Mode, w: nat, i: nat)
    requires i < w
    ensures var steps, last := RowOut(mode, w, i), mode.Remainder? && i == w - 1;
            var row, diff, next, less := CellOf(i, Row), CellOf(i, Diff), CellOf(i, Next), CellOf(i, Ult);
            var bit := CellOf(i, QBit);
            && (last ==> StepCond(CX, diff, R_INT, EQ_ZERO) in steps && StepCond(row, R_INT, next, less) in steps)
            && (!last ==> StepCond(row, diff, next, less) in steps)
            && (mode.Quotient? ==> StepSlice(CQ, bit, w - 1 - i, w - 1 - i) in steps
                                   && StepCond(ZERO_1, ONE_1, bit, less) in steps)
  {
    hide CellOf;
    var n, last := w - 1 - i, mode.Remainder? && i == w - 1;
    var row, diff, next, less, bit := CellOf(i, Row), CellOf(i, Diff), CellOf(i, Next), CellOf(i, Ult), CellOf(i, QBit);
    var a := if last then [StepCond(CX, diff, R_INT, EQ_ZERO), StepCond(row, R_INT, next, less)]
      else [StepCond(row, diff, next, less)];
    var b := [StepNot(EQ_ZERO, NOT_EQ_ZERO)];
    var c := if mode.Quotient? then [StepSlice(CQ, bit, n, n), StepCond(ZERO_1, ONE_1, bit, less)] else [];
    assert RowOut(mode, w, i) == a + b + c;
    assert a[0] in a && (last ==> a[1] in a);
    if mode.Quotient? { assert c[0] in c && c[1] in c; }
  }

  lemma {:induction false} RowOutFixed(mode: Mode, r: Store, V: Values, w: nat, i: nat)
    requires i < w && |r| == |V| && AllSettled(RowOut(mode, w, i), r) && AllHold(RowOut(mode, w, i), V)
    requires Holding(r, V, CellOf(i, Row)) && Holding(r, V, CellOf(i, Diff)) && Holding(r, V, CellOf(i, Ult))
    requires Holding(r, V, EQ_ZERO) && Holding(r, V, ZERO_1) && Holding(r, V, ONE_1)
    requires mode.Remainder? ==> Holding(r, V, CX)
    ensures Holding(r, V, CellOf(i, Next)) && (mode.Quotient? ==> Holding(r, V, CellOf(i, QBit)))
  {
    hide CellOf, Holding, Settled, Holds, AllSettled, AllHold, RowOut;
    var row, diff, next, less, bit := CellOf(i, Row), CellOf(i, Diff), CellOf(i, Next), CellOf(i, Ult), CellOf(i, QBit);
    var steps := RowOut(mode, w, i);
    RowOutListed(mode, w, i);
    if mode.Remainder? && i == w - 1 {
      ForwardIn(steps, StepCond(CX, diff, R_INT, EQ_ZERO), r, V);
      ForwardIn(steps, StepCond(row, R_INT, next, less), r, V);
    } else {
      ForwardIn(steps, StepCond(row, diff, next, less), r, V);
    }
    if mode.Quotient? { ForwardIn(steps, StepCond(ZERO_1, ONE_1, bit, less), r, V); }
  }

  /** The cells that are fixed from the start when the operands are. */
  ghost predicate DivGiven(r: Store, V: Values, w: nat) {
    && |r| == |V| == BASE + 8 * w && w > 0 && |r[CX]| == |r[CQ]| == |V[CX]| == |V[CQ]| == w && V[ONE_1] == [true]
    && Holding(r, V, CY) && Holding(r, V, R_INIT) && Holding(r, V, ZERO_W) && Holding(r, V, ONE_W)
    && Holding(r, V, ZERO_1) && Holding(r, V, ONE_1)
    && (forall i: nat :: i < w ==> Holding(r, V, CellOf(i, XBit)))
    && (forall i: nat :: i < w ==> RowSized(r, V, w, i))
  }

  ghost predicate RowSized(r: Store, V: Values, w: nat, i: nat) {
    CellOf(i, Row) < |r| == |V| && |r[CellOf(i, Row)]| == |V[CellOf(i, Row)]| == w
  }

  lemma {:induction false} GivenShape(r: Store, V: Values, w: nat)
    requires DivGiven(r, V, w)
    ensures |r| == |V| == BASE + 8 * w && |r[CX]| == |r[CQ]| == |V[CX]| == |V[CQ]| == w
  {
  }

  lemma {:induction false} GivenBit(r: Store, V: Values, w: nat, i: nat)
    requires DivGiven(r, V, w) && i < w
    ensures Holding(r, V, CellOf(i, XBit)) && RowSized(r, V, w, i)
  {
    hide Holding, CellOf, RowSized;
  }

  lemma {:induction false} StaysHolding(s: Store, r: Store, V: Values, c: nat)
    requires NarrowsStore(r, s) && ValidStore(r) && c < |s| && c < |V| && s[c] == NewFixed(V[c])
    ensures Holding(r, V, c)
  {
    FixedLo(V[c]);
    hide Fixed, NewFixed;
    FixedNarrow(r[c], s[c]);
  }

  lemma {:induction false} XBitHolding(mode: Mode, dx: Domain, dy: Domain, dz: Domain, r: Store, i: nat)
    requires |dx| == |dy| == |dz| && i < |dx| && Valid(dx) && Fixed(dx)
    requires NarrowsStore(r, DivStore(mode, dx, dy, dz)) && ValidStore(r)
    ensures Holding(r, DivValues(Lo(dx), Lo(dy)), CellOf(i, XBit))
  {
    StoreAt(mode, dx, dy, dz, i, XBit);
    ValueAt(Lo(dx), Lo(dy), i, XBit);
    var b := dx[|dx| - 1 - i];
    assert b == FixedBit(Lo(dx)[|dx| - 1 - i]);
    FixedOne(b.lo);
    hide DivStore, DivValues, CellOf;
    StaysHolding(DivStore(mode, dx, dy, dz), r, DivValues(Lo(dx), Lo(dy)), CellOf(i, XBit));
  }

  lemma {:induction false} RowIsSized(mode: Mode, dx: Domain, dy: Domain, dz: Domain, r: Store, i: nat)
    requires |dx| == |dy| == |dz| && i < |dx| && NarrowsStore(r, DivStore(mode, dx, dy, dz))
    ensures RowSized(r, DivValues(Lo(dx), Lo(dy)), |dx|, i)
  {
    StoreAt(mode, dx, dy, dz, i, Row);
    ValueAt(Lo(dx), Lo(dy), i, Row);
    hide DivStore, DivValues, CellOf, RowNat, Narrows;
    NarrowsSize(r[CellOf(i, Row)], DivStore(mode, dx, dy, dz)[CellOf(i, Row)]);
  }

  lemma {:induction false} DivBase(mode: Mode, dx: Domain, dy: Domain, dz: Domain, r: Store)
    requires |dx| == |dy| == |dz| > 0 && Valid(dx) && Valid(dy) && Fixed(dx) && Fixed(dy)
    requires NarrowsStore(r, DivStore(mode, dx, dy, dz)) && ValidStore(r)
    ensures DivGiven(r, DivValues(Lo(dx), Lo(dy)), |dx|)
  {
    var s, V, w := DivStore(mode, dx, dy, dz), DivValues(Lo(dx), Lo(dy)), |dx|;
    forall i: nat | i < w
      ensures Holding(r, V, CellOf(i, XBit)) && RowSized(r, V, w, i)
    {
      XBitHolding(mode, dx, dy, dz, r, i);
      RowIsSized(mode, dx, dy, dz, r, i);
    }
    FixedAt(mode, dx, dy, dz);
    FixedValueAt(Lo(dx), Lo(dy));
    FixedIs(dy);
    FixedOne(false);
    FixedOne(true);
    hide Holding, RowSized, CellOf, DivStore, DivValues, NarrowsStore, ValidStore, Fixed, NewFixed, Valid, OneBits;
    hide QuotBits, NotBits, CondBits, DiffBits, Neg;
    GivenSizes(mode, dx, dy, dz, r);
    StaysHolding(s, r, V, CY);
    StaysHolding(s, r, V, R_INIT);
    StaysHolding(s, r, V, ZERO_W);
    StaysHolding(s, r, V, ONE_W);
    StaysHolding(s, r, V, ZERO_1);
    StaysHolding(s, r, V, ONE_1);
  }

  lemma {:induction false} GivenSizes(mode: Mode, dx: Domain, dy: Domain, dz: Domain, r: Store)
    requires |dx| == |dy| == |dz| > 0 && NarrowsStore(r, DivStore(mode, dx, dy, dz))
    ensures |r| == BASE + 8 * |dx| && |r[CX]| == |r[CQ]| == |dx|
  {
    FixedAt(mode, dx, dy, dz);
    var s := DivStore(mode, dx, dy, dz);
    hide DivStore, Narrows;
    NarrowsSize(r[CX], s[CX]);
    NarrowsSize(r[CQ], s[CQ]);
  }

  lemma {:induction false} BitIn(steps: seq<Step>, r: Store, V: Values, c: nat, bit: nat, n: nat)
    requires AllSettled(steps, r) && AllHold(steps, V) && StepSlice(c, bit, n, n) in steps
    requires |r| == |V| && Holding(r, V, bit)
    ensures BitFixed(r, V, c, bit, n)
  {
    hide AllSettled, AllHold, Settled, Holds, Holding, BitFixed;
    SettledIn(steps, StepSlice(c, bit, n, n), r);
    HoldsIn(steps, StepSlice(c, bit, n, n), V);
    BitOf(r, V, c, bit, n);
  }

  lemma {:induction false} RowHolds(mode: Mode, x: Bits, y: Bits, i: nat)
    requires |x| == |y| && i < |x|
    ensures var V, w := DivValues(x, y), |x|;
            AllHold(RowIn(mode, w, i), V) && AllHold(RowMid(i), V) && AllHold(RowOut(mode, w, i), V)
  {
    hide RowKnown, AllHold, DivValues, RowIn, RowMid, RowOut, CellOf;
    var V := DivValues(x, y);
    RowKnownAt(x, y, i);
    if i > 0 { RowKnownAt(x, y, i - 1); }
    RowInHolds(mode, V, x, y, i);
    RowMidHolds(V, x, y, i);
    RowOutHolds(mode, V, x, y, i);
  }

  lemma {:induction false} DividendBit(r: Store, x: Bits, y: Bits, i: nat)
    requires |x| == |y| && i < |x| && |r| == BASE + 8 * |x| && Holding(r, DivValues(x, y), CellOf(i, XBit))
    requires AllSettled(DivSteps(Remainder, |x|, |x|), r)
    ensures RowBit(r, DivValues(x, y), CX, |x|, XBit, i)
  {
    hide Holding, AllSettled, AllHold, RowIn, RowMid, RowOut, DivSteps, DivValues, BitFixed, CellOf;
    RowSettled(Remainder, |x|, i, |x|, r);
    RowHolds(Remainder, x, y, i);
    RowInListed(Remainder, |x|, i);
    BitIn(RowIn(Remainder, |x|, i), r, DivValues(x, y), CX, CellOf(i, XBit), |x| - 1 - i);
  }

  /** The dividend as a whole, which the last remainder may be. */
  lemma {:induction false} DividendFixed(r: Store, x: Bits, y: Bits)
    requires |x| == |y| > 0 && DivGiven(r, DivValues(x, y), |x|)
    requires AllSettled(DivSteps(Remainder, |x|, |x|), r)
    ensures Holding(r, DivValues(x, y), CX)
  {
    var w, V := |x|, DivValues(x, y);
    GivenShape(r, V, w);
    hide Holding, AllSettled, DivSteps, DivValues, BitFixed, RowBit, DivGiven, CellOf;
    forall i: nat | i < w
      ensures RowBit(r, V, CX, w, XBit, i)
    {
      GivenBit(r, V, w, i);
      DividendBit(r, x, y, i);
    }
    AllBitsFixed(r, V, CX, w, XBit);
  }

  /** At the fixpoint the rows above `j` are fixed. */
  lemma {:induction false} RowsFixed(mode: Mode, r: Store, x: Bits, y: Bits, j: nat)
    requires |x| == |y| > 0 && j <= |x| && DivGiven(r, DivValues(x, y), |x|)
    requires AllSettled(DivSteps(mode, |x|, |x|), r) && (mode.Remainder? ==> Holding(r, DivValues(x, y), CX))
    ensures var V := DivValues(x, y);
            forall i: nat :: i < j ==>
              Holding(r, V, CellOf(i, Next)) && (mode.Quotient? ==> Holding(r, V, CellOf(i, QBit)))
  {
    hide CellOf, Holding, Settled, Holds, AllSettled, AllHold, RowIn, RowMid, RowOut, DivSteps, DivValues, RowKnown;
    hide RowSized;
    if j > 0 {
      var w, V, i := |x|, DivValues(x, y), j - 1;
      RowsFixed(mode, r, x, y, i);
      RowSettled(mode, w, i, w, r);
      RowHolds(mode, x, y, i);
      RowSize(r, V, w, i);
      RowInFixed(mode, r, V, w, i);
      RowMidFixed(r, V, i);
      RowOutFixed(mode, r, V, w, i);
    }
  }

  lemma {:induction false} RowSize(r: Store, V: Values, w: nat, i: nat)
    requires RowSized(r, V, w, i)
    ensures CellOf(i, Row) < |r| == |V| && |r[CellOf(i, Row)]| == |V[CellOf(i, Row)]| == w
  {
  }

  lemma {:induction false} QuotientBit(r: Store, x: Bits, y: Bits, i: nat)
    requires |x| == |y| && i < |x| && |r| == BASE + 8 * |x| && Holding(r, DivValues(x, y), CellOf(i, QBit))
    requires AllSettled(DivSteps(Quotient, |x|, |x|), r)
    ensures RowBit(r, DivValues(x, y), CQ, |x|, QBit, i)
  {
    hide Holding, AllSettled, AllHold, RowIn, RowMid, RowOut, DivSteps, DivValues, BitFixed, CellOf;
    RowSettled(Quotient, |x|, i, |x|, r);
    RowHolds(Quotient, x, y, i);
    RowOutListed(Quotient, |x|, i);
    BitIn(RowOut(Quotient, |x|, i), r, DivValues(x, y), CQ, CellOf(i, QBit), |x| - 1 - i);
  }

  lemma {:induction false} QuotientFixed(r: Store, x: Bits, y: Bits)
    requires |x| == |y| > 0 && DivGiven(r, DivValues(x, y), |x|)
    requires AllSettled(DivSteps(Quotient, |x|, |x|), r)
    ensures Holding(r, DivValues(x, y), CQ)
  {
    var w, V := |x|, DivValues(x, y);
    GivenShape(r, V, w);
    hide Holding, AllSettled, DivSteps, DivValues, BitFixed, RowBit, DivGiven, CellOf;
    RowsFixed(Quotient, r, x, y, w);
    forall i: nat | i < w
      ensures RowBit(r, V, CQ, w, QBit, i)
    {
      QuotientBit(r, x, y, i);
    }
    AllBitsFixed(r, V, CQ, w, QBit);
  }

  /** The cell of the result. */
  function ResultOf(mode: Mode, w: nat): nat
    requires w > 0
  { if mode.Quotient? then CQ else CellOf(w - 1, Next) }

  lemma {:induction false} DivSettled(mode: Mode, dx: Domain, dy: Domain, dz: Domain, r: Store)
    requires |dx| == |dy| == |dz| > 0 && Valid(dx) && Valid(dy) && Fixed(dx) && Fixed(dy)
    requires NarrowsStore(r, DivStore(mode, dx, dy, dz)) && ValidStore(r) && AllSettled(DivSteps(mode, |dx|, |dx|), r)
    ensures ResultOf(mode, |dx|) < |r| && r[ResultOf(mode, |dx|)] == NewFixed(DivBits(mode, Lo(dx), Lo(dy)))
  {
    var w, x, y := |dx|, Lo(dx), Lo(dy);
    var V := DivValues(x, y);
    hide NarrowsStore, ValidStore, AllSettled, DivStore, DivSteps, DivValues, DivGiven, Holding, Valid, Fixed, Lo;
    DivBase(mode, dx, dy, dz, r);
    if mode.Quotient? {
      QuotientFixed(r, x, y);
    } else {
      DividendFixed(r, x, y);
      RowsFixed(mode, r, x, y, w);
    }
    HoldingIs(r, V, ResultOf(mode, w));
    ResultIs(mode, x, y);
  }

  lemma {:induction false} ResultIs(mode: Mode, x: Bits, y: Bits)
    requires |x| == |y| > 0
    ensures ResultOf(mode, |x|) < BASE + 8 * |x| && DivValues(x, y)[ResultOf(mode, |x|)] == DivBits(mode, x, y)
  {
    FixedValueAt(x, y);
    ValueAt(x, y, |x| - 1, Next);
    DivBitsAre(mode, x, y);
    hide DivValues, DivBits, QuotBits, RemBits, CellOf;
    if mode.Quotient? { QuotIs(x, y, DivBits(mode, x, y)); } else { RemWhole(x, y, DivBits(mode, x, y)); }
  }

  lemma {:induction false} DivFixedSolution(mode: Mode, dx: Domain, dy: Domain, dz: Domain)
    requires |dx| == |dy| && Valid(dx) && Valid(dy) && Member(dz, DivBits(mode, Lo(dx), Lo(dy)))
    ensures DivSolution(mode, dx, dy, dz, Lo(dx), Lo(dy), DivBits(mode, Lo(dx), Lo(dy)))
  {
    hide Member, DivBits, IsQuot, IsRem;
    LoMember(dx);
    LoMember(dy);
    DivBitsAre(mode, Lo(dx), Lo(dy));
  }

  // ---------------------------------------------------------------- the propagator

  /** The loop that collects the dividend bits. */
  method CollectX(r: Store, w: nat) returns (rx: Domain)
    requires |r| == BASE + 8 * w && |r[CX]| == w
    requires forall i: nat :: i < w ==> CellOf(i, XBit) < |r| && |r[CellOf(i, XBit)]| == 1
    ensures |rx| == w && forall i: nat :: i < w ==> rx[w - 1 - i] == r[CellOf(i, XBit)][0]
  {
    hide CellOf;
    rx := r[CX];
    for i := 0 to w
      invariant |rx| == w && forall k: nat :: k < i ==> rx[w - 1 - k] == r[CellOf(k, XBit)][0]
    {
      rx := rx[w - 1 - i := r[CellOf(i, XBit)][0]];
    }
  }

  lemma {:induction false} DivCells(mode: Mode, dx: Domain, dy: Domain, dz: Domain, r: Store)
    requires |dx| == |dy| == |dz| > 0 && NarrowsStore(r, DivStore(mode, dx, dy, dz)) && ValidStore(r)
    ensures var w := |dx|;
            && |r| == BASE + 8 * w && |r[CX]| == w
            && Narrows(r[CY], dy) && Valid(r[CY])
            && (mode.Quotient? ==> Narrows(r[CQ], dz) && Valid(r[CQ]))
            && CellOf(w - 1, Next) < |r|
            && (mode.Remainder? ==> Narrows(r[CellOf(w - 1, Next)], dz) && Valid(r[CellOf(w - 1, Next)]))
            && (forall i: nat :: i < w ==>
               CellOf(i, XBit) < |r| && Narrows(r[CellOf(i, XBit)], [dx[w - 1 - i]]) && Valid(r[CellOf(i, XBit)]))
  {
    hide Narrows, Valid, CellOf, DivStore;
    var w, s := |dx|, DivStore(mode, dx, dy, dz);
    FixedAt(mode, dx, dy, dz);
    NarrowsSize(r[CX], s[CX]);
    StoreAt(mode, dx, dy, dz, w - 1, Next);
    forall i: nat | i < w
      ensures CellOf(i, XBit) < |r| && Narrows(r[CellOf(i, XBit)], [dx[w - 1 - i]]) && Valid(r[CellOf(i, XBit)])
    {
      StoreAt(mode, dx, dy, dz, i, XBit);
    }
  }

  lemma {:induction false} XKeeps(dx: Domain, r: Store, rx: Domain)
    requires |rx| == |dx|
    requires forall i: nat :: i < |dx| ==> CellOf(i, XBit) < |r| && Narrows(r[CellOf(i, XBit)], [dx[|dx| - 1 - i]])
    requires forall i: nat :: i < |dx| ==>
            CellOf(i, XBit) < |r| && Valid(r[CellOf(i, XBit)]) && |r[CellOf(i, XBit)]| == 1
    requires forall i: nat :: i < |dx| ==>
            CellOf(i, XBit) < |r| && |r[CellOf(i, XBit)]| == 1 && rx[|dx| - 1 - i] == r[CellOf(i, XBit)][0]
    ensures Narrows(rx, dx) && Valid(rx)
  {
    hide CellOf;
    var w := |dx|;
    forall k | 0 <= k < w
      ensures NarrowsBit(rx[k], dx[k]) && (rx[k].lo ==> rx[k].hi)
    {
      var i := w - 1 - k;
      assert rx[w - 1 - i] == r[CellOf(i, XBit)][0];
      assert NarrowsBit(r[CellOf(i, XBit)][0], [dx[w - 1 - i]][0]);
    }
  }

  lemma {:induction false} XHas(x: Bits, y: Bits, r: Store, rx: Domain)
    requires |x| == |y| == |rx| > 0 && InStore(r, DivValues(x, y))
    requires forall i: nat :: i < |x| ==>
            CellOf(i, XBit) < |r| && |r[CellOf(i, XBit)]| == 1 && rx[|x| - 1 - i] == r[CellOf(i, XBit)][0]
    ensures Member(rx, x)
  {
    hide CellOf, DivValues;
    var w := |x|;
    forall k | 0 <= k < w
      ensures Allows(rx[k], x[k])
    {
      var i := w - 1 - k;
      ValueAt(x, y, i, XBit);
      Cell(r, DivValues(x, y), CellOf(i, XBit));
      assert rx[w - 1 - i] == r[CellOf(i, XBit)][0];
      assert Allows(r[CellOf(i, XBit)][0], [x[w - 1 - i]][0]);
    }
  }

  lemma {:induction false} DivOut(mode: Mode, x: Bits, y: Bits, z: Bits, r: Store)
    requires |x| == |y| > 0 && InStore(r, DivValues(x, y))
    requires if mode.Quotient? then IsQuot(x, y, z) else IsRem(x, y, z)
    ensures var w := |x|; |r| == BASE + 8 * w && CellOf(w - 1, Next) < |r| && Member(r[CY], y)
    ensures Member(if mode.Quotient? then r[CQ] else r[CellOf(|x| - 1, Next)], z)
  {
    var w, V := |x|, DivValues(x, y);
    FixedValueAt(x, y);
    ValueAt(x, y, w - 1, Next);
    if mode.Quotient? { QuotIs(x, y, z); } else { RemWhole(x, y, z); }
    hide Member, CellOf, DivValues, QuotBits, RemBits;
    assert V[CY] == y && V[CQ] == QuotBits(x, y) && V[CellOf(w - 1, Next)] == RemBits(x, y, w);
    assert Member(r[CY], V[CY]) && Member(r[CQ], V[CQ]) && Member(r[CellOf(w - 1, Next)], V[CellOf(w - 1, Next)]);
  }

  /** The results are cells of a store at rest, the bits of `x` from the rows. */
  ghost predicate DivRest(mode: Mode, dx: Domain, dy: Domain, dz: Domain, rx: Domain, ry: Domain, rz: Domain) {
    |dx| == |dy| == |dz| > 0 && exists r: Store :: DivCellsOf(mode, dx, dy, dz, rx, ry, rz, r)
  }

  ghost predicate DivCellsOf(mode: Mode, dx: Domain, dy: Domain, dz: Domain, rx: Domain, ry: Domain, rz: Domain,
        r: Store)
    requires |dx| == |dy| == |dz| > 0
  {
    var w := |dx|;
    && AtRest(DivSteps(mode, w, w), DivStore(mode, dx, dy, dz), r) && |r| == BASE + 8 * w && |rx| == w
    && ry == r[CY] && ResultOf(mode, w) < |r| && rz == r[ResultOf(mode, w)]
    && forall i: nat :: i < w ==> CellOf(i, XBit) < |r| && r[CellOf(i, XBit)] == [rx[w - 1 - i]]
  }

  lemma {:induction false} DivRests(mode: Mode, dx: Domain, dy: Domain, dz: Domain, rx: Domain, r: Store)
    requires |dx| == |dy| == |dz| > 0 && AtRest(DivSteps(mode, |dx|, |dx|), DivStore(mode, dx, dy, dz), r)
    requires |r| == BASE + 8 * |dx| && |rx| == |dx| && ResultOf(mode, |dx|) < |r|
    requires forall i: nat :: i < |dx| ==>
               CellOf(i, XBit) < |r| && |r[CellOf(i, XBit)]| == 1 && rx[|dx| - 1 - i] == r[CellOf(i, XBit)][0]
    ensures DivRest(mode, dx, dy, dz, rx, r[CY], r[ResultOf(mode, |dx|)])
  {
    hide AtRest, DivSteps, DivStore, CellOf;
    assert DivCellsOf(mode, dx, dy, dz, rx, r[CY], r[ResultOf(mode, |dx|)], r);
  }

  ghost predicate DivSound(mode: Mode, dx: Domain, dy: Domain, dz: Domain, ok: bool, rx: Domain, ry: Domain,
        rz: Domain) {
    forall x: Bits, y: Bits, z: Bits {:trigger DivSolution(mode, dx, dy, dz, x, y, z)} ::
      DivSolution(mode, dx, dy, dz, x, y, z) ==> ok && DivSolution(mode, rx, ry, rz, x, y, z)
  }

  /** `bvprop_udiv_urem_aux` */
  method PropDivision(mode: Mode, dx: Domain, dy: Domain, dz: Domain)
    returns (ok: bool, rx: Domain, ry: Domain, rz: Domain)
    requires |dx| == |dy| == |dz| > 0 && Valid(dx) && Valid(dy) && Valid(dz)
    ensures ok ==> Narrows(rx, dx) && Valid(rx)
    ensures Narrows(ry, dy) && Narrows(rz, dz) && Valid(ry) && Valid(rz)
    ensures DivSound(mode, dx, dy, dz, ok, rx, ry, rz)
    ensures Fixed(dx) && Fixed(dy) ==> Decides(ok, dz, rz, DivBits(mode, Lo(dx), Lo(dy)))
    ensures ok ==> DivRest(mode, dx, dy, dz, rx, ry, rz)
  {
    hide AllSettled, Fixed, Lo, NewFixed, DivBits, Decides, DivRest;
    hide Valid, Narrows, NarrowsStore, InStore, RunSolid, Stable, DivSteps, DivStore, DivValues, Member, AllFit;
    hide AllRank, AllHold, ValidStore;
    hide IsQuot, IsRem, CellOf;
    var w := |dx|;
    var s, steps := DivStore(mode, dx, dy, dz), DivSteps(mode, w, w);
    DivFit(mode, dx, dy, dz, w);
    DivValid(mode, dx, dy, dz);
    var r;
    ok, r := Run(steps, s, 2);
    DivCells(mode, dx, dy, dz, r);
    BitWidths(dx, r);
    ry := r[CY];
    rz := if mode.Quotient? then r[CQ] else r[CellOf(w - 1, Next)];
    rx := r[CX];
    if ok {
      rx := CollectX(r, w);
      XKeeps(dx, r, rx);
      DivRests(mode, dx, dy, dz, rx, r);
    }
    forall x: Bits, y: Bits, z: Bits | DivSolution(mode, dx, dy, dz, x, y, z)
      ensures ok && DivSolution(mode, rx, ry, rz, x, y, z)
    {
      DivIn(mode, dx, dy, dz, x, y, z);
      DivHold(mode, x, y, w);
      RunOf(steps, s, ok, r, DivValues(x, y));
      DivOut(mode, x, y, z, r);
      XHas(x, y, r, rx);
    }
    if Fixed(dx) && Fixed(dy) {
      if ok { DivSettled(mode, dx, dy, dz, r); }
      if Member(dz, DivBits(mode, Lo(dx), Lo(dy))) { DivFixedSolution(mode, dx, dy, dz); }
      Decided(ok, dz, rz, DivBits(mode, Lo(dx), Lo(dy)));
    }
  }

  lemma {:induction false} BitWidths(dx: Domain, r: Store)
    requires forall i: nat :: i < |dx| ==> CellOf(i, XBit) < |r| && Narrows(r[CellOf(i, XBit)], [dx[|dx| - 1 - i]])
    ensures forall i: nat :: i < |dx| ==> CellOf(i, XBit) < |r| && |r[CellOf(i, XBit)]| == 1
  {
    hide CellOf;
  }
}
