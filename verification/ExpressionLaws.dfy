/** What each operator of the expressions means, told by bits or by the defining equation of the
    arithmetic operation and without the functions that evaluate it (src/bzlabv.c). */
module ExpressionLaws {
  import opened Arith
  import opened BvRef
  import opened Expressions

  predicate BitAt(v: nat, j: nat) { Quotient(v, Pow2(j)) % 2 == 1 }

  /** `v` is what the operator gives for `a` and `b`, of widths `wa` and `wb`, in a word of `w` bits. */
  ghost predicate Means(k: Kind, a: nat, wa: nat, b: nat, wb: nat, v: nat, w: nat) {
    match k
    case AndNode => forall j: nat :: j < w ==> BitAt(v, j) == (BitAt(a, j) && BitAt(b, j))
    case EqNode => v == 1 <==> a == b
    case UltNode => v == 1 <==> a < b
    case SltNode =>
      wa > 0 && (v == 1 <==> if BitAt(a, wa - 1) == BitAt(b, wa - 1) then a < b else BitAt(a, wa - 1))
    case AddNode => v == a + b || v + Pow2(w) == a + b
    case MulNode => v <= a * b && (a * b - v) % Pow2(w) == 0
    case UdivNode => if b == 0 then forall j: nat :: j < w ==> BitAt(v, j) else v * b <= a < (v + 1) * b
    case UremNode => if b == 0 then v == a else v < b && v <= a && (a - v) % b == 0
    case SllNode => forall j: nat :: j < w ==> BitAt(v, j) == (j >= b && BitAt(a, j - b))
    case SrlNode => forall j: nat :: j < w ==> BitAt(v, j) == (j + b < w && BitAt(a, j + b))
    case ConcatNode => forall j: nat :: j < w ==> BitAt(v, j) == if j < wb then BitAt(b, j) else BitAt(a, j - wb)
    case _ => false
  }

  // ---------------------------------------------------------------- bits of numbers

  lemma {:induction false} DivDiv(a: nat, m: nat, n: nat)
    requires m > 0 && n > 0
    ensures m * n > 0 && a / m / n == a / (m * n)
  {
    var q := Divide(a, m);
    var p := Divide(q, n);
    MulMono(1, m, n);
    Associate(p, n, m);
    Distribute(m, p * n, q % n);
    MulMono(q % n + 1, n, m);
    Distribute(m, q % n, 1);
    assert (p * n) * m == p * (m * n);
    DivModUnique(a, m * n, p, (q % n) * m + a % m);
  }

  /** Shifting right moves the bits down. */
  lemma {:induction false} BitDown(a: nat, n: nat, j: nat)
    ensures BitAt(Quotient(a, Pow2(n)), j) == BitAt(a, n + j)
  {
    hide Pow2;
    DivDiv(a, Pow2(n), Pow2(j));
    Pow2Add(n, j);
  }

  lemma {:induction false} BitBeyond(a: nat, j: nat)
    requires a < Pow2(j)
    ensures !BitAt(a, j)
  {
    DivModUnique(a, Pow2(j), 0, a);
  }

  /** What is above a power of two does not touch the bits below. */
  lemma {:induction false} BitBelow(x: nat, m: nat, n: nat, j: nat)
    requires j < n
    ensures BitAt(x + m * Pow2(n), j) == BitAt(x, j)
  {
    hide Pow2;
    var k := m * Pow2(n - j - 1);
    WeightSplit(m, n, j);
    EvenAbove(x, Pow2(j), k);
  }

  lemma {:induction false} WeightSplit(m: nat, n: nat, j: nat)
    requires j < n
    ensures m * Pow2(n) == (2 * (m * Pow2(n - j - 1))) * Pow2(j)
  {
    var p, r := Pow2(j), Pow2(n - j - 1);
    Pow2Add(j, n - j - 1);
    Pow2Succ(n - 1);
    hide Pow2;
    Associate(m, r, p);
    Associate(2, m * r, p);
    Associate(m, 2, p * r);
  }

  lemma {:induction false} EvenAbove(x: nat, p: nat, k: nat)
    requires p > 0
    ensures (2 * k) * p >= 0 && Quotient(x + (2 * k) * p, p) % 2 == Quotient(x, p) % 2
  {
    MulSign(2 * k, p);
    var q := Divide(x, p);
    Distribute(p, q, 2 * k);
    DivModUnique(x + (2 * k) * p, p, q + 2 * k, x % p);
    ModAddMultiple(q, k, 2);
  }

  lemma {:induction false} BitOfMod(x: nat, n: nat, j: nat)
    requires j < n
    ensures BitAt(x % Pow2(n), j) == BitAt(x, j)
  {
    hide Pow2, BitAt;
    var q := Divide(x, Pow2(n));
    BitBelow(x % Pow2(n), q, n, j);
  }

  /** The top bit, and the others in what is left without it. */
  lemma {:induction false} BitTop(a: nat, n: nat)
    requires a < Pow2(n + 1)
    ensures BitAt(a, n) == (a >= Pow2(n)) && Low(a, Pow2(n)) < Pow2(n)
    ensures forall j: nat :: j < n ==> BitAt(a, j) == BitAt(Low(a, Pow2(n)), j)
  {
    Pow2Succ(n);
    DivModUnique(a, Pow2(n), if a >= Pow2(n) then 1 else 0, Low(a, Pow2(n)));
    forall j: nat | j < n
      ensures BitAt(a, j) == BitAt(Low(a, Pow2(n)), j)
    {
      BitBelow(Low(a, Pow2(n)), if a >= Pow2(n) then 1 else 0, n, j);
    }
  }

  /** Numbers are equal when their bits are. */
  lemma {:induction false} SameBits(a: nat, b: nat, n: nat)
    requires a < Pow2(n) && b < Pow2(n) && forall j: nat :: j < n ==> BitAt(a, j) == BitAt(b, j)
    ensures a == b
  {
    if n > 0 {
      BitTop(a, n - 1);
      BitTop(b, n - 1);
      SameBits(Low(a, Pow2(n - 1)), Low(b, Pow2(n - 1)), n - 1);
    }
  }

  lemma {:induction false} AllOnes(n: nat, j: nat)
    requires j < n
    ensures BitAt(Pow2(n) - 1, j)
  {
    var m: nat := n - 1;
    Pow2Succ(m);
    BitTop(Pow2(n) - 1, m);
    if j < m { AllOnes(m, j); }
  }

  // ---------------------------------------------------------------- the operators

  lemma {:induction false} AndBitsAre(a: nat, b: nat, w: nat)
    requires a < Pow2(w) && b < Pow2(w)
    ensures forall j: nat :: j < w ==> BitAt(BvAnd(a, b, w), j) == (BitAt(a, j) && BitAt(b, j))
  {
    if w > 0 {
      var n: nat := w - 1;
      var p := Pow2(n);
      BitTop(a, n);
      BitTop(b, n);
      AndBitsAre(Low(a, p), Low(b, p), n);
      var v := BvAnd(a, b, w);
      BitTop(v, n);
      assert Low(v, p) == BvAnd(Low(a, p), Low(b, p), n);
    }
  }

  lemma {:induction false} NotBitsAre(a: nat, w: nat)
    requires a < Pow2(w)
    ensures forall j: nat :: j < w ==> BitAt(BvNot(a, w), j) == !BitAt(a, j)
  {
    if w > 0 {
      var n: nat := w - 1;
      var p := Pow2(n);
      Pow2Succ(n);
      BitTop(a, n);
      NotBitsAre(Low(a, p), n);
      BitTop(BvNot(a, w), n);
      assert Low(BvNot(a, w), p) == BvNot(Low(a, p), n);
    }
  }

  lemma {:induction false} SllBitsAre(a: nat, b: nat, w: nat, j: nat)
    requires j < w
    ensures BitAt(BvSll(a, b, w), j) == (j >= b && BitAt(a, j - b))
  {
    hide Pow2, BitAt;
    if b >= w {
      ZeroBit(j);
    } else {
      BitOfMod(a * Pow2(b), w, j);
      if j < b {
        BitBelow(0, a, b, j);
        ZeroBit(j);
      } else {
        BitDown(a * Pow2(b), b, j - b);
        DivModUnique(a * Pow2(b), Pow2(b), a, 0);
      }
    }
  }

  lemma {:induction false} ZeroBit(j: nat)
    ensures !BitAt(0, j)
  {
    BitBeyond(0, j);
  }

  lemma {:induction false} SrlBitsAre(a: nat, b: nat, w: nat, j: nat)
    requires j < w && a < Pow2(w)
    ensures BitAt(BvSrl(a, b, w), j) == (j + b < w && BitAt(a, j + b))
  {
    hide Pow2, BitAt;
    if b >= w {
      ZeroBit(j);
    } else {
      BitDown(a, b, j);
      if j + b >= w {
        Pow2Mono(w, j + b);
        BitBeyond(a, j + b);
      }
    }
  }

  lemma {:induction false} SliceBitsAre(a: nat, upper: nat, lower: nat, j: nat)
    requires lower <= upper && j <= upper - lower
    ensures BitAt(BvSlice(a, upper, lower), j) == BitAt(a, lower + j)
  {
    hide Pow2, BitAt;
    BitOfMod(Quotient(a, Pow2(lower)), upper - lower + 1, j);
    BitDown(a, lower, j);
  }

  lemma {:induction false} ConcatBitsAre(a: nat, b: nat, wb: nat, j: nat)
    requires b < Pow2(wb)
    ensures BitAt(BvConcat(a, b, wb), j) == if j < wb then BitAt(b, j) else BitAt(a, j - wb)
  {
    hide Pow2, BitAt;
    if j < wb {
      BitBelow(b, a, wb, j);
    } else {
      BitDown(BvConcat(a, b, wb), wb, j - wb);
      DivModUnique(BvConcat(a, b, wb), Pow2(wb), a, b);
    }
  }

  /** The signed order: by the sign bits if they differ. */
  lemma {:induction false} SltIs(a: nat, b: nat, w: nat)
    requires w > 0 && a < Pow2(w) && b < Pow2(w)
    ensures BvSlt(a, b, w) == 1 <==> if BitAt(a, w - 1) == BitAt(b, w - 1) then a < b else BitAt(a, w - 1)
  {
    BitTop(a, w - 1);
    BitTop(b, w - 1);
  }

  lemma {:induction false} AddIs(a: nat, b: nat, w: nat)
    requires a < Pow2(w) && b < Pow2(w)
    ensures BvAdd(a, b, w) == a + b || BvAdd(a, b, w) + Pow2(w) == a + b
  {
    var q := Divide(a + b, Pow2(w));
    if q >= 2 { MulMono(2, q, Pow2(w)); }
  }

  lemma {:induction false} MulIs(a: nat, b: nat, w: nat)
    ensures BvMul(a, b, w) <= a * b && (a * b - BvMul(a, b, w)) % Pow2(w) == 0
  {
    MulSign(a, b);
    MultipleLeft(a * b, Pow2(w));
  }

  lemma {:induction false} MultipleLeft(x: nat, d: nat)
    requires d > 0
    ensures x % d <= x && (x - x % d) % d == 0
  {
    var q := Divide(x, d);
    MulSign(q, d);
    DivModUnique(q * d, d, q, 0);
  }

  lemma {:induction false} UdivIs(a: nat, b: nat, w: nat)
    requires b > 0
    ensures var v := BvUdiv(a, b, w); v * b <= a < (v + 1) * b
  {
    var q := Divide(a, b);
    Distribute(b, q, 1);
  }

  // ---------------------------------------------------------------- values of nodes

  lemma {:induction false} BinaryBound(k: Kind, a: nat, wa: nat, b: nat, wb: nat)
    requires IsBinary(k) && wa > 0 && wb > 0 && a < Pow2(wa) && b < Pow2(wb) && (!k.ConcatNode? ==> wa == wb)
    ensures Binary(k, a, b, wb) < Pow2(BinaryWidth(k, wa, wb))
  {
    Pow2Mono(1, wa);
    Pow2Succ(0);
    match k {
      case ConcatNode =>
        Pow2Add(wa, wb);
        MulMono(a + 1, Pow2(wa), Pow2(wb));
        Distribute(Pow2(wb), a, 1);
      case SrlNode => DivLe(a, Pow2(b));
      case UdivNode => if b > 0 { DivLe(a, b); }
      case UremNode => if b > 0 { MultipleLeft(a, b); }
      case _ =>
    }
  }

  /** A value fits the width of its node. */
  lemma {:induction false} ValueBound(exps: seq<Exp>, x: Assignment, i: nat)
    requires WellTyped(exps) && InRange(exps, x) && i < |exps|
    ensures Value(exps, x, i) < Pow2(exps[i].width)
    decreases i, 1
  {
    hide Pow2, Binary;
    var n := exps[i];
    assert Typed(exps, i);
    match n.kind {
      case ConstNode(bits) =>
      case VarNode =>
      case SliceNode(upper, lower) => SliceBound(Operand(exps, x, i, 0), upper, lower);
      case CondNode =>
        OperandBound(exps, x, i, 1);
        OperandBound(exps, x, i, 2);
      case _ =>
        OperandBound(exps, x, i, 0);
        OperandBound(exps, x, i, 1);
        var wa, wb := OperandWidth(exps, i, 0), OperandWidth(exps, i, 1);
        BinaryBound(n.kind, Operand(exps, x, i, 0), wa, Operand(exps, x, i, 1), wb);
    }
  }

  lemma {:induction false} SliceBound(a: nat, upper: nat, lower: nat)
    requires lower <= upper
    ensures BvSlice(a, upper, lower) < Pow2(upper - lower + 1)
  {
    hide Pow2;
  }

  lemma {:induction false} OperandBound(exps: seq<Exp>, x: Assignment, i: nat, k: nat)
    requires WellTyped(exps) && InRange(exps, x) && i < |exps| && k < |exps[i].e|
    ensures Operand(exps, x, i, k) < Pow2(OperandWidth(exps, i, k))
    decreases i, 0
  {
    hide Pow2;
    assert Typed(exps, i);
    ValueBound(exps, x, exps[i].e[k].id);
  }

  lemma {:induction false} BinaryMeans(k: Kind, a: nat, wa: nat, b: nat, wb: nat)
    requires IsBinary(k) && wa > 0 && wb > 0 && a < Pow2(wa) && b < Pow2(wb) && (!k.ConcatNode? ==> wa == wb)
    ensures Means(k, a, wa, b, wb, Binary(k, a, b, wb), BinaryWidth(k, wa, wb))
  {
    hide BitAt, Pow2, BvAnd, BvAdd, BvMul, BvSlt, BvSll, BvSrl, BvUdiv, BvConcat;
    var w := BinaryWidth(k, wa, wb);
    match k {
      case AndNode => AndBitsAre(a, b, w);
      case SltNode => SltIs(a, b, wa);
      case AddNode => AddIs(a, b, w);
      case MulNode => MulIs(a, b, w);
      case UdivNode => if b > 0 { UdivIs(a, b, w); } else { UdivZero(a, w); }
      case UremNode => if b > 0 { MultipleLeft(a, b); }
      case SllNode =>
        forall j: nat | j < w
          ensures BitAt(BvSll(a, b, w), j) == (j >= b && BitAt(a, j - b))
        {
          SllBitsAre(a, b, w, j);
        }
      case SrlNode =>
        forall j: nat | j < w
          ensures BitAt(BvSrl(a, b, w), j) == (j + b < w && BitAt(a, j + b))
        {
          SrlBitsAre(a, b, w, j);
        }
      case ConcatNode =>
        forall j: nat | j < w
          ensures BitAt(BvConcat(a, b, wb), j) == if j < wb then BitAt(b, j) else BitAt(a, j - wb)
        {
          ConcatBitsAre(a, b, wb, j);
        }
      case _ =>
    }
  }

  lemma {:induction false} UdivZero(a: nat, w: nat)
    ensures forall j: nat :: j < w ==> BitAt(BvUdiv(a, 0, w), j)
  {
    forall j: nat | j < w
      ensures BitAt(BvUdiv(a, 0, w), j)
    {
      AllOnes(w, j);
    }
  }

  /** The value of a node with two operands. */
  lemma {:induction false} OperatorMeans(exps: seq<Exp>, x: Assignment, i: nat)
    requires WellTyped(exps) && InRange(exps, x) && i < |exps| && IsBinary(exps[i].kind)
    ensures Typed(exps, i) && Value(exps, x, i) < Pow2(exps[i].width)
    ensures Means(exps[i].kind, Operand(exps, x, i, 0), OperandWidth(exps, i, 0),
                  Operand(exps, x, i, 1), OperandWidth(exps, i, 1), Value(exps, x, i), exps[i].width)
  {
    hide Pow2, Binary, Means;
    assert Typed(exps, i);
    ValueBound(exps, x, i);
    OperandBound(exps, x, i, 0);
    OperandBound(exps, x, i, 1);
    BinaryMeans(exps[i].kind, Operand(exps, x, i, 0), OperandWidth(exps, i, 0),
                Operand(exps, x, i, 1), OperandWidth(exps, i, 1));
  }

  /** A constant, a variable, a slice bit by bit, and a choice by a condition of one bit. */
  lemma {:induction false} NodeMeans(exps: seq<Exp>, x: Assignment, i: nat)
    requires WellTyped(exps) && InRange(exps, x) && i < |exps| && !IsBinary(exps[i].kind)
    ensures Typed(exps, i) && Value(exps, x, i) < Pow2(exps[i].width)
    ensures match exps[i].kind
            case ConstNode(bits) => Value(exps, x, i) == bits
            case SliceNode(upper, lower) => forall j: nat :: j < exps[i].width ==>
              BitAt(Value(exps, x, i), j) == BitAt(Operand(exps, x, i, 0), lower + j)
            case CondNode =>
              Operand(exps, x, i, 0) <= 1 &&
              Value(exps, x, i) == Operand(exps, x, i, if Operand(exps, x, i, 0) == 1 then 1 else 2)
            case _ => exps[i].kind.VarNode? && Value(exps, x, i) == x(i)
  {
    hide Pow2, BitAt, BvSlice;
    assert Typed(exps, i);
    ValueBound(exps, x, i);
    if exps[i].kind.SliceNode? {
      var upper, lower := exps[i].kind.upper, exps[i].kind.lower;
      forall j: nat | j < exps[i].width
        ensures BitAt(Value(exps, x, i), j) == BitAt(Operand(exps, x, i, 0), lower + j)
      {
        SliceBitsAre(Operand(exps, x, i, 0), upper, lower, j);
      }
    } else if exps[i].kind.CondNode? {
      OperandBound(exps, x, i, 0);
      TwoValues();
    }
  }

  lemma {:induction false} TwoValues()
    ensures Pow2(1) == 2
  {
    Pow2Succ(0);
  }

  /** An inverted edge complements every bit. */
  lemma {:induction false} EdgeMeans(exps: seq<Exp>, x: Assignment, i: nat, k: nat)
    requires WellTyped(exps) && InRange(exps, x) && i < |exps| && k < |exps[i].e|
    ensures exps[i].e[k].id < i
    ensures forall j: nat :: j < OperandWidth(exps, i, k) ==>
              BitAt(Operand(exps, x, i, k), j) == (BitAt(Value(exps, x, exps[i].e[k].id), j) != exps[i].e[k].inv)
  {
    hide Pow2, BitAt, BvNot;
    assert Typed(exps, i);
    var c := exps[i].e[k];
    ValueBound(exps, x, c.id);
    NotBitsAre(Value(exps, x, c.id), exps[c.id].width);
  }

  /** The meaning leaves one value. */
  lemma {:induction false} MeansOne(k: Kind, a: nat, wa: nat, b: nat, wb: nat, u: nat, v: nat)
    requires IsBinary(k) && wa > 0 && wb > 0 && a < Pow2(wa) && b < Pow2(wb) && (!k.ConcatNode? ==> wa == wb)
    requires var w := BinaryWidth(k, wa, wb); u < Pow2(w) && v < Pow2(w)
    requires Means(k, a, wa, b, wb, u, BinaryWidth(k, wa, wb)) && Means(k, a, wa, b, wb, v, BinaryWidth(k, wa, wb))
    ensures u == v
  {
    hide BitAt, Pow2;
    var w := BinaryWidth(k, wa, wb);
    TwoValues();
    match k {
      case MulNode =>
        SameRest(a * b, Pow2(w), u);
        SameRest(a * b, Pow2(w), v);
      case UdivNode =>
        if b > 0 {
          SameQuotient(a, b, u);
          SameQuotient(a, b, v);
        } else {
          SameBits(u, v, w);
        }
      case UremNode =>
        if b > 0 {
          SameRest(a, b, u);
          SameRest(a, b, v);
        }
      case AndNode => SameBits(u, v, w);
      case SllNode => SameBits(u, v, w);
      case SrlNode => SameBits(u, v, w);
      case ConcatNode => SameBits(u, v, w);
      case _ =>
    }
  }

  lemma {:induction false} SameRest(x: nat, d: nat, r: nat)
    requires d > 0 && r < d && r <= x && (x - r) % d == 0
    ensures r == x % d
  {
    var q := Divide(x - r, d);
    DivModUnique(x, d, q, r);
  }

  lemma {:induction false} SameQuotient(a: nat, b: nat, v: nat)
    requires b > 0 && v * b <= a < (v + 1) * b
    ensures v == a / b
  {
    Distribute(b, v, 1);
    DivModUnique(a, b, v, a - v * b);
  }
}
