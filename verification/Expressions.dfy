/** Bit-vector expression DAGs and what they denote (src/bzlanode.h, src/bzlabv.c). */
module Expressions {
  import opened Arith
  import opened BvRef

  datatype Kind =
    | ConstNode(bits: nat) | VarNode | SliceNode(upper: nat, lower: nat)
    | AndNode | EqNode | AddNode | MulNode | UltNode | SltNode | SllNode | SrlNode | UdivNode | UremNode
    | ConcatNode | CondNode

  /** A child pointer with its inversion tag. */
  datatype Edge = Edge(id: nat, inv: bool)

  datatype Exp = Exp(kind: Kind, width: nat, e: seq<Edge>)

  function Arity(k: Kind): nat {
    if k.ConstNode? || k.VarNode? then 0 else if k.SliceNode? then 1 else if k.CondNode? then 3 else 2
  }

  predicate IsBinary(k: Kind) { Arity(k) == 2 }

  predicate IsLogic(k: Kind) { k.AndNode? || k.EqNode? || k.UltNode? || k.SltNode? }

  predicate IsArith(k: Kind) { k.AddNode? || k.MulNode? || k.UdivNode? || k.UremNode? }

  /** The width of a binary operator over operands of widths `wa` and `wb`. */
  function BinaryWidth(k: Kind, wa: nat, wb: nat): nat
    requires IsBinary(k)
  {
    if k.ConcatNode? then wa + wb
    else if k.EqNode? || k.UltNode? || k.SltNode? then 1
    else wa
  }

  predicate Typed(exps: seq<Exp>, i: nat)
    requires i < |exps|
  {
    var n := exps[i];
    && n.width > 0 && |n.e| == Arity(n.kind)
    && (forall k :: 0 <= k < |n.e| ==> n.e[k].id < i)
    && (n.kind.ConstNode? ==> n.kind.bits < Pow2(n.width))
    && (n.kind.SliceNode? ==>
          n.kind.lower <= n.kind.upper < exps[n.e[0].id].width && n.width == n.kind.upper - n.kind.lower + 1)
    && (n.kind.CondNode? ==> exps[n.e[0].id].width == 1 && exps[n.e[1].id].width == n.width == exps[n.e[2].id].width)
    && (IsBinary(n.kind) && !n.kind.ConcatNode? ==> exps[n.e[0].id].width == exps[n.e[1].id].width)
    && (IsBinary(n.kind) ==> n.width == BinaryWidth(n.kind, exps[n.e[0].id].width, exps[n.e[1].id].width))
  }

  /** Children come before their parents and all widths fit. */
  ghost predicate WellTyped(exps: seq<Exp>) {
    forall i: nat :: i < |exps| ==> Typed(exps, i)
  }

  /** Values of the bit-vector variables, by node. */
  type Assignment = nat -> nat

  /** Values that fit the widths of the variables. */
  ghost predicate InRange(exps: seq<Exp>, x: Assignment) {
    forall v: nat :: v < |exps| && exps[v].kind.VarNode? ==> x(v) < Pow2(exps[v].width)
  }

  /** The value of a binary operator for operands of width `w` (concat: `w` of the second). */
  function Binary(k: Kind, a: nat, b: nat, w: nat): nat
    requires IsBinary(k) && w > 0
  {
    match k
    case AndNode => BvAnd(a, b, w)
    case EqNode => BvEq(a, b)
    case AddNode => BvAdd(a, b, w)
    case MulNode => BvMul(a, b, w)
    case UltNode => BvUlt(a, b)
    case SltNode => BvSlt(a, b, w)
    case SllNode => BvSll(a, b, w)
    case SrlNode => BvSrl(a, b, w)
    case UdivNode => BvUdiv(a, b, w)
    case UremNode => BvUrem(a, b)
    case _ => BvConcat(a, b, w)
  }

  /** A value seen through an edge. */
  function Through(inv: bool, a: nat, w: nat): nat { if inv then BvNot(a, w) else a }

  ghost function Value(exps: seq<Exp>, x: Assignment, i: nat): nat
    requires WellTyped(exps) && i < |exps|
    decreases i, 1
  {
    var n := exps[i];
    assert Typed(exps, i);
    match n.kind
    case ConstNode(bits) => bits
    case VarNode => x(i)
    case SliceNode(upper, lower) => BvSlice(Operand(exps, x, i, 0), upper, lower)
    case CondNode => BvCond(Operand(exps, x, i, 0), Operand(exps, x, i, 1), Operand(exps, x, i, 2))
    case _ => Binary(n.kind, Operand(exps, x, i, 0), Operand(exps, x, i, 1), OperandWidth(exps, i, 1))
  }

  /** The value of the `k`-th operand of node `i`. */
  ghost function Operand(exps: seq<Exp>, x: Assignment, i: nat, k: nat): nat
    requires WellTyped(exps) && i < |exps| && k < |exps[i].e|
    decreases i, 0
  {
    assert Typed(exps, i);
    Through(exps[i].e[k].inv, Value(exps, x, exps[i].e[k].id), exps[exps[i].e[k].id].width)
  }

  ghost function OperandWidth(exps: seq<Exp>, i: nat, k: nat): (w: nat)
    requires WellTyped(exps) && i < |exps| && k < |exps[i].e|
    ensures w > 0
  {
    assert Typed(exps, i);
    assert Typed(exps, exps[i].e[k].id);
    exps[exps[i].e[k].id].width
  }
}
