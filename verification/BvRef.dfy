/** Reference semantics of the bit-vector operators on naturals below 2^w
    (src/bzlabv.c): the meaning that the circuits must have. */
module BvRef {
  import opened Arith

  /** `a` without the bit of weight `p`, for `a` below 2 * p. */
  function Low(a: nat, p: nat): nat { if a >= p then a - p else a }

  /** `bzla_bv_and`, most significant bit first. */
  function BvAnd(a: nat, b: nat, w: nat): (r: nat)
    ensures r < Pow2(w)
  {
    if w == 0 then 0 else
    var p := Pow2(w - 1);
    Weigh(if a >= p && b >= p then 1 else 0, p) + BvAnd(Low(a, p), Low(b, p), w - 1)
  }

  /** `bzla_bv_not`, for `a` below 2^w. */
  function BvNot(a: nat, w: nat): nat { if a < Pow2(w) then Pow2(w) - 1 - a else 0 }

  lemma {:induction false} BvNotOne(x: nat)
    requires x <= 1
    ensures BvNot(x, 1) == 1 - x
  {
    Pow2Succ(0);
  }

  function BvAdd(a: nat, b: nat, w: nat): nat { (a + b) % Pow2(w) }

  function BvMul(a: nat, b: nat, w: nat): nat { (a * b) % Pow2(w) }

  function BvSlice(a: nat, upper: nat, lower: nat): nat
    requires lower <= upper
  { a / Pow2(lower) % Pow2(upper - lower + 1) }

  function BvConcat(a: nat, b: nat, wb: nat): nat { a * Pow2(wb) + b }

  function BvEq(a: nat, b: nat): nat { if a == b then 1 else 0 }

  function BvUlt(a: nat, b: nat): nat { if a < b then 1 else 0 }

  /** The two's complement reading of `a`. */
  function Signed(a: nat, w: nat): int
    requires w > 0
  { if a >= Pow2(w - 1) then a - Pow2(w) else a }

  function BvSlt(a: nat, b: nat, w: nat): nat
    requires w > 0
  { if Signed(a, w) < Signed(b, w) then 1 else 0 }

  function BvSll(a: nat, b: nat, w: nat): nat { if b >= w then 0 else a * Pow2(b) % Pow2(w) }

  function BvSrl(a: nat, b: nat, w: nat): nat { if b >= w then 0 else Quotient(a, Pow2(b)) }

  /** `bzla_bv_udiv_urem`: division by zero gives all ones and the dividend. */
  function BvUdiv(a: nat, b: nat, w: nat): nat { if b == 0 then Pow2(w) - 1 else a / b }

  function BvUrem(a: nat, b: nat): nat { if b == 0 then a else a % b }

  function BvCond(c: nat, a: nat, b: nat): nat { if c != 0 then a else b }
}
