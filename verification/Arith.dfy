/** Powers of two and the few nonlinear facts the bit-level proofs rest on. */
module Arith {

  function Pow2(n: nat): (r: nat)
    ensures r >= 1
  {
    if n == 0 then 1 else 2 * Pow2(n - 1)
  }

  lemma {:induction false} Pow2Succ(n: nat)
    ensures Pow2(n + 1) == 2 * Pow2(n)
  {
  }

  /** The contribution of one bit of weight `p`. */
  function Weigh(b: nat, p: nat): nat { if b == 0 then 0 else p }

  lemma {:induction false} Pow2Add(a: nat, b: nat)
    ensures Pow2(a + b) == Pow2(a) * Pow2(b)
  {
    if a > 0 {
      Pow2Add(a - 1, b);
      Associate(2, Pow2(a - 1), Pow2(b));
    }
  }

  lemma {:induction false} Pow2Mono(a: nat, b: nat)
    requires a <= b
    ensures Pow2(a) <= Pow2(b)
  {
    if a < b { Pow2Mono(a, b - 1); }
  }

  /** A width is always representable in that width. */
  lemma {:induction false} Pow2Above(n: nat)
    ensures n < Pow2(n)
  {
    if n > 0 { Pow2Above(n - 1); }
  }

  lemma {:induction false} MulSign(a: int, b: int)
    requires a >= 0 && b >= 0
    ensures a * b >= 0
  {
  }

  lemma {:induction false} MulMono(a: int, b: int, d: int)
    requires a <= b && d >= 0
    ensures a * d <= b * d
  {
    MulSign(b - a, d);
    assert (b - a) * d == b * d - a * d;
  }

  lemma {:induction false} Distribute(a: int, b: int, c: int)
    ensures a * (b + c) == a * b + a * c && (b + c) * a == b * a + c * a
  {
  }

  lemma {:induction false} Associate(a: int, b: int, c: int)
    ensures a * (b * c) == (a * b) * c
  {
  }

  /** The quotient and remainder of a division are determined by their equation. */
  lemma {:induction false} DivModUnique(x: int, d: int, q: int, r: int)
    requires d > 0 && x == q * d + r && 0 <= r < d
    ensures x / d == q && x % d == r
  {
    var q', r' := x / d, x % d;
    assert x == q' * d + r' by { assert x == d * (x / d) + x % d; }
    if q' + 1 <= q {
      MulMono(q' + 1, q, d);
      Distribute(d, q', 1);
    } else if q + 1 <= q' {
      MulMono(q + 1, q', d);
      Distribute(d, q, 1);
    }
  }

  function Quotient(a: nat, d: nat): nat
    requires d > 0
  { a / d }

  /** The equation of a division, without keeping the quotient as a term. */
  lemma {:induction false} Divide(x: nat, d: nat) returns (q: nat)
    requires d > 0
    ensures x == q * d + x % d && x % d < d && x / d == q
  {
    q := x / d;
  }

  lemma {:induction false} DivLe(x: nat, d: nat)
    requires d > 0
    ensures x / d <= x
  {
    var q := Divide(x, d);
    MulMono(1, d, q);
  }

  lemma {:induction false} ModOfMod(x: nat, k: nat, d: nat)
    requires d > 0 && k > 0
    ensures k * d > 0 && x % (k * d) % d == x % d
  {
    MulMono(1, k, d);
    var q := Divide(x, k * d);
    Associate(q, k, d);
    ModAddMultiple(x % (k * d), q * k, d);
  }

  /** Dividing a product bound gives a bound of the quotient. */
  lemma {:induction false} DivBelow(x: nat, k: nat, d: nat)
    requires d > 0 && x < k * d
    ensures x / d < k
  {
    var q := Divide(x, d);
    if k <= q { MulMono(k, q, d); }
  }

  lemma {:induction false} ModAddMultiple(x: int, k: int, d: int)
    requires d > 0
    ensures (x + k * d) % d == x % d
  {
    Distribute(d, x / d, k);
    DivModUnique(x + k * d, d, x / d + k, x % d);
  }

  /** One column of a ripple-carry addition of weight `p`. */
  lemma {:induction false} Column(p: nat, s: nat, c: nat, x: nat, y: nat, z: nat)
    requires s <= 1 && c <= 1 && x <= 1 && y <= 1 && z <= 1
    requires s + 2 * c == x + y + z
    ensures Weigh(s, p) + Weigh(c, 2 * p) == Weigh(x, p) + Weigh(y, p) + Weigh(z, p)
  {
  }

  lemma {:induction false} ModCarry(x: nat, r: nat, c: nat, p: nat)
    requires x == r + Weigh(c, p) && r < p
    ensures r == x % p
  {
    DivModUnique(x, p, if c == 0 then 0 else 1, r);
  }

  /** The bits shifted out on the left vanish modulo the width. */
  lemma {:induction false} ShiftOut(up: nat, low: nat, k: nat, n: nat)
    requires low < Pow2(k)
    ensures (up * Pow2(k) + low) * Pow2(n) % Pow2(k + n) == low * Pow2(n)
  {
    Pow2Add(k, n);
    Distribute(Pow2(n), up * Pow2(k), low);
    Associate(up, Pow2(k), Pow2(n));
    MulMono(low + 1, Pow2(k), Pow2(n));
    Distribute(Pow2(n), low, 1);
    DivModUnique((up * Pow2(k) + low) * Pow2(n), Pow2(k + n), up, low * Pow2(n));
  }

  lemma {:induction false} MulModLeft(x: nat, k: nat, d: nat)
    requires d > 0
    ensures (x % d) * k % d == x * k % d
  {
    var q := x / d;
    assert x == q * d + x % d;
    Distribute(k, q * d, x % d);
    Swap(q, d, k);
    ModAddMultiple((x % d) * k, q * k, d);
  }

  lemma {:induction false} Swap(q: nat, d: nat, k: nat)
    ensures (q * d) * k == (q * k) * d
  {
    Associate(q, d, k);
    Associate(q, k, d);
  }

  lemma {:induction false} ModAdd(a: nat, b: nat, d: nat)
    requires d > 0
    ensures (a % d + b % d) % d == (a + b) % d
  {
    var q := Divide(a, d);
    var r := Divide(b, d);
    Distribute(d, q, r);
    ModAddMultiple(a % d + b % d, q + r, d);
  }
}
