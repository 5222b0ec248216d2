/** Factorization by trial division along a wheel over 2, 3 and 5
    (src/bzlabvdomain.c:751-891, 921-935). */
module BvWheel {
  import opened Arith
  import opened BvRef
  import opened BvFill

  predicate Divides(d: nat, n: nat) { d > 0 && n % d == 0 }

  ghost predicate Prime(p: nat) {
    p >= 2 && forall d :: 2 <= d < p ==> !Divides(d, p)
  }

  ghost predicate Primes(s: seq<nat>) { forall i :: 0 <= i < |s| ==> Prime(s[i]) }

  ghost predicate Ascending(s: seq<nat>) { forall i, j :: 0 <= i < j < |s| ==> s[i] <= s[j] }

  function Product(s: seq<nat>): nat {
    if s == [] then 1 else Product(s[..|s| - 1]) * s[|s| - 1]
  }

  lemma {:induction false} ProductMore(s: seq<nat>, p: nat)
    ensures Product(s + [p]) == Product(s) * p
  {
    assert (s + [p])[..|s|] == s;
  }

  lemma {:induction false} DividesTimes(d: nat, k: nat)
    requires d > 0
    ensures Divides(d, k * d)
  {
    DivModUnique(k * d, d, k, 0);
  }

  lemma {:induction false} DividesTrans(d: nat, e: nat, n: nat)
    requires Divides(d, e) && Divides(e, n)
    ensures Divides(d, n)
  {
    var q := Divide(e, d);
    var k := Divide(n, e);
    assert n == k * (q * d);
    Associate(k, q, d);
    DividesTimes(d, k * q);
  }

  /** No number from 2 on below `f` divides `n`. */
  ghost predicate NoneBelow(n: nat, f: nat) { forall d :: 2 <= d < f ==> !Divides(d, n) }

  /** The least divisor is prime. */
  lemma {:induction false} LeastPrime(n: nat, f: nat)
    requires f >= 2 && Divides(f, n) && NoneBelow(n, f)
    ensures Prime(f)
  {
    forall d | 2 <= d < f
      ensures !Divides(d, f)
    {
      if Divides(d, f) { DividesTrans(d, f, n); }
    }
  }

  /** Without divisors up to its root a number is prime. */
  lemma {:induction false} RootPrime(n: nat, f: nat)
    requires n >= 2 && f >= 2 && n < f * f && NoneBelow(n, f)
    ensures Prime(n)
  {
    forall d | 2 <= d < n
      ensures !Divides(d, n)
    {
      if Divides(d, n) {
        var e := CoDivisor(n, f, d);
      }
    }
  }

  /** Of a divisor and its cofactor one is below the root. */
  lemma {:induction false} CoDivisor(n: nat, f: nat, d: nat) returns (e: nat)
    requires 2 <= d < n && n < f * f && Divides(d, n)
    ensures 2 <= e < f && Divides(e, n)
  {
    if d < f {
      e := d;
    } else {
      e := Divide(n, d);
      if e < 2 { MulMono(e, 1, d); }
      if e >= f { MulMono(f, e, d); MulMono(f, d, f); }
      assert n == d * e;
      DividesTimes(e, d);
    }
  }

  /** Dividing out the least divisor: the rest has no smaller one, and is at least as large. */
  lemma {:induction false} DivideOut(n: nat, f: nat)
    requires f >= 2 && Divides(f, n) && NoneBelow(n, f) && f * f <= n
    ensures n / f * f == n && f <= n / f < n && NoneBelow(n / f, f)
  {
    var q := Divide(n, f);
    assert n == q * f;
    if q < f { MulMono(q + 1, f, f); Distribute(f, q, 1); }
    MulMono(2, f, q);
    assert q * f == f * q;
    forall d | 2 <= d < f
      ensures !Divides(d, q)
    {
      if Divides(d, q) {
        DividesTimes(q, f);
        DividesTrans(d, q, n);
      }
    }
  }

  lemma {:induction false} PrimeAlone(p: nat)
    requires Prime(p)
    ensures Divides(p, p) && NoneBelow(p, p)
  {
    DividesTimes(p, 1);
  }

  lemma {:induction false} NotBelow(n: nat, f: nat)
    requires n >= 2 && NoneBelow(n, f)
    ensures n >= f
  {
    DividesTimes(n, 1);
  }

  // ---------------------------------------------------------------- the wheel

  const INC: seq<nat> := [1, 2, 2, 4, 2, 4, 2, 4, 6, 2, 6]

  /** What the candidates are modulo 30, once 2, 3 and 5 are behind. */
  const RESIDUES: seq<nat> := [2, 3, 5, 7, 11, 13, 17, 19, 23, 29, 1]

  predicate WheelAt(fact: nat, pos: nat) {
    pos <= 10 && (if pos < 3 then fact == RESIDUES[pos] else fact >= 7 && fact % 30 == RESIDUES[pos])
  }

  function NextPos(pos: nat): nat { if pos == 10 then 3 else pos + 1 }

  lemma {:induction false} WheelTurns(fact: nat, pos: nat)
    requires WheelAt(fact, pos)
    ensures WheelAt(fact + INC[pos], NextPos(pos)) && fact >= 2 && 1 <= INC[pos] <= 6 && (fact < 7 ==> INC[pos] <= 2)
  {
    if pos == 2 {
    } else if pos >= 3 {
      var q := Divide(fact, 30);
      var r := RESIDUES[pos] + INC[pos];
      if r < 30 { DivModUnique(fact + INC[pos], 30, q, r); } else { DivModUnique(fact + INC[pos], 30, q + 1, r - 30); }
    }
  }

  /** The wheel jumps only over multiples of 2, 3 or 5. */
  lemma {:induction false} Jumped(fact: nat, pos: nat, d: nat)
    requires WheelAt(fact, pos) && fact < d < fact + INC[pos]
    ensures (Divides(2, d) && fact > 2) || (Divides(3, d) && fact > 3) || (Divides(5, d) && fact > 5)
  {
    if pos >= 3 {
      var q := Divide(fact, 30);
      var r := RESIDUES[pos] + (d - fact);
      assert d == r + 30 * q && 7 <= fact;
      ModAddMultiple(r, 15 * q, 2);
      ModAddMultiple(r, 10 * q, 3);
      ModAddMultiple(r, 6 * q, 5);
      GapMultiple(pos, d - fact);
    }
  }

  lemma {:induction false} GapMultiple(pos: nat, g: nat)
    requires 3 <= pos <= 10 && 0 < g < INC[pos]
    ensures var r := RESIDUES[pos] + g; r % 2 == 0 || r % 3 == 0 || r % 5 == 0
  {
  }

  /** 2, 3, 5 and the numbers that none of them divides. */
  predicate Candidate(d: nat) {
    d >= 2 && (Divides(2, d) ==> d == 2) && (Divides(3, d) ==> d == 3) && (Divides(5, d) ==> d == 5)
  }

  /** The wheel turns to the next candidate. */
  lemma {:induction false} NextCandidate(fact: nat, pos: nat)
    requires WheelAt(fact, pos)
    ensures Candidate(fact) && Candidate(fact + INC[pos])
    ensures forall d: nat :: fact < d < fact + INC[pos] ==> !Candidate(d)
  {
    WheelTurns(fact, pos);
    OnCandidate(fact, pos);
    OnCandidate(fact + INC[pos], NextPos(pos));
    forall d: nat | fact < d < fact + INC[pos]
      ensures !Candidate(d)
    {
      Jumped(fact, pos, d);
    }
  }

  lemma {:induction false} OnCandidate(fact: nat, pos: nat)
    requires WheelAt(fact, pos)
    ensures Candidate(fact)
  {
    if pos >= 3 {
      var q := Divide(fact, 30);
      var r := RESIDUES[pos];
      assert fact == r + 30 * q;
      ModAddMultiple(r, 15 * q, 2);
      ModAddMultiple(r, 10 * q, 3);
      ModAddMultiple(r, 6 * q, 5);
    }
  }

  function PosAt(pos: nat, k: nat): (p: nat)
    requires pos <= 10
    ensures p <= 10
  { if k == 0 then pos else NextPos(PosAt(pos, k - 1)) }

  /** The candidate after `k` turns of the wheel. */
  function CandidateAt(fact: nat, pos: nat, k: nat): nat
    requires pos <= 10
  { if k == 0 then fact else CandidateAt(fact, pos, k - 1) + INC[PosAt(pos, k - 1)] }

  /** The square of the candidate leaves the word or is above the number. */
  predicate AboveRoot(c: nat, num: nat, bw: nat) { c * c >= Pow2(bw) || c * c > num }

  predicate Fails(c: nat, num: nat, bw: nat) { !AboveRoot(c, num, bw) && !Divides(c, num) }

  /** The first `k` candidates fail. */
  ghost predicate AllFail(fact: nat, pos: nat, k: nat, num: nat, bw: nat)
    requires pos <= 10
  {
    forall j: nat :: j < k ==> Fails(CandidateAt(fact, pos, j), num, bw)
  }

  lemma {:induction false} NoneFails(fact: nat, pos: nat, num: nat, bw: nat)
    requires pos <= 10
    ensures AllFail(fact, pos, 0, num, bw) && CandidateAt(fact, pos, 0) == fact && PosAt(pos, 0) == pos
  {
  }

  lemma {:induction false} OneMoreFails(fact: nat, pos: nat, k: nat, num: nat, bw: nat)
    requires pos <= 10 && AllFail(fact, pos, k, num, bw) && Fails(CandidateAt(fact, pos, k), num, bw)
    ensures AllFail(fact, pos, k + 1, num, bw)
    ensures CandidateAt(fact, pos, k + 1) == CandidateAt(fact, pos, k) + INC[PosAt(pos, k)]
    ensures PosAt(pos, k + 1) == NextPos(PosAt(pos, k))
  {
    hide Fails;
  }

  /** `k` turns lead from one candidate to the other, and all on the way fail. */
  ghost predicate TurnedTo(fact: nat, pos: nat, k: nat, fact': nat, pos': nat, num: nat, bw: nat) {
    && pos <= 10 && AllFail(fact, pos, k, num, bw)
    && fact' == CandidateAt(fact, pos, k) && pos' == PosAt(pos, k)
  }

  lemma {:induction false} NoTurn(fact: nat, pos: nat, num: nat, bw: nat)
    requires pos <= 10
    ensures TurnedTo(fact, pos, 0, fact, pos, num, bw)
  {
    NoneFails(fact, pos, num, bw);
  }

  lemma {:induction false} OneTurn(fact: nat, pos: nat, k: nat, fact': nat, pos': nat, num: nat, bw: nat)
    requires TurnedTo(fact, pos, k, fact', pos', num, bw) && Fails(fact', num, bw)
    ensures pos' <= 10 && TurnedTo(fact, pos, k + 1, fact' + INC[pos'], NextPos(pos'), num, bw)
  {
    hide Fails, AllFail, CandidateAt, PosAt;
    OneMoreFails(fact, pos, k, num, bw);
  }

  lemma {:induction false} NotAllFail(fact: nat, pos: nat, k: nat, num: nat, bw: nat, limit: nat)
    requires pos <= 10 && k < limit && !Fails(CandidateAt(fact, pos, k), num, bw)
    ensures !AllFail(fact, pos, limit, num, bw)
  {
    hide Fails;
  }

  /** So nothing it jumps over divides the number. */
  lemma {:induction false} NoneJumped(n: nat, fact: nat, pos: nat)
    requires WheelAt(fact, pos) && NoneBelow(n, fact) && !Divides(fact, n)
    ensures NoneBelow(n, fact + INC[pos])
  {
    forall d | 2 <= d < fact + INC[pos]
      ensures !Divides(d, n)
    {
      if d > fact && Divides(d, n) {
        Jumped(fact, pos, d);
        var k := if Divides(2, d) && fact > 2 then 2 else if Divides(3, d) && fact > 3 then 3 else 5;
        DividesTrans(k, d, n);
      }
    }
  }

  /** A candidate below the root can be increased without wrapping around. */
  lemma {:induction false} NoWrap(fact: nat, pos: nat, bw: nat)
    requires WheelAt(fact, pos) && fact * fact < Pow2(bw)
    ensures INC[pos] % Pow2(bw) == INC[pos] && (fact + INC[pos]) % Pow2(bw) == fact + INC[pos]
  {
    WheelTurns(fact, pos);
    if fact >= 7 { MulMono(7, fact, fact); }
    assert fact + INC[pos] < Pow2(bw) by {
      if pos == 0 {
        assert fact * fact == 4;
      } else if pos == 1 {
        assert fact * fact == 9;
      } else if pos == 2 {
        assert fact * fact == 25;
      }
    }
    DivModUnique(INC[pos], Pow2(bw), 0, INC[pos]);
    DivModUnique(fact + INC[pos], Pow2(bw), 0, fact + INC[pos]);
  }

  // ---------------------------------------------------------------- the states of the factorizer

  /** The wheel is meant for words of two bits and more, and for numbers that have a prime factor. */
  ghost predicate Going(bw: nat, n: nat, limit: nat, num: nat, fact: nat, pos: nat, factors: seq<nat>, done: bool,
        gaveUp: bool) {
    && bw > 0 && n < Pow2(bw) && (gaveUp ==> done && limit != 0)
    && (bw >= 2 && n >= 2 ==>
          && Primes(factors) && Ascending(factors)
          && (done && !gaveUp ==> Product(factors) == n)
          && (!done ==> Searching(bw, n, num, fact, pos, factors)))
    && (bw >= 2 && n < 2 ==> !gaveUp && Small(n, num, fact, pos, factors, done))
    && (bw == 1 ==> (done ==> gaveUp) && OneBit(num, fact, pos))
  }

  ghost predicate Searching(bw: nat, n: nat, num: nat, fact: nat, pos: nat, factors: seq<nat>) {
    && 2 <= num < Pow2(bw) && Product(factors) * num == n
    && WheelAt(fact, pos) && NoneBelow(num, fact)
    && forall i :: 0 <= i < |factors| ==> factors[i] <= fact
  }

  /** 0 and 1 are below the first square, and are given out as they are. */
  ghost predicate Small(n: nat, num: nat, fact: nat, pos: nat, factors: seq<nat>, done: bool) {
    if done then factors == [n] else factors == [] && num == n && fact == 2 && pos == 0
  }

  /** In a one-bit word the first candidate is 0, and 1 divides everything. */
  ghost predicate OneBit(num: nat, fact: nat, pos: nat) {
    num < 2 && fact == pos < 2 && (fact == 1 ==> num == 1)
  }

  lemma {:induction false} GoingShape(bw: nat, n: nat, limit: nat, num: nat, fact: nat, pos: nat, factors: seq<nat>)
    requires Going(bw, n, limit, num, fact, pos, factors, false, false)
    ensures pos <= 10 && bw > 0 && (bw == 1 ==> fact <= 1)
    ensures limit != 0 && !(bw >= 2 && n < 2) ==> Going(bw, n, limit, num, fact, pos, factors, true, true)
  {
    hide Pow2, Product, Divides, Primes, Ascending, NoneBelow;
  }

  /** No candidate is left below the root. */
  lemma {:induction false} GoingLast(bw: nat, n: nat, limit: nat, num: nat, fact: nat, pos: nat, factors: seq<nat>)
    requires Going(bw, n, limit, num, fact, pos, factors, false, false) && AboveRoot(fact, num, bw)
    ensures bw >= 2 && Going(bw, n, limit, num, fact, pos, factors + [num], true, false)
    ensures if n >= 2 then Divides(num, num) && NoneBelow(num, num) else num == n
  {
    WordSize(bw);
    hide Pow2, Product, Divides, Primes, Ascending, NoneBelow, WheelAt;
    assert fact <= 1 ==> fact * fact <= 1;
    if bw >= 2 && n >= 2 {
      WheelTurns(fact, pos);
      LastFactor(num, fact, n, factors);
    }
  }

  lemma {:induction false} FoundFactor(bw: nat, n: nat, num: nat, fact: nat, pos: nat, factors: seq<nat>)
    requires Searching(bw, n, num, fact, pos, factors) && Primes(factors) && Ascending(factors)
    requires fact * fact <= num && BvUrem(num, fact) == 0
    ensures Searching(bw, n, BvUdiv(num, fact, bw), fact, pos, factors + [fact])
    ensures Primes(factors + [fact]) && Ascending(factors + [fact])
    ensures Divides(fact, num) && NoneBelow(num, fact) && BvUdiv(num, fact, bw) < num
  {
    hide Pow2, Product, Divides, Primes, Ascending, NoneBelow, WheelAt;
    WheelTurns(fact, pos);
    MulMono(2, fact, fact);
    NextFactor(num, fact, n, factors);
  }

  /** The candidate divides what is left. */
  lemma {:induction false} GoingFound(bw: nat, n: nat, limit: nat, num: nat, fact: nat, pos: nat, factors: seq<nat>)
    requires Going(bw, n, limit, num, fact, pos, factors, false, false)
    requires !AboveRoot(fact, num, bw) && BvUrem(num, fact) == 0
    ensures var quot := BvUdiv(num, fact, bw);
            && Going(bw, n, limit, quot, fact, pos, factors + [fact], false, false)
            && (bw == 1 ==> fact == num && quot == 1)
            && (bw >= 2 ==> n >= 2 && Divides(fact, num) && NoneBelow(num, fact) && quot < num)
  {
    WordSize(bw);
    hide Pow2, Product, Divides, Primes, Ascending, NoneBelow, WheelAt, Searching;
    assert fact == 2 ==> fact * fact == 4;
    if bw >= 2 && n >= 2 {
      hide BvUdiv, BvUrem;
      FoundFactor(bw, n, num, fact, pos, factors);
    }
  }

  /** Where a call stops: at the limit, with what is left if the candidate is above its root, or with a
      candidate that divides it. */
  ghost predicate Outcome(limit: nat, turns: nat, fact: nat, num: nat, bw: nat, res: Option<nat>, done: bool) {
    match res
    case None => limit != 0 && turns == limit
    case Some(v) =>
      && (limit != 0 ==> turns < limit)
      && (AboveRoot(fact, num, bw) <==> done)
      && if done then v == num else v == fact && Divides(v, num)
  }

  /** The candidate does not divide it. */
  lemma {:induction false} GoingOn(bw: nat, n: nat, limit: nat, num: nat, fact: nat, pos: nat, factors: seq<nat>)
    requires Going(bw, n, limit, num, fact, pos, factors, false, false) && pos <= 10
    requires !AboveRoot(fact, num, bw) && BvUrem(num, fact) != 0
    ensures var next := BvAdd(fact, INC[pos] % Pow2(bw), bw);
            && next > fact && Going(bw, n, limit, num, next, NextPos(pos), factors, false, false)
            && (bw == 1 ==> fact == 0 && next == 1)
            && (bw >= 2 ==> n >= 2 && fact <= num && next == fact + INC[pos] && Fails(fact, num, bw))
  {
    WordSize(bw);
    hide Pow2, Product, Divides, Primes, Ascending, NoneBelow;
    assert fact == 2 ==> fact * fact == 4;
    if bw >= 2 && n >= 2 {
      WheelTurns(fact, pos);
      MulMono(2, fact, fact);
      NotFactor(num, fact, pos, bw);
      IsDivides(fact, num);
    }
  }

  class WheelFactorizer {
    const bw: nat
    const limit: nat
    var done: bool
    var num: nat
    var fact: nat
    var pos: nat
    /** The number, the factors given out, and whether the limit ended the search. */
    ghost const n: nat
    ghost var factors: seq<nat>
    ghost var gaveUp: bool

    ghost predicate Regular() { bw >= 2 && n >= 2 }

    ghost predicate Valid()
      reads this
    { Running() && (bw == 1 && limit == 1 && !done ==> fact == 0) }

    /** What also holds between two candidates of a call. */
    ghost predicate Running()
      reads this
    { Going(bw, n, limit, num, fact, pos, factors, done, gaveUp) }

    /** `wfact_init` */
    constructor (bw: nat, n: nat, limit: nat)
      requires bw > 0 && n < Pow2(bw)
      ensures Valid() && !done && factors == [] && this.bw == bw && this.n == n && num == n && this.limit == limit
      ensures bw >= 2 ==> fact == 2 && pos == 0
    {
      this.bw, this.limit, this.n := bw, limit, n;
      done, num, fact, pos := false, n, 2 % Pow2(bw), 0;
      factors, gaveUp := [], false;
      new;
      WordSize(bw);
      assert Product([]) == 1;
    }

    /** What the state says of the factors given out. */
    lemma {:induction false} Rest()
      requires Valid() && Regular()
      ensures !done ==> Product(factors) * num == n && WheelAt(fact, pos)
      ensures done && !gaveUp ==> Product(factors) == n
    {
    }

    /** `wfact_next`: the next prime factor; none after the last one, or when the limit is hit.  0 and 1
        come out unchanged.  In a one-bit word there is always another factor, unless a call is limited
        to a single step.  The wheel is turned `turns` times: past candidates that fail, up to a factor or the
        root, and `limit` times if the call gives up. */
    method Next() returns (res: Option<nat>, ghost turns: nat)
      requires Valid()
      modifies `done, `num, `fact, `pos, `factors, `gaveUp
      ensures Valid()
      ensures res.Some? ==> !old(done) && factors == old(factors) + [res.value]
      ensures res.None? ==> done && factors == old(factors) && (old(done) || gaveUp)
      ensures old(done) || res.Some? ==> gaveUp == old(gaveUp)
      ensures Regular() && res.Some? ==> Divides(res.value, old(num)) && NoneBelow(old(num), res.value)
      ensures Regular() && res.Some? ==> done || num < old(num)
      ensures bw >= 2 && !old(done) ==> TurnedTo(old(fact), old(pos), turns, fact, pos, old(num), bw)
      ensures bw >= 2 && !old(done) ==> Outcome(limit, turns, fact, old(num), bw, res, done)
      ensures bw >= 2 && n < 2 && !old(done) ==> res == Some(n) && done
      ensures bw == 1 && limit != 1 && !old(done) ==> res.Some? && !done
      ensures bw == 1 && res.Some? ==> res.value == old(num) && num == 1 && !done && (limit == 1 ==> old(num) == 0)
    {
      assert gaveUp ==> done;
      hide Pow2, Going, Divides, NoneBelow, BvUdiv, BvUrem, BvAdd, TurnedTo, AboveRoot, Fails;
      turns := 0;
      if done { return None, 0; }
      var iterations := 0;
      GoingShape(bw, n, limit, num, fact, pos, factors);
      NoTurn(fact, pos, num, bw);
      while true
        invariant !done && !gaveUp && num == old(num) && factors == old(factors) && Running()
        invariant bw >= 2 && n < 2 ==> iterations == 0
        invariant bw == 1 ==> iterations == fact - old(fact)
        invariant turns == iterations && (limit != 0 ==> turns <= limit)
        invariant bw >= 2 ==> TurnedTo(old(fact), old(pos), turns, fact, pos, num, bw)
        decreases if bw == 1 then 1 - fact else if num >= fact then num - fact + 1 else 0
      {
        GoingShape(bw, n, limit, num, fact, pos, factors);
        iterations := iterations + 1;
        if limit != 0 && iterations > limit {
          done, gaveUp := true, true;
          return None, turns;
        }
        if AboveRoot(fact, num, bw) {
          GoingLast(bw, n, limit, num, fact, pos, factors);
          factors := factors + [num];
          done := true;
          return Some(num), turns;
        }
        var quot := BvUdiv(num, fact, bw);
        var rem := BvUrem(num, fact);
        if rem == 0 {
          GoingFound(bw, n, limit, num, fact, pos, factors);
          factors := factors + [fact];
          num := quot;
          return Some(fact), turns;
        }
        GoingOn(bw, n, limit, num, fact, pos, factors);
        var tmp := BvAdd(fact, INC[pos] % Pow2(bw), bw);
        assert tmp > fact;
        if bw >= 2 { OneTurn(old(fact), old(pos), turns, fact, pos, num, bw); }
        fact := tmp;
        pos := NextPos(pos);
        turns := turns + 1;
      }
    }
  }

  lemma {:induction false} WordSize(bw: nat)
    requires bw > 0
    ensures Pow2(1) == 2 && 1 % Pow2(1) == 1 && (bw >= 2 ==> Pow2(bw) >= 4)
    ensures 2 % Pow2(bw) == if bw == 1 then 0 else 2
  {
    if bw >= 2 {
      Pow2Mono(2, bw);
      assert Pow2(bw) >= 4;
      hide Pow2;
      DivModUnique(2, Pow2(bw), 0, 2);
    }
  }

  /** Nothing up to the root divides what is left: it is the last prime. */
  lemma {:induction false} LastFactor(num: nat, fact: nat, n: nat, factors: seq<nat>)
    requires num >= 2 && fact >= 2 && num < fact * fact && NoneBelow(num, fact) && Product(factors) * num == n
    requires Primes(factors) && Ascending(factors) && forall i :: 0 <= i < |factors| ==> factors[i] <= fact
    ensures Divides(num, num) && NoneBelow(num, num)
    ensures Primes(factors + [num]) && Ascending(factors + [num]) && Product(factors + [num]) == n
  {
    hide Product, Divides, Primes, Ascending, NoneBelow, Prime;
    RootPrime(num, fact);
    NotBelow(num, fact);
    PrimeAlone(num);
    OneMore(num, n, factors, fact);
  }

  /** A candidate that divides what is left is prime, and goes on being the candidate. */
  lemma {:induction false} NextFactor(num: nat, fact: nat, n: nat, factors: seq<nat>)
    requires fact >= 2 && num % fact == 0 && fact * fact <= num && NoneBelow(num, fact) && Product(factors) * num == n
    requires Primes(factors) && Ascending(factors) && forall i :: 0 <= i < |factors| ==> factors[i] <= fact
    ensures Divides(fact, num) && fact <= num / fact < num && NoneBelow(num / fact, fact)
    ensures Primes(factors + [fact]) && Ascending(factors + [fact]) && Product(factors + [fact]) * (num / fact) == n
    ensures forall i :: 0 <= i < |factors + [fact]| ==> (factors + [fact])[i] <= fact
  {
    assert Divides(fact, num) by { IsDivides(fact, num); }
    hide Product, Divides, Primes, Ascending, NoneBelow, Prime;
    LeastPrime(num, fact);
    DivideOut(num, fact);
    OneMore(fact, n, factors, fact);
    ProductMoves(factors, num, fact);
  }

  /** Past a candidate that does not divide, the wheel turns without wrapping and without a miss. */
  lemma {:induction false} NotFactor(num: nat, fact: nat, pos: nat, bw: nat)
    requires fact > 0 && num % fact != 0 && WheelAt(fact, pos) && NoneBelow(num, fact) && fact * fact < Pow2(bw)
    ensures NoneBelow(num, fact + INC[pos]) && 1 <= INC[pos]
    ensures INC[pos] % Pow2(bw) == INC[pos] && (fact + INC[pos]) % Pow2(bw) == fact + INC[pos]
  {
    assert !Divides(fact, num) by { IsDivides(fact, num); }
    hide Divides, NoneBelow, Pow2;
    WheelTurns(fact, pos);
    NoneJumped(num, fact, pos);
    NoWrap(fact, pos, bw);
  }

  lemma {:induction false} IsDivides(d: nat, n: nat)
    requires d > 0
    ensures Divides(d, n) <==> n % d == 0
  {
  }

  /** Another prime that is not below the others. */
  lemma {:induction false} OneMore(p: nat, n: nat, s: seq<nat>, f: nat)
    requires Primes(s) && Ascending(s) && Prime(p) && (forall i :: 0 <= i < |s| ==> s[i] <= f)
    ensures Primes(s + [p]) && Product(s + [p]) == Product(s) * p
    ensures p >= f ==> Ascending(s + [p]) && forall i :: 0 <= i < |s + [p]| ==> (s + [p])[i] <= p
  {
    ProductMore(s, p);
    hide Prime, Product;
  }

  lemma {:induction false} ProductMoves(s: seq<nat>, num: nat, f: nat)
    requires f > 0 && num / f * f == num
    ensures Product(s) * f * (num / f) == Product(s) * num
  {
    Associate(Product(s), f, num / f);
  }

  function LastOf(s: seq<nat>): nat { if s == [] then 2 else s[|s| - 1] }

  /** From the last factor on, `limit` candidates were tried in vain on what is left. */
  ghost predicate GivenUp(s: seq<nat>, n: nat, limit: nat, bw: nat) {
    limit != 0 && exists rest: nat, pos: nat ::
      WheelAt(LastOf(s), pos) && Left(s, n, rest) && AllFail(LastOf(s), pos, limit, rest, bw)
  }

  predicate Left(s: seq<nat>, n: nat, rest: nat) { Product(s) * rest == n }

  /** A call on `fact`, `pos` and `num` that gives up, or finds the first factor. */
  lemma {:induction false} OutcomeIs(limit: nat, fact: nat, pos: nat, turns: nat, fact': nat, pos': nat, num: nat,
        bw: nat, res: Option<nat>, done: bool)
    requires TurnedTo(fact, pos, turns, fact', pos', num, bw) && Outcome(limit, turns, fact', num, bw, res, done)
    ensures pos <= 10 && (res.None? <==> limit != 0 && AllFail(fact, pos, limit, num, bw))
    ensures res.Some? && !done ==> res.value == fact'
  {
    hide CandidateAt, PosAt, Divides, AboveRoot;
    if res.Some? && limit != 0 { NotAllFail(fact, pos, turns, num, bw, limit); }
  }

  /** The factors that `bzla_bvdomain_get_factor` collects: all of them, or the first one only. */
  method Factors(n: nat, bw: nat, limit: nat, all: bool) returns (s: seq<nat>)
    requires bw > 0 && n < Pow2(bw) && (bw >= 2 || limit == 1 || !all)
    ensures bw >= 2 && n >= 2 ==> Primes(s) && Ascending(s)
    ensures bw >= 2 && all && limit == 0 ==> Product(s) == n
    ensures bw >= 2 && n < 2 ==> s == [n]
    ensures bw >= 2 && n >= 2 && all ==> Product(s) == n || GivenUp(s, n, limit, bw)
    ensures bw >= 2 && n >= 2 ==> (s == [] <==> limit != 0 && AllFail(2, 0, limit, n, bw))
    ensures !all ==> |s| <= 1 && (limit == 0 ==> |s| == 1)
    ensures bw >= 2 && n >= 2 && !all && |s| == 1 ==> Divides(s[0], n) && NoneBelow(n, s[0])
  {
    hide Pow2, Product, Divides, Primes, Ascending, NoneBelow, AllFail, TurnedTo, Outcome, WheelAt, GivenUp, Left;
    var wf := new WheelFactorizer(bw, n, limit);
    s := [];
    NoFactors();
    OneFactor(n);
    while true
      invariant wf.Valid() && fresh(wf) && s == wf.factors && !wf.gaveUp
      invariant wf.limit == limit && wf.n == n && wf.bw == bw
      invariant wf.Regular() ==> Primes(s) && Ascending(s)
      invariant !all ==> s == [] && !wf.done && wf.num == n
      invariant bw >= 2 && s == [] ==> !wf.done && wf.num == n && wf.fact == 2 && wf.pos == 0
      invariant wf.Regular() && s != [] ==> !(limit != 0 && AllFail(2, 0, limit, n, bw))
      invariant wf.Regular() && !wf.done ==> wf.fact == LastOf(s)
      decreases if wf.done then 0 else 1, if bw == 1 then 1 - wf.num else wf.num
    {
      ghost var f0, p0, n0, d0 := wf.fact, wf.pos, wf.num, wf.done;
      if wf.Regular() { wf.Rest(); }
      var fact, turns := wf.Next();
      if bw >= 2 && !d0 { OutcomeIs(limit, f0, p0, turns, wf.fact, wf.pos, n0, bw, fact, wf.done); }
      if fact.None? {
        if wf.Regular() && !d0 { GaveUp(s, n, limit, bw, n0, p0); }
        break;
      }
      s := s + [fact.value];
      if !all { break; }
    }
  }

  lemma {:induction false} GaveUp(s: seq<nat>, n: nat, limit: nat, bw: nat, rest: nat, pos: nat)
    requires limit != 0 && WheelAt(LastOf(s), pos) && Product(s) * rest == n && AllFail(LastOf(s), pos, limit, rest, bw)
    ensures GivenUp(s, n, limit, bw)
  {
    hide AllFail, Product, WheelAt;
    assert Left(s, n, rest);
  }

  /** In a one-bit word the stream does not end: any number of calls gives that many factors. */
  method OneBitFactors(n: nat, limit: nat, k: nat) returns (s: seq<nat>)
    requires n < 2 && limit != 1
    ensures |s| == k && (k > 0 ==> s[0] == n) && forall i :: 1 <= i < k ==> s[i] == 1
  {
    WordSize(1);
    var wf := new WheelFactorizer(1, n, limit);
    s := [];
    for i := 0 to k
      invariant wf.Valid() && fresh(wf) && wf.bw == 1 && wf.limit == limit && !wf.done && |s| == i
      invariant wf.num == if i == 0 then n else 1
      invariant (i > 0 ==> s[0] == n) && forall j :: 1 <= j < i ==> s[j] == 1
    {
      var fact, turns := wf.Next();
      s := s + [fact.value];
    }
  }

  lemma {:induction false} OneFactor(n: nat)
    ensures Product([n]) == n
  {
    assert [n][..0] == [];
  }

  lemma {:induction false} NoFactors()
    ensures Primes([]) && Ascending([]) && Product([]) == 1
  {
  }
}
