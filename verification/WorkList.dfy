/** Depth-first traversal with an explicit stack and a set of visited nodes: the pattern of
    `bzla_synthesize_exp` and `bzla_aig_to_sat_tseitin`.  A node is pushed back under its
    children when it is first met and finished when it comes up again. */
module WorkList {

  /** Node `c` waits at position `p`: its children are done or above it, and everything above
      it has a smaller id. */
  ghost predicate WaitsAt(kids: seq<seq<nat>>, done: set<nat>, stack: seq<nat>, c: nat, p: nat) {
    && c < |kids| && p < |stack| && stack[p] == c
    && (forall q :: p < q < |stack| ==> stack[q] < c)
    && forall k :: 0 <= k < |kids[c]| ==> kids[c][k] in done || kids[c][k] in stack[p + 1..]
  }

  /** Every visited node that is not done waits somewhere on the stack. */
  ghost predicate Waiting(kids: seq<seq<nat>>, done: set<nat>, cache: set<nat>, pos: map<nat, nat>, stack: seq<nat>) {
    && (forall q :: 0 <= q < |stack| ==> stack[q] < |kids|)
    && forall c :: c in cache && c !in done ==> c in pos && WaitsAt(kids, done, stack, c, pos[c])
  }

  /** Every child is done or is pushed. */
  ghost predicate Covered(s: seq<nat>, pushed: seq<nat>, done: set<nat>) {
    forall d :: d in s ==> d in pushed || d in done
  }

  lemma {:induction false} NoneBelowTop(kids: seq<seq<nat>>, done: set<nat>, cache: set<nat>, pos: map<nat, nat>,
        stack: seq<nat>, d: nat)
    requires Waiting(kids, done, cache, pos, stack) && |stack| > 0 && d in cache
    ensures d in done || d >= stack[|stack| - 1]
  {
    if d !in done {
      assert WaitsAt(kids, done, stack, d, pos[d]);
    }
  }

  /** A smaller node that was visited is done: it cannot be waiting below the top. */
  lemma {:induction false} SmallerDone(kids: seq<seq<nat>>, done: set<nat>, cache: set<nat>, pos: map<nat, nat>,
        stack: seq<nat>, d: nat)
    requires Waiting(kids, done, cache, pos, stack) && |stack| > 0
    requires d in cache && d < stack[|stack| - 1]
    ensures d in done
  {
    NoneBelowTop(kids, done, cache, pos, stack, d);
  }

  lemma {:induction false} Start(kids: seq<seq<nat>>, done: set<nat>, root: nat)
    requires root < |kids|
    ensures Waiting(kids, done, {}, map[], [root])
  {
  }

  lemma {:induction false} Top(kids: seq<seq<nat>>, done: set<nat>, cache: set<nat>, pos: map<nat, nat>,
        stack: seq<nat>)
    requires Waiting(kids, done, cache, pos, stack) && |stack| > 0
    ensures stack[|stack| - 1] < |kids|
  {
  }

  /** The top is done: it can be popped. */
  lemma {:induction false} PopDone(kids: seq<seq<nat>>, done: set<nat>, cache: set<nat>, pos: map<nat, nat>,
        stack: seq<nat>)
    requires Waiting(kids, done, cache, pos, stack) && |stack| > 0
    ensures Waiting(kids, done + {stack[|stack| - 1]}, cache, pos, stack[..|stack| - 1])
  {
    var n := |stack| - 1;
    var done' := done + {stack[n]};
    forall c | c in cache && c !in done'
      ensures WaitsAt(kids, done', stack[..n], c, pos[c])
    {
      assert WaitsAt(kids, done, stack, c, pos[c]);
      forall k | 0 <= k < |kids[c]|
        ensures kids[c][k] in done' || kids[c][k] in stack[..n][pos[c] + 1..]
      {
        var d := kids[c][k];
        if d !in done' {
          StillAbove(stack, pos[c] + 1, d);
        }
      }
    }
  }

  lemma {:induction false} StillAbove(stack: seq<nat>, p: nat, d: nat)
    requires 0 < |stack| && p < |stack| && d in stack[p..] && d != stack[|stack| - 1]
    ensures d in stack[..|stack| - 1][p..]
  {
    var q :| 0 <= q < |stack[p..]| && stack[p..][q] == d;
    assert stack[..|stack| - 1][p..][q] == d;
  }

  /** The top is done but stays on the stack. */
  lemma {:induction false} KeepDone(kids: seq<seq<nat>>, done: set<nat>, cache: set<nat>, pos: map<nat, nat>,
        stack: seq<nat>)
    requires Waiting(kids, done, cache, pos, stack) && |stack| > 0
    ensures Waiting(kids, done + {stack[|stack| - 1]}, cache + {stack[|stack| - 1]}, pos, stack)
  {
    var done' := done + {stack[|stack| - 1]};
    forall c | c in cache && c !in done'
      ensures WaitsAt(kids, done', stack, c, pos[c])
    {
      assert WaitsAt(kids, done, stack, c, pos[c]);
    }
  }

  /** The top is new: it stays and its children go above it. */
  lemma {:induction false} PushKids(kids: seq<seq<nat>>, done: set<nat>, cache: set<nat>, pos: map<nat, nat>,
        stack: seq<nat>, pushed: seq<nat>)
    requires Waiting(kids, done, cache, pos, stack) && |stack| > 0
    requires var t := stack[|stack| - 1]; t !in cache && t < |kids|
    requires forall q :: 0 <= q < |pushed| ==> pushed[q] < stack[|stack| - 1]
    requires Covered(kids[stack[|stack| - 1]], pushed, done)
    ensures var t := stack[|stack| - 1]; Waiting(kids, done, cache + {t}, pos[t := |stack| - 1], stack + pushed)
  {
    var n := |stack| - 1;
    var t := stack[n];
    var stack' := stack + pushed;
    forall q | n < q < |stack'|
      ensures stack'[q] < t
    {
      assert stack'[q] == pushed[q - n - 1];
    }
    forall c | c in cache && c !in done
      ensures WaitsAt(kids, done, stack', c, pos[c])
    {
      assert WaitsAt(kids, done, stack, c, pos[c]);
      assert stack'[pos[c] + 1..] == stack[pos[c] + 1..] + pushed;
      assert pos[c] < n;
    }
    assert stack'[n + 1..] == pushed;
  }

  /** A visited node that comes up again has all its children done. */
  lemma {:induction false} TopReady(kids: seq<seq<nat>>, done: set<nat>, cache: set<nat>, pos: map<nat, nat>,
        stack: seq<nat>)
    requires Waiting(kids, done, cache, pos, stack) && |stack| > 0
    requires stack[|stack| - 1] in cache && stack[|stack| - 1] !in done
    ensures var t := stack[|stack| - 1];
            t < |kids| && forall k :: 0 <= k < |kids[t]| ==> kids[t][k] in done
  {
    var t := stack[|stack| - 1];
    assert WaitsAt(kids, done, stack, t, pos[t]);
    assert stack[pos[t] + 1..] == [];
  }
}
