/** The unique table of the AIG manager as values: hash function, hash chains and
    their invariant (src/bzlaaig.c:135-284). */
module UniqueTable {
  import opened AigGraph

  const UINT32: nat := 0x1_0000_0000
  const TABLE_LIMIT: nat := 30

  /** `hash_aig`: 32-bit arithmetic, then the low bits for a table of a power-of-two size. */
  function Hash(id0: nat, id1: nat, size: nat): (h: nat)
    requires size > 0
    ensures h < size
  {
    ((547789289 * id0 + 786695309 * id1) % UINT32 * 2000000137) % UINT32 % size
  }

  function HashGate(gate: Gate, size: nat): (h: nat)
    requires size > 0
    ensures h < size
  {
    if gate.And? then Hash(gate.left.id, gate.right.id, size) else 0
  }

  function Log2(n: nat): nat {
    if n < 2 then 0 else 1 + Log2(n / 2)
  }

  predicate IsAndId(t: Graph, id: nat) { 2 <= id < |t| && t[id].And? }

  ghost function Ands(t: Graph): set<nat> { set i: nat | 2 <= i < |t| && t[i].And? }

  ghost predicate Distinct(s: seq<nat>) {
    forall j, k :: 0 <= j < k < |s| ==> s[j] != s[k]
  }

  /** `bucket` lists the nodes met by following `next` from `head`; 0 ends a chain. */
  ghost predicate Chain(head: nat, bucket: seq<nat>, next: seq<nat>) {
    && head == (if |bucket| == 0 then 0 else bucket[0])
    && forall k :: 0 <= k < |bucket| ==>
         && 0 < bucket[k] < |next|
         && next[bucket[k]] == After(bucket, k)
  }

  ghost function After(bucket: seq<nat>, k: nat): nat {
    if k + 1 < |bucket| then bucket[k + 1] else 0
  }

  /** Every bucket is a well-linked chain without repetitions. */
  ghost predicate Linked(next: seq<nat>, chains: seq<nat>, buckets: seq<seq<nat>>) {
    && |chains| == |buckets| > 0
    && forall b :: 0 <= b < |buckets| ==> Chain(chains[b], buckets[b], next) && Distinct(buckets[b])
  }

  /** Bucket `b` holds exactly the nodes of `ids` whose hash is `b`. */
  ghost predicate Sorted(t: Graph, ids: set<nat>, buckets: seq<seq<nat>>) {
    && |buckets| > 0
    && (forall id :: id in ids ==> id < |t|)
    && forall b, id :: 0 <= b < |buckets| ==>
         (id in buckets[b] <==> id in ids && HashGate(t[id], |buckets|) == b)
  }

  /** No two live ANDs have the same ordered children. */
  ghost predicate Unique(t: Graph) {
    forall i: nat, j: nat :: IsAndId(t, i) && IsAndId(t, j) && t[i] == t[j] ==> i == j
  }

  ghost predicate Ordered(t: Graph, sort: bool) {
    forall i: nat :: sort && IsAndId(t, i) ==> t[i].left.id < t[i].right.id
  }

  ghost predicate TableOk(t: Graph, next: seq<nat>, chains: seq<nat>, buckets: seq<seq<nat>>, count: nat, sort: bool) {
    && Linked(next, chains, buckets)
    && Sorted(t, Ands(t), buckets)
    && Unique(t) && Ordered(t, sort)
    && count == |Ands(t)|
  }

  lemma {:induction false} TableParts(t: Graph, next: seq<nat>, chains: seq<nat>, buckets: seq<seq<nat>>, count: nat,
        sort: bool)
    requires TableOk(t, next, chains, buckets, count, sort)
    ensures Linked(next, chains, buckets) && Sorted(t, Ands(t), buckets)
    ensures Unique(t) && Ordered(t, sort) && count == |Ands(t)|
  {
  }

  /** With sorting on, swapped children cannot occur either. */
  lemma {:induction false} UniqueUpToSwap(t: Graph, i: nat, j: nat)
    requires Unique(t) && Ordered(t, true) && IsAndId(t, i) && IsAndId(t, j)
    requires {t[i].left, t[i].right} == {t[j].left, t[j].right}
    ensures i == j
  {
    assert t[i].left in {t[j].left, t[j].right} && t[i].right in {t[j].left, t[j].right};
    assert t[j].left in {t[i].left, t[i].right};
    assert t[i] == t[j];
  }

  lemma {:induction false} ChainFrame(head: nat, bucket: seq<nat>, next: seq<nat>, id: nat, v: nat)
    requires Chain(head, bucket, next) && id !in bucket && id < |next|
    ensures Chain(head, bucket, next[id := v])
  {
  }

  lemma {:induction false} LinkedGrow(next: seq<nat>, chains: seq<nat>, buckets: seq<seq<nat>>, v: nat)
    requires Linked(next, chains, buckets)
    ensures Linked(next + [v], chains, buckets)
  {
    forall b | 0 <= b < |buckets|
      ensures Chain(chains[b], buckets[b], next + [v])
    {
    }
  }

  // ---------------------------------------------------------------- insertion and removal

  /** The cell that a search stops at: the head of a bucket or the `next` field of a node. */
  datatype Link = Head(bucket: nat) | NextOf(id: nat)

  ghost predicate EndOf(link: Link, b: nat, buckets: seq<seq<nat>>) {
    && b < |buckets|
    && link == if |buckets[b]| == 0 then Head(b) else NextOf(buckets[b][|buckets[b]| - 1])
  }

  function WriteChains(link: Link, chains: seq<nat>, v: nat): seq<nat> {
    if link.Head? && link.bucket < |chains| then chains[link.bucket := v] else chains
  }

  function WriteNext(link: Link, next: seq<nat>, v: nat): (r: seq<nat>)
    ensures |r| == |next|
  {
    if link.NextOf? && link.id < |next| then next[link.id := v] else next
  }

  /** Walking a chain from its head meets the bucket in order. */
  lemma {:induction false} ChainAt(head: nat, bucket: seq<nat>, next: seq<nat>)
    requires Chain(head, bucket, next)
    ensures head == (if |bucket| > 0 then bucket[0] else 0)
    ensures forall k {:trigger bucket[k]} ::
              0 <= k < |bucket| ==> 0 < bucket[k] < |next| && next[bucket[k]] == After(bucket, k)
  {
  }

  lemma {:induction false} LinkedShape(next: seq<nat>, chains: seq<nat>, buckets: seq<seq<nat>>)
    requires Linked(next, chains, buckets)
    ensures |chains| == |buckets| > 0
  {
  }

  lemma {:induction false} LinkedNext(next: seq<nat>, chains: seq<nat>, buckets: seq<seq<nat>>, b: nat, k: nat)
    requires Linked(next, chains, buckets) && b < |buckets| && k < |buckets[b]|
    ensures 0 < buckets[b][k] < |next| && (k > 0 ==> 0 < buckets[b][k - 1] < |next|)
  {
    assert Chain(chains[b], buckets[b], next);
  }

  lemma {:induction false} BucketOf(t: Graph, ids: set<nat>, buckets: seq<seq<nat>>, id: nat)
    requires Sorted(t, ids, buckets) && id in ids
    ensures id in buckets[HashGate(t[id], |buckets|)]
  {
  }

  lemma {:induction false} BucketMember(t: Graph, ids: set<nat>, buckets: seq<seq<nat>>, b: nat, id: nat)
    requires Sorted(t, ids, buckets) && b < |buckets| && id in buckets[b]
    ensures id in ids && id < |t| && HashGate(t[id], |buckets|) == b
  {
  }

  /** No live node is this gate. */
  ghost predicate Absent(t: Graph, gate: Gate) {
    forall i: nat :: IsAndId(t, i) ==> t[i] != gate
  }

  lemma {:induction false} AbsentNot(t: Graph, gate: Gate, found: nat)
    requires Absent(t, gate) && (found != 0 ==> IsAndId(t, found) && t[found] == gate)
    ensures found == 0
  {
  }

  /** A gate that is not in the bucket of its hash is not in the table. */
  lemma {:induction false} NotInBucket(t: Graph, buckets: seq<seq<nat>>, gate: Gate)
    requires Sorted(t, Ands(t), buckets)
    requires forall j :: 0 <= j < |buckets[HashGate(gate, |buckets|)]| ==>
               var id := buckets[HashGate(gate, |buckets|)][j]; id < |t| && t[id] != gate
    ensures Absent(t, gate)
  {
    var bucket := buckets[HashGate(gate, |buckets|)];
    forall i: nat | IsAndId(t, i)
      ensures t[i] != gate
    {
      if t[i] == gate { BucketOf(t, Ands(t), buckets, i); }
    }
  }

  lemma {:induction false} Disjoint(t: Graph, ids: set<nat>, buckets: seq<seq<nat>>, b: nat, c: nat, id: nat)
    requires Sorted(t, ids, buckets) && b < |buckets| && c < |buckets| && b != c && id in buckets[b]
    ensures id !in buckets[c]
  {
    assert id in ids && HashGate(t[id], |buckets|) == b;
  }

  /** Writing a fresh id into the end cell of its bucket appends it to that bucket. */
  lemma {:induction false} AppendBucket(t: Graph, ids: set<nat>, next: seq<nat>, chains: seq<nat>,
        buckets: seq<seq<nat>>, link: Link, b: nat, id: nat)
    requires Linked(next, chains, buckets) && Sorted(t, ids, buckets) && EndOf(link, b, buckets)
    requires 0 < id < |next| && id < |t| && next[id] == 0 && id !in ids && HashGate(t[id], |buckets|) == b
    ensures Linked(WriteNext(link, next, id), WriteChains(link, chains, id), buckets[b := buckets[b] + [id]])
    ensures Sorted(t, ids + {id}, buckets[b := buckets[b] + [id]])
  {
    LinkedShape(next, chains, buckets);
    AppendSorted(t, ids, buckets, b, id);
    hide HashGate, Sorted, Chain, Distinct;
    var buckets' := buckets[b := buckets[b] + [id]];
    var chains' := WriteChains(link, chains, id);
    var next' := WriteNext(link, next, id);
    forall c | 0 <= c < |buckets|
      ensures Chain(chains'[c], buckets'[c], next') && Distinct(buckets'[c])
    {
      AppendAt(t, ids, next, chains, buckets, link, b, id, c);
    }
  }

  lemma {:induction false} AppendSorted(t: Graph, ids: set<nat>, buckets: seq<seq<nat>>, b: nat, id: nat)
    requires Sorted(t, ids, buckets) && b < |buckets| && id < |t| && id !in ids && HashGate(t[id], |buckets|) == b
    ensures Sorted(t, ids + {id}, buckets[b := buckets[b] + [id]])
  {
    hide HashGate;
    var buckets' := buckets[b := buckets[b] + [id]];
    assert forall x :: x in buckets'[b] <==> x in buckets[b] || x == id;
  }

  /** The chain of bucket `c` after the write at the end of bucket `b`. */
  lemma {:induction false} AppendAt(t: Graph, ids: set<nat>, next: seq<nat>, chains: seq<nat>,
        buckets: seq<seq<nat>>, link: Link, b: nat, id: nat, c: nat)
    requires Linked(next, chains, buckets) && Sorted(t, ids, buckets) && EndOf(link, b, buckets) && c < |buckets|
    requires 0 < id < |next| && id < |t| && next[id] == 0 && id !in ids
    ensures |WriteChains(link, chains, id)| == |chains| == |buckets|
    ensures Chain(WriteChains(link, chains, id)[c], if c == b then buckets[c] + [id] else buckets[c],
                  WriteNext(link, next, id))
    ensures Distinct(if c == b then buckets[c] + [id] else buckets[c])
  {
    hide HashGate;
    assert Chain(chains[c], buckets[c], next) && Distinct(buckets[c]);
    if c == b {
      NotIn(t, ids, buckets, b, id);
      hide Sorted;
      if |buckets[b]| > 0 { LinkedNext(next, chains, buckets, b, |buckets[b]| - 1); }
      AppendChain(chains[b], buckets[b], next, id);
      hide Chain, Distinct;
    } else if link.NextOf? {
      LinkedNext(next, chains, buckets, b, |buckets[b]| - 1);
      Disjoint(t, ids, buckets, b, c, link.id);
      ChainFrame(chains[c], buckets[c], next, link.id, id);
      hide Chain, Distinct, Sorted;
    }
  }

  lemma {:induction false} NotIn(t: Graph, ids: set<nat>, buckets: seq<seq<nat>>, b: nat, id: nat)
    requires Sorted(t, ids, buckets) && b < |buckets| && id !in ids
    ensures id !in buckets[b]
  {
    hide HashGate;
  }

  lemma {:induction false} AppendChain(head: nat, bucket: seq<nat>, next: seq<nat>, id: nat)
    requires Chain(head, bucket, next) && Distinct(bucket)
    requires 0 < id < |next| && next[id] == 0 && id !in bucket
    ensures Chain(if |bucket| == 0 then id else head, bucket + [id],
                  if |bucket| == 0 then next else next[bucket[|bucket| - 1] := id])
    ensures Distinct(bucket + [id])
  {
  }

  /** Pushing an id onto the front of its bucket. */
  lemma {:induction false} PushFront(t: Graph, ids: set<nat>, next: seq<nat>, chains: seq<nat>,
        buckets: seq<seq<nat>>, b: nat, id: nat)
    requires Linked(next, chains, buckets) && Sorted(t, ids, buckets) && b < |buckets|
    requires 0 < id < |next| && id < |t| && id !in ids && HashGate(t[id], |buckets|) == b
    ensures Linked(next[id := chains[b]], chains[b := id], buckets[b := [id] + buckets[b]])
    ensures Sorted(t, ids + {id}, buckets[b := [id] + buckets[b]])
  {
    var buckets' := buckets[b := [id] + buckets[b]];
    var next' := next[id := chains[b]];
    forall c | 0 <= c < |buckets|
      ensures Chain(chains[b := id][c], buckets'[c], next') && Distinct(buckets'[c])
    {
      assert id !in buckets[c];
      ChainFrame(chains[c], buckets[c], next, id, chains[b]);
    }
    assert forall x :: x in buckets'[b] <==> x in buckets[b] || x == id;
    hide Linked, Chain, Distinct, HashGate;
  }

  /** Unlinking the `k`-th node of a bucket. */
  lemma {:induction false} RemoveBucket(t: Graph, ids: set<nat>, next: seq<nat>, chains: seq<nat>,
        buckets: seq<seq<nat>>, b: nat, k: nat)
    requires Linked(next, chains, buckets) && Sorted(t, ids, buckets) && b < |buckets| && k < |buckets[b]|
    ensures var id := buckets[b][k];
            var link := if k == 0 then Head(b) else NextOf(buckets[b][k - 1]);
            var buckets' := buckets[b := Skip(buckets[b], k)];
            && Linked(WriteNext(link, next, next[id]), WriteChains(link, chains, next[id]), buckets')
            && Sorted(t, ids - {id}, buckets')
  {
    var id := buckets[b][k];
    var link := if k == 0 then Head(b) else NextOf(buckets[b][k - 1]);
    var bucket' := Skip(buckets[b], k);
    var buckets' := buckets[b := bucket'];
    var chains' := WriteChains(link, chains, next[id]);
    var next' := WriteNext(link, next, next[id]);
    forall c | 0 <= c < |buckets|
      ensures Chain(chains'[c], buckets'[c], next') && Distinct(buckets'[c])
    {
      if c != b && link.NextOf? {
        Disjoint(t, ids, buckets, b, c, link.id);
        ChainFrame(chains[c], buckets[c], next, link.id, next[id]);
      } else if c == b {
        RemoveChain(chains[b], buckets[b], next, k);
      }
    }
    RemoveSorted(t, ids, buckets, b, k);
  }

  lemma {:induction false} RemoveSorted(t: Graph, ids: set<nat>, buckets: seq<seq<nat>>, b: nat, k: nat)
    requires Sorted(t, ids, buckets) && b < |buckets| && k < |buckets[b]| && Distinct(buckets[b])
    ensures Sorted(t, ids - {buckets[b][k]}, buckets[b := Skip(buckets[b], k)])
  {
    var id := buckets[b][k];
    var bucket' := Skip(buckets[b], k);
    forall x
      ensures x in bucket' <==> x in buckets[b] && x != id
    {
      if x in buckets[b] && x != id {
        var j :| 0 <= j < |buckets[b]| && buckets[b][j] == x;
        assert x == bucket'[if j < k then j else j - 1];
      }
    }
    forall c: nat | c < |buckets| && c != b
      ensures id !in buckets[c]
    {
      Disjoint(t, ids, buckets, b, c, id);
    }
  }

  /** The sequence without its `k`-th element. */
  function Skip(s: seq<nat>, k: nat): (r: seq<nat>)
    requires k < |s|
    ensures |r| == |s| - 1
    ensures forall j :: 0 <= j < |r| ==> r[j] == s[if j < k then j else j + 1]
  {
    s[..k] + s[k + 1..]
  }

  lemma {:induction false} RemoveChain(head: nat, bucket: seq<nat>, next: seq<nat>, k: nat)
    requires Chain(head, bucket, next) && Distinct(bucket) && k < |bucket|
    ensures var v := next[bucket[k]];
            && Chain(if k == 0 then v else head, Skip(bucket, k), if k == 0 then next else next[bucket[k - 1] := v])
            && Distinct(Skip(bucket, k))
  {
    hide Skip;
    var s := Skip(bucket, k);
    var v := next[bucket[k]];
    var next' := if k == 0 then next else next[bucket[k - 1] := v];
    forall j | 0 <= j < |s|
      ensures 0 < s[j] < |next'| && next'[s[j]] == After(s, j)
    {
      RemoveStep(head, bucket, next, k, j);
    }
  }

  lemma {:induction false} RemoveStep(head: nat, bucket: seq<nat>, next: seq<nat>, k: nat, j: nat)
    requires Chain(head, bucket, next) && Distinct(bucket) && k < |bucket| && j < |bucket| - 1
    ensures var s := Skip(bucket, k);
            var next' := if k == 0 then next else next[bucket[k - 1] := next[bucket[k]]];
            0 < s[j] < |next'| && next'[s[j]] == After(s, j)
  {
    hide Skip;
    var s := Skip(bucket, k);
    var i := if j < k then j else j + 1;
    assert s[j] == bucket[i] && 0 < bucket[i] < |next|;
    assert next[bucket[i]] == After(bucket, i) && next[bucket[k]] == After(bucket, k);
    if j + 1 == k {
      assert After(s, j) == After(bucket, k);
    } else {
      assert After(s, j) == After(bucket, i);
      assert k == 0 || bucket[i] != bucket[k - 1];
    }
  }

  lemma {:induction false} SortedGrow(t: Graph, ids: set<nat>, buckets: seq<seq<nat>>, gate: Gate)
    requires Sorted(t, ids, buckets)
    ensures Sorted(t + [gate], ids, buckets)
  {
  }

  lemma {:induction false} SortedFree(t: Graph, ids: set<nat>, buckets: seq<seq<nat>>, id: nat)
    requires Sorted(t, ids, buckets) && id < |t| && id !in ids
    ensures Sorted(t[id := Freed], ids, buckets)
  {
  }

  lemma {:induction false} TableWhole(t: Graph, next: seq<nat>, chains: seq<nat>, buckets: seq<seq<nat>>, count: nat,
        sort: bool)
    requires Linked(next, chains, buckets) && Sorted(t, Ands(t), buckets)
    requires Unique(t) && Ordered(t, sort) && count == |Ands(t)|
    ensures TableOk(t, next, chains, buckets, count, sort)
  {
  }

  // ---------------------------------------------------------------- doubling

  /** The chains from bucket `i` on are still intact. */
  ghost predicate Pending(next: seq<nat>, chains: seq<nat>, buckets: seq<seq<nat>>, i: nat) {
    |chains| == |buckets| && forall b ::
    i <= b < |buckets| ==> Chain(chains[b], buckets[b], next) && Distinct(buckets[b])
  }

  /** The nodes moved so far: all of the first `i` buckets, and a part of the next one. */
  ghost predicate Processed(t: Graph, moved: set<nat>, size: nat, i: nat, part: seq<nat>) {
    size > 0 && forall id :: id in moved <==> id in Ands(t) && (HashGate(t[id], size) < i || id in part)
  }

  lemma {:induction false} EmptyTable(t: Graph, next: seq<nat>, chains: seq<nat>, buckets: seq<seq<nat>>)
    requires |chains| == |buckets| > 0
    requires forall b :: 0 <= b < |buckets| ==> chains[b] == 0 && buckets[b] == []
    ensures Linked(next, chains, buckets) && Sorted(t, {}, buckets)
  {
  }

  lemma {:induction false} ChainsFrom(next: seq<nat>, chains: seq<nat>, buckets: seq<seq<nat>>)
    requires Linked(next, chains, buckets)
    ensures Pending(next, chains, buckets, 0)
  {
  }

  lemma {:induction false} ProcessedNone(t: Graph, size: nat)
    requires size > 0
    ensures Processed(t, {}, size, 0, [])
  {
  }

  lemma {:induction false} MoveOne(t: Graph, buckets: seq<seq<nat>>, i: nat, k: nat, moved: set<nat>)
    requires Sorted(t, Ands(t), buckets) && i < |buckets| && k < |buckets[i]| && Distinct(buckets[i])
    requires Processed(t, moved, |buckets|, i, buckets[i][..k])
    ensures var cur := buckets[i][k];
            cur in Ands(t) && cur !in moved && 0 < cur < |t| && HashGate(t[cur], |buckets|) == i
  {
    var cur := buckets[i][k];
    BucketMember(t, Ands(t), buckets, i, cur);
  }

  lemma {:induction false} ProcessedStep(t: Graph, moved: set<nat>, size: nat, i: nat, bucket: seq<nat>, k: nat)
    requires k < |bucket| && Processed(t, moved, size, i, bucket[..k]) && bucket[k] in Ands(t)
    ensures Processed(t, moved + {bucket[k]}, size, i, bucket[..k + 1])
  {
    assert bucket[..k + 1] == bucket[..k] + [bucket[k]];
  }

  lemma {:induction false} MoveFrame(t: Graph, links: seq<nat>, chains: seq<nat>, buckets: seq<seq<nat>>, i: nat,
        k: nat, v: nat)
    requires i < |buckets| && k < |buckets[i]| && Distinct(buckets[i])
    requires Chain(buckets[i][k], buckets[i][k..], links) && Pending(links, chains, buckets, i + 1)
    requires Sorted(t, Ands(t), buckets)
    ensures var links' := links[buckets[i][k] := v];
            && Chain(links[buckets[i][k]], buckets[i][k + 1..], links')
            && Pending(links', chains, buckets, i + 1)
  {
    var rest := buckets[i][k..];
    assert rest[0] == buckets[i][k];
    assert links[rest[0]] == After(rest, 0);
    var rest' := buckets[i][k + 1..];
    forall j | 0 <= j < |rest'|
      ensures 0 < rest'[j] < |links| && links[buckets[i][k] := v][rest'[j]] == After(rest', j)
    {
      assert rest'[j] == rest[j + 1];
      assert links[rest[j + 1]] == After(rest, j + 1);
    }
    forall b | i + 1 <= b < |buckets|
      ensures Chain(chains[b], buckets[b], links[buckets[i][k] := v])
    {
      Disjoint(t, Ands(t), buckets, i, b, buckets[i][k]);
      ChainFrame(chains[b], buckets[b], links, buckets[i][k], v);
    }
  }

  lemma {:induction false} ProcessedBucket(t: Graph, buckets: seq<seq<nat>>, moved: set<nat>, i: nat)
    requires Sorted(t, Ands(t), buckets) && i < |buckets| && Processed(t, moved, |buckets|, i, buckets[i])
    ensures Processed(t, moved, |buckets|, i + 1, [])
  {
    forall id
      ensures id in moved <==> id in Ands(t) && HashGate(t[id], |buckets|) < i + 1
    {
      assert id in buckets[i] <==> id in Ands(t) && HashGate(t[id], |buckets|) == i;
    }
  }

  lemma {:induction false} ProcessedAll(t: Graph, moved: set<nat>, size: nat)
    requires Processed(t, moved, size, size, [])
    ensures moved == Ands(t)
  {
    forall id | id in Ands(t)
      ensures id in moved
    {
      assert HashGate(t[id], size) < size;
    }
  }
}
