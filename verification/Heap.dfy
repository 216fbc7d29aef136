/** The priority queue of build_tree: heap[1..len] holds node numbers. */
module Heap {
  import opened GenCodes

  /** SMALLER: less frequent, or as frequent and no deeper. */
  predicate Smaller(tree: seq<CtData>, depth: seq<nat>, n: nat, m: nat)
    requires n < |tree| && m < |tree| && |tree| <= |depth|
  {
    tree[n].fc < tree[m].fc || (tree[n].fc == tree[m].fc && depth[n] <= depth[m])
  }

  ghost predicate Nodes(heap: seq<nat>, len: nat, n: nat)
  {
    len < |heap| && forall i :: 1 <= i <= len ==> heap[i] < n
  }

  /** Every father from position k on is smaller than its sons. */
  ghost predicate HeapFrom(tree: seq<CtData>, depth: seq<nat>, heap: seq<nat>, len: nat, k: nat)
    requires |tree| <= |depth| && Nodes(heap, len, |tree|)
  {
    forall j :: 2 <= j <= len && j / 2 >= k ==> Smaller(tree, depth, heap[j / 2], heap[j])
  }

  /** The heap property everywhere but below the hole at k, whose sons are in order
      with the father of k. */
  ghost predicate HoleAt(tree: seq<CtData>, depth: seq<nat>, heap: seq<nat>, len: nat, from: nat, k: nat)
    requires |tree| <= |depth| && Nodes(heap, len, |tree|)
  {
    && (forall j :: 2 <= j <= len && j / 2 >= from && j / 2 != k ==> Smaller(tree, depth, heap[j / 2], heap[j]))
    && (forall j :: 2 <= j <= len && j / 2 == k && k / 2 >= from && k / 2 >= 1 ==> Smaller(tree, depth, heap[k / 2], heap[j]))
  }

  /** The nodes in the queue. */
  ghost function Queue(heap: seq<nat>, len: nat): seq<nat>
    requires len < |heap|
  {
    heap[1..len + 1]
  }

  lemma SwapBag(s: seq<nat>, i: nat, j: nat)
    requires i < |s| && j < |s|
    ensures multiset(s[i := s[j]][j := s[i]]) == multiset(s)
  {
  }

  lemma SwapQueue(s: seq<nat>, len: nat, i: nat, j: nat)
    requires len < |s| && 1 <= i <= len && 1 <= j <= len
    ensures multiset(Queue(s[i := s[j]][j := s[i]], len)) == multiset(Queue(s, len))
  {
    var q := Queue(s, len);
    assert Queue(s[i := s[j]][j := s[i]], len) == q[i - 1 := q[j - 1]][j - 1 := q[i - 1]];
    SwapBag(q, i - 1, j - 1);
  }

  lemma HoleStart(tree: seq<CtData>, depth: seq<nat>, s: seq<nat>, len: nat, k: nat)
    requires |tree| <= |depth| && Nodes(s, len, |tree|) && k >= 1
    requires HeapFrom(tree, depth, s, len, k + 1)
    ensures HoleAt(tree, depth, s, len, k, k)
  {
  }

  /** Exchanging the hole with its smaller son j, which is smaller than the node moved down. */
  lemma HoleStep(tree: seq<CtData>, depth: seq<nat>, s: seq<nat>, len: nat, from: nat, k: nat, j: nat)
    requires |tree| <= |depth| && Nodes(s, len, |tree|) && 1 <= from <= k <= len
    requires HoleAt(tree, depth, s, len, from, k) && j / 2 == k && 2 <= j <= len
    requires !Smaller(tree, depth, s[k], s[j])
    requires forall i :: 2 <= i <= len && i / 2 == k ==> Smaller(tree, depth, s[j], s[i])
    ensures Nodes(s[k := s[j]][j := s[k]], len, |tree|)
    ensures HoleAt(tree, depth, s[k := s[j]][j := s[k]], len, from, j)
  {
    var s' := s[k := s[j]][j := s[k]];
    forall i | 2 <= i <= len && i / 2 >= from && i / 2 != j
      ensures Smaller(tree, depth, s'[i / 2], s'[i])
    {
      if i / 2 != k {
        assert Smaller(tree, depth, s[i / 2], s[i]);
        if i == k {
          assert Smaller(tree, depth, s[k / 2], s[j]);
        }
      }
    }
    forall i | 2 <= i <= len && i / 2 == j
      ensures Smaller(tree, depth, s'[j / 2], s'[i])
    {
      assert Smaller(tree, depth, s[i / 2], s[i]);
    }
  }

  lemma HoleEnd(tree: seq<CtData>, depth: seq<nat>, s: seq<nat>, len: nat, from: nat, k: nat)
    requires |tree| <= |depth| && Nodes(s, len, |tree|) && k <= len
    requires HoleAt(tree, depth, s, len, from, k)
    requires forall i :: 2 <= i <= len && i / 2 == k ==> Smaller(tree, depth, s[k], s[i])
    ensures HeapFrom(tree, depth, s, len, from)
  {
  }

  lemma SmallerSon(tree: seq<CtData>, depth: seq<nat>, s: seq<nat>, len: nat, k: nat, j: nat)
    requires |tree| <= |depth| && Nodes(s, len, |tree|) && 1 <= k && 2 * k <= len
    requires j == if 2 * k < len && Smaller(tree, depth, s[2 * k + 1], s[2 * k]) then 2 * k + 1 else 2 * k
    ensures forall i :: 2 <= i <= len && i / 2 == k ==> Smaller(tree, depth, s[j], s[i])
  {
  }

  lemma SmallerTrans(tree: seq<CtData>, depth: seq<nat>, s: seq<nat>, len: nat, k: nat, j: nat)
    requires |tree| <= |depth| && Nodes(s, len, |tree|) && 1 <= k <= len && 1 <= j <= len
    requires Smaller(tree, depth, s[k], s[j])
    requires forall i :: 2 <= i <= len && i / 2 == k ==> Smaller(tree, depth, s[j], s[i])
    ensures forall i :: 2 <= i <= len && i / 2 == k ==> Smaller(tree, depth, s[k], s[i])
  {
  }

  /** Behind start everything is a heap; the node at start sinks until it is one from there
      on. */
  method PqDownHeap(tree: array<CtData>, depth: array<nat>, heap: array<nat>, len: nat, start: nat)
    requires depth != heap && tree.Length <= depth.Length
    requires Nodes(heap[..], len, tree.Length) && 1 <= start <= len
    requires HeapFrom(tree[..], depth[..], heap[..], len, start + 1)
    modifies heap
    ensures Nodes(heap[..], len, tree.Length)
    ensures HeapFrom(tree[..], depth[..], heap[..], len, start)
    ensures multiset(Queue(heap[..], len)) == old(multiset(Queue(heap[..], len)))
    ensures forall i :: 0 <= i < heap.Length && (i < start || i > len) ==> heap[i] == old(heap[i])
  {
    hide Smaller, HoleAt, HeapFrom, Queue;
    var k := start;
    var v := heap[k];
    var j := k * 2;
    ghost var t, d, s := tree[..], depth[..], heap[..];
    ghost var bag := multiset(Queue(s, len));
    assert s[k := v] == s;
    HoleStart(t, d, s, len, start);
    while j <= len
      invariant 1 <= start <= k <= len && j == 2 * k && len < heap.Length
      invariant tree[..] == t && depth[..] == d && |s| == heap.Length
      invariant s == heap[..][k := v] && Nodes(s, len, |t|)
      invariant multiset(Queue(s, len)) == bag
      invariant forall i :: 0 <= i < |s| && (i < start || i > len) ==> s[i] == old(heap[i])
      invariant HoleAt(t, d, s, len, start, k)
    {
      assert s[j] == heap[j] && (j < len ==> s[j + 1] == heap[j + 1]);
      if j < len && Smaller(tree[..], depth[..], heap[j + 1], heap[j]) {
        j := j + 1;
      }
      SmallerSon(t, d, s, len, k, j);
      if Smaller(tree[..], depth[..], v, heap[j]) {
        SmallerTrans(t, d, s, len, k, j);
        break;
      }
      HoleStep(t, d, s, len, start, k, j);
      SwapQueue(s, len, k, j);
      heap[k] := heap[j];
      s := s[k := s[j]][j := v];
      k := j;
      j := j * 2;
    }
    HoleEnd(t, d, s, len, start, k);
    heap[k] := v;
    assert heap[..] == s;
  }

  /** The first of the queue is smallest. */
  lemma {:induction false} FirstIsSmallest(tree: seq<CtData>, depth: seq<nat>, heap: seq<nat>, len: nat, i: nat)
    requires |tree| <= |depth| && Nodes(heap, len, |tree|) && 1 <= i <= len
    requires HeapFrom(tree, depth, heap, len, 1)
    ensures Smaller(tree, depth, heap[1], heap[i])
  {
    if i > 1 {
      FirstIsSmallest(tree, depth, heap, len, i / 2);
      assert Smaller(tree, depth, heap[i / 2], heap[i]);
    }
  }
}
