/** build_tree: one Huffman tree, its code lengths and its codes. */
module BuildTree {
  import opened Bits
  import opened Canonical
  import opened Sums
  import opened HuffmanCost
  import opened HuffmanTree
  import opened GenCodes
  import opened FirstPass
  import opened Relength
  import opened CodeLengths
  import opened Heap
  import opened Merging
  import opened ForcedCodes
  import opened HuffmanOptimal
  import opened HuffmanHeight
  import opened TreeHeight

  /** The queue in front and the nodes taken off it at the back of the heap array. */
  ghost predicate Layout(heap: seq<nat>, len: nat, heapMax: nat, order: seq<nat>)
  {
    && InHeap(heap, heapMax, order) && 1 <= len < heapMax
  }

  /** PQREMOVE: take the smallest node off the queue. */
  method TakeSmallest(tree: array<CtData>, depth: array<nat>, heap: array<nat>, len: nat) returns (top: nat)
    requires depth != heap && tree.Length <= depth.Length && len >= 2
    requires Nodes(heap[..], len, tree.Length) && HeapFrom(tree[..], depth[..], heap[..], len, 1)
    modifies heap
    ensures Nodes(heap[..], len - 1, tree.Length) && HeapFrom(tree[..], depth[..], heap[..], len - 1, 1)
    ensures top < tree.Length
    ensures forall x :: x in old(Queue(heap[..], len)) ==> x < tree.Length && Smaller(tree[..], depth[..], top, x)
    ensures old(multiset(Queue(heap[..], len))) == multiset(Queue(heap[..], len - 1)) + multiset{top}
    ensures forall i :: len < i < heap.Length ==> heap[i] == old(heap[i])
  {
    hide Smaller, HeapFrom;
    top := heap[1];
    ghost var s := heap[..];
    forall x | x in Queue(s, len) ensures x < tree.Length && Smaller(tree[..], depth[..], top, x) {
      var i :| 0 <= i < len && Queue(s, len)[i] == x;
      assert s[i + 1] == x;
      FirstIsSmallest(tree[..], depth[..], s, len, i + 1);
    }
    heap[1] := heap[len];
    assert heap[..] == s[1 := s[len]];
    LastToFront(tree[..], depth[..], s, len);
    PqDownHeap(tree, depth, heap, len - 1, 1);
  }

  lemma SmallerFreq(tree: seq<CtData>, depth: seq<nat>, n: nat, m: nat)
    requires n < |tree| && m < |tree| && |tree| <= |depth| && Smaller(tree, depth, n, m)
    ensures tree[n].fc <= tree[m].fc
  {
  }

  lemma LastToFront(tree: seq<CtData>, depth: seq<nat>, s: seq<nat>, len: nat)
    requires |tree| <= |depth| && Nodes(s, len, |tree|) && HeapFrom(tree, depth, s, len, 1) && len >= 2
    ensures Nodes(s[1 := s[len]], len - 1, |tree|)
    ensures HeapFrom(tree, depth, s[1 := s[len]], len - 1, 2)
    ensures multiset(Queue(s, len)) == multiset(Queue(s[1 := s[len]], len - 1)) + multiset{s[1]}
  {
    var mid := s[2..len];
    assert Queue(s, len) == [s[1]] + mid + [s[len]];
    assert Queue(s[1 := s[len]], len - 1) == [s[len]] + mid;
  }

  /** Take down n and m in the order of removal and make the node their father. */
  method LinkNode(tree: array<CtData>, depth: array<nat>, heap: array<nat>, heapMax: nat, node: nat, n: nat, m: nat)
    requires depth != heap && tree.Length <= depth.Length && tree.Length <= 0x10000
    requires 3 <= heapMax <= heap.Length && node < tree.Length
    requires n < node && m < node && n != m && tree[n].fc + tree[m].fc < 0x10000
    modifies tree, depth, heap
    ensures heap[..] == old(heap[..])[heapMax - 1 := n][heapMax - 2 := m][1 := node]
    ensures depth[..] == old(depth[..])[node := FatherDepth(old(depth[..]), n, m)]
    ensures tree[..] == MergedTree(old(tree[..]), n, m, node)
  {
    heap[heapMax - 1] := n;
    heap[heapMax - 2] := m;
    tree[node] := tree[node].(fc := tree[n].fc + tree[m].fc);
    depth[node] := ((if depth[n] >= depth[m] then depth[n] else depth[m]) + 1) % 0x100;
    tree[m] := tree[m].(dl := node);
    tree[n] := tree[n].(dl := node);
    heap[1] := node;
  }

  /** What holds of the nodes in the queue and of those taken off it. */
  ghost predicate QueueOk(tree: seq<CtData>, q: seq<nat>, order: seq<nat>, freq: seq<nat>, elems: nat, j: nat,
                          total: nat, all: nat)
  {
    && elems <= |freq| && Merged(tree, q, order, Active(freq, elems), elems, j)
    && Below(q, |tree|) && Below(order, |tree|)
    && Sorted(Freqs(tree), q, order) && Paying(Freqs(tree), q, elems, j, total, all)
  }

  lemma QueueOkParts(tree: seq<CtData>, q: seq<nat>, order: seq<nat>, freq: seq<nat>, elems: nat, j: nat, total: nat, all: nat)
    requires QueueOk(tree, q, order, freq, elems, j, total, all)
    ensures elems <= |freq| && Merged(tree, q, order, Active(freq, elems), elems, j)
    ensures Below(q, |tree|) && Below(order, |tree|)
    ensures Sorted(Freqs(tree), q, order) && Paying(Freqs(tree), q, elems, j, total, all)
  {
  }

  /** Take the two lightest nodes off the queue and put the node that becomes their father
      at its root. */
  method TakeTwo(tree: array<CtData>, depth: array<nat>, heap: array<nat>, len: nat, heapMax: nat, node: nat,
                 ghost order: seq<nat>, ghost freq: seq<nat>, ghost elems: nat, ghost j: nat,
                 ghost total: nat, ghost all: nat)
      returns (ghost n: nat, ghost m: nat, ghost rest: seq<nat>)
    requires depth != heap && tree.Length <= depth.Length && tree.Length <= 0x10000 && len >= 2
    requires elems <= |freq| && node == elems + j && len + j == |Active(freq, elems)|
    requires Layout(heap[..], len, heapMax, order) && heapMax >= len + 2
    requires Nodes(heap[..], len, tree.Length) && HeapFrom(tree[..], depth[..], heap[..], len, 1)
    requires QueueOk(tree[..], Queue(heap[..], len), order, freq, elems, j, total, all) && total < 0x10000
    modifies tree, depth, heap
    ensures Lightest(old(tree[..]), old(Queue(heap[..], len)), n, m, rest, node)
    ensures FirstTwo(old(tree[..]), old(depth[..]), n, m, rest)
    ensures tree[..] == MergedTree(old(tree[..]), n, m, node)
    ensures depth[..] == old(depth[..])[node := FatherDepth(old(depth[..]), n, m)]
    ensures Layout(heap[..], len - 1, heapMax - 2, order + [n, m])
    ensures Nodes(heap[..], len - 1, tree.Length) && HeapFrom(tree[..], depth[..], heap[..], len - 1, 2)
    ensures multiset(Queue(heap[..], len - 1)) == multiset(rest + [node])
  {
    hide Smaller, HeapFrom, Merged, Sorted, Paying, Active, MergedTree, Queue, Layout, Nodes, QueueOk, FatherDepth;
    LayoutKept(heap[..], heap[..], len, heapMax, order);
    QueueOkParts(tree[..], Queue(heap[..], len), order, freq, elems, j, total, all);
    ghost var t, d, h0 := tree[..], depth[..], heap[..];
    ghost var q := Queue(h0, len);
    var top := TakeSmallest(tree, depth, heap, len);
    var next := heap[1];
    n, m := top, next;
    ghost var h := heap[..];
    rest := h[2..len];
    LayoutKept(h0, h, len, heapMax, order);
    MergedBelow(t, q, order, Active(freq, elems), elems, j);
    TakenOrder(t, d, h, len, q, n, m, rest);
    TakenFacts(t, d, q, order, freq, elems, j, n, m, rest, total, all);
    NewRoot(t, d, h, len, heapMax, order, n, m, node, FatherDepth(d, n, m));
    LinkNode(tree, depth, heap, heapMax, node, top, next);
    RootBag(node, rest);
  }

  lemma RootBag(node: nat, rest: seq<nat>)
    ensures multiset([node] + rest) == multiset(rest + [node])
  {
  }

  /** A new node of the combined frequency takes the place of n and m in the queue. */
  method MergeOnce(tree: array<CtData>, depth: array<nat>, heap: array<nat>, len: nat, heapMax: nat, node: nat,
                   ghost order: seq<nat>, ghost freq: seq<nat>, ghost elems: nat, ghost j: nat,
                   ghost total: nat, ghost all: nat, ghost final: nat)
      returns (ghost n: nat, ghost m: nat)
    requires depth != heap && tree.Length <= depth.Length && tree.Length <= 0x10000 && len >= 2
    requires elems <= |freq| && node == elems + j && len + j == |Active(freq, elems)|
    requires Layout(heap[..], len, heapMax, order) && heapMax >= len + 2
    requires Nodes(heap[..], len, tree.Length) && HeapFrom(tree[..], depth[..], heap[..], len, 1)
    requires QueueOk(tree[..], Queue(heap[..], len), order, freq, elems, j, total, all) && total < 0x10000
    requires Levels(tree[..], depth[..], Queue(heap[..], len), final) && Rising(depth[..], order, elems, j)
    modifies tree, depth, heap
    ensures Levels(tree[..], depth[..], Queue(heap[..], len - 1), final)
    ensures Rising(depth[..], order + [n, m], elems, j + 1)
    ensures Layout(heap[..], len - 1, heapMax - 2, order + [n, m])
    ensures Nodes(heap[..], len - 1, tree.Length) && HeapFrom(tree[..], depth[..], heap[..], len - 1, 1)
    ensures QueueOk(tree[..], Queue(heap[..], len - 1), order + [n, m], freq, elems, j + 1, total, all)
    ensures node < tree.Length && n < node && m < node
    ensures n in old(Queue(heap[..], len)) && m in old(Queue(heap[..], len))
    ensures old(tree[n].fc + tree[m].fc) < 0x10000 && tree[..] == MergedTree(old(tree[..]), n, m, node)
  {
    hide Smaller, HeapFrom, Merged, Sorted, Paying, Active, MergedTree, Queue, Layout, Nodes, QueueOk, Lightest, FirstTwo, Levels, Rising, FatherDepth;
    LayoutKept(heap[..], heap[..], len, heapMax, order);
    ghost var t, d, q := tree[..], depth[..], Queue(heap[..], len);
    ghost var rest;
    n, m, rest := TakeTwo(tree, depth, heap, len, heapMax, node, order, freq, elems, j, total, all);
    LightestFacts(t, q, n, m, rest, node);
    ghost var root := heap[..];
    PqDownHeap(tree, depth, heap, len - 1, 1);
    LayoutKept(root, heap[..], len - 1, heapMax - 2, order + [n, m]);
    Assemble(t, q, order, freq, elems, j, n, m, rest, Queue(heap[..], len - 1), total, all);
    LevelsStep(t, d, q, final, n, m, rest, Queue(heap[..], len - 1), node);
    RisingStep(t, d, q, final, order, elems, j, n, m);
  }

  /** The first two of the queue, in order with the rest. */
  lemma TakenOrder(t: seq<CtData>, d: seq<nat>, h: seq<nat>, len: nat, q: seq<nat>, n: nat, m: nat, rest: seq<nat>)
    requires |t| <= |d| && len >= 2 && Nodes(h, len - 1, |t|) && HeapFrom(t, d, h, len - 1, 1)
    requires n < |t| && m == h[1] && len <= |h| && rest == h[2..len]
    requires multiset(q) == multiset(Queue(h, len - 1)) + multiset{n}
    requires forall x :: x in q ==> x < |t| && Smaller(t, d, n, x)
    ensures FirstTwo(t, d, n, m, rest) && multiset(q) == multiset(rest + [n, m]) && m in q
  {
    hide HeapFrom, Smaller;
    assert Queue(h, len - 1) == [m] + rest;
    BagOfRest(q, n, m, rest, Queue(h, len - 1));
    assert m in multiset(rest + [n, m]) && m in multiset(q);
    RestLater(t, d, h, len, rest);
  }

  lemma FirstTwoLight(t: seq<CtData>, d: seq<nat>, n: nat, m: nat, rest: seq<nat>)
    requires FirstTwo(t, d, n, m, rest)
    ensures n < |t| && m < |t| && t[n].fc <= t[m].fc
    ensures forall i :: 0 <= i < |rest| ==> rest[i] < |t| && t[m].fc <= t[rest[i]].fc
  {
    forall i | 0 <= i < |rest| ensures rest[i] < |t| && t[m].fc <= t[rest[i]].fc {
      assert Smaller(t, d, m, rest[i]);
    }
  }

  /** The two smallest nodes and the rest of the queue. */
  lemma TakenFacts(t: seq<CtData>, d: seq<nat>, q: seq<nat>, order: seq<nat>, freq: seq<nat>,
                   elems: nat, j: nat, n: nat, m: nat, rest: seq<nat>, total: nat, all: nat)
    requires elems <= |freq| && FirstTwo(t, d, n, m, rest) && multiset(q) == multiset(rest + [n, m])
    requires Merged(t, q, order, Active(freq, elems), elems, j)
    requires Paying(Freqs(t), q, elems, j, total, all)
    ensures m < |t| && t[n].fc <= t[m].fc && t[n].fc + t[m].fc <= total
    ensures Below(rest, elems + j) && forall i :: 0 <= i < |rest| ==> rest[i] < |t| && t[m].fc <= t[rest[i]].fc
    ensures n < elems + j && m < elems + j && n in q && m in q && n != m
    ensures n !in multiset(order) && m !in multiset(order) && elems + j < |t|
  {
    hide HuffmanSum, SumOver, Active, Smaller, Paying, Merged, FirstTwo;
    MergedBelow(t, q, order, Active(freq, elems), elems, j);
    MergeBags(q, order, n, m, rest, rest + [elems + j], elems + j);
    assert n in q && m in q;
    RestBelow(q, n, m, rest, elems + j);
    FirstTwoLight(t, d, n, m, rest);
    BagNotTwice(multiset(q), multiset(order), freq, elems, j, n);
    BagNotTwice(multiset(q), multiset(order), freq, elems, j, m);
    PayingTotal(Freqs(t), q, elems, j, total, all);
    WeightBound(Freqs(t), q, n, m, rest, total);
  }

  lemma RestBelow(q: seq<nat>, n: nat, m: nat, rest: seq<nat>, bound: nat)
    requires multiset(q) == multiset(rest + [n, m]) && Below(q, bound)
    ensures Below(rest, bound)
  {
    forall i | 0 <= i < |rest| ensures rest[i] < bound {
      assert (rest + [n, m])[i] == rest[i];
      assert rest[i] in multiset(q);
      assert rest[i] in q;
    }
  }

  /** The rest of the queue is no lighter than its first node. */
  lemma RestLater(t: seq<CtData>, d: seq<nat>, h: seq<nat>, len: nat, rest: seq<nat>)
    requires |t| <= |d| && 2 <= len <= |h| && Nodes(h, len - 1, |t|) && HeapFrom(t, d, h, len - 1, 1) && rest == h[2..len]
    ensures h[1] < |t| && forall i :: 0 <= i < |rest| ==> rest[i] < |t| && t[h[1]].fc <= t[rest[i]].fc
    ensures forall i :: 0 <= i < |rest| ==> Smaller(t, d, h[1], rest[i])
  {
    hide HeapFrom, Smaller;
    forall i | 0 <= i < |rest| ensures rest[i] < |t| && t[h[1]].fc <= t[rest[i]].fc && Smaller(t, d, h[1], rest[i]) {
      assert rest[i] == h[2 + i];
      FirstIsSmallest(t, d, h, len - 1, 2 + i);
      SmallerFreq(t, d, h[1], h[2 + i]);
    }
  }

  lemma BagOfRest(q: seq<nat>, n: nat, m: nat, rest: seq<nat>, q1: seq<nat>)
    requires q1 == [m] + rest && multiset(q) == multiset(q1) + multiset{n}
    ensures multiset(q) == multiset(rest + [n, m])
  {
    assert multiset([m] + rest) == multiset{m} + multiset(rest);
    assert multiset(rest + [n, m]) == multiset(rest) + multiset{n, m};
  }

  lemma PayingTotal(w: seq<nat>, q: seq<nat>, elems: nat, j: nat, total: nat, all: nat)
    requires Paying(w, q, elems, j, total, all)
    ensures Below(q, |w|) && SumOver(q, AsInts(w)) == total
  {
  }

  lemma MergedBelow(t: seq<CtData>, q: seq<nat>, order: seq<nat>, act: seq<nat>, elems: nat, j: nat)
    requires Merged(t, q, order, act, elems, j)
    ensures Below(q, elems + j) && Below(order, elems + j) && Below(q, |t|) && Below(order, |t|)
    ensures |q| + j == |act| && elems + |act| <= |t| && |q| >= 1
    ensures multiset(q) + multiset(order) == multiset(act) + multiset(Range(elems, elems + j))
  {
  }

  lemma WeightBound(w: seq<nat>, q: seq<nat>, n: nat, m: nat, rest: seq<nat>, total: nat)
    requires Below(q, |w|) && Below(rest, |w|) && n < |w| && m < |w|
    requires multiset(q) == multiset(rest + [n, m]) && SumOver(q, AsInts(w)) == total
    ensures w[n] + w[m] <= total
  {
    assert rest + [n, m] == (rest + [n]) + [m];
    SumAppend(rest, n, AsInts(w));
    SumAppend(rest + [n], m, AsInts(w));
    SumPermutation(q, rest + [n, m], AsInts(w));
    SumNonNegative(rest, AsInts(w));
  }

  /** With the new node at its root, the queue is in order but for the root. */
  lemma NewRoot(t: seq<CtData>, d: seq<nat>, h: seq<nat>, len: nat, heapMax: nat, order: seq<nat>,
                n: nat, m: nat, node: nat, newDepth: nat)
    requires node < |t| <= |d| && |t| <= 0x10000 && len >= 2 && heapMax >= len + 2
    requires Layout(h, len, heapMax, order) && Nodes(h, len - 1, |t|) && HeapFrom(t, d, h, len - 1, 1)
    requires n < |t| && m < |t| && n != node && m != node && t[n].fc + t[m].fc < 0x10000
    requires m == h[1] && m < node && Below(h[2..len], node)
    ensures var h' := h[heapMax - 1 := n][heapMax - 2 := m][1 := node];
            && Layout(h', len - 1, heapMax - 2, order + [n, m])
            && Nodes(h', len - 1, |t|)
            && HeapFrom(MergedTree(t, n, m, node), d[node := newDepth], h', len - 1, 2)
            && Queue(h', len - 1) == [node] + h[2..len]
  {
    var h' := h[heapMax - 1 := n][heapMax - 2 := m][1 := node];
    var t', d' := MergedTree(t, n, m, node), d[node := newDepth];
    forall i | 2 <= i < len ensures h[i] < node {
      assert h[i] == h[2..len][i - 2];
    }
    forall j | 2 <= j <= len - 1 && j / 2 >= 2
      ensures Smaller(t', d', h'[j / 2], h'[j])
    {
      assert Smaller(t, d, h[j / 2], h[j]);
    }
  }

  lemma LayoutKept(h: seq<nat>, h': seq<nat>, len: nat, heapMax: nat, order: seq<nat>)
    requires Layout(h, len, heapMax, order) && |h'| == |h|
    requires forall i :: len < i < |h| ==> h'[i] == h[i]
    ensures Layout(h', len, heapMax, order) && |h'| == HEAP_SIZE && heapMax + |order| == HEAP_SIZE
  {
    forall i | 0 <= i < |order| ensures h'[HEAP_SIZE - 1 - i] == order[i] {
      assert h[HEAP_SIZE - 1 - i] == order[i];
    }
  }

  /** What a merge keeps. */
  lemma {:induction false} Assemble(t: seq<CtData>, q: seq<nat>, order: seq<nat>, freq: seq<nat>, elems: nat, j: nat,
                 n: nat, m: nat, rest: seq<nat>, q': seq<nat>, total: nat, all: nat)
    requires |t| <= 0x10000 && QueueOk(t, q, order, freq, elems, j, total, all)
    requires Lightest(t, q, n, m, rest, elems + j)
    requires multiset(q') == multiset(rest + [elems + j]) && |q'| >= 1
    ensures QueueOk(MergedTree(t, n, m, elems + j), q', order + [n, m], freq, elems, j + 1, total, all)
  {
    hide Merged, Sorted, Paying, Active, MergedTree;
    MergedBelow(t, q, order, Active(freq, elems), elems, j);
    MergeStep(t, q, order, freq, elems, j, n, m, rest, q');
    MergedFreqs(t, n, m, elems + j);
    SortedStep(Freqs(t), q, order, n, m, rest, q', elems + j);
    PayingStep(Freqs(t), q, elems, j, total, all, n, m, rest, q');
  }

  /** From the back to the front, each node becomes the root of a heap. */
  method Heapify(tree: array<CtData>, depth: array<nat>, heap: array<nat>, len: nat)
    requires depth != heap && tree.Length <= depth.Length && len >= 2
    requires Nodes(heap[..], len, tree.Length)
    modifies heap
    ensures Nodes(heap[..], len, tree.Length) && HeapFrom(tree[..], depth[..], heap[..], len, 1)
    ensures multiset(Queue(heap[..], len)) == old(multiset(Queue(heap[..], len)))
    ensures forall i :: len < i < heap.Length ==> heap[i] == old(heap[i])
  {
    hide Smaller, Queue;
    var n := len / 2;
    while n >= 1
      invariant 0 <= n <= len / 2
      invariant Nodes(heap[..], len, tree.Length) && HeapFrom(tree[..], depth[..], heap[..], len, n + 1)
      invariant multiset(Queue(heap[..], len)) == old(multiset(Queue(heap[..], len)))
      invariant forall i :: len < i < heap.Length ==> heap[i] == old(heap[i])
    {
      PqDownHeap(tree, depth, heap, len, n);
      n := n - 1;
    }
  }

  /** Everything the merge loop keeps, on values. */
  ghost predicate MergeState(t0: seq<CtData>, tree: seq<CtData>, q: seq<nat>, order: seq<nat>, elems: nat, j: nat,
                             total: nat, all: nat)
  {
    && elems <= |t0| == |tree| <= 0x10000
    && QueueOk(tree, q, order, Freqs(t0), elems, j, total, all)
    && (forall x :: 0 <= x < elems ==> tree[x].fc == t0[x].fc)
    && (forall x :: 0 <= x < elems && t0[x].fc == 0 ==> tree[x].dl == 0)
  }

  lemma {:induction false} MergeStart(t0: seq<CtData>, heap: seq<nat>, len: nat, q: seq<nat>, elems: nat, maxCode: int, total: nat, all: nat)
    requires Filled(t0, heap, len, elems, maxCode) && len >= 1 && |t0| <= 0x10000
    requires multiset(q) == multiset(Queue(heap, len)) && elems + len <= |t0|
    requires total == SumOver(Active(Freqs(t0), elems), AsInts(Freqs(t0)))
    requires all == HuffmanSum(multiset(WeightsOf(Active(Freqs(t0), elems), Freqs(t0))))
    ensures MergeState(t0, t0, q, [], elems, 0, total, all) && |q| == len
  {
    hide HuffmanSum, SumOver;
    var w := Freqs(t0);
    var act := Active(w, elems);
    assert |multiset(q)| == |q| && |multiset(act)| == |act|;
    forall i | 0 <= i < |q| ensures q[i] < elems {
      assert q[i] in multiset(q);
      assert q[i] in multiset(act);
      assert q[i] in act;
    }
    assert Range(elems, elems) == [];
    SumPermutation(q, act, AsInts(w));
    WeightsPermutation(q, act, w);
    SumZero(Range(elems, elems), AsInts(w));
  }

  lemma {:induction false} MergeStateStep(t0: seq<CtData>, tree: seq<CtData>, q: seq<nat>, order: seq<nat>, elems: nat, j: nat,
                         total: nat, all: nat, n: nat, m: nat, q': seq<nat>)
    requires MergeState(t0, tree, q, order, elems, j, total, all)
    requires n in q && m in q && n < elems + j && m < elems + j && elems + j < |tree|
    requires tree[n].fc + tree[m].fc < 0x10000
    requires QueueOk(MergedTree(tree, n, m, elems + j), q', order + [n, m], Freqs(t0), elems, j + 1, total, all)
    ensures MergeState(t0, MergedTree(tree, n, m, elems + j), q', order + [n, m], elems, j + 1, total, all)
  {
    hide Sorted, Paying, HuffmanSum, SumOver;
    QueueActive(t0, tree, q, order, elems, j, n);
    QueueActive(t0, tree, q, order, elems, j, m);
  }

  lemma {:induction false} QueueActive(t0: seq<CtData>, tree: seq<CtData>, q: seq<nat>, order: seq<nat>, elems: nat, j: nat, x: nat)
    requires elems <= |t0| && Merged(tree, q, order, Active(Freqs(t0), elems), elems, j) && x in q
    ensures x < elems ==> t0[x].fc > 0
  {
    if x < elems {
      var act: seq<nat>, inner: seq<nat> := Active(Freqs(t0), elems), Range(elems, elems + j);
      assert x !in inner;
      assert (multiset(q) + multiset(order))[x] == (multiset(act) + multiset(inner))[x];
      assert multiset(q)[x] > 0 && multiset(inner)[x] == 0;
      assert x in multiset(act);
      ActiveMembers(Freqs(t0), elems, x);
    }
  }

  /** Combine the two least frequent nodes until one is left; of equally frequent ones those
      with lower trees. */
  method MergeAll(tree: array<CtData>, depth: array<nat>, heap: array<nat>, len0: nat, elems: nat,
                  ghost t0: seq<CtData>, ghost total: nat, ghost all: nat, ghost final: nat)
      returns (heapMax: nat, ghost order: seq<nat>, ghost k: nat)
    requires depth != heap && tree.Length <= depth.Length && heap.Length == HEAP_SIZE
    requires 2 <= len0 <= elems <= 286 && elems <= |t0| && len0 == |Active(Freqs(t0), elems)|
    requires Nodes(heap[..], len0, tree.Length) && HeapFrom(tree[..], depth[..], heap[..], len0, 1)
    requires t0 == tree[..] && MergeState(t0, tree[..], Queue(heap[..], len0), [], elems, 0, total, all)
    requires Levels(tree[..], depth[..], Queue(heap[..], len0), final)
    requires total < 0x10000
    modifies tree, depth, heap
    ensures k == len0 - 1 && InHeap(heap[..], heapMax, order)
    ensures |order| == 2 * k + 1 && Below(order, tree.Length)
    ensures MergeState(t0, tree[..], [order[2 * k]], order[..2 * k], elems, k, total, all)
    ensures Levels(tree[..], depth[..], [order[2 * k]], final) && Rising(depth[..], order[..2 * k], elems, k)
  {
    hide Smaller, HeapFrom, Queue, MergeState, QueueOk, Levels, Rising, Merged, Sorted, Paying, Active;
    var left;
    left, order, k := MergeLoop(tree, depth, heap, len0, elems, t0, total, all, final);
    heapMax := left - 1;
    ghost var h, done := heap[..], order;
    LastOne(h, left, done);
    heap[heapMax] := heap[1];
    order := done + [h[1]];
    assert order[..2 * k] == done;
    MergeStateParts(t0, tree[..], [h[1]], done, elems, k, total, all);
  }

  /** The last node goes to the others. */
  lemma LastOne(h: seq<nat>, heapMax: nat, order: seq<nat>)
    requires Layout(h, 1, heapMax, order)
    ensures Queue(h, 1) == [h[1]] && InHeap(h[heapMax - 1 := h[1]], heapMax - 1, order + [h[1]])
  {
  }

  method MergeLoop(tree: array<CtData>, depth: array<nat>, heap: array<nat>, len0: nat, elems: nat,
                   ghost t0: seq<CtData>, ghost total: nat, ghost all: nat, ghost final: nat)
      returns (heapMax: nat, ghost order: seq<nat>, ghost j: nat)
    requires depth != heap && tree.Length <= depth.Length && heap.Length == HEAP_SIZE
    requires 2 <= len0 <= elems <= 286 && elems <= |t0| && len0 == |Active(Freqs(t0), elems)|
    requires Nodes(heap[..], len0, tree.Length) && HeapFrom(tree[..], depth[..], heap[..], len0, 1)
    requires t0 == tree[..] && MergeState(t0, tree[..], Queue(heap[..], len0), [], elems, 0, total, all)
    requires Levels(tree[..], depth[..], Queue(heap[..], len0), final)
    requires total < 0x10000
    modifies tree, depth, heap
    ensures j == len0 - 1 && |order| == 2 * j && heapMax == HEAP_SIZE - 2 * j && Layout(heap[..], 1, heapMax, order)
    ensures MergeState(t0, tree[..], Queue(heap[..], 1), order, elems, j, total, all)
    ensures Levels(tree[..], depth[..], Queue(heap[..], 1), final) && Rising(depth[..], order, elems, j)
  {
    hide Smaller, HeapFrom, Merged, Sorted, Paying, Active, MergedTree, Queue, MergeState, HuffmanSum, QueueOk, Levels, Rising;
    heapMax := HEAP_SIZE;
    order := [];
    var len := len0;
    var node := elems;
    j := 0;
    NothingRises(tree[..], depth[..], Queue(heap[..], len0), elems, final);
    while len >= 2
      invariant 1 <= len <= len0 && len + j == len0 && node == elems + j && heapMax == HEAP_SIZE - 2 * j
      invariant Layout(heap[..], len, heapMax, order) && |order| == 2 * j
      invariant Nodes(heap[..], len, tree.Length) && HeapFrom(tree[..], depth[..], heap[..], len, 1)
      invariant MergeState(t0, tree[..], Queue(heap[..], len), order, elems, j, total, all)
      invariant Levels(tree[..], depth[..], Queue(heap[..], len), final) && Rising(depth[..], order, elems, j)
    {
      ghost var t, q := tree[..], Queue(heap[..], len);
      MergeStateParts(t0, t, q, order, elems, j, total, all);
      ghost var n, m := MergeOnce(tree, depth, heap, len, heapMax, node, order, Freqs(t0), elems, j, total, all, final);
      QueueOkParts(tree[..], Queue(heap[..], len - 1), order + [n, m], Freqs(t0), elems, j + 1, total, all);
      MergedBelow(tree[..], Queue(heap[..], len - 1), order + [n, m], Active(Freqs(t0), elems), elems, j + 1);
      MergeStateStep(t0, t, q, order, elems, j, total, all, n, m, Queue(heap[..], len - 1));
      order := order + [n, m];
      len := len - 1;
      heapMax := heapMax - 2;
      node := node + 1;
      j := j + 1;
    }
  }

  lemma NothingRises(t: seq<CtData>, d: seq<nat>, q: seq<nat>, elems: nat, final: nat)
    requires Levels(t, d, q, final) && elems <= |t|
    ensures Rising(d, [], elems, 0)
  {
    hide FinalHeight;
  }

  lemma MergeStateParts(t0: seq<CtData>, tree: seq<CtData>, q: seq<nat>, order: seq<nat>, elems: nat, j: nat, total: nat, all: nat)
    requires MergeState(t0, tree, q, order, elems, j, total, all)
    ensures elems <= |t0| == |tree| <= 0x10000 && QueueOk(tree, q, order, Freqs(t0), elems, j, total, all)
    ensures Merged(tree, q, order, Active(Freqs(t0), elems), elems, j)
    ensures Below(q, |tree|) && Below(order, |tree|)
    ensures Sorted(Freqs(tree), q, order) && Paying(Freqs(tree), q, elems, j, total, all)
  {
  }

  /** When one node is left, the nodes as they were taken off are a Huffman tree. */
  lemma {:induction false} MergeEnd(t0: seq<CtData>, tree: seq<CtData>, order: seq<nat>, elems: nat, k: nat, total: nat, all: nat)
    requires k >= 1 && |order| == 2 * k + 1
    requires MergeState(t0, tree, [order[2 * k]], order[..2 * k], elems, k, total, all)
    ensures elems <= |t0| == |tree| && elems + k <= |tree| && Below(order, |tree|) && MergeOrder(order, Freqs(tree), Active(Freqs(tree), elems), elems, k)
    ensures Active(Freqs(tree), elems) == Active(Freqs(t0), elems)
    ensures SumOver(Range(elems, elems + k), AsInts(Freqs(tree))) == all
    ensures forall i, j :: 0 <= i < j < |order| ==> tree[order[i]].fc <= tree[order[j]].fc
    ensures forall i :: 0 <= i < 2 * k ==> tree[order[i]].dl == elems + i / 2
    ensures forall x :: 0 <= x < elems ==> tree[x].fc == t0[x].fc
    ensures forall x :: 0 <= x < elems && t0[x].fc == 0 ==> tree[x].dl == 0
  {
    hide SumOver, HuffmanSum, Sorted, Paying, Merged, MergeOrder, Active;
    var w := Freqs(tree);
    ActiveSame(Freqs(t0), w, elems);
    MergedIsOrder(tree, order, Active(w, elems), elems, k);
    SortedOrder(w, order, k);
    AllPaid(w, order[2 * k], elems, k, total, all);
  }

  lemma MergedIsOrder(tree: seq<CtData>, order: seq<nat>, act: seq<nat>, elems: nat, k: nat)
    requires k >= 1 && |order| == 2 * k + 1 && Merged(tree, [order[2 * k]], order[..2 * k], act, elems, k)
    ensures MergeOrder(order, Freqs(tree), act, elems, k)
    ensures forall i :: 0 <= i < 2 * k ==> tree[order[i]].dl == elems + i / 2
  {
    var root, done, w := order[2 * k], order[..2 * k], Freqs(tree);
    assert order == done + [root];
    LastIsRoot(act, done, root, elems, k);
    assert multiset(order) == multiset(done) + multiset{root};
    assert multiset([root]) == multiset{root};
    forall i | 0 <= i < 2 * k ensures order[i] == done[i] {
    }
    forall j | 0 <= j < k ensures w[elems + j] == w[order[2 * j]] + w[order[2 * j + 1]] {
      assert tree[elems + j].fc == tree[done[2 * j]].fc + tree[done[2 * j + 1]].fc;
    }
  }

  lemma SortedOrder(w: seq<nat>, order: seq<nat>, k: nat)
    requires |order| == 2 * k + 1 && Below(order, |w|)
    requires Sorted(w, [order[2 * k]], order[..2 * k])
    ensures forall i, j :: 0 <= i < j < |order| ==> w[order[i]] <= w[order[j]]
  {
    var done := order[..2 * k];
    forall i, j | 0 <= i < j < |order| ensures w[order[i]] <= w[order[j]] {
      assert done[i] == order[i];
      assert j < 2 * k ==> done[j] == order[j];
      assert [order[2 * k]][0] == order[2 * k];
    }
  }

  lemma AllPaid(w: seq<nat>, root: nat, elems: nat, k: nat, total: nat, all: nat)
    requires Paying(w, [root], elems, k, total, all)
    ensures elems + k <= |w| && SumOver(Range(elems, elems + k), AsInts(w)) == all
  {
    hide SumOver;
    assert WeightsOf([root], w) == [w[root]];
    assert |multiset([w[root]])| == 1;
  }

  lemma LastIsRoot(act: seq<nat>, done: seq<nat>, root: nat, elems: nat, k: nat)
    requires k >= 1 && |done| == 2 * k && forall i :: 0 <= i < 2 * k ==> done[i] < elems + i / 2
    requires multiset([root]) + multiset(done) == multiset(act) + multiset(Range(elems, elems + k))
    ensures root == elems + k - 1
  {
    var x: nat := elems + k - 1;
    assert Range(elems, elems + k)[k - 1] == x;
    assert x in multiset(Range(elems, elems + k));
    assert x in multiset([root]) + multiset(done);
    assert x !in done;
    assert x in multiset([root]);
    assert x in [root];
  }

  lemma FilledNodes(t: seq<CtData>, heap: seq<nat>, len: nat, elems: nat, maxCode: int)
    requires Filled(t, heap, len, elems, maxCode)
    ensures Nodes(heap, len, |t|)
  {
    var q, act := Queue(heap, len), Active(Freqs(t), elems);
    forall i | 1 <= i <= len ensures heap[i] < |t| {
      assert q[i - 1] == heap[i];
      assert q[i - 1] in multiset(q);
      assert q[i - 1] in multiset(act);
      assert q[i - 1] in act;
    }
  }

  lemma RangeNoRepeats(from: nat, to: nat)
    requires from <= to
    ensures NoRepeats(Range(from, to))
  {
  }

  /** Forcing adds at most one to the total frequency per forced symbol. */
  lemma {:induction false} ForcedTotal(w: seq<nat>, forced: seq<nat>, elems: nat)
    requires 3 <= elems <= |w| && Below(forced, |w|) && Forcible(w, forced)
    ensures SumOver(Range(0, elems), AsInts(Force(w, forced))) == SumOver(Range(0, elems), AsInts(w)) + |forced|
  {
    if forced != [] {
      var k := |forced| - 1;
      ForcedTotal(w, forced[..k], elems);
      RangeNoRepeats(0, elems);
      assert Range(0, elems)[forced[k]] == forced[k];
      SumChange(Range(0, elems), forced[k], AsInts(Force(w, forced[..k])), AsInts(Force(w, forced)));
    }
  }

  lemma {:induction false} TotalFits(w: seq<nat>, forced: seq<nat>, elems: nat, len: nat)
    requires 3 <= elems <= |w| && Below(forced, |w|) && Forcible(w, forced) && |forced| <= 2
    requires SumOver(Range(0, elems), AsInts(w)) <= 0xfffd
    ensures 0 <= SumOver(Active(Force(w, forced), elems), AsInts(Force(w, forced))) <= 0xffff
  {
    ForcedTotal(w, forced, elems);
    var w1 := Force(w, forced);
    SumActive(w1, elems, AsInts(w1));
    SumNonNegative(Active(w1, elems), AsInts(w1));
  }

  lemma {:induction false} ForcedCount(w: seq<nat>, forced: seq<nat>, n: nat)
    requires 3 <= n <= |w| && Below(forced, |w|) && Forcible(w, forced)
    ensures |Active(Force(w, forced), n)| == |Active(w, n)| + |forced|
  {
    if forced != [] {
      var k := |forced| - 1;
      ForcedCount(w, forced[..k], n);
      ActiveAdd(Force(w, forced[..k]), n, forced[k]);
    }
  }

  /** Everything up to gen_bitlen. */
  method MergeSymbols(tree: array<CtData>, depth: array<nat>, heap: array<nat>, desc: TreeDesc,
                      optLen: int, staticLen: int)
      returns (heapMax: nat, maxCode: nat, opt: int, stat: int,
               ghost forced: seq<nat>, ghost order: seq<nat>, ghost k: nat)
    requires depth != heap && heap.Length == HEAP_SIZE && tree.Length <= depth.Length && tree.Length <= 0x10000
    requires desc.Valid() && 2 * desc.elems <= tree.Length
    requires SumOver(Range(0, desc.elems), AsInts(Freqs(tree[..]))) <= 0xfffd
    modifies tree, depth, heap
    ensures Below(forced, tree.Length) && Forcible(Freqs(old(tree[..])), forced)
    ensures forall x :: 0 <= x < desc.elems ==> tree[x].fc == Force(Freqs(old(tree[..])), forced)[x]
    ensures forced != [] ==> |Active(Freqs(tree[..]), desc.elems)| == 2
    ensures opt == optLen - |forced|
    ensures stat == staticLen - (if desc.staticLens == [] then 0 else StaticLens(forced, desc))
    ensures 1 <= maxCode && TreeReady(tree[..], heap[..], heapMax, desc, maxCode, order, Freqs(tree[..]), k)
    ensures tree[maxCode].fc > 0
    ensures forall i, j :: 0 <= i < j < |order| ==> order[i] < tree.Length && order[j] < tree.Length && tree[order[i]].fc <= tree[order[j]].fc
    ensures |Active(Freqs(tree[..]), desc.elems)| >= 2 && desc.elems + k <= tree.Length
    ensures LeastHeight(order, desc.elems, k, WeightsOf(Active(Freqs(tree[..]), desc.elems), Freqs(tree[..])))
    ensures SumOver(Range(desc.elems, desc.elems + k), AsInts(Freqs(tree[..])))
         == HuffmanSum(multiset(WeightsOf(Active(Freqs(tree[..]), desc.elems), Freqs(tree[..]))))
  {
    hide Pow2, HuffmanSum, SumOver, Active, Filled, Merged, MergeState, HeapFrom, Queue, Smaller, Forcible, Force, MergeOrder, InHeap,
         Flat, Levels, Rising, LeastHeight, HeightOf;
    ghost var w := Freqs(tree[..]);
    var len, maxc := FillQueue(tree, depth, heap, desc.elems);
    assert Freqs(tree[..]) == w;
    len, maxc, opt, stat, forced := ForceTwo(tree, depth, heap, desc, len, maxc, optLen, staticLen);
    ghost var t0 := tree[..];
    ghost var h0, d0 := heap[..], depth[..];
    ghost var act := Active(Freqs(t0), desc.elems);
    AfterForcing(w, t0, h0, len, desc, maxc, forced);
    maxCode := maxc;
    Heapify(tree, depth, heap, len);
    ghost var total := SumOver(act, AsInts(Freqs(t0)));
    ghost var all := HuffmanSum(multiset(WeightsOf(act, Freqs(t0))));
    MergeStart(t0, h0, len, Queue(heap[..], len), desc.elems, maxc, total, all);
    LevelsStart(t0, d0, h0, len, desc.elems, maxc, Queue(heap[..], len));
    ghost var ws := WeightsOf(act, Freqs(t0));
    heapMax, order, k := MergeAll(tree, depth, heap, len, desc.elems, t0, total, all, HeightOf(ws));
    MergeEnd(t0, tree[..], order, desc.elems, k, total, all);
    Readiness(t0, tree[..], h0, heap[..], len, heapMax, desc, maxc, order, k);
    WeightsSame(act, Freqs(t0), Freqs(tree[..]), desc.elems);
    TreeIsLow(tree[..], depth[..], order, act, desc.elems, k, ws);
  }

  lemma WeightsSame(ids: seq<nat>, v: seq<nat>, w: seq<nat>, n: nat)
    requires Below(ids, n) && n <= |v| && n <= |w| && forall x :: 0 <= x < n ==> v[x] == w[x]
    ensures WeightsOf(ids, v) == WeightsOf(ids, w)
  {
  }

  lemma {:induction false} AfterForcing(w: seq<nat>, t0: seq<CtData>, h0: seq<nat>, len: nat, desc: TreeDesc, maxCode: int, forced: seq<nat>)
    requires desc.Valid() && desc.elems <= |w| == |t0| && Below(forced, |w|) && Forcible(w, forced)
    requires Freqs(t0) == Force(w, forced) && len >= 2 && (forced != [] ==> len == 2)
    requires Filled(t0, h0, len, desc.elems, maxCode)
    requires SumOver(Range(0, desc.elems), AsInts(w)) <= 0xfffd
    ensures Nodes(h0, len, |t0|) && len == |Active(Freqs(t0), desc.elems)| <= desc.elems
    ensures 0 <= SumOver(Active(Freqs(t0), desc.elems), AsInts(Freqs(t0))) <= 0xffff
    ensures 1 <= maxCode < desc.elems && t0[maxCode].fc > 0
  {
    hide SumOver, Pow2, Forcible, Force;
    FilledNodes(t0, h0, len, desc.elems, maxCode);
    ForcedCount(w, forced, desc.elems);
    TotalFits(w, forced, desc.elems, len);
    ActiveBelow(Freqs(t0), maxCode + 1, desc.elems);
  }

  lemma Readiness(t0: seq<CtData>, tree: seq<CtData>, h0: seq<nat>, heap: seq<nat>, len: nat, heapMax: nat, desc: TreeDesc, maxCode: int,
                  order: seq<nat>, k: nat)
    requires Filled(t0, h0, len, desc.elems, maxCode) && desc.Valid() && desc.elems <= |t0| == |tree| <= 0x10000
    requires maxCode >= 0 && Below(order, |tree|) && |order| == 2 * k + 1 && InHeap(heap, heapMax, order)
    requires MergeOrder(order, Freqs(tree), Active(Freqs(tree), desc.elems), desc.elems, k)
    requires forall i :: 0 <= i < 2 * k ==> tree[order[i]].dl == desc.elems + i / 2
    requires forall x :: 0 <= x < desc.elems ==> tree[x].fc == t0[x].fc
    requires forall x :: 0 <= x < desc.elems && t0[x].fc == 0 ==> tree[x].dl == 0
    ensures TreeReady(tree, heap, heapMax, desc, maxCode, order, Freqs(tree), k)
  {
    hide MergeOrder, Active, Pow2;
  }

  lemma {:induction false} ForceKeeps(w: seq<nat>, forced: seq<nat>, x: nat)
    requires Below(forced, |w|) && x < |w|
    ensures w[x] > 0 ==> Force(w, forced)[x] > 0
    ensures x in forced ==> Force(w, forced)[x] > 0
  {
    if forced != [] {
      ForceKeeps(w, forced[..|forced| - 1], x);
    }
  }

  /** The costs counted by gen_bitlen, without the forced codes that were
      compensated in advance. */
  lemma {:induction false} Compensated(w: seq<nat>, forced: seq<nat>, w2: seq<nat>, lens: seq<nat>, desc: TreeDesc)
    requires desc.Valid() && |lens| <= desc.elems <= |w| == |w2| && Below(forced, |w|) && Forcible(w, forced)
    requires forall x :: 0 <= x < desc.elems ==> w2[x] == Force(w, forced)[x]
    requires CompleteCode(w2, lens, desc.maxLength)
    requires forall x :: |lens| <= x < desc.elems ==> w2[x] == 0
    requires forced != [] ==> |Active(w2, desc.elems)| == 2
    ensures SymbolCost(w2, lens, desc, |lens|) == SymbolCost(w, lens, desc, |lens|) + |forced|
    ensures StaticSymbolCost(w2, desc, |lens|) == StaticSymbolCost(w, desc, |lens|) + StaticLens(forced, desc)
  {
    hide SymbolCost, StaticSymbolCost, CompleteCode, Active, Pow2;
    var w1 := Force(w, forced);
    SymbolCostSame(w1, w2, lens, desc, |lens|);
    if forced != [] {
      ActiveBelow(w2, |lens|, desc.elems);
      TwoCodes(w2, lens, desc.maxLength);
      forall i | 0 <= i < |forced| ensures forced[i] < |lens| && lens[forced[i]] == 1 {
        ForcibleSmall(w, forced, i);
        ForceKeeps(w, forced, forced[i]);
      }
      ForcedCosts(w, forced, lens, desc, |lens|);
    } else {
      assert w1 == w;
    }
  }

  lemma {:induction false} ForcibleSmall(w: seq<nat>, forced: seq<nat>, i: nat)
    requires Below(forced, |w|) && Forcible(w, forced) && i < |forced|
    ensures forced[i] < 3
  {
    if i < |forced| - 1 {
      ForcibleSmall(w, forced[..|forced| - 1], i);
    }
  }

  /** What build_tree makes of the frequencies w: a complete code within the limit
      that has room for every symbol that occurs, ready to be sent. */
  ghost predicate Built(w: seq<nat>, tree: seq<CtData>, desc: TreeDesc, maxCode: nat)
  {
    && |w| == |tree| && 1 <= maxCode < desc.elems <= |w|
    && (forall x :: 0 <= x < desc.elems && w[x] > 0 ==> x <= maxCode && tree[x].dl > 0)
    && tree[maxCode].dl > 0 && (forall x :: maxCode < x < desc.elems ==> tree[x].dl == 0)
    && (forall x :: 0 <= x <= maxCode ==> tree[x].dl <= desc.maxLength)
    && Kraft(Lens(tree, maxCode + 1), desc.maxLength) == Pow2(desc.maxLength)
    && HasCodes(tree, Lens(tree, maxCode + 1))
  }

  lemma HeavierLater(order: seq<nat>, w: seq<nat>, i: nat, j: nat)
    requires Below(order, |w|) && forall i, j :: 0 <= i < j < |order| ==> w[order[i]] <= w[order[j]]
    requires i < |order| && j < |order| && w[order[i]] < w[order[j]]
    ensures i < j
  {
  }

  lemma {:induction false} DealtFrequentShorter(order: seq<nat>, w: seq<nat>, lens: seq<nat>, all: seq<nat>, elems: nat, k: nat)
    requires elems <= |w| && MergeOrder(order, w, Active(w, elems), elems, k) && |lens| <= elems <= |all| && |all| == |w|
    requires Below(order, |w|) && forall i, j :: 0 <= i < j < |order| ==> w[order[i]] <= w[order[j]]
    requires LongestFirst(order, |order|, all, elems)
    requires forall x :: 0 <= x < |lens| ==> lens[x] == all[x]
    ensures FrequentShorter(w, lens)
  {
    hide MergeOrder, Active;
    forall s, t | 0 <= s < |lens| && 0 <= t < |lens| && 0 < w[s] < w[t]
      ensures lens[s] >= lens[t]
    {
      ListedHasWeight(order, w, elems, k, s);
      ListedHasWeight(order, w, elems, k, t);
      var i :| 0 <= i < |order| && order[i] == s;
      var j :| 0 <= j < |order| && order[j] == t;
      HeavierLater(order, w, i, j);
    }
  }

  /** What a tree was made from: frequencies, those of them that were forced, and the
      Huffman tree. */
  datatype Origin = Origin(freqs: seq<nat>, forced: seq<nat>, growth: Growth)

  ghost predicate GoodCode(o: Origin, desc: TreeDesc, lens: seq<nat>)
  {
    GoodLengths(o.freqs, desc.elems, desc.maxLength, lens, o.forced, o.growth)
  }

  /** How good the lengths of a tree for the frequencies w are. Symbols are forced only
      where fewer than two occur. With them, the code is complete and never shorter for a
      less frequent symbol; it is the cheapest there is if no node of m, the Huffman tree it
      was made from, lies deeper than the limit. And no way of merging makes a lower tree. */
  ghost predicate GoodLengths(w: seq<nat>, elems: nat, limit: nat, lens: seq<nat>, forced: seq<nat>, m: Growth)
  {
    && elems <= |w| && Below(forced, |w|) && Forcible(w, forced)
    && |forced| == (if |Active(w, elems)| < 2 then 2 - |Active(w, elems)| else 0)
    && HuffmanMerge(m, Force(w, forced), elems)
    && CompleteCode(Force(w, forced), lens, limit)
    && FrequentShorter(Force(w, forced), lens)
    && (!TooDeep(m.order, elems, m.k, limit) ==> CheapestCode(Force(w, forced), lens))
    && LeastHeight(m.order, elems, m.k, WeightsOf(Active(Force(w, forced), |lens|), Force(w, forced)))
  }

  /** One Huffman tree with its lengths and codes. The heap array keeps the order in which
      the tree was put together, and the weights of its internal nodes stay in the tree. */
  method BuildTree(tree: array<CtData>, depth: array<nat>, heap: array<nat>, blCount: array<nat>, desc: TreeDesc,
                   optLen: int, staticLen: int)
      returns (maxCode: nat, opt: int, stat: int, heapMax: nat, ghost o: Origin)
    requires depth != heap && blCount != heap && blCount != depth && blCount.Length == MAX_BITS + 1
    requires heap.Length == HEAP_SIZE && tree.Length <= depth.Length && tree.Length <= 0x10000
    requires desc.Valid() && 2 * desc.elems <= tree.Length
    requires SumOver(Range(0, desc.elems), AsInts(Freqs(tree[..]))) <= 0xfffd
    modifies tree, depth, heap, blCount
    ensures Built(Freqs(old(tree[..])), tree[..], desc, maxCode)
    ensures opt == optLen + SymbolCost(Freqs(old(tree[..])), Lens(tree[..], maxCode + 1), desc, maxCode + 1)
    ensures stat == staticLen +
              (if desc.staticLens == [] then 0 else StaticSymbolCost(Freqs(old(tree[..])), desc, maxCode + 1))
    ensures o.freqs == Freqs(old(tree[..])) && GoodCode(o, desc, Lens(tree[..], maxCode + 1))
    ensures InHeap(heap[..], heapMax, o.growth.order) && desc.elems + o.growth.k <= |o.growth.weights| == tree.Length
    ensures forall x :: desc.elems <= x < desc.elems + o.growth.k ==> o.growth.weights[x] == tree[x].fc
  {
    hide Pow2, HuffmanSum, SumOver, Active, Forcible, Force, MergeOrder, InHeap, Kraft, Count, SymbolCost, StaticSymbolCost,
         CodeCost, CompleteCode, LengthsSet, TreeReady, CheapestCode, FrequentShorter, Built, LongestFirst, HasCodes, TooDeep,
         HuffmanMerge, GoodLengths, LeastHeight;
    ghost var w := Freqs(tree[..]);
    ghost var forced, order, k;
    heapMax, maxCode, opt, stat, forced, order, k := MergeSymbols(tree, depth, heap, desc, optLen, staticLen);
    ghost var before := tree[..];
    ghost var w2 := Freqs(before);
    ghost var m := Growth(order, w2, k);
    o := Origin(w, forced, m);
    ReadyMax(before, heap[..], heapMax, desc, maxCode, order, w2, k);
    MergedHuffman(w, forced, m, desc.elems);
    opt, stat := GenBitlen(tree, heap, heapMax, blCount, desc, maxCode, opt, stat, order, w2, k);
    ghost var lens := Lens(tree[..], maxCode + 1);
    LengthsFacts(before, tree[..], blCount[..], desc, maxCode, w2);
    Compensated(w, forced, w2, lens, desc);
    if TooDeep(order, desc.elems, k, desc.maxLength) {
      DealtFrequentShorter(order, w2, lens, Lens(tree[..], |w2|), desc.elems, k);
    }
    Generate(tree, maxCode, blCount);
    Conclude(w, forced, w2, tree[..], lens, desc, maxCode, m);
  }

  /** The tree that was merged is one for the frequencies after forcing, and nothing was
      forced without need. */
  lemma MergedHuffman(w: seq<nat>, forced: seq<nat>, m: Growth, elems: nat)
    requires 3 <= elems <= |w| == |m.weights| && Below(forced, |w|) && Forcible(w, forced)
    requires forall x :: 0 <= x < elems ==> m.weights[x] == Force(w, forced)[x]
    requires MergeOrder(m.order, m.weights, Active(m.weights, elems), elems, m.k) && Below(m.order, |w|)
    requires forall i, j :: 0 <= i < j < |m.order| ==> m.weights[m.order[i]] <= m.weights[m.order[j]]
    requires |Active(m.weights, elems)| >= 2 && (forced != [] ==> |Active(m.weights, elems)| == 2)
    ensures HuffmanMerge(m, Force(w, forced), elems)
    ensures |forced| == (if |Active(w, elems)| < 2 then 2 - |Active(w, elems)| else 0)
  {
    hide MergeOrder, Active, Forcible, Force;
    ActiveSame(Force(w, forced), m.weights, elems);
    ForcedCount(w, forced, elems);
  }

  lemma {:induction false} LengthsFacts(before: seq<CtData>, tree: seq<CtData>, counts: seq<nat>, desc: TreeDesc, maxCode: nat, w: seq<nat>)
    requires LengthsSet(before, tree, counts, desc, maxCode, w) && desc.maxLength <= MAX_BITS
    requires forall x :: maxCode < x < desc.elems ==> w[x] == 0 && before[x].dl == 0
    ensures forall x :: maxCode < x < desc.elems ==> tree[x].dl == 0
    ensures |tree| == |before| == |w| && maxCode < desc.elems <= |w| && |counts| == MAX_BITS + 1
    ensures forall x :: 0 <= x < |tree| ==> tree[x].fc == before[x].fc
    ensures CompleteCode(w, Lens(tree, maxCode + 1), desc.maxLength)
    ensures counts[0] == 0 && forall b :: 1 <= b <= MAX_BITS ==> counts[b] == Count(Lens(tree, maxCode + 1), b)
    ensures IsCode(Lens(tree, maxCode + 1), MAX_BITS)
  {
    CodeWidens(Lens(tree, maxCode + 1), desc.maxLength, MAX_BITS);
  }

  lemma ReadyMax(tree: seq<CtData>, heap: seq<nat>, heapMax: nat, desc: TreeDesc, maxCode: nat,
                 order: seq<nat>, w: seq<nat>, k: nat)
    requires TreeReady(tree, heap, heapMax, desc, maxCode, order, w, k)
    ensures maxCode < desc.elems <= |w| && |w| == |tree|
    ensures forall x :: maxCode < x < desc.elems ==> w[x] == 0 && tree[x].dl == 0
    ensures MergeOrder(order, w, Active(w, desc.elems), desc.elems, k) && Below(order, |w|)
    ensures InHeap(heap, heapMax, order) && desc.elems + k <= |w|
  {
  }

  lemma {:induction false} Conclude(w: seq<nat>, forced: seq<nat>, w2: seq<nat>, tree: seq<CtData>, lens: seq<nat>, desc: TreeDesc,
                 maxCode: nat, m: Growth)
    requires desc.Valid() && 1 <= maxCode < desc.elems <= |w| == |w2| == |tree|
    requires Below(forced, |w|) && Forcible(w, forced)
    requires forall x :: 0 <= x < desc.elems ==> w2[x] == Force(w, forced)[x]
    requires lens == Lens(tree, maxCode + 1) && CompleteCode(w2, lens, desc.maxLength) && HasCodes(tree, lens)
    requires forall x :: maxCode < x < desc.elems ==> w2[x] == 0 && tree[x].dl == 0
    requires w2[maxCode] > 0 && |Active(w2, desc.elems)| >= 1
    requires !TooDeep(m.order, desc.elems, m.k, desc.maxLength) ==>
               CodeCost(w2, lens, |lens|) == HuffmanSum(multiset(WeightsOf(Active(w2, desc.elems), w2)))
    requires TooDeep(m.order, desc.elems, m.k, desc.maxLength) ==> FrequentShorter(w2, lens)
    requires LeastHeight(m.order, desc.elems, m.k, WeightsOf(Active(w2, desc.elems), w2))
    requires HuffmanMerge(m, Force(w, forced), desc.elems)
    requires |forced| == (if |Active(w, desc.elems)| < 2 then 2 - |Active(w, desc.elems)| else 0)
    ensures Built(w, tree, desc, maxCode)
    ensures GoodLengths(w, desc.elems, desc.maxLength, lens, forced, m)
  {
    hide Pow2, HuffmanSum, SumOver, Active, Forcible, Force, Kraft, CodeCost, HasCodes, TooDeep, HuffmanMerge, LeastHeight;
    var w1 := Force(w, forced);
    forall x | 0 <= x < desc.elems && w[x] > 0 ensures x <= maxCode && tree[x].dl > 0 {
      ForceKeeps(w, forced, x);
      assert lens[x] == tree[x].dl;
    }
    assert lens[maxCode] == tree[maxCode].dl;
    ActiveBelow(w2, |lens|, desc.elems);
    ActiveSame(w1, w2, |lens|);
    SymbolCostSame(w1, w2, lens, desc, |lens|);
    WeightsSame(Active(w2, |lens|), w1, w2, |lens|);
    if !TooDeep(m.order, desc.elems, m.k, desc.maxLength) {
      CheapestFrequentShorter(w1, lens, desc.maxLength);
    }
  }

  /** The lengths are the cheapest of all exactly if there are any within the limit that are. */
  lemma ExactlyCheapest(w: seq<nat>, elems: nat, limit: nat, lens: seq<nat>, forced: seq<nat>, m: Growth)
    requires GoodLengths(w, elems, limit, lens, forced, m)
    ensures |lens| <= |w| && Below(forced, |w|)
    ensures CheapestCode(Force(w, forced), lens)
       <==> exists ls :: Cheapest(WeightsOf(Active(Force(w, forced), |lens|), Force(w, forced)), ls, limit)
  {
    hide Active, Force, Forcible, HuffmanMerge, TooDeep, HeightOf, Cheapest, CodeCost, Kraft, KraftSum, Dot, Pow2, FrequentShorter;
    var w1 := Force(w, forced);
    var act := Active(w1, |lens|);
    var ws := WeightsOf(act, w1);
    if CheapestCode(w1, lens) {
      var ls := WeightsOf(act, lens);
      CodesOfTable(w1, lens, |lens|, limit);
      SpaceOfTable(w1, lens, |lens|, limit);
      assert lens[..|lens|] == lens;
      IsCheapest(ws, ls, limit);
    }
    if ls :| Cheapest(ws, ls, limit) {
      WithinLimit(ws, ls, limit);
      CheapestReaches(ws, ls, limit, limit);
      assert !TooDeep(m.order, elems, m.k, limit);
    }
  }

  lemma IsCheapest(ws: seq<nat>, ls: seq<nat>, limit: nat)
    requires |ws| == |ls| > 0 && AllWithin(ls, limit)
    requires KraftSum(ls, limit) <= Pow2(limit) && Dot(ws, ls) == HuffmanSum(multiset(ws))
    ensures Cheapest(ws, ls, limit)
  {
  }

  lemma WithinLimit(ws: seq<nat>, ls: seq<nat>, limit: nat)
    requires Cheapest(ws, ls, limit)
    ensures forall k :: 0 <= k < |ls| ==> ls[k] <= limit
  {
  }
}
