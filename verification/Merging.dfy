/** The merge loop of build_tree on values: q is the queue, order the nodes taken
    off it so far, two per merge. */
module Merging {
  import opened Sums
  import opened HuffmanCost
  import opened HuffmanTree
  import opened GenCodes

  function Freqs(tree: seq<CtData>): (w: seq<nat>)
    ensures |w| == |tree| && forall x :: 0 <= x < |w| ==> w[x] == tree[x].fc
  {
    seq(|tree|, x requires 0 <= x < |tree| => tree[x].fc)
  }

  function WeightsOf(ids: seq<nat>, w: seq<nat>): (r: seq<nat>)
    requires Below(ids, |w|)
    ensures |r| == |ids| && forall i :: 0 <= i < |r| ==> r[i] == w[ids[i]]
  {
    seq(|ids|, i requires 0 <= i < |ids| => w[ids[i]])
  }

  lemma WeightsRemove(ids: seq<nat>, i: nat, w: seq<nat>)
    requires i < |ids| && Below(ids, |w|)
    ensures multiset(WeightsOf(Remove(ids, i), w)) == multiset(WeightsOf(ids, w)) - multiset{w[ids[i]]}
  {
    assert WeightsOf(Remove(ids, i), w) == Remove(WeightsOf(ids, w), i);
    RemoveMultiset(WeightsOf(ids, w), i);
  }

  /** The order of the nodes does not matter for the bag of their weights. */
  lemma {:induction false} WeightsPermutation(a: seq<nat>, b: seq<nat>, w: seq<nat>)
    requires multiset(a) == multiset(b) && Below(a, |w|) && Below(b, |w|)
    ensures multiset(WeightsOf(a, w)) == multiset(WeightsOf(b, w))
    decreases |a|
  {
    if a == [] {
      assert |b| == |multiset(b)| == 0;
    } else {
      assert a[0] in multiset(a);
      var i: nat :| i < |b| && b[i] == a[0];
      RemoveMultiset(b, i);
      RemoveMultiset(a, 0);
      WeightsPermutation(Remove(a, 0), Remove(b, i), w);
      WeightsRemove(a, 0, w);
      WeightsRemove(b, i, w);
      assert w[a[0]] == WeightsOf(a, w)[0] && w[a[0]] == WeightsOf(b, w)[i];
      BagRestore(multiset(WeightsOf(a, w)), multiset(WeightsOf(b, w)), w[a[0]]);
    }
  }

  lemma BagRestore(a: multiset<nat>, b: multiset<nat>, x: nat)
    requires x in a && x in b && a - multiset{x} == b - multiset{x}
    ensures a == b
  {
    assert a == a - multiset{x} + multiset{x};
    assert b == b - multiset{x} + multiset{x};
  }

  /** j merges have been made. */
  ghost predicate Merged(tree: seq<CtData>, q: seq<nat>, order: seq<nat>, act: seq<nat>, elems: nat, j: nat)
  {
    && |order| == 2 * j && |q| + j == |act| && |q| >= 1 && elems + |act| <= |tree|
    && Below(act, elems) && Below(q, elems + j) && Below(order, elems + j)
    && (forall i :: 0 <= i < 2 * j ==> order[i] < elems + i / 2)
    && multiset(q) + multiset(order) == multiset(act) + multiset(Range(elems, elems + j))
    && (forall i :: 0 <= i < 2 * j ==> tree[order[i]].dl == elems + i / 2)
    && (forall t :: 0 <= t < j ==> tree[elems + t].fc == tree[order[2 * t]].fc + tree[order[2 * t + 1]].fc)
  }

  /** Nodes come off the queue in order of frequency. */
  ghost predicate Sorted(w: seq<nat>, q: seq<nat>, order: seq<nat>)
    requires Below(q, |w|) && Below(order, |w|)
  {
    && (forall i, k :: 0 <= i < k < |order| ==> w[order[i]] <= w[order[k]])
    && (forall i, k :: 0 <= i < |order| && 0 <= k < |q| ==> w[order[i]] <= w[q[k]])
  }

  /** What has been merged and what Huffman's algorithm still has to pay. */
  ghost predicate Paying(w: seq<nat>, q: seq<nat>, elems: nat, j: nat, total: nat, all: nat)
  {
    && Below(q, |w|) && |q| >= 1 && elems + j <= |w|
    && SumOver(q, AsInts(w)) == total
    && HuffmanSum(multiset(WeightsOf(q, w))) + SumOver(Range(elems, elems + j), AsInts(w)) == all
  }

  /** The tree after merging n and m into the new node. */
  function MergedTree(tree: seq<CtData>, n: nat, m: nat, node: nat): (r: seq<CtData>)
    requires n < |tree| && m < |tree| && node < |tree| <= 0x10000
    requires tree[n].fc + tree[m].fc < 0x10000
    ensures |r| == |tree|
  {
    var t1 := tree[node := tree[node].(fc := tree[n].fc + tree[m].fc)];
    var t2 := t1[m := t1[m].(dl := node)];
    t2[n := t2[n].(dl := node)]
  }

  lemma {:induction false} BagNotTwice(a: multiset<nat>, b: multiset<nat>, freq: seq<nat>, elems: nat, k: nat, x: nat)
    requires elems <= |freq| && a + b == multiset(Active(freq, elems)) + multiset(Range(elems, elems + k))
    ensures a[x] + b[x] <= 1
  {
    OneOfEach(freq, elems, k, x);
  }

  /** The bags before and after a merge. */
  lemma MergeBags(q: seq<nat>, order: seq<nat>, n: nat, m: nat, rest: seq<nat>, q': seq<nat>, node: nat)
    requires multiset(q) == multiset(rest + [n, m]) && multiset(q') == multiset(rest + [node])
    requires Below(q, node)
    ensures |q| == |rest| + 2 && |q'| == |rest| + 1 && Below(q', node + 1)
    ensures n in multiset(q) && m in multiset(q) && n < node && m < node
    ensures n == m ==> multiset(q)[n] >= 2
    ensures multiset(q') + multiset(order + [n, m]) == multiset(q) + multiset(order) + multiset{node}
  {
    assert |multiset(q)| == |q| && |multiset(rest + [n, m])| == |rest| + 2;
    assert |multiset(q')| == |q'| && |multiset(rest + [node])| == |rest| + 1;
    assert multiset(q) == multiset(rest) + multiset{n, m};
    assert multiset(q') == multiset(rest) + multiset{node};
    assert multiset(order + [n, m]) == multiset(order) + multiset{n, m};
    assert n in multiset(q) && m in multiset(q);
    assert n in q && m in q;
    forall i | 0 <= i < |q'| ensures q'[i] < node + 1 {
      assert q'[i] in multiset(q');
      assert q'[i] == node || q'[i] in multiset(q);
      assert q'[i] == node || q'[i] in q;
    }
  }

  lemma BagsAfter(q: seq<nat>, order: seq<nat>, act: seq<nat>, elems: nat, j: nat, node: nat, bag: multiset<nat>)
    requires node == elems + j
    requires multiset(q) + multiset(order) == multiset(act) + multiset(Range(elems, elems + j))
    requires bag == multiset(q) + multiset(order) + multiset{node}
    ensures bag == multiset(act) + multiset(Range(elems, elems + (j + 1)))
  {
    RangeNext(elems, elems + j);
    assert multiset(Range(elems, node) + [node]) == multiset(Range(elems, node)) + multiset{node};
  }

  lemma {:induction false} MergeStep(tree: seq<CtData>, q: seq<nat>, order: seq<nat>, freq: seq<nat>, elems: nat, j: nat,
                    n: nat, m: nat, rest: seq<nat>, q': seq<nat>)
    requires elems <= |freq| && |tree| <= 0x10000
    requires Merged(tree, q, order, Active(freq, elems), elems, j)
    requires multiset(q) == multiset(rest + [n, m]) && multiset(q') == multiset(rest + [elems + j])
    requires n < |tree| && m < |tree| && tree[n].fc + tree[m].fc < 0x10000
    ensures elems + j < |tree| && n < elems + j && m < elems + j && n != m
    ensures Merged(MergedTree(tree, n, m, elems + j), q', order + [n, m], Active(freq, elems), elems, j + 1)
  {
    hide MergedTree, Active;
    var node := elems + j;
    MergeBags(q, order, n, m, rest, q', node);
    BagNotTwice(multiset(q), multiset(order), freq, elems, j, n);
    BagNotTwice(multiset(q), multiset(order), freq, elems, j, m);
    BagsAfter(q, order, Active(freq, elems), elems, j, node, multiset(q') + multiset(order + [n, m]));
    MergedEntries(tree, order, elems, j, n, m);
  }

  lemma MergedEntries(tree: seq<CtData>, order: seq<nat>, elems: nat, j: nat, n: nat, m: nat)
    requires elems + j < |tree| <= 0x10000 && n < elems + j && m < elems + j && n != m
    requires tree[n].fc + tree[m].fc < 0x10000
    requires |order| == 2 * j && Below(order, elems + j) && n !in multiset(order) && m !in multiset(order)
    requires forall i :: 0 <= i < 2 * j ==> order[i] < elems + i / 2 && tree[order[i]].dl == elems + i / 2
    requires forall t :: 0 <= t < j ==> tree[elems + t].fc == tree[order[2 * t]].fc + tree[order[2 * t + 1]].fc
    ensures var tree', order' := MergedTree(tree, n, m, elems + j), order + [n, m];
            && (forall i :: 0 <= i < 2 * (j + 1) ==> order'[i] < elems + i / 2 && tree'[order'[i]].dl == elems + i / 2)
            && (forall t :: 0 <= t < j + 1 ==> tree'[elems + t].fc == tree'[order'[2 * t]].fc + tree'[order'[2 * t + 1]].fc)
  {
    forall i | 0 <= i < 2 * j ensures order[i] != n && order[i] != m {
      assert order[i] in multiset(order);
    }
  }

  /** Frequencies other than the new node's stay. */
  lemma MergedFreqs(tree: seq<CtData>, n: nat, m: nat, node: nat)
    requires n < |tree| && m < |tree| && node < |tree| <= 0x10000 && n != node && m != node
    requires tree[n].fc + tree[m].fc < 0x10000
    ensures Freqs(MergedTree(tree, n, m, node)) == Freqs(tree)[node := tree[n].fc + tree[m].fc]
  {
  }

  lemma {:induction false} SortedStep(w: seq<nat>, q: seq<nat>, order: seq<nat>, n: nat, m: nat, rest: seq<nat>, q': seq<nat>, node: nat)
    requires Below(q, node) && Below(order, node) && node < |w| && Sorted(w, q, order)
    requires multiset(q) == multiset(rest + [n, m]) && multiset(q') == multiset(rest + [node])
    requires n < node && m < node && w[n] <= w[m]
    requires forall i :: 0 <= i < |rest| ==> rest[i] < node && w[m] <= w[rest[i]]
    ensures Below(q', node + 1) && Sorted(w[node := w[n] + w[m]], q', order + [n, m])
  {
    var w' := w[node := w[n] + w[m]];
    assert n in q && m in q by {
      assert (rest + [n, m])[|rest|] == n && (rest + [n, m])[|rest| + 1] == m;
      assert n in multiset(q) && m in multiset(q);
    }
    forall k | 0 <= k < |q'|
      ensures q'[k] < node + 1 && w'[q'[k]] >= w[m]
    {
      assert q'[k] in multiset(q');
      assert q'[k] in multiset(rest + [node]);
      assert q'[k] in rest + [node];
    }
    forall i | 0 <= i < |order|
      ensures w[order[i]] <= w[n] && w[order[i]] <= w[m]
    {
    }
  }

  lemma {:induction false} PayingStep(w: seq<nat>, q: seq<nat>, elems: nat, j: nat, total: nat, all: nat,
                     n: nat, m: nat, rest: seq<nat>, q': seq<nat>)
    requires Paying(w, q, elems, j, total, all) && elems + j < |w| && Below(q, elems + j)
    requires multiset(q) == multiset(rest + [n, m]) && multiset(q') == multiset(rest + [elems + j])
    requires n < elems + j && m < elems + j && w[n] <= w[m] && |q'| >= 1
    requires forall i :: 0 <= i < |rest| ==> rest[i] < elems + j && w[m] <= w[rest[i]]
    ensures Below(q', elems + j + 1)
    ensures Paying(w[elems + j := w[n] + w[m]], q', elems, j + 1, total, all)
  {
    hide HuffmanSum, SumOver;
    var node := elems + j;
    var w' := w[node := w[n] + w[m]];
    MergeBags(q, [], n, m, rest, q', node);
    QueueSum(w, q, n, m, rest, q', node);
    QueueHuffman(w, q, n, m, rest, q', node);
    RangeNext(elems, node);
    SumAppend(Range(elems, node), node, AsInts(w'));
    SumSame(Range(elems, node), AsInts(w'), AsInts(w));
  }

  lemma {:induction false} QueueSum(w: seq<nat>, q: seq<nat>, n: nat, m: nat, rest: seq<nat>, q': seq<nat>, node: nat)
    requires node < |w| && Below(q, node) && Below(q', node + 1) && Below(rest, node) && n < node && m < node
    requires multiset(q) == multiset(rest + [n, m]) && multiset(q') == multiset(rest + [node])
    ensures SumOver(q', AsInts(w[node := w[n] + w[m]])) == SumOver(q, AsInts(w))
  {
    var v, v' := AsInts(w), AsInts(w[node := w[n] + w[m]]);
    assert rest + [n, m] == (rest + [n]) + [m];
    SumAppend(rest, n, v);
    SumAppend(rest + [n], m, v);
    SumPermutation(q, rest + [n, m], v);
    SumAppend(rest, node, v');
    SumPermutation(q', rest + [node], v');
    SumSame(rest, v, v');
  }

  lemma {:induction false} QueueHuffman(w: seq<nat>, q: seq<nat>, n: nat, m: nat, rest: seq<nat>, q': seq<nat>, node: nat)
    requires node < |w| && Below(q, node) && Below(q', node + 1) && Below(rest, node) && n < node && m < node
    requires multiset(q) == multiset(rest + [n, m]) && multiset(q') == multiset(rest + [node])
    requires w[n] <= w[m] && forall i :: 0 <= i < |rest| ==> w[m] <= w[rest[i]]
    requires |q| >= 1 && |q'| >= 1
    ensures HuffmanSum(multiset(WeightsOf(q, w)))
         == w[n] + w[m] + HuffmanSum(multiset(WeightsOf(q', w[node := w[n] + w[m]])))
  {
    hide HuffmanSum, IsLeast, Merge, WeightsOf;
    var w' := w[node := w[n] + w[m]];
    var r := WeightsOf(rest, w);
    QueueWeights(w, q, n, m, rest);
    WeightsPermutation(q', rest + [node], w');
    NewWeight(w, rest, node, w[n] + w[m]);
    LeastTwo(r, w[n], w[m]);
  }

  lemma NewWeight(w: seq<nat>, rest: seq<nat>, node: nat, s: nat)
    requires node < |w| && Below(rest, node)
    ensures WeightsOf(rest + [node], w[node := s]) == WeightsOf(rest, w) + [s]
  {
  }

  lemma QueueWeights(w: seq<nat>, q: seq<nat>, n: nat, m: nat, rest: seq<nat>)
    requires Below(q, |w|) && Below(rest, |w|) && n < |w| && m < |w|
    requires multiset(q) == multiset(rest + [n, m])
    ensures multiset(WeightsOf(q, w)) == multiset(WeightsOf(rest, w) + [w[n], w[m]])
  {
    WeightsPermutation(q, rest + [n, m], w);
    assert WeightsOf(rest + [n, m], w) == WeightsOf(rest, w) + [w[n], w[m]];
  }

  lemma LeastAdded(r: multiset<nat>, a: nat)
    requires forall x :: x in r ==> a <= x
    ensures IsLeast(r + multiset{a}, a)
  {
  }

  lemma AddRemove(r: multiset<nat>, a: nat)
    ensures r + multiset{a} - multiset{a} == r && |r + multiset{a}| == |r| + 1
  {
  }

  /** The two least of a bag, merged. */
  lemma {:induction false} TwoLeast(r: multiset<nat>, a: nat, b: nat, s: nat)
    requires a <= b && s == a + b && forall x :: x in r ==> b <= x
    ensures HuffmanSum(r + multiset{b} + multiset{a}) == s + HuffmanSum(r + multiset{s})
  {
    hide HuffmanSum, IsLeast, Merge;
    var one := r + multiset{b};
    LeastAdded(r, b);
    LeastAdded(one, a);
    AddRemove(r, b);
    AddRemove(one, a);
    HuffmanStep(one + multiset{a}, a, b);
    MergedBag(r, a, b, s);
  }

  lemma MergedBag(r: multiset<nat>, a: nat, b: nat, s: nat)
    requires s == a + b
    ensures Merge(r + multiset{b} + multiset{a}, a, b) == r + multiset{s}
  {
    assert r + multiset{b} + multiset{a} - multiset{a} == r + multiset{b};
    assert r + multiset{b} - multiset{b} == r;
  }

  lemma {:induction false} LeastTwo(r: seq<nat>, a: nat, b: nat)
    requires a <= b && forall i :: 0 <= i < |r| ==> b <= r[i]
    ensures |multiset(r + [a, b])| >= 1 && |multiset(r + [a + b])| >= 1
    ensures HuffmanSum(multiset(r + [a, b])) == a + b + HuffmanSum(multiset(r + [a + b]))
  {
    hide HuffmanSum, IsLeast, Merge;
    var s: nat := a + b;
    assert multiset(r + [a, b]) == multiset(r) + multiset{b} + multiset{a};
    assert multiset(r + [s]) == multiset(r) + multiset{s};
    assert forall x :: x in multiset(r) ==> x in r;
    TwoLeast(multiset(r), a, b, s);
  }
}
