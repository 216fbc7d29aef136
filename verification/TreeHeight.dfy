/** The heights that build_tree keeps in its depth array: they decide between equally frequent
    nodes, and never overflow. */
module TreeHeight {
  import opened Sums
  import opened HuffmanCost
  import opened HuffmanTree
  import opened HuffmanDepth
  import opened HuffmanHeight
  import opened GenCodes
  import opened Heap
  import opened Merging
  import opened ForcedCodes

  /** One more than the greater of two depths, in eight bits. */
  function FatherDepth(d: seq<nat>, n: nat, m: nat): nat
    requires n < |d| && m < |d|
  {
    ((if d[n] >= d[m] then d[n] else d[m]) + 1) % 0x100
  }

  /** Nodes with their weights and heights. */
  function ItemsOf(ids: seq<nat>, w: seq<nat>, d: seq<nat>): (r: seq<Item>)
    requires Below(ids, |w|) && Below(ids, |d|)
    ensures |r| == |ids| && forall i :: 0 <= i < |r| ==> r[i] == Item(w[ids[i]], d[ids[i]])
  {
    seq(|ids|, i requires 0 <= i < |ids| => Item(w[ids[i]], d[ids[i]]))
  }

  lemma ItemsRemove(ids: seq<nat>, i: nat, w: seq<nat>, d: seq<nat>)
    requires i < |ids| && Below(ids, |w|) && Below(ids, |d|)
    ensures Below(Remove(ids, i), |w|) && Below(Remove(ids, i), |d|)
    ensures multiset(ItemsOf(ids, w, d)) == multiset(ItemsOf(Remove(ids, i), w, d)) + multiset{Item(w[ids[i]], d[ids[i]])}
  {
    var r := ItemsOf(ids, w, d);
    assert ItemsOf(Remove(ids, i), w, d) == Remove(r, i);
    RemoveMultiset(r, i);
    assert r[i] in multiset(r);
  }

  /** The order of the nodes does not matter. */
  lemma {:induction false} ItemsPermutation(a: seq<nat>, b: seq<nat>, w: seq<nat>, d: seq<nat>)
    requires multiset(a) == multiset(b) && Below(a, |w|) && Below(b, |w|) && Below(a, |d|) && Below(b, |d|)
    ensures multiset(ItemsOf(a, w, d)) == multiset(ItemsOf(b, w, d))
    decreases |a|
  {
    hide ItemsOf, Remove;
    if a == [] {
      assert |b| == |multiset(b)| == 0;
    } else {
      assert a[0] in multiset(a);
      var i: nat :| i < |b| && b[i] == a[0];
      RemoveMultiset(b, i);
      RemoveMultiset(a, 0);
      ItemsRemove(a, 0, w, d);
      ItemsRemove(b, i, w, d);
      ItemsPermutation(Remove(a, 0), Remove(b, i), w, d);
    }
  }

  /** n and m are the two lightest nodes of a queue, which has rest besides them. */
  ghost predicate Lightest(t: seq<CtData>, q: seq<nat>, n: nat, m: nat, rest: seq<nat>, node: nat)
  {
    && multiset(q) == multiset(rest + [n, m]) && n in q && m in q
    && n < node && m < node && node < |t| && t[n].fc <= t[m].fc && t[n].fc + t[m].fc < 0x10000
    && forall i :: 0 <= i < |rest| ==> rest[i] < node && t[m].fc <= t[rest[i]].fc
  }

  lemma LightestFacts(t: seq<CtData>, q: seq<nat>, n: nat, m: nat, rest: seq<nat>, node: nat)
    requires Lightest(t, q, n, m, rest, node)
    ensures n in q && m in q && n < node && m < node && node < |t| && t[n].fc + t[m].fc < 0x10000
  {
  }

  /** n and then m come first in the queue. */
  ghost predicate FirstTwo(t: seq<CtData>, d: seq<nat>, n: nat, m: nat, rest: seq<nat>)
  {
    && |t| <= |d| && n < |t| && m < |t| && Smaller(t, d, n, m)
    && forall i :: 0 <= i < |rest| ==> rest[i] < |t| && Smaller(t, d, m, rest[i])
  }

  /** A node of height h weighs Fib(h + 2) at least, and so does every node in the queue Fib(h + 1);
      with a few more merges the queue comes to one tree of the final height. */
  ghost predicate Levels(t: seq<CtData>, d: seq<nat>, q: seq<nat>, final: nat)
  {
    && |t| <= |d| && Below(q, |t|) && |q| >= 1
    && |multiset(ItemsOf(q, Freqs(t), d))| > 0 && FinalHeight(multiset(ItemsOf(q, Freqs(t), d))) == final
    && (forall x :: x in q ==> Fib(d[x] + 2) <= t[x].fc)
    && (forall x, z :: x in q && z in q ==> Fib(d[x] + 1) <= t[z].fc)
  }

  /** Sons are lower than their fathers. */
  ghost predicate Rising(d: seq<nat>, order: seq<nat>, elems: nat, j: nat)
  {
    |order| == 2 * j && elems + j <= |d| && Below(order, elems + j)
    && forall i :: 0 <= i < 2 * j ==> d[order[i]] < d[elems + i / 2]
  }

  lemma {:induction false} FewLevels(h: nat)
    requires Fib(h + 2) < 0x10000
    ensures h < 24
  {
    assert Fib(6) == 8 && Fib(7) == 13;
    assert Fib(12) == 144 && Fib(13) == 233;
    assert Fib(18) == 2584 && Fib(19) == 4181;
    assert Fib(26) == 121393;
    if h >= 24 {
      FibGrows(26, h + 2);
    }
  }

  /** The height of a father does not overflow. */
  lemma FatherHeight(t: seq<CtData>, d: seq<nat>, q: seq<nat>, final: nat, n: nat, m: nat)
    requires Levels(t, d, q, final) && n in q && m in q
    ensures n < |t| && m < |t| && FatherDepth(d, n, m) == (if d[n] >= d[m] then d[n] else d[m]) + 1
  {
    hide Fib, FinalHeight;
    assert t[n].fc < 0x10000 && t[m].fc < 0x10000;
    FewLevels(d[n]);
    FewLevels(d[m]);
  }

  /** What a merge does to the queue, as a bag of items. */
  lemma ItemsMerged(t: seq<CtData>, d: seq<nat>, q: seq<nat>, n: nat, m: nat, rest: seq<nat>, q': seq<nat>, node: nat,
                    w': seq<nat>, d': seq<nat>)
    requires |t| <= |d| && Below(q, |t|) && Lightest(t, q, n, m, rest, node) && multiset(q') == multiset(rest + [node])
    requires w' == Freqs(t)[node := t[n].fc + t[m].fc] && d' == d[node := (if d[n] >= d[m] then d[n] else d[m]) + 1]
    ensures Below(q', |w'|) && Below(q', |d'|)
    ensures Below(rest, |t|) && Below(rest + [n, m], |t|)
    ensures multiset(ItemsOf(q, Freqs(t), d)) == multiset(ItemsOf(rest, Freqs(t), d))
         + multiset{Item(t[n].fc, d[n])} + multiset{Item(t[m].fc, d[m])}
    ensures multiset(ItemsOf(q', w', d')) == multiset(ItemsOf(rest, Freqs(t), d))
         + multiset{Father(Item(t[n].fc, d[n]), Item(t[m].fc, d[m]))}
  {
    var w := Freqs(t);
    forall i | 0 <= i < |q'| ensures q'[i] < |w'| {
      assert q'[i] in multiset(q');
      assert q'[i] in rest + [node];
    }
    ItemsPermutation(q, rest + [n, m], w, d);
    ItemsPermutation(q', rest + [node], w', d');
    assert ItemsOf(rest + [n, m], w, d) == ItemsOf(rest, w, d) + [Item(w[n], d[n])] + [Item(w[m], d[m])];
    assert ItemsOf(rest + [node], w', d') == ItemsOf(rest, w, d) + [Father(Item(w[n], d[n]), Item(w[m], d[m]))];
  }

  /** Merging the first two does not change the final height. */
  lemma FinalKept(t: seq<CtData>, d: seq<nat>, n: nat, m: nat, rest: seq<nat>, bag: multiset<Item>, bag': multiset<Item>)
    requires FirstTwo(t, d, n, m, rest) && Below(rest, |t|)
    requires bag == multiset(ItemsOf(rest, Freqs(t), d)) + multiset{Item(t[n].fc, d[n])} + multiset{Item(t[m].fc, d[m])}
    requires bag' == multiset(ItemsOf(rest, Freqs(t), d)) + multiset{Father(Item(t[n].fc, d[n]), Item(t[m].fc, d[m]))}
    ensures |bag| > 1 && |bag'| > 0 && FinalHeight(bag) == FinalHeight(bag')
  {
    hide FinalHeight;
    var items := ItemsOf(rest, Freqs(t), d);
    var a, b := Item(t[n].fc, d[n]), Item(t[m].fc, d[m]);
    forall x | x in multiset(items) ensures Before(b, x) {
      assert x in items;
      var i :| 0 <= i < |items| && items[i] == x;
      assert Smaller(t, d, m, rest[i]);
    }
    assert bag - multiset{a} == multiset(items) + multiset{b};
    assert IsFirst(bag - multiset{a}, b);
    assert IsFirst(bag, a);
    assert bag' == Paired(bag, a, b);
    FinalStep(bag, a, b);
  }

  /** The father of the first two is as heavy as its height asks for, and so are all others. */
  lemma HeavyStep(t: seq<CtData>, d: seq<nat>, q: seq<nat>, final: nat, n: nat, m: nat, rest: seq<nat>, q': seq<nat>, node: nat,
                  w': seq<nat>, d': seq<nat>)
    requires Levels(t, d, q, final) && Lightest(t, q, n, m, rest, node) && multiset(q') == multiset(rest + [node])
    requires w' == Freqs(t)[node := t[n].fc + t[m].fc] && d' == d[node := (if d[n] >= d[m] then d[n] else d[m]) + 1]
    ensures Below(q', |w'|) && Below(q', |d'|)
    ensures forall x :: x in q' ==> Fib(d'[x] + 2) <= w'[x]
    ensures forall x, z :: x in q' && z in q' ==> Fib(d'[x] + 1) <= w'[z]
  {
    hide Fib, FinalHeight;
    forall x | x in q' ensures x == node || (x in q && x < node && t[m].fc <= t[x].fc) {
      assert x in multiset(q');
      assert x in multiset(rest + [node]);
      if x != node {
        assert x in rest;
        var i :| 0 <= i < |rest| && rest[i] == x;
        assert x in multiset(rest + [n, m]);
        assert x in multiset(q);
      }
    }
    forall i | 0 <= i < |q'| ensures q'[i] < |t| {
      assert q'[i] in q';
    }
    FibNext(d[n] + 1);
    FibNext(d[m] + 1);
  }

  lemma LevelsStep(t: seq<CtData>, d: seq<nat>, q: seq<nat>, final: nat, n: nat, m: nat, rest: seq<nat>, q': seq<nat>, node: nat)
    requires Levels(t, d, q, final) && Lightest(t, q, n, m, rest, node) && FirstTwo(t, d, n, m, rest)
    requires multiset(q') == multiset(rest + [node]) && |q'| >= 1 && |t| <= 0x10000
    ensures n < |t| && m < |t| && node < |d|
    ensures Levels(MergedTree(t, n, m, node), d[node := FatherDepth(d, n, m)], q', final)
  {
    hide Fib, FinalHeight, MergedTree;
    LightestFacts(t, q, n, m, rest, node);
    FatherHeight(t, d, q, final, n, m);
    MergedFreqs(t, n, m, node);
    var w', d' := Freqs(MergedTree(t, n, m, node)), d[node := FatherDepth(d, n, m)];
    assert w' == Freqs(t)[node := t[n].fc + t[m].fc];
    ItemsMerged(t, d, q, n, m, rest, q', node, w', d');
    FinalKept(t, d, n, m, rest, multiset(ItemsOf(q, Freqs(t), d)), multiset(ItemsOf(q', w', d')));
    HeavyStep(t, d, q, final, n, m, rest, q', node, w', d');
  }

  lemma RisingStep(t: seq<CtData>, d: seq<nat>, q: seq<nat>, final: nat, order: seq<nat>, elems: nat, j: nat, n: nat, m: nat)
    requires Levels(t, d, q, final) && Rising(d, order, elems, j) && n in q && m in q && n < elems + j && m < elems + j < |d|
    ensures n < |d| && Rising(d[elems + j := FatherDepth(d, n, m)], order + [n, m], elems, j + 1)
  {
    hide Levels;
    FatherHeight(t, d, q, final, n, m);
  }

  /** Before the first merge the nodes are the symbols. */
  lemma LevelsStart(t: seq<CtData>, d: seq<nat>, heap: seq<nat>, len: nat, elems: nat, maxCode: int, q: seq<nat>)
    requires Filled(t, heap, len, elems, maxCode) && Flat(d, heap, len) && |t| <= |d| && len >= 1
    requires multiset(q) == multiset(Queue(heap, len))
    ensures |WeightsOf(Active(Freqs(t), elems), Freqs(t))| > 0
    ensures Levels(t, d, q, HeightOf(WeightsOf(Active(Freqs(t), elems), Freqs(t))))
  {
    hide FinalHeight, Active;
    var w := Freqs(t);
    var act := Active(w, elems);
    FirstFibs();
    forall x | x in q || x in act ensures x in act && x < |t| && d[x] == 0 && w[x] > 0 {
      assert x in multiset(Queue(heap, len));
      assert x in Queue(heap, len);
      var i :| 0 <= i < len && Queue(heap, len)[i] == x;
      assert heap[i + 1] == x;
      assert x in multiset(act);
      ActiveMembers(w, elems, x);
    }
    forall i | 0 <= i < |q| ensures q[i] < |t| {
      assert q[i] in q;
    }
    forall i | 0 <= i < |act| ensures act[i] < |d| && ItemsOf(act, w, d)[i] == Leaves(WeightsOf(act, w))[i] {
      assert act[i] in act;
    }
    ItemsPermutation(q, act, w, d);
    assert ItemsOf(act, w, d) == Leaves(WeightsOf(act, w));
    assert |multiset(q)| == |q| && |multiset(act)| == |act|;
    assert |multiset(ItemsOf(act, w, d))| == |act|;
  }

  /** The height of the tree is that of its root, and no node lies deeper. */
  lemma {:induction false} NotBelow(order: seq<nat>, w: seq<nat>, act: seq<nat>, elems: nat, k: nat, dep: seq<nat>, d: seq<nat>, i: nat)
    requires MergeOrder(order, w, act, elems, k) && Depths(order, dep, elems, k) && i <= 2 * k
    requires Rising(d, order[..2 * k], elems, k) && order[2 * k] < |d|
    ensures order[i] < |d| && dep[order[i]] + d[order[i]] <= d[order[2 * k]]
    decreases 2 * k - i
  {
    if i < 2 * k {
      FatherLater(order, w, act, elems, k, i);
      var f :| i < f <= 2 * k && order[f] == elems + i / 2;
      NotBelow(order, w, act, elems, k, dep, d, f);
      assert order[..2 * k][i] == order[i];
    }
  }

  /** If the tree is deeper than some limit, then so is any that merging could make. */
  ghost predicate LeastHeight(order: seq<nat>, elems: nat, k: nat, ws: seq<nat>)
  {
    |ws| > 0 && forall limit: nat :: TooDeep(order, elems, k, limit) ==> HeightOf(ws) > limit
  }

  lemma TreeIsLow(t: seq<CtData>, d: seq<nat>, order: seq<nat>, act: seq<nat>, elems: nat, k: nat, ws: seq<nat>)
    requires k >= 1 && |order| == 2 * k + 1 && MergeOrder(order, Freqs(t), act, elems, k) && |ws| > 0
    requires Levels(t, d, [order[2 * k]], HeightOf(ws)) && Rising(d, order[..2 * k], elems, k)
    ensures LeastHeight(order, elems, k, ws)
  {
    hide FinalHeight, Fib, MergeOrder;
    var root := order[2 * k];
    assert [root][0] == root;
    FinalOne(ItemsOf([root], Freqs(t), d));
    forall limit: nat | TooDeep(order, elems, k, limit) ensures HeightOf(ws) > limit {
      var dep: seq<nat> :| Depths(order, dep, elems, k) && DeeperThan(order, dep, limit);
      var i: nat :| i < |order| && dep[order[i]] > limit;
      NotBelow(order, Freqs(t), act, elems, k, dep, d, i);
    }
  }
}
