/** How much weight it takes to make a Huffman tree deep. */
module HuffmanDepth {
  import opened Sums
  import opened HuffmanTree

  function Fib(n: nat): nat
  {
    if n < 2 then n else Fib(n - 2) + Fib(n - 1)
  }

  /** The brother of the node at position i. */
  function Brother(i: nat): nat
  {
    if i % 2 == 0 then i + 1 else i - 1
  }

  /** Every node of the tree weighs something: the first one taken is a leaf. */
  lemma AllHeavy(g: Growth, w: seq<nat>, elems: nat, i: nat)
    requires HuffmanMerge(g, w, elems) && i < |g.order|
    ensures g.weights[g.order[i]] >= 1
  {
    var act := Active(w, elems);
    var x := g.order[0];
    assert x < elems;
    assert x in multiset(g.order);
    assert x in multiset(act) + multiset(Range(elems, elems + g.k));
    assert x !in Range(elems, elems + g.k);
    assert x in multiset(act) && x in act;
    ActiveMembers(w, elems, x);
  }

  /** If a node h levels above some other weighs at least Fib(h + 2) and its brother
      Fib(h + 1), so it goes on up to the root. */
  lemma {:induction false} Climb(g: Growth, w: seq<nat>, elems: nat, dep: seq<nat>, i: nat, h: nat)
    requires HuffmanMerge(g, w, elems) && Depths(g.order, dep, elems, g.k) && i <= 2 * g.k
    requires g.weights[g.order[i]] >= Fib(h + 2)
    requires i < 2 * g.k ==> g.weights[g.order[Brother(i)]] >= Fib(h + 1)
    ensures g.weights[g.order[2 * g.k]] >= Fib(h + 2 + dep[g.order[i]])
    decreases 2 * g.k - i
  {
    hide Fib, Active;
    if i < 2 * g.k {
      var f := FatherOf(g, w, elems, dep, i);
      FatherWeighs(g, w, elems, i, f);
      FibNext(h + 1);
      Climb(g, w, elems, dep, f, h + 1);
    }
  }

  lemma FibNext(n: nat)
    ensures Fib(n + 2) == Fib(n) + Fib(n + 1)
  {
  }

  lemma FatherOf(g: Growth, w: seq<nat>, elems: nat, dep: seq<nat>, i: nat) returns (f: nat)
    requires HuffmanMerge(g, w, elems) && Depths(g.order, dep, elems, g.k) && i < 2 * g.k
    ensures i < f <= 2 * g.k && g.order[f] == elems + i / 2 && dep[g.order[i]] == dep[g.order[f]] + 1
  {
    FatherLater(g.order, g.weights, Active(w, elems), elems, g.k, i);
    f :| i < f <= 2 * g.k && g.order[f] == elems + i / 2;
  }

  lemma FatherWeighs(g: Growth, w: seq<nat>, elems: nat, i: nat, f: nat)
    requires HuffmanMerge(g, w, elems) && i < f <= 2 * g.k && g.order[f] == elems + i / 2
    ensures g.weights[g.order[f]] == g.weights[g.order[i]] + g.weights[g.order[Brother(i)]]
    ensures f < 2 * g.k ==> g.weights[g.order[Brother(f)]] >= g.weights[g.order[i]]
  {
    var j := i / 2;
    assert g.weights[elems + j] == g.weights[g.order[2 * j]] + g.weights[g.order[2 * j + 1]];
    if f < 2 * g.k {
      assert g.order[f] < elems + f / 2;
      assert Brother(f) > i;
    }
  }

  /** The root weighs as much as all symbols. */
  lemma {:induction false} RootWeight(g: Growth, w: seq<nat>, elems: nat)
    requires HuffmanMerge(g, w, elems)
    ensures g.weights[g.order[2 * g.k]] == SumOver(Range(0, elems), AsInts(w))
  {
    hide SumOver, Active;
    var act, v := Active(w, elems), AsInts(g.weights);
    LeavesAndFathers(g.order, g.weights, act, elems, g.k, v, v);
    OrderSplits(g.order, g.weights, act, elems, g.k);
    SumSame(act, v, AsInts(w));
    SumActive(w, elems, AsInts(w));
  }

  lemma {:induction false} FibGrows(a: nat, b: nat)
    requires a <= b
    ensures Fib(a) <= Fib(b)
    decreases b - a
  {
    if a < b {
      FibGrows(a + 1, b);
    }
  }

  /** A tree deeper than the limit takes a total frequency of Fib(limit + 3) at least. */
  lemma DeepIsHeavy(g: Growth, w: seq<nat>, elems: nat, limit: nat)
    requires HuffmanMerge(g, w, elems) && TooDeep(g.order, elems, g.k, limit)
    ensures SumOver(Range(0, elems), AsInts(w)) >= Fib(limit + 3)
  {
    hide SumOver, Fib;
    var dep: seq<nat> :| Depths(g.order, dep, elems, g.k) && DeeperThan(g.order, dep, limit);
    var i: nat :| i < |g.order| && dep[g.order[i]] > limit;
    AllHeavy(g, w, elems, i);
    if i < 2 * g.k {
      AllHeavy(g, w, elems, Brother(i));
    }
    FirstFibs();
    Climb(g, w, elems, dep, i, 0);
    FibGrows(limit + 3, 2 + dep[g.order[i]]);
    RootWeight(g, w, elems);
  }

  /** The first numbers, and the bounds for the limits 7 and 15. */
  lemma FirstFibs()
    ensures Fib(1) == 1 && Fib(2) == 1 && Fib(10) == 55 && Fib(18) == 2584
  {
    assert Fib(6) == 8 && Fib(7) == 13;
    assert Fib(10) == 55 && Fib(11) == 89;
    assert Fib(14) == 377 && Fib(15) == 610;
  }
}
