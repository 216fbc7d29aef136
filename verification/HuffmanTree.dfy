/** The tree that build_tree leaves in the heap array, and what the depths of its
    nodes add up to. */
module HuffmanTree {
  import opened Bits
  import opened Sums

  function Min(a: nat, b: nat): nat { if a <= b then a else b }

  /** The nodes of a Huffman tree in the order they were taken off the heap: two by
      two, order[2j] and order[2j+1] are the sons of the internal node elems + j, and
      the root comes last. act are the leaves, w the weights of all nodes. */
  ghost predicate MergeOrder(order: seq<nat>, w: seq<nat>, act: seq<nat>, elems: nat, k: nat)
  {
    && k >= 1 && |order| == 2 * k + 1 && elems + k <= |w|
    && Below(order, elems + k) && Below(act, elems)
    && multiset(order) == multiset(act) + multiset(Range(elems, elems + k))
    && order[2 * k] == elems + k - 1
    && (forall i :: 0 <= i < 2 * k ==> order[i] < elems + i / 2)
    && (forall j :: 0 <= j < k ==> w[elems + j] == w[order[2 * j]] + w[order[2 * j + 1]])
  }

  /** dep gives the root depth 0 and every other node one more than its father. */
  ghost predicate Depths(order: seq<nat>, dep: seq<nat>, elems: nat, k: nat)
    requires |order| == 2 * k + 1 && k >= 1 && Below(order, elems + k)
  {
    && elems + k <= |dep|
    && dep[elems + k - 1] == 0
    && (forall i :: 0 <= i < 2 * k ==> dep[order[i]] == dep[elems + i / 2] + 1)
  }

  lemma {:induction false} PairPrefix(order: seq<nat>, u: seq<int>, t: seq<int>, elems: nat, j: nat)
    requires 2 * j <= |order| && Below(order, |u|) && elems + j <= |t|
    requires forall i :: 0 <= i < j ==> u[order[2 * i]] + u[order[2 * i + 1]] == t[elems + i]
    ensures SumOver(order[..2 * j], u) == SumOver(Range(elems, elems + j), t)
  {
    if j != 0 {
      PairPrefix(order, u, t, elems, j - 1);
      var a, b := order[2 * (j - 1)], order[2 * (j - 1) + 1];
      assert u[a] + u[b] == t[elems + (j - 1)];
      assert order[..2 * j] == order[..2 * (j - 1)] + [a] + [b];
      SumAppend(order[..2 * (j - 1)], a, u);
      SumAppend(order[..2 * (j - 1)] + [a], b, u);
      RangeNext(elems, elems + j - 1);
      SumAppend(Range(elems, elems + j - 1), elems + j - 1, t);
    }
  }

  /** Leaves and internal nodes together are the sons of internal nodes and the root. */
  lemma {:induction false} LeavesAndFathers(order: seq<nat>, w: seq<nat>, act: seq<nat>, elems: nat, k: nat,
                         u: seq<int>, t: seq<int>)
    requires MergeOrder(order, w, act, elems, k)
    requires |u| >= elems + k && |t| >= elems + k
    requires forall j :: 0 <= j < k ==> u[order[2 * j]] + u[order[2 * j + 1]] == t[elems + j]
    ensures SumOver(act, u) + SumOver(Range(elems, elems + k), u)
         == SumOver(Range(elems, elems + k), t) + u[elems + k - 1]
    ensures SumOver(order, u) == SumOver(act, u) + SumOver(Range(elems, elems + k), u)
    ensures SumOver(order[..2 * k], u) == SumOver(Range(elems, elems + k), t)
  {
    hide MergeOrder;
    OrderSplits(order, w, act, elems, k);
    var inner := Range(elems, elems + k);
    PairPrefix(order, u, t, elems, k);
    SumAppend(order[..2 * k], elems + k - 1, u);
    SumPermutation(order, act + inner, u);
    SumConcat(act, inner, u);
  }

  lemma OrderSplits(order: seq<nat>, w: seq<nat>, act: seq<nat>, elems: nat, k: nat)
    requires MergeOrder(order, w, act, elems, k)
    ensures k >= 1 && |order| == 2 * k + 1 && Below(order, elems + k) && Below(act, elems)
    ensures order == order[..2 * k] + [elems + k - 1] && order[2 * k] == elems + k - 1 < |w|
    ensures Below(act + Range(elems, elems + k), elems + k)
    ensures multiset(order) == multiset(act + Range(elems, elems + k))
  {
  }

  /** 2^(m - clamped depth), per node. */
  function SpaceOf(dep: seq<nat>, m: nat): (v: seq<int>)
    ensures |v| == |dep| && forall x :: 0 <= x < |v| ==> v[x] == Pow2(m - Min(dep[x], m))
  {
    seq(|dep|, x requires 0 <= x < |dep| => Pow2(m - Min(dep[x], m)))
  }

  /** 1 for the nodes whose depth is at least m. */
  function AtLeast(dep: seq<nat>, m: nat): (v: seq<int>)
    ensures |v| == |dep| && forall x :: 0 <= x < |v| ==> v[x] == if dep[x] >= m then 1 else 0
  {
    seq(|dep|, x requires 0 <= x < |dep| => if dep[x] >= m then 1 else 0)
  }

  function Plus(u: seq<int>, v: seq<int>): (r: seq<int>)
    requires |u| == |v|
    ensures |r| == |u| && forall x :: 0 <= x < |r| ==> r[x] == u[x] + v[x]
  {
    seq(|u|, x requires 0 <= x < |u| => u[x] + v[x])
  }

  /** Two sons share the code space of their father, except at the limit, where the
      clamped sons take one unit more than there is. */
  lemma SonsShare(d: nat, m: nat)
    ensures Pow2(m - Min(d + 1, m)) + Pow2(m - Min(d + 1, m))
         == Pow2(m - Min(d, m)) + (if d >= m then 1 else 0)
  {
    if d < m {
      assert m - Min(d, m) == (m - Min(d + 1, m)) + 1;
    } else {
      assert Pow2(0) == 1;
    }
  }

  /** How many internal nodes lie at or below depth m. */
  function Deep(dep: seq<nat>, elems: nat, k: nat, m: nat): int
    requires elems + k <= |dep|
  {
    SumOver(Range(elems, elems + k), AtLeast(dep, m))
  }

  /** The depths of the two sons of internal node elems + j. */
  lemma SonDepths(order: seq<nat>, dep: seq<nat>, elems: nat, k: nat, j: nat)
    requires |order| == 2 * k + 1 && k >= 1 && Below(order, elems + k)
    requires Depths(order, dep, elems, k) && j < k
    ensures dep[order[2 * j]] == dep[order[2 * j + 1]] == dep[elems + j] + 1
  {
    assert dep[order[2 * j]] == dep[elems + (2 * j) / 2] + 1;
    assert dep[order[2 * j + 1]] == dep[elems + (2 * j + 1) / 2] + 1;
  }

  /** Clamping the depths to m takes one unit of code space too much for every
      internal node at or below depth m. */
  lemma {:induction false} ClampedSpace(order: seq<nat>, w: seq<nat>, act: seq<nat>, elems: nat, k: nat, dep: seq<nat>, m: nat)
    requires MergeOrder(order, w, act, elems, k)
    requires Depths(order, dep, elems, k)
    ensures SumOver(act, SpaceOf(dep, m)) == Pow2(m) + Deep(dep, elems, k, m)
  {
    hide MergeOrder, SumOver, Min, Pow2;
    OrderSplits(order, w, act, elems, k);
    var u, deep := SpaceOf(dep, m), AtLeast(dep, m);
    var t := Plus(u, deep);
    forall j | 0 <= j < k
      ensures u[order[2 * j]] + u[order[2 * j + 1]] == t[elems + j]
    {
      SonDepths(order, dep, elems, k, j);
      SonsShare(dep[elems + j], m);
    }
    LeavesAndFathers(order, w, act, elems, k, u, t);
    SumPlus(Range(elems, elems + k), t, u, deep);
    RootSpace(m);
  }

  lemma RootSpace(m: nat)
    ensures Pow2(m - Min(0, m)) == Pow2(m)
  {
  }

  /** Two nodes are clamped for each internal node at or below the limit. */
  lemma {:induction false} ClampedNodes(order: seq<nat>, w: seq<nat>, act: seq<nat>, elems: nat, k: nat, dep: seq<nat>, m: nat)
    requires MergeOrder(order, w, act, elems, k)
    requires Depths(order, dep, elems, k)
    ensures SumOver(order[..2 * k], AtLeast(dep, m + 1)) == 2 * Deep(dep, elems, k, m)
  {
    hide MergeOrder, SumOver;
    OrderSplits(order, w, act, elems, k);
    var deep, over := AtLeast(dep, m), AtLeast(dep, m + 1);
    var twice := Plus(deep, deep);
    forall j | 0 <= j < k
      ensures over[order[2 * j]] + over[order[2 * j + 1]] == twice[elems + j]
    {
      SonDepths(order, dep, elems, k, j);
    }
    LeavesAndFathers(order, w, act, elems, k, over, twice);
    SumPlus(Range(elems, elems + k), twice, deep, deep);
  }

  /** At least as many leaves are clamped as there are internal nodes at or below
      the limit. */
  lemma {:induction false} ClampedLeaves(order: seq<nat>, w: seq<nat>, act: seq<nat>, elems: nat, k: nat, dep: seq<nat>, m: nat)
    requires MergeOrder(order, w, act, elems, k)
    requires Depths(order, dep, elems, k)
    ensures SumOver(act, AtLeast(dep, m + 1)) >= Deep(dep, elems, k, m)
  {
    var deep, over := AtLeast(dep, m), AtLeast(dep, m + 1);
    var inner := Range(elems, elems + k);
    ClampedNodes(order, w, act, elems, k, dep, m);
    OrderSplits(order, w, act, elems, k);
    SumAppend(order[..2 * k], elems + k - 1, over);
    SumPermutation(order, act + inner, over);
    SumConcat(act, inner, over);
    SumMonotone(inner, over, deep);
  }

  lemma {:induction false} SumMonotone(ids: seq<nat>, v: seq<int>, w: seq<int>)
    requires Below(ids, |v|) && Below(ids, |w|)
    requires forall i :: 0 <= i < |ids| ==> v[ids[i]] <= w[ids[i]]
    ensures SumOver(ids, v) <= SumOver(ids, w)
  {
    if ids != [] {
      SumMonotone(ids[..|ids| - 1], v, w);
    }
  }

  /** Weight times depth, per node. */
  function WeightedDepth(w: seq<nat>, dep: seq<nat>): (v: seq<int>)
    requires |w| == |dep|
    ensures |v| == |dep| && forall x :: 0 <= x < |v| ==> v[x] == w[x] * dep[x]
  {
    seq(|dep|, x requires 0 <= x < |dep| => w[x] * dep[x])
  }

  /** The weights as numbers to be summed. */
  function AsInts(w: seq<nat>): (v: seq<int>)
    ensures |v| == |w| && forall x :: 0 <= x < |v| ==> v[x] == w[x]
  {
    seq(|w|, x requires 0 <= x < |w| => w[x])
  }

  /** Leaf weight times depth adds up to the weights of the internal nodes. */
  lemma {:induction false} CostIsInternalWeight(order: seq<nat>, w: seq<nat>, act: seq<nat>, elems: nat, k: nat, dep: seq<nat>)
    requires MergeOrder(order, w, act, elems, k) && |dep| == |w|
    requires Depths(order, dep, elems, k)
    ensures SumOver(act, WeightedDepth(w, dep)) == SumOver(Range(elems, elems + k), AsInts(w))
  {
    hide SumOver, MergeOrder, Depths;
    OrderSplits(order, w, act, elems, k);
    var u, ws := WeightedDepth(w, dep), AsInts(w);
    var t := Plus(u, ws);
    forall j | 0 <= j < k
      ensures u[order[2 * j]] + u[order[2 * j + 1]] == t[elems + j]
    {
      SonsCost(order, w, act, elems, k, dep, j);
    }
    LeavesAndFathers(order, w, act, elems, k, u, t);
    SumPlus(Range(elems, elems + k), t, u, ws);
    RootLast(order, w, act, elems, k, dep);
    assert u[elems + k - 1] == w[elems + k - 1] * 0;
  }

  /** Two sons cost what their father costs and weighs. */
  lemma SonsCost(order: seq<nat>, w: seq<nat>, act: seq<nat>, elems: nat, k: nat, dep: seq<nat>, j: nat)
    requires MergeOrder(order, w, act, elems, k) && |dep| == |w| && Depths(order, dep, elems, k) && j < k
    ensures w[order[2 * j]] * dep[order[2 * j]] + w[order[2 * j + 1]] * dep[order[2 * j + 1]]
         == w[elems + j] * dep[elems + j] + w[elems + j]
  {
    SonDepths(order, dep, elems, k, j);
    SonsSum(w[order[2 * j]], w[order[2 * j + 1]], w[elems + j], dep[elems + j]);
  }

  lemma SonsSum(a: nat, b: nat, c: nat, d: nat)
    requires c == a + b
    ensures a * (d + 1) + b * (d + 1) == c * d + c
  {
    MulSum(a, b, d + 1);
    assert c * (d + 1) == c * d + c;
  }

  /** A father stands further back than his sons. */
  lemma {:induction false} FatherLater(order: seq<nat>, w: seq<nat>, act: seq<nat>, elems: nat, k: nat, i: nat)
    requires MergeOrder(order, w, act, elems, k) && i < 2 * k
    ensures exists i' :: i < i' <= 2 * k && order[i'] == elems + i / 2
  {
    var f := elems + i / 2;
    assert Range(elems, elems + k)[i / 2] == f;
    assert f in multiset(Range(elems, elems + k));
    assert f in multiset(order);
    var i' :| 0 <= i' <= 2 * k && order[i'] == f;
    assert i' == 2 * k || f < elems + i' / 2;
  }

  /** No node is listed twice. */
  lemma {:induction false} OrderDistinct(order: seq<nat>, w: seq<nat>, freq: seq<nat>, elems: nat, k: nat, i: nat, j: nat)
    requires elems <= |freq|
    requires MergeOrder(order, w, Active(freq, elems), elems, k) && i < j <= 2 * k
    ensures order[i] != order[j]
  {
    if order[i] == order[j] {
      BagDistinct(order, i, j);
      OneOfEach(freq, elems, k, order[i]);
    }
  }

  lemma {:induction false} OneOfEach(freq: seq<nat>, elems: nat, k: nat, x: nat)
    requires elems <= |freq|
    ensures (multiset(Active(freq, elems)) + multiset(Range(elems, elems + k)))[x] <= 1
  {
    var act, inner := Active(freq, elems), Range(elems, elems + k);
    ActiveIncreases(freq, elems);
    IncreasingOnce(act, x);
    IncreasingOnce(inner, x);
    assert x in multiset(act) ==> x in act;
    assert x in multiset(inner) ==> x in inner;
  }

  lemma {:induction false} IncreasingOnce(s: seq<nat>, x: nat)
    requires forall i, j :: 0 <= i < j < |s| ==> s[i] < s[j]
    ensures multiset(s)[x] <= 1
  {
    if s != [] {
      var n := |s| - 1;
      IncreasingOnce(s[..n], x);
      assert s == s[..n] + [s[n]];
      if s[n] == x {
        assert x !in s[..n];
        assert x !in multiset(s[..n]);
      }
    }
  }

  /** A tree as it was built: the nodes as they were taken off the heap, the weights of
      all nodes and the number of internal ones. */
  datatype Growth = Growth(order: seq<nat>, weights: seq<nat>, k: nat)

  /** It is a Huffman tree for the frequencies w of elems symbols: the lighter nodes were
      always merged before the heavier ones. */
  ghost predicate HuffmanMerge(m: Growth, w: seq<nat>, elems: nat)
  {
    && elems <= |w| && elems <= |m.weights| && (forall x :: 0 <= x < elems ==> m.weights[x] == w[x])
    && MergeOrder(m.order, m.weights, Active(w, elems), elems, m.k) && Below(m.order, |m.weights|)
    && forall i, j :: 0 <= i < j < |m.order| ==> m.weights[m.order[i]] <= m.weights[m.order[j]]
  }

  // ---------- how deep a tree is ----------

  ghost predicate DeeperThan(order: seq<nat>, dep: seq<nat>, m: nat)
    requires Below(order, |dep|)
  {
    exists i :: 0 <= i < |order| && dep[order[i]] > m
  }

  /** Some node of the tree lies deeper than m. */
  ghost predicate TooDeep(order: seq<nat>, elems: nat, k: nat, m: nat)
  {
    && |order| == 2 * k + 1 && k >= 1 && Below(order, elems + k)
    && exists dep: seq<nat> :: Depths(order, dep, elems, k) && DeeperThan(order, dep, m)
  }

  /** The order leaves no choice of depths. */
  lemma {:induction false} DepthsUnique(order: seq<nat>, w: seq<nat>, freq: seq<nat>, elems: nat, k: nat, a: seq<nat>, b: seq<nat>, i: nat)
    requires elems <= |freq| && MergeOrder(order, w, Active(freq, elems), elems, k) && i <= 2 * k
    requires Depths(order, a, elems, k) && Depths(order, b, elems, k)
    ensures a[order[i]] == b[order[i]]
    decreases 2 * k - i
  {
    if i < 2 * k {
      FatherLater(order, w, Active(freq, elems), elems, k, i);
      var f: nat :| i < f <= 2 * k && order[f] == elems + i / 2;
      DepthsUnique(order, w, freq, elems, k, a, b, f);
    }
  }

  lemma DeepByAny(order: seq<nat>, w: seq<nat>, freq: seq<nat>, elems: nat, k: nat, dep: seq<nat>, m: nat)
    requires elems <= |freq| && MergeOrder(order, w, Active(freq, elems), elems, k) && Depths(order, dep, elems, k)
    ensures TooDeep(order, elems, k, m) <==> DeeperThan(order, dep, m)
  {
    if TooDeep(order, elems, k, m) {
      var other: seq<nat> :| Depths(order, other, elems, k) && DeeperThan(order, other, m);
      var i: nat :| i < |order| && other[order[i]] > m;
      DepthsUnique(order, w, freq, elems, k, dep, other, i);
    }
  }

  lemma {:induction false} SumPositive(ids: seq<nat>, v: seq<int>, i: nat)
    requires Below(ids, |v|) && (forall j :: 0 <= j < |ids| ==> v[ids[j]] >= 0) && i < |ids| && v[ids[i]] > 0
    ensures SumOver(ids, v) > 0
  {
    if i < |ids| - 1 {
      SumPositive(ids[..|ids| - 1], v, i);
    } else {
      SumNonNegative(ids[..|ids| - 1], v);
    }
  }

  /** A tree is too deep exactly if internal nodes lie at or below the limit. */
  lemma {:induction false} DeepIfInternal(order: seq<nat>, w: seq<nat>, freq: seq<nat>, elems: nat, k: nat, dep: seq<nat>, m: nat)
    requires elems <= |freq| && MergeOrder(order, w, Active(freq, elems), elems, k) && Depths(order, dep, elems, k)
    ensures TooDeep(order, elems, k, m) <==> Deep(dep, elems, k, m) != 0
  {
    hide SumOver, MergeOrder;
    DeepByAny(order, w, freq, elems, k, dep, m);
    ClampedNodes(order, w, Active(freq, elems), elems, k, dep, m);
    RootLast(order, w, Active(freq, elems), elems, k, dep);
    var front := order[..2 * k];
    if DeeperThan(order, dep, m) {
      var i: nat :| i < |order| && dep[order[i]] > m;
      assert front[i] == order[i];
      SumPositive(front, AtLeast(dep, m + 1), i);
    } else {
      forall i | 0 <= i < |front| ensures AtLeast(dep, m + 1)[front[i]] == 0 {
        assert front[i] == order[i];
      }
      SumZero(front, AtLeast(dep, m + 1));
    }
  }

  lemma RootLast(order: seq<nat>, w: seq<nat>, act: seq<nat>, elems: nat, k: nat, dep: seq<nat>)
    requires MergeOrder(order, w, act, elems, k) && Depths(order, dep, elems, k)
    ensures |order| == 2 * k + 1 && dep[order[2 * k]] == 0 && Below(order, |dep|)
  {
  }
}
