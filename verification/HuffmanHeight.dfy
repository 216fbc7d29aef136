/** The tie-break of build_tree: of two equally frequent nodes the one with the lower tree is
    taken first. No cheapest code has a shorter longest word than the tree then is high. */
module HuffmanHeight {
  import opened Bits
  import opened HuffmanCost

  /** A node by its weight and the height of its tree. */
  datatype Item = Item(weight: nat, height: nat)

  predicate Before(a: Item, b: Item)
  {
    a.weight < b.weight || (a.weight == b.weight && a.height <= b.height)
  }

  function Father(a: Item, b: Item): Item
  {
    Item(a.weight + b.weight, (if a.height >= b.height then a.height else b.height) + 1)
  }

  ghost predicate IsFirst(m: multiset<Item>, a: Item)
  {
    a in m && forall x :: x in m ==> Before(a, x)
  }

  lemma {:induction false} FirstExists(m: multiset<Item>)
    requires |m| > 0
    ensures exists a :: IsFirst(m, a)
    decreases |m|
  {
    var x :| x in m;
    var rest := m - multiset{x};
    if |rest| == 0 {
      assert m == multiset{x};
      assert IsFirst(m, x);
    } else {
      FirstExists(rest);
      var a :| IsFirst(rest, a);
      assert forall y :: y in m ==> y == x || y in rest;
      assert IsFirst(m, if Before(a, x) then a else x);
    }
  }

  ghost function First(m: multiset<Item>): (a: Item)
    requires |m| > 0
    ensures IsFirst(m, a)
  {
    FirstExists(m);
    var a :| IsFirst(m, a);
    a
  }

  /** The items after the first two are replaced by their father. */
  ghost function Paired(m: multiset<Item>, a: Item, b: Item): (r: multiset<Item>)
    requires a in m && b in m - multiset{a}
    ensures |r| == |m| - 1
  {
    m - multiset{a} - multiset{b} + multiset{Father(a, b)}
  }

  /** How high the tree is that all items are merged to, always the first two. */
  ghost function FinalHeight(m: multiset<Item>): nat
    requires |m| > 0
    decreases |m|
  {
    if |m| == 1 then First(m).height
    else
      var a := First(m);
      var b := First(m - multiset{a});
      FinalHeight(Paired(m, a, b))
  }

  lemma {:induction false} FinalStep(m: multiset<Item>, a: Item, b: Item)
    requires |m| > 1 && IsFirst(m, a) && IsFirst(m - multiset{a}, b)
    ensures FinalHeight(m) == FinalHeight(Paired(m, a, b))
  {
    assert a == First(m);
    assert b == First(m - multiset{a});
  }

  lemma FinalOne(items: seq<Item>)
    requires |items| == 1
    ensures FinalHeight(multiset(items)) == items[0].height
  {
    assert items == [items[0]];
    assert multiset(items) == multiset{items[0]};
    assert |multiset(items)| == 1;
  }

  function Weights(items: seq<Item>): (ws: seq<nat>)
    ensures |ws| == |items| && forall k :: 0 <= k < |ws| ==> ws[k] == items[k].weight
  {
    seq(|items|, k requires 0 <= k < |items| => items[k].weight)
  }

  /** Nothing under length and height together comes below bound. */
  ghost predicate Bounded(items: seq<Item>, ls: seq<nat>, bound: nat)
    requires |items| == |ls|
  {
    forall k :: 0 <= k < |ls| ==> items[k].height + ls[k] <= bound
  }

  // ---------- the first two items of a list ----------

  ghost predicate FirstBut(items: seq<Item>, skip: nat, p: nat)
  {
    p < |items| && p != skip && forall k :: 0 <= k < |items| && k != skip ==> Before(items[p], items[k])
  }

  lemma FirstAt(items: seq<Item>, skip: nat) returns (p: nat)
    requires |items| > 0 && (|items| == 1 ==> skip != 0)
    ensures FirstBut(items, skip, p)
  {
    p := if skip == 0 then 1 else 0;
    for k := 0 to |items|
      invariant p < |items| && p != skip
      invariant forall j :: 0 <= j < k && j != skip ==> Before(items[p], items[j])
    {
      if k != skip && !Before(items[p], items[k]) {
        p := k;
      }
    }
  }

  lemma ListFirst(items: seq<Item>, p: nat)
    requires FirstBut(items, |items|, p)
    ensures IsFirst(multiset(items), items[p])
  {
    forall x | x in multiset(items) ensures Before(items[p], x) {
      assert x in items;
    }
  }

  lemma ListSecond(items: seq<Item>, i: nat, j: nat)
    requires i < |items| && FirstBut(items, i, j)
    ensures IsFirst(multiset(items) - multiset{items[i]}, items[j])
  {
    RemoveMultiset(items, i);
    ShiftedItem(items, i, j);
    assert items[j] in Remove(items, i);
    forall x | x in multiset(Remove(items, i)) ensures Before(items[j], x) {
      assert x in Remove(items, i);
    }
  }

  lemma LeastWeights(items: seq<Item>, i: nat, j: nat)
    requires FirstBut(items, |items|, i) && FirstBut(items, i, j)
    ensures IsLeast(multiset(Weights(items)), Weights(items)[i])
    ensures IsLeast(multiset(Weights(items)) - multiset{Weights(items)[i]}, Weights(items)[j])
  {
    var ws := Weights(items);
    forall x | x in multiset(ws) ensures ws[i] <= x {
      assert x in ws;
    }
    RemoveMultiset(ws, i);
    ShiftedItem(ws, i, j);
    assert ws[j] in Remove(ws, i);
    forall x | x in multiset(Remove(ws, i)) ensures ws[j] <= x {
      assert x in Remove(ws, i);
    }
  }

  // ---------- rearranging a cheapest code ----------

  ghost predicate Cheapest(ws: seq<nat>, ls: seq<nat>, m: nat)
  {
    && |ws| == |ls| > 0 && (forall k :: 0 <= k < |ls| ==> ls[k] <= m)
    && KraftSum(ls, m) <= Pow2(m) && Dot(ws, ls) == HuffmanSum(multiset(ws))
  }

  /** Exchanging the codes of two items, where the one that comes first has the shorter one,
      keeps the code cheapest and all words within the bound. */
  lemma SwapKeeps(items: seq<Item>, ls: seq<nat>, m: nat, bound: nat, i: nat, p: nat) returns (ls': seq<nat>)
    requires |items| == |ls| && Cheapest(Weights(items), ls, m) && Bounded(items, ls, bound)
    requires i < |ls| && p < |ls| && Before(items[i], items[p]) && ls[i] <= ls[p]
    ensures ls' == ls[i := ls[p]][p := ls[i]]
    ensures Cheapest(Weights(items), ls', m) && Bounded(items, ls', bound)
  {
    hide Dot, KraftSum, HuffmanSum, Pow2;
    var ws := Weights(items);
    ls' := SwapLengths(ws, ls, m, i, p);
    HuffmanIsLeast(ws, ls', m);
    DotSwapped(ws, ls, i, p);
    if ws[i] < ws[p] {
      NoGain(ws[p] - ws[i], ls[p] - ls[i]);
    }
  }

  lemma DotSwapped(ws: seq<nat>, ls: seq<nat>, i: nat, p: nat)
    requires |ws| == |ls| && i < |ls| && p < |ls| && ws[i] <= ws[p] && ls[i] <= ls[p]
    ensures Dot(ws, ls[i := ls[p]][p := ls[i]]) == Dot(ws, ls) - (ws[p] - ws[i]) * (ls[p] - ls[i])
  {
    hide Dot;
    var ls1 := ls[i := ls[p]];
    DotUpdate(ws, ls, i, ls[p]);
    DotUpdate(ws, ls1, p, ls[i]);
    if i == p {
      assert ls1 == ls && ls1[p := ls[i]] == ls;
    } else {
      Difference(ws[i], ws[p], ls[i], ls[p]);
    }
  }

  lemma Difference(a: nat, b: nat, x: nat, y: nat)
    ensures a * y - a * x + b * x - b * y == -((b - a) * (y - x))
  {
  }

  lemma NoGain(a: nat, x: nat)
    requires a > 0 && a * x == 0
    ensures x == 0
  {
  }

  /** The first two items can have the longest codes. */
  lemma Rearranged(items: seq<Item>, ls: seq<nat>, m: nat, bound: nat) returns (ls': seq<nat>, i: nat, j: nat)
    requires |items| == |ls| > 1 && Cheapest(Weights(items), ls, m) && Bounded(items, ls, bound)
    ensures |ls'| == |ls| && Cheapest(Weights(items), ls', m) && Bounded(items, ls', bound)
    ensures FirstBut(items, |items|, i) && FirstBut(items, i, j)
    ensures ls'[j] <= ls'[i] && forall k :: 0 <= k < |ls'| && k != i ==> ls'[k] <= ls'[j]
  {
    hide Dot, KraftSum, HuffmanSum, Pow2;
    i := FirstAt(items, |items|);
    j := FirstAt(items, i);
    LongestExists(ls, |ls|);
    var p: nat :| p < |ls| && forall k :: 0 <= k < |ls| ==> ls[k] <= ls[p];
    var ls1 := SwapKeeps(items, ls, m, bound, i, p);
    LongestExists(ls1, i);
    var q: nat :| q < |ls1| && q != i && forall k :: 0 <= k < |ls1| && k != i ==> ls1[k] <= ls1[q];
    ls' := SwapKeeps(items, ls1, m, bound, j, q);
  }

  /** Items i and j made one. */
  function JoinedItems(items: seq<Item>, i: nat, j: nat): (r: seq<Item>)
    requires i < |items| && j < |items| && i != j
    ensures |r| == |items| - 1
  {
    Remove(items, i)[Shifted(i, j) := Father(items[i], items[j])]
  }

  lemma JoinedFacts(items: seq<Item>, i: nat, j: nat)
    requires i < |items| && j < |items| && i != j
    ensures Weights(JoinedItems(items, i, j)) == Joined(Weights(items), i, j)
    ensures multiset(JoinedItems(items, i, j))
         == multiset(items) - multiset{items[i]} - multiset{items[j]} + multiset{Father(items[i], items[j])}
  {
    var r := JoinedItems(items, i, j);
    assert Weights(r) == Joined(Weights(items), i, j);
    RemoveMultiset(items, i);
    ShiftedItem(items, i, j);
    UpdateMultiset(Remove(items, i), Shifted(i, j), Father(items[i], items[j]));
  }

  lemma JoinedHeight(items: seq<Item>, i: nat, j: nat)
    requires FirstBut(items, |items|, i) && FirstBut(items, i, j)
    ensures |multiset(JoinedItems(items, i, j))| > 0
    ensures FinalHeight(multiset(items)) == FinalHeight(multiset(JoinedItems(items, i, j)))
  {
    hide JoinedItems, FinalHeight;
    ListFirst(items, i);
    ListSecond(items, i, j);
    JoinedFacts(items, i, j);
    FinalStep(multiset(items), items[i], items[j]);
  }

  lemma JoinedBounded(items: seq<Item>, ls: seq<nat>, bound: nat, i: nat, j: nat)
    requires |items| == |ls| && Bounded(items, ls, bound) && i < |ls| && j < |ls| && i != j && 1 <= ls[j] <= ls[i]
    ensures Shifted(i, j) < |ls| - 1
    ensures Bounded(JoinedItems(items, i, j), Remove(ls, i)[Shifted(i, j) := ls[j] - 1], bound)
  {
  }

  /** Of the joined items the code is cheapest still. */
  lemma JoinedCheapest(ws: seq<nat>, ls: seq<nat>, m: nat, i: nat, j: nat)
    requires |ws| > 1 && Cheapest(ws, ls, m) && i < |ws| && j < |ws| && i != j
    requires IsLeast(multiset(ws), ws[i]) && IsLeast(multiset(ws) - multiset{ws[i]}, ws[j])
    requires ls[j] <= ls[i] && forall k :: 0 <= k < |ls| && k != i ==> ls[k] <= ls[j]
    ensures ls[j] >= 1 && Shifted(i, j) < |ls| - 1
    ensures Cheapest(Joined(ws, i, j), Remove(ls, i)[Shifted(i, j) := ls[j] - 1], ls[j])
  {
    hide Dot, KraftSum, HuffmanSum, Pow2, Remove, Shifted, Joined, IsLeast;
    MergedKraft(ls, m, i, j);
    MergedCost(ws, ls, i, j);
    HuffmanMerged(ws, i, j);
    HuffmanIsLeast(Joined(ws, i, j), Remove(ls, i)[Shifted(i, j) := ls[j] - 1], ls[j]);
  }

  /** In a cheapest code some item, with the height it comes with, reaches as far up as the
      tree that merging makes. */
  lemma {:induction false} HeightIsLeast(items: seq<Item>, ls: seq<nat>, m: nat, bound: nat)
    requires |items| == |ls| && Cheapest(Weights(items), ls, m) && Bounded(items, ls, bound)
    ensures |multiset(items)| > 0 && FinalHeight(multiset(items)) <= bound
    decreases |items|
  {
    hide Cheapest, FinalHeight, Remove, Shifted, JoinedItems, IsLeast, Father;
    SameSize(Weights(items), ls, m);
    assert |multiset(items)| == |items|;
    if |items| > 1 {
      var ls1, i, j := Rearranged(items, ls, m, bound);
      LeastWeights(items, i, j);
      JoinedCheapest(Weights(items), ls1, m, i, j);
      JoinedBounded(items, ls1, bound, i, j);
      JoinedFacts(items, i, j);
      JoinedHeight(items, i, j);
      HeightIsLeast(JoinedItems(items, i, j), Remove(ls1, i)[Shifted(i, j) := ls1[j] - 1], ls1[j], bound);
    } else {
      FinalOne(items);
    }
  }

  // ---------- symbols ----------

  /** Symbols have no height of their own. */
  function Leaves(ws: seq<nat>): (items: seq<Item>)
    ensures |items| == |ws| && forall k :: 0 <= k < |ws| ==> items[k] == Item(ws[k], 0)
  {
    seq(|ws|, k requires 0 <= k < |ws| => Item(ws[k], 0))
  }

  ghost function HeightOf(ws: seq<nat>): nat
    requires |ws| > 0
  {
    FinalHeight(multiset(Leaves(ws)))
  }

  /** All cheapest codes have a word that is as long as the tree is high. */
  lemma CheapestReaches(ws: seq<nat>, ls: seq<nat>, m: nat, limit: nat)
    requires Cheapest(ws, ls, m) && forall k :: 0 <= k < |ls| ==> ls[k] <= limit
    ensures HeightOf(ws) <= limit
  {
    hide Cheapest, FinalHeight;
    SameSize(ws, ls, m);
    assert Weights(Leaves(ws)) == ws;
    HeightIsLeast(Leaves(ws), ls, m, limit);
  }

  lemma SameSize(ws: seq<nat>, ls: seq<nat>, m: nat)
    requires Cheapest(ws, ls, m)
    ensures |ws| == |ls| > 0
  {
  }
}
