/** What "optimal" means for the code lengths of one tree. */
module HuffmanOptimal {
  import opened Bits
  import opened Canonical
  import opened Sums
  import opened HuffmanCost
  import opened CodeLengths
  import opened Merging

  /** The lengths cost exactly what Huffman's merging pays. */
  ghost predicate CheapestCode(w: seq<nat>, lens: seq<nat>)
  {
    && |lens| <= |w| && |Active(w, |lens|)| >= 1
    && CodeCost(w, lens, |lens|) == HuffmanSum(multiset(WeightsOf(Active(w, |lens|), w)))
  }

  /** Less frequent symbols never get shorter codes. */
  ghost predicate FrequentShorter(w: seq<nat>, lens: seq<nat>)
  {
    |lens| <= |w| && forall s, t :: 0 <= s < |lens| && 0 <= t < |lens| && 0 < w[s] < w[t] ==> lens[s] >= lens[t]
  }

  /** No prefix code for the symbols that occur is cheaper. */
  lemma NoPrefixCodeIsCheaper(w: seq<nat>, lens: seq<nat>, cs: seq<seq<bool>>, m: nat)
    requires CheapestCode(w, lens)
    requires |cs| == |Active(w, |lens|)| && PrefixCode(cs) && Within(cs, 0, m)
    ensures CodeCost(w, lens, |lens|) <= Dot(WeightsOf(Active(w, |lens|), w), Lengths(cs))
  {
    HuffmanBeatsPrefixCodes(WeightsOf(Active(w, |lens|), w), cs, m);
  }

  lemma WeightsAppend(ids: seq<nat>, x: nat, v: seq<nat>)
    requires Below(ids, |v|) && x < |v|
    ensures Below(ids + [x], |v|) && WeightsOf(ids + [x], v) == WeightsOf(ids, v) + [v[x]]
  {
  }

  lemma DotAppend(ws: seq<nat>, ls: seq<nat>, a: nat, l: nat)
    requires |ws| == |ls|
    ensures Dot(ws + [a], ls + [l]) == Dot(ws, ls) + a * l
  {
    assert (ws + [a])[..|ws|] == ws && (ls + [l])[..|ls|] == ls;
  }

  /** Over the symbols that occur, the table of lengths is a list of codes. */
  lemma {:induction false} CodesOfTable(w: seq<nat>, lens: seq<nat>, n: nat, m: nat)
    requires n <= |lens| <= |w|
    requires forall i :: 0 <= i < |lens| ==> lens[i] <= m && (lens[i] > 0 <==> w[i] > 0)
    ensures AllWithin(WeightsOf(Active(w, n), lens), m)
    ensures Dot(WeightsOf(Active(w, n), w), WeightsOf(Active(w, n), lens)) == CodeCost(w, lens, n)
  {
    hide Dot, Active, CodeCost, WeightsOf, AllWithin;
    if n == 0 {
      NoSpace(w, lens, m);
      CodeCostNone(w, lens);
    } else {
      CodesOfTable(w, lens, n - 1, m);
      ActiveStep(w, n - 1);
      CodeCostLast(w, lens, n);
      var act := Active(w, n - 1);
      if w[n - 1] > 0 {
        WeightsAppend(act, n - 1, w);
        WeightsAppend(act, n - 1, lens);
        WithinAppend(WeightsOf(act, lens), lens[n - 1], m);
        DotAppend(WeightsOf(act, w), WeightsOf(act, lens), w[n - 1], lens[n - 1]);
      }
    }
  }

  lemma CodeCostNone(w: seq<nat>, lens: seq<nat>)
    ensures CodeCost(w, lens, 0) == 0
  {
  }

  lemma CodeCostLast(w: seq<nat>, lens: seq<nat>, n: nat)
    requires 1 <= n <= |lens| <= |w|
    ensures CodeCost(w, lens, n) == CodeCost(w, lens, n - 1) + w[n - 1] * lens[n - 1]
    ensures w[n - 1] == 0 ==> CodeCost(w, lens, n) == CodeCost(w, lens, n - 1)
  {
  }

  ghost predicate AllWithin(ls: seq<nat>, m: nat)
  {
    forall i :: 0 <= i < |ls| ==> ls[i] <= m
  }

  /** And takes the same code space. */
  lemma {:induction false} SpaceOfTable(w: seq<nat>, lens: seq<nat>, n: nat, m: nat)
    requires n <= |lens| <= |w|
    requires forall i :: 0 <= i < |lens| ==> lens[i] <= m && (lens[i] > 0 <==> w[i] > 0)
    requires AllWithin(WeightsOf(Active(w, n), lens), m)
    ensures KraftSum(WeightsOf(Active(w, n), lens), m) == Kraft(lens[..n], m)
  {
    hide KraftSum, Kraft, Dot, CodeCost, Active, WeightsOf, AllWithin, Pow2;
    if n == 0 {
      NoSpace(w, lens, m);
    } else {
      CodesOfTable(w, lens, n - 1, m);
      SpaceOfTable(w, lens, n - 1, m);
      KraftLast(lens, n, m);
      ActiveStep(w, n - 1);
      WithinAll(WeightsOf(Active(w, n - 1), lens), m);
      if w[n - 1] > 0 {
        WeightsAppend(Active(w, n - 1), n - 1, lens);
        KraftSumAppend(WeightsOf(Active(w, n - 1), lens), lens[n - 1], m);
      }
    }
  }

  lemma NoSpace(w: seq<nat>, lens: seq<nat>, m: nat)
    ensures Active(w, 0) == [] && KraftSum(WeightsOf([], lens), m) == 0 && Kraft(lens[..0], m) == 0
    ensures Dot(WeightsOf([], w), WeightsOf([], lens)) == 0 && AllWithin(WeightsOf([], lens), m)
  {
    assert WeightsOf([], w) == [];
  }

  lemma WithinAppend(ls: seq<nat>, l: nat, m: nat)
    requires AllWithin(ls, m) && l <= m
    ensures AllWithin(ls + [l], m)
  {
  }

  lemma WithinAll(ls: seq<nat>, m: nat)
    requires AllWithin(ls, m)
    ensures forall i :: 0 <= i < |ls| ==> ls[i] <= m
  {
  }

  lemma KraftLast(lens: seq<nat>, n: nat, m: nat)
    requires 1 <= n <= |lens| && forall i :: 0 <= i < |lens| ==> lens[i] <= m
    ensures Kraft(lens[..n], m) == Kraft(lens[..n - 1], m) + (if lens[n - 1] > 0 then Pow2(m - lens[n - 1]) else 0)
  {
    assert lens[..n][..n - 1] == lens[..n - 1];
  }

  /** In a cheapest code, a more frequent item never has the longer code: exchanging
      the two would be cheaper still. */
  lemma {:induction false} CheapestIsSorted(ws: seq<nat>, ls: seq<nat>, m: nat, i: nat, j: nat)
    requires |ws| == |ls| && i < |ws| && j < |ws| && forall k :: 0 <= k < |ls| ==> ls[k] <= m
    requires KraftSum(ls, m) <= Pow2(m) && Dot(ws, ls) == HuffmanSum(multiset(ws))
    requires ws[i] < ws[j]
    ensures ls[i] >= ls[j]
  {
    hide Dot, KraftSum, HuffmanSum;
    var ls1 := ls[i := ls[j]];
    var ls2 := ls1[j := ls[i]];
    KraftUpdate(ls, m, i, ls[j]);
    KraftUpdate(ls1, m, j, ls[i]);
    DotUpdate(ws, ls, i, ls[j]);
    DotUpdate(ws, ls1, j, ls[i]);
    HuffmanIsLeast(ws, ls2, m);
    StrictExchange(ws[i], ws[j], ls[i], ls[j]);
  }

  lemma StrictExchange(a: nat, b: nat, x: nat, y: nat)
    requires a < b && a * y + b * x >= a * x + b * y
    ensures x >= y
  {
    assert (b - a) * (y - x) == b * y - b * x - a * y + a * x;
    assert y - x >= 1 ==> (b - a) * (y - x) >= 1;
  }

  lemma {:induction false} CheapestFrequentShorter(w: seq<nat>, lens: seq<nat>, m: nat)
    requires CompleteCode(w, lens, m) && CheapestCode(w, lens)
    ensures FrequentShorter(w, lens)
  {
    hide Dot, KraftSum, HuffmanSum, CodeCost, Kraft, Active;
    var act := Active(w, |lens|);
    var ws, ls := WeightsOf(act, w), WeightsOf(act, lens);
    CodesOfTable(w, lens, |lens|, m);
    SpaceOfTable(w, lens, |lens|, m);
    assert lens[..|lens|] == lens;
    forall s, t | 0 <= s < |lens| && 0 <= t < |lens| && 0 < w[s] < w[t]
      ensures lens[s] >= lens[t]
    {
      ActiveMembers(w, |lens|, s);
      ActiveMembers(w, |lens|, t);
      var i: nat :| i < |act| && act[i] == s;
      var j: nat :| j < |act| && act[j] == t;
      CheapestIsSorted(ws, ls, m, i, j);
    }
  }
}
