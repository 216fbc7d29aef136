/** Huffman's bound: merging the two least weights, again and again, costs no more
    than any prefix code for those weights. */
module HuffmanCost {
  import opened Bits

  function Dot(ws: seq<nat>, ls: seq<nat>): nat
    requires |ws| == |ls|
  {
    if ws == [] then 0
    else Dot(ws[..|ws| - 1], ls[..|ws| - 1]) + ws[|ws| - 1] * ls[|ws| - 1]
  }

  /** Kraft sum of code lengths in units of 2^-m; unlike in a table of code
      lengths, every entry is a code. */
  function KraftSum(ls: seq<nat>, m: nat): nat
    requires forall i :: 0 <= i < |ls| ==> ls[i] <= m
  {
    if ls == [] then 0
    else KraftSum(ls[..|ls| - 1], m) + Pow2(m - ls[|ls| - 1])
  }

  ghost predicate IsLeast(m: multiset<nat>, a: nat)
  {
    a in m && forall x :: x in m ==> a <= x
  }

  lemma {:induction false} LeastExists(m: multiset<nat>)
    requires |m| > 0
    ensures exists a :: IsLeast(m, a)
    decreases |m|
  {
    var x :| x in m;
    var rest := m - multiset{x};
    if |rest| == 0 {
      assert rest == multiset{};
      assert m == multiset{x};
      assert IsLeast(m, x);
    } else {
      LeastExists(rest);
      var a :| IsLeast(rest, a);
      assert forall y :: y in m ==> y == x || y in rest;
      if a <= x {
        assert IsLeast(m, a);
      } else {
        assert IsLeast(m, x);
      }
    }
  }

  ghost function Least(m: multiset<nat>): (a: nat)
    requires |m| > 0
    ensures IsLeast(m, a)
  {
    LeastExists(m);
    var a :| IsLeast(m, a);
    a
  }

  /** The weights after the two least are replaced by their sum. */
  ghost function Merge(m: multiset<nat>, a: nat, b: nat): (r: multiset<nat>)
    requires a in m && b in m - multiset{a}
    ensures |r| == |m| - 1
  {
    m - multiset{a} - multiset{b} + multiset{a + b}
  }

  /** What Huffman's algorithm pays: the sum of all merged weights. */
  ghost function HuffmanSum(m: multiset<nat>): nat
    requires |m| > 0
    decreases |m|
  {
    if |m| == 1 then 0
    else
      var a := Least(m);
      var b := Least(m - multiset{a});
      a + b + HuffmanSum(Merge(m, a, b))
  }

  /** One merge of any two least weights. */
  lemma {:induction false} HuffmanStep(m: multiset<nat>, a: nat, b: nat)
    requires |m| > 1 && IsLeast(m, a) && IsLeast(m - multiset{a}, b)
    ensures HuffmanSum(m) == a + b + HuffmanSum(Merge(m, a, b))
  {
    assert a == Least(m);
    assert b == Least(m - multiset{a});
  }

  function Remove<T>(s: seq<T>, i: nat): (r: seq<T>)
    requires i < |s|
    ensures |r| == |s| - 1
  {
    s[..i] + s[i + 1..]
  }

  lemma {:induction false} DotUpdate(ws: seq<nat>, ls: seq<nat>, i: nat, x: nat)
    requires |ws| == |ls| && i < |ls|
    ensures Dot(ws, ls[i := x]) == Dot(ws, ls) + ws[i] * x - ws[i] * ls[i]
  {
    var n := |ws| - 1;
    if i == n {
      assert ls[i := x][..n] == ls[..n];
    } else {
      DotUpdate(ws[..n], ls[..n], i, x);
      assert ls[i := x][..n] == ls[..n][i := x];
    }
  }

  lemma {:induction false} DotUpdateWeight(ws: seq<nat>, ls: seq<nat>, i: nat, w: nat)
    requires |ws| == |ls| && i < |ls|
    ensures Dot(ws[i := w], ls) == Dot(ws, ls) + w * ls[i] - ws[i] * ls[i]
  {
    var n := |ws| - 1;
    if i == n {
      assert ws[i := w][..n] == ws[..n];
    } else {
      DotUpdateWeight(ws[..n], ls[..n], i, w);
      assert ws[i := w][..n] == ws[..n][i := w];
    }
  }

  lemma {:induction false} DotRemove(ws: seq<nat>, ls: seq<nat>, i: nat)
    requires |ws| == |ls| && i < |ls|
    ensures Dot(ws, ls) == Dot(Remove(ws, i), Remove(ls, i)) + ws[i] * ls[i]
  {
    var n := |ws| - 1;
    if i == n {
      assert Remove(ws, i) == ws[..n] && Remove(ls, i) == ls[..n];
    } else {
      DotRemove(ws[..n], ls[..n], i);
      assert Remove(ws, i)[..n - 1] == Remove(ws[..n], i);
      assert Remove(ls, i)[..n - 1] == Remove(ls[..n], i);
    }
  }

  lemma {:induction false} KraftUpdate(ls: seq<nat>, m: nat, i: nat, x: nat)
    requires (forall k :: 0 <= k < |ls| ==> ls[k] <= m) && i < |ls| && x <= m
    ensures KraftSum(ls[i := x], m) == KraftSum(ls, m) + Pow2(m - x) - Pow2(m - ls[i])
  {
    var n := |ls| - 1;
    if i == n {
      assert ls[i := x][..n] == ls[..n];
    } else {
      KraftUpdate(ls[..n], m, i, x);
      assert ls[i := x][..n] == ls[..n][i := x];
    }
  }

  lemma {:induction false} KraftRemove(ls: seq<nat>, m: nat, i: nat)
    requires (forall k :: 0 <= k < |ls| ==> ls[k] <= m) && i < |ls|
    ensures forall k :: 0 <= k < |Remove(ls, i)| ==> Remove(ls, i)[k] <= m
    ensures KraftSum(ls, m) == KraftSum(Remove(ls, i), m) + Pow2(m - ls[i])
  {
    var n := |ls| - 1;
    if i == n {
      assert Remove(ls, i) == ls[..n];
    } else {
      KraftRemove(ls[..n], m, i);
      assert Remove(ls, i)[..n - 1] == Remove(ls[..n], i);
    }
  }

  lemma {:induction false} KraftSumScale(ls: seq<nat>, m: nat, n: nat)
    requires m <= n && forall k :: 0 <= k < |ls| ==> ls[k] <= m
    ensures KraftSum(ls, n) == KraftSum(ls, m) * Pow2(n - m)
  {
    if ls != [] {
      var l := ls[|ls| - 1];
      KraftSumScale(ls[..|ls| - 1], m, n);
      Pow2Add(m - l, n - m);
      MulSum(KraftSum(ls[..|ls| - 1], m), Pow2(m - l), Pow2(n - m));
    }
  }

  /** Giving the lighter of two items the longer code costs no more. */
  lemma {:induction false} SwapLengths(ws: seq<nat>, ls: seq<nat>, m: nat, i: nat, p: nat)
      returns (ls': seq<nat>)
    requires |ws| == |ls| && i < |ls| && p < |ls|
    requires forall k :: 0 <= k < |ls| ==> ls[k] <= m
    requires ws[i] <= ws[p] && ls[i] <= ls[p]
    ensures ls' == ls[i := ls[p]][p := ls[i]]
    ensures forall k :: 0 <= k < |ls'| ==> ls'[k] <= m
    ensures KraftSum(ls', m) == KraftSum(ls, m)
    ensures Dot(ws, ls') <= Dot(ws, ls)
  {
    var ls1 := ls[i := ls[p]];
    ls' := ls1[p := ls[i]];
    KraftUpdate(ls, m, i, ls[p]);
    KraftUpdate(ls1, m, p, ls[i]);
    DotUpdate(ws, ls, i, ls[p]);
    DotUpdate(ws, ls1, p, ls[i]);
    Exchange(ws[i], ws[p], ls[i], ls[p]);
    if i == p {
      assert ls1 == ls && ls' == ls;
    }
  }

  lemma Exchange(a: nat, b: nat, x: nat, y: nat)
    requires a <= b && x <= y
    ensures a * y + b * x <= a * x + b * y
  {
    assert (b - a) * (y - x) >= 0;
    assert (b - a) * (y - x) == b * y - b * x - a * y + a * x;
  }

  lemma {:induction false} LongestExists(ls: seq<nat>, skip: nat)
    requires |ls| > 0 && (|ls| == 1 ==> skip != 0)
    ensures exists p: nat :: p < |ls| && p != skip && forall k :: 0 <= k < |ls| && k != skip ==> ls[k] <= ls[p]
  {
    var p: nat := if skip == 0 then 1 else 0;
    for k := 0 to |ls|
      invariant p < |ls| && p != skip
      invariant forall j :: 0 <= j < k && j != skip ==> ls[j] <= ls[p]
    {
      if k != skip && ls[k] > ls[p] {
        p := k;
      }
    }
  }

  /** Take item i out and shorten item j, now at j', by one bit. */
  function Shifted(i: nat, j: nat): (j': nat)
    requires i != j
  {
    if j < i then j else j - 1
  }

  /** If i and then j have the longest codes, the code space that i frees is
      enough to shorten j by one bit. */
  lemma SmallPowers()
    ensures Pow2(0) == 1 && Pow2(1) == 2
  {
  }

  lemma {:induction false} MergedKraft(ls: seq<nat>, m: nat, i: nat, j: nat)
    requires i < |ls| && j < |ls| && i != j
    requires forall k :: 0 <= k < |ls| ==> ls[k] <= m
    requires KraftSum(ls, m) <= Pow2(m)
    requires ls[j] <= ls[i] && forall k :: 0 <= k < |ls| && k != i ==> ls[k] <= ls[j]
    ensures ls[j] >= 1 && Shifted(i, j) < |ls| - 1 && Remove(ls, i)[Shifted(i, j)] == ls[j]
    ensures var ls' := Remove(ls, i)[Shifted(i, j) := ls[j] - 1];
            && (forall k :: 0 <= k < |ls'| ==> ls'[k] <= ls[j])
            && KraftSum(ls', ls[j]) <= Pow2(ls[j])
  {
    hide Pow2, KraftSum;
    SmallPowers();
    var l := ls[j];
    var others := Remove(ls, i);
    assert forall k :: 0 <= k < |others| ==> others[k] <= l;
    KraftRemove(ls, m, i);
    KraftSumScale(others, l, m);
    Pow2Add(l, m - l);
    StrictCancel(KraftSum(others, l), Pow2(l), Pow2(m - l));
    var j' := Shifted(i, j);
    assert others[j'] == l;
    FullCodeLong(others, l, j');
    KraftRemove(others, l, j');
    KraftUpdate(others, l, j', l - 1);
    assert l - l == 0 && l - (l - 1) == 1;
  }

  /** With space left, a code that is as long as it may be is not empty. */
  lemma FullCodeLong(ls: seq<nat>, l: nat, i: nat)
    requires i < |ls| && (forall k :: 0 <= k < |ls| ==> ls[k] <= l) && ls[i] == l && KraftSum(ls, l) < Pow2(l)
    ensures l >= 1
  {
    hide KraftSum;
    SmallPowers();
    KraftRemove(ls, l, i);
  }

  /** Items i and j made one: i is gone, and j weighs as much as both. */
  function Joined(ws: seq<nat>, i: nat, j: nat): (r: seq<nat>)
    requires i < |ws| && j < |ws| && i != j
    ensures |r| == |ws| - 1
  {
    Remove(ws, i)[Shifted(i, j) := ws[i] + ws[j]]
  }

  lemma {:induction false} MergedCost(ws: seq<nat>, ls: seq<nat>, i: nat, j: nat)
    requires |ws| == |ls| && i < |ls| && j < |ls| && i != j
    requires 1 <= ls[j] <= ls[i]
    ensures Shifted(i, j) < |ls| - 1
    ensures Dot(Joined(ws, i, j), Remove(ls, i)[Shifted(i, j) := ls[j] - 1]) + ws[i] + ws[j] <= Dot(ws, ls)
  {
    var j' := Shifted(i, j);
    var w1, l1 := Remove(ws, i), Remove(ls, i);
    assert w1[j'] == ws[j] && l1[j'] == ls[j];
    DotRemove(ws, ls, i);
    DotUpdate(w1, l1, j', ls[j] - 1);
    DotUpdateWeight(w1, l1[j' := ls[j] - 1], j', ws[i] + ws[j]);
    MergeCost(ws[i], ws[j], ls[i], ls[j]);
  }

  lemma MergedWeights(ws: seq<nat>, i: nat, j: nat)
    requires i < |ws| && j < |ws| && i != j
    ensures multiset(Joined(ws, i, j)) == multiset(ws) - multiset{ws[i]} - multiset{ws[j]} + multiset{ws[i] + ws[j]}
  {
    hide Remove, Shifted;
    RemoveMultiset(ws, i);
    ShiftedItem(ws, i, j);
    UpdateMultiset(Remove(ws, i), Shifted(i, j), ws[i] + ws[j]);
  }

  lemma ShiftedItem<T>(ws: seq<T>, i: nat, j: nat)
    requires i < |ws| && j < |ws| && i != j
    ensures Shifted(i, j) < |ws| - 1 && Remove(ws, i)[Shifted(i, j)] == ws[j]
  {
  }

  lemma UpdateMultiset<T>(s: seq<T>, i: nat, v: T)
    requires i < |s|
    ensures multiset(s[i := v]) == multiset(s) - multiset{s[i]} + multiset{v}
  {
  }

  lemma StrictCancel(a: nat, b: nat, d: nat)
    requires d >= 1 && a * d < b * d
    ensures a < b
  {
  }

  lemma MergeCost(a: nat, b: nat, x: nat, l: nat)
    requires 1 <= l <= x
    ensures (a + b) * (l - 1) + (a + b) - b * (l - 1) <= a * x + b * l - b * (l - 1)
  {
    assert (a + b) * (l - 1) + (a + b) == (a + b) * l == a * l + b * l;
    assert a * l <= a * x;
  }

  lemma RemoveMultiset<T>(s: seq<T>, i: nat)
    requires i < |s|
    ensures multiset(Remove(s, i)) == multiset(s) - multiset{s[i]}
  {
    assert s == s[..i] + [s[i]] + s[i + 1..];
  }

  /** Any code can be rearranged, at no cost, so that a lightest item i has a
      longest code and a lightest other item j a longest other code. */
  lemma {:induction false} Rearranged(ws: seq<nat>, ls: seq<nat>, m: nat)
      returns (ls': seq<nat>, i: nat, j: nat)
    requires |ws| == |ls| > 1
    requires forall k :: 0 <= k < |ls| ==> ls[k] <= m
    ensures |ls'| == |ls| && (forall k :: 0 <= k < |ls'| ==> ls'[k] <= m)
    ensures KraftSum(ls', m) == KraftSum(ls, m) && Dot(ws, ls') <= Dot(ws, ls)
    ensures i < |ws| && j < |ws| && i != j
    ensures IsLeast(multiset(ws), ws[i]) && IsLeast(multiset(ws) - multiset{ws[i]}, ws[j])
    ensures ls'[j] <= ls'[i] && forall k :: 0 <= k < |ls'| && k != i ==> ls'[k] <= ls'[j]
  {
    i, j := TwoLightest(ws);
    LongestExists(ls, |ls|);
    var p: nat :| p < |ls| && forall k :: 0 <= k < |ls| ==> ls[k] <= ls[p];
    assert ws[p] in multiset(ws);
    var ls1 := SwapLengths(ws, ls, m, i, p);
    LongestExists(ls1, i);
    var q: nat :| q < |ls1| && q != i && forall k :: 0 <= k < |ls1| && k != i ==> ls1[k] <= ls1[q];
    OtherWeight(ws, i, q);
    ls' := SwapLengths(ws, ls1, m, j, q);
  }

  lemma TwoLightest(ws: seq<nat>) returns (i: nat, j: nat)
    requires |ws| > 1
    ensures i < |ws| && j < |ws| && i != j
    ensures IsLeast(multiset(ws), ws[i]) && IsLeast(multiset(ws) - multiset{ws[i]}, ws[j])
  {
    var a := Least(multiset(ws));
    i :| i < |ws| && ws[i] == a;
    RemoveMultiset(ws, i);
    var b := Least(multiset(ws) - multiset{a});
    assert b in multiset(Remove(ws, i));
    var r: nat :| r < |Remove(ws, i)| && Remove(ws, i)[r] == b;
    j := if r < i then r else r + 1;
  }

  lemma OtherWeight(ws: seq<nat>, i: nat, q: nat)
    requires i < |ws| && q < |ws| && i != q
    ensures ws[q] in multiset(ws) - multiset{ws[i]}
  {
    RemoveMultiset(ws, i);
    assert ws[q] == Remove(ws, i)[Shifted(i, q)];
    assert ws[q] in multiset(Remove(ws, i));
  }

  /** A single item costs nothing to tell from the others. */
  lemma OneWeight(ws: seq<nat>, ls: seq<nat>)
    requires |ws| == |ls| == 1
    ensures HuffmanSum(multiset(ws)) == 0 <= Dot(ws, ls)
  {
    assert |multiset(ws)| == 1;
  }

  /** Merging two lightest items is a step of Huffman's algorithm. */
  lemma HuffmanMerged(ws: seq<nat>, i: nat, j: nat)
    requires i < |ws| && j < |ws| && i != j
    requires IsLeast(multiset(ws), ws[i]) && IsLeast(multiset(ws) - multiset{ws[i]}, ws[j])
    ensures |multiset(Joined(ws, i, j))| >= 1
    ensures HuffmanSum(multiset(ws)) == ws[i] + ws[j] + HuffmanSum(multiset(Joined(ws, i, j)))
  {
    hide HuffmanSum, Remove, IsLeast, Joined, Merge;
    assert |multiset(ws)| == |ws|;
    OtherWeight(ws, i, j);
    MergedWeights(ws, i, j);
    IsMerge(multiset(ws), ws[i], ws[j], multiset(Joined(ws, i, j)));
    HuffmanStep(multiset(ws), ws[i], ws[j]);
  }

  lemma IsMerge(m: multiset<nat>, a: nat, b: nat, m': multiset<nat>)
    requires a in m && b in m - multiset{a} && m' == m - multiset{a} - multiset{b} + multiset{a + b}
    ensures m' == Merge(m, a, b)
  {
  }

  /** No assignment of code lengths that satisfies Kraft's inequality costs less
      than Huffman's merging. */
  lemma {:induction false} HuffmanIsLeast(ws: seq<nat>, ls: seq<nat>, m: nat)
    requires |ws| == |ls| > 0
    requires forall k :: 0 <= k < |ls| ==> ls[k] <= m
    requires KraftSum(ls, m) <= Pow2(m)
    ensures HuffmanSum(multiset(ws)) <= Dot(ws, ls)
    decreases |ws|
  {
    hide KraftSum, Dot, Pow2, HuffmanSum, Remove, Shifted, Merge, IsLeast, Joined;
    if |ws| > 1 {
      var ls1, i, j := Rearranged(ws, ls, m);
      MergedKraft(ls1, m, i, j);
      MergedCost(ws, ls1, i, j);
      HuffmanMerged(ws, i, j);
      HuffmanIsLeast(Joined(ws, i, j), Remove(ls1, i)[Shifted(i, j) := ls1[j] - 1], ls1[j]);
    } else {
      OneWeight(ws, ls);
    }
  }

  // ---------- every prefix code satisfies Kraft's inequality ----------

  /** One bit string is a prefix of the other. */
  predicate Clash(a: seq<bool>, b: seq<bool>)
  {
    a <= b || b <= a
  }

  ghost predicate PrefixCode(cs: seq<seq<bool>>)
  {
    cs == [] ||
    var n := |cs| - 1;
    PrefixCode(cs[..n]) && forall i :: 0 <= i < n ==> !Clash(cs[i], cs[n])
  }

  function Lengths(cs: seq<seq<bool>>): (ls: seq<nat>)
    ensures |ls| == |cs| && forall i :: 0 <= i < |cs| ==> ls[i] == |cs[i]|
  {
    seq(|cs|, i requires 0 <= i < |cs| => |cs[i]|)
  }

  /** What follows the bit b in the codes that start with it. */
  function Half(cs: seq<seq<bool>>, b: bool): (r: seq<seq<bool>>)
    requires forall i :: 0 <= i < |cs| ==> cs[i] != []
  {
    if cs == [] then []
    else
      Half(cs[..|cs| - 1], b) + (if cs[|cs| - 1][0] == b then [cs[|cs| - 1][1..]] else [])
  }

  lemma {:induction false} HalfMembers(cs: seq<seq<bool>>, b: bool, m: nat)
    requires forall i :: 0 <= i < |cs| ==> 1 <= |cs[i]| <= m
    ensures forall t :: t in Half(cs, b) ==> [b] + t in cs && |t| <= m - 1
  {
    if cs != [] {
      var n := |cs| - 1;
      HalfMembers(cs[..n], b, m);
      assert cs[n][0] == b ==> [b] + cs[n][1..] == cs[n];
      assert forall c :: c in cs[..n] ==> c in cs;
    }
  }

  lemma {:induction false} HalfPrefixCode(cs: seq<seq<bool>>, b: bool, m: nat)
    requires forall i :: 0 <= i < |cs| ==> 1 <= |cs[i]| <= m
    requires PrefixCode(cs)
    ensures PrefixCode(Half(cs, b))
  {
    hide PrefixCode, Clash, Half;
    if cs == [] {
      NoHalf(b);
    } else {
      var n := |cs| - 1;
      PrefixFront(cs);
      HalfPrefixCode(cs[..n], b, m);
      HalfMembers(cs[..n], b, m);
      var h := Half(cs[..n], b);
      if cs[n][0] == b {
        var c := cs[n][1..];
        assert cs[n] == [b] + c;
        forall i | 0 <= i < |h|
          ensures !Clash(h[i], c)
        {
          assert h[i] in h;
          var k :| 0 <= k < n && cs[k] == [b] + h[i];
          ClashTail(b, h[i], c);
        }
        OneCodeMore(h, c);
      } else {
        assert h + [] == h;
      }
      HalfLast(cs, b);
    }
  }

  lemma NoHalf(b: bool)
    ensures Half([], b) == [] && PrefixCode([])
  {
  }

  lemma PrefixFront(cs: seq<seq<bool>>)
    requires PrefixCode(cs) && cs != []
    ensures PrefixCode(cs[..|cs| - 1]) && forall i :: 0 <= i < |cs| - 1 ==> !Clash(cs[i], cs[|cs| - 1])
  {
  }

  lemma OneCodeMore(h: seq<seq<bool>>, c: seq<bool>)
    requires PrefixCode(h) && forall i :: 0 <= i < |h| ==> !Clash(h[i], c)
    ensures PrefixCode(h + [c])
  {
    assert (h + [c])[..|h|] == h;
  }

  lemma HalfLast(cs: seq<seq<bool>>, b: bool)
    requires cs != [] && forall i :: 0 <= i < |cs| ==> cs[i] != []
    ensures var n := |cs| - 1;
      Half(cs, b) == Half(cs[..n], b) + if cs[n][0] == b then [cs[n][1..]] else []
  {
  }

  lemma ClashTail(b: bool, x: seq<bool>, y: seq<bool>)
    ensures Clash([b] + x, [b] + y) <==> Clash(x, y)
  {
    assert ([b] + x)[1..] == x && ([b] + y)[1..] == y;
  }

  lemma KraftSumAppend(ls: seq<nat>, l: nat, m: nat)
    requires l <= m && forall i :: 0 <= i < |ls| ==> ls[i] <= m
    ensures forall i :: 0 <= i < |ls + [l]| ==> (ls + [l])[i] <= m
    ensures KraftSum(ls + [l], m) == KraftSum(ls, m) + Pow2(m - l)
  {
    assert (ls + [l])[..|ls|] == ls;
  }

  ghost predicate Within(cs: seq<seq<bool>>, lo: nat, m: nat)
  {
    forall i :: 0 <= i < |cs| ==> lo <= |cs[i]| <= m
  }

  /** Kraft sum of a list of codes. */
  ghost function KraftOf(cs: seq<seq<bool>>, m: nat): nat
    requires Within(cs, 0, m)
  {
    KraftSum(Lengths(cs), m)
  }

  lemma KraftOfAppend(cs: seq<seq<bool>>, c: seq<bool>, m: nat)
    requires Within(cs, 0, m) && |c| <= m
    ensures Within(cs + [c], 0, m)
    ensures KraftOf(cs + [c], m) == KraftOf(cs, m) + Pow2(m - |c|)
  {
    assert Lengths(cs + [c]) == Lengths(cs) + [|c|];
    KraftSumAppend(Lengths(cs), |c|, m);
  }

  lemma HalvesStep(front: seq<seq<bool>>, c: seq<bool>, m: nat)
    requires m >= 1 && Within(front, 1, m) && Within(front, 0, m) && 1 <= |c| <= m
    requires Within(Half(front, false), 0, m - 1) && Within(Half(front, true), 0, m - 1)
    requires KraftOf(front, m) == KraftOf(Half(front, false), m - 1) + KraftOf(Half(front, true), m - 1)
    ensures Within(front + [c], 1, m) && Within(front + [c], 0, m)
    ensures Within(Half(front + [c], false), 0, m - 1) && Within(Half(front + [c], true), 0, m - 1)
    ensures KraftOf(front + [c], m) == KraftOf(Half(front + [c], false), m - 1) + KraftOf(Half(front + [c], true), m - 1)
  {
    hide KraftOf, Half, Pow2;
    HalfAppend(front, c, false);
    HalfAppend(front, c, true);
    KraftOfAppend(front, c, m);
    KraftOfAppend(Half(front, c[0]), c[1..], m - 1);
    assert m - |c| == m - 1 - |c[1..]|;
  }

  lemma {:induction false} HalvesKraft(cs: seq<seq<bool>>, m: nat)
    requires m >= 1 && Within(cs, 1, m)
    ensures Within(cs, 0, m) && Within(Half(cs, false), 0, m - 1) && Within(Half(cs, true), 0, m - 1)
    ensures KraftOf(cs, m) == KraftOf(Half(cs, false), m - 1) + KraftOf(Half(cs, true), m - 1)
  {
    if cs == [] {
      assert Lengths(cs) == [] && Half(cs, false) == [] && Half(cs, true) == [];
    } else {
      hide KraftOf, Half;
      var n := |cs| - 1;
      HalvesKraft(cs[..n], m);
      HalvesStep(cs[..n], cs[n], m);
      assert cs == cs[..n] + [cs[n]];
    }
  }

  lemma HalfAppend(front: seq<seq<bool>>, c: seq<bool>, b: bool)
    requires c != [] && forall i :: 0 <= i < |front| ==> front[i] != []
    ensures forall i :: 0 <= i < |front + [c]| ==> (front + [c])[i] != []
    ensures Half(front + [c], b) == if c[0] == b then Half(front, b) + [c[1..]] else Half(front, b)
  {
    assert (front + [c])[..|front|] == front;
  }

  /** Kraft's inequality. */
  lemma {:induction false} PrefixCodeKraft(cs: seq<seq<bool>>, m: nat)
    requires PrefixCode(cs) && Within(cs, 0, m)
    ensures KraftOf(cs, m) <= Pow2(m)
    decreases m
  {
    hide KraftOf, PrefixCode, Half;
    SmallCodes(m);
    if cs == [] {
    } else if e: nat :| e < |cs| && cs[e] == [] {
      OnlyEmptyCode(cs, e);
      assert cs == [[]];
    } else {
      assert |cs[0]| > 0;
      assert Within(cs, 1, m) by { assert forall i :: 0 <= i < |cs| ==> cs[i] != []; }
      HalvesKraft(cs, m);
      HalfPrefixCode(cs, false, m);
      HalfPrefixCode(cs, true, m);
      PrefixCodeKraft(Half(cs, false), m - 1);
      PrefixCodeKraft(Half(cs, true), m - 1);
    }
  }

  lemma SmallCodes(m: nat)
    ensures KraftOf([], m) == 0 && KraftOf([[]], m) == Pow2(m)
  {
    hide KraftOf;
    NoCodes(m);
    var none: seq<seq<bool>> := [];
    KraftOfAppend(none, [], m);
    assert none + [[]] == [[]];
  }

  lemma NoCodes(m: nat)
    ensures KraftOf([], m) == 0
  {
    assert Lengths([]) == [];
  }

  lemma {:induction false} OnlyEmptyCode(cs: seq<seq<bool>>, e: nat)
    requires PrefixCode(cs) && e < |cs| && cs[e] == []
    ensures |cs| == 1
  {
    var n := |cs| - 1;
    assert e < n ==> !Clash(cs[e], cs[n]);
    assert n > 0 ==> !Clash(cs[0], cs[n]);
  }

  /** No prefix code for these weights costs less than Huffman's merging. */
  lemma {:induction false} HuffmanBeatsPrefixCodes(ws: seq<nat>, cs: seq<seq<bool>>, m: nat)
    requires |ws| == |cs| > 0 && PrefixCode(cs) && Within(cs, 0, m)
    ensures HuffmanSum(multiset(ws)) <= Dot(ws, Lengths(cs))
  {
    PrefixCodeKraft(cs, m);
    HuffmanIsLeast(ws, Lengths(cs), m);
  }
}
