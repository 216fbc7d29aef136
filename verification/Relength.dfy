/** The last part of gen_bitlen: after a repair, lengths are dealt out again, the
    longest to the least frequent symbols. */
module Relength {
  import opened Bits
  import opened Canonical
  import opened Sums
  import opened LengthLimit
  import opened GenCodes
  import opened FirstPass

  /** 1 for the leaves. */
  function IsLeaf(n: nat, leaves: nat): (v: seq<int>)
    ensures |v| == n && forall x :: 0 <= x < n ==> v[x] == if x < leaves then 1 else 0
  {
    seq(n, x requires 0 <= x < n => if x < leaves then 1 else 0)
  }

  /** The leaves among the first idx nodes have been given all lengths above bits,
      and all but n of those of length bits, longest first. */
  ghost predicate Dealt(order: seq<nat>, idx: nat, lens: seq<nat>, elems: nat, c: seq<nat>, m: nat, bits: nat, n: nat)
    requires idx <= |order| && Below(order, |lens|) && m < |c|
  {
    && bits <= m && (if bits == 0 then n == 0 else n <= c[bits])
    && (forall b :: 1 <= b <= m ==>
          SumOver(order[..idx], LeafLen(lens, elems, b))
            == if b > bits then c[b] else if b == bits then c[b] - n else 0)
    && SumOver(order[..idx], IsLeaf(|lens|, elems))
         == CountTotal(c, m) - CountTotal(c, bits) + (if bits == 0 then 0 else c[bits] - n)
    && (forall j :: 0 <= j < idx && order[j] < elems ==> 1 <= lens[order[j]] <= m && bits <= lens[order[j]])
    && LongestFirst(order, idx, lens, elems)
  }

  ghost predicate LongestFirst(order: seq<nat>, idx: nat, lens: seq<nat>, elems: nat)
    requires idx <= |order| && Below(order, |lens|)
  {
    forall i, j :: 0 <= i < j < idx && order[i] < elems && order[j] < elems ==> lens[order[i]] >= lens[order[j]]
  }

  ghost predicate NoRepeats(order: seq<nat>)
  {
    forall i, j :: 0 <= i < j < |order| ==> order[i] != order[j]
  }

  lemma DealtStart(order: seq<nat>, lens: seq<nat>, elems: nat, c: seq<nat>, m: nat)
    requires Below(order, |lens|) && 1 <= m < |c|
    ensures Dealt(order, 0, lens, elems, c, m, m, c[m])
  {
  }

  lemma DealtNext(order: seq<nat>, idx: nat, lens: seq<nat>, elems: nat, c: seq<nat>, m: nat, bits: nat)
    requires idx <= |order| && Below(order, |lens|) && 1 <= bits <= m < |c|
    requires Dealt(order, idx, lens, elems, c, m, bits, 0)
    ensures Dealt(order, idx, lens, elems, c, m, bits - 1, if bits == 1 then 0 else c[bits - 1])
  {
  }

  lemma SnocSum(order: seq<nat>, idx: nat, v: seq<int>)
    requires idx < |order| && Below(order, |v|)
    ensures SumOver(order[..idx + 1], v) == SumOver(order[..idx], v) + v[order[idx]]
  {
    assert order[..idx + 1] == order[..idx] + [order[idx]];
    SumAppend(order[..idx], order[idx], v);
  }

  lemma DealtSkip(order: seq<nat>, idx: nat, lens: seq<nat>, elems: nat, c: seq<nat>, m: nat, bits: nat, n: nat)
    requires idx < |order| && Below(order, |lens|) && m < |c|
    requires Dealt(order, idx, lens, elems, c, m, bits, n) && order[idx] >= elems
    ensures Dealt(order, idx + 1, lens, elems, c, m, bits, n)
  {
    hide SumOver;
    forall b | 1 <= b <= m {
      SnocSum(order, idx, LeafLen(lens, elems, b));
    }
    SnocSum(order, idx, IsLeaf(|lens|, elems));
  }

  lemma DealtOne(order: seq<nat>, idx: nat, lens: seq<nat>, elems: nat, c: seq<nat>, m: nat, bits: nat, n: nat)
    requires idx < |order| && Below(order, |lens|) && m < |c| && NoRepeats(order)
    requires Dealt(order, idx, lens, elems, c, m, bits, n) && order[idx] < elems
    requires bits >= 1 && n >= 1
    ensures Dealt(order, idx + 1, lens[order[idx] := bits], elems, c, m, bits, n - 1)
  {
    hide SumOver;
    var lens' := lens[order[idx] := bits];
    forall b | 1 <= b <= m
      ensures SumOver(order[..idx + 1], LeafLen(lens', elems, b))
           == SumOver(order[..idx], LeafLen(lens, elems, b)) + (if b == bits then 1 else 0)
    {
      SnocSum(order, idx, LeafLen(lens', elems, b));
      SumSame(order[..idx], LeafLen(lens', elems, b), LeafLen(lens, elems, b));
    }
    SnocSum(order, idx, IsLeaf(|lens|, elems));
  }

  /** While a length is left to deal, a leaf is left to get it. */
  lemma LeafLeft(order: seq<nat>, idx: nat, lens: seq<nat>, elems: nat, c: seq<nat>, m: nat, bits: nat, n: nat)
    requires idx <= |order| && Below(order, |lens|) && m < |c|
    requires Dealt(order, idx, lens, elems, c, m, bits, n) && n >= 1
    requires SumOver(order, IsLeaf(|lens|, elems)) == CountTotal(c, m)
    ensures idx < |order|
  {
    assert order[..|order|] == order;
    TotalMonotone(c, bits);
  }

  lemma TotalMonotone(c: seq<nat>, b: nat)
    requires b < |c|
    ensures b >= 1 ==> CountTotal(c, b) >= c[b]
  {
  }

  lemma NoTotal(c: seq<nat>)
    requires |c| > 0
    ensures CountTotal(c, 0) == 0
  {
  }

  lemma NoLeaves(ids: seq<nat>, n: nat, elems: nat)
    requires Below(ids, n) && SumOver(ids, IsLeaf(n, elems)) == 0
    ensures forall j :: 0 <= j < |ids| ==> ids[j] >= elems
  {
    hide SumOver;
    var leaf := IsLeaf(n, elems);
    forall j | 0 <= j < |ids| ensures ids[j] >= elems {
      SumRemove(ids, j, leaf);
      SumNonNegative(ids[..j] + ids[j + 1..], leaf);
    }
  }

  /** Once all lengths are dealt, every leaf has one. */
  lemma {:induction false} AllDealt(order: seq<nat>, idx: nat, lens: seq<nat>, elems: nat, c: seq<nat>, m: nat)
    requires idx <= |order| && Below(order, |lens|) && m < |c|
    requires Dealt(order, idx, lens, elems, c, m, 0, 0)
    requires SumOver(order, IsLeaf(|lens|, elems)) == CountTotal(c, m)
    ensures forall j :: idx <= j < |order| ==> order[j] >= elems
    ensures forall j :: 0 <= j < |order| && order[j] < elems ==> 1 <= lens[order[j]] <= m
    ensures forall b :: 1 <= b <= m ==> SumOver(order, LeafLen(lens, elems, b)) == c[b]
    ensures LongestFirst(order, |order|, lens, elems)
  {
    hide SumOver, CountTotal;
    var leaf := IsLeaf(|lens|, elems);
    NoTotal(c);
    var rest := order[idx..];
    assert order == order[..idx] + rest;
    SumConcat(order[..idx], rest, leaf);
    NoLeaves(rest, |lens|, elems);
    forall j | idx <= j < |order|
      ensures order[j] >= elems
    {
      assert rest[j - idx] == order[j];
    }
    forall b | 1 <= b <= m
      ensures SumOver(order, LeafLen(lens, elems, b)) == c[b]
    {
      SumConcat(order[..idx], rest, LeafLen(lens, elems, b));
      SumZero(rest, LeafLen(lens, elems, b));
    }
  }

  /** Changing one entry changes the sum by as much. */
  lemma SumChange(order: seq<nat>, idx: nat, v: seq<int>, v': seq<int>)
    requires idx < |order| && NoRepeats(order) && Below(order, |v|) && |v'| == |v|
    requires forall x :: 0 <= x < |v| && x != order[idx] ==> v'[x] == v[x]
    ensures SumOver(order, v') == SumOver(order, v) + v'[order[idx]] - v[order[idx]]
  {
    SumRemove(order, idx, v);
    SumRemove(order, idx, v');
    var rest := order[..idx] + order[idx + 1..];
    assert forall j :: 0 <= j < |rest| ==> rest[j] != order[idx];
    SumSame(rest, v, v');
  }

  lemma CostChange(order: seq<nat>, idx: nat, w: seq<nat>, lens: seq<nat>, desc: TreeDesc, bits: nat)
    requires idx < |order| && NoRepeats(order) && Below(order, |w|) && |lens| == |w| && order[idx] < desc.elems
    ensures SumOver(order, LeafCost(w, lens[order[idx] := bits], desc))
         == SumOver(order, LeafCost(w, lens, desc)) + (bits - lens[order[idx]]) * w[order[idx]]
  {
    hide SumOver;
    var m := order[idx];
    SumChange(order, idx, LeafCost(w, lens, desc), LeafCost(w, lens[m := bits], desc));
    CostDelta(w[m], lens[m], bits, desc.Extra(m));
  }

  lemma CostDelta(f: nat, a: nat, b: nat, x: nat)
    ensures f * (b + x) - f * (a + x) == (b - a) * f
  {
  }

  /** What is true while lengths are dealt: the first idx nodes have got theirs, and the cost
      has been kept up to date. */
  ghost predicate Dealing(t0: seq<CtData>, t: seq<CtData>, order: seq<nat>, w: seq<nat>, desc: TreeDesc, idx: nat,
                          c: seq<nat>, bits: nat, n: nat, base: int, opt: int)
  {
    && |t| == |t0| == |w| && Below(order, |w|) && idx <= |order| && desc.maxLength < |c|
    && LengthsOnly(t0, t, order)
    && Dealt(order, idx, Lens(t, |w|), desc.elems, c, desc.maxLength, bits, n)
    && opt == base + SumOver(order, LeafCost(w, Lens(t, |w|), desc))
  }

  lemma DealingStart(t0: seq<CtData>, order: seq<nat>, w: seq<nat>, desc: TreeDesc, c: seq<nat>, base: int, opt: int)
    requires |t0| == |w| && Below(order, |w|) && 1 <= desc.maxLength < |c|
    requires opt == base + SumOver(order, LeafCost(w, Lens(t0, |w|), desc))
    ensures Dealing(t0, t0, order, w, desc, 0, c, desc.maxLength, c[desc.maxLength], base, opt)
  {
    hide Dealt, SumOver;
    LengthsOnlyStart(t0, order);
    DealtStart(order, Lens(t0, |w|), desc.elems, c, desc.maxLength);
  }

  lemma DealingSkip(t0: seq<CtData>, t: seq<CtData>, order: seq<nat>, w: seq<nat>, desc: TreeDesc, idx: nat,
                    c: seq<nat>, bits: nat, n: nat, base: int, opt: int)
    requires Dealing(t0, t, order, w, desc, idx, c, bits, n, base, opt) && idx < |order| && order[idx] >= desc.elems
    ensures Dealing(t0, t, order, w, desc, idx + 1, c, bits, n, base, opt)
  {
    hide Dealt, SumOver;
    DealtSkip(order, idx, Lens(t, |w|), desc.elems, c, desc.maxLength, bits, n);
  }

  lemma DealingOne(t0: seq<CtData>, t: seq<CtData>, order: seq<nat>, w: seq<nat>, desc: TreeDesc, idx: nat,
                   c: seq<nat>, bits: nat, n: nat, base: int, opt: int, t': seq<CtData>)
    requires Dealing(t0, t, order, w, desc, idx, c, bits, n, base, opt) && NoRepeats(order)
    requires idx < |order| && order[idx] < desc.elems && bits >= 1 && n >= 1 && w[order[idx]] == t[order[idx]].fc
    requires bits <= 0xffff && t' == t[order[idx] := t[order[idx]].(dl := bits)]
    ensures Dealing(t0, t', order, w, desc, idx + 1, c, bits, n - 1, base, opt + (bits - t[order[idx]].dl) * w[order[idx]])
  {
    hide Dealt, SumOver;
    var m := order[idx];
    DealtOne(order, idx, Lens(t, |w|), desc.elems, c, desc.maxLength, bits, n);
    CostChange(order, idx, w, Lens(t, |w|), desc, bits);
    LengthsOnlyStep(t0, t, order, idx, t[m].(dl := bits));
    assert Lens(t', |w|) == Lens(t, |w|)[m := bits];
  }

  lemma DealingNext(t0: seq<CtData>, t: seq<CtData>, order: seq<nat>, w: seq<nat>, desc: TreeDesc, idx: nat,
                    c: seq<nat>, bits: nat, base: int, opt: int)
    requires Dealing(t0, t, order, w, desc, idx, c, bits, 0, base, opt) && 1 <= bits <= desc.maxLength
    ensures bits - 1 < |c| && Dealing(t0, t, order, w, desc, idx, c, bits - 1, if bits == 1 then 0 else c[bits - 1], base, opt)
  {
    hide Dealt, SumOver;
    DealtNext(order, idx, Lens(t, |w|), desc.elems, c, desc.maxLength, bits);
  }

  /** While a length is left to deal, a leaf is left to get it. */
  lemma DealingLeft(t0: seq<CtData>, t: seq<CtData>, order: seq<nat>, w: seq<nat>, desc: TreeDesc, idx: nat,
                    c: seq<nat>, bits: nat, n: nat, base: int, opt: int)
    requires Dealing(t0, t, order, w, desc, idx, c, bits, n, base, opt) && n >= 1 && |c| >= 1
    requires SumOver(order, IsLeaf(|w|, desc.elems)) == CountTotal(c, desc.maxLength)
    ensures idx < |order|
    ensures forall x :: 0 <= x < |t| ==> t[x].fc == t0[x].fc
  {
    hide Dealt, SumOver;
    LeafLeft(order, idx, Lens(t, |w|), desc.elems, c, desc.maxLength, bits, n);
  }

  lemma DealingEnd(t0: seq<CtData>, t: seq<CtData>, order: seq<nat>, w: seq<nat>, desc: TreeDesc, idx: nat,
                   c: seq<nat>, base: int, opt: int)
    requires Dealing(t0, t, order, w, desc, idx, c, 0, 0, base, opt)
    requires SumOver(order, IsLeaf(|w|, desc.elems)) == CountTotal(c, desc.maxLength)
    ensures |t| == |t0| == |w| && Below(order, |w|)
    ensures forall x :: 0 <= x < |t| ==> t[x].fc == t0[x].fc
    ensures forall x :: 0 <= x < |t| && x !in order ==> t[x] == t0[x]
    ensures opt == base + SumOver(order, LeafCost(w, Lens(t, |w|), desc))
    ensures forall j :: 0 <= j < |order| && order[j] < desc.elems ==> 1 <= t[order[j]].dl <= desc.maxLength
    ensures forall b :: 1 <= b <= desc.maxLength ==> SumOver(order, LeafLen(Lens(t, |w|), desc.elems, b)) == c[b]
    ensures LongestFirst(order, |order|, Lens(t, |w|), desc.elems)
  {
    hide Dealt, SumOver, LongestFirst, CountTotal;
    AllDealt(order, idx, Lens(t, |w|), desc.elems, c, desc.maxLength);
  }

  method DealLengths(tree: array<CtData>, heap: array<nat>, blCount: array<nat>, desc: TreeDesc, maxCode: nat,
                     optLen: int, ghost order: seq<nat>, ghost w: seq<nat>)
      returns (opt: int)
    requires desc.Valid() && maxCode < desc.elems && blCount.Length == MAX_BITS + 1
    requires |w| == tree.Length && Below(order, |w|) && NoRepeats(order)
    requires |order| <= HEAP_SIZE && InHeap(heap[..], HEAP_SIZE - |order|, order)
    requires forall j :: 0 <= j < |order| ==> (order[j] > maxCode <==> order[j] >= desc.elems)
    requires forall j :: 0 <= j < |order| && order[j] < desc.elems ==> w[order[j]] == tree[order[j]].fc
    requires SumOver(order, IsLeaf(|w|, desc.elems)) == CountTotal(blCount[..], desc.maxLength)
    modifies tree
    ensures forall x :: 0 <= x < tree.Length ==> tree[x].fc == old(tree[x].fc)
    ensures forall x :: 0 <= x < tree.Length && x !in order ==> tree[x] == old(tree[x])
    ensures opt - optLen == SumOver(order, LeafCost(w, Lens(tree[..], |w|), desc))
                          - old(SumOver(order, LeafCost(w, Lens(tree[..], |w|), desc)))
    ensures forall j :: 0 <= j < |order| && order[j] < desc.elems ==> 1 <= tree[..][order[j]].dl <= desc.maxLength
    ensures forall b :: 1 <= b <= desc.maxLength ==>
              SumOver(order, LeafLen(Lens(tree[..], |w|), desc.elems, b)) == blCount[b]
    ensures LongestFirst(order, |order|, Lens(tree[..], |w|), desc.elems)
  {
    hide Dealing, SumOver, CountTotal, LongestFirst, Pow2;
    ghost var t0 := tree[..];
    ghost var base := optLen - SumOver(order, LeafCost(w, Lens(t0, |w|), desc));
    ghost var c := blCount[..];
    opt := optLen;
    var h := HEAP_SIZE;
    var bits := desc.maxLength;
    DealingStart(t0, order, w, desc, c, base, opt);
    while bits != 0
      invariant HEAP_SIZE - |order| <= h <= HEAP_SIZE && 0 <= bits <= desc.maxLength
      invariant Dealing(t0, tree[..], order, w, desc, HEAP_SIZE - h, c, bits, if bits == 0 then 0 else c[bits], base, opt)
    {
      var n := blCount[bits];
      while n != 0
        invariant HEAP_SIZE - |order| <= h <= HEAP_SIZE
        invariant Dealing(t0, tree[..], order, w, desc, HEAP_SIZE - h, c, bits, n, base, opt)
        decreases h
      {
        ghost var idx := HEAP_SIZE - h;
        ghost var t := tree[..];
        DealingLeft(t0, t, order, w, desc, idx, c, bits, n, base, opt);
        h := h - 1;
        var m := heap[h];
        assert heap[..][HEAP_SIZE - 1 - idx] == order[idx];
        if m > maxCode {
          DealingSkip(t0, t, order, w, desc, idx, c, bits, n, base, opt);
          continue;
        }
        DealingOne(t0, t, order, w, desc, idx, c, bits, n, base, opt, t[m := t[m].(dl := bits)]);
        if tree[m].dl != bits {
          opt := opt + (bits - tree[m].dl) * tree[m].fc;
          tree[m] := tree[m].(dl := bits);
        }
        assert tree[..] == t[m := t[m].(dl := bits)];
        n := n - 1;
      }
      DealingNext(t0, tree[..], order, w, desc, HEAP_SIZE - h, c, bits, base, opt);
      bits := bits - 1;
    }
    DealingEnd(t0, tree[..], order, w, desc, HEAP_SIZE - h, c, base, opt);
  }
}
