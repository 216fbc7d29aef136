/** gen_bitlen as a whole, seen from the symbols: their lengths form a complete
    prefix code within the limit, and opt_len and static_len grow by what it costs. */
module CodeLengths {
  import opened Bits
  import opened Canonical
  import opened Sums
  import opened HuffmanTree
  import opened LengthLimit
  import opened GenCodes
  import opened FirstPass
  import opened Relength

  /** The lengths code exactly the symbols that occur, within m bits, using up all
      of the code space. */
  ghost predicate CompleteCode(w: seq<nat>, lens: seq<nat>, m: nat)
  {
    && |lens| <= |w|
    && (forall i :: 0 <= i < |lens| ==> lens[i] <= m && (lens[i] > 0 <==> w[i] > 0))
    && Kraft(lens, m) == Pow2(m)
  }

  /** What symbols 0..n-1 cost: frequency times code length and extra bits. */
  function SymbolCost(w: seq<nat>, lens: seq<nat>, desc: TreeDesc, n: nat): nat
    requires n <= |w| && n <= |lens|
  {
    if n == 0 then 0 else SymbolCost(w, lens, desc, n - 1) + w[n - 1] * (lens[n - 1] + desc.Extra(n - 1))
  }

  /** Frequency times code length, without extra bits. */
  function CodeCost(w: seq<nat>, lens: seq<nat>, n: nat): nat
    requires n <= |w| && n <= |lens|
  {
    if n == 0 then 0 else CodeCost(w, lens, n - 1) + w[n - 1] * lens[n - 1]
  }

  function StaticSymbolCost(w: seq<nat>, desc: TreeDesc, n: nat): nat
    requires n <= |w|
  {
    if n == 0 then 0 else StaticSymbolCost(w, desc, n - 1) + w[n - 1] * (desc.StaticLen(n - 1) + desc.Extra(n - 1))
  }

  lemma {:induction false} ActiveBelow(w: seq<nat>, n: nat, n': nat)
    requires n <= n' <= |w| && forall x :: n <= x < n' ==> w[x] == 0
    ensures Active(w, n') == Active(w, n)
    decreases n'
  {
    if n < n' {
      ActiveBelow(w, n, n' - 1);
    }
  }

  lemma {:induction false} ActiveSize(w: seq<nat>, n: nat, v: seq<int>)
    requires n <= |w| && n <= |v| && forall x :: 0 <= x < n ==> v[x] == 1
    ensures SumOver(Active(w, n), v) == |Active(w, n)| <= n
  {
    if n != 0 {
      ActiveSize(w, n - 1, v);
      if w[n - 1] > 0 {
        SumAppend(Active(w, n - 1), n - 1, v);
      }
    }
  }

  /** all extends the lengths of the first n symbols to all nodes. */
  ghost predicate Extends(all: seq<nat>, w: seq<nat>, lens: seq<nat>, m: nat)
  {
    && |lens| <= |all| == |w|
    && forall i :: 0 <= i < |lens| ==> lens[i] == all[i] <= m && (lens[i] > 0 <==> w[i] > 0)
  }

  lemma {:induction false} KraftOfSymbols(w: seq<nat>, lens: seq<nat>, all: seq<nat>, m: nat)
    requires Extends(all, w, lens, m)
    ensures Kraft(lens, m) == SumOver(Active(w, |lens|), SpaceOf(all, m))
  {
    if lens != [] {
      var n := |lens| - 1;
      KraftOfSymbols(w, lens[..n], all, m);
      assert Kraft(lens, m) == Kraft(lens[..n], m) + KraftTerm(lens[n], m);
      assert Active(w, n + 1) == if w[n] > 0 then Active(w, n) + [n] else Active(w, n);
      hide Kraft, Active, SumOver, Pow2;
      if w[n] > 0 {
        SumAppend(Active(w, n), n, SpaceOf(all, m));
      }
    }
  }

  lemma {:induction false} CountOfSymbols(w: seq<nat>, lens: seq<nat>, all: seq<nat>, m: nat, leaves: nat, b: nat)
    requires Extends(all, w, lens, m) && |lens| <= leaves && b >= 1
    ensures Count(lens, b) == SumOver(Active(w, |lens|), LeafLen(all, leaves, b))
  {
    if lens != [] {
      var n := |lens| - 1;
      CountOfSymbols(w, lens[..n], all, m, leaves, b);
      if w[n] > 0 {
        SumAppend(Active(w, n), n, LeafLen(all, leaves, b));
      }
    }
  }

  lemma {:induction false} CostOfSymbols(w: seq<nat>, lens: seq<nat>, all: seq<nat>, m: nat, desc: TreeDesc, n: nat)
    requires Extends(all, w, lens, m) && n <= |lens| <= desc.elems
    ensures SymbolCost(w, lens, desc, n) == SumOver(Active(w, n), LeafCost(w, all, desc))
  {
    if n != 0 {
      CostOfSymbols(w, lens, all, m, desc, n - 1);
      if w[n - 1] > 0 {
        SumAppend(Active(w, n - 1), n - 1, LeafCost(w, all, desc));
      } else {
        assert w[n - 1] * (lens[n - 1] + desc.Extra(n - 1)) == 0;
      }
    }
  }

  lemma {:induction false} StaticCostOfSymbols(w: seq<nat>, desc: TreeDesc, n: nat)
    requires n <= desc.elems && n <= |w| && desc.staticLens != []
    ensures StaticSymbolCost(w, desc, n) == SumOver(Active(w, n), StaticCost(w, desc))
  {
    if n != 0 {
      StaticCostOfSymbols(w, desc, n - 1);
      if w[n - 1] > 0 {
        SumAppend(Active(w, n - 1), n - 1, StaticCost(w, desc));
      } else {
        assert w[n - 1] * (desc.StaticLen(n - 1) + desc.Extra(n - 1)) == 0;
      }
    }
  }

  /** What the leaves know about their depth. */
  lemma {:induction false} LeafFacts(order: seq<nat>, w: seq<nat>, act: seq<nat>, elems: nat, k: nat, dep: seq<nat>, x: nat)
    requires MergeOrder(order, w, act, elems, k) && Depths(order, dep, elems, k) && x < |act|
    ensures act[x] in order[..2 * k] && dep[act[x]] >= 1
  {
    assert act[x] in multiset(act);
    assert act[x] in multiset(order);
    assert act[x] in order;
    var i :| 0 <= i < |order| && order[i] == act[x];
    assert i < 2 * k;
  }

  lemma {:induction false} ClampedCounts(act: seq<nat>, elems: nat, dep: seq<nat>, m: nat, counts: seq<nat>)
    requires elems <= |dep| && Below(act, elems) && 1 <= m <= MAX_BITS && |counts| == MAX_BITS + 1
    requires forall x :: 0 <= x < |act| ==> dep[act[x]] >= 1
    requires forall b :: 0 <= b <= MAX_BITS ==> counts[b] == SumOver(act, LeafLen(Clamp(dep, m), elems, b))
    ensures CountSpace(counts, m, m) == SumOver(act, SpaceOf(dep, m))
    ensures CountTotal(counts, m) == |act|
    ensures counts[0] == 0 && counts[m] >= SumOver(act, AtLeast(dep, m + 1))
    ensures forall b :: m < b <= MAX_BITS ==> counts[b] == 0
  {
    var lens := Clamp(dep, m);
    Grouped(act, lens, elems, m, counts);
    SumSame(act, SpaceOf(lens, m), SpaceOf(dep, m));
    forall b | b == 0 || m < b <= MAX_BITS
      ensures counts[b] == 0
    {
      SumZero(act, LeafLen(lens, elems, b));
    }
    SumMonotone(act, AtLeast(dep, m + 1), LeafLen(lens, elems, m));
  }

  /** The state of affairs after the first pass of gen_bitlen. */
  lemma {:induction false} AfterFirstPass(order: seq<nat>, w: seq<nat>, desc: TreeDesc, k: nat, dep: seq<nat>,
                         overflow: nat, counts: seq<nat>, opt: int, stat: int) returns (excess: nat)
    requires desc.Valid() && desc.elems <= |w| == |dep|
    requires MergeOrder(order, w, Active(w, desc.elems), desc.elems, k) && Depths(order, dep, desc.elems, k)
    requires Tallied(order, 0, 2 * k, w, dep, desc, overflow, counts, opt, stat)
    ensures overflow == 2 * excess == 2 * Deep(dep, desc.elems, k, desc.maxLength)
    ensures Oversubscribed(counts, desc.maxLength, excess) && counts[0] == 0
    ensures forall b :: desc.maxLength < b <= MAX_BITS ==> counts[b] == 0
    ensures CountTotal(counts, desc.maxLength) == |Active(w, desc.elems)|
    ensures forall b :: 0 <= b <= MAX_BITS ==>
              counts[b] == SumOver(Active(w, desc.elems), LeafLen(Clamp(dep, desc.maxLength), desc.elems, b))
    ensures opt == SumOver(Active(w, desc.elems), LeafCost(w, Clamp(dep, desc.maxLength), desc))
    ensures stat == SumOver(Active(w, desc.elems), StaticCost(w, desc))
  {
    hide MergeOrder, SumOver, Depths, CountSpace, CountTotal, Active, Pow2;
    var elems, m, act := desc.elems, desc.maxLength, Active(w, desc.elems);
    var lens := Clamp(dep, m);
    OrderSplits(order, w, act, elems, k);
    assert order[0..2 * k] == order[..2 * k];
    forall x | 0 <= x < |act| ensures dep[act[x]] >= 1 {
      LeafFacts(order, w, act, elems, k, dep, x);
    }
    ClampedNodes(order, w, act, elems, k, dep, m);
    ClampedSpace(order, w, act, elems, k, dep, m);
    ClampedLeaves(order, w, act, elems, k, dep, m);
    SumNonNegative(Range(elems, elems + k), AtLeast(dep, m));
    excess := Deep(dep, elems, k, m);
    forall b | 0 <= b <= MAX_BITS {
      LeafSum(order, w, act, elems, k, LeafLen(lens, elems, b));
    }
    LeafSum(order, w, act, elems, k, LeafCost(w, lens, desc));
    LeafSum(order, w, act, elems, k, StaticCost(w, desc));
    ClampedCounts(act, elems, dep, m, counts);
  }

  /** Lengths of all leaves that add up to exactly the code space make a complete
      code for the symbols, and bl_count has its statistics. */
  lemma {:induction false} CodeFromLeaves(w: seq<nat>, all: seq<nat>, lens: seq<nat>, desc: TreeDesc, counts: seq<nat>)
    requires desc.Valid() && |lens| <= desc.elems <= |w| == |all| && |counts| == MAX_BITS + 1
    requires forall i :: 0 <= i < |lens| ==> lens[i] == all[i]
    requires forall i :: |lens| <= i < desc.elems ==> w[i] == 0
    requires forall i :: 0 <= i < |lens| && w[i] == 0 ==> lens[i] == 0
    requires forall i :: 0 <= i < |lens| && w[i] > 0 ==> 1 <= lens[i] <= desc.maxLength
    requires SumOver(Active(w, desc.elems), SpaceOf(all, desc.maxLength)) == Pow2(desc.maxLength)
    requires forall b :: 1 <= b <= MAX_BITS ==>
               counts[b] == SumOver(Active(w, desc.elems), LeafLen(all, desc.elems, b))
    ensures CompleteCode(w, lens, desc.maxLength)
    ensures forall b :: 1 <= b <= MAX_BITS ==> counts[b] == Count(lens, b)
    ensures SymbolCost(w, lens, desc, |lens|) == SumOver(Active(w, desc.elems), LeafCost(w, all, desc))
    ensures desc.staticLens != [] ==>
              StaticSymbolCost(w, desc, |lens|) == SumOver(Active(w, desc.elems), StaticCost(w, desc))
  {
    hide SumOver, Active, Pow2, Kraft, Count, SymbolCost, StaticSymbolCost;
    var m := desc.maxLength;
    ActiveBelow(w, |lens|, desc.elems);
    assert Extends(all, w, lens, m);
    KraftOfSymbols(w, lens, all, m);
    forall b | 1 <= b <= MAX_BITS {
      CountOfSymbols(w, lens, all, m, desc.elems, b);
    }
    CostOfSymbols(w, lens, all, m, desc, |lens|);
    if desc.staticLens != [] {
      StaticCostOfSymbols(w, desc, |lens|);
    }
  }

  /** Where no node was too deep, the leaves' depths are the code. */
  lemma {:induction false} UncappedSpace(order: seq<nat>, w: seq<nat>, act: seq<nat>, elems: nat, k: nat, dep: seq<nat>, m: nat, all: seq<nat>)
    requires MergeOrder(order, w, act, elems, k) && Depths(order, dep, elems, k) && |all| == |dep|
    requires Deep(dep, elems, k, m) == 0
    requires forall j :: 0 <= j <= 2 * k ==> all[order[j]] == Min(dep[order[j]], m)
    ensures SumOver(act, SpaceOf(all, m)) == Pow2(m)
    ensures forall x :: 0 <= x < |act| ==> all[act[x]] == dep[act[x]] <= m
  {
    hide SumOver, Pow2;
    ClampedSpace(order, w, act, elems, k, dep, m);
    forall x | 0 <= x < |act|
      ensures all[act[x]] == Min(dep[act[x]], m) && dep[act[x]] <= m
    {
      LeafFacts(order, w, act, elems, k, dep, x);
      var i :| 0 <= i < 2 * k && order[i] == act[x];
      NotDeep(order, dep, elems, k, m, i);
    }
    SumSame(act, SpaceOf(all, m), SpaceOf(dep, m));
  }

  /** A node below the limit has a father at the limit or below. */
  lemma {:induction false} NotDeep(order: seq<nat>, dep: seq<nat>, elems: nat, k: nat, m: nat, i: nat)
    requires |order| == 2 * k + 1 && k >= 1 && Below(order, elems + k) && Depths(order, dep, elems, k)
    requires Deep(dep, elems, k, m) == 0 && i < 2 * k
    ensures dep[order[i]] <= m
  {
    var inner := Range(elems, elems + k);
    assert inner[i / 2] == elems + i / 2;
    SumRemove(inner, i / 2, AtLeast(dep, m));
    SumNonNegative(inner[..i / 2] + inner[i / 2 + 1..], AtLeast(dep, m));
  }

  /** What gen_bitlen is given: a merged tree with its weights and fathers, and from heapMax
      on the nodes in the heap array, the heaviest first. */
  ghost predicate TreeReady(tree: seq<CtData>, heap: seq<nat>, heapMax: nat, desc: TreeDesc, maxCode: nat,
                            order: seq<nat>, w: seq<nat>, k: nat)
  {
    && desc.Valid() && maxCode < desc.elems <= |w| == |tree| <= 0x10000
    && (forall x :: 0 <= x < desc.elems ==> w[x] == tree[x].fc)
    && (forall x :: 0 <= x < desc.elems && w[x] > 0 ==> x <= maxCode)
    && (forall x :: 0 <= x < desc.elems && w[x] == 0 ==> tree[x].dl == 0)
    && MergeOrder(order, w, Active(w, desc.elems), desc.elems, k)
    && InHeap(heap, heapMax, order)
    && (forall i :: 0 <= i < 2 * k ==> tree[order[i]].dl == desc.elems + i / 2)
  }

  /** What gen_bitlen leaves: the symbols' lengths, their statistics, and all
      frequencies and lengths of absent symbols as they were. */
  ghost predicate LengthsSet(before: seq<CtData>, tree: seq<CtData>, counts: seq<nat>, desc: TreeDesc, maxCode: nat,
                             w: seq<nat>)
  {
    && |tree| == |before| == |w| && maxCode < desc.elems <= |w| && |counts| == MAX_BITS + 1
    && (forall x :: 0 <= x < |tree| ==> tree[x].fc == before[x].fc)
    && (forall x :: 0 <= x < desc.elems && w[x] == 0 ==> tree[x] == before[x])
    && CompleteCode(w, Lens(tree, maxCode + 1), desc.maxLength)
    && counts[0] == 0
    && (forall b :: 1 <= b <= MAX_BITS ==> counts[b] == Count(Lens(tree, maxCode + 1), b))
  }

  lemma {:induction false} ListedHasWeight(order: seq<nat>, w: seq<nat>, elems: nat, k: nat, x: nat)
    requires elems <= |w| && MergeOrder(order, w, Active(w, elems), elems, k) && x < elems
    ensures x in order <==> w[x] > 0
  {
    var act, inner := Active(w, elems), Range(elems, elems + k);
    ActiveMembers(w, elems, x);
    assert x in order <==> x in multiset(order);
    assert x in act <==> x in multiset(act);
    assert x !in multiset(inner) by { assert x !in inner; }
  }

  lemma {:induction false} ReadyFacts(tree: seq<CtData>, heap: seq<nat>, heapMax: nat, desc: TreeDesc, maxCode: nat,
                     order: seq<nat>, w: seq<nat>, k: nat)
    requires TreeReady(tree, heap, heapMax, desc, maxCode, order, w, k)
    ensures NoRepeats(order) && Below(order, |w|) && |order| == 2 * k + 1 <= HEAP_SIZE
    ensures heapMax == HEAP_SIZE - |order|
    ensures forall j :: 0 <= j < |order| ==> (order[j] > maxCode <==> order[j] >= desc.elems)
    ensures forall x :: 0 <= x < desc.elems ==> (x in order <==> w[x] > 0)
  {
    forall i, j | 0 <= i < j < |order| ensures order[i] != order[j] {
      OrderDistinct(order, w, w, desc.elems, k, i, j);
    }
    forall j | 0 <= j < |order| && order[j] > maxCode ensures order[j] >= desc.elems {
      NotALeaf(order, w, desc.elems, k, j, maxCode);
    }
    forall x | 0 <= x < desc.elems ensures x in order <==> w[x] > 0 {
      ListedHasWeight(order, w, desc.elems, k, x);
    }
  }

  /** Without overflow the first pass already has the lengths. */
  lemma {:induction false} FirstPassSuffices(before: seq<CtData>, tree: seq<CtData>, heap: seq<nat>, heapMax: nat, counts: seq<nat>,
                            desc: TreeDesc, maxCode: nat, order: seq<nat>, w: seq<nat>, k: nat, dep: seq<nat>)
    requires TreeReady(before, heap, heapMax, desc, maxCode, order, w, k)
    requires |order| == 2 * k + 1 && k >= 1 && Below(order, desc.elems + k) && |dep| == |w| == |tree|
    requires Below(order, |tree|)
    requires Depths(order, dep, desc.elems, k) && LengthsOnly(before, tree, order)
    requires forall j :: 0 <= j <= 2 * k ==> tree[order[j]].dl == Min(dep[order[j]], desc.maxLength)
    requires Deep(dep, desc.elems, k, desc.maxLength) == 0
    requires |counts| == MAX_BITS + 1 && counts[0] == 0
    requires forall b :: 0 <= b <= MAX_BITS ==>
              counts[b] == SumOver(Active(w, desc.elems), LeafLen(Clamp(dep, desc.maxLength), desc.elems, b))
    ensures LengthsSet(before, tree, counts, desc, maxCode, w)
    ensures SymbolCost(w, Lens(tree, maxCode + 1), desc, maxCode + 1)
         == SumOver(Active(w, desc.elems), LeafCost(w, Clamp(dep, desc.maxLength), desc))
    ensures desc.staticLens != [] ==>
              StaticSymbolCost(w, desc, maxCode + 1) == SumOver(Active(w, desc.elems), StaticCost(w, desc))
    ensures forall x :: 0 <= x < |Active(w, desc.elems)| ==>
              tree[Active(w, desc.elems)[x]].dl == dep[Active(w, desc.elems)[x]]
  {
    hide MergeOrder, SumOver, Depths, CountSpace, CountTotal, Active, Pow2, Kraft, Count, SymbolCost, StaticSymbolCost, TreeReady, LengthsOnly, LengthsSet, CompleteCode;
    ReadyOrder(before, heap, heapMax, desc, maxCode, order, w, k);
    var act := Active(w, desc.elems);
    var all := Lens(tree, |w|);
    forall j | 0 <= j <= 2 * k ensures all[order[j]] == Min(dep[order[j]], desc.maxLength) {
    }
    UncappedSpace(order, w, act, desc.elems, k, dep, desc.maxLength, all);
    SymbolLengths(order, w, desc.elems, k, dep, all, desc.maxLength);
    forall b | 1 <= b <= MAX_BITS ensures counts[b] == SumOver(act, LeafLen(all, desc.elems, b)) {
      SumSame(act, LeafLen(all, desc.elems, b), LeafLen(Clamp(dep, desc.maxLength), desc.elems, b));
    }
    SumSame(act, LeafCost(w, all, desc), LeafCost(w, Clamp(dep, desc.maxLength), desc));
    SetFromLengths(before, tree, heap, heapMax, counts, desc, maxCode, order, w, k);
  }

  lemma {:induction false} ReadyOrder(tree: seq<CtData>, heap: seq<nat>, heapMax: nat, desc: TreeDesc, maxCode: nat,
                     order: seq<nat>, w: seq<nat>, k: nat)
    requires TreeReady(tree, heap, heapMax, desc, maxCode, order, w, k)
    ensures MergeOrder(order, w, Active(w, desc.elems), desc.elems, k) && desc.Valid() && desc.elems <= |w| == |tree|
    ensures maxCode < desc.elems
  {
  }

  /** From the lengths of the leaves to everything gen_bitlen promises of them. */
  lemma {:induction false} SetFromLengths(before: seq<CtData>, tree: seq<CtData>, heap: seq<nat>, heapMax: nat, counts: seq<nat>,
                            desc: TreeDesc, maxCode: nat, order: seq<nat>, w: seq<nat>, k: nat)
    requires TreeReady(before, heap, heapMax, desc, maxCode, order, w, k)
    requires LengthsOnly(before, tree, order)
    requires |counts| == MAX_BITS + 1 && counts[0] == 0
    requires forall x :: 0 <= x < desc.elems && w[x] > 0 ==> 1 <= tree[x].dl <= desc.maxLength
    requires SumOver(Active(w, desc.elems), SpaceOf(Lens(tree, |w|), desc.maxLength)) == Pow2(desc.maxLength)
    requires forall b :: 1 <= b <= MAX_BITS ==>
               counts[b] == SumOver(Active(w, desc.elems), LeafLen(Lens(tree, |w|), desc.elems, b))
    ensures LengthsSet(before, tree, counts, desc, maxCode, w)
    ensures SymbolCost(w, Lens(tree, maxCode + 1), desc, maxCode + 1)
         == SumOver(Active(w, desc.elems), LeafCost(w, Lens(tree, |w|), desc))
    ensures desc.staticLens != [] ==>
              StaticSymbolCost(w, desc, maxCode + 1) == SumOver(Active(w, desc.elems), StaticCost(w, desc))
  {
    hide MergeOrder, SumOver, Active, Pow2, Kraft, Count, SymbolCost, StaticSymbolCost, CompleteCode;
    ReadyFacts(before, heap, heapMax, desc, maxCode, order, w, k);
    CodeFromLeaves(w, Lens(tree, |w|), Lens(tree, maxCode + 1), desc, counts);
  }

  lemma {:induction false} SymbolLengths(order: seq<nat>, w: seq<nat>, elems: nat, k: nat, dep: seq<nat>, all: seq<nat>, m: nat)
    requires elems <= |w| && MergeOrder(order, w, Active(w, elems), elems, k) && Depths(order, dep, elems, k)
    requires |all| == |dep| && m >= 1
    requires forall j :: 0 <= j <= 2 * k ==> all[order[j]] == Min(dep[order[j]], m)
    ensures forall x :: 0 <= x < elems && w[x] > 0 ==> 1 <= all[x] <= m
  {
    var act := Active(w, elems);
    forall x | 0 <= x < elems && w[x] > 0
      ensures 1 <= all[x] <= m
    {
      ActiveMembers(w, elems, x);
      var i :| 0 <= i < |act| && act[i] == x;
      LeafFacts(order, w, act, elems, k, dep, i);
    }
  }

  /** Every leaf is to get one of the lengths. */
  lemma {:induction false} LeavesToDeal(order: seq<nat>, w: seq<nat>, elems: nat, k: nat)
    requires elems <= |w| && MergeOrder(order, w, Active(w, elems), elems, k)
    ensures Below(order, |w|)
    ensures SumOver(order, IsLeaf(|w|, elems)) == |Active(w, elems)|
  {
    LeafSum(order, w, Active(w, elems), elems, k, IsLeaf(|w|, elems));
    ActiveSize(w, elems, IsLeaf(|w|, elems));
  }

  /** The lengths dealt out after a repair make a code again. */
  lemma {:induction false} DealtCode(order: seq<nat>, w: seq<nat>, desc: TreeDesc, k: nat, all: seq<nat>, counts: seq<nat>)
    requires desc.Valid() && desc.elems <= |w| == |all| && |counts| == MAX_BITS + 1
    requires MergeOrder(order, w, Active(w, desc.elems), desc.elems, k)
    requires forall j :: 0 <= j < |order| && order[j] < desc.elems ==> 1 <= all[order[j]] <= desc.maxLength
    requires forall b :: 1 <= b <= desc.maxLength ==> SumOver(order, LeafLen(all, desc.elems, b)) == counts[b]
    requires forall b :: desc.maxLength < b <= MAX_BITS ==> counts[b] == 0
    requires CountSpace(counts, desc.maxLength, desc.maxLength) == Pow2(desc.maxLength)
    ensures forall x :: 0 <= x < desc.elems && w[x] > 0 ==> 1 <= all[x] <= desc.maxLength
    ensures SumOver(Active(w, desc.elems), SpaceOf(all, desc.maxLength)) == Pow2(desc.maxLength)
    ensures forall b :: 1 <= b <= MAX_BITS ==>
               counts[b] == SumOver(Active(w, desc.elems), LeafLen(all, desc.elems, b))
  {
    hide MergeOrder, SumOver, Active, Pow2, CountSpace, CountTotal;
    var act, m := Active(w, desc.elems), desc.maxLength;
    OrderSplits(order, w, act, desc.elems, k);
    forall x | 0 <= x < desc.elems && w[x] > 0 ensures 1 <= all[x] <= m {
      ListedHasWeight(order, w, desc.elems, k, x);
    }
    ActivePositive(w, desc.elems);
    forall b | 1 <= b <= m ensures counts[b] == SumOver(act, LeafLen(all, desc.elems, b)) {
      LeafSum(order, w, act, desc.elems, k, LeafLen(all, desc.elems, b));
    }
    forall b | m < b <= MAX_BITS ensures counts[b] == SumOver(act, LeafLen(all, desc.elems, b)) {
      SumZero(act, LeafLen(all, desc.elems, b));
    }
    Grouped(act, all, desc.elems, m, counts);
  }

  /** Costs over the leaves are costs over all nodes. */
  lemma {:induction false} DealtCost(order: seq<nat>, w: seq<nat>, desc: TreeDesc, k: nat, all: seq<nat>)
    requires desc.elems <= |w| == |all|
    requires MergeOrder(order, w, Active(w, desc.elems), desc.elems, k)
    ensures SumOver(order, LeafCost(w, all, desc)) == SumOver(Active(w, desc.elems), LeafCost(w, all, desc))
  {
    LeafSum(order, w, Active(w, desc.elems), desc.elems, k, LeafCost(w, all, desc));
  }

  /** A leaf's cost only depends on its own length. */
  lemma {:induction false} ClampedCost(order: seq<nat>, w: seq<nat>, desc: TreeDesc, k: nat, dep: seq<nat>, all: seq<nat>)
    requires desc.elems <= |w| == |all| == |dep|
    requires MergeOrder(order, w, Active(w, desc.elems), desc.elems, k)
    requires forall j :: 0 <= j <= 2 * k ==> all[order[j]] == Min(dep[order[j]], desc.maxLength)
    ensures SumOver(order, LeafCost(w, all, desc)) == SumOver(order, LeafCost(w, Clamp(dep, desc.maxLength), desc))
  {
    hide MergeOrder, SumOver, Active, Min;
    OrderSplits(order, w, Active(w, desc.elems), desc.elems, k);
    forall i | 0 <= i < |order|
      ensures LeafCost(w, all, desc)[order[i]] == LeafCost(w, Clamp(dep, desc.maxLength), desc)[order[i]]
    {
    }
    SumSame(order, LeafCost(w, all, desc), LeafCost(w, Clamp(dep, desc.maxLength), desc));
  }

  /** The rest of gen_bitlen when some node was too deep. */
  method RepairLengths(tree: array<CtData>, heap: array<nat>, heapMax: nat, blCount: array<nat>, desc: TreeDesc,
                       maxCode: nat, overflow: nat, optLen: int,
                       ghost before: seq<CtData>, ghost order: seq<nat>, ghost w: seq<nat>, ghost k: nat,
                       ghost dep: seq<nat>, ghost excess: nat)
      returns (opt: int)
    requires TreeReady(before, heap[..], heapMax, desc, maxCode, order, w, k)
    requires blCount.Length == MAX_BITS + 1 && blCount != heap
    requires |order| == 2 * k + 1 && Below(order, |w|) && |w| == |dep| == tree.Length
    requires LengthsOnly(before, tree[..], order)
    requires forall j :: 0 <= j <= 2 * k ==> tree[..][order[j]].dl == Min(dep[order[j]], desc.maxLength)
    requires overflow == 2 * excess && excess >= 1 && Oversubscribed(blCount[..], desc.maxLength, excess)
    requires forall b :: desc.maxLength < b <= MAX_BITS ==> blCount[b] == 0
    requires desc.elems <= |w| && CountTotal(blCount[..], desc.maxLength) == |Active(w, desc.elems)|
    modifies tree, blCount
    ensures LengthsSet(before, tree[..], blCount[..], desc, maxCode, w)
    ensures opt == optLen + SymbolCost(w, Lens(tree[..], maxCode + 1), desc, maxCode + 1)
                   - SumOver(Active(w, desc.elems), LeafCost(w, Clamp(dep, desc.maxLength), desc))
    ensures desc.staticLens != [] ==>
              StaticSymbolCost(w, desc, maxCode + 1) == SumOver(Active(w, desc.elems), StaticCost(w, desc))
    ensures LongestFirst(order, |order|, Lens(tree[..], |w|), desc.elems)
  {
    hide MergeOrder, SumOver, Depths, CountSpace, CountTotal, Active, Pow2, Kraft, Count, SymbolCost, StaticSymbolCost,
         LengthsOnly, LengthsSet, CompleteCode, TreeReady, LongestFirst;
    ReadyOrder(before, heap[..], heapMax, desc, maxCode, order, w, k);
    ReadyFacts(before, heap[..], heapMax, desc, maxCode, order, w, k);
    LeavesToDeal(order, w, desc.elems, k);
    ghost var first := tree[..];
    ReadyWeights(before, heap[..], heapMax, desc, maxCode, order, w, k, first);
    ClampedCost(order, w, desc, k, dep, Lens(first, |w|));
    DealtCost(order, w, desc, k, Clamp(dep, desc.maxLength));
    ghost var cs := Repair(blCount, desc.maxLength, overflow, excess);
    opt := DealLengths(tree, heap, blCount, desc, maxCode, optLen, order, w);
    LengthsOnlyTrans(before, first, tree[..], order);
    DealtCode(order, w, desc, k, Lens(tree[..], |w|), blCount[..]);
    DealtCost(order, w, desc, k, Lens(tree[..], |w|));
    SetFromLengths(before, tree[..], heap[..], heapMax, blCount[..], desc, maxCode, order, w, k);
  }

  lemma ReadyWeights(before: seq<CtData>, heap: seq<nat>, heapMax: nat, desc: TreeDesc, maxCode: nat,
                     order: seq<nat>, w: seq<nat>, k: nat, tree: seq<CtData>)
    requires TreeReady(before, heap, heapMax, desc, maxCode, order, w, k)
    requires LengthsOnly(before, tree, order)
    ensures |tree| == |w| && (forall x :: 0 <= x < desc.elems ==> w[x] == tree[x].fc)
    ensures InHeap(heap, heapMax, order) && |w| <= 0x10000
  {
  }

  /** Every symbol that occurs gets a length of at most desc.maxLength, and no code space is
      left; what the symbols cost is added to both totals. The lengths are the depths in the
      tree if none of these is above the limit; else they are dealt out again, the longest to
      the lightest. */
  method GenBitlen(tree: array<CtData>, heap: array<nat>, heapMax: nat, blCount: array<nat>, desc: TreeDesc,
                   maxCode: nat, optLen: int, staticLen: int,
                   ghost order: seq<nat>, ghost w: seq<nat>, ghost k: nat)
      returns (opt: int, stat: int)
    requires TreeReady(tree[..], heap[..], heapMax, desc, maxCode, order, w, k)
    requires blCount.Length == MAX_BITS + 1 && blCount != heap
    modifies tree, blCount
    ensures LengthsSet(old(tree[..]), tree[..], blCount[..], desc, maxCode, w)
    ensures opt == optLen + SymbolCost(w, Lens(tree[..], maxCode + 1), desc, maxCode + 1)
    ensures stat == staticLen + (if desc.staticLens == [] then 0 else StaticSymbolCost(w, desc, maxCode + 1))
    ensures !TooDeep(order, desc.elems, k, desc.maxLength) ==>
              CodeCost(w, Lens(tree[..], maxCode + 1), maxCode + 1) == SumOver(Range(desc.elems, desc.elems + k), AsInts(w))
    ensures TooDeep(order, desc.elems, k, desc.maxLength) ==> LongestFirst(order, |order|, Lens(tree[..], |w|), desc.elems)
  {
    hide MergeOrder, SumOver, Depths, CountSpace, CountTotal, Active, Pow2, Kraft, Count, SymbolCost, StaticSymbolCost,
         LengthsOnly, LengthsSet, CompleteCode, Tallied, LongestFirst, Oversubscribed, TooDeep, Deep;
    ghost var before := tree[..];
    OrderSplits(order, w, Active(w, desc.elems), desc.elems, k);
    ghost var dep := DepthsExist(order, w, desc.elems, k);
    var overflow: nat;
    overflow, opt, stat := AssignDepths(tree, heap, heapMax, blCount, desc, maxCode, optLen, staticLen, order, w, k, dep);
    ghost var excess := AfterFirstPass(order, w, desc, k, dep, overflow, blCount[..], opt - optLen, stat - staticLen);
    NoStaticCost(w, desc);
    DeepIfInternal(order, w, w, desc.elems, k, dep, desc.maxLength);
    if overflow == 0 {
      FirstPassSuffices(before, tree[..], heap[..], heapMax, blCount[..], desc, maxCode, order, w, k, dep);
      UncappedCost(before, tree[..], heap[..], heapMax, desc, maxCode, order, w, k, dep);
      return;
    }
    opt := RepairLengths(tree, heap, heapMax, blCount, desc, maxCode, overflow, opt, before, order, w, k, dep, excess);
  }

  lemma {:induction false} CodeCostOfSymbols(w: seq<nat>, lens: seq<nat>, all: seq<nat>, n: nat)
    requires n <= |lens| && n <= |all| == |w| && forall i :: 0 <= i < n && w[i] > 0 ==> all[i] == lens[i]
    ensures CodeCost(w, lens, n) == SumOver(Active(w, n), WeightedDepth(w, all))
  {
    if n != 0 {
      CodeCostOfSymbols(w, lens, all, n - 1);
      if w[n - 1] > 0 {
        SumAppend(Active(w, n - 1), n - 1, WeightedDepth(w, all));
      } else {
        assert w[n - 1] * lens[n - 1] == 0;
      }
    }
  }

  lemma ReadyBounds(before: seq<CtData>, heap: seq<nat>, heapMax: nat, desc: TreeDesc, maxCode: nat, order: seq<nat>,
                    w: seq<nat>, k: nat)
    requires TreeReady(before, heap, heapMax, desc, maxCode, order, w, k)
    ensures maxCode < desc.elems <= |w| && MergeOrder(order, w, Active(w, desc.elems), desc.elems, k)
    ensures forall x :: maxCode < x < desc.elems ==> w[x] == 0
  {
    hide MergeOrder, Active;
  }

  /** Without a repair the code costs what the merging paid. */
  lemma {:induction false} UncappedCost(before: seq<CtData>, tree: seq<CtData>, heap: seq<nat>, heapMax: nat,
                       desc: TreeDesc, maxCode: nat, order: seq<nat>, w: seq<nat>, k: nat, dep: seq<nat>)
    requires TreeReady(before, heap, heapMax, desc, maxCode, order, w, k)
    requires |order| == 2 * k + 1 && k >= 1 && Below(order, desc.elems + k) && |dep| == |w| == |tree|
    requires Depths(order, dep, desc.elems, k)
    requires forall x :: 0 <= x < |Active(w, desc.elems)| ==>
              tree[Active(w, desc.elems)[x]].dl == dep[Active(w, desc.elems)[x]]
    ensures CodeCost(w, Lens(tree, maxCode + 1), maxCode + 1) == SumOver(Range(desc.elems, desc.elems + k), AsInts(w))
  {
    hide SumOver, Depths, CodeCost, Active, MergeOrder, TreeReady;
    ReadyBounds(before, heap, heapMax, desc, maxCode, order, w, k);
    var act := Active(w, desc.elems);
    forall i | 0 <= i < maxCode + 1 && w[i] > 0 ensures dep[i] == Lens(tree, maxCode + 1)[i] {
      ActiveMembers(w, desc.elems, i);
      var x :| 0 <= x < |act| && act[x] == i;
    }
    CodeCostOfSymbols(w, Lens(tree, maxCode + 1), dep, maxCode + 1);
    ActiveBelow(w, maxCode + 1, desc.elems);
    CostIsInternalWeight(order, w, act, desc.elems, k, dep);
  }

  lemma NoStaticCost(w: seq<nat>, desc: TreeDesc)
    requires desc.elems <= |w|
    ensures desc.staticLens == [] ==> SumOver(Active(w, desc.elems), StaticCost(w, desc)) == 0
  {
    if desc.staticLens == [] {
      SumZero(Active(w, desc.elems), StaticCost(w, desc));
    }
  }

  lemma LengthsOnlyTrans(t: seq<CtData>, u: seq<CtData>, v: seq<CtData>, order: seq<nat>)
    requires LengthsOnly(t, u, order) && |v| == |u|
    requires forall x :: 0 <= x < |u| ==> v[x].fc == u[x].fc
    requires forall x :: 0 <= x < |u| && x !in order ==> v[x] == u[x]
    ensures LengthsOnly(t, v, order)
  {
  }

  lemma {:induction false} SymbolCostSame(v: seq<nat>, w: seq<nat>, lens: seq<nat>, desc: TreeDesc, n: nat)
    requires n <= |lens| && n <= |v| && n <= |w| && forall x :: 0 <= x < n ==> v[x] == w[x]
    ensures SymbolCost(v, lens, desc, n) == SymbolCost(w, lens, desc, n)
    ensures StaticSymbolCost(v, desc, n) == StaticSymbolCost(w, desc, n)
    ensures CodeCost(v, lens, n) == CodeCost(w, lens, n)
  {
    if n != 0 {
      SymbolCostSame(v, w, lens, desc, n - 1);
    }
  }
}
