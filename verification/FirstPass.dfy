/** The first pass of gen_bitlen: from the merge order in the heap array to code
    lengths, cut off at the limit, and their cost. */
module FirstPass {
  import opened Bits
  import opened Canonical
  import opened Sums
  import opened HuffmanTree
  import opened LengthLimit
  import opened GenCodes

  const HEAP_SIZE: nat := 573

  /** tree_desc, without the tree it describes. staticLens are the lengths of the
      corresponding static tree, [] if there is none. */
  datatype TreeDesc = TreeDesc(extraBits: seq<nat>, extraBase: nat, elems: nat, maxLength: nat, staticLens: seq<nat>)
  {
    ghost predicate Valid()
    {
      && 3 <= elems <= 286 && elems <= Pow2(maxLength)
      && 1 <= maxLength <= MAX_BITS
      && elems <= extraBase + |extraBits|
      && (staticLens != [] ==> |staticLens| >= elems)
      && (forall n :: 0 <= n < 3 ==> Extra(n) == 0)
    }

    /** The extra bits that follow the code of symbol n. */
    function Extra(n: nat): nat
    {
      if extraBase <= n && n - extraBase < |extraBits| then extraBits[n - extraBase] else 0
    }

    function StaticLen(n: nat): nat
    {
      if n < |staticLens| then staticLens[n] else 0
    }
  }

  /** 1 for the leaves with code length b. */
  function LeafLen(lens: seq<nat>, leaves: nat, b: nat): (v: seq<int>)
    ensures |v| == |lens|
    ensures forall x :: 0 <= x < |v| ==> v[x] == if x < leaves && lens[x] == b then 1 else 0
  {
    seq(|lens|, x requires 0 <= x < |lens| => if x < leaves && lens[x] == b then 1 else 0)
  }

  /** What each leaf costs: its weight times its code and extra bits. */
  function LeafCost(w: seq<nat>, lens: seq<nat>, desc: TreeDesc): (v: seq<int>)
    requires |w| == |lens|
    ensures |v| == |lens|
    ensures forall x :: 0 <= x < |v| ==> v[x] == if x < desc.elems then w[x] * (lens[x] + desc.Extra(x)) else 0
  {
    seq(|lens|, x requires 0 <= x < |lens| => if x < desc.elems then w[x] * (lens[x] + desc.Extra(x)) else 0)
  }

  /** What each leaf costs with the static tree. */
  function StaticCost(w: seq<nat>, desc: TreeDesc): (v: seq<int>)
    ensures |v| == |w|
    ensures forall x :: 0 <= x < |v| ==>
              v[x] == if x < desc.elems && desc.staticLens != [] then w[x] * (desc.StaticLen(x) + desc.Extra(x)) else 0
  {
    seq(|w|, x requires 0 <= x < |w| =>
      if x < desc.elems && desc.staticLens != [] then w[x] * (desc.StaticLen(x) + desc.Extra(x)) else 0)
  }

  function Clamp(dep: seq<nat>, m: nat): (r: seq<nat>)
    ensures |r| == |dep| && forall x :: 0 <= x < |r| ==> r[x] == Min(dep[x], m)
  {
    seq(|dep|, x requires 0 <= x < |dep| => Min(dep[x], m))
  }

  /** Depths can always be assigned from the root down. */
  lemma {:induction false} DepthsExist(order: seq<nat>, w: seq<nat>, elems: nat, k: nat) returns (dep: seq<nat>)
    requires elems <= |w| && MergeOrder(order, w, Active(w, elems), elems, k)
    ensures |dep| == |w| && Depths(order, dep, elems, k)
  {
    dep := seq(|w|, _ => 0);
    var i := 2 * k;
    while i > 0
      invariant 0 <= i <= 2 * k && |dep| == |w|
      invariant dep[elems + k - 1] == 0
      invariant forall j :: i <= j < 2 * k ==> dep[order[j]] == dep[elems + j / 2] + 1
    {
      i := i - 1;
      var dep' := dep[order[i] := dep[elems + i / 2] + 1];
      FatherLater(order, w, Active(w, elems), elems, k, i);
      var f :| i < f <= 2 * k && order[f] == elems + i / 2;
      OrderDistinct(order, w, w, elems, k, i, f);
      OrderDistinct(order, w, w, elems, k, i, 2 * k);
      forall j | i < j < 2 * k
        ensures dep'[order[j]] == dep'[elems + j / 2] + 1
      {
        OrderDistinct(order, w, w, elems, k, i, j);
        FatherLater(order, w, Active(w, elems), elems, k, j);
        var g :| j < g <= 2 * k && order[g] == elems + j / 2;
        OrderDistinct(order, w, w, elems, k, i, g);
      }
      dep := dep';
    }
  }

  /** Sums over leaves only can be taken over the whole order. */
  lemma {:induction false} LeafSum(order: seq<nat>, w: seq<nat>, act: seq<nat>, elems: nat, k: nat, v: seq<int>)
    requires MergeOrder(order, w, act, elems, k) && |v| >= elems + k
    requires forall x :: elems <= x < |v| ==> v[x] == 0
    ensures SumOver(order[..2 * k], v) == SumOver(act, v) == SumOver(order, v)
  {
    hide MergeOrder, SumOver;
    OrderSplits(order, w, act, elems, k);
    SumAppend(order[..2 * k], elems + k - 1, v);
    SumPermutation(order, act + Range(elems, elems + k), v);
    SumConcat(act, Range(elems, elems + k), v);
    SumZero(Range(elems, elems + k), v);
  }

  lemma SumOne(x: nat, v: seq<int>)
    requires x < |v|
    ensures SumOver([x], v) == v[x]
  {
    assert [x] == [] + [x];
    SumAppend([], x, v);
  }

  lemma SumCons(ids: seq<nat>, i: nat, j: nat, v: seq<int>)
    requires i < j <= |ids| && Below(ids, |v|)
    ensures Below(ids[i..j], |v|) && Below(ids[i + 1..j], |v|)
    ensures SumOver(ids[i..j], v) == v[ids[i]] + SumOver(ids[i + 1..j], v)
  {
    hide SumOver;
    assert ids[i..j] == [ids[i]] + ids[i + 1..j];
    SumConcat([ids[i]], ids[i + 1..j], v);
    SumOne(ids[i], v);
  }

  /** Grouping codes by length: with c[b] of them b bits long, the space and the
      number of codes come out the same. */
  lemma {:induction false} Grouped(ids: seq<nat>, lens: seq<nat>, leaves: nat, m: nat, c: seq<nat>)
    requires leaves <= |lens| && Below(ids, leaves) && m < |c|
    requires forall i :: 0 <= i < |ids| ==> 1 <= lens[ids[i]] <= m
    requires forall b :: 1 <= b <= m ==> c[b] == SumOver(ids, LeafLen(lens, leaves, b))
    ensures CountSpace(c, m, m) == SumOver(ids, SpaceOf(lens, m))
    ensures CountTotal(c, m) == |ids|
  {
    if ids == [] {
      NothingShort(c, m, m);
    } else {
      var n := |ids| - 1;
      var l := lens[ids[n]];
      LastCounts(ids, lens, leaves, m, c);
      var c' := c[l := c[l] - 1];
      Grouped(ids[..n], lens, leaves, m, c');
      SpaceUpdate(c, m, m, l, c[l] - 1);
      TotalUpdate(c, m, l, c[l] - 1);
      MulSum(c[l] - 1, 1, Pow2(m - l));
      assert Min(l, m) == l;
    }
  }

  lemma {:induction false} LastCounts(ids: seq<nat>, lens: seq<nat>, leaves: nat, m: nat, c: seq<nat>)
    requires ids != [] && leaves <= |lens| && Below(ids, leaves) && m < |c|
    requires forall i :: 0 <= i < |ids| ==> 1 <= lens[ids[i]] <= m
    requires forall b :: 1 <= b <= m ==> c[b] == SumOver(ids, LeafLen(lens, leaves, b))
    ensures var n := |ids| - 1; var l := lens[ids[n]];
            c[l] >= 1 && forall b :: 1 <= b <= m ==>
              c[b] == SumOver(ids[..n], LeafLen(lens, leaves, b)) + (if b == l then 1 else 0)
  {
    var n := |ids| - 1;
    var l := lens[ids[n]];
    SumNonNegative(ids[..n], LeafLen(lens, leaves, l));
  }

  /** Where gen_bitlen finds the nodes: order reads the heap array from its end. */
  ghost predicate InHeap(heap: seq<nat>, heapMax: nat, order: seq<nat>)
  {
    && |heap| == HEAP_SIZE
    && heapMax + |order| == HEAP_SIZE
    && forall i :: 0 <= i < |order| ==> heap[HEAP_SIZE - 1 - i] == order[i]
  }

  /** All sums that the first pass accumulates are over the nodes order[i..j]. */
  ghost predicate Tallied(order: seq<nat>, i: nat, j: nat, w: seq<nat>, dep: seq<nat>, desc: TreeDesc,
                          overflow: int, counts: seq<nat>, opt: int, stat: int)
    requires i <= j <= |order| && |w| == |dep| && Below(order, |w|)
  {
    var ids := order[i..j];
    var lens := Clamp(dep, desc.maxLength);
    && Below(ids, |w|) && |counts| == MAX_BITS + 1
    && overflow == SumOver(ids, AtLeast(dep, desc.maxLength + 1))
    && (forall b :: 0 <= b <= MAX_BITS ==> counts[b] == SumOver(ids, LeafLen(lens, desc.elems, b)))
    && opt == SumOver(ids, LeafCost(w, lens, desc))
    && stat == SumOver(ids, StaticCost(w, desc))
  }

  lemma TalliedNothing(order: seq<nat>, j: nat, w: seq<nat>, dep: seq<nat>, desc: TreeDesc, counts: seq<nat>)
    requires j <= |order| && |w| == |dep| && Below(order, |w|)
    requires |counts| == MAX_BITS + 1 && forall b :: 0 <= b <= MAX_BITS ==> counts[b] == 0
    ensures Tallied(order, j, j, w, dep, desc, 0, counts, 0, 0)
  {
  }

  lemma TalliedLeaf(order: seq<nat>, i: nat, j: nat, w: seq<nat>, dep: seq<nat>, desc: TreeDesc,
                    overflow: int, counts: seq<nat>, opt: int, stat: int)
    requires i < j <= |order| && |w| == |dep| && Below(order, |w|)
    requires Tallied(order, i + 1, j, w, dep, desc, overflow, counts, opt, stat)
    requires order[i] < desc.elems && desc.maxLength <= MAX_BITS
    ensures var n := order[i]; var bits := Min(dep[n], desc.maxLength);
            Tallied(order, i, j, w, dep, desc, overflow + (if dep[n] > desc.maxLength then 1 else 0),
                    counts[bits := counts[bits] + 1], opt + w[n] * (bits + desc.Extra(n)),
                    stat + (if desc.staticLens != [] then w[n] * (desc.StaticLen(n) + desc.Extra(n)) else 0))
  {
    hide SumOver;
    var lens := Clamp(dep, desc.maxLength);
    SumCons(order, i, j, AtLeast(dep, desc.maxLength + 1));
    forall b | 0 <= b <= MAX_BITS {
      SumCons(order, i, j, LeafLen(lens, desc.elems, b));
    }
    SumCons(order, i, j, LeafCost(w, lens, desc));
    SumCons(order, i, j, StaticCost(w, desc));
  }

  lemma TalliedInternal(order: seq<nat>, i: nat, j: nat, w: seq<nat>, dep: seq<nat>, desc: TreeDesc,
                        overflow: int, counts: seq<nat>, opt: int, stat: int)
    requires i < j <= |order| && |w| == |dep| && Below(order, |w|)
    requires Tallied(order, i + 1, j, w, dep, desc, overflow, counts, opt, stat)
    requires order[i] >= desc.elems
    ensures Tallied(order, i, j, w, dep, desc, overflow + (if dep[order[i]] > desc.maxLength then 1 else 0),
                    counts, opt, stat)
  {
    hide SumOver;
    var lens := Clamp(dep, desc.maxLength);
    SumCons(order, i, j, AtLeast(dep, desc.maxLength + 1));
    forall b | 0 <= b <= MAX_BITS {
      SumCons(order, i, j, LeafLen(lens, desc.elems, b));
    }
    SumCons(order, i, j, LeafCost(w, lens, desc));
    SumCons(order, i, j, StaticCost(w, desc));
  }

  /** The dl fields while the first pass is about to handle order[i]: nodes further
      back hold their length, the others still their father. */
  ghost predicate HalfDone(tree: seq<CtData>, order: seq<nat>, i: nat, dep: seq<nat>, elems: nat, k: nat, m: nat)
    requires |order| == 2 * k + 1 && i <= 2 * k && Below(order, |tree|) && |tree| == |dep|
  {
    && (forall j :: i <= j <= 2 * k ==> tree[order[j]].dl == Min(dep[order[j]], m))
    && (forall j :: 0 <= j < i ==> tree[order[j]].dl == elems + j / 2)
  }

  lemma {:induction false} HalfDoneStep(tree: seq<CtData>, order: seq<nat>, i: nat, w: seq<nat>, dep: seq<nat>, elems: nat, k: nat, m: nat)
    requires elems <= |w| == |tree| == |dep| && m < 0x10000
    requires MergeOrder(order, w, Active(w, elems), elems, k) && Depths(order, dep, elems, k)
    requires i < 2 * k && HalfDone(tree, order, i + 1, dep, elems, k, m)
    ensures tree[order[i]].dl == elems + i / 2 < |tree|
    ensures tree[elems + i / 2].dl == Min(dep[elems + i / 2], m)
    ensures dep[order[i]] == dep[elems + i / 2] + 1
    ensures HalfDone(tree[order[i] := tree[order[i]].(dl := Min(dep[order[i]], m))], order, i, dep, elems, k, m)
  {
    FatherLater(order, w, Active(w, elems), elems, k, i);
    forall j | 0 <= j <= 2 * k && j != i
      ensures order[j] != order[i]
    {
      if j < i {
        OrderDistinct(order, w, w, elems, k, j, i);
      } else {
        OrderDistinct(order, w, w, elems, k, i, j);
      }
    }
  }

  lemma {:induction false} HalfDoneStart(tree: seq<CtData>, order: seq<nat>, w: seq<nat>, dep: seq<nat>, elems: nat, k: nat, m: nat)
    requires elems <= |w| == |tree| == |dep|
    requires MergeOrder(order, w, Active(w, elems), elems, k) && Depths(order, dep, elems, k)
    requires forall i :: 0 <= i < 2 * k ==> tree[order[i]].dl == elems + i / 2
    ensures HalfDone(tree[order[2 * k] := tree[order[2 * k]].(dl := 0)], order, 2 * k, dep, elems, k, m)
  {
    RootDistinct(order, w, elems, k);
  }

  lemma HalfDoneEnd(tree: seq<CtData>, order: seq<nat>, dep: seq<nat>, elems: nat, k: nat, m: nat)
    requires |order| == 2 * k + 1 && Below(order, |tree|) && |tree| == |dep|
    requires HalfDone(tree, order, 0, dep, elems, k, m)
    ensures forall j :: 0 <= j <= 2 * k ==> tree[order[j]].dl == Min(dep[order[j]], m)
  {
  }

  /** Only dl fields of listed nodes have changed from t to u. */
  ghost predicate LengthsOnly(t: seq<CtData>, u: seq<CtData>, order: seq<nat>)
  {
    && |u| == |t|
    && (forall x :: 0 <= x < |t| ==> u[x].fc == t[x].fc)
    && (forall x :: 0 <= x < |t| && x !in order ==> u[x] == t[x])
  }

  lemma LengthsOnlyStart(t: seq<CtData>, order: seq<nat>)
    ensures LengthsOnly(t, t, order)
  {
  }

  lemma LengthsOnlyStep(t: seq<CtData>, u: seq<CtData>, order: seq<nat>, i: nat, d: CtData)
    requires LengthsOnly(t, u, order) && i < |order| && order[i] < |u| && d.fc == u[order[i]].fc
    ensures LengthsOnly(t, u[order[i] := d], order) && |t| == |u| && u[order[i]].fc == t[order[i]].fc
  {
  }

  /** Count one leaf and what it costs. */
  method TallyNode(tree: array<CtData>, blCount: array<nat>, desc: TreeDesc, maxCode: nat, n: nat, bits: nat,
                   overflow: nat, optLen: int, staticLen: int,
                   ghost order: seq<nat>, ghost i: nat, ghost j: nat, ghost w: seq<nat>, ghost dep: seq<nat>,
                   ghost opt0: int, ghost stat0: int)
      returns (opt: int, stat: int)
    requires desc.Valid() && maxCode < desc.elems && blCount.Length == MAX_BITS + 1
    requires |w| == tree.Length == |dep| && desc.elems <= |w| && Below(order, |w|)
    requires i < j <= |order| && n == order[i] && bits == Min(dep[n], desc.maxLength)
    requires n <= maxCode ==> w[n] == tree[n].fc
    requires n > maxCode ==> n >= desc.elems
    requires overflow >= (if dep[n] > desc.maxLength then 1 else 0)
    requires Tallied(order, i + 1, j, w, dep, desc, overflow - (if dep[n] > desc.maxLength then 1 else 0),
                     blCount[..], optLen - opt0, staticLen - stat0)
    modifies blCount
    ensures Tallied(order, i, j, w, dep, desc, overflow, blCount[..], opt - opt0, stat - stat0)
  {
    hide SumOver, Tallied;
    opt, stat := optLen, staticLen;
    if n > maxCode {
      TalliedInternal(order, i, j, w, dep, desc, overflow - (if dep[n] > desc.maxLength then 1 else 0),
                      blCount[..], opt - opt0, stat - stat0);
      return;
    }
    TalliedLeaf(order, i, j, w, dep, desc, overflow - (if dep[n] > desc.maxLength then 1 else 0),
                blCount[..], opt - opt0, stat - stat0);
    ghost var c := blCount[..];
    blCount[bits] := blCount[bits] + 1;
    assert blCount[..] == c[bits := c[bits] + 1];
    var xbits := 0;
    if n >= desc.extraBase {
      xbits := desc.extraBits[n - desc.extraBase];
    }
    var f: nat := tree[n].fc;
    opt := opt + f * (bits + xbits);
    if desc.staticLens != [] {
      stat := stat + f * (desc.staticLens[n] + xbits);
    }
  }

  method ClearCounts(blCount: array<nat>)
    requires blCount.Length == MAX_BITS + 1
    modifies blCount
    ensures forall b :: 0 <= b <= MAX_BITS ==> blCount[b] == 0
  {
    var bits := 0;
    while bits <= MAX_BITS
      invariant 0 <= bits <= MAX_BITS + 1
      invariant forall b :: 0 <= b < bits ==> blCount[b] == 0
    {
      blCount[bits] := 0;
      bits := bits + 1;
    }
  }

  /** One step of the first pass: node n, which is order[i]. */
  method AssignOne(tree: array<CtData>, blCount: array<nat>, desc: TreeDesc, maxCode: nat, n: nat,
                   overflowBefore: nat, optLen: int, staticLen: int,
                   ghost order: seq<nat>, ghost i: nat, ghost w: seq<nat>, ghost k: nat, ghost dep: seq<nat>,
                   ghost opt0: int, ghost stat0: int, ghost t0: seq<CtData>)
      returns (overflow: nat, opt: int, stat: int)
    requires desc.Valid() && maxCode < desc.elems && blCount.Length == MAX_BITS + 1
    requires |w| == tree.Length == |dep| <= 0x10000 && desc.elems <= |w|
    requires |t0| == |w| && forall x :: 0 <= x < desc.elems ==> w[x] == t0[x].fc
    requires MergeOrder(order, w, Active(w, desc.elems), desc.elems, k)
    requires Depths(order, dep, desc.elems, k)
    requires forall x :: 0 <= x < desc.elems && w[x] > 0 ==> x <= maxCode
    requires i < 2 * k && n == order[i]
    requires LengthsOnly(t0, tree[..], order)
    requires HalfDone(tree[..], order, i + 1, dep, desc.elems, k, desc.maxLength)
    requires Tallied(order, i + 1, 2 * k, w, dep, desc, overflowBefore, blCount[..], optLen - opt0, staticLen - stat0)
    modifies tree, blCount
    ensures LengthsOnly(t0, tree[..], order)
    ensures HalfDone(tree[..], order, i, dep, desc.elems, k, desc.maxLength)
    ensures Tallied(order, i, 2 * k, w, dep, desc, overflow, blCount[..], opt - opt0, stat - stat0)
  {
    hide MergeOrder, SumOver, Tallied, HalfDone, Depths, Active, Pow2, LengthsOnly;
    OrderSplits(order, w, Active(w, desc.elems), desc.elems, k);
    HalfDoneStep(tree[..], order, i, w, dep, desc.elems, k, desc.maxLength);
    overflow := overflowBefore;
    var bits: nat := tree[tree[n].dl].dl + 1;
    if bits > desc.maxLength {
      bits := desc.maxLength;
      overflow := overflow + 1;
    }
    ghost var t := tree[..];
    LengthsOnlyStep(t0, t, order, i, t[n].(dl := bits));
    tree[n] := tree[n].(dl := bits);
    assert tree[..] == t[n := t[n].(dl := bits)];
    if n > maxCode {
      NotALeaf(order, w, desc.elems, k, i, maxCode);
    }
    opt, stat := TallyNode(tree, blCount, desc, maxCode, n, bits, overflow, optLen, staticLen,
                           order, i, 2 * k, w, dep, opt0, stat0);
  }

  /** The root, last in the order, has length 0, and nothing is counted yet. */
  method StartAtRoot(tree: array<CtData>, heap: array<nat>, heapMax: nat, blCount: array<nat>, desc: TreeDesc,
                     ghost order: seq<nat>, ghost w: seq<nat>, ghost k: nat, ghost dep: seq<nat>)
    requires blCount.Length == MAX_BITS + 1 && blCount != heap && desc.elems <= |w|
    requires |w| == tree.Length == |dep| <= 0x10000
    requires MergeOrder(order, w, Active(w, desc.elems), desc.elems, k) && Depths(order, dep, desc.elems, k)
    requires InHeap(heap[..], heapMax, order) && Below(order, |w|) && |order| == 2 * k + 1
    requires forall i :: 0 <= i < 2 * k ==> tree[..][order[i]].dl == desc.elems + i / 2
    modifies tree, blCount
    ensures LengthsOnly(old(tree[..]), tree[..], order)
    ensures HalfDone(tree[..], order, 2 * k, dep, desc.elems, k, desc.maxLength)
    ensures Tallied(order, 2 * k, 2 * k, w, dep, desc, 0, blCount[..], 0, 0)
  {
    hide MergeOrder, SumOver, Tallied, HalfDone, Depths, Active, Pow2, LengthsOnly;
    HalfDoneStart(tree[..], order, w, dep, desc.elems, k, desc.maxLength);
    ghost var t0 := tree[..];
    LengthsOnlyStart(t0, order);
    LengthsOnlyStep(t0, t0, order, 2 * k, t0[order[2 * k]].(dl := 0));
    ClearCounts(blCount);
    var root := heap[heapMax];
    assert heap[..][HEAP_SIZE - 1 - 2 * k] == order[2 * k];
    tree[root] := tree[root].(dl := 0);
    assert tree[..] == t0[root := t0[root].(dl := 0)];
    TalliedNothing(order, 2 * k, w, dep, desc, blCount[..]);
  }

  /** The first pass: lengths are depths, clamped to the limit. */
  method AssignDepths(tree: array<CtData>, heap: array<nat>, heapMax: nat, blCount: array<nat>, desc: TreeDesc,
                      maxCode: nat, optLen: int, staticLen: int,
                      ghost order: seq<nat>, ghost w: seq<nat>, ghost k: nat, ghost dep: seq<nat>)
      returns (overflow: nat, opt: int, stat: int)
    requires desc.Valid() && maxCode < desc.elems
    requires blCount.Length == MAX_BITS + 1 && blCount != heap
    requires |w| == tree.Length == |dep| <= 0x10000 && desc.elems <= |w|
    requires forall x :: 0 <= x < desc.elems ==> w[x] == tree[x].fc
    requires MergeOrder(order, w, Active(w, desc.elems), desc.elems, k)
    requires Depths(order, dep, desc.elems, k)
    requires InHeap(heap[..], heapMax, order)
    requires forall i :: 0 <= i < 2 * k ==> tree[..][order[i]].dl == desc.elems + i / 2
    requires forall x :: 0 <= x < desc.elems && w[x] > 0 ==> x <= maxCode
    modifies tree, blCount
    ensures LengthsOnly(old(tree[..]), tree[..], order)
    ensures forall j :: 0 <= j <= 2 * k ==> tree[..][order[j]].dl == Min(dep[order[j]], desc.maxLength)
    ensures Tallied(order, 0, 2 * k, w, dep, desc, overflow, blCount[..], opt - optLen, stat - staticLen)
  {
    hide MergeOrder, SumOver, Tallied, HalfDone, Depths, Active, Pow2, LengthsOnly;
    OrderSplits(order, w, Active(w, desc.elems), desc.elems, k);
    ghost var t0 := tree[..];
    StartAtRoot(tree, heap, heapMax, blCount, desc, order, w, k, dep);
    overflow, opt, stat := 0, optLen, staticLen;
    var h := heapMax + 1;
    while h < HEAP_SIZE
      invariant heapMax < h <= HEAP_SIZE
      invariant heap[..] == old(heap[..])
      invariant LengthsOnly(t0, tree[..], order)
      invariant HalfDone(tree[..], order, HEAP_SIZE - h, dep, desc.elems, k, desc.maxLength)
      invariant Tallied(order, HEAP_SIZE - h, 2 * k, w, dep, desc, overflow, blCount[..], opt - optLen, stat - staticLen)
    {
      ghost var i := HEAP_SIZE - 1 - h;
      var n := heap[h];
      assert heap[..][HEAP_SIZE - 1 - i] == order[i];
      overflow, opt, stat := AssignOne(tree, blCount, desc, maxCode, n, overflow, opt, stat,
                                       order, i, w, k, dep, optLen, staticLen, t0);
      h := h + 1;
    }
    HalfDoneEnd(tree[..], order, dep, desc.elems, k, desc.maxLength);
  }

  lemma {:induction false} RootDistinct(order: seq<nat>, w: seq<nat>, elems: nat, k: nat)
    requires elems <= |w| && MergeOrder(order, w, Active(w, elems), elems, k)
    ensures forall j :: 0 <= j < 2 * k ==> order[j] != order[2 * k]
  {
    forall j | 0 <= j < 2 * k
      ensures order[j] != order[2 * k]
    {
      OrderDistinct(order, w, w, elems, k, j, 2 * k);
    }
  }

  /** A node above max_code is not a leaf: every leaf has a weight. */
  lemma {:induction false} NotALeaf(order: seq<nat>, w: seq<nat>, elems: nat, k: nat, i: nat, maxCode: nat)
    requires elems <= |w| && MergeOrder(order, w, Active(w, elems), elems, k)
    requires forall x :: 0 <= x < elems && w[x] > 0 ==> x <= maxCode
    requires i <= 2 * k && order[i] > maxCode
    ensures order[i] >= elems
  {
    var act, inner := Active(w, elems), Range(elems, elems + k);
    ActiveMembers(w, elems, order[i]);
    assert order[i] in multiset(order);
    assert order[i] !in multiset(act) by { assert order[i] !in act; }
    assert order[i] in multiset(inner) ==> order[i] in inner;
  }
}
