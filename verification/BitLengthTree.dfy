/** build_bl_tree and send_all_trees: the code length code of a dynamic block. */
module BitLengthTree {
  import opened Bits
  import opened Canonical
  import opened Inflate
  import opened Sums
  import opened HuffmanTree
  import opened GenCodes
  import opened FirstPass
  import opened CodeLengths
  import opened Merging
  import opened ForcedCodes
  import opened BuildTree
  import opened BitWriting
  import opened RunLengths
  import opened TreeHeader
  import opened TokenCosts
  import opened Blocks

  /** Extra bits of the code length symbols. */
  const EXTRA_BLBITS: seq<nat> := [0, 0, 0, 0, 0, 0, 0, 0, 0, 0, 0, 0, 0, 0, 0, 0, 2, 3, 7]

  const MAX_BL_BITS: nat := 7

  function BlDesc(): TreeDesc
  {
    TreeDesc(EXTRA_BLBITS, 0, BL_CODES, MAX_BL_BITS, [])
  }

  lemma BlDescValid()
    ensures BlDesc().Valid()
  {
    Pow2Values();
  }

  // ---------- what the items cost ----------

  function UseFreqs(items: seq<Item>, n: nat): (w: seq<nat>)
    ensures |w| == n && forall c :: 0 <= c < n ==> w[c] == Uses(items, c)
  {
    seq(n, c requires 0 <= c < n => Uses(items, c))
  }

  lemma ItemSize(clens: seq<nat>, it: Item)
    requires it.Valid() && it.Symbol() < |clens|
    ensures it.Symbol() < 19 && |EncodeItem(clens, it)| == clens[it.Symbol()] + BlDesc().Extra(it.Symbol())
  {
  }

  /** The bits of run-length coded lengths are what frequencies and lengths say. */
  lemma {:induction false} ItemsCost(clens: seq<nat>, items: seq<Item>)
    requires Sendable(clens, items)
    ensures |EncodeItems(clens, items)| == SymbolCost(UseFreqs(items, 19), clens, BlDesc(), 19)
  {
    hide SymbolCost, EncodeItem, BlDesc;
    if items == [] {
      CostNothing(UseFreqs(items, 19), clens, BlDesc(), 19);
    } else {
      var front, it := items[..|items| - 1], items[|items| - 1];
      assert it.Valid();
      ItemsCost(clens, front);
      ItemSize(clens, it);
      var w := UseFreqs(front, 19);
      CostBump(w, clens, BlDesc(), 19, it.Symbol());
      assert UseFreqs(items, 19) == w[it.Symbol() := w[it.Symbol()] + 1];
    }
  }

  lemma {:induction false} CostBeyond(w: seq<nat>, lens: seq<nat>, lens': seq<nat>, desc: TreeDesc, n: nat, n': nat)
    requires n <= n' <= |w| && n <= |lens| && n' <= |lens'| && forall i :: 0 <= i < n ==> lens[i] == lens'[i]
    requires forall i :: n <= i < n' ==> w[i] == 0
    ensures SymbolCost(w, lens, desc, n) == SymbolCost(w, lens', desc, n')
    decreases n'
  {
    if n < n' {
      CostBeyond(w, lens, lens', desc, n, n' - 1);
      assert w[n' - 1] * (lens'[n' - 1] + desc.Extra(n' - 1)) == 0;
    } else if n != 0 {
      CostBeyond(w, lens, lens', desc, n - 1, n - 1);
    }
  }

  // ---------- sums of frequencies ----------

  lemma {:induction false} SumBump(n: nat, v: seq<int>, s: nat)
    requires s < n <= |v|
    ensures SumOver(Range(0, n), v[s := v[s] + 1]) == SumOver(Range(0, n), v) + 1
  {
    var u := v[s := v[s] + 1];
    RangeNext(0, n - 1);
    SumAppend(Range(0, n - 1), n - 1, v);
    SumAppend(Range(0, n - 1), n - 1, u);
    if s < n - 1 {
      SumBump(n - 1, v, s);
    } else {
      SumSame(Range(0, n - 1), v, u);
    }
  }

  lemma {:induction false} UsesSum(items: seq<Item>)
    requires AllValid(items)
    ensures SumOver(Range(0, 19), AsInts(UseFreqs(items, 19))) == |items|
  {
    hide SumOver;
    if items == [] {
      SumZero(Range(0, 19), AsInts(UseFreqs(items, 19)));
    } else {
      var front, it := items[..|items| - 1], items[|items| - 1];
      assert it.Valid();
      UsesSum(front);
      var v := AsInts(UseFreqs(front, 19));
      SumBump(19, v, it.Symbol());
      assert AsInts(UseFreqs(items, 19)) == v[it.Symbol() := v[it.Symbol()] + 1];
    }
  }

  // ---------- from the tree to the header ----------

  /** The bit length tree codes these items; clens are its lengths. */
  ghost predicate BlReady(bl: seq<CtData>, clens: seq<nat>, items: seq<Item>)
  {
    && |clens| == 19 <= |bl| && clens == Lens(bl, 19)
    && HasCodes(bl, clens) && Sendable(clens, items)
    && (forall c :: 0 <= c < 19 ==> clens[c] < 8)
    && IsCode(clens, MAX_BITS)
  }

  /** The lengths of the whole tree, also where no symbol occurs. */
  lemma {:induction false} WholeTree(w: seq<nat>, bl: seq<CtData>, n: nat)
    requires Built(w, bl, BlDesc(), n)
    ensures n < 19 <= |bl| && IsCode(Lens(bl, 19), MAX_BITS) && HasCodes(bl, Lens(bl, 19))
    ensures forall c :: 0 <= c < 19 ==> Lens(bl, 19)[c] < 8
    ensures forall c :: 0 <= c < 19 && w[c] > 0 ==> c <= n && Lens(bl, 19)[c] > 0
  {
    hide Kraft, Codeword, LsbBits, Pow2;
    var lens, zeros := Lens(bl, n + 1), seq(18 - n, _ => 0);
    assert Lens(bl, 19) == lens + zeros;
    KraftZeros(lens, zeros, 7);
    CodeWidens(lens + zeros, 7, MAX_BITS);
    forall c | 0 <= c < 19 ensures HasCode(bl, Lens(bl, 19), c) {
      if c <= n {
        assert HasCode(bl, lens, c);
        CodewordZeros(lens, zeros, c);
      }
    }
  }

  lemma {:induction false} BlCodes(w: seq<nat>, bl: seq<CtData>, n: nat, items: seq<Item>)
    requires Built(w, bl, BlDesc(), n) && AllValid(items)
    requires forall c :: 0 <= c < 19 ==> w[c] == Uses(items, c)
    ensures 19 <= |bl| && n + 1 <= |bl| && BlReady(bl, Lens(bl, 19), items)
    ensures SymbolCost(w, Lens(bl, n + 1), BlDesc(), n + 1) == |EncodeItems(Lens(bl, 19), items)|
  {
    hide Uses, EncodeItems, IsCode, HasCodes, SymbolCost, Built;
    WholeTree(w, bl, n);
    var clens := Lens(bl, 19);
    BuiltShape(w, bl, n);
    forall i | 0 <= i < |items| ensures clens[items[i].Symbol()] > 0 {
      assert items[i].Valid();
      UsesBound(items, items[i].Symbol());
    }
    ItemsCost(clens, items);
    CostBeyond(w, Lens(bl, n + 1), clens, BlDesc(), n + 1, 19);
    SymbolCostSame(w, UseFreqs(items, 19), clens, BlDesc(), 19);
  }

  lemma BuiltShape(w: seq<nat>, bl: seq<CtData>, n: nat)
    requires Built(w, bl, BlDesc(), n)
    ensures |w| == |bl| && n < 19 <= |w| && forall c :: n < c < 19 ==> w[c] == 0
  {
  }

  /** Repeats alone never lead away from zero. */
  lemma {:induction false} OnlyZeros(acc: seq<nat>, items: seq<Item>)
    requires forall i :: 0 <= i < |acc| ==> acc[i] == 0
    requires forall i :: 0 <= i < |items| ==> items[i].Length? ==> items[i].len == 0
    ensures forall i :: 0 <= i < |Expand(acc, items)| ==> Expand(acc, items)[i] == 0
    decreases |items|
  {
    if items != [] {
      OnlyZeros(RunLengths.Step(acc, items[0]), items[1..]);
    }
  }

  /** A tree with a code in it needs the symbol of some code length, and those stand
      behind the first four. */
  lemma {:induction false} SomeLength(lens: seq<nat>, k: nat, clens: seq<nat>)
    requires k < |lens| && lens[k] > 0 && forall i :: 0 <= i < |lens| ==> lens[i] <= 15
    requires Sendable(clens, Rle(lens, 0, -1, 0))
    ensures exists j :: 4 <= j < 19 && clens[CODE_LENGTH_ORDER[j]] != 0
  {
    hide Rle, Expand;
    var items := Rle(lens, 0, -1, 0);
    RoundTrip([], lens);
    assert [] + lens == lens;
    if forall i :: 0 <= i < |items| ==> items[i].Length? ==> items[i].len == 0 {
      OnlyZeros([], items);
    } else {
      var i :| 0 <= i < |items| && items[i].Length? && items[i].len != 0;
      assert items[i].Valid();
      var c := items[i].len;
      OrderIsPermutation();
      assert CODE_LENGTH_ORDER[CODE_LENGTH_RANK[c]] == c && CODE_LENGTH_RANK[c] >= 4;
    }
  }

  /** Behind this index of CODE_LENGTH_ORDER no code length has a code, so that none need be
      sent. */
  method LastCode(blTree: array<CtData>) returns (maxBlindex: nat)
    requires blTree.Length >= 19
    ensures 2 <= maxBlindex <= 18
    ensures NoneFrom(Lens(blTree[..], 19), maxBlindex + 1)
    ensures maxBlindex >= 3 ==> blTree[CODE_LENGTH_ORDER[maxBlindex]].dl != 0
  {
    OrderIsPermutation();
    maxBlindex := 18;
    while maxBlindex >= 3
      invariant 2 <= maxBlindex <= 18
      invariant forall j :: maxBlindex < j < 19 ==> blTree[CODE_LENGTH_ORDER[j]].dl == 0
    {
      if blTree[CODE_LENGTH_ORDER[maxBlindex]].dl != 0 {
        break;
      }
      maxBlindex := maxBlindex - 1;
    }
  }

  // ---------- build_bl_tree ----------

  /** The first entries of a finished tree hold these lengths, and there is an entry behind
      them for the guard. */
  ghost predicate Treed(tree: seq<CtData>, lens: seq<nat>)
  {
    && 1 <= |lens| < |tree| && lens == Lens(tree, |lens|)
    && (forall i :: 0 <= i < |lens| ==> lens[i] <= 15)
    && (forall i :: 0 <= i < |lens| ==> HasCode(tree, lens, i))
  }

  ghost predicate Guarded(tree: seq<CtData>, lens: seq<nat>)
  {
    Treed(tree, lens) && tree[|lens|].dl == GUARD
  }

  lemma GuardKeeps(tree: seq<CtData>, lens: seq<nat>, fc: ush)
    requires Treed(tree, lens) && fc == tree[|lens|].fc
    ensures Guarded(tree[|lens| := CtData(fc, GUARD)], lens)
  {
    var t := tree[|lens| := CtData(fc, GUARD)];
    forall i | 0 <= i < |lens| ensures HasCode(t, lens, i) {
      assert HasCode(tree, lens, i);
    }
  }

  /** What is sent for both trees. */
  function TreeItems(llens: seq<nat>, dlens: seq<nat>): seq<Item>
  {
    Rle(llens, 0, -1, 0) + Rle(dlens, 0, -1, 0)
  }

  lemma TreeItemsValid(llens: seq<nat>, dlens: seq<nat>)
    requires (forall i :: 0 <= i < |llens| ==> llens[i] <= 15) && (forall i :: 0 <= i < |dlens| ==> dlens[i] <= 15)
    ensures AllValid(TreeItems(llens, dlens)) && |TreeItems(llens, dlens)| <= |llens| + |dlens|
  {
    hide Rle, Expand;
    RoundTrip([], llens);
    RoundTrip([], dlens);
  }

  lemma CountedFreqs(bl: seq<CtData>, bl': seq<CtData>, items: seq<Item>)
    requires CountedIn(bl, bl', items) && AllValid(items)
    requires forall c :: 0 <= c < 19 ==> bl[c].fc == 0
    ensures SumOver(Range(0, 19), AsInts(Freqs(bl'))) == |items|
    ensures forall c :: 0 <= c < 19 ==> Freqs(bl')[c] == Uses(items, c)
  {
    hide SumOver, Uses;
    UsesSum(items);
    SumSame(Range(0, 19), AsInts(Freqs(bl')), AsInts(UseFreqs(items, 19)));
  }

  lemma SplitSendable(clens: seq<nat>, a: seq<Item>, b: seq<Item>)
    requires Sendable(clens, a + b)
    ensures Sendable(clens, a) && Sendable(clens, b)
    ensures EncodeItems(clens, a + b) == EncodeItems(clens, a) + EncodeItems(clens, b)
  {
    forall i | 0 <= i < |a| ensures a[i].Valid() && clens[a[i].Symbol()] > 0 {
      assert (a + b)[i] == a[i];
    }
    forall i | 0 <= i < |b| ensures b[i].Valid() && clens[b[i].Symbol()] > 0 {
      assert (a + b)[|a| + i] == b[i];
    }
    EncodeConcat(clens, a, b);
  }

  /** At least four code length lengths are sent, in fact five. */
  lemma EnoughCodes(llens: seq<nat>, clens: seq<nat>, mb: nat)
    requires |llens| >= 257 && llens[256] > 0 && forall i :: 0 <= i < |llens| ==> llens[i] <= 15
    requires Sendable(clens, Rle(llens, 0, -1, 0))
    requires NoneFrom(clens, mb + 1)
    ensures mb >= 4
  {
    hide Rle, Sendable;
    SomeLength(llens, 256, clens);
    var j :| 4 <= j < 19 && clens[CODE_LENGTH_ORDER[j]] != 0;
    assert !(mb < j);
  }

  /** The header is ready to be sent, and how long it is. */
  lemma HeaderReady(llens: seq<nat>, dlens: seq<nat>, bl: seq<CtData>, clens: seq<nat>, mb: nat)
    requires 257 <= |llens| <= 286 && 1 <= |dlens| <= 30 && llens[256] > 0
    requires (forall i :: 0 <= i < |llens| ==> llens[i] <= 15) && (forall i :: 0 <= i < |dlens| ==> dlens[i] <= 15)
    requires BlReady(bl, clens, TreeItems(llens, dlens)) && 2 <= mb <= 18
    requires NoneFrom(clens, mb + 1)
    ensures mb >= 4 && HeaderOk(llens, dlens, clens, mb + 1)
    ensures |HeaderBits(llens, dlens, clens, mb + 1)|
         == 3 * (mb + 1) + 5 + 5 + 4 + |EncodeItems(clens, TreeItems(llens, dlens))|
  {
    hide Rle, EncodeItems, Sendable, CountBits, OrderBits, IsCode, HasCodes, NoneFrom;
    SplitSendable(clens, Rle(llens, 0, -1, 0), Rle(dlens, 0, -1, 0));
    EnoughCodes(llens, clens, mb);
  }

  /** The code of the code lengths is made from how often each symbol is sent; last is the
      last symbol with a code. */
  ghost predicate GoodHeader(o: Origin, items: seq<Item>, clens: seq<nat>, last: nat)
  {
    && last < |clens| == 19 <= |o.freqs| && (forall c :: 0 <= c < 19 ==> o.freqs[c] == Uses(items, c))
    && (forall c :: last < c < 19 ==> clens[c] == 0)
    && GoodCode(o, BlDesc(), clens[..last + 1])
  }

  lemma BlGood(o: Origin, bl: seq<CtData>, n: nat, items: seq<Item>)
    requires Built(o.freqs, bl, BlDesc(), n) && GoodCode(o, BlDesc(), Lens(bl, n + 1))
    requires forall c :: 0 <= c < 19 ==> c < |o.freqs| && o.freqs[c] == Uses(items, c)
    ensures |bl| >= 19 && GoodHeader(o, items, Lens(bl, 19), n)
  {
    hide GoodCode, Uses;
    assert Lens(bl, 19)[..n + 1] == Lens(bl, n + 1);
  }

  /** Build the code that the code lengths are sent with, and add the size of the header to
      the cost. Both trees keep their lengths and get a guard. */
  method BuildBlTree(t: Trees, lMax: nat, dMax: nat, ghost llens: seq<nat>, ghost dlens: seq<nat>)
      returns (maxBlindex: nat, ghost clens: seq<nat>, ghost last: nat, ghost o: Origin)
    requires t.Shape() && |llens| == lMax + 1 && |dlens| == dMax + 1
    requires Treed(t.dynLtree[..], llens) && Treed(t.dynDtree[..], dlens)
    requires 257 <= |llens| <= 286 && 1 <= |dlens| <= 30 && llens[256] > 0
    requires forall c :: 0 <= c < 19 ==> t.blTree[c].fc == 0
    modifies t`optLen, t`staticLen, t.dynLtree, t.dynDtree, t.blTree, t.heap, t.depth, t.blCount
    ensures Guarded(t.dynLtree[..], llens) && Guarded(t.dynDtree[..], dlens)
    ensures t.dynLtree[..] == old(t.dynLtree[..])[lMax + 1 := old(t.dynLtree[lMax + 1]).(dl := GUARD)]
    ensures t.dynDtree[..] == old(t.dynDtree[..])[dMax + 1 := old(t.dynDtree[dMax + 1]).(dl := GUARD)]
    ensures BlReady(t.blTree[..], clens, TreeItems(llens, dlens))
    ensures HeaderOk(llens, dlens, clens, maxBlindex + 1)
    ensures GoodHeader(o, TreeItems(llens, dlens), clens, last)
    ensures t.optLen == old(t.optLen) + |HeaderBits(llens, dlens, clens, maxBlindex + 1)|
    ensures t.staticLen == old(t.staticLen)
  {
    hide Rle, CountedIn, SumOver, Uses, HasCode, Trees.Valid, CodeTables.Valid, BlReady, HeaderOk, HeaderBits, EncodeItems,
         Built, Forcible, Force, CompleteCode, SymbolCost, StaticSymbolCost, HasCodes, Kraft, AllValid, UseFreqs, GoodCode, GoodHeader, InHeap;
    ghost var l0, d0, bl0 := t.dynLtree[..], t.dynDtree[..], t.blTree[..];
    ghost var li, di := Rle(llens, 0, -1, 0), Rle(dlens, 0, -1, 0);
    TreeItemsValid(llens, dlens);
    ScanTree(t.dynLtree, lMax, t.blTree);
    GuardKeeps(l0, llens, l0[lMax + 1].fc);
    ghost var bl1 := t.blTree[..];
    FewUses(bl0, bl1, li, llens);
    ScanTree(t.dynDtree, dMax, t.blTree);
    GuardKeeps(d0, dlens, d0[dMax + 1].fc);
    ghost var bl2 := t.blTree[..];
    CountedInMore(bl0, bl1, bl2, li, di);
    CountedFreqs(bl0, bl2, li + di);
    BlDescValid();
    var n, opt, stat;
    var heapMax;
    n, opt, stat, heapMax, o := BuildTree.BuildTree(t.blTree, t.depth, t.heap, t.blCount, BlDesc(), t.optLen, t.staticLen);
    clens := Lens(t.blTree[..], 19);
    BlCodes(Freqs(bl2), t.blTree[..], n, li + di);
    last := n;
    BlGood(o, t.blTree[..], n, li + di);
    maxBlindex := LastCode(t.blTree);
    HeaderReady(llens, dlens, t.blTree[..], clens, maxBlindex);
    t.optLen := opt + 3 * (maxBlindex + 1) + 5 + 5 + 4;
    t.staticLen := stat;
  }

  lemma FewUses(bl: seq<CtData>, bl': seq<CtData>, items: seq<Item>, lens: seq<nat>)
    requires CountedIn(bl, bl', items) && forall c :: 0 <= c < 19 ==> bl[c].fc == 0
    requires items == Rle(lens, 0, -1, 0) && |lens| <= 286 && forall i :: 0 <= i < |lens| ==> lens[i] <= 15
    ensures |bl'| == |bl| && forall c :: 0 <= c < 19 ==> bl'[c].fc <= 286
  {
    hide Rle, Expand, Uses;
    RoundTrip([], lens);
    forall c | 0 <= c < 19 ensures bl'[c].fc <= 286 {
      UsesBound(items, c);
    }
  }

  // ---------- send_all_trees ----------

  lemma CodeLengthFits(bl: seq<CtData>, clens: seq<nat>, items: seq<Item>, rank: nat)
    requires BlReady(bl, clens, items) && rank < 19
    ensures CODE_LENGTH_ORDER[rank] < 19 <= |bl| && bl[CODE_LENGTH_ORDER[rank]].dl == clens[CODE_LENGTH_ORDER[rank]] < Pow2(3)
  {
    OrderIsPermutation();
    Pow2Values();
  }

  lemma ItemsReady(bl: seq<CtData>, clens: seq<nat>, llens: seq<nat>, dlens: seq<nat>)
    requires BlReady(bl, clens, TreeItems(llens, dlens))
    ensures CodesReady(bl, clens, Rle(llens, 0, -1, 0)) && CodesReady(bl, clens, Rle(dlens, 0, -1, 0))
  {
    hide Rle, HasCodes, IsCode;
    SplitSendable(clens, Rle(llens, 0, -1, 0), Rle(dlens, 0, -1, 0));
  }

  /** The header up to the run-length coded part: three counts, then three bits for each
      code length in CODE_LENGTH_ORDER. */
  method SendCounts(w: BitWriter, bl: seq<CtData>, lcodes: nat, dcodes: nat, blcodes: nat,
                    ghost llens: seq<nat>, ghost dlens: seq<nat>, ghost clens: seq<nat>, ghost items: seq<Item>)
    requires w.Valid() && 257 <= lcodes <= 286 && 1 <= dcodes <= 30 && 4 <= blcodes <= 19
    requires lcodes == |llens| && dcodes == |dlens| && BlReady(bl, clens, items)
    modifies w, w.outbuf
    ensures w.Valid()
    ensures w.sent == old(w.sent) + (CountBits(llens, dlens, blcodes) + OrderBits(clens, blcodes))
  {
    hide LsbBits, BlReady, BitWriter.Valid, Pow2;
    Pow2Values();
    w.SendBits(lcodes - 257, 5);
    w.SendBits(dcodes - 1, 5);
    w.SendBits(blcodes - 4, 4);
    CodeLengthFits(bl, clens, items, 0);
    assert |clens| == 19 by {
      BlSize(bl, clens, items);
    }
    assert old(w.sent) + CountBits(llens, dlens, blcodes) == w.sent;
    ghost var counted := w.sent;
    var rank := 0;
    while rank < blcodes
      invariant 0 <= rank <= blcodes && w.Valid()
      invariant w.sent == counted + OrderBits(clens, rank)
    {
      CodeLengthFits(bl, clens, items, rank);
      w.SendBits(bl[CODE_LENGTH_ORDER[rank]].dl, 3);
      rank := rank + 1;
    }
  }

  lemma BlSize(bl: seq<CtData>, clens: seq<nat>, items: seq<Item>)
    requires BlReady(bl, clens, items)
    ensures |clens| == 19 <= |bl|
  {
  }

  /** Exactly the bits of HeaderBits go out, from which a decoder knows both trees. */
  method SendAllTrees(w: BitWriter, t: Trees, lcodes: nat, dcodes: nat, blcodes: nat,
                      ghost llens: seq<nat>, ghost dlens: seq<nat>, ghost clens: seq<nat>)
    requires w.Valid() && lcodes == |llens| && dcodes == |dlens|
    requires Guarded(t.dynLtree[..], llens) && Guarded(t.dynDtree[..], dlens)
    requires BlReady(t.blTree[..], clens, TreeItems(llens, dlens)) && HeaderOk(llens, dlens, clens, blcodes)
    modifies w, w.outbuf
    ensures w.Valid()
    ensures w.sent == old(w.sent) + HeaderBits(llens, dlens, clens, blcodes)
  {
    hide BlReady, BitWriter.Valid, CountBits, OrderBits, Rle, EncodeItems, Sendable, CodesReady, HasCode, IsCode;
    ItemsReady(t.blTree[..], clens, llens, dlens);
    SendCounts(w, t.blTree[..], lcodes, dcodes, blcodes, llens, dlens, clens, TreeItems(llens, dlens));
    SendTree(w, t.dynLtree, lcodes - 1, t.blTree, clens);
    SendTree(w, t.dynDtree, dcodes - 1, t.blTree, clens);
  }
}
