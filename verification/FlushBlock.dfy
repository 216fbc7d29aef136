/** flush_block: the three encodings of a block, what they cost, and the choice. */
module FlushBlock {
  import opened Bits
  import opened Canonical
  import opened Inflate
  import opened Sums
  import opened HuffmanTree
  import opened GenCodes
  import opened FirstPass
  import opened CodeLengths
  import opened Merging
  import opened ForcedCodes
  import opened BuildTree
  import opened HuffmanCost
  import opened HuffmanDepth
  import TreeHeight
  import opened HuffmanOptimal
  import opened BitWriting
  import opened RunLengths
  import opened TreeHeader
  import opened Tokens
  import opened TokenCosts
  import opened TokenStore
  import opened StaticTables
  import opened Blocks
  import opened CompressBlock
  import opened BitLengthTree
  import opened BlockFormat

  function LDesc(): TreeDesc
  {
    TreeDesc(LENGTH_EXTRA, LITERALS + 1, L_CODES, MAX_BITS, FixedLiteralLengths())
  }

  function DDesc(): TreeDesc
  {
    TreeDesc(DIST_EXTRA, 0, D_CODES, MAX_BITS, FixedDistanceLengths())
  }

  lemma DescsValid()
    ensures LDesc().Valid() && DDesc().Valid() && ExtrasMatch(LDesc(), DDesc())
    ensures LDesc().elems == 286 && DDesc().elems == 30 && LDesc().maxLength == DDesc().maxLength == MAX_BITS
    ensures LDesc().staticLens == FixedLiteralLengths() && DDesc().staticLens == FixedDistanceLengths()
    ensures LDesc().staticLens != [] && DDesc().staticLens != []
  {
    hide FixedLiteralLengths, FixedDistanceLengths;
    FixedTableSizes();
    Pow2Values();
  }

  lemma FixedTableSizes()
    ensures |FixedLiteralLengths()| == 288 && |FixedDistanceLengths()| == 32
  {
    hide Repeat;
  }

  // ---------- the frequencies of a block ----------

  lemma {:induction false} LitSum(ts: seq<Token>)
    ensures SumOver(Range(0, 286), AsInts(LitFreqs(ts, 286))) == |ts| + 1
  {
    hide SumOver, Symbol;
    if ts == [] {
      var zero := seq(286, _ => 0);
      SumZero(Range(0, 286), AsInts(zero));
      SumBump(286, AsInts(zero), END_BLOCK);
      assert AsInts(LitFreqs(ts, 286)) == AsInts(zero)[END_BLOCK := AsInts(zero)[END_BLOCK] + 1];
    } else {
      var front, s := ts[..|ts| - 1], Symbol(ts[|ts| - 1]);
      LitSum(front);
      var v := AsInts(LitFreqs(front, 286));
      SumBump(286, v, s);
      assert AsInts(LitFreqs(ts, 286)) == v[s := v[s] + 1];
    }
  }

  lemma {:induction false} DistSum(ts: seq<Token>)
    ensures SumOver(Range(0, 30), AsInts(DistFreqs(ts, 30))) <= |ts|
  {
    hide SumOver, DistCode;
    if ts == [] {
      SumZero(Range(0, 30), AsInts(DistFreqs(ts, 30)));
    } else {
      var front, t := ts[..|ts| - 1], ts[|ts| - 1];
      DistSum(front);
      var v := AsInts(DistFreqs(front, 30));
      if t.Match? {
        var s := DistCode(t.distance);
        SumBump(30, v, s);
        assert AsInts(DistFreqs(ts, 30)) == v[s := v[s] + 1];
      } else {
        assert AsInts(DistFreqs(ts, 30)) == v;
      }
    }
  }

  /** The trees are within what build_tree can take. */
  lemma BlockSums(l: seq<CtData>, d: seq<CtData>, bl: seq<CtData>, ts: seq<Token>)
    requires Counting(l, d, bl, ts) && |ts| < LIT_BUFSIZE
    ensures SumOver(Range(0, 286), AsInts(Freqs(l))) <= 0xfffd && SumOver(Range(0, 30), AsInts(Freqs(d))) <= 0xfffd
  {
    hide SumOver;
    LitSum(ts);
    DistSum(ts);
    SumSame(Range(0, 286), AsInts(Freqs(l)), AsInts(LitFreqs(ts, 286)));
    SumSame(Range(0, 30), AsInts(Freqs(d)), AsInts(DistFreqs(ts, 30)));
  }

  lemma {:induction false} NoSuchSymbol(ts: seq<Token>, s: nat)
    ensures s >= 286 ==> LitCount(ts, s) == 0
    ensures s >= 30 ==> DistCount(ts, s) == 0
  {
    if ts != [] {
      NoSuchSymbol(ts[..|ts| - 1], s);
    }
  }

  // ---------- dynamic trees ----------

  /** wl and wd are the frequencies that the tokens and the end of the block have. */
  ghost predicate FreqsOf(wl: seq<nat>, wd: seq<nat>, ts: seq<Token>)
  {
    && |wl| >= 286 && |wd| >= 30 && InRange(ts)
    && (forall s :: 0 <= s < 286 ==> wl[s] == LitFreqs(ts, 286)[s])
    && (forall s :: 0 <= s < 30 ==> wd[s] == DistFreqs(ts, 30)[s])
  }

  lemma CodedInTrees(ts: seq<Token>, wl: seq<nat>, wd: seq<nat>, llens: seq<nat>, dlens: seq<nat>, i: nat)
    requires FreqsOf(wl, wd, ts) && i < |ts|
    requires forall s :: 0 <= s < 286 && wl[s] > 0 ==> s < |llens| && llens[s] > 0
    requires forall s :: 0 <= s < 30 && wd[s] > 0 ==> s < |dlens| && dlens[s] > 0
    ensures Coded(llens, dlens, ts[i])
  {
    hide Symbol, DistCode, LitCount, DistCount;
    Counted(ts, i);
    assert LitFreqs(ts, 286)[Symbol(ts[i])] > 0;
    if ts[i].Match? {
      assert DistFreqs(ts, 30)[DistCode(ts[i].distance)] > 0;
    }
  }

  /** The finished trees hold codes for everything in the block. */
  lemma {:induction false} DynamicCodes(wl: seq<nat>, wd: seq<nat>, l: seq<CtData>, d: seq<CtData>, lMax: nat, dMax: nat, ts: seq<Token>)
    requires FreqsOf(wl, wd, ts) && Built(wl, l, LDesc(), lMax) && Built(wd, d, DDesc(), dMax) && |l| > 286 && |d| > 30
    ensures 256 <= lMax <= 285 && 1 <= dMax <= 29 && CodesBlock(Lens(l, lMax + 1), Lens(d, dMax + 1), ts)
    ensures Treed(l, Lens(l, lMax + 1)) && Treed(d, Lens(d, dMax + 1))
  {
    hide Kraft, Pow2, HasCode, Coded, FreqsOf;
    DescsValid();
    var llens, dlens := Lens(l, lMax + 1), Lens(d, dMax + 1);
    EndCounted(wl, wd, ts);
    forall i | 0 <= i < |ts| ensures Coded(llens, dlens, ts[i]) {
      CodedInTrees(ts, wl, wd, llens, dlens, i);
    }
  }

  lemma EndCounted(wl: seq<nat>, wd: seq<nat>, ts: seq<Token>)
    requires FreqsOf(wl, wd, ts)
    ensures |wl| >= 286 && |wd| >= 30 && wl[END_BLOCK] > 0
  {
  }

  /** What the dynamic trees cost is what is sent. */
  lemma {:induction false} DynamicCost(wl: seq<nat>, wd: seq<nat>, llens: seq<nat>, dlens: seq<nat>, ts: seq<Token>)
    requires FreqsOf(wl, wd, ts) && CodesBlock(llens, dlens, ts) && |llens| <= 286 && |dlens| <= 30
    ensures SymbolCost(wl, llens, LDesc(), |llens|) + SymbolCost(wd, dlens, DDesc(), |dlens|)
         == |DataBits(llens, dlens, ts)|
  {
    hide SymbolCost, EncodeTokens, AllCoded, IsCode, Codeword;
    DescsValid();
    TokensCost(llens, dlens, LDesc(), DDesc(), ts);
    SymbolCostSame(wl, LitFreqs(ts, |llens|), llens, LDesc(), |llens|);
    SymbolCostSame(wd, DistFreqs(ts, |dlens|), dlens, DDesc(), |dlens|);
  }

  // ---------- static trees ----------

  lemma FixedLengths()
    ensures forall s :: 0 <= s < 288 ==> 7 <= FixedLiteralLengths()[s] <= 9
    ensures FixedLiteralLengths()[END_BLOCK] == 7
    ensures forall c :: 0 <= c < 32 ==> FixedDistanceLengths()[c] == 5
  {
    hide Repeat;
    var a, b, c, d := Repeat<nat>(8, 144), Repeat<nat>(9, 112), Repeat<nat>(7, 24), Repeat<nat>(8, 8);
    assert FixedLiteralLengths() == a + b + c + d;
  }

  lemma StaticCodes(ts: seq<Token>)
    requires InRange(ts)
    ensures CodesBlock(FixedLiteralLengths(), FixedDistanceLengths(), ts)
  {
    hide FixedLiteralLengths, FixedDistanceLengths, Symbol, DistCode, Kraft, Pow2;
    FixedIsCode();
    FixedLengths();
    forall i | 0 <= i < |ts| ensures Coded(FixedLiteralLengths(), FixedDistanceLengths(), ts[i]) {
    }
  }

  /** What the static trees would cost is what would be sent. */
  lemma {:induction false} StaticBlockCost(wl: seq<nat>, wd: seq<nat>, ts: seq<Token>, nl: nat, nd: nat)
    requires FreqsOf(wl, wd, ts) && nl <= 286 && nd <= 30
    requires CodesBlock(FixedLiteralLengths(), FixedDistanceLengths(), ts)
    requires (forall s :: nl <= s < 286 ==> wl[s] == 0) && (forall s :: nd <= s < 30 ==> wd[s] == 0)
    ensures StaticSymbolCost(wl, LDesc(), nl) + StaticSymbolCost(wd, DDesc(), nd)
         == |DataBits(FixedLiteralLengths(), FixedDistanceLengths(), ts)|
  {
    hide SymbolCost, StaticSymbolCost, EncodeTokens, AllCoded, IsCode, Codeword, FixedLiteralLengths, FixedDistanceLengths,
         LDesc, DDesc, LitCount, DistCount;
    DescsValid();
    var fl, fd := FixedLiteralLengths(), FixedDistanceLengths();
    TokensCost(fl, fd, LDesc(), DDesc(), ts);
    var wl', wd' := LitFreqs(ts, 288), DistFreqs(ts, 32);
    forall s | nl <= s < 288 ensures wl'[s] == 0 {
      NoSuchSymbol(ts, s);
      assert s < 286 ==> wl[s] == LitFreqs(ts, 286)[s];
    }
    forall s | nd <= s < 32 ensures wd'[s] == 0 {
      NoSuchSymbol(ts, s);
      assert s < 30 ==> wd[s] == DistFreqs(ts, 30)[s];
    }
    StaticIsCost(wl', fl, LDesc(), nl, 288);
    StaticIsCost(wd', fd, DDesc(), nd, 32);
    SymbolCostSame(wl, wl', fl, LDesc(), nl);
    SymbolCostSame(wd, wd', fd, DDesc(), nd);
  }

  lemma FixedTokenSize(t: Token)
    requires Coded(FixedLiteralLengths(), FixedDistanceLengths(), t)
    ensures |EncodeToken(FixedLiteralLengths(), FixedDistanceLengths(), t)| <= 32
  {
    hide FixedLiteralLengths, FixedDistanceLengths, Coded, EncodeToken, Symbol, DistCode;
    FixedLengths();
    TokenLength(FixedLiteralLengths(), FixedDistanceLengths(), t);
  }

  /** A token takes its codes and at most 5 and 13 extra bits. */
  lemma TokenLength(llens: seq<nat>, dlens: seq<nat>, t: Token)
    requires Coded(llens, dlens, t)
    ensures Symbol(t) < |llens| && (t.Match? ==> 1 <= t.distance <= 0x8000 && DistCode(t.distance) < |dlens|)
    ensures |EncodeToken(llens, dlens, t)| <= llens[Symbol(t)] + (if t.Match? then 5 + dlens[DistCode(t.distance)] + 13 else 0)
  {
    hide LengthCode, DistCode, Codeword, EncodeLength, EncodeDistance;
    if t.Match? {
      LengthSize(llens, t.length);
      DistanceSize(dlens, t.distance);
    }
  }

  lemma FewExtraBits(lc: nat, dc: nat)
    requires lc <= 28 && dc <= 29
    ensures LENGTH_EXTRA[lc] <= 5 && DIST_EXTRA[dc] <= 13
  {
  }

  lemma LengthSize(llens: seq<nat>, length: nat)
    requires MIN_MATCH <= length <= MAX_MATCH && 257 + LengthCode(length) < |llens|
    ensures |EncodeLength(llens, length)| <= llens[257 + LengthCode(length)] + 5
  {
    hide LengthCode, Codeword, LsbBits;
    FewExtraBits(LengthCode(length), 0);
  }

  lemma DistanceSize(dlens: seq<nat>, distance: nat)
    requires 1 <= distance <= 0x8000 && DistCode(distance) < |dlens|
    ensures |EncodeDistance(dlens, distance)| <= dlens[DistCode(distance)] + 13
  {
    hide DistCode, Codeword, LsbBits;
    FewExtraBits(0, DistCode(distance));
  }

  /** With the static trees no token takes more than four bytes. */
  lemma {:induction false} StaticBound(ts: seq<Token>)
    requires AllCoded(FixedLiteralLengths(), FixedDistanceLengths(), ts)
    ensures |EncodeTokens(FixedLiteralLengths(), FixedDistanceLengths(), ts)| <= 32 * |ts|
  {
    hide EncodeToken, FixedLiteralLengths, FixedDistanceLengths, Coded;
    if ts != [] {
      StaticBound(ts[..|ts| - 1]);
      FixedTokenSize(ts[|ts| - 1]);
    }
  }

  /** With codes of at most 15 bits, a token takes at most six bytes. */
  lemma AnyTokenSize(llens: seq<nat>, dlens: seq<nat>, t: Token)
    requires Coded(llens, dlens, t) && IsCode(llens, MAX_BITS) && IsCode(dlens, MAX_BITS)
    ensures |EncodeToken(llens, dlens, t)| <= 48
  {
    hide Coded, EncodeToken, Symbol, DistCode, Kraft, Pow2;
    TokenLength(llens, dlens, t);
  }

  lemma {:induction false} AnyTokensSize(llens: seq<nat>, dlens: seq<nat>, ts: seq<Token>)
    requires AllCoded(llens, dlens, ts) && IsCode(llens, MAX_BITS) && IsCode(dlens, MAX_BITS)
    ensures |EncodeTokens(llens, dlens, ts)| <= 48 * |ts|
  {
    hide EncodeToken, Coded, IsCode;
    if ts != [] {
      AnyTokensSize(llens, dlens, ts[..|ts| - 1]);
      AnyTokenSize(llens, dlens, ts[|ts| - 1]);
    }
  }

  lemma {:induction false} AnyItemsSize(clens: seq<nat>, items: seq<Item>)
    requires Sendable(clens, items) && forall i :: 0 <= i < |clens| ==> clens[i] < 8
    ensures |EncodeItems(clens, items)| <= 14 * |items|
  {
    hide EncodeItem;
    if items != [] {
      AnyItemsSize(clens, items[..|items| - 1]);
    }
  }

  /** What a block takes is far less than what fits 32 bits. */
  lemma BlockFits(llens: seq<nat>, dlens: seq<nat>, clens: seq<nat>, n: nat, ts: seq<Token>)
    requires HeaderOk(llens, dlens, clens, n) && CodesBlock(llens, dlens, ts) && |ts| < LIT_BUFSIZE
    ensures |HeaderBits(llens, dlens, clens, n)| + |DataBits(llens, dlens, ts)| < 0x20_0000
  {
    hide EncodeItems, EncodeTokens, Rle, Expand, IsCode, AllCoded, CountBits, OrderBits, Codeword, LsbBits, NoneFrom;
    AnyTokensSize(llens, dlens, ts);
    CodeSize(llens, END_BLOCK);
    RoundTrip([], llens);
    RoundTrip([], dlens);
    AnyItemsSize(clens, Rle(llens, 0, -1, 0));
    AnyItemsSize(clens, Rle(dlens, 0, -1, 0));
  }

  lemma StaticSize(ts: seq<Token>)
    requires CodesBlock(FixedLiteralLengths(), FixedDistanceLengths(), ts) && |ts| < LIT_BUFSIZE
    ensures |DataBits(FixedLiteralLengths(), FixedDistanceLengths(), ts)| < 0x20_0000
  {
    hide EncodeTokens, IsCode, AllCoded, Codeword, FixedLiteralLengths, FixedDistanceLengths;
    AnyTokensSize(FixedLiteralLengths(), FixedDistanceLengths(), ts);
    CodeSize(FixedLiteralLengths(), END_BLOCK);
  }

  lemma CodeSize(llens: seq<nat>, s: nat)
    requires IsCode(llens, MAX_BITS) && s < |llens|
    ensures |Codeword(llens, s)| <= 15
  {
  }

  // ---------- what flush_block chooses from ----------

  /** The dynamic trees of a block. */
  datatype Plan = Plan(llens: seq<nat>, dlens: seq<nat>, clens: seq<nat>, blcodes: nat, last: nat,
                       lit: Origin, dist: Origin, lengths: Origin)

  ghost predicate Planned(plan: Plan, ts: seq<Token>)
  {
    && HeaderOk(plan.llens, plan.dlens, plan.clens, plan.blcodes)
    && CodesBlock(plan.llens, plan.dlens, ts)
    && CodesBlock(FixedLiteralLengths(), FixedDistanceLengths(), ts)
    && WellMade(plan, ts)
  }

  /** The trees were made from the frequencies of the block, and are as good for them as
      GoodCode says. */
  ghost predicate WellMade(plan: Plan, ts: seq<Token>)
  {
    && FreqsOf(plan.lit.freqs, plan.dist.freqs, ts)
    && GoodCode(plan.lit, LDesc(), plan.llens) && GoodCode(plan.dist, DDesc(), plan.dlens)
    && GoodHeader(plan.lengths, TreeItems(plan.llens, plan.dlens), plan.clens, plan.last)
  }

  /** Bits of the block after its type, with dynamic and with static trees. */
  ghost function DynamicBits(plan: Plan, ts: seq<Token>): seq<bool>
    requires Planned(plan, ts)
  {
    HeaderBits(plan.llens, plan.dlens, plan.clens, plan.blcodes) + DataBits(plan.llens, plan.dlens, ts)
  }

  ghost function StaticBits(plan: Plan, ts: seq<Token>): seq<bool>
    requires Planned(plan, ts)
  {
    DataBits(FixedLiteralLengths(), FixedDistanceLengths(), ts)
  }

  /** The trees hold what the plan says. */
  ghost predicate Holding(l: seq<CtData>, d: seq<CtData>, bl: seq<CtData>, plan: Plan)
  {
    && Guarded(l, plan.llens) && Guarded(d, plan.dlens)
    && BlReady(bl, plan.clens, TreeItems(plan.llens, plan.dlens))
  }

  lemma CountingFreqs(l: seq<CtData>, d: seq<CtData>, bl: seq<CtData>, ts: seq<Token>)
    requires Counting(l, d, bl, ts) && InRange(ts)
    ensures FreqsOf(Freqs(l), Freqs(d), ts)
    ensures forall c :: 0 <= c < 19 ==> bl[c].fc == 0
  {
  }

  lemma StoredTokens(lBuf: seq<byte>, dBuf: seq<ush>, flagBuf: seq<byte>, lastLit: nat, lastDist: nat, lastFlags: nat,
                     flags: nat, flagBit: nat, ts: seq<Token>)
    requires Stored(lBuf, dBuf, flagBuf, lastLit, lastDist, lastFlags, flags, flagBit, ts)
    ensures InRange(ts) && |ts| < LIT_BUFSIZE
  {
  }

  lemma UnusedBeyond(w: seq<nat>, tree: seq<CtData>, desc: TreeDesc, n: nat)
    requires Built(w, tree, desc, n)
    ensures n < desc.elems <= |w| && forall s :: n < s < desc.elems ==> w[s] == 0
  {
  }

  lemma EndCoded(llens: seq<nat>, dlens: seq<nat>, ts: seq<Token>)
    requires CodesBlock(llens, dlens, ts)
    ensures |llens| >= 257 && llens[256] > 0
  {
  }

  /** Construct the three trees; compute the cost of both kinds of compressed block. */
  method PlanBlock(t: Trees) returns (lMax: nat, dMax: nat, maxBlindex: nat, ghost plan: Plan)
    requires t.Valid()
    modifies t`optLen, t`staticLen, t.dynLtree, t.dynDtree, t.blTree, t.heap, t.depth, t.blCount
    ensures Planned(plan, t.tokens)
    ensures |plan.llens| == lMax + 1 && |plan.dlens| == dMax + 1 && plan.blcodes == maxBlindex + 1
    ensures Holding(t.dynLtree[..], t.dynDtree[..], t.blTree[..], plan)
    ensures t.optLen == |DynamicBits(plan, t.tokens)| && t.staticLen == |StaticBits(plan, t.tokens)|
    ensures t.optLen + 10 < UINT_RANGE && t.staticLen + 10 < UINT_RANGE
  {
    hide Counting, Stored, CodeTables.Valid, SumOver, Built, Forcible, Force, CompleteCode, SymbolCost, StaticSymbolCost,
         HasCodes, Treed, Guarded, BlReady, HeaderOk, HeaderBits, CodesBlock, DataBits, FreqsOf, LDesc, DDesc, InRange,
         FixedLiteralLengths, FixedDistanceLengths, TreeItems, Kraft, GoodCode, GoodHeader, InHeap;
    ghost var ts := t.tokens;
    ghost var l0, d0 := t.dynLtree[..], t.dynDtree[..];
    StoredTokens(t.lBuf[..], t.dBuf[..], t.flagBuf[..], t.lastLit, t.lastDist, t.lastFlags, t.flags, t.flagBit, ts);
    BlockSums(l0, d0, t.blTree[..], ts);
    CountingFreqs(l0, d0, t.blTree[..], ts);
    ghost var wl, wd := Freqs(l0), Freqs(d0);
    DescsValid();
    var opt, stat;
    var heapMax;
    ghost var lit, dist, lengths, last;
    lMax, opt, stat, heapMax, lit := BuildTree.BuildTree(t.dynLtree, t.depth, t.heap, t.blCount, LDesc(), t.optLen, t.staticLen);
    dMax, opt, stat, heapMax, dist := BuildTree.BuildTree(t.dynDtree, t.depth, t.heap, t.blCount, DDesc(), opt, stat);
    t.optLen, t.staticLen := opt, stat;
    DynamicCodes(wl, wd, t.dynLtree[..], t.dynDtree[..], lMax, dMax, ts);
    ghost var llens, dlens := Lens(t.dynLtree[..], lMax + 1), Lens(t.dynDtree[..], dMax + 1);
    UnusedBeyond(wl, t.dynLtree[..], LDesc(), lMax);
    UnusedBeyond(wd, t.dynDtree[..], DDesc(), dMax);
    StaticCodes(ts);
    DynamicCost(wl, wd, llens, dlens, ts);
    StaticBlockCost(wl, wd, ts, lMax + 1, dMax + 1);
    EndCoded(llens, dlens, ts);
    ghost var clens;
    maxBlindex, clens, last, lengths := BuildBlTree(t, lMax, dMax, llens, dlens);
    plan := Plan(llens, dlens, clens, maxBlindex + 1, last, lit, dist, lengths);
    BlockFits(llens, dlens, clens, maxBlindex + 1, ts);
    StaticSize(ts);
  }

  /** The lengths of a tree for these frequencies cost as little as any prefix code, if two
      symbols occur and the Huffman tree is within the limit, or just light enough. */
  lemma NothingCheaper(o: Origin, desc: TreeDesc, lens: seq<nat>, cs: seq<seq<bool>>, m: nat)
    requires desc.elems <= |o.freqs| && |Active(o.freqs, desc.elems)| >= 2
    requires !TooDeep(o.growth.order, desc.elems, o.growth.k, desc.maxLength)
      || SumOver(Range(0, desc.elems), AsInts(o.freqs)) < Fib(desc.maxLength + 3)
    requires |lens| <= |o.freqs| && |cs| == |Active(o.freqs, |lens|)| && PrefixCode(cs) && Within(cs, 0, m)
    requires GoodCode(o, desc, lens)
    ensures CodeCost(o.freqs, lens, |lens|) <= Dot(WeightsOf(Active(o.freqs, |lens|), o.freqs), Lengths(cs))
  {
    hide SumOver, Active, TooDeep, HuffmanMerge, CheapestCode, CompleteCode, CodeCost, WeightsOf, FrequentShorter, Fib, TreeHeight.LeastHeight;
    assert Force(o.freqs, o.forced) == o.freqs;
    if TooDeep(o.growth.order, desc.elems, o.growth.k, desc.maxLength) {
      DeepIsHeavy(o.growth, o.freqs, desc.elems, desc.maxLength);
    }
    NoPrefixCodeIsCheaper(o.freqs, lens, cs, m);
  }

  lemma GoodSize(o: Origin, desc: TreeDesc, lens: seq<nat>)
    requires GoodCode(o, desc, lens)
    ensures desc.elems <= |o.freqs|
  {
  }

  lemma NotTheEnd(t: Token)
    ensures Symbol(t) != END_BLOCK
  {
  }

  /** Two symbols occur in a block with a token in it, and all of them together as often as
      there are tokens, and once more. */
  lemma LiteralWeight(wl: seq<nat>, wd: seq<nat>, ts: seq<Token>)
    requires FreqsOf(wl, wd, ts) && ts != []
    ensures |Active(wl, 286)| >= 2 && SumOver(Range(0, 286), AsInts(wl)) == |ts| + 1
  {
    hide SumOver, Active, Symbol;
    LitSum(ts);
    SumSame(Range(0, 286), AsInts(wl), AsInts(LitFreqs(ts, 286)));
    Counted(ts, 0);
    NotTheEnd(ts[0]);
    var a, b := Symbol(ts[0]), END_BLOCK;
    assert wl[b] > 0 && wl[a] > 0 && a != b;
    ActiveMembers(wl, 286, a);
    ActiveMembers(wl, 286, b);
  }

  /** A block of 1 to 2582 tokens has an optimal code for its literals and lengths: no
      prefix code takes fewer bits. */
  lemma ShortBlockIsOptimal(plan: Plan, ts: seq<Token>, cs: seq<seq<bool>>, m: nat)
    requires Planned(plan, ts) && 1 <= |ts| <= 2582
    requires |plan.llens| <= |plan.lit.freqs| && |cs| == |Active(plan.lit.freqs, |plan.llens|)|
    requires PrefixCode(cs) && Within(cs, 0, m)
    ensures CodeCost(plan.lit.freqs, plan.llens, |plan.llens|)
         <= Dot(WeightsOf(Active(plan.lit.freqs, |plan.llens|), plan.lit.freqs), Lengths(cs))
  {
    hide SumOver, Active, GoodCode, GoodHeader, HeaderOk, CodesBlock, CodeCost, WeightsOf, Fib, FreqsOf, PrefixCode, Within,
      Dot, FixedLiteralLengths, FixedDistanceLengths, TooDeep;
    LiteralWeight(plan.lit.freqs, plan.dist.freqs, ts);
    FirstFibs();
    GoodSize(plan.lit, LDesc(), plan.llens);
    NothingCheaper(plan.lit, LDesc(), plan.llens, cs, m);
  }

  // ---------- the choice ----------

  function InBytes(bits: nat): nat
  {
    (bits + 3 + 7) / 8
  }

  /** The encoding that takes the fewest bytes: stored only where it saves some,
      static trees where the dynamic ones do not pay. */
  ghost predicate BestEncoding(kind: nat, plan: Plan, ts: seq<Token>, storedLen: nat, available: bool)
    requires Planned(plan, ts)
  {
    var dynamic, static_ := InBytes(|DynamicBits(plan, ts)|), InBytes(|StaticBits(plan, ts)|);
    && kind <= DYN_TREES
    && (kind == STORED_BLOCK <==> available && storedLen + 4 <= dynamic && storedLen + 4 <= static_)
    && (kind == STATIC_TREES ==> static_ <= dynamic)
    && (kind == DYN_TREES ==> dynamic < static_)
  }

  /** What stands in the stream after the block, before any final padding. */
  ghost predicate Emitted(before: seq<bool>, body: seq<bool>, kind: nat, plan: Plan, ts: seq<Token>, storedLen: nat, eof: bool)
    requires Planned(plan, ts)
  {
    && before + TypeBits(kind, eof) <= body
    && (kind == STORED_BLOCK ==> |body| == Align(|before| + 3) + 32 + 8 * storedLen)
    && (kind == STATIC_TREES ==> body == before + TypeBits(STATIC_TREES, eof) + StaticBits(plan, ts))
    && (kind == DYN_TREES ==> body == before + TypeBits(DYN_TREES, eof) + DynamicBits(plan, ts))
  }

  lemma TypeFits(kind: nat, eof: bool)
    requires kind <= 2
    ensures 2 * kind + (if eof then 1 else 0) < Pow2(3)
  {
    Pow2Values();
  }

  /** A block is stored only if its length fits the 16 bit LEN field: the static
      trees never take more than four bytes a token. */
  lemma StoredFits(plan: Plan, ts: seq<Token>, storedLen: nat)
    requires Planned(plan, ts) && |ts| < LIT_BUFSIZE
    requires storedLen + 4 <= InBytes(|StaticBits(plan, ts)|)
    ensures storedLen <= 0xffff
  {
    hide FixedLiteralLengths, FixedDistanceLengths, EncodeTokens, Codeword;
    FixedLengths();
    StaticBound(ts);
  }

  lemma StoredSum(padded: seq<bool>, data: seq<byte>)
    requires |data| <= 0xffff
    ensures padded + LsbBits(|data|, 16) + LsbBits(0xffff - |data|, 16) + BytesToBits(data) == padded + StoredBits(data)
    ensures |StoredBits(data)| == 32 + 8 * |data|
  {
    hide LsbBits, BytesToBits;
  }

  lemma AlignedLength(n: nat, storedLen: nat)
    ensures UInt(UInt(UInt(n) + 3 + 7) / 8 * 8 + (storedLen + 4) * 8) == UInt(Align(n + 3) + 32 + 8 * storedLen)
  {
    UIntAdd(n, 10);
    UIntBytes(n + 10);
    UIntAdd(Align(n + 3), (storedLen + 4) * 8);
  }

  /** STORED_BLOCK: the bytes as they are, in whole bytes. */
  method SendStored(w: BitWriter, t: Trees, window: array<byte>, start: nat, storedLen: nat, eof: bool, ghost out: seq<byte>)
    requires w.Valid() && window != w.outbuf && t.compressedLen == UInt(|w.sent|)
    requires start + storedLen <= window.Length && storedLen <= 0xffff
    modifies w, w.outbuf, t`compressedLen
    ensures w.Valid() && t.compressedLen == UInt(|w.sent|)
    ensures |w.sent| == Align(|old(w.sent)| + 3) + 32 + 8 * storedLen
    ensures old(w.sent) + TypeBits(STORED_BLOCK, eof) <= w.sent
    ensures Decodes(old(w.sent), w.sent, eof, out, out + window[start..start + storedLen])
  {
    hide Pow2, LsbBits, BytesToBits, BitWriter.Valid, InflateFrom, Decodes, UInt, StoredBits;
    TypeFits(STORED_BLOCK, eof);
    w.SendBits(2 * STORED_BLOCK + (if eof then 1 else 0), 3);
    AlignedLength(|old(w.sent)|, storedLen);
    t.compressedLen := UInt(t.compressedLen + 3 + 7) / 8 * 8;
    t.compressedLen := UInt(t.compressedLen + (storedLen + 4) * 8);
    ghost var data := window[start..start + storedLen];
    ghost var padded := w.CopyBlock(window, start, storedLen);
    StoredSum(padded, data);
    StoredBlock(old(w.sent), padded, data, eof, out);
  }

  lemma FixedHolds(t: CodeTables)
    requires t.Valid()
    ensures Holds(t.staticLtree, FixedLiteralLengths()) && Holds(t.staticDtree, FixedDistanceLengths())
    ensures |t.staticLtree| >= L_CODES && |t.staticDtree| >= D_CODES
  {
    hide LengthTables, DistTables, FixedLiteralLengths, FixedDistanceLengths, HasCode;
    FixedLengths();
  }

  lemma GuardedHolds(tree: seq<CtData>, lens: seq<nat>)
    requires Guarded(tree, lens)
    ensures Holds(tree, lens)
  {
    hide HasCode;
  }

  /** STATIC_TREES. */
  method SendStatic(w: BitWriter, t: Trees, eof: bool, ghost out: seq<byte>, ghost plan: Plan, ghost ts: seq<Token>)
    requires ts == t.tokens && w.Valid() && t.Shape() && w.outbuf != t.lBuf && w.outbuf != t.flagBuf
    requires t.compressedLen == UInt(|w.sent|) && Planned(plan, ts) && t.staticLen == |StaticBits(plan, ts)|
    requires Closed(t.lBuf[..], t.dBuf[..], t.flagBuf[..], t.lastLit, ts) && WellFormed(out, ts)
    modifies w, w.outbuf, t`compressedLen
    ensures w.Valid() && t.compressedLen == UInt(|w.sent|)
    ensures w.sent == old(w.sent) + TypeBits(STATIC_TREES, eof) + StaticBits(plan, ts)
    ensures Decodes(old(w.sent), w.sent, eof, out, ApplyAll(out, ts))
  {
    hide Pow2, BitWriter.Valid, InflateFrom, Decodes, Holds, AllCoded, EncodeTokens, IsCode, HeaderOk, Closed, WellFormed,
         ApplyAll, CodeTables.Valid, FixedLiteralLengths, FixedDistanceLengths, Codeword, WellMade;
    ghost var fl, fd := FixedLiteralLengths(), FixedDistanceLengths();
    FixedHolds(t.tables);
    TypeFits(STATIC_TREES, eof);
    w.SendBits(2 * STATIC_TREES + (if eof then 1 else 0), 3);
    SendBlock(w, t.tables, t.lBuf, t.dBuf, t.flagBuf, t.lastLit, t.tables.staticLtree, t.tables.staticDtree, ts, fl, fd);
    assert w.sent == old(w.sent) + TypeBits(STATIC_TREES, eof) + StaticBits(plan, ts);
    FixedBlock(old(w.sent), ts, eof, out);
    UIntAdd(|old(w.sent)|, 3 + t.staticLen);
    t.compressedLen := UInt(t.compressedLen + 3 + t.staticLen);
  }

  /** What is planned for the dynamic trees, and in what order it is sent. */
  lemma PlannedParts(plan: Plan, ts: seq<Token>, before: seq<bool>, eof: bool)
    requires Planned(plan, ts)
    ensures HeaderOk(plan.llens, plan.dlens, plan.clens, plan.blcodes) && CodesBlock(plan.llens, plan.dlens, ts)
    ensures AllCoded(plan.llens, plan.dlens, ts) && END_BLOCK < |plan.llens| && plan.llens[END_BLOCK] > 0
    ensures TypeBits(DYN_TREES, eof) == LsbBits(2 * DYN_TREES + (if eof then 1 else 0), 3)
    ensures before + TypeBits(DYN_TREES, eof) + HeaderBits(plan.llens, plan.dlens, plan.clens, plan.blcodes)
         + EncodeTokens(plan.llens, plan.dlens, ts) + Codeword(plan.llens, END_BLOCK)
         == before + TypeBits(DYN_TREES, eof) + DynamicBits(plan, ts)
    ensures before + TypeBits(DYN_TREES, eof) + HeaderBits(plan.llens, plan.dlens, plan.clens, plan.blcodes)
         + DataBits(plan.llens, plan.dlens, ts)
         == before + TypeBits(DYN_TREES, eof) + DynamicBits(plan, ts)
  {
    hide HeaderOk, HeaderBits, EncodeTokens, Codeword, WellMade, LsbBits, AllCoded, IsCode, FixedLiteralLengths,
      FixedDistanceLengths;
    Join(before + TypeBits(DYN_TREES, eof), HeaderBits(plan.llens, plan.dlens, plan.clens, plan.blcodes),
         EncodeTokens(plan.llens, plan.dlens, ts), Codeword(plan.llens, END_BLOCK));
  }

  lemma Join(a: seq<bool>, b: seq<bool>, c: seq<bool>, d: seq<bool>)
    ensures a + b + c + d == a + (b + (c + d)) && a + b + (c + d) == a + (b + (c + d))
  {
  }

  /** DYN_TREES. */
  method SendDynamic(w: BitWriter, t: Trees, lMax: nat, dMax: nat, maxBlindex: nat, eof: bool, ghost out: seq<byte>,
                     ghost plan: Plan, ghost ts: seq<Token>)
    requires ts == t.tokens && w.Valid() && t.Shape() && w.outbuf != t.lBuf && w.outbuf != t.flagBuf
    requires t.compressedLen == UInt(|w.sent|) && Planned(plan, ts) && t.optLen == |DynamicBits(plan, ts)|
    requires |plan.llens| == lMax + 1 && |plan.dlens| == dMax + 1 && plan.blcodes == maxBlindex + 1
    requires Holding(t.dynLtree[..], t.dynDtree[..], t.blTree[..], plan)
    requires Closed(t.lBuf[..], t.dBuf[..], t.flagBuf[..], t.lastLit, ts) && WellFormed(out, ts)
    modifies w, w.outbuf, t`compressedLen
    ensures w.Valid() && t.compressedLen == UInt(|w.sent|)
    ensures w.sent == old(w.sent) + TypeBits(DYN_TREES, eof) + DynamicBits(plan, ts)
    ensures Decodes(old(w.sent), w.sent, eof, out, ApplyAll(out, ts))
  {
    hide Pow2, BitWriter.Valid, InflateFrom, Decodes, Holds, AllCoded, EncodeTokens, IsCode, HeaderOk, HeaderBits, Closed, WellFormed,
         ApplyAll, CodeTables.Valid, BlReady, Guarded, Codeword, TreeItems, Planned, DynamicBits, DataBits, TypeBits, CodesBlock, UInt;
    PlannedParts(plan, ts, old(w.sent), eof);
    TypeFits(DYN_TREES, eof);
    GuardedHolds(t.dynLtree[..], plan.llens);
    GuardedHolds(t.dynDtree[..], plan.dlens);
    w.SendBits(2 * DYN_TREES + (if eof then 1 else 0), 3);
    SendAllTrees(w, t, lMax + 1, dMax + 1, maxBlindex + 1, plan.llens, plan.dlens, plan.clens);
    SendBlock(w, t.tables, t.lBuf, t.dBuf, t.flagBuf, t.lastLit, t.dynLtree[..], t.dynDtree[..], ts, plan.llens, plan.dlens);
    DynamicBlock(old(w.sent), plan.llens, plan.dlens, plan.clens, plan.blcodes, ts, eof, out);
    UIntAdd(|old(w.sent)|, 3 + t.optLen);
    t.compressedLen := UInt(t.compressedLen + 3 + t.optLen);
  }

  lemma FlagsSaved(lBuf: seq<byte>, dBuf: seq<ush>, flagBuf: seq<byte>, lastLit: nat, lastDist: nat, lastFlags: nat,
                   flags: byte, flagBit: nat, ts: seq<Token>)
    requires Stored(lBuf, dBuf, flagBuf, lastLit, lastDist, lastFlags, flags, flagBit, ts)
    ensures lastFlags < |flagBuf|
    ensures Stored(lBuf, dBuf, flagBuf[lastFlags := flags], lastLit, lastDist, lastFlags, flags, flagBit, ts)
  {
    hide Shr;
    forall i | 0 <= i < lastLit
      ensures FlagOf(flagBuf[lastFlags := flags], lastFlags, flags, i) <==> ts[i].Match?
    {
      assert FlagOf(flagBuf, lastFlags, flags, i) <==> ts[i].Match?;
    }
  }

  /** The flags not yet in flag_buf go there. */
  method SaveFlags(t: Trees)
    requires t.Valid()
    modifies t.flagBuf
    ensures t.Valid() && Closed(t.lBuf[..], t.dBuf[..], t.flagBuf[..], t.lastLit, t.tokens)
  {
    hide Stored, Counting, CodeTables.Valid, Closed;
    StoredCloses(t.lBuf[..], t.dBuf[..], t.flagBuf[..], t.lastLit, t.lastDist, t.lastFlags, t.flags, t.flagBit, t.tokens);
    FlagsSaved(t.lBuf[..], t.dBuf[..], t.flagBuf[..], t.lastLit, t.lastDist, t.lastFlags, t.flags, t.flagBit, t.tokens);
    t.flagBuf[t.lastFlags] := t.flags;
  }

  /** Output the block in the encoding that takes the fewest bytes. */
  method SendBest(t: Trees, w: BitWriter, window: array<byte>, blockStart: int, storedLen: nat, eof: bool,
                  lMax: nat, dMax: nat, maxBlindex: nat, ghost out: seq<byte>, ghost plan: Plan, ghost ts: seq<Token>)
      returns (ghost kind: nat)
    requires ts == t.tokens && t.Shape() && w.Valid() && w.outbuf != t.lBuf && w.outbuf != t.flagBuf && w.outbuf != window
    requires t.compressedLen == UInt(|w.sent|) && WellFormed(out, ts) && |ts| < LIT_BUFSIZE
    requires blockStart >= 0 ==> blockStart + storedLen <= window.Length
    requires blockStart >= 0 ==> ApplyAll(out, ts) == out + window[blockStart..blockStart + storedLen]
    requires Planned(plan, ts) && Holding(t.dynLtree[..], t.dynDtree[..], t.blTree[..], plan)
    requires t.optLen == |DynamicBits(plan, ts)| && t.staticLen == |StaticBits(plan, ts)|
    requires |plan.llens| == lMax + 1 && |plan.dlens| == dMax + 1 && plan.blcodes == maxBlindex + 1
    requires Closed(t.lBuf[..], t.dBuf[..], t.flagBuf[..], t.lastLit, ts)
    modifies w, w.outbuf, t`compressedLen
    ensures w.Valid() && t.compressedLen == UInt(|w.sent|)
    ensures BestEncoding(kind, plan, ts, storedLen, blockStart >= 0)
    ensures Emitted(old(w.sent), w.sent, kind, plan, ts, storedLen, eof)
    ensures Decodes(old(w.sent), w.sent, eof, out, ApplyAll(out, ts))
  {
    hide BitWriter.Valid, WellFormed, ApplyAll, Decodes, DynamicBits, StaticBits, Closed, CodeTables.Valid, TypeBits, Holding,
         Planned, UInt;
    var optLenb := InBytes(t.optLen);
    var staticLenb := InBytes(t.staticLen);
    if staticLenb <= optLenb {
      optLenb := staticLenb;
    }
    if storedLen + 4 <= optLenb && blockStart >= 0 {
      kind := STORED_BLOCK;
      StoredFits(plan, ts, storedLen);
      SendStored(w, t, window, blockStart, storedLen, eof, out);
    } else if staticLenb == optLenb {
      kind := STATIC_TREES;
      SendStatic(w, t, eof, out, plan, ts);
    } else {
      kind := DYN_TREES;
      SendDynamic(w, t, lMax, dMax, maxBlindex, eof, out, plan, ts);
    }
  }

  /** Whatever has been sent, a decoder goes on from out to out with the block's tokens
      applied. plan has the trees, kind the encoding chosen, body what is sent up to the end
      of the block. The bytes of the block are in the window unless blockStart is negative.
      The result counts the bytes of the file in 32 bits. */
  method FlushBlock(t: Trees, w: BitWriter, window: array<byte>, blockStart: int, storedLen: nat, eof: bool, ghost out: seq<byte>)
      returns (total: nat, ghost body: seq<bool>, ghost kind: nat, ghost plan: Plan)
    requires t.Valid() && w.Valid() && w.outbuf != t.lBuf && w.outbuf != t.flagBuf && w.outbuf != window
    requires t.compressedLen == UInt(|w.sent|) && WellFormed(out, t.tokens)
    requires blockStart >= 0 ==> blockStart + storedLen <= window.Length
    requires blockStart >= 0 ==> ApplyAll(out, t.tokens) == out + window[blockStart..blockStart + storedLen]
    requires window != t.lBuf && window != t.flagBuf
    modifies t, t.Buffers(), w, w.outbuf
    ensures t.Valid() && t.tokens == [] && t.all == old(t.all) && t.Room() && w.Valid()
    ensures Decodes(old(w.sent), body, eof, out, ApplyAll(out, old(t.tokens)))
    ensures Planned(plan, old(t.tokens)) && BestEncoding(kind, plan, old(t.tokens), storedLen, blockStart >= 0)
    ensures Emitted(old(w.sent), body, kind, plan, old(t.tokens), storedLen, eof)
    ensures !eof ==> w.sent == body && t.compressedLen == UInt(|w.sent|)
    ensures !eof ==> (t.compressedLen == |w.sent| <==> |w.sent| < UINT_RANGE)
    ensures eof ==> body <= w.sent && |w.sent| == Align(|body|) && w.biValid == 0
    ensures total == if eof then UInt(|w.sent|) / 8 else UInt(|body|) / 8
  {
    hide Counting, Stored, CodeTables.Valid, BitWriter.Valid, WellFormed, ApplyAll, Decodes, DynamicBits, StaticBits, Closed,
         TypeBits, Holding, Planned, UInt, Align, BestEncoding, Emitted;
    ghost var ts := t.tokens;
    StoredTokens(t.lBuf[..], t.dBuf[..], t.flagBuf[..], t.lastLit, t.lastDist, t.lastFlags, t.flags, t.flagBit, ts);
    SaveFlags(t);
    var lMax, dMax, maxBlindex;
    lMax, dMax, maxBlindex, plan := PlanBlock(t);
    kind := SendBest(t, w, window, blockStart, storedLen, eof, lMax, dMax, maxBlindex, out, plan, ts);
    body := w.sent;
    t.InitBlock();
    if eof {
      w.BiWindup();
      UIntAdd(|body|, 7);
      UIntBytes(|body| + 7);
      t.compressedLen := UInt(t.compressedLen + 7);
    }
    total := t.compressedLen / 8;
  }
}