/** Run-length coding of code lengths: scan_tree and send_tree. */
module RunLengths {
  import opened Bits
  import opened Canonical
  import opened PrefixCodes
  import opened Inflate
  import opened GenCodes
  import opened BitWriting

  /** One step of the code length code: a length, the previous length 3-6 times, or
      a zero 3-10 or 11-138 times. */
  datatype Item = Length(len: nat) | Previous(times: nat) | Zeros(times: nat) | ManyZeros(times: nat)
  {
    ghost predicate Valid()
    {
      match this
      case Length(l) => l <= 15
      case Previous(n) => 3 <= n <= 6
      case Zeros(n) => 3 <= n <= 10
      case ManyZeros(n) => 11 <= n <= 138
    }

    /** The symbol of the code length code. */
    function Symbol(): nat
    {
      match this
      case Length(l) => l
      case Previous(_) => 16
      case Zeros(_) => 17
      case ManyZeros(_) => 18
    }

    /** The number that follows the symbol, and its width. */
    function Extra(): nat
      requires Valid()
    {
      match this
      case Length(_) => 0
      case Previous(n) => n - 3
      case Zeros(n) => n - 3
      case ManyZeros(n) => n - 11
    }

    function ExtraBits(): nat
    {
      match this
      case Length(_) => 0
      case Previous(_) => 2
      case Zeros(_) => 3
      case ManyZeros(_) => 7
    }
  }

  ghost predicate AllValid(items: seq<Item>)
  {
    forall i :: 0 <= i < |items| ==> items[i].Valid()
  }

  /** The longest and shortest run of cur that is sent as a repeat after prev. */
  function MaxCount(prev: int, cur: nat): nat
  {
    if cur == 0 then 138 else if prev == cur then 6 else 7
  }

  function MinCount(prev: int, cur: nat): nat
  {
    if cur == 0 || prev == cur then 3 else 4
  }

  /** What is sent for a run of count times cur after prev. */
  function Run(prev: int, cur: nat, count: nat): seq<Item>
  {
    if count < MinCount(prev, cur) then Repeat(Length(cur), count)
    else if cur != 0 then
      (if cur != prev then [Length(cur), Previous(count - 1)] else [Previous(count)])
    else if count <= 10 then [Zeros(count)]
    else [ManyZeros(count)]
  }

  /** What is sent for lens[n..], when count entries equal to lens[n] are pending and
      prev is the length sent last. */
  function Rle(lens: seq<nat>, n: nat, prev: int, count: nat): seq<Item>
    requires n <= |lens|
    decreases |lens| - n
  {
    if n == |lens| then []
    else if count + 1 < MaxCount(prev, lens[n]) && n + 1 < |lens| && lens[n + 1] == lens[n] then
      Rle(lens, n + 1, prev, count + 1)
    else Run(prev, lens[n], count + 1) + Rle(lens, n + 1, lens[n], 0)
  }

  /** The lengths so far, and those that one more item stands for. */
  function Step(acc: seq<nat>, it: Item): seq<nat>
  {
    match it
    case Length(l) => acc + [l]
    case Previous(n) => acc + Repeat(if acc == [] then 0 else acc[|acc| - 1], n)
    case Zeros(n) => acc + Repeat(0, n)
    case ManyZeros(n) => acc + Repeat(0, n)
  }

  /** The lengths that a list of items stands for, appended to acc. */
  function Expand(acc: seq<nat>, items: seq<Item>): seq<nat>
    decreases |items|
  {
    if items == [] then acc else Expand(Step(acc, items[0]), items[1..])
  }

  lemma RepeatMore<T>(x: T, n: nat)
    ensures [x] + Repeat(x, n) == Repeat(x, n + 1)
  {
  }

  lemma {:induction false} ExpandLiterals(acc: seq<nat>, cur: nat, count: nat, rest: seq<Item>)
    ensures Expand(acc, Repeat(Length(cur), count) + rest) == Expand(acc + Repeat(cur, count), rest)
    decreases count
  {
    if count == 0 {
      assert Repeat(Length(cur), 0) + rest == rest;
      assert acc + Repeat(cur, 0) == acc;
    } else {
      RepeatMore(Length(cur), count - 1);
      RepeatMore(cur, count - 1);
      assert (Repeat(Length(cur), count) + rest)[1..] == Repeat(Length(cur), count - 1) + rest;
      ExpandLiterals(acc + [cur], cur, count - 1, rest);
      assert acc + [cur] + Repeat(cur, count - 1) == acc + Repeat(cur, count);
    }
  }

  /** A run expands to itself. */
  lemma {:induction false} ExpandRun(acc: seq<nat>, prev: int, cur: nat, count: nat, rest: seq<Item>)
    requires count >= 1 && count <= MaxCount(prev, cur)
    requires prev == cur ==> acc != [] && acc[|acc| - 1] == cur
    ensures Expand(acc, Run(prev, cur, count) + rest) == Expand(acc + Repeat(cur, count), rest)
  {
    var items := Run(prev, cur, count) + rest;
    if count < MinCount(prev, cur) {
      ExpandLiterals(acc, cur, count, rest);
    } else if cur != 0 && cur != prev {
      assert items[1..] == [Previous(count - 1)] + rest;
      assert items[1..][1..] == rest;
      RepeatMore(cur, count - 1);
      assert acc + [cur] + Repeat(cur, count - 1) == acc + Repeat(cur, count);
    } else {
      assert items[1..] == rest;
    }
  }

  lemma RunValid(prev: int, cur: nat, count: nat)
    requires 1 <= count <= MaxCount(prev, cur) && cur <= 15
    ensures AllValid(Run(prev, cur, count)) && |Run(prev, cur, count)| <= count
  {
  }

  lemma ExpandNothing(acc: seq<nat>)
    ensures Expand(acc, []) == acc
  {
  }

  /** Where the coder stands: base and the lengths before n - count are sent. */
  ghost predicate Standing(base: seq<nat>, lens: seq<nat>, n: nat, prev: int, count: nat)
    requires n <= |lens|
  {
    && count <= n && (n == |lens| ==> count == 0)
    && (n < |lens| ==> count < MaxCount(prev, lens[n]))
    && (forall i :: n - count <= i < n ==> lens[i] == lens[n])
    && (prev >= 0 ==> base + lens[..n - count] != [] && (base + lens[..n - count])[|base| + n - count - 1] == prev)
  }

  /** Expanding what is sent gives back the lengths. */
  lemma {:induction false} RleExpands(base: seq<nat>, lens: seq<nat>, n: nat, prev: int, count: nat)
    requires n <= |lens| && Standing(base, lens, n, prev, count)
    requires forall i :: 0 <= i < |lens| ==> lens[i] <= 15
    ensures Expand(base + lens[..n - count], Rle(lens, n, prev, count)) == base + lens
    ensures AllValid(Rle(lens, n, prev, count)) && |Rle(lens, n, prev, count)| <= |lens| - n + count
    decreases |lens| - n
  {
    hide Expand, Run;
    if n == |lens| {
      assert lens[..n - count] == lens;
      ExpandNothing(base + lens);
    } else if count + 1 < MaxCount(prev, lens[n]) && n + 1 < |lens| && lens[n + 1] == lens[n] {
      assert n + 1 - (count + 1) == n - count;
      RleExpands(base, lens, n + 1, prev, count + 1);
    } else {
      var cur := lens[n];
      var acc := base + lens[..n - count];
      var rest := Rle(lens, n + 1, cur, 0);
      assert base + lens[..n + 1] == acc + Repeat(cur, count + 1);
      assert n + 1 - 0 == n + 1;
      RunValid(prev, cur, count + 1);
      ExpandRun(acc, prev, cur, count + 1, rest);
      RleExpands(base, lens, n + 1, cur, 0);
    }
  }

  /** Every length array survives run-length coding. */
  lemma RoundTrip(base: seq<nat>, lens: seq<nat>)
    requires forall i :: 0 <= i < |lens| ==> lens[i] <= 15
    ensures Expand(base, Rle(lens, 0, -1, 0)) == base + lens
    ensures AllValid(Rle(lens, 0, -1, 0)) && |Rle(lens, 0, -1, 0)| <= |lens|
  {
    assert base + lens[..0] == base;
    RleExpands(base, lens, 0, -1, 0);
  }

  /** One item as it stands in the stream. */
  function EncodeItem(clens: seq<nat>, it: Item): (b: seq<bool>)
    requires it.Valid() && it.Symbol() < |clens|
    ensures |b| == clens[it.Symbol()] + it.ExtraBits()
  {
    Codeword(clens, it.Symbol()) + LsbBits(it.Extra(), it.ExtraBits())
  }

  /** Every item can be sent: its symbol has a code. */
  ghost predicate Sendable(clens: seq<nat>, items: seq<Item>)
  {
    |clens| == 19 && AllValid(items) && forall i :: 0 <= i < |items| ==> clens[items[i].Symbol()] > 0
  }

  function EncodeItems(clens: seq<nat>, items: seq<Item>): seq<bool>
    requires Sendable(clens, items)
  {
    if items == [] then [] else EncodeItems(clens, items[..|items| - 1]) + EncodeItem(clens, items[|items| - 1])
  }

  lemma SendableConcat(clens: seq<nat>, a: seq<Item>, b: seq<Item>)
    requires Sendable(clens, a) && Sendable(clens, b)
    ensures Sendable(clens, a + b)
  {
  }

  /** The last item stands last. */
  lemma EncodeLast(clens: seq<nat>, a: seq<Item>)
    requires Sendable(clens, a) && a != []
    ensures Sendable(clens, a[..|a| - 1]) && a[|a| - 1].Valid() && a[|a| - 1].Symbol() < |clens|
    ensures EncodeItems(clens, a) == EncodeItems(clens, a[..|a| - 1]) + EncodeItem(clens, a[|a| - 1])
  {
    hide EncodeItem;
  }

  lemma Associate(x: seq<bool>, y: seq<bool>, z: seq<bool>)
    ensures (x + y) + z == x + (y + z)
  {
  }

  lemma {:induction false} EncodeConcat(clens: seq<nat>, a: seq<Item>, b: seq<Item>)
    requires Sendable(clens, a) && Sendable(clens, b)
    ensures Sendable(clens, a + b) && EncodeItems(clens, a + b) == EncodeItems(clens, a) + EncodeItems(clens, b)
  {
    SendableConcat(clens, a, b);
    if b == [] {
      assert a + b == a;
    } else {
      hide EncodeItem, Sendable, Item.Valid, Item.Symbol;
      var n := |b| - 1;
      EncodeLast(clens, b);
      EncodeConcat(clens, a, b[..n]);
      EncodeLast(clens, a + b);
      assert (a + b)[..|a + b| - 1] == a + b[..n];
      Associate(EncodeItems(clens, a), EncodeItems(clens, b[..n]), EncodeItem(clens, b[n]));
    }
  }

  lemma EncodeFirst(clens: seq<nat>, items: seq<Item>)
    requires Sendable(clens, items) && items != []
    ensures Sendable(clens, items[1..])
    ensures EncodeItems(clens, items) == EncodeItem(clens, items[0]) + EncodeItems(clens, items[1..])
  {
    hide EncodeItem, EncodeItems;
    assert items == [items[0]] + items[1..];
    EncodeConcat(clens, [items[0]], items[1..]);
    EncodeOne(clens, items[0]);
  }

  lemma EncodeOne(clens: seq<nat>, it: Item)
    requires |clens| == 19 && it.Valid() && it.Symbol() < 19 && clens[it.Symbol()] > 0
    ensures Sendable(clens, [it]) && EncodeItems(clens, [it]) == EncodeItem(clens, it)
  {
    assert [it][..0] == [];
    assert EncodeItems(clens, []) == [];
  }

  lemma {:induction false} ExpandGrows(acc: seq<nat>, items: seq<Item>)
    requires AllValid(items)
    ensures |Expand(acc, items)| >= |acc| + |items|
    decreases |items|
  {
    if items != [] {
      assert items[0].Valid();
      ExpandGrows(Step(acc, items[0]), items[1..]);
    }
  }

  /** Every repeat count fits its 2, 3 or 7 bits. */
  lemma ExtraFits(it: Item)
    requires it.Valid()
    ensures it.Extra() < Pow2(it.ExtraBits()) && it.Symbol() < 19
  {
    Pow2Values();
  }

  /** The decoder reads back one item. */
  lemma {:induction false} ReadsItem(clens: seq<nat>, m: nat, s: seq<bool>, p: nat, n: nat, acc: seq<nat>, it: Item)
    requires |clens| == 19 && it.Valid() && clens[it.Symbol()] > 0 && IsCode(clens, m)
    requires At(s, p, EncodeItem(clens, it)) && |acc| < n && (acc != [] || !it.Previous?)
    ensures ReadLengths(clens, s, p, n, acc) == ReadLengths(clens, s, p + |EncodeItem(clens, it)|, n, Step(acc, it))
  {
    hide Codeword, ReadSymbol, ReadBits, LsbBits, IsCode, At, ReadLengths;
    AtConcat(s, p, Codeword(clens, it.Symbol()), LsbBits(it.Extra(), it.ExtraBits()));
    ReadsSymbol(clens, m, s, p, it.Symbol());
    ExtraFits(it);
    ReadsNumber(s, p + clens[it.Symbol()], it.Extra(), it.ExtraBits());
    ItemRead(clens, s, p, n, acc, it, p + clens[it.Symbol()]);
  }

  /** What the decoder does with the symbol and the number of an item. */
  lemma ItemRead(clens: seq<nat>, s: seq<bool>, p: nat, n: nat, acc: seq<nat>, it: Item, p1: nat)
    requires it.Valid() && |acc| < n && (acc != [] || !it.Previous?)
    requires ReadSymbol(clens, s, p) == Next(it.Symbol(), p1)
    requires ReadBits(s, p1, it.ExtraBits()) == Next(it.Extra(), p1 + it.ExtraBits())
    ensures ReadLengths(clens, s, p, n, acc) == ReadLengths(clens, s, p1 + it.ExtraBits(), n, Step(acc, it))
  {
    hide ReadSymbol, ReadBits;
  }

  /** The decoder expands exactly what was sent. */
  lemma {:induction false} ReadsItems(clens: seq<nat>, m: nat, s: seq<bool>, p: nat, n: nat, acc: seq<nat>, items: seq<Item>)
    requires Sendable(clens, items) && IsCode(clens, m)
    requires At(s, p, EncodeItems(clens, items)) && |Expand(acc, items)| <= n
    requires acc != [] || items == [] || !items[0].Previous?
    ensures ReadLengths(clens, s, p, n, acc)
         == ReadLengths(clens, s, p + |EncodeItems(clens, items)|, n, Expand(acc, items))
    decreases |items|
  {
    hide EncodeItem, ReadLengths, IsCode;
    if items != [] {
      var it, rest := items[0], items[1..];
      ExpandGrows(acc, items);
      assert it.Valid();
      EncodeFirst(clens, items);
      AtConcat(s, p, EncodeItem(clens, it), EncodeItems(clens, rest));
      ReadsItem(clens, m, s, p, n, acc, it);
      ReadsItems(clens, m, s, p + |EncodeItem(clens, it)|, n, Step(acc, it), rest);
    }
  }

  /** How often a symbol is used. */
  function Uses(items: seq<Item>, c: nat): nat
  {
    if items == [] then 0
    else Uses(items[..|items| - 1], c) + (if items[|items| - 1].Symbol() == c then 1 else 0)
  }

  lemma {:induction false} UsesConcat(a: seq<Item>, b: seq<Item>, c: nat)
    ensures Uses(a + b, c) == Uses(a, c) + Uses(b, c)
  {
    if b == [] {
      assert a + b == a;
    } else {
      UsesConcat(a, b[..|b| - 1], c);
      assert (a + b)[..|a + b| - 1] == a + b[..|b| - 1];
    }
  }

  lemma {:induction false} UsesBound(items: seq<Item>, c: nat)
    ensures Uses(items, c) <= |items|
    ensures Uses(items, c) > 0 <==> exists i :: 0 <= i < |items| && items[i].Symbol() == c
  {
    if items != [] {
      var n := |items| - 1;
      UsesBound(items[..n], c);
      if items[n].Symbol() != c && Uses(items, c) > 0 {
        var i :| 0 <= i < n && items[..n][i].Symbol() == c;
        assert items[i].Symbol() == c;
      }
      if i :| 0 <= i < n && items[i].Symbol() == c {
        assert items[..n][i].Symbol() == c;
      }
    }
  }

  lemma {:induction false} UsesRepeat(l: nat, n: nat, c: nat)
    ensures Uses(Repeat(Length(l), n), c) == if c == l then n else 0
  {
    if n != 0 {
      UsesRepeat(l, n - 1, c);
      assert Repeat(Length(l), n)[..n - 1] == Repeat(Length(l), n - 1);
    }
  }

  lemma UsesTwo(a: Item, b: Item, c: nat)
    ensures Uses([a], c) == if a.Symbol() == c then 1 else 0
    ensures Uses([a, b], c) == (if a.Symbol() == c then 1 else 0) + (if b.Symbol() == c then 1 else 0)
  {
    assert [a][..0] == [] && [a, b][..1] == [a];
  }

  const REP_3_6: nat := 16
  const REPZ_3_10: nat := 17
  const REPZ_11_138: nat := 18

  /** The symbols that a run is coded with, counted. */
  lemma RunUses(prev: int, cur: nat, count: nat, c: nat)
    requires 1 <= count <= MaxCount(prev, cur)
    ensures Uses(Run(prev, cur, count), c) ==
              if count < MinCount(prev, cur) then (if c == cur then count else 0)
              else if cur != 0 then (if cur != prev && c == cur then 1 else 0) + (if c == REP_3_6 then 1 else 0)
              else if count <= 10 then (if c == REPZ_3_10 then 1 else 0)
              else (if c == REPZ_11_138 then 1 else 0)
  {
    UsesRepeat(cur, count, c);
    if count >= 1 {
      UsesTwo(Length(cur), Previous(count - 1), c);
      UsesTwo(Previous(count), Previous(count), c);
      UsesTwo(Zeros(count), Zeros(count), c);
      UsesTwo(ManyZeros(count), ManyZeros(count), c);
    }
  }

  /** The frequencies after the items have been counted in. */
  ghost predicate CountedIn(before: seq<CtData>, after: seq<CtData>, items: seq<Item>)
  {
    && |after| == |before| && 19 <= |before|
    && (forall c :: 0 <= c < 19 ==> after[c].fc == before[c].fc + Uses(items, c) && after[c].dl == before[c].dl)
    && (forall c :: 19 <= c < |before| ==> after[c] == before[c])
  }

  lemma CountedInMore(a: seq<CtData>, b: seq<CtData>, c: seq<CtData>, x: seq<Item>, y: seq<Item>)
    requires CountedIn(a, b, x) && CountedIn(b, c, y)
    ensures CountedIn(a, c, x + y)
  {
    forall s | 0 <= s < 19 {
      UsesConcat(x, y, s);
    }
  }

  /** Count the symbols of one run. */
  method ScanRun(blTree: array<CtData>, prevlen: int, curlen: nat, count: nat, minCount: nat)
    requires 19 <= blTree.Length && curlen <= 15
    requires 1 <= count <= MaxCount(prevlen, curlen) && minCount == MinCount(prevlen, curlen)
    requires forall c :: 0 <= c < 19 ==> blTree[c].fc + count <= 0xffff
    modifies blTree
    ensures CountedIn(old(blTree[..]), blTree[..], Run(prevlen, curlen, count))
  {
    hide Uses;
    forall c {
      RunUses(prevlen, curlen, count, c);
    }
    if count < minCount {
      blTree[curlen] := blTree[curlen].(fc := blTree[curlen].fc + count);
    } else if curlen != 0 {
      if curlen != prevlen {
        blTree[curlen] := blTree[curlen].(fc := blTree[curlen].fc + 1);
      }
      blTree[REP_3_6] := blTree[REP_3_6].(fc := blTree[REP_3_6].fc + 1);
    } else if count <= 10 {
      blTree[REPZ_3_10] := blTree[REPZ_3_10].(fc := blTree[REPZ_3_10].fc + 1);
    } else {
      blTree[REPZ_11_138] := blTree[REPZ_11_138].(fc := blTree[REPZ_11_138].fc + 1);
    }
  }

  /** A run still growing is sent later, a finished one now. */
  lemma RleStep(lens: seq<nat>, n: nat, prev: int, count: nat)
    requires n < |lens|
    ensures Rle(lens, n, prev, count) ==
              if count + 1 < MaxCount(prev, lens[n]) && n + 1 < |lens| && lens[n + 1] == lens[n]
              then Rle(lens, n + 1, prev, count + 1)
              else Run(prev, lens[n], count + 1) + Rle(lens, n + 1, lens[n], 0)
  {
  }

  lemma RleEnd(lens: seq<nat>, prev: int, count: nat)
    ensures Rle(lens, |lens|, prev, count) == []
  {
  }

  lemma RunSize(prev: int, cur: nat, count: nat)
    requires 1 <= count <= MaxCount(prev, cur)
    ensures |Run(prev, cur, count)| <= count
  {
  }

  lemma CountedRoom(a: seq<CtData>, b: seq<CtData>, done: seq<Item>, room: nat)
    requires CountedIn(a, b, done) && forall c :: 0 <= c < 19 ==> a[c].fc + |done| + room <= 0xffff
    ensures forall c :: 0 <= c < 19 ==> b[c].fc + room <= 0xffff
  {
    forall c | 0 <= c < 19 {
      UsesBound(done, c);
    }
  }

  lemma CountedNone(a: seq<CtData>)
    requires |a| >= 19
    ensures CountedIn(a, a, [])
  {
  }

  const GUARD: ush := 0xffff

  /** bl_tree counts each item that the lengths of the tree are going to be sent as. The
      entry behind the last length becomes a guard. */
  method ScanTree(tree: array<CtData>, maxCode: nat, blTree: array<CtData>)
    requires tree != blTree && maxCode + 1 < tree.Length && 19 <= blTree.Length
    requires forall x :: 0 <= x <= maxCode ==> tree[x].dl <= 15
    requires forall c :: 0 <= c < 19 ==> blTree[c].fc + maxCode + 1 <= 0xffff
    modifies tree, blTree
    ensures tree[..] == old(tree[..])[maxCode + 1 := old(tree[maxCode + 1]).(dl := GUARD)]
    ensures CountedIn(old(blTree[..]), blTree[..], Rle(old(Lens(tree[..], maxCode + 1)), 0, -1, 0))
  {
    hide Rle, Run, CountedIn, Uses;
    ghost var lens := Lens(tree[..], maxCode + 1);
    ghost var bl, t := blTree[..], tree[..];
    ghost var done: seq<Item> := [];
    CountedNone(bl);
    var prevlen: int := -1;
    var nextlen := tree[0].dl;
    var count := 0;
    var maxCount := 7;
    var minCount := 4;
    if nextlen == 0 {
      maxCount := 138;
      minCount := 3;
    }
    tree[maxCode + 1] := tree[maxCode + 1].(dl := GUARD);
    var n := 0;
    while n <= maxCode
      invariant 0 <= n <= maxCode + 1
      invariant tree[..] == t[maxCode + 1 := t[maxCode + 1].(dl := GUARD)]
      invariant n <= maxCode ==> nextlen == lens[n] && maxCount == MaxCount(prevlen, nextlen) && minCount == MinCount(prevlen, nextlen)
      invariant 0 <= count <= n && (n <= maxCode ==> count < maxCount)
      invariant CountedIn(bl, blTree[..], done)
      invariant Rle(lens, 0, -1, 0) == done + Rle(lens, n, prevlen, count)
      invariant |done| <= n - count
    {
      RleStep(lens, n, prevlen, count);
      var curlen := nextlen;
      nextlen := tree[n + 1].dl;
      count := count + 1;
      if count < maxCount && curlen == nextlen {
        n := n + 1;
        continue;
      }
      CountedRoom(bl, blTree[..], done, count);
      RunSize(prevlen, curlen, count);
      ghost var b1 := blTree[..];
      ScanRun(blTree, prevlen, curlen, count, minCount);
      ghost var run := Run(prevlen, curlen, count);
      CountedInMore(bl, b1, blTree[..], done, run);
      done := done + run;
      count := 0;
      prevlen := curlen;
      maxCount := 7;
      minCount := 4;
      if nextlen == 0 {
        maxCount := 138;
        minCount := 3;
      } else if curlen == nextlen {
        maxCount := 6;
        minCount := 3;
      }
      n := n + 1;
    }
    RleEnd(lens, prevlen, count);
    assert done + [] == done;
  }

  /** SEND_CODE: the code of symbol c of a tree whose codes are generated. */
  method SendCode(w: BitWriter, tree: seq<CtData>, c: nat, ghost lens: seq<nat>)
    requires w.Valid() && c < |tree| && c < |lens|
    requires HasCode(tree, lens, c) && 0 < lens[c] <= MAX_BITS
    modifies w, w.outbuf
    ensures w.Valid()
    ensures w.sent == old(w.sent) + Codeword(lens, c)
  {
    hide LsbBits, Codeword;
    w.SendBits(tree[c].fc, tree[c].dl);
  }

  /** The bit length tree has a code for everything that is to be sent. */
  ghost predicate CodesReady(blTree: seq<CtData>, clens: seq<nat>, items: seq<Item>)
  {
    && |clens| == 19 <= |blTree| && HasCodes(blTree, clens)
    && (forall c :: 0 <= c < 19 ==> clens[c] <= MAX_BITS)
    && Sendable(clens, items)
  }

  lemma LiteralReady(bl: seq<CtData>, clens: seq<nat>, l: nat, n: nat)
    requires CodesReady(bl, clens, Repeat(Length(l), n)) && n >= 1 && l <= 15
    ensures |clens| == 19 <= |bl| && 0 < clens[l] <= MAX_BITS && HasCode(bl, clens, l)
  {
    assert Repeat(Length(l), n)[0] == Length(l);
  }

  /** Send a code count times. */
  method SendLiterals(w: BitWriter, blTree: array<CtData>, curlen: nat, count0: nat, ghost clens: seq<nat>)
    requires w.Valid() && count0 >= 1 && curlen <= 15
    requires CodesReady(blTree[..], clens, Repeat(Length(curlen), count0))
    modifies w, w.outbuf
    ensures w.Valid()
    ensures w.sent == old(w.sent) + EncodeItems(clens, Repeat(Length(curlen), count0))
  {
    hide LsbBits, Codeword, EncodeItems, Pow2, CodesReady, HasCode, Repeat, Sendable, BitWriter.Valid;
    LiteralReady(blTree[..], clens, curlen, count0);
    RepeatedCode(clens, curlen, 0);
    var count := count0;
    while true
      invariant 1 <= count <= count0 && w.Valid()
      invariant Sendable(clens, Repeat(Length(curlen), count0 - count))
      invariant w.sent == old(w.sent) + EncodeItems(clens, Repeat(Length(curlen), count0 - count))
      decreases count
    {
      SendCode(w, blTree[..], curlen, clens);
      RepeatedCode(clens, curlen, count0 - count);
      count := count - 1;
      if count == 0 {
        break;
      }
    }
  }

  lemma PairReady(bl: seq<CtData>, clens: seq<nat>, a: Item, b: Item)
    requires CodesReady(bl, clens, [a, b])
    ensures CodesReady(bl, clens, [a]) && CodesReady(bl, clens, [b])
    ensures EncodeItems(clens, [a, b]) == EncodeItems(clens, [a]) + EncodeItems(clens, [b])
  {
    assert [a, b][0] == a && [a, b][1] == b;
    assert [a, b] == [a] + [b];
    EncodeConcat(clens, [a], [b]);
  }

  /** Send one run. */
  method SendRun(w: BitWriter, blTree: array<CtData>, prevlen: int, curlen: nat, count0: nat, minCount: nat, ghost clens: seq<nat>)
    requires w.Valid() && 1 <= count0 <= MaxCount(prevlen, curlen) && minCount == MinCount(prevlen, curlen)
    requires curlen <= 15 && CodesReady(blTree[..], clens, Run(prevlen, curlen, count0))
    modifies w, w.outbuf
    ensures w.Valid()
    ensures w.sent == old(w.sent) + EncodeItems(clens, Run(prevlen, curlen, count0))
  {
    hide EncodeItems, CodesReady, Repeat;
    var count := count0;
    if count < minCount {
      SendLiterals(w, blTree, curlen, count, clens);
    } else if curlen != 0 {
      if curlen != prevlen {
        PairReady(blTree[..], clens, Length(curlen), Previous(count - 1));
        RepeatOne(Length(curlen));
        SendLiterals(w, blTree, curlen, 1, clens);
        count := count - 1;
      }
      SendRepeat(w, blTree, REP_3_6, Previous(count), clens);
    } else if count <= 10 {
      SendRepeat(w, blTree, REPZ_3_10, Zeros(count), clens);
    } else {
      SendRepeat(w, blTree, REPZ_11_138, ManyZeros(count), clens);
    }
  }

  lemma RepeatOne<T>(x: T)
    ensures Repeat(x, 1) == [x]
  {
  }

  lemma LiteralItem(clens: seq<nat>, l: nat)
    requires l <= 15 && |clens| == 19
    ensures EncodeItem(clens, Length(l)) == Codeword(clens, l)
  {
  }

  lemma RepeatedCode(clens: seq<nat>, l: nat, n: nat)
    requires l <= 15 && |clens| == 19 && clens[l] > 0
    ensures Sendable(clens, Repeat(Length(l), n)) && Sendable(clens, Repeat(Length(l), n + 1))
    ensures EncodeItems(clens, Repeat(Length(l), n + 1)) == EncodeItems(clens, Repeat(Length(l), n)) + Codeword(clens, l)
    ensures EncodeItems(clens, Repeat(Length(l), 0)) == []
  {
    hide Codeword;
    var r := Repeat(Length(l), n + 1);
    assert r[..n] == Repeat(Length(l), n);
    LiteralItem(clens, l);
  }

  /** Send a repeat code and its count. */
  method SendRepeat(w: BitWriter, blTree: array<CtData>, symbol: nat, it: Item, ghost clens: seq<nat>)
    requires w.Valid() && it.Valid() && !it.Length? && symbol == it.Symbol()
    requires CodesReady(blTree[..], clens, [it])
    modifies w, w.outbuf
    ensures w.Valid()
    ensures w.sent == old(w.sent) + EncodeItems(clens, [it])
  {
    hide LsbBits, Codeword, EncodeItems, Pow2;
    assert clens[[it][0].Symbol()] > 0;
    SendCode(w, blTree[..], symbol, clens);
    ExtraFits(it);
    w.SendBits(it.Extra(), it.ExtraBits());
    EncodeOne(clens, it);
  }

  /** The lengths of the tree go out run-length coded, as ScanTree counted them. */
  method SendTree(w: BitWriter, tree: array<CtData>, maxCode: nat, blTree: array<CtData>, ghost clens: seq<nat>)
    requires w.Valid() && maxCode + 1 < tree.Length && tree[maxCode + 1].dl == GUARD
    requires forall x :: 0 <= x <= maxCode ==> tree[x].dl <= 15
    requires CodesReady(blTree[..], clens, Rle(Lens(tree[..], maxCode + 1), 0, -1, 0))
    modifies w, w.outbuf
    ensures w.Valid()
    ensures w.sent == old(w.sent) + EncodeItems(clens, Rle(Lens(tree[..], maxCode + 1), 0, -1, 0))
  {
    hide Rle, Run, EncodeItems, CodesReady, Sendable, BitWriter.Valid, Pow2;
    ghost var lens := Lens(tree[..], maxCode + 1);
    ghost var items := Rle(lens, 0, -1, 0);
    ghost var done: seq<Item> := [];
    SentNothing(blTree[..], clens, items);
    var prevlen: int := -1;
    var nextlen := tree[0].dl;
    var count := 0;
    var maxCount := 7;
    var minCount := 4;
    if nextlen == 0 {
      maxCount := 138;
      minCount := 3;
    }
    var n := 0;
    while n <= maxCode
      invariant 0 <= n <= maxCode + 1 && w.Valid()
      invariant n <= maxCode ==> nextlen == lens[n] && maxCount == MaxCount(prevlen, nextlen) && minCount == MinCount(prevlen, nextlen)
      invariant 0 <= count <= n && (n <= maxCode ==> count < maxCount)
      invariant items == done + Rle(lens, n, prevlen, count)
      invariant Sendable(clens, done) && w.sent == old(w.sent) + EncodeItems(clens, done)
    {
      RleStep(lens, n, prevlen, count);
      var curlen := nextlen;
      nextlen := tree[n + 1].dl;
      count := count + 1;
      if count < maxCount && curlen == nextlen {
        n := n + 1;
        continue;
      }
      ghost var run := Run(prevlen, curlen, count);
      SentNext(blTree[..], clens, items, done, run, Rle(lens, n + 1, curlen, 0));
      SendRun(w, blTree, prevlen, curlen, count, minCount, clens);
      done := done + run;
      count := 0;
      prevlen := curlen;
      if nextlen == 0 {
        maxCount := 138;
        minCount := 3;
      } else if curlen == nextlen {
        maxCount := 6;
        minCount := 3;
      } else {
        maxCount := 7;
        minCount := 4;
      }
      n := n + 1;
    }
    RleEnd(lens, prevlen, count);
    assert done + [] == done;
  }

  lemma SentNothing(blTree: seq<CtData>, clens: seq<nat>, items: seq<Item>)
    requires CodesReady(blTree, clens, items)
    ensures Sendable(clens, []) && EncodeItems(clens, []) == []
  {
  }

  lemma SentNext(blTree: seq<CtData>, clens: seq<nat>, items: seq<Item>, done: seq<Item>, run: seq<Item>, rest: seq<Item>)
    requires CodesReady(blTree, clens, items) && items == done + (run + rest) && Sendable(clens, done)
    ensures CodesReady(blTree, clens, run) && Sendable(clens, done + run)
    ensures EncodeItems(clens, done + run) == EncodeItems(clens, done) + EncodeItems(clens, run)
  {
    forall i | 0 <= i < |run| ensures run[i].Valid() && clens[run[i].Symbol()] > 0 {
      assert items[|done| + i] == run[i];
    }
    EncodeConcat(clens, done, run);
  }
}
