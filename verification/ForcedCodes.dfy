/** What build_tree does before merging: fill the queue, and make sure that at least
    two symbols have a code. */
module ForcedCodes {
  import opened Bits
  import opened Canonical
  import opened Sums
  import opened HuffmanTree
  import opened GenCodes
  import opened FirstPass
  import opened CodeLengths
  import opened Heap
  import opened Merging

  lemma {:induction false} ActiveSame(v: seq<nat>, w: seq<nat>, n: nat)
    requires n <= |v| && n <= |w| && forall x :: 0 <= x < n ==> v[x] == w[x]
    ensures Active(v, n) == Active(w, n)
  {
    if n != 0 {
      ActiveSame(v, w, n - 1);
    }
  }

  /** Two lists that differ in f only still do when both are or are not extended by l. */
  lemma InsertStep(a: seq<nat>, f: nat, tail: seq<nat>, l: nat, more: bool, aw: seq<nat>, au: seq<nat>) returns (tail': seq<nat>)
    requires aw == if more then a + tail + [l] else a + tail
    requires au == if more then a + [f] + tail + [l] else a + [f] + tail
    ensures aw == a + tail' && au == a + [f] + tail'
  {
    tail' := if more then tail + [l] else tail;
  }

  lemma InsertLast(w: seq<nat>, f: nat)
    requires f < |w| && w[f] == 0
    ensures Active(w, f + 1) == Active(w, f) && Active(w[f := 1], f + 1) == Active(w, f) + [f]
  {
    ActiveSame(w[f := 1], w, f);
  }

  /** A symbol that gets a frequency comes in between the others. */
  lemma {:induction false} ActiveInsert(w: seq<nat>, n: nat, f: nat) returns (tail: seq<nat>)
    requires f < n <= |w| && w[f] == 0
    ensures Active(w, n) == Active(w, f) + tail
    ensures Active(w[f := 1], n) == Active(w, f) + [f] + tail
  {
    hide Active, Below;
    if f == n - 1 {
      InsertLast(w, f);
      tail := [];
      return;
    }
    var t := ActiveInsert(w, n - 1, f);
    ActiveStep(w[f := 1], n - 1);
    ActiveStep(w, n - 1);
    tail := InsertStep(Active(w, f), f, t, n - 1, w[n - 1] > 0, Active(w, n), Active(w[f := 1], n));
  }

  lemma BagInsert(a: seq<nat>, f: nat, tail: seq<nat>)
    ensures multiset(a + [f] + tail) == multiset(a + tail) + multiset{f}
  {
  }

  lemma ActiveAdd(w: seq<nat>, n: nat, f: nat)
    requires f < n <= |w| && w[f] == 0
    ensures multiset(Active(w[f := 1], n)) == multiset(Active(w, n)) + multiset{f}
    ensures |Active(w[f := 1], n)| == |Active(w, n)| + 1
  {
    hide Active;
    var tail := ActiveInsert(w, n, f);
    BagInsert(Active(w, f), f, tail);
  }

  /** A frequency forced to 1 costs one code (the first symbols have no extra bits). */
  lemma {:induction false} ForcedCost(w: seq<nat>, lens: seq<nat>, desc: TreeDesc, n: nat, f: nat)
    requires n <= |w| && n <= |lens| && f < |w| && w[f] == 0
    ensures SymbolCost(w[f := 1], lens, desc, n)
         == SymbolCost(w, lens, desc, n) + (if f < n then lens[f] + desc.Extra(f) else 0)
  {
    if n != 0 {
      ForcedCost(w, lens, desc, n - 1, f);
    }
  }

  lemma {:induction false} ForcedStaticCost(w: seq<nat>, desc: TreeDesc, n: nat, f: nat)
    requires n <= |w| && f < |w| && w[f] == 0
    ensures StaticSymbolCost(w[f := 1], desc, n)
         == StaticSymbolCost(w, desc, n) + (if f < n then desc.StaticLen(f) + desc.Extra(f) else 0)
  {
    if n != 0 {
      ForcedStaticCost(w, desc, n - 1, f);
    }
  }

  /** Two symbols get one bit each. */
  lemma {:induction false} TwoCodes(w: seq<nat>, lens: seq<nat>, m: nat)
    requires CompleteCode(w, lens, m) && m >= 1 && |Active(w, |lens|)| == 2
    ensures forall i :: 0 <= i < |lens| && w[i] > 0 ==> lens[i] == 1
  {
    hide Kraft, SumOver, Active, Pow2;
    var act := Active(w, |lens|);
    var all := lens + w[|lens|..];
    KraftOfSymbols(w, lens, all, m);
    var v := SpaceOf(all, m);
    SumTwo(act, v);
    HalfSpace(lens[act[0]], m);
    HalfSpace(lens[act[1]], m);
    forall i | 0 <= i < |lens| && w[i] > 0 ensures lens[i] == 1 {
      ActiveMembers(w, |lens|, i);
    }
  }

  lemma SumTwo(ids: seq<nat>, v: seq<int>)
    requires |ids| == 2 && Below(ids, |v|)
    ensures SumOver(ids, v) == v[ids[0]] + v[ids[1]]
  {
    assert ids == [] + [ids[0]] + [ids[1]];
    SumAppend([], ids[0], v);
    SumAppend([] + [ids[0]], ids[1], v);
  }

  lemma HalfSpace(l: nat, m: nat)
    requires 1 <= l <= m
    ensures 2 * Pow2(m - l) <= Pow2(m)
    ensures 2 * Pow2(m - l) == Pow2(m) ==> l == 1
  {
    if l >= 2 {
      Pow2Monotone(m - l, m - 2);
    }
  }

  /** The queue holds exactly the symbols that occur. */
  ghost predicate Filled(tree: seq<CtData>, heap: seq<nat>, len: nat, elems: nat, maxCode: int)
  {
    && elems <= |tree| && len < |heap| && len <= elems
    && multiset(Queue(heap, len)) == multiset(Active(Freqs(tree), elems))
    && len == |Active(Freqs(tree), elems)|
    && -1 <= maxCode < elems && (maxCode == -1 <==> len == 0)
    && (maxCode >= 0 ==> tree[maxCode].fc > 0)
    && (forall x :: 0 <= x < elems && tree[x].fc > 0 ==> x <= maxCode)
    && (forall x :: 0 <= x < elems && tree[x].fc == 0 ==> tree[x].dl == 0)
  }

  /** Symbols are trees of no height. */
  ghost predicate Flat(depth: seq<nat>, heap: seq<nat>, len: nat)
  {
    len < |heap| && forall i :: 1 <= i <= len ==> heap[i] < |depth| && depth[heap[i]] == 0
  }

  lemma FlatNext(depth: seq<nat>, heap: seq<nat>, len: nat, x: nat)
    requires Flat(depth, heap, len) && len + 1 < |heap| && x < |depth|
    ensures Flat(depth[x := 0], heap[len + 1 := x], len + 1)
  {
  }

  lemma NoneFlat(depth: seq<nat>, heap: seq<nat>)
    requires |heap| > 0
    ensures Flat(depth, heap, 0)
  {
  }

  lemma QueueNone(h: seq<nat>)
    requires |h| > 0
    ensures Queue(h, 0) == []
  {
  }

  lemma QueueSize(h: seq<nat>, len: nat)
    requires len < |h|
    ensures |Queue(h, len)| == len
  {
  }

  lemma QueueAppend(h: seq<nat>, len: nat, x: nat)
    requires len + 1 < |h|
    ensures Queue(h[len + 1 := x], len + 1) == Queue(h, len) + [x]
  {
  }

  /** The first n entries with no length left over where the frequency is zero. */
  function Cleared(t: seq<CtData>, n: nat): (r: seq<CtData>)
    ensures |r| == |t|
    ensures forall x :: 0 <= x < |r| ==> r[x] == if x < n && t[x].fc == 0 then t[x].(dl := 0) else t[x]
  {
    seq(|t|, x requires 0 <= x < |t| => if x < n && t[x].fc == 0 then t[x].(dl := 0) else t[x])
  }

  lemma NoneCleared(t: seq<CtData>)
    ensures Cleared(t, 0) == t
  {
  }

  lemma ClearedStep(t: seq<CtData>, n: nat)
    requires n < |t|
    ensures Cleared(t, n + 1) == if t[n].fc == 0 then Cleared(t, n)[n := t[n].(dl := 0)] else Cleared(t, n)
    ensures Cleared(t, n)[n] == t[n]
  {
  }

  /** max_code is the largest symbol seen with a frequency. */
  ghost predicate IsMaxCode(w: seq<nat>, n: nat, maxCode: int)
  {
    && n <= |w| && -1 <= maxCode < n
    && (maxCode >= 0 ==> w[maxCode] > 0)
    && (forall x :: 0 <= x < n && w[x] > 0 ==> x <= maxCode)
  }

  lemma NoMaxCode(w: seq<nat>)
    ensures IsMaxCode(w, 0, -1)
  {
  }

  lemma MaxNext(w: seq<nat>, n: nat, maxCode: int)
    requires IsMaxCode(w, n, maxCode) && n < |w|
    ensures IsMaxCode(w, n + 1, if w[n] > 0 then n else maxCode)
    ensures maxCode < n
  {
  }

  lemma FilledEnd(t: seq<CtData>, heap: seq<nat>, len: nat, elems: nat, maxCode: int)
    requires elems <= |t| && len < |heap| && Queue(heap, len) == Active(Freqs(t), elems)
    requires IsMaxCode(Freqs(t), elems, maxCode) && (maxCode == -1 <==> len == 0)
    ensures Filled(Cleared(t, elems), heap, len, elems, maxCode)
  {
    assert Freqs(Cleared(t, elems)) == Freqs(t);
    QueueSize(heap, len);
  }

  method FillQueue(tree: array<CtData>, depth: array<nat>, heap: array<nat>, elems: nat)
      returns (len: nat, maxCode: int)
    requires depth != heap && elems <= tree.Length <= depth.Length && elems < heap.Length
    modifies tree, depth, heap
    ensures Filled(tree[..], heap[..], len, elems, maxCode) && Flat(depth[..], heap[..], len)
    ensures tree[..] == Cleared(old(tree[..]), elems)
  {
    hide Active, Queue, Cleared, IsMaxCode, Filled, Flat, Freqs;
    ghost var t := tree[..];
    ghost var w := Freqs(t);
    len, maxCode := 0, -1;
    NoMaxCode(w);
    ActiveNone(w);
    QueueNone(heap[..]);
    NoneCleared(t);
    NoneFlat(depth[..], heap[..]);
    var n: nat := 0;
    while n < elems
      invariant 0 <= n <= elems && len <= n && Flat(depth[..], heap[..], len)
      invariant Queue(heap[..], len) == Active(w, n)
      invariant tree[..] == Cleared(t, n)
      invariant IsMaxCode(w, n, maxCode) && (maxCode == -1 <==> len == 0)
    {
      ActiveStep(w, n);
      ClearedStep(t, n);
      MaxNext(w, n, maxCode);
      if tree[n].fc != 0 {
        QueueAppend(heap[..], len, n);
        FlatNext(depth[..], heap[..], len, n);
        len := len + 1;
        heap[len] := n;
        maxCode := n;
        depth[n] := 0;
      } else {
        tree[n] := tree[n].(dl := 0);
      }
      n := n + 1;
    }
    FilledEnd(t, heap[..], len, elems, maxCode);
  }

  /** One forced code: the symbol it goes to has no frequency yet. */
  lemma {:induction false} ForcedSymbol(tree: seq<CtData>, heap: seq<nat>, len: nat, elems: nat, maxCode: int)
    requires Filled(tree, heap, len, elems, maxCode) && len < 2 && elems >= 3 && elems < |heap|
    ensures var f: nat := if maxCode < 2 then maxCode + 1 else 0; var c := if maxCode < 2 then maxCode + 1 else maxCode;
            && f < 3 && tree[f].fc == 0
            && Filled(tree[f := tree[f].(fc := 1)], heap[len + 1 := f], len + 1, elems, c)
            && Freqs(tree[f := tree[f].(fc := 1)]) == Freqs(tree)[f := 1]
  {
    hide Active, Queue;
    var f: nat := if maxCode < 2 then maxCode + 1 else 0;
    var w := Freqs(tree);
    OnlyOne(w, elems, maxCode, f);
    ActiveAdd(w, elems, f);
    QueueAppend(heap, len, f);
    assert Freqs(tree[f := tree[f].(fc := 1)]) == w[f := 1];
  }

  /** With at most one symbol, any other is free. */
  lemma {:induction false} OnlyOne(w: seq<nat>, n: nat, x: int, y: nat)
    requires n <= |w| && |Active(w, n)| <= 1 && y < n && x != y && -1 <= x < n
    requires (x == -1 <==> |Active(w, n)| == 0) && (x >= 0 ==> w[x] > 0)
    ensures w[y] == 0
  {
    ActiveMembers(w, n, y);
    if x >= 0 {
      ActiveMembers(w, n, x);
    }
  }

  /** The frequencies with those of the forced symbols set to 1. */
  function Force(w: seq<nat>, forced: seq<nat>): (r: seq<nat>)
    requires Below(forced, |w|)
    ensures |r| == |w|
  {
    if forced == [] then w else Force(w, forced[..|forced| - 1])[forced[|forced| - 1] := 1]
  }

  /** Each forced symbol is one of the first three and had no frequency. */
  ghost predicate Forcible(w: seq<nat>, forced: seq<nat>)
    requires Below(forced, |w|)
  {
    forced == [] ||
    var n := |forced| - 1;
    Forcible(w, forced[..n]) && forced[n] < 3 && Force(w, forced[..n])[forced[n]] == 0
  }

  function StaticLens(forced: seq<nat>, desc: TreeDesc): nat
  {
    if forced == [] then 0 else StaticLens(forced[..|forced| - 1], desc) + desc.StaticLen(forced[|forced| - 1])
  }

  lemma {:induction false} ForcedCosts(w: seq<nat>, forced: seq<nat>, lens: seq<nat>, desc: TreeDesc, n: nat)
    requires Below(forced, |w|) && Forcible(w, forced) && desc.Valid() && n <= |w| && n <= |lens|
    requires forall i :: 0 <= i < |forced| ==> forced[i] < n && lens[forced[i]] == 1
    ensures SymbolCost(Force(w, forced), lens, desc, n) == SymbolCost(w, lens, desc, n) + |forced|
    ensures StaticSymbolCost(Force(w, forced), desc, n) == StaticSymbolCost(w, desc, n) + StaticLens(forced, desc)
  {
    if forced != [] {
      var k := |forced| - 1;
      ForcedCosts(w, forced[..k], lens, desc, n);
      var w1 := Force(w, forced[..k]);
      ForcedCost(w1, lens, desc, n, forced[k]);
      ForcedStaticCost(w1, desc, n, forced[k]);
    }
  }

  lemma ForceOneMore(w: seq<nat>, forced: seq<nat>, f: nat)
    requires Below(forced, |w|) && Forcible(w, forced) && f < |w| && f < 3 && Force(w, forced)[f] == 0
    ensures Below(forced + [f], |w|) && Forcible(w, forced + [f])
    ensures Force(w, forced + [f]) == Force(w, forced)[f := 1]
  {
    assert (forced + [f])[..|forced|] == forced;
  }

  lemma StaticLensOneMore(forced: seq<nat>, f: nat, desc: TreeDesc)
    ensures StaticLens(forced + [f], desc) == StaticLens(forced, desc) + desc.StaticLen(f)
  {
    assert (forced + [f])[..|forced|] == forced;
  }

  /** Where the loop has got that forces codes: these symbols have been forced of all. */
  ghost predicate Forcing(t: seq<CtData>, d: seq<nat>, heap: seq<nat>, len: nat, elems: nat, maxCode: int,
                          w: seq<nat>, forced: seq<nat>, all: seq<nat>)
  {
    && Filled(t, heap, len, elems, maxCode) && Flat(d, heap, len)
    && |t| == |w| && Below(forced, |w|) && Forcible(w, forced) && Freqs(t) == Force(w, forced)
    && (forced != [] ==> len <= 2) && forced + ForcedOf(len, maxCode) == all
  }

  lemma ForcingStart(t: seq<CtData>, d: seq<nat>, heap: seq<nat>, len: nat, elems: nat, maxCode: int)
    requires Filled(t, heap, len, elems, maxCode) && Flat(d, heap, len)
    ensures maxCode >= -1 && Forcing(t, d, heap, len, elems, maxCode, Freqs(t), [], ForcedOf(len, maxCode))
  {
    hide Flat, ForcedOf;
    NoneLeft([], len, maxCode);
  }

  lemma ForcingStep(t: seq<CtData>, d: seq<nat>, heap: seq<nat>, len: nat, elems: nat, maxCode: int,
                    w: seq<nat>, forced: seq<nat>, all: seq<nat>, f: nat, next: int)
    requires Forcing(t, d, heap, len, elems, maxCode, w, forced, all) && len < 2 && 3 <= elems < |heap| && |t| <= |d|
    requires f == (if maxCode < 2 then maxCode + 1 else 0) && next == if maxCode < 2 then maxCode + 1 else maxCode
    ensures f < 3 && f < |t| && len + 1 < |heap|
    ensures Forcing(t[f := t[f].(fc := 1)], d[f := 0], heap[len + 1 := f], len + 1, elems, next, w, forced + [f], all)
  {
    hide Filled, Flat, Forcible, ForcedOf;
    FilledFacts(t, heap, len, elems, maxCode);
    ForcedSymbol(t, heap, len, elems, maxCode);
    ForceOneMore(w, forced, f);
    ForcedNext(forced, len, maxCode, all, f, next);
    FlatNext(d, heap, len, f);
  }

  lemma ForcingEnd(t: seq<CtData>, d: seq<nat>, heap: seq<nat>, len: nat, elems: nat, maxCode: int,
                   w: seq<nat>, forced: seq<nat>, all: seq<nat>)
    requires Forcing(t, d, heap, len, elems, maxCode, w, forced, all)
    ensures Filled(t, heap, len, elems, maxCode) && Flat(d, heap, len) && -1 <= maxCode
    ensures |t| == |w| && Below(forced, |w|) && Forcible(w, forced) && Freqs(t) == Force(w, forced)
    ensures (forced != [] ==> len <= 2) && (len >= 2 ==> forced == all)
  {
    hide Flat, ForcedOf, Forcible;
    NoneLeft(forced, len, maxCode);
  }

  /** Symbols that do not occur get the frequency 1 until there are two in the queue; each
      is paid for in advance with the one bit it will cost. */
  method ForceTwo(tree: array<CtData>, depth: array<nat>, heap: array<nat>, desc: TreeDesc,
                  lenBefore: nat, maxBefore: int, optLen: int, staticLen: int)
      returns (len: nat, maxCode: int, opt: int, stat: int, ghost forced: seq<nat>)
    requires depth != heap && tree.Length <= depth.Length && desc.elems < heap.Length && desc.Valid()
    requires Filled(tree[..], heap[..], lenBefore, desc.elems, maxBefore) && Flat(depth[..], heap[..], lenBefore)
    modifies tree, depth, heap
    ensures Filled(tree[..], heap[..], len, desc.elems, maxCode) && len >= 2 && Flat(depth[..], heap[..], len)
    ensures Below(forced, tree.Length) && Forcible(Freqs(old(tree[..])), forced)
    ensures Freqs(tree[..]) == Force(Freqs(old(tree[..])), forced)
    ensures forced != [] ==> len == 2
    ensures forced == ForcedOf(lenBefore, maxBefore)
    ensures opt == optLen - |forced|
    ensures stat == staticLen - (if desc.staticLens == [] then 0 else StaticLens(forced, desc))
  {
    hide Forcing, Filled, Flat, Forcible, Pow2, ForcedOf, StaticLens;
    len, maxCode, opt, stat := lenBefore, maxBefore, optLen, staticLen;
    forced := [];
    ghost var w := Freqs(tree[..]);
    NoneForced(w, desc);
    ForcingStart(tree[..], depth[..], heap[..], len, desc.elems, maxCode);
    ghost var all := ForcedOf(lenBefore, maxBefore);
    while len < 2
      invariant Forcing(tree[..], depth[..], heap[..], len, desc.elems, maxCode, w, forced, all)
      invariant opt == optLen - |forced|
      invariant stat == staticLen - (if desc.staticLens == [] then 0 else StaticLens(forced, desc))
      decreases 2 - len
    {
      ForcingEnd(tree[..], depth[..], heap[..], len, desc.elems, maxCode, w, forced, all);
      ghost var before := maxCode;
      var f: nat;
      if maxCode < 2 {
        maxCode := maxCode + 1;
        f := maxCode;
      } else {
        f := 0;
      }
      ForcingStep(tree[..], depth[..], heap[..], len, desc.elems, before, w, forced, all, f, maxCode);
      StaticLensOneMore(forced, f, desc);
      len := len + 1;
      heap[len] := f;
      tree[f] := tree[f].(fc := 1);
      depth[f] := 0;
      opt := opt - 1;
      if desc.staticLens != [] {
        stat := stat - desc.staticLens[f];
      }
      forced := forced + [f];
    }
    ForcingEnd(tree[..], depth[..], heap[..], len, desc.elems, maxCode, w, forced, all);
  }

  /** The symbols that are forced where len symbols occur, the last of them maxCode. */
  function ForcedOf(len: nat, maxCode: int): (forced: seq<nat>)
    requires maxCode >= -1
    decreases 2 - len
  {
    if len >= 2 then []
    else
      var f: nat := if maxCode < 2 then maxCode + 1 else 0;
      [f] + ForcedOf(len + 1, if maxCode < 2 then maxCode + 1 else maxCode)
  }

  lemma ForcedNext(forced: seq<nat>, len: nat, maxCode: int, all: seq<nat>, f: nat, next: int)
    requires maxCode >= -1 && len < 2 && forced + ForcedOf(len, maxCode) == all
    requires f == (if maxCode < 2 then maxCode + 1 else 0) && next == if maxCode < 2 then maxCode + 1 else maxCode
    ensures (forced + [f]) + ForcedOf(len + 1, next) == all
  {
    assert ForcedOf(len, maxCode) == [f] + ForcedOf(len + 1, next);
  }

  lemma NoneLeft(forced: seq<nat>, len: nat, maxCode: int)
    requires maxCode >= -1
    ensures [] + ForcedOf(len, maxCode) == ForcedOf(len, maxCode)
    ensures len >= 2 ==> forced + ForcedOf(len, maxCode) == forced
  {
  }

  /** They are 0 and 1 only, unless symbol 1 is the only one to occur: then it is 2. */
  lemma ForcedIsTwo(len: nat, maxCode: int)
    requires maxCode >= -1 && (len == 0 <==> maxCode == -1)
    ensures (exists i :: 0 <= i < |ForcedOf(len, maxCode)| && ForcedOf(len, maxCode)[i] > 1) <==> len == 1 && maxCode == 1
    ensures len == 1 && maxCode == 1 ==> ForcedOf(len, maxCode) == [2]
  {
    assert len == 1 ==> ForcedOf(len, maxCode) == [if maxCode < 2 then maxCode + 1 else 0];
    assert len == 0 ==> ForcedOf(len, maxCode) == [0, 1];
    if len == 1 && maxCode == 1 {
      assert ForcedOf(len, maxCode)[0] == 2;
    }
  }

  lemma NoneForced(w: seq<nat>, desc: TreeDesc)
    ensures Forcible(w, []) && Force(w, []) == w && StaticLens([], desc) == 0
  {
  }

  lemma FilledFacts(tree: seq<CtData>, heap: seq<nat>, len: nat, elems: nat, maxCode: int)
    requires Filled(tree, heap, len, elems, maxCode)
    ensures elems <= |tree| && len < |heap| && len <= elems && -1 <= maxCode < elems
  {
  }
}
