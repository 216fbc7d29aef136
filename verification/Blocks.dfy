/** The state shared by the tree-building half of gzip.c (struct globals2 and the
    token buffers), ct_init, init_block, ct_tally and compress_block. */
module Blocks {
  import opened Bits
  import opened Canonical
  import opened Inflate
  import opened GenCodes
  import opened Tokens
  import opened TokenCosts
  import opened TokenStore
  import opened StaticTables
  import opened FirstPass

  const BL_CODES: nat := 19

  /** The frequencies of the block so far. */
  ghost predicate Counting(l: seq<CtData>, d: seq<CtData>, bl: seq<CtData>, ts: seq<Token>)
  {
    && |l| == HEAP_SIZE && |d| == 2 * D_CODES + 1 && |bl| == 2 * BL_CODES + 1
    && (forall s :: 0 <= s < L_CODES ==> l[s].fc == LitCount(ts, s) + (if s == END_BLOCK then 1 else 0))
    && (forall s :: 0 <= s < D_CODES ==> d[s].fc == DistCount(ts, s))
    && (forall s :: 0 <= s < BL_CODES ==> bl[s].fc == 0)
  }

  lemma CountingLiteral(l: seq<CtData>, d: seq<CtData>, bl: seq<CtData>, ts: seq<Token>, b: byte, l': seq<CtData>)
    requires Counting(l, d, bl, ts) && |ts| < 0x8000 && l[b].fc < 0xffff
    requires l' == l[b := l[b].(fc := l[b].fc + 1)]
    ensures Counting(l', d, bl, ts + [Literal(b)])
  {
    forall s {
      CountAppend(ts, Literal(b), s);
    }
  }

  lemma CountingMatch(l: seq<CtData>, d: seq<CtData>, bl: seq<CtData>, ts: seq<Token>, length: nat, distance: nat,
                      l': seq<CtData>, d': seq<CtData>)
    requires Counting(l, d, bl, ts) && |ts| < 0x8000
    requires var s := 257 + LengthCode(length);
             l[s].fc < 0xffff && l' == l[s := l[s].(fc := l[s].fc + 1)]
    requires var c := DistCode(distance);
             d[c].fc < 0xffff && d' == d[c := d[c].(fc := d[c].fc + 1)]
    ensures Counting(l', d', bl, ts + [Match(length, distance)])
  {
    forall s {
      CountAppend(ts, Match(length, distance), s);
    }
  }

  /** What ct_init computes once and for all. */
  datatype CodeTables = CodeTables(lengthCode: seq<nat>, baseLength: seq<int>, distCode: seq<nat>, baseDist: seq<int>,
                                   staticLtree: seq<CtData>, staticDtree: seq<CtData>)
  {
    ghost predicate Valid()
    {
      && LengthTables(lengthCode, baseLength) && DistTables(distCode, baseDist)
      && |staticLtree| == L_CODES + 2 && HasCodes(staticLtree, FixedLiteralLengths())
      && |staticDtree| == D_CODES
      && (forall c :: 0 <= c < D_CODES ==> HasCode(staticDtree, FixedDistanceLengths(), c))
    }
  }

  /** ct_init: allocate and initialize the various tables. */
  method CtInit() returns (t: CodeTables)
    ensures t.Valid()
  {
    hide LengthTables, DistTables, HasCodes;
    var len, base := InitLengths();
    var dist, dbase := InitDists();
    var count := new nat[MAX_BITS + 1](_ => 0);
    var sl := InitStaticLiterals(count);
    var sd := InitStaticDistances();
    t := CodeTables(len[..], base[..], dist[..], dbase[..], sl[..], sd[..]);
  }

  class Trees {
    const tables: CodeTables
    // the trees and what is needed to build them
    const dynLtree: array<CtData>
    const dynDtree: array<CtData>
    const blTree: array<CtData>
    const heap: array<nat>
    const depth: array<nat>
    const blCount: array<nat>
    // the tokens of the current block
    const lBuf: array<byte>
    const dBuf: array<ush>
    const flagBuf: array<byte>
    var lastLit: nat
    var lastDist: nat
    var lastFlags: nat
    var flags: byte
    var flagBit: nat
    // bit lengths
    var optLen: int
    var staticLen: int
    var compressedLen: nat
    ghost var tokens: seq<Token>
    ghost var all: seq<Token>    // of all blocks

    /** What the methods write besides this object. */
    ghost function Buffers(): set<object>
    {
      {dynLtree as object, dynDtree as object, blTree as object, heap as object, depth as object,
       blCount as object, lBuf as object, dBuf as object, flagBuf as object}
    }

    ghost predicate Shape()
    {
      && tables.Valid()
      && dynLtree != dynDtree && dynLtree != blTree && dynDtree != blTree
      && heap != depth && heap != blCount && depth != blCount
      && lBuf != flagBuf
      && dynLtree.Length == HEAP_SIZE && dynDtree.Length == 2 * D_CODES + 1 && blTree.Length == 2 * BL_CODES + 1
      && heap.Length == HEAP_SIZE && depth.Length == HEAP_SIZE && blCount.Length == MAX_BITS + 1
      && lBuf.Length == LIT_BUFSIZE && dBuf.Length == DIST_BUFSIZE && flagBuf.Length == LIT_BUFSIZE / 8
    }

    ghost predicate Storing()
      reads this, lBuf, dBuf, flagBuf
    {
      Stored(lBuf[..], dBuf[..], flagBuf[..], lastLit, lastDist, lastFlags, flags, flagBit, tokens)
    }

    ghost predicate Valid()
      reads this, Buffers()
    {
      && Shape() && Storing()
      && Counting(dynLtree[..], dynDtree[..], blTree[..], tokens)
      && optLen == 0 && staticLen == 0
    }

    constructor (t: CodeTables)
      requires t.Valid()
      ensures Valid() && tokens == [] && all == [] && Room() && compressedLen == 0
      ensures fresh(dynLtree) && fresh(dynDtree) && fresh(blTree) && fresh(heap) && fresh(depth) && fresh(blCount)
      ensures fresh(lBuf) && fresh(dBuf) && fresh(flagBuf)
    {
      hide CodeTables.Valid, Trees.Valid;
      tables := t;
      dynLtree := new CtData[HEAP_SIZE](_ => CtData(0, 0));
      dynDtree := new CtData[2 * D_CODES + 1](_ => CtData(0, 0));
      blTree := new CtData[2 * BL_CODES + 1](_ => CtData(0, 0));
      heap := new nat[HEAP_SIZE](_ => 0);
      depth := new nat[HEAP_SIZE](_ => 0);
      blCount := new nat[MAX_BITS + 1](_ => 0);
      lBuf := new byte[LIT_BUFSIZE](_ => 0);
      dBuf := new ush[DIST_BUFSIZE](_ => 0);
      flagBuf := new byte[LIT_BUFSIZE / 8](_ => 0);
      compressedLen := 0;
      all := [];
      new;
      InitBlock();
    }

    /** Initialize a new block. */
    method InitBlock()
      requires Shape()
      modifies this, dynLtree, dynDtree, blTree
      ensures Valid() && tokens == [] && Room() && compressedLen == old(compressedLen) && all == old(all)
    {
      hide CodeTables.Valid, Stored, Counting;
      ClearTrees(dynLtree, dynDtree, blTree);
      optLen, staticLen := 0, 0;
      lastLit, lastDist, lastFlags := 0, 0, 0;
      flags := 0;
      flagBit := 1;
      tokens := [];
      StoredNothing(lBuf[..], dBuf[..], flagBuf[..]);
    }

    /** The token buffers have room for one more token. */
    ghost predicate Room()
      reads this
    {
      lastLit < LIT_BUFSIZE - 1 && lastDist < DIST_BUFSIZE
    }

    /** Count a token in. */
    method CountToken(dist: nat, lc: byte)
      requires Shape() && Counting(dynLtree[..], dynDtree[..], blTree[..], tokens) && |tokens| < LIT_BUFSIZE
      requires dist <= 0x8000
      modifies dynLtree, dynDtree
      ensures Counting(dynLtree[..], dynDtree[..], blTree[..], tokens + [TokenOf(dist, lc)])
    {
      hide Counting, LengthCode, DistCode;
      FrequencyRoom(dynLtree[..], dynDtree[..], blTree[..], tokens);
      if dist == 0 {
        ghost var l := dynLtree[..];
        dynLtree[lc] := dynLtree[lc].(fc := dynLtree[lc].fc + 1);
        CountingLiteral(l, dynDtree[..], blTree[..], tokens, lc, dynLtree[..]);
      } else {
        ghost var l, d := dynLtree[..], dynDtree[..];
        var s := tables.lengthCode[lc] + LITERALS + 1;
        var c := DCode(tables.distCode, dist - 1);
        assert NormalLengthCode(lc) == LengthCode(lc + 3) && NormalDistCode(dist - 1) == DistCode(dist);
        dynLtree[s] := dynLtree[s].(fc := dynLtree[s].fc + 1);
        dynDtree[c] := dynDtree[c].(fc := dynDtree[c].fc + 1);
        CountingMatch(l, d, blTree[..], tokens, lc + MIN_MATCH, dist, dynLtree[..], dynDtree[..]);
      }
    }

    /** Note in the flags whether the token is a match; put away every full byte. */
    method StoreFlag(isMatch: bool)
      requires lastFlags < flagBuf.Length && BitOr(flags, flagBit) < 256
      requires lastLit % 8 != 0 ==> flagBit * 2 < 256
      modifies this`lastFlags, this`flags, this`flagBit, flagBuf
      ensures var f: nat := if isMatch then BitOr(old(flags), old(flagBit)) else old(flags);
              if lastLit % 8 == 0
              then f < 256 && flagBuf[..] == old(flagBuf[..])[old(lastFlags) := f] && lastFlags == old(lastFlags) + 1
                   && flags == 0 && flagBit == 1
              else flagBuf[..] == old(flagBuf[..]) && lastFlags == old(lastFlags) && flags == f && flagBit == old(flagBit) * 2
    {
      hide BitOr;
      if isMatch {
        flags := BitOr(flags, flagBit);
      }
      flagBit := flagBit * 2 % 256;
      if lastLit % 8 == 0 {
        flagBuf[lastFlags] := flags;
        lastFlags := lastFlags + 1;
        flags := 0;
        flagBit := 1;
      }
    }

    /** Put a token in the buffers. */
    method StoreToken(dist: nat, lc: byte)
      requires Shape() && Storing() && Room() && dist <= 0x8000
      modifies this`lastLit, this`lastDist, this`lastFlags, this`flags, this`flagBit, this`tokens, lBuf, dBuf, flagBuf
      ensures Storing() && tokens == old(tokens) + [TokenOf(dist, lc)]
    {
      hide Stored, BitOr, CodeTables.Valid;
      StoredFacts(lBuf[..], dBuf[..], flagBuf[..], lastLit, lastDist, lastFlags, flags, flagBit, tokens);
      ghost var l, d, f := lBuf[..], dBuf[..], flagBuf[..];
      ghost var t := TokenOf(dist, lc);
      lBuf[lastLit] := lc;
      lastLit := lastLit + 1;
      if dist != 0 {
        dBuf[lastDist] := dist - 1;
        lastDist := lastDist + 1;
      }
      StoreFlag(dist != 0);
      tokens := tokens + [t];
      StoredNext(l, d, f, old(lastLit), old(lastDist), old(lastFlags), old(flags), old(flagBit), old(tokens), t,
                 lBuf[..], dBuf[..], flagBuf[..], lastFlags, flags, flagBit);
    }

    /** One token more: it is in the buffers and in the frequencies. The block is to be ended
        exactly if it is full or if ending it seems worth while. */
    method Tally(dist: nat, lc: byte, inLength: nat) returns (flush: bool)
      requires Valid() && Room() && dist <= 0x8000
      modifies this, dynLtree, dynDtree, lBuf, dBuf, flagBuf
      ensures Valid() && compressedLen == old(compressedLen)
      ensures tokens == old(tokens) + [TokenOf(dist, lc)] && all == old(all) + [TokenOf(dist, lc)]
      ensures !flush ==> Room()
      ensures InRange(tokens) && (flush <==> Full(tokens) || WorthEnding(tokens, inLength))
    {
      hide Stored, Counting, CodeTables.Valid, InRange, WorthEnding;
      StoredSize(lBuf[..], dBuf[..], flagBuf[..], lastLit, lastDist, lastFlags, flags, flagBit, tokens);
      CountToken(dist, lc);
      StoreToken(dist, lc);
      all := all + [TokenOf(dist, lc)];
      StoredSize(lBuf[..], dBuf[..], flagBuf[..], lastLit, lastDist, lastFlags, flags, flagBit, tokens);
      var early := EndEarly(inLength);
      return early || lastLit == LIT_BUFSIZE - 1 || lastDist == DIST_BUFSIZE;
    }

    /** The guess is made from the frequencies of the distance codes. */
    method EndEarly(inLength: nat) returns (r: bool)
      requires Valid()
      ensures InRange(tokens) && r == WorthEnding(tokens, inLength)
    {
      hide Stored, Counting, CodeTables.Valid, Guess, DistBits, InRange, DistCount;
      ghost var ts := tokens;
      StoredSize(lBuf[..], dBuf[..], flagBuf[..], lastLit, lastDist, lastFlags, flags, flagBit, ts);
      DistCounts(dynLtree[..], dynDtree[..], blTree[..], ts);
      if lastLit % 0x1000 != 0 {
        return false;
      }
      var outLength := lastLit * 8;
      var dcode := 0;
      DistBitsNext(ts, 0);
      while dcode < D_CODES
        invariant 0 <= dcode <= D_CODES && outLength == 8 * |ts| + DistBits(ts, dcode)
      {
        DistBitsNext(ts, dcode);
        outLength := outLength + dynDtree[dcode].fc * (5 + DIST_EXTRA[dcode]);
        dcode := dcode + 1;
      }
      GuessIs(ts);
      outLength := outLength / 8;
      return lastDist < lastLit / 2 && outLength < inLength / 2;
    }
  }

  const LITERALS: nat := 256

  /** Frequencies stay small enough for 16 bits. */
  lemma FrequencyRoom(l: seq<CtData>, d: seq<CtData>, bl: seq<CtData>, ts: seq<Token>)
    requires Counting(l, d, bl, ts) && |ts| < LIT_BUFSIZE
    ensures |l| == HEAP_SIZE && |d| == 2 * D_CODES + 1
    ensures forall s :: 0 <= s < L_CODES ==> l[s].fc < 0xffff
    ensures forall s :: 0 <= s < D_CODES ==> d[s].fc < 0xffff
  {
    forall s: nat {
      CountBound(ts, s);
    }
  }

  /** The distances of the tokens, in bits: what those with codes below n are taken to need. */
  function DistBits(ts: seq<Token>, n: nat): nat
    requires n <= D_CODES
  {
    if n == 0 then 0 else DistBits(ts, n - 1) + DistCount(ts, n - 1) * (5 + DIST_EXTRA[n - 1])
  }

  lemma DistBitsNext(ts: seq<Token>, n: nat)
    requires n < D_CODES
    ensures DistBits(ts, 0) == 0
    ensures DistBits(ts, n + 1) == DistBits(ts, n) + DistCount(ts, n) * (5 + DIST_EXTRA[n])
  {
  }

  lemma {:induction false} DistBitsAppend(ts: seq<Token>, t: Token, n: nat)
    requires n <= D_CODES
    ensures DistBits(ts + [t], n)
         == DistBits(ts, n) + (if t.Match? && DistCode(t.distance) < n then 5 + DIST_EXTRA[DistCode(t.distance)] else 0)
  {
    hide DistCode, DistCount;
    if n != 0 {
      DistBitsAppend(ts, t, n - 1);
      TokenCosts.CountAppend(ts, t, n - 1);
      MulSum(DistCount(ts, n - 1), 1, 5 + DIST_EXTRA[n - 1]);
    }
  }

  lemma {:induction false} DistBitsNone(n: nat)
    requires n <= D_CODES
    ensures DistBits([], n) == 0
  {
    if n != 0 {
      DistBitsNone(n - 1);
    }
  }

  /** A guess at the size of a block, in bits: a byte for every token, and for every match
      the extra bits of its distance and five more. */
  function Guess(ts: seq<Token>): nat
    requires InRange(ts)
  {
    if ts == [] then 0
    else
      var t := ts[|ts| - 1];
      Guess(ts[..|ts| - 1]) + 8 + (if t.Match? then 5 + DIST_EXTRA[DistCode(t.distance)] else 0)
  }

  /** Summing over the distance codes comes to the same. */
  lemma {:induction false} GuessIs(ts: seq<Token>)
    requires InRange(ts)
    ensures 8 * |ts| + DistBits(ts, D_CODES) == Guess(ts)
  {
    hide DistBits, DistCode;
    if ts == [] {
      DistBitsNone(D_CODES);
    } else {
      var front, t := ts[..|ts| - 1], ts[|ts| - 1];
      GuessIs(front);
      assert ts == front + [t];
      DistBitsAppend(front, t, D_CODES);
    }
  }

  /** The buffers have no room for more. */
  predicate Full(ts: seq<Token>)
  {
    |ts| == LIT_BUFSIZE - 1 || |Dists(ts)| == DIST_BUFSIZE
  }

  /** At every 4096th token: few of them are matches, but the guess is below half the input. */
  predicate WorthEnding(ts: seq<Token>, inLength: nat)
    requires InRange(ts)
  {
    |ts| % 0x1000 == 0 && |Dists(ts)| < |ts| / 2 && Guess(ts) / 8 < inLength / 2
  }

  lemma DistCounts(l: seq<CtData>, d: seq<CtData>, bl: seq<CtData>, ts: seq<Token>)
    requires Counting(l, d, bl, ts)
    ensures D_CODES <= |d| && forall s :: 0 <= s < D_CODES ==> d[s].fc == DistCount(ts, s)
  {
    hide DistCount, LitCount;
  }

  lemma StoredFacts(l: seq<byte>, d: seq<ush>, f: seq<byte>, lastLit: nat, lastDist: nat, lastFlags: nat,
                    flags: nat, flagBit: nat, ts: seq<Token>)
    requires Stored(l, d, f, lastLit, lastDist, lastFlags, flags, flagBit, ts)
    ensures |l| == LIT_BUFSIZE && |d| == DIST_BUFSIZE && |f| == LIT_BUFSIZE / 8
    ensures lastLit < LIT_BUFSIZE && lastFlags == lastLit / 8 && 1 <= flagBit <= 128 && flags < flagBit
    ensures BitOr(flags, flagBit) < 256
    ensures (lastLit + 1) % 8 != 0 ==> flagBit * 2 < 256
  {
    hide Shr, BitOr, FlagOf, Dists, InRange;
    var n := lastLit % 8;
    Pow2Monotone(n, 7);
    Pow2Values();
    FlagAdded(flags, n, true);
    if (lastLit + 1) % 8 != 0 {
      Pow2Monotone(n, 6);
    }
  }

  lemma StoredSize(l: seq<byte>, d: seq<ush>, f: seq<byte>, lastLit: nat, lastDist: nat, lastFlags: nat,
                   flags: nat, flagBit: nat, ts: seq<Token>)
    requires Stored(l, d, f, lastLit, lastDist, lastFlags, flags, flagBit, ts)
    ensures |ts| == lastLit < LIT_BUFSIZE && lastDist == |Dists(ts)| <= lastLit && InRange(ts)
  {
    DistsSize(ts);
  }

  /** The token that ct_tally is called for: a distance of 0 means a literal. */
  function TokenOf(dist: nat, lc: byte): Token
  {
    if dist == 0 then Literal(lc) else Match(lc + MIN_MATCH, dist)
  }

  /** Initialize the trees: no symbol but the end-of-block code. */
  method ClearTrees(l: array<CtData>, d: array<CtData>, bl: array<CtData>)
    requires l != d && l != bl && d != bl
    requires l.Length == HEAP_SIZE && d.Length == 2 * D_CODES + 1 && bl.Length == 2 * BL_CODES + 1
    modifies l, d, bl
    ensures Counting(l[..], d[..], bl[..], [])
  {
    ClearFreqs(l, L_CODES);
    ClearFreqs(d, D_CODES);
    ClearFreqs(bl, BL_CODES);
    l[END_BLOCK] := l[END_BLOCK].(fc := 1);
  }

  method ClearFreqs(tree: array<CtData>, n: nat)
    requires n <= tree.Length
    modifies tree
    ensures forall s :: 0 <= s < n ==> tree[s].fc == 0
  {
    var i := 0;
    while i < n
      invariant 0 <= i <= n
      invariant forall s :: 0 <= s < i ==> tree[s].fc == 0
    {
      tree[i] := tree[i].(fc := 0);
      i := i + 1;
    }
  }
}
