/** The numbers of RFC 1951 (section 3.2), as gzip.c sends them: bits in bytes, types of blocks,
    lengths and distances with their extra bits, and the header of a dynamic block. */
module DeflateStandard {
  import opened Bits
  import opened Canonical
  import opened Inflate
  import opened Tokens
  import opened StaticTables
  import opened TokenStore
  import opened Blocks
  import opened RunLengths
  import opened TreeHeader
  import opened BlockFormat
  import opened BitLengthTree
  import opened FlushBlock
  import opened Crc32Standard

  // ---------- bits ----------

  /** Numbers go low bit first, codes high bit first. */
  lemma {:induction false} BitsAre(v: nat, n: nat, k: nat)
    requires k < n
    ensures LsbBits(v, n)[k] == Bit(v, k) && MsbBits(v, n)[k] == Bit(v, n - 1 - k)
    decreases n
  {
    if n > 1 && k < n - 1 {
      BitsAre(v / 2, n - 1, k);
    }
    if n > 1 && k > 0 {
      BitsAre(v / 2, n - 1, k - 1);
    }
  }

  /** Each byte is filled from its low bit on. */
  lemma {:induction false} BytesAre(d: seq<byte>, i: nat, k: nat)
    requires i < |d| && k < 8
    ensures |BytesToBits(d)| == 8 * |d| && BytesToBits(d)[8 * i + k] == Bit(d[i], k)
    decreases |d|
  {
    if i == 0 {
      BitsAre(d[0], 8, k);
    } else {
      BytesAre(d[1..], i - 1, k);
    }
  }

  // ---------- blocks ----------

  /** The last block is marked, then come the two bits of the type, low bit first. */
  lemma TypesAre(last: bool)
    ensures TypeBits(STORED_BLOCK, last) == [last, false, false]
    ensures TypeBits(STATIC_TREES, last) == [last, true, false]
    ensures TypeBits(DYN_TREES, last) == [last, false, true]
  {
    TypeIs(0, last);
    TypeIs(1, last);
    TypeIs(2, last);
  }

  lemma TypeIs(kind: nat, last: bool)
    requires kind < 3
    ensures TypeBits(kind, last) == [last, kind == 1, kind == 2]
  {
    var v := 2 * kind + (if last then 1 else 0);
    LowOne(v, 3);
    LowOne(kind, 2);
    LowOne(kind / 2, 1);
    LowNone(kind / 2 / 2);
    assert v / 2 == kind && (v % 2 == 1) == last;
  }

  /** A stored block: two bytes of length, low byte first, their complements, the data. */
  lemma StoredIs(data: seq<byte>, lo: byte, hi: byte)
    requires |data| <= 0xffff && |data| == lo + 256 * hi
    ensures StoredBits(data) == BytesToBits([lo, hi] + [255 - lo, 255 - hi] + data)
  {
    hide BytesToBits, LsbBits;
    TwoBytesAre(lo, hi);
    TwoBytesAre(255 - lo, 255 - hi);
    BytesToBitsConcat([lo, hi] + [255 - lo, 255 - hi], data);
    BytesToBitsConcat([lo, hi], [255 - lo, 255 - hi]);
  }

  lemma TwoBytesAre(lo: byte, hi: byte)
    ensures LsbBits(lo + 256 * hi, 16) == BytesToBits([lo, hi])
  {
    hide LsbBits, BytesToBits;
    Pow2Values();
    LsbBitsConcat(lo, 8, hi, 8);
    assert [lo, hi] == [lo] + [hi];
    BytesToBitsConcat([lo], [hi]);
    BytesToBitsOne(lo);
    BytesToBitsOne(hi);
  }

  // ---------- lengths and distances ----------

  /** Eight lengths have codes without extra bits, 258 has its own, and all others share them: four
      codes for each number of extra bits. */
  lemma LengthSent(llens: seq<nat>, length: nat, c: nat, x: nat)
    requires c < 28 && length < 258
    requires if c < 8 then length == 3 + c && x == 0
      else length == 3 + (4 + c % 4) * Pow2(c / 4 - 1) + x && x < Pow2(c / 4 - 1)
    ensures LengthCode(length) == c
    ensures 257 + c < |llens| ==>
      EncodeLength(llens, length) == Codeword(llens, 257 + c) + LsbBits(x, if c < 8 then 0 else c / 4 - 1)
  {
    hide Codeword, LsbBits, Pow2;
    LengthOf(length, c, x);
    LengthTableIs(c);
  }

  lemma LengthOf(length: nat, c: nat, x: nat)
    requires c < 28 && length < 258
    requires if c < 8 then length == 3 + c && x == 0
      else length == 3 + (4 + c % 4) * Pow2(c / 4 - 1) + x && x < Pow2(c / 4 - 1)
    ensures LengthCode(length) == c && length == LENGTH_BASE[c] + x
  {
    hide Pow2, LENGTH_BASE, LENGTH_EXTRA;
    LengthTableIs(c);
    LengthCodeIs(length, c, 0);
  }

  lemma LongestSent(llens: seq<nat>)
    requires |llens| >= 286
    ensures EncodeLength(llens, 258) == Codeword(llens, 285)
  {
    hide Codeword;
    LowNone(0);
  }

  lemma LengthTableIs(c: nat)
    requires c < 28
    ensures LENGTH_EXTRA[c] == if c < 8 then 0 else c / 4 - 1
    ensures LENGTH_BASE[c] == if c < 8 then 3 + c else 3 + (4 + c % 4) * Pow2(c / 4 - 1)
    ensures Pow2(0) == 1
  {
    Pow2Values();
  }

  /** Four distances have codes without extra bits, and then there are two codes for each number
      of them. */
  lemma DistanceSent(dlens: seq<nat>, distance: nat, c: nat, x: nat)
    requires c < 30 && distance <= 0x8000
    requires if c < 4 then distance == 1 + c && x == 0
      else distance == 1 + (2 + c % 2) * Pow2(c / 2 - 1) + x && x < Pow2(c / 2 - 1)
    ensures DistCode(distance) == c
    ensures distance >= 1
    ensures c < |dlens| ==>
      EncodeDistance(dlens, distance) == Codeword(dlens, c) + LsbBits(x, if c < 4 then 0 else c / 2 - 1)
  {
    hide Codeword, LsbBits, Pow2;
    DistanceOf(distance, c, x);
    DistanceTableIs(c);
  }

  lemma DistanceOf(distance: nat, c: nat, x: nat)
    requires c < 30
    requires if c < 4 then distance == 1 + c && x == 0
      else distance == 1 + (2 + c % 2) * Pow2(c / 2 - 1) + x && x < Pow2(c / 2 - 1)
    ensures distance >= 1 && DistCode(distance) == c && distance == DIST_BASE[c] + x
  {
    hide Pow2;
    DistanceTableIs(c);
    DistCodeIs(distance, c, 0);
  }

  lemma DistanceTableIs(c: nat)
    requires c < 30
    ensures DIST_EXTRA[c] == if c < 4 then 0 else c / 2 - 1
    ensures DIST_BASE[c] == if c < 4 then 1 + c else 1 + (2 + c % 2) * Pow2(c / 2 - 1)
    ensures Pow2(0) == 1
  {
    hide Pow2;
    PowersUpTo13();
    if c < 16 {
      assert c in {0, 1, 2, 3, 4, 5, 6, 7, 8, 9, 10, 11, 12, 13, 14, 15};
    } else {
      assert c in {16, 17, 18, 19, 20, 21, 22, 23, 24, 25, 26, 27, 28, 29};
    }
  }

  lemma PowersUpTo13()
    ensures Pow2(0) == 1 && Pow2(1) == 2 && Pow2(2) == 4 && Pow2(3) == 8 && Pow2(4) == 16 && Pow2(5) == 32 && Pow2(6) == 64
    ensures Pow2(7) == 128 && Pow2(8) == 256 && Pow2(9) == 512 && Pow2(10) == 1024 && Pow2(11) == 2048
    ensures Pow2(12) == 4096 && Pow2(13) == 8192
  {
    Pow2Values();
  }

  // ---------- the header of a dynamic block ----------

  /** Code lengths are sent by their numbers, or repeated: the last one three to six times, zero
      three to ten times, or eleven to 138 times. */
  lemma ItemSent(clens: seq<nat>, n: nat)
    requires |clens| == 19
    ensures n <= 15 ==> EncodeItem(clens, Length(n)) == Codeword(clens, n)
    ensures n < 4 ==> EncodeItem(clens, Previous(3 + n)) == Codeword(clens, 16) + LsbBits(n, 2)
    ensures n < 8 ==> EncodeItem(clens, Zeros(3 + n)) == Codeword(clens, 17) + LsbBits(n, 3)
    ensures n < 128 ==> EncodeItem(clens, ManyZeros(11 + n)) == Codeword(clens, 18) + LsbBits(n, 7)
  {
    hide Codeword, LsbBits;
    LowNone(0);
  }

  /** The lengths of the code length code come in this order: the repeats, zero, and the others
      from the middle outwards. */
  lemma OrderIs(k: nat)
    requires k < 19
    ensures CODE_LENGTH_ORDER[k] == if k < 3 then 16 + k else if k == 3 then 0 else if k % 2 == 0 then 6 + k / 2 else 9 - k / 2
  {
  }

  /** How many codes there are, in five, five and four bits; the code length code, three bits each;
      and the lengths. */
  lemma HeaderSent(llens: seq<nat>, dlens: seq<nat>, clens: seq<nat>, n: nat)
    requires HeaderOk(llens, dlens, clens, n)
    ensures HeaderBits(llens, dlens, clens, n)
         == LsbBits(|llens| - 257, 5) + LsbBits(|dlens| - 1, 5) + LsbBits(n - 4, 4) + OrderBits(clens, n)
            + (EncodeItems(clens, Rle(llens, 0, -1, 0)) + EncodeItems(clens, Rle(dlens, 0, -1, 0)))
  {
    hide LsbBits, OrderBits, EncodeItems, Rle, Sendable, IsCode;
  }

  // ---------- where a block ends, and its sizes ----------

  function Matches(ts: seq<Token>): nat
  {
    if ts == [] then 0 else (if ts[0].Match? then 1 else 0) + Matches(ts[1..])
  }

  /** The extra bits of all distances. */
  function Extras(ts: seq<Token>): nat
    requires InRange(ts)
  {
    if ts == [] then 0
    else (if ts[0].Match? then DIST_EXTRA[DistCode(ts[0].distance)] else 0) + Extras(ts[1..])
  }

  lemma {:induction false} MatchesLast(ts: seq<Token>)
    requires InRange(ts) && ts != []
    ensures var n := |ts| - 1;
      Matches(ts) == Matches(ts[..n]) + (if ts[n].Match? then 1 else 0)
      && Extras(ts) == Extras(ts[..n]) + if ts[n].Match? then DIST_EXTRA[DistCode(ts[n].distance)] else 0
  {
    var n := |ts| - 1;
    if n > 0 {
      MatchesLast(ts[1..]);
      assert ts[1..][..n - 1] == ts[..n][1..];
    } else {
      assert ts[..0] == [] == ts[1..];
    }
  }

  lemma {:induction false} GuessOf(ts: seq<Token>)
    requires InRange(ts)
    ensures |Dists(ts)| == Matches(ts) && Guess(ts) == 8 * |ts| + 5 * Matches(ts) + Extras(ts)
  {
    if ts != [] {
      hide DistCode;
      MatchesLast(ts);
      GuessOf(ts[..|ts| - 1]);
    }
  }

  /** A block ends behind 8191 tokens or 8192 matches; and behind a multiple of 4096 tokens if less
      than half of them are matches and eight bits a token, with five and the extra bits for each
      distance, are less than half the input of the block. */
  lemma BlockEnds(ts: seq<Token>, inLength: nat)
    requires InRange(ts)
    ensures Full(ts) || WorthEnding(ts, inLength) <==>
      |ts| == 8191 || Matches(ts) == 8192
      || (|ts| % 4096 == 0 && Matches(ts) < |ts| / 2 && (8 * |ts| + 5 * Matches(ts) + Extras(ts)) / 8 < inLength / 2)
  {
    GuessOf(ts);
  }

  /** A block is stored if its bytes are there and they and four more are no more than with either
      trees; else the static trees are used unless the others are shorter in bytes. */
  lemma KindIs(kind: nat, plan: Plan, ts: seq<Token>, storedLen: nat, available: bool)
    requires Planned(plan, ts) && BestEncoding(kind, plan, ts, storedLen, available)
    ensures var dynamic := (|DynamicBits(plan, ts)| + 10) / 8; var static_ := (|StaticBits(plan, ts)| + 10) / 8;
      && (kind == 0 <==> available && storedLen + 4 <= dynamic && storedLen + 4 <= static_)
      && (kind == 1 <==> kind != 0 && static_ <= dynamic) && (kind == 2 <==> kind != 0 && dynamic < static_)
  {
    hide Planned;
  }

  /** Codes have up to 15 bits, those of the code lengths up to seven: as many as three bits say. */
  lemma LimitsAre()
    ensures LDesc().maxLength == DDesc().maxLength == 15 && MAX_BL_BITS == 7
    ensures LDesc().elems == 286 && DDesc().elems == 30 && BL_CODES == 19
  {
  }
}
