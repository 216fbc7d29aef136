/** What a decoder makes of one block of each type (section 3.2.3 of RFC 1951). */
module BlockFormat {
  import opened Bits
  import opened Canonical
  import opened Inflate
  import opened PrefixCodes
  import opened TreeHeader
  import opened Tokens

  /** Whatever follows, a decoder that has made out of before goes on to make out'
      of after, and stops there if the block was the final one. */
  ghost predicate Decodes(before: seq<bool>, after: seq<bool>, final: bool, out: seq<byte>, out': seq<byte>)
  {
    && before <= after
    && forall s: seq<bool> {:trigger InflateFrom(s, |before|, out)} :: after <= s ==>
         InflateFrom(s, |before|, out) == if final then Next(out', |after|) else InflateFrom(s, |after|, out')
  }

  lemma PrefixAt(before: seq<bool>, e: seq<bool>, s: seq<bool>)
    requires before + e <= s
    ensures At(s, |before|, e)
  {
    assert s[..|before + e|] == before + e;
    assert s[|before|..|before| + |e|] == s[..|before + e|][|before|..];
  }

  const STORED_BLOCK: nat := 0
  const STATIC_TREES: nat := 1
  const DYN_TREES: nat := 2

  /** The three bits before a block. */
  function TypeBits(kind: nat, final: bool): (b: seq<bool>)
    ensures |b| == 3
  {
    LsbBits(2 * kind + (if final then 1 else 0), 3)
  }

  lemma TypeRead(s: seq<bool>, p: nat, kind: nat, final: bool)
    requires kind < 3 && At(s, p, TypeBits(kind, final))
    ensures p + 3 <= |s| && s[p] == final && BitsValue(s[p + 1..p + 3]) == kind
  {
    var v := 2 * kind + (if final then 1 else 0);
    assert v / 2 == kind && v % 2 == (if final then 1 else 0);
    assert LsbBits(v, 3) == [final] + LsbBits(kind, 2);
    AtConcat(s, p, [final], LsbBits(kind, 2));
    assert s[p..p + 1] == [final];
    assert s[p] == s[p..p + 1][0];
    Pow2Values();
    ValueOfLsbBits(kind, 2);
  }

  /** A block that reads well carries the decoder on, or ends its work. */
  lemma BlockRead(s: seq<bool>, p: nat, kind: nat, final: bool, out: seq<byte>, out': seq<byte>, q: nat)
    requires kind < 3 && At(s, p, TypeBits(kind, final)) && p + 3 <= q
    requires InflateBlock(kind, s, p + 3, out) == Next(out', q)
    ensures InflateFrom(s, p, out) == if final then Next(out', q) else InflateFrom(s, q, out')
  {
    hide InflateBlock, TypeBits;
    TypeRead(s, p, kind, final);
  }

  // ---------- stored blocks ----------

  lemma {:induction false} ReadsBytes(s: seq<bool>, p: nat, data: seq<byte>)
    requires At(s, p, BytesToBits(data))
    ensures ReadBytes(s, p, |data|) == Next(data, p + 8 * |data|)
    decreases |data|
  {
    hide LsbBits, BitsValue;
    if data != [] {
      AtConcat(s, p, LsbBits(data[0], 8), BytesToBits(data[1..]));
      Pow2Values();
      ValueOfLsbBits(data[0], 8);
      ReadsBytes(s, p + 8, data[1..]);
      assert [data[0]] + data[1..] == data;
    }
  }

  /** Length, its complement and the bytes themselves. */
  function StoredBits(data: seq<byte>): (b: seq<bool>)
    requires |data| <= 0xffff
    ensures |b| == 32 + 8 * |data|
  {
    LsbBits(|data|, 16) + LsbBits(0xffff - |data|, 16) + BytesToBits(data)
  }

  lemma ReadsStored(s: seq<bool>, p: nat, data: seq<byte>, out: seq<byte>)
    requires |data| <= 0xffff && At(s, Align(p), StoredBits(data))
    ensures InflateBlock(STORED_BLOCK, s, p, out) == Next(out + data, Align(p) + 32 + 8 * |data|)
  {
    hide LsbBits, BytesToBits, ReadBits, ReadBytes, Align;
    Pow2Values();
    var a, b := LsbBits(|data|, 16), LsbBits(0xffff - |data|, 16);
    AtConcat(s, Align(p), a + b, BytesToBits(data));
    AtConcat(s, Align(p), a, b);
    ReadsNumber(s, Align(p), |data|, 16);
    ReadsNumber(s, Align(p) + 16, 0xffff - |data|, 16);
    ReadsBytes(s, Align(p) + 32, data);
  }

  lemma StoredBlock(before: seq<bool>, padded: seq<bool>, data: seq<byte>, final: bool, out: seq<byte>)
    requires |data| <= 0xffff
    requires before + TypeBits(STORED_BLOCK, final) <= padded && |padded| == Align(|before| + 3)
    ensures Decodes(before, padded + StoredBits(data), final, out, out + data)
  {
    hide TypeBits, StoredBits, InflateBlock, InflateFrom, Align;
    var after := padded + StoredBits(data);
    forall s: seq<bool> | after <= s
      ensures InflateFrom(s, |before|, out) == if final then Next(out + data, |after|) else InflateFrom(s, |after|, out + data)
    {
      PrefixAt(padded, StoredBits(data), s);
      PrefixAt(before, TypeBits(STORED_BLOCK, final), s);
      ReadsStored(s, |before| + 3, data, out);
      BlockRead(s, |before|, STORED_BLOCK, final, out, out + data, |after|);
    }
  }

  // ---------- compressed blocks ----------

  /** The codes have a codeword for everything in the block. */
  ghost predicate CodesBlock(llens: seq<nat>, dlens: seq<nat>, ts: seq<Token>)
  {
    && IsCode(llens, MAX_BITS) && IsCode(dlens, MAX_BITS) && AllCoded(llens, dlens, ts)
    && END_BLOCK < |llens| && llens[END_BLOCK] > 0
  }

  /** The tokens and the end of the block. */
  ghost function DataBits(llens: seq<nat>, dlens: seq<nat>, ts: seq<Token>): seq<bool>
    requires CodesBlock(llens, dlens, ts)
  {
    EncodeTokens(llens, dlens, ts) + Codeword(llens, END_BLOCK)
  }

  lemma ReadsData(llens: seq<nat>, dlens: seq<nat>, s: seq<bool>, p: nat, out: seq<byte>, ts: seq<Token>)
    requires CodesBlock(llens, dlens, ts) && WellFormed(out, ts) && At(s, p, DataBits(llens, dlens, ts))
    ensures InflateData(llens, dlens, s, p, out) == Next(ApplyAll(out, ts), p + |DataBits(llens, dlens, ts)|)
  {
    hide EncodeTokens, IsCode, AllCoded, InflateData, WellFormed, ApplyAll, Codeword;
    AtConcat(s, p, EncodeTokens(llens, dlens, ts), Codeword(llens, END_BLOCK));
    ReadsTokens(llens, dlens, s, p, out, ts);
  }

  lemma FixedBlock(before: seq<bool>, ts: seq<Token>, final: bool, out: seq<byte>)
    requires CodesBlock(FixedLiteralLengths(), FixedDistanceLengths(), ts) && WellFormed(out, ts)
    ensures Decodes(before, before + TypeBits(STATIC_TREES, final) + DataBits(FixedLiteralLengths(), FixedDistanceLengths(), ts),
                    final, out, ApplyAll(out, ts))
  {
    hide CodesBlock, DataBits, TypeBits, InflateFrom, WellFormed, ApplyAll, FixedLiteralLengths, FixedDistanceLengths, InflateData;
    var bits := DataBits(FixedLiteralLengths(), FixedDistanceLengths(), ts);
    var start := before + TypeBits(STATIC_TREES, final);
    var after := start + bits;
    forall s: seq<bool> | after <= s
      ensures InflateFrom(s, |before|, out)
           == if final then Next(ApplyAll(out, ts), |after|) else InflateFrom(s, |after|, ApplyAll(out, ts))
    {
      PrefixAt(start, bits, s);
      PrefixAt(before, TypeBits(STATIC_TREES, final), s);
      ReadsData(FixedLiteralLengths(), FixedDistanceLengths(), s, |before| + 3, out, ts);
      BlockRead(s, |before|, STATIC_TREES, final, out, ApplyAll(out, ts), |after|);
    }
  }

  lemma DynamicBlock(before: seq<bool>, llens: seq<nat>, dlens: seq<nat>, clens: seq<nat>, n: nat, ts: seq<Token>,
                     final: bool, out: seq<byte>)
    requires HeaderOk(llens, dlens, clens, n) && CodesBlock(llens, dlens, ts) && WellFormed(out, ts)
    ensures Decodes(before, before + TypeBits(DYN_TREES, final) + HeaderBits(llens, dlens, clens, n) + DataBits(llens, dlens, ts),
                    final, out, ApplyAll(out, ts))
  {
    hide CodesBlock, DataBits, TypeBits, InflateFrom, WellFormed, ApplyAll, HeaderOk, HeaderBits, ReadTrees, InflateData;
    var head, bits := HeaderBits(llens, dlens, clens, n), DataBits(llens, dlens, ts);
    var start := before + TypeBits(DYN_TREES, final);
    var after := start + head + bits;
    forall s: seq<bool> | after <= s
      ensures InflateFrom(s, |before|, out)
           == if final then Next(ApplyAll(out, ts), |after|) else InflateFrom(s, |after|, ApplyAll(out, ts))
    {
      PrefixAt(start + head, bits, s);
      PrefixAt(start, head, s);
      PrefixAt(before, TypeBits(DYN_TREES, final), s);
      ReadsHeader(llens, dlens, clens, n, s, |before| + 3);
      ReadsData(llens, dlens, s, |before| + 3 + |head|, out, ts);
      BlockRead(s, |before|, DYN_TREES, final, out, ApplyAll(out, ts), |after|);
    }
  }

  /** Blocks in a row decode as one stretch. */
  lemma DecodesChain(a: seq<bool>, b: seq<bool>, c: seq<bool>, final: bool, x: seq<byte>, y: seq<byte>, z: seq<byte>)
    requires Decodes(a, b, false, x, y) && Decodes(b, c, final, y, z)
    ensures Decodes(a, c, final, x, z)
  {
    hide InflateFrom;
    forall s: seq<bool> | c <= s
      ensures InflateFrom(s, |a|, x) == if final then Next(z, |c|) else InflateFrom(s, |c|, z)
    {
      assert b <= s;
      assert InflateFrom(s, |a|, x) == InflateFrom(s, |b|, y);
    }
  }
}
