/** compress_block: send the tokens of a block with given codes. */
module CompressBlock {
  import opened Bits
  import opened Canonical
  import opened Inflate
  import opened GenCodes
  import opened BitWriting
  import opened RunLengths
  import opened Tokens
  import opened TokenStore
  import opened StaticTables
  import opened Blocks

  /** A tree holds the codes with these lengths, as far as it goes. */
  ghost predicate Holds(tree: seq<CtData>, lens: seq<nat>)
  {
    && (forall i :: 0 <= i < |lens| ==> lens[i] <= MAX_BITS)
    && (forall i :: 0 <= i < |lens| && i < |tree| ==> HasCode(tree, lens, i))
  }

  lemma HoldsEntry(tree: seq<CtData>, lens: seq<nat>, c: nat)
    requires Holds(tree, lens) && c < |tree| && c < |lens|
    ensures HasCode(tree, lens, c) && lens[c] <= MAX_BITS
  {
  }

  /** What the length tables say about one length. */
  lemma LengthEntry(lengthCode: seq<nat>, baseLength: seq<int>, lc: byte, c: nat)
    requires LengthTables(lengthCode, baseLength) && c == LengthCode(lc + 3)
    ensures |lengthCode| == 256 && lengthCode[lc] == c
    ensures c < |baseLength| == 29 && (c < 28 ==> baseLength[c] == LengthBaseOf(c))
  {
    hide LengthCode, LengthBaseOf;
    assert NormalLengthCode(lc) == c;
  }

  /** And the distance tables about one distance. */
  lemma DistEntry(distCode: seq<nat>, baseDist: seq<int>, dist: nat, c: nat)
    requires DistTables(distCode, baseDist) && dist < 0x8000 && c == DistCode(dist + 1)
    ensures |distCode| == 512 && DCode(distCode, dist) == c
    ensures c < |baseDist| == 30 && baseDist[c] == BaseOf(c)
  {
    hide DistCode, DCode, BaseOf;
    assert NormalDistCode(dist) == c;
  }

  /** What is left of a length above its code's base fits the extra bits. */
  lemma LengthRest(lc: byte, c: nat)
    requires c == LengthCode(lc + 3)
    ensures c <= 28 && LengthExtra(lc + 3) == lc - LengthBaseOf(c) < Pow2(LENGTH_EXTRA[c])
    ensures LENGTH_EXTRA[c] == 0 ==> LsbBits(LengthExtra(lc + 3), LENGTH_EXTRA[c]) == []
    ensures LENGTH_EXTRA[c] != 0 ==> c < 28 && LENGTH_EXTRA[c] <= 16
  {
    hide LengthCode, Pow2;
    LengthCovered(lc + 3);
  }

  lemma DistRest(dist: nat, c: nat)
    requires dist < 0x8000 && c == DistCode(dist + 1)
    ensures c <= 29 && DistExtra(dist + 1) == dist - BaseOf(c) < Pow2(DIST_EXTRA[c])
    ensures DIST_EXTRA[c] == 0 ==> LsbBits(DistExtra(dist + 1), DIST_EXTRA[c]) == []
    ensures DIST_EXTRA[c] <= 16
  {
    hide DistCode, Pow2;
    DistCovered(dist + 1);
  }

  /** Send the length of a match. */
  method SendLength(w: BitWriter, t: CodeTables, lc: byte, ltree: seq<CtData>, ghost llens: seq<nat>)
    requires w.Valid() && LengthTables(t.lengthCode, t.baseLength) && Holds(ltree, llens) && |ltree| >= L_CODES
    requires 257 + LengthCode(lc + 3) < |llens| && llens[257 + LengthCode(lc + 3)] > 0
    modifies w, w.outbuf
    ensures w.Valid()
    ensures w.sent == old(w.sent) + EncodeLength(llens, lc + 3)
  {
    hide LsbBits, Codeword, LengthCode, BitWriter.Valid, Holds, Pow2, HasCode, LengthTables, LengthExtra, LengthBaseOf;
    LengthEntry(t.lengthCode, t.baseLength, lc, LengthCode(lc + 3));
    var code := t.lengthCode[lc];
    LengthRest(lc, code);
    HoldsEntry(ltree, llens, code + LITERALS + 1);
    SendCode(w, ltree, code + LITERALS + 1, llens);
    var extra := LENGTH_EXTRA[code];
    if extra != 0 {
      w.SendBits(lc - t.baseLength[code], extra);
    }
  }

  /** The bits that a decoder reads as the distance dist + 1. */
  method SendDistance(w: BitWriter, t: CodeTables, dist: nat, dtree: seq<CtData>, ghost dlens: seq<nat>)
    requires w.Valid() && DistTables(t.distCode, t.baseDist) && Holds(dtree, dlens) && |dtree| >= D_CODES && dist < 0x8000
    requires DistCode(dist + 1) < |dlens| && dlens[DistCode(dist + 1)] > 0
    modifies w, w.outbuf
    ensures w.Valid()
    ensures w.sent == old(w.sent) + EncodeDistance(dlens, dist + 1)
  {
    hide LsbBits, Codeword, DistCode, BitWriter.Valid, Holds, Pow2, HasCode, DistTables, DCode, DistExtra, BaseOf;
    DistEntry(t.distCode, t.baseDist, dist, DistCode(dist + 1));
    var code := DCode(t.distCode, dist);
    DistRest(dist, code);
    HoldsEntry(dtree, dlens, code);
    SendCode(w, dtree, code, dlens);
    var extra := DIST_EXTRA[code];
    if extra != 0 {
      w.SendBits(dist - t.baseDist[code], extra);
    }
  }

  /** What compress_block needs of the buffers: the flags are all in flag_buf. */
  ghost predicate Closed(lBuf: seq<byte>, dBuf: seq<ush>, flagBuf: seq<byte>, lastLit: nat, ts: seq<Token>)
  {
    && |lBuf| == LIT_BUFSIZE && |dBuf| == DIST_BUFSIZE && |flagBuf| == LIT_BUFSIZE / 8
    && InRange(ts) && |ts| == lastLit < LIT_BUFSIZE && |Dists(ts)| <= DIST_BUFSIZE
    && (forall i :: 0 <= i < lastLit ==> lBuf[i] == LByte(ts[i]))
    && (forall i :: 0 <= i < |Dists(ts)| ==> dBuf[i] == Dists(ts)[i])
    && (forall i :: 0 <= i < lastLit ==> (Shr(flagBuf[i / 8], i % 8) % 2 == 1 <==> ts[i].Match?))
  }

  lemma StoredCloses(lBuf: seq<byte>, dBuf: seq<ush>, flagBuf: seq<byte>, lastLit: nat, lastDist: nat, lastFlags: nat,
                     flags: byte, flagBit: nat, ts: seq<Token>)
    requires Stored(lBuf, dBuf, flagBuf, lastLit, lastDist, lastFlags, flags, flagBit, ts)
    ensures lastFlags < |flagBuf| && Closed(lBuf, dBuf, flagBuf[lastFlags := flags], lastLit, ts)
  {
    forall i | 0 <= i < lastLit
      ensures Shr(flagBuf[lastFlags := flags][i / 8], i % 8) % 2 == 1 <==> ts[i].Match?
    {
      assert FlagOf(flagBuf, lastFlags, flags, i) <==> ts[i].Match?;
    }
  }

  /** What the buffers say about the next token. */
  lemma NextToken(lBuf: seq<byte>, dBuf: seq<ush>, flagBuf: seq<byte>, lastLit: nat, ts: seq<Token>, lx: nat, dx: nat)
    requires Closed(lBuf, dBuf, flagBuf, lastLit, ts) && lx < lastLit && dx == |Dists(ts[..lx])|
    ensures Shr(flagBuf[lx / 8], lx % 8) % 2 == 1 <==> ts[lx].Match?
    ensures lBuf[lx] == LByte(ts[lx])
    ensures ts[lx].Match? ==> dx < DIST_BUFSIZE && dBuf[dx] == ts[lx].distance - 1 < 0x8000
    ensures |Dists(ts[..lx + 1])| == dx + (if ts[lx].Match? then 1 else 0)
  {
    DistsPrefix(ts, lx);
    assert ts[..lx + 1] == ts[..lx] + [ts[lx]];
    DistsAppend(ts[..lx], ts[lx]);
  }

  lemma EncodeNext(llens: seq<nat>, dlens: seq<nat>, ts: seq<Token>, lx: nat)
    requires AllCoded(llens, dlens, ts) && lx < |ts|
    ensures AllCoded(llens, dlens, ts[..lx]) && AllCoded(llens, dlens, ts[..lx + 1]) && Coded(llens, dlens, ts[lx])
    ensures EncodeTokens(llens, dlens, ts[..lx + 1]) == EncodeTokens(llens, dlens, ts[..lx]) + EncodeToken(llens, dlens, ts[lx])
  {
    hide EncodeToken;
    assert ts[..lx + 1][..lx] == ts[..lx];
  }

  lemma NextFlag(flag: nat, b: nat, k: nat)
    requires flag == Shr(b, k)
    ensures flag / 2 == Shr(b, k + 1)
  {
    ShrStep(b, k);
  }

  /** All tokens in the buffers go out with these codes, and the end of the block. */
  method SendBlock(w: BitWriter, t: CodeTables, lBuf: array<byte>, dBuf: array<ush>, flagBuf: array<byte>, lastLit: nat,
                   ltree: seq<CtData>, dtree: seq<CtData>,
                   ghost ts: seq<Token>, ghost llens: seq<nat>, ghost dlens: seq<nat>)
    requires w.Valid() && t.Valid() && w.outbuf != lBuf && w.outbuf != flagBuf
    requires Closed(lBuf[..], dBuf[..], flagBuf[..], lastLit, ts)
    requires Holds(ltree, llens) && Holds(dtree, dlens) && |ltree| >= L_CODES && |dtree| >= D_CODES
    requires AllCoded(llens, dlens, ts) && END_BLOCK < |llens| && llens[END_BLOCK] > 0
    modifies w, w.outbuf
    ensures w.Valid()
    ensures w.sent == old(w.sent) + EncodeTokens(llens, dlens, ts) + Codeword(llens, END_BLOCK)
  {
    hide Closed, Holds, CodeTables.Valid, BitWriter.Valid, EncodeTokens, EncodeToken, Coded, AllCoded, Shr, Codeword;
    ghost var l, d, f := lBuf[..], dBuf[..], flagBuf[..];
    var lx, dx, fx := 0, 0, 0;
    var flag: nat := 0;
    SentNone(llens, dlens, ts, l, d, f, lastLit);
    while lx < lastLit
      invariant 0 <= lx <= lastLit == |ts| && lastLit < LIT_BUFSIZE && w.Valid()
      invariant lBuf[..] == l && dBuf[..] == d && flagBuf[..] == f
      invariant |l| == LIT_BUFSIZE && |d| == DIST_BUFSIZE && |f| == LIT_BUFSIZE / 8
      invariant dx == |Dists(ts[..lx])|
      invariant fx == (lx + 7) / 8 && (lx % 8 != 0 ==> flag == Shr(f[lx / 8], lx % 8))
      invariant AllCoded(llens, dlens, ts[..lx])
      invariant w.sent == old(w.sent) + EncodeTokens(llens, dlens, ts[..lx])
    {
      NextToken(l, d, f, lastLit, ts, lx, dx);
      EncodeNext(llens, dlens, ts, lx);
      if lx % 8 == 0 {
        flag := flagBuf[fx];
        fx := fx + 1;
        ShrZero(flag);
      }
      NextFlag(flag, f[lx / 8], lx % 8);
      var lc := lBuf[lx];
      if flag % 2 == 0 {
        SendLiteral(w, ltree, lc, llens, dlens, ts[lx]);
      } else {
        SendMatch(w, t, lc, dBuf[dx], ltree, dtree, llens, dlens, ts[lx]);
        dx := dx + 1;
      }
      lx := lx + 1;
      flag := flag / 2;
    }
    assert ts[..lastLit] == ts;
    HoldsEntry(ltree, llens, END_BLOCK);
    SendCode(w, ltree, END_BLOCK, llens);
  }

  lemma SentNone(llens: seq<nat>, dlens: seq<nat>, ts: seq<Token>, l: seq<byte>, d: seq<ush>, f: seq<byte>, lastLit: nat)
    requires Closed(l, d, f, lastLit, ts)
    ensures AllCoded(llens, dlens, ts[..0]) && EncodeTokens(llens, dlens, ts[..0]) == [] && Dists(ts[..0]) == []
    ensures |l| == LIT_BUFSIZE && |d| == DIST_BUFSIZE && |f| == LIT_BUFSIZE / 8 && |ts| == lastLit < LIT_BUFSIZE
  {
  }

  method SendLiteral(w: BitWriter, ltree: seq<CtData>, lc: byte, ghost llens: seq<nat>, ghost dlens: seq<nat>, ghost t: Token)
    requires w.Valid() && Holds(ltree, llens) && |ltree| >= L_CODES
    requires t.Literal? && LByte(t) == lc && Coded(llens, dlens, t)
    modifies w, w.outbuf
    ensures w.Valid()
    ensures w.sent == old(w.sent) + EncodeToken(llens, dlens, t)
  {
    HoldsEntry(ltree, llens, lc);
    SendCode(w, ltree, lc, llens);
  }

  method SendMatch(w: BitWriter, tables: CodeTables, lc: byte, dist: nat, ltree: seq<CtData>, dtree: seq<CtData>,
                   ghost llens: seq<nat>, ghost dlens: seq<nat>, ghost t: Token)
    requires w.Valid() && tables.Valid() && Holds(ltree, llens) && Holds(dtree, dlens)
    requires |ltree| >= L_CODES && |dtree| >= D_CODES
    requires t.Match? && LByte(t) == lc && dist == t.distance - 1 && dist < 0x8000 && Coded(llens, dlens, t)
    modifies w, w.outbuf
    ensures w.Valid()
    ensures w.sent == old(w.sent) + EncodeToken(llens, dlens, t)
  {
    hide EncodeLength, EncodeDistance, BitWriter.Valid, Holds, LengthTables, DistTables, HasCodes, HasCode, LengthCode,
      DistCode, Coded, EncodeToken, LByte;
    MatchParts(w.sent, llens, dlens, t, lc, dist);
    SendLength(w, tables, lc, ltree, llens);
    SendDistance(w, tables, dist, dtree, dlens);
  }

  /** A match is sent as its length, then its distance. */
  lemma MatchParts(sent: seq<bool>, llens: seq<nat>, dlens: seq<nat>, t: Token, lc: byte, dist: nat)
    requires t.Match? && LByte(t) == lc && dist == t.distance - 1 && Coded(llens, dlens, t)
    ensures 257 + LengthCode(lc + 3) < |llens| && llens[257 + LengthCode(lc + 3)] > 0
    ensures DistCode(dist + 1) < |dlens| && dlens[DistCode(dist + 1)] > 0
    ensures sent + EncodeToken(llens, dlens, t) == sent + EncodeLength(llens, lc + 3) + EncodeDistance(dlens, dist + 1)
  {
    hide EncodeLength, EncodeDistance, LengthCode, DistCode;
    assert t.length == lc + 3;
  }
}
