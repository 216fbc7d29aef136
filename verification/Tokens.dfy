/** Literals and matches, what they expand to, and how they are coded with given
    code lengths (sections 3.2.3 and 3.2.5 of RFC 1951). */
module Tokens {
  import opened Bits
  import opened Canonical
  import opened PrefixCodes
  import opened Inflate

  datatype Token = Literal(value: byte) | Match(length: nat, distance: nat)

  const MIN_MATCH: nat := 3
  const MAX_MATCH: nat := 258
  const END_BLOCK: nat := 256

  /** A token that can stand after n bytes of output. */
  ghost predicate Fits(t: Token, n: nat)
  {
    t.Match? ==> MIN_MATCH <= t.length <= MAX_MATCH && 1 <= t.distance <= n && t.distance <= 0x8000
  }

  function Apply(out: seq<byte>, t: Token): seq<byte>
    requires Fits(t, |out|)
  {
    match t
    case Literal(b) => out + [b]
    case Match(l, d) => CopyMatch(out, l, d)
  }

  /** Every token fits where it stands, the first one after out. */
  ghost predicate WellFormed(out: seq<byte>, ts: seq<Token>)
    decreases |ts|, 0
  {
    ts == [] ||
    var n := |ts| - 1;
    WellFormed(out, ts[..n]) && Fits(ts[n], |ApplyAll(out, ts[..n])|)
  }

  /** The bytes that the tokens stand for, appended to out. */
  ghost function ApplyAll(out: seq<byte>, ts: seq<Token>): seq<byte>
    requires WellFormed(out, ts)
    decreases |ts|, 1
  {
    if ts == [] then out else Apply(ApplyAll(out, ts[..|ts| - 1]), ts[|ts| - 1])
  }

  lemma ApplySnoc(out: seq<byte>, ts: seq<Token>, t: Token)
    requires WellFormed(out, ts) && Fits(t, |ApplyAll(out, ts)|)
    ensures WellFormed(out, ts + [t]) && ApplyAll(out, ts + [t]) == Apply(ApplyAll(out, ts), t)
  {
    assert (ts + [t])[..|ts|] == ts;
  }

  lemma {:induction false} ApplyFirst(out: seq<byte>, ts: seq<Token>)
    requires WellFormed(out, ts) && ts != []
    ensures Fits(ts[0], |out|) && WellFormed(Apply(out, ts[0]), ts[1..])
    ensures ApplyAll(out, ts) == ApplyAll(Apply(out, ts[0]), ts[1..])
  {
    var n := |ts| - 1;
    if n == 0 {
      assert ts[..0] == [] && ts[1..] == [];
    } else {
      var front := ts[..n];
      ApplyFirst(out, front);
      assert front[1..] == ts[1..][..n - 1];
      ApplySnoc(Apply(out, ts[0]), front[1..], ts[n]);
      assert ts[1..] == front[1..] + [ts[n]];
    }
  }

  /** The length code of section 3.2.5, an index into LENGTH_BASE; 258 has a code of
      its own. */
  function LengthCodeFrom(length: nat, c: nat): (r: nat)
    requires c <= 27
    ensures c <= r <= 27
    decreases 27 - c
  {
    if c == 27 || length < LENGTH_BASE[c + 1] then c else LengthCodeFrom(length, c + 1)
  }

  function LengthCode(length: nat): (r: nat)
    ensures r <= 28
  {
    if length == MAX_MATCH then 28 else LengthCodeFrom(length, 0)
  }

  function DistCodeFrom(distance: nat, c: nat): (r: nat)
    requires c <= 29
    ensures c <= r <= 29
    decreases 29 - c
  {
    if c == 29 || distance < DIST_BASE[c + 1] then c else DistCodeFrom(distance, c + 1)
  }

  function DistCode(distance: nat): (r: nat)
    ensures r <= 29
  {
    DistCodeFrom(distance, 0)
  }

  /** Each length code covers 2^extra lengths, up to where the next one starts. */
  lemma LengthSpans(c: nat)
    requires c <= 27
    ensures LENGTH_BASE[c] + Pow2(LENGTH_EXTRA[c]) == if c < 27 then LENGTH_BASE[c + 1] else 259
    ensures c < 27 ==> LENGTH_BASE[c] < LENGTH_BASE[c + 1]
  {
    Pow2Values();
    assert Pow2(0) == 1;
    hide Pow2;
    var e := LENGTH_EXTRA[c];
    assert e <= 5;
  }

  lemma DistSpans(c: nat)
    requires c <= 29
    ensures DIST_BASE[c] + Pow2(DIST_EXTRA[c]) == if c < 29 then DIST_BASE[c + 1] else 0x8001
    ensures c < 29 ==> DIST_BASE[c] < DIST_BASE[c + 1]
  {
    Pow2Values();
    assert Pow2(0) == 1;
    hide Pow2;
    var e := DIST_EXTRA[c];
    assert e <= 13;
  }

  lemma {:induction false} LengthCodeFinds(length: nat, c: nat)
    requires c <= 27 && LENGTH_BASE[c] <= length <= MAX_MATCH
    ensures var r := LengthCodeFrom(length, c);
            LENGTH_BASE[r] <= length < LENGTH_BASE[r] + Pow2(LENGTH_EXTRA[r])
    decreases 27 - c
  {
    LengthSpans(c);
    if c < 27 && length >= LENGTH_BASE[c + 1] {
      LengthCodeFinds(length, c + 1);
    }
  }

  /** The code of a length and its extra bits determine it. */
  lemma LengthCovered(length: nat)
    requires MIN_MATCH <= length <= MAX_MATCH
    ensures var c := LengthCode(length);
            LENGTH_BASE[c] <= length < LENGTH_BASE[c] + Pow2(LENGTH_EXTRA[c])
  {
    if length != MAX_MATCH {
      LengthCodeFinds(length, 0);
    }
  }

  lemma {:induction false} DistCodeFinds(distance: nat, c: nat)
    requires c <= 29 && DIST_BASE[c] <= distance <= 0x8000
    ensures var r := DistCodeFrom(distance, c);
            DIST_BASE[r] <= distance < DIST_BASE[r] + Pow2(DIST_EXTRA[r])
    decreases 29 - c
  {
    DistSpans(c);
    if c < 29 && distance >= DIST_BASE[c + 1] {
      DistCodeFinds(distance, c + 1);
    }
  }

  lemma DistCovered(distance: nat)
    requires 1 <= distance <= 0x8000
    ensures var c := DistCode(distance);
            DIST_BASE[c] <= distance < DIST_BASE[c] + Pow2(DIST_EXTRA[c])
  {
    DistCodeFinds(distance, 0);
  }

  /** The literal/length symbol of a token. */
  function Symbol(t: Token): (s: nat)
    ensures s <= 285
  {
    match t
    case Literal(b) => b
    case Match(l, _) => 257 + LengthCode(l)
  }

  /** The codes have room for all symbols of the token. */
  ghost predicate Coded(llens: seq<nat>, dlens: seq<nat>, t: Token)
  {
    && Symbol(t) < |llens| && llens[Symbol(t)] > 0
    && (t.Match? ==>
          && MIN_MATCH <= t.length <= MAX_MATCH && 1 <= t.distance <= 0x8000
          && DistCode(t.distance) < |dlens| && dlens[DistCode(t.distance)] > 0)
  }

  ghost predicate AllCoded(llens: seq<nat>, dlens: seq<nat>, ts: seq<Token>)
  {
    forall i :: 0 <= i < |ts| ==> Coded(llens, dlens, ts[i])
  }

  /** The numbers that follow the symbols of a match. */
  function LengthExtra(length: nat): nat
    requires MIN_MATCH <= length <= MAX_MATCH
  {
    LengthCovered(length);
    length - LENGTH_BASE[LengthCode(length)]
  }

  function DistExtra(distance: nat): nat
    requires 1 <= distance <= 0x8000
  {
    DistCovered(distance);
    distance - DIST_BASE[DistCode(distance)]
  }

  /** The length and distance parts of a match. */
  function EncodeLength(llens: seq<nat>, length: nat): seq<bool>
    requires MIN_MATCH <= length <= MAX_MATCH && 257 + LengthCode(length) < |llens|
  {
    Codeword(llens, 257 + LengthCode(length)) + LsbBits(LengthExtra(length), LENGTH_EXTRA[LengthCode(length)])
  }

  function EncodeDistance(dlens: seq<nat>, distance: nat): seq<bool>
    requires 1 <= distance <= 0x8000 && DistCode(distance) < |dlens|
  {
    Codeword(dlens, DistCode(distance)) + LsbBits(DistExtra(distance), DIST_EXTRA[DistCode(distance)])
  }

  ghost function EncodeToken(llens: seq<nat>, dlens: seq<nat>, t: Token): seq<bool>
    requires Coded(llens, dlens, t)
  {
    match t
    case Literal(b) => Codeword(llens, b)
    case Match(l, d) => EncodeLength(llens, l) + EncodeDistance(dlens, d)
  }

  ghost function EncodeTokens(llens: seq<nat>, dlens: seq<nat>, ts: seq<Token>): seq<bool>
    requires AllCoded(llens, dlens, ts)
  {
    if ts == [] then []
    else EncodeTokens(llens, dlens, ts[..|ts| - 1]) + EncodeToken(llens, dlens, ts[|ts| - 1])
  }

  lemma {:induction false} EncodeFirst(llens: seq<nat>, dlens: seq<nat>, ts: seq<Token>)
    requires AllCoded(llens, dlens, ts) && ts != []
    ensures AllCoded(llens, dlens, ts[1..])
    ensures EncodeTokens(llens, dlens, ts) == EncodeToken(llens, dlens, ts[0]) + EncodeTokens(llens, dlens, ts[1..])
  {
    hide EncodeToken;
    var n := |ts| - 1;
    if n == 0 {
      assert ts[..0] == [] && ts[1..] == [];
    } else {
      var front := ts[..n];
      EncodeFirst(llens, dlens, front);
      assert ts[1..][..n - 1] == front[1..];
      var a, b, c := EncodeToken(llens, dlens, ts[0]), EncodeTokens(llens, dlens, front[1..]), EncodeToken(llens, dlens, ts[n]);
      assert (a + b) + c == a + (b + c);
    }
  }

  /** The decoder reads back a literal. */
  lemma {:induction false} ReadsLiteral(llens: seq<nat>, dlens: seq<nat>, s: seq<bool>, p: nat, out: seq<byte>, b: byte)
    requires IsCode(llens, MAX_BITS) && Coded(llens, dlens, Literal(b))
    requires At(s, p, Codeword(llens, b))
    ensures InflateData(llens, dlens, s, p, out) == InflateData(llens, dlens, s, p + llens[b], out + [b])
  {
    hide Codeword, ReadSymbol, IsCode;
    ReadsSymbol(llens, MAX_BITS, s, p, b);
  }

  lemma {:induction false} ReadsLength(llens: seq<nat>, s: seq<bool>, p: nat, length: nat)
    requires IsCode(llens, MAX_BITS) && MIN_MATCH <= length <= MAX_MATCH
    requires 257 + LengthCode(length) < |llens| && llens[257 + LengthCode(length)] > 0
    requires At(s, p, EncodeLength(llens, length))
    ensures var c := LengthCode(length);
            && ReadSymbol(llens, s, p) == Next(257 + c, p + llens[257 + c])
            && ReadBits(s, p + llens[257 + c], LENGTH_EXTRA[c])
                 == Next(length - LENGTH_BASE[c], p + |EncodeLength(llens, length)|)
  {
    var c := LengthCode(length);
    hide Codeword, ReadSymbol, ReadBits, IsCode, LsbBits, LengthCode;
    LengthCovered(length);
    AtConcat(s, p, Codeword(llens, 257 + c), LsbBits(LengthExtra(length), LENGTH_EXTRA[c]));
    ReadsSymbol(llens, MAX_BITS, s, p, 257 + c);
    ReadsNumber(s, p + llens[257 + c], LengthExtra(length), LENGTH_EXTRA[c]);
  }

  lemma {:induction false} ReadsDistance(dlens: seq<nat>, s: seq<bool>, p: nat, distance: nat)
    requires IsCode(dlens, MAX_BITS) && 1 <= distance <= 0x8000
    requires DistCode(distance) < |dlens| && dlens[DistCode(distance)] > 0
    requires At(s, p, EncodeDistance(dlens, distance))
    ensures var c := DistCode(distance);
            && ReadSymbol(dlens, s, p) == Next(c, p + dlens[c])
            && ReadBits(s, p + dlens[c], DIST_EXTRA[c])
                 == Next(distance - DIST_BASE[c], p + |EncodeDistance(dlens, distance)|)
  {
    var c := DistCode(distance);
    hide Codeword, ReadSymbol, ReadBits, IsCode, LsbBits, DistCode;
    DistCovered(distance);
    AtConcat(s, p, Codeword(dlens, c), LsbBits(DistExtra(distance), DIST_EXTRA[c]));
    ReadsSymbol(dlens, MAX_BITS, s, p, c);
    ReadsNumber(s, p + dlens[c], DistExtra(distance), DIST_EXTRA[c]);
  }

  /** What the decoder does with the four parts of a match. */
  lemma InflateMatch(llens: seq<nat>, dlens: seq<nat>, s: seq<bool>, p: nat, out: seq<byte>,
                     c: nat, p1: nat, lx: nat, p2: nat, dc: nat, p3: nat, dx: nat, p4: nat)
    requires c <= 28 && dc <= 29
    requires ReadSymbol(llens, s, p) == Next(257 + c, p1) && ReadBits(s, p1, LENGTH_EXTRA[c]) == Next(lx, p2)
    requires ReadSymbol(dlens, s, p2) == Next(dc, p3) && ReadBits(s, p3, DIST_EXTRA[dc]) == Next(dx, p4)
    requires 1 <= DIST_BASE[dc] + dx <= |out|
    ensures InflateData(llens, dlens, s, p, out)
         == InflateData(llens, dlens, s, p4, CopyMatch(out, LENGTH_BASE[c] + lx, DIST_BASE[dc] + dx))
  {
    hide ReadSymbol, ReadBits, CopyMatch;
  }

  /** The decoder reads back a match. */
  lemma {:induction false} ReadsMatch(llens: seq<nat>, dlens: seq<nat>, s: seq<bool>, p: nat, out: seq<byte>, l: nat, d: nat)
    requires IsCode(llens, MAX_BITS) && IsCode(dlens, MAX_BITS) && Coded(llens, dlens, Match(l, d))
    requires Fits(Match(l, d), |out|)
    requires At(s, p, EncodeToken(llens, dlens, Match(l, d)))
    ensures InflateData(llens, dlens, s, p, out)
         == InflateData(llens, dlens, s, p + |EncodeToken(llens, dlens, Match(l, d))|, CopyMatch(out, l, d))
  {
    hide EncodeLength, EncodeDistance, EncodeToken, IsCode, LengthCode, DistCode, CopyMatch, InflateData, Coded, At;
    MatchParts(llens, dlens, l, d);
    AtConcat(s, p, EncodeLength(llens, l), EncodeDistance(dlens, d));
    ReadsBoth(llens, dlens, s, p, out, l, d);
  }

  lemma LiteralPart(llens: seq<nat>, dlens: seq<nat>, b: byte)
    requires Coded(llens, dlens, Literal(b))
    ensures b < |llens| && llens[b] > 0 && EncodeToken(llens, dlens, Literal(b)) == Codeword(llens, b)
  {
  }

  lemma MatchParts(llens: seq<nat>, dlens: seq<nat>, l: nat, d: nat)
    requires Coded(llens, dlens, Match(l, d))
    ensures MIN_MATCH <= l <= MAX_MATCH && 257 + LengthCode(l) < |llens| && llens[257 + LengthCode(l)] > 0
    ensures 1 <= d <= 0x8000 && DistCode(d) < |dlens| && dlens[DistCode(d)] > 0
    ensures EncodeToken(llens, dlens, Match(l, d)) == EncodeLength(llens, l) + EncodeDistance(dlens, d)
  {
    hide EncodeLength, EncodeDistance, LengthCode, DistCode;
  }

  lemma {:induction false} ReadsBoth(llens: seq<nat>, dlens: seq<nat>, s: seq<bool>, p: nat, out: seq<byte>, l: nat, d: nat)
    requires IsCode(llens, MAX_BITS) && IsCode(dlens, MAX_BITS)
    requires MIN_MATCH <= l <= MAX_MATCH && 257 + LengthCode(l) < |llens| && llens[257 + LengthCode(l)] > 0
    requires 1 <= d <= 0x8000 && DistCode(d) < |dlens| && dlens[DistCode(d)] > 0 && d <= |out|
    requires At(s, p, EncodeLength(llens, l)) && At(s, p + |EncodeLength(llens, l)|, EncodeDistance(dlens, d))
    ensures InflateData(llens, dlens, s, p, out)
         == InflateData(llens, dlens, s, p + |EncodeLength(llens, l)| + |EncodeDistance(dlens, d)|, CopyMatch(out, l, d))
  {
    hide EncodeLength, EncodeDistance, ReadSymbol, ReadBits, IsCode, LengthCode, DistCode, CopyMatch, InflateData, At;
    var c, dc := LengthCode(l), DistCode(d);
    ReadsLength(llens, s, p, l);
    LengthCovered(l);
    var p2 := p + |EncodeLength(llens, l)|;
    ReadsDistance(dlens, s, p2, d);
    DistCovered(d);
    InflateMatch(llens, dlens, s, p, out, c, p + llens[257 + c], l - LENGTH_BASE[c], p2,
                 dc, p2 + dlens[dc], d - DIST_BASE[dc], p2 + |EncodeDistance(dlens, d)|);
  }

  lemma NoTokens(out: seq<byte>)
    ensures WellFormed(out, []) && ApplyAll(out, []) == out && forall llens, dlens :: EncodeTokens(llens, dlens, []) == []
  {
  }

  lemma {:induction false} ReadsEnd(llens: seq<nat>, dlens: seq<nat>, s: seq<bool>, p: nat, out: seq<byte>)
    requires IsCode(llens, MAX_BITS) && END_BLOCK < |llens| && llens[END_BLOCK] > 0
    requires At(s, p, Codeword(llens, END_BLOCK))
    ensures InflateData(llens, dlens, s, p, out) == Next(out, p + llens[END_BLOCK])
  {
    hide Codeword, ReadSymbol, IsCode;
    ReadsSymbol(llens, MAX_BITS, s, p, END_BLOCK);
  }

  /** The decoder reads back a whole block: its tokens and the end-of-block code. */
  lemma {:induction false} ReadsTokens(llens: seq<nat>, dlens: seq<nat>, s: seq<bool>, p: nat, out: seq<byte>, ts: seq<Token>)
    requires IsCode(llens, MAX_BITS) && IsCode(dlens, MAX_BITS) && AllCoded(llens, dlens, ts)
    requires END_BLOCK < |llens| && llens[END_BLOCK] > 0 && WellFormed(out, ts)
    requires At(s, p, EncodeTokens(llens, dlens, ts)) && At(s, p + |EncodeTokens(llens, dlens, ts)|, Codeword(llens, END_BLOCK))
    ensures InflateData(llens, dlens, s, p, out)
         == Next(ApplyAll(out, ts), p + |EncodeTokens(llens, dlens, ts)| + llens[END_BLOCK])
    decreases |ts|
  {
    hide EncodeToken, EncodeTokens, InflateData, IsCode, WellFormed, ApplyAll, Coded, Apply, Fits;
    if ts == [] {
      NoTokens(out);
      ReadsEnd(llens, dlens, s, p, out);
    } else {
      var t, rest := ts[0], ts[1..];
      ApplyFirst(out, ts);
      EncodeFirst(llens, dlens, ts);
      AtConcat(s, p, EncodeToken(llens, dlens, t), EncodeTokens(llens, dlens, rest));
      ReadsToken(llens, dlens, s, p, out, t);
      ReadsTokens(llens, dlens, s, p + |EncodeToken(llens, dlens, t)|, Apply(out, t), rest);
    }
  }

  lemma {:induction false} ReadsToken(llens: seq<nat>, dlens: seq<nat>, s: seq<bool>, p: nat, out: seq<byte>, t: Token)
    requires IsCode(llens, MAX_BITS) && IsCode(dlens, MAX_BITS) && Coded(llens, dlens, t) && Fits(t, |out|)
    requires At(s, p, EncodeToken(llens, dlens, t))
    ensures InflateData(llens, dlens, s, p, out)
         == InflateData(llens, dlens, s, p + |EncodeToken(llens, dlens, t)|, Apply(out, t))
  {
    hide InflateData, IsCode, At, Coded, EncodeToken, CopyMatch;
    match t
    case Literal(b) =>
      LiteralPart(llens, dlens, b);
      ReadsLiteral(llens, dlens, s, p, out, b);
    case Match(l, d) => ReadsMatch(llens, dlens, s, p, out, l, d);
  }
}
