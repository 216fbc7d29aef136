/** How a block's tokens lie in l_buf, d_buf and flag_buf. */
module TokenStore {
  import opened Bits
  import opened Tokens

  const LIT_BUFSIZE: nat := 0x2000
  const DIST_BUFSIZE: nat := 0x2000

  ghost predicate InRange(ts: seq<Token>)
  {
    forall i :: 0 <= i < |ts| && ts[i].Match? ==>
      MIN_MATCH <= ts[i].length <= MAX_MATCH && 1 <= ts[i].distance <= 0x8000
  }

  /** The l_buf entry of a token. */
  function LByte(t: Token): int
  {
    match t
    case Literal(b) => b
    case Match(l, _) => l - MIN_MATCH
  }

  /** The d_buf entries of all matches. */
  function Dists(ts: seq<Token>): seq<int>
  {
    if ts == [] then []
    else
      Dists(ts[..|ts| - 1])
      + (if ts[|ts| - 1].Match? then [ts[|ts| - 1].distance - 1] else [])
  }

  lemma DistsAppend(ts: seq<Token>, t: Token)
    ensures Dists(ts + [t]) == Dists(ts) + (if t.Match? then [t.distance - 1] else [])
  {
    assert (ts + [t])[..|ts|] == ts;
  }

  lemma {:induction false} DistsPrefix(ts: seq<Token>, i: nat)
    requires i < |ts|
    ensures |Dists(ts[..i])| <= |Dists(ts)| && Dists(ts[..i]) == Dists(ts)[..|Dists(ts[..i])|]
    ensures ts[i].Match? ==> |Dists(ts[..i])| < |Dists(ts)| && Dists(ts)[|Dists(ts[..i])|] == ts[i].distance - 1
    decreases |ts|
  {
    var n := |ts| - 1;
    if i < n {
      DistsPrefix(ts[..n], i);
      assert ts[..n][..i] == ts[..i];
    }
  }

  lemma {:induction false} DistsSize(ts: seq<Token>)
    ensures |Dists(ts)| <= |ts|
  {
    if ts != [] {
      DistsSize(ts[..|ts| - 1]);
    }
  }

  /** The flag of item i: bit i % 8 of its byte, which may not be in flag_buf yet. */
  function FlagOf(flagBuf: seq<byte>, lastFlags: nat, flags: nat, i: nat): bool
    requires i / 8 < |flagBuf|
  {
    Shr(if i / 8 < lastFlags then flagBuf[i / 8] else flags, i % 8) % 2 == 1
  }

  ghost predicate Stored(lBuf: seq<byte>, dBuf: seq<ush>, flagBuf: seq<byte>,
                         lastLit: nat, lastDist: nat, lastFlags: nat, flags: nat, flagBit: nat, ts: seq<Token>)
  {
    && |lBuf| == LIT_BUFSIZE && |dBuf| == DIST_BUFSIZE && |flagBuf| == LIT_BUFSIZE / 8
    && InRange(ts) && |ts| == lastLit < LIT_BUFSIZE
    && lastDist == |Dists(ts)| <= DIST_BUFSIZE
    && lastFlags == lastLit / 8 && flagBit == Pow2(lastLit % 8) && flags < flagBit
    && (forall i :: 0 <= i < lastLit ==> lBuf[i] == LByte(ts[i]))
    && (forall i :: 0 <= i < lastDist ==> dBuf[i] == Dists(ts)[i])
    && (forall i :: 0 <= i < lastLit ==> (FlagOf(flagBuf, lastFlags, flags, i) <==> ts[i].Match?))
  }

  /** Setting the next flag bit leaves the ones below as they are. */
  lemma {:induction false} BitAbove(a: nat, n: nat, b: nat, k: nat)
    requires a < Pow2(n) && b < 2 && k <= n
    ensures Shr(a + b * Pow2(n), k) % 2 == if k == n then b else Shr(a, k) % 2
    decreases n
  {
    if k == 0 {
      if n > 0 {
        assert b * Pow2(n) == 2 * (b * Pow2(n - 1));
      } else {
        assert Pow2(0) == 1;
      }
    } else {
      assert b * Pow2(n) == 2 * (b * Pow2(n - 1));
      assert (a + b * Pow2(n)) / 2 == a / 2 + b * Pow2(n - 1);
      BitAbove(a / 2, n - 1, b, k - 1);
    }
  }

  /** The flags after one more item, before a full byte is put away. */
  lemma FlagAdded(flags: nat, n: nat, isMatch: bool)
    requires n < 8 && flags < Pow2(n)
    ensures var f := if isMatch then BitOr(flags, Pow2(n)) else flags;
            && f < Pow2(n + 1) <= 256
            && (forall k :: 0 <= k < n ==> Shr(f, k) % 2 == Shr(flags, k) % 2)
            && (Shr(f, n) % 2 == 1 <==> isMatch)
  {
    var b := if isMatch then 1 else 0;
    var f := if isMatch then BitOr(flags, Pow2(n)) else flags;
    BitOrDisjoint(flags, n, 1);
    Pow2Monotone(n + 1, 8);
    Pow2Values();
    hide Shr, BitOr;
    assert f == flags + b * Pow2(n);
    forall k | 0 <= k <= n
      ensures Shr(f, k) % 2 == if k == n then b else Shr(flags, k) % 2
    {
      BitAbove(flags, n, b, k);
    }
  }

  /** One more token, with its l_buf, d_buf and flag entries in place. */
  lemma StoredNext(lBuf: seq<byte>, dBuf: seq<ush>, flagBuf: seq<byte>, lastLit: nat, lastDist: nat, lastFlags: nat,
                   flags: nat, flagBit: nat, ts: seq<Token>, t: Token,
                   lBuf': seq<byte>, dBuf': seq<ush>, flagBuf': seq<byte>, lastFlags': nat, flags': nat, flagBit': nat)
    requires Stored(lBuf, dBuf, flagBuf, lastLit, lastDist, lastFlags, flags, flagBit, ts)
    requires lastLit + 1 < LIT_BUFSIZE && lastDist < DIST_BUFSIZE
    requires t.Match? ==> MIN_MATCH <= t.length <= MAX_MATCH && 1 <= t.distance <= 0x8000
    requires 0 <= LByte(t) < 256 && lBuf' == lBuf[lastLit := LByte(t)]
    requires dBuf' == if t.Match? then dBuf[lastDist := t.distance - 1] else dBuf
    requires var f: nat := if t.Match? then BitOr(flags, flagBit) else flags;
             if (lastLit + 1) % 8 == 0
             then f < 256 && flagBuf' == flagBuf[lastFlags := f] && lastFlags' == lastFlags + 1 && flags' == 0 && flagBit' == 1
             else flagBuf' == flagBuf && lastFlags' == lastFlags && flags' == f && flagBit' == flagBit * 2
    ensures Stored(lBuf', dBuf', flagBuf', lastLit + 1, lastDist + (if t.Match? then 1 else 0), lastFlags', flags', flagBit', ts + [t])
  {
    var n := lastLit % 8;
    var f: nat := if t.Match? then BitOr(flags, flagBit) else flags;
    DistsAppend(ts, t);
    FlagAdded(flags, n, t.Match?);
    FlagsNext(flagBuf, lastLit, lastFlags, flags, f, ts, t, flagBuf', lastFlags', flags');
    if (lastLit + 1) % 8 == 0 {
      assert Pow2(0) == 1;
    } else {
      assert (lastLit + 1) % 8 == n + 1;
    }
  }

  lemma FlagsNext(flagBuf: seq<byte>, lastLit: nat, lastFlags: nat, flags: nat, f: nat, ts: seq<Token>, t: Token,
                  flagBuf': seq<byte>, lastFlags': nat, flags': nat)
    requires |flagBuf| == LIT_BUFSIZE / 8 && lastLit == |ts| && lastLit + 1 < LIT_BUFSIZE && lastFlags == lastLit / 8
    requires forall i :: 0 <= i < lastLit ==> (FlagOf(flagBuf, lastFlags, flags, i) <==> ts[i].Match?)
    requires forall k :: 0 <= k < lastLit % 8 ==> Shr(f, k) % 2 == Shr(flags, k) % 2
    requires Shr(f, lastLit % 8) % 2 == 1 <==> t.Match?
    requires if (lastLit + 1) % 8 == 0
             then f < 256 && flagBuf' == flagBuf[lastFlags := f] && lastFlags' == lastFlags + 1
             else flagBuf' == flagBuf && lastFlags' == lastFlags && flags' == f
    ensures forall i :: 0 <= i < lastLit + 1 ==> (FlagOf(flagBuf', lastFlags', flags', i) <==> (ts + [t])[i].Match?)
  {
    hide Shr;
    forall i | 0 <= i < lastLit + 1
      ensures FlagOf(flagBuf', lastFlags', flags', i) <==> (ts + [t])[i].Match?
    {
      if i / 8 == lastFlags {
        assert i % 8 <= lastLit % 8;
        if i < lastLit {
          assert FlagOf(flagBuf, lastFlags, flags, i) <==> ts[i].Match?;
        }
      } else {
        assert FlagOf(flagBuf, lastFlags, flags, i) <==> ts[i].Match?;
      }
    }
  }

  lemma StoredNothing(lBuf: seq<byte>, dBuf: seq<ush>, flagBuf: seq<byte>)
    requires |lBuf| == LIT_BUFSIZE && |dBuf| == DIST_BUFSIZE && |flagBuf| == LIT_BUFSIZE / 8
    ensures Stored(lBuf, dBuf, flagBuf, 0, 0, 0, 0, 1, [])
  {
    assert Pow2(0) == 1;
  }
}
