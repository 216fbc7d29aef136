/** Why the rewritings of lzo1x_optimize do not change what a stream decodes to. */
module LzoRewrite {
  import opened Bits
  import opened Lzo1x

  /** The first instruction looks like one. */
  predicate Plain(s: seq<byte>)
  {
    s != [] && s[0] <= 17
  }

  /** Every stream that starts like s up to p has been decoded to out there. */
  ghost predicate StableAt(s: seq<byte>, p: nat, mode: Mode, out: seq<byte>)
  {
    && p <= |s| && !mode.Matched? && (p == 0 ==> Plain(s))
    && forall x: seq<byte> {:trigger Decode(x)} ::
         |x| == |s| && x[..p] == s[..p] && (p == 0 ==> Plain(x)) ==> Decode(x) == Run(x, p, mode, out)
  }

  /** The same up to q, but for the two bits that tell how many literals follow. */
  ghost predicate Alike(x: seq<byte>, s: seq<byte>, q: nat)
  {
    && |x| == |s| && 2 <= q <= |s|
    && x[..q - 2] == s[..q - 2] && x[q - 2] / 4 == s[q - 2] / 4 && x[q - 1] == s[q - 1]
  }

  /** Every stream that is alike up to q has been decoded to out behind a match there. */
  ghost predicate StableMatched(s: seq<byte>, q: nat, out: seq<byte>)
  {
    && 2 <= q <= |s|
    && forall x: seq<byte> {:trigger Decode(x)} :: Alike(x, s, q) ==> Decode(x) == Run(x, q, Matched, out)
  }

  lemma AlikeAt(x: seq<byte>, s: seq<byte>, q: nat, i: nat)
    requires Alike(x, s, q) && i < q
    ensures i != q - 2 ==> x[i] == s[i]
    ensures x[i] / 4 == s[i] / 4
  {
    if i < q - 2 {
      assert x[..q - 2][i] == s[..q - 2][i];
    }
  }

  lemma {:induction false} AlikeCount(x: seq<byte>, s: seq<byte>, q: nat, p: nat, base: nat)
    requires LongCount(s, p, base).Counted? && LongCount(s, p, base).next + 2 <= q && Alike(x, s, q)
    ensures LongCount(x, p, base) == LongCount(s, p, base)
    decreases |s| - p
  {
    AlikeAt(x, s, q, p);
    if s[p] == 0 {
      AlikeCount(x, s, q, p + 1, base + 255);
    }
  }

  lemma AlikeFar(x: seq<byte>, s: seq<byte>, p: nat, low: nat, base: nat, dist: nat)
    requires ReadFar(s, p, low, base, dist).Copy? && Alike(x, s, ReadFar(s, p, low, base, dist).next)
    ensures ReadFar(x, p, low, base, dist) == ReadFar(s, p, low, base, dist)
  {
    var q := ReadFar(s, p, low, base, dist).next;
    if low == 0 {
      AlikeCount(x, s, q, p, base);
    }
    AlikeAt(x, s, q, q - 2);
    AlikeAt(x, s, q, q - 1);
  }

  /** The two bits do not take part in the match itself. */
  lemma AlikeMatch(x: seq<byte>, s: seq<byte>, p: nat)
    requires p < |s| && ReadMatch(s, p).Copy? && Alike(x, s, ReadMatch(s, p).next)
    ensures ReadMatch(x, p) == ReadMatch(s, p)
    ensures s[p] >= 16 ==> x[p] >= 16
  {
    hide ReadFar, Alike;
    var q := ReadMatch(s, p).next;
    AlikeAt(x, s, q, p);
    AlikeSize(x, s, q);
    var t: nat := s[p];
    if t >= 64 {
      AlikeAt(x, s, q, p + 1);
    } else if t >= 32 {
      AlikeFar(x, s, p + 1, t % 32, 31, 1);
    } else {
      AlikeFar(x, s, p + 1, t % 8, 7, t / 8 % 2 * 0x4000);
    }
  }

  lemma AlikeSize(x: seq<byte>, s: seq<byte>, q: nat)
    requires Alike(x, s, q)
    ensures |x| == |s|
  {
  }

  lemma AlikeNear(x: seq<byte>, s: seq<byte>, p: nat, mode: Mode)
    requires p < |s| && (mode.AfterShort? || mode.AfterLong?) && s[p] < 16
    requires ReadNear(s, p, mode).Copy? && Alike(x, s, p + 2)
    ensures ReadNear(x, p, mode) == ReadNear(s, p, mode) && x[p] < 16
  {
    AlikeAt(x, s, p + 2, p);
    AlikeAt(x, s, p + 2, p + 1);
  }

  /** The instruction at p. */
  function Instr(s: seq<byte>, p: nat, mode: Mode): Instruction
    requires p < |s| && !mode.Matched? && (s[p] < 16 ==> !mode.Top?)
  {
    if s[p] < 16 then ReadNear(s, p, mode) else ReadMatch(s, p)
  }

  /** A match carries the decoder on. */
  lemma MatchStable(s: seq<byte>, p: nat, mode: Mode, out: seq<byte>)
    requires StableAt(s, p, mode, out) && p < |s| && (s[p] < 16 ==> !mode.Top?)
    requires Instr(s, p, mode).Copy? && Instr(s, p, mode).dist <= |out|
    ensures var i := Instr(s, p, mode); i.dist >= 1 && StableMatched(s, i.next, CopyMatch(out, i.len, i.dist))
  {
    hide ReadMatch, ReadNear, CopyMatch, Decode;
    var i := Instr(s, p, mode);
    forall x: seq<byte> | Alike(x, s, i.next) ensures Decode(x) == Run(x, i.next, Matched, CopyMatch(out, i.len, i.dist)) {
      AlikePrefix(x, s, i.next, p);
      AlikeAt(x, s, i.next, 0);
      if s[p] < 16 {
        AlikeNear(x, s, p, mode);
      } else {
        AlikeMatch(x, s, p);
      }
    }
  }

  lemma AlikePrefix(x: seq<byte>, s: seq<byte>, q: nat, p: nat)
    requires Alike(x, s, q) && p + 2 <= q
    ensures |x| == |s| && x[..p] == s[..p]
  {
    assert x[..p] == x[..q - 2][..p] && s[..p] == s[..q - 2][..p];
  }

  /** So do the literals behind it. */
  lemma ShortStable(s: seq<byte>, q: nat, out: seq<byte>)
    requires StableMatched(s, q, out) && q + s[q - 2] % 4 <= |s|
    ensures var n := s[q - 2] % 4;
            StableAt(s, q + n, if n == 0 then Top else AfterShort, out + s[q..q + n])
  {
    hide Decode, Run, Alike;
    var n := s[q - 2] % 4;
    forall x: seq<byte> | |x| == |s| && x[..q + n] == s[..q + n]
      ensures Decode(x) == Run(x, q + n, if n == 0 then Top else AfterShort, out + s[q..q + n])
    {
      PrefixAlike(x, s, q, q + n);
      PrefixBytes(x, s, q + n, q, q + n);
      RunShort(x, q, out);
    }
  }

  lemma RunShort(x: seq<byte>, q: nat, out: seq<byte>)
    requires 2 <= q <= |x| && q + x[q - 2] % 4 <= |x|
    ensures var n := x[q - 2] % 4;
            Run(x, q, Matched, out) == Run(x, q + n, if n == 0 then Top else AfterShort, out + x[q..q + n])
  {
    assert out + x[q..q] == out;
  }

  lemma PrefixAlike(x: seq<byte>, s: seq<byte>, q: nat, p: nat)
    requires |x| == |s| && 2 <= q <= p <= |s| && x[..p] == s[..p]
    ensures Alike(x, s, q) && x[q - 2] == s[q - 2]
  {
    assert x[..q - 2] == x[..p][..q - 2] && s[..q - 2] == s[..p][..q - 2];
    assert x[q - 2] == x[..p][q - 2] && s[q - 2] == s[..p][q - 2] && x[q - 1] == x[..p][q - 1] && s[q - 1] == s[..p][q - 1];
  }

  /** And a long run of literals. */
  lemma LongStable(s: seq<byte>, h: nat, out: seq<byte>, c: Count)
    requires StableAt(s, h, Top, out) && h < |s| && s[h] < 16
    requires c == if s[h] != 0 then Counted(s[h], h + 1) else LongCount(s, h + 1, 15)
    requires c.Counted? && c.next + c.n + 3 <= |s|
    ensures StableAt(s, c.next + c.n + 3, AfterLong, out + s[c.next..c.next + c.n + 3])
  {
    hide Decode, Run, LongCount, StableAt;
    var e := c.next + c.n + 3;
    LongCountGrows(s, h, c);
    forall x: seq<byte> | |x| == |s| && x[..e] == s[..e]
      ensures Decode(x) == Run(x, e, AfterLong, out + s[c.next..e])
    {
      LongRead(s, x, h, out, c);
    }
    Stable(s, e, AfterLong, out + s[c.next..e]);
  }

  lemma LongCountGrows(s: seq<byte>, h: nat, c: Count)
    requires h < |s| && c.Counted? && c == if s[h] != 0 then Counted(s[h], h + 1) else LongCount(s, h + 1, 15)
    ensures c.next > h
  {
  }

  /** What StableAt says behind the first byte. */
  lemma Stable(s: seq<byte>, p: nat, mode: Mode, out: seq<byte>)
    requires 1 <= p <= |s| && !mode.Matched?
    requires forall x: seq<byte> {:trigger Decode(x)} :: |x| == |s| && x[..p] == s[..p] ==> Decode(x) == Run(x, p, mode, out)
    ensures StableAt(s, p, mode, out)
  {
    hide Decode, Run;
  }

  lemma StableFor(s: seq<byte>, p: nat, mode: Mode, out: seq<byte>, x: seq<byte>)
    requires StableAt(s, p, mode, out) && |x| == |s| && x[..p] == s[..p] && (p == 0 ==> Plain(x))
    ensures Decode(x) == Run(x, p, mode, out)
  {
    hide Decode, Run;
  }

  /** A stream x that is like s as far as a long run goes reads it just so. */
  lemma LongRead(s: seq<byte>, x: seq<byte>, h: nat, out: seq<byte>, c: Count)
    requires StableAt(s, h, Top, out) && h < |s| == |x| && s[h] < 16
    requires c == if s[h] != 0 then Counted(s[h], h + 1) else LongCount(s, h + 1, 15)
    requires c.Counted? && h < c.next && c.next + c.n + 3 <= |s| && x[..c.next + c.n + 3] == s[..c.next + c.n + 3]
    ensures Decode(x) == Run(x, c.next + c.n + 3, AfterLong, out + s[c.next..c.next + c.n + 3])
  {
    hide Decode, Run, LongCount, StableAt;
    var e := c.next + c.n + 3;
    PrefixBytes(x, s, e, 0, h);
    PrefixBytes(x, s, e, h, h + 1);
    PrefixBytes(x, s, e, c.next, e);
    assert x[h] == x[h..h + 1][0] && s[h] == s[h..h + 1][0];
    if s[h] == 0 {
      PrefixCount(x, s, e, h + 1, 15);
    }
    PlainToo(s, x, h, out);
    StableFor(s, h, Top, out, x);
    RunLong(x, h, out, c);
  }

  lemma PlainToo(s: seq<byte>, x: seq<byte>, h: nat, out: seq<byte>)
    requires StableAt(s, h, Top, out) && h < |s| == |x| && x[h] == s[h]
    ensures h == 0 ==> Plain(x)
  {
  }

  lemma RunLong(x: seq<byte>, h: nat, out: seq<byte>, c: Count)
    requires h < |x| && x[h] < 16 && c == if x[h] != 0 then Counted(x[h], h + 1) else LongCount(x, h + 1, 15)
    requires c.Counted? && c.next + c.n + 3 <= |x|
    ensures Run(x, h, Top, out) == Run(x, c.next + c.n + 3, AfterLong, out + x[c.next..c.next + c.n + 3])
  {
  }

  lemma PrefixBytes(x: seq<byte>, s: seq<byte>, e: nat, a: nat, b: nat)
    requires e <= |x| && e <= |s| && x[..e] == s[..e] && a <= b <= e
    ensures x[a..b] == s[a..b]
  {
    assert x[a..b] == x[..e][a..b] && s[a..b] == s[..e][a..b];
  }

  lemma {:induction false} PrefixCount(x: seq<byte>, s: seq<byte>, e: nat, p: nat, base: nat)
    requires |x| == |s| && e <= |s| && x[..e] == s[..e]
    requires LongCount(s, p, base).Counted? && LongCount(s, p, base).next <= e
    ensures LongCount(x, p, base) == LongCount(s, p, base)
    decreases |s| - p
  {
    assert x[p] == x[..e][p] && s[p] == s[..e][p];
    if s[p] == 0 {
      PrefixCount(x, s, e, p + 1, base + 255);
    }
  }

  // ---------- the rewritings ----------

  /** A match behind a short run becomes part of it: the count goes up to 3. */
  lemma ExtendShort(s: seq<byte>, q: nat, out: seq<byte>, s': seq<byte>)
    requires StableMatched(s, q, out) && Alike(s', s, q) && s'[q - 2] % 4 == 3 && q + 3 <= |s|
    ensures StableMatched(s', q, out) && StableAt(s', q + 3, AfterShort, out + s'[q..q + 3])
  {
    hide Decode, Run, StableAt, StableMatched, Alike;
    AlikeKeeps(s, q, out, s');
    AlikeSize(s', s, q);
    ShortStable(s', q, out);
  }

  lemma AlikeKeeps(s: seq<byte>, q: nat, out: seq<byte>, s': seq<byte>)
    requires StableMatched(s, q, out) && Alike(s', s, q)
    ensures StableMatched(s', q, out)
  {
    hide Decode, Run;
    forall x: seq<byte> | Alike(x, s', q) ensures Decode(x) == Run(x, q, Matched, out) {
      assert Alike(x, s, q);
    }
  }

  /** A short run, the match behind it and the long run behind that become one long
      run, which needs one byte for its length. */
  lemma MergeShort(s: seq<byte>, q: nat, out: seq<byte>, s': seq<byte>, c: nat)
    requires StableMatched(s, q, out) && Alike(s', s, q) && s'[q - 2] % 4 == 0
    requires 1 <= c <= 15 && q + 1 + c + 3 <= |s| && s'[q] == c
    ensures StableAt(s', q, Top, out) && StableAt(s', q + 1 + c + 3, AfterLong, out + s'[q + 1..q + 1 + c + 3])
  {
    hide Decode, Run, LongCount, Alike, StableAt, StableMatched;
    AlikeKeeps(s, q, out, s');
    AlikeSize(s', s, q);
    ShortStable(s', q, out);
    assert out + s'[q..q] == out;
    LongStable(s', q, out, Counted(c, q + 1));
  }

  /** A match between two long runs becomes part of one run. */
  lemma MergeLong(s: seq<byte>, h: nat, out: seq<byte>, s': seq<byte>, c: nat)
    requires StableAt(s, h, Top, out) && |s'| == |s| && s'[..h] == s[..h]
    requires 1 <= c <= 15 && h + 1 + c + 3 <= |s| && s'[h] == c
    ensures StableAt(s', h, Top, out) && StableAt(s', h + 1 + c + 3, AfterLong, out + s'[h + 1..h + 1 + c + 3])
  {
    hide Decode, Run, LongCount, StableAt;
    PrefixKeeps(s, h, Top, out, s');
    LongStable(s', h, out, Counted(c, h + 1));
  }

  lemma PrefixKeeps(s: seq<byte>, p: nat, mode: Mode, out: seq<byte>, s': seq<byte>)
    requires StableAt(s, p, mode, out) && |s'| == |s| && s'[..p] == s[..p] && (p == 0 ==> Plain(s'))
    ensures StableAt(s', p, mode, out)
  {
    hide Decode, Run;
  }
}
