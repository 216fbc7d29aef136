/** What lzo1x_optimize knows at each of its labels: how far the original stream and
    the rewritten one have been decoded, and where the literals before the current
    match are counted. */
module LzoState {
  import opened Bits
  import opened Lzo1x
  import opened LzoRewrite

  /** The places that the gotos lead to. */
  datatype Label =
    | AtTop                 // the outer loop
    | AtRun(t: nat)         // copy_literal_run
    | AtFirstRun(t: nat)    // first_literal_run
    | AtAfterRun            // the instruction behind a long run
    | AtMatch(t: nat)       // match, its first byte read
    | AtNear(t: nat)        // a M1 match behind a short run, its first byte read
    | AtMatchDone           // match_done
    | AtNext(t: nat)        // match_next
    | AtEnd                 // eof_found

  /** Where litp points: nowhere, to the count in a match that ends at q, or to a long
      run's header at h; with the output before the literals. */
  datatype Literals = Unknown | Short(q: nat, before: seq<byte>) | Long(h: nat, before: seq<byte>)

  /** lit literals end at p; before them the output was shorter by as many. A run of 16
      or more may have a header of several bytes. */
  ghost predicate Placed(info: Literals, s: seq<byte>, litp: int, lit: nat, p: nat, out: seq<byte>)
  {
    match info
    case Unknown => litp == -1
    case Short(q, b) =>
      && 2 <= q <= p <= |s| && litp == q - 2 && StableMatched(s, q, b)
      && lit == s[q - 2] % 4 && p == q + lit && out == b + s[q..p]
    case Long(h, b) =>
      && h < p <= |s| && litp == h && StableAt(s, h, Top, b) && lit >= 4
      && (lit < 16 ==> p == h + 1 + lit && out == b + s[h + 1..p])
  }

  /** Nothing from p on has been touched. */
  ghost predicate Untouched(s0: seq<byte>, s: seq<byte>, p: nat)
  {
    |s| == |s0| && p <= |s| && s[p..] == s0[p..]
  }

  lemma UntouchedAt(s0: seq<byte>, s: seq<byte>, p: nat, i: nat)
    requires Untouched(s0, s, p) && p <= i < |s|
    ensures s[i] == s0[i]
  {
    assert s[p..][i - p] == s0[p..][i - p];
  }

  lemma UntouchedFrom(s0: seq<byte>, s: seq<byte>, p: nat, q: nat)
    requires Untouched(s0, s, p) && p <= q <= |s|
    ensures Untouched(s0, s, q) && forall e :: q <= e <= |s| ==> s[q..e] == s0[q..e]
  {
    assert s[q..] == s[p..][q - p..] && s0[q..] == s0[p..][q - p..];
    forall e | q <= e <= |s| ensures s[q..e] == s0[q..e] {
      assert s[q..e] == s[q..][..e - q] && s0[q..e] == s0[q..][..e - q];
    }
  }

  lemma {:induction false} UntouchedCount(s0: seq<byte>, s: seq<byte>, p: nat, at: nat, base: nat)
    requires Untouched(s0, s, p) && p <= at
    ensures LongCount(s, at, base) == LongCount(s0, at, base)
    decreases |s| - at
  {
    if at < |s| {
      UntouchedAt(s0, s, p, at);
      if s[at] == 0 {
        UntouchedCount(s0, s, p, at + 1, base + 255);
      }
    }
  }

  lemma UntouchedFar(s0: seq<byte>, s: seq<byte>, p: nat, at: nat, low: nat, base: nat, dist: nat)
    requires Untouched(s0, s, p) && p <= at
    ensures ReadFar(s, at, low, base, dist) == ReadFar(s0, at, low, base, dist)
  {
    hide Untouched;
    UntouchedCount(s0, s, p, at, base);
    UntouchedSize(s0, s, p);
    var c := if low != 0 then Counted(low, at) else LongCount(s, at, base);
    if c.Counted? && c.next + 2 <= |s| {
      UntouchedAt(s0, s, p, c.next);
      UntouchedAt(s0, s, p, c.next + 1);
    }
  }

  lemma UntouchedSize(s0: seq<byte>, s: seq<byte>, p: nat)
    requires Untouched(s0, s, p)
    ensures |s| == |s0| && p <= |s|
  {
  }

  /** The instruction at p is the same in both streams. */
  lemma UntouchedMatch(s0: seq<byte>, s: seq<byte>, p: nat)
    requires Untouched(s0, s, p) && p < |s|
    ensures ReadMatch(s, p) == ReadMatch(s0, p)
  {
    hide Untouched, ReadFar;
    UntouchedSize(s0, s, p);
    UntouchedAt(s0, s, p, p);
    if p + 1 < |s| {
      UntouchedAt(s0, s, p, p + 1);
    }
    var t: nat := s[p];
    UntouchedFar(s0, s, p, p + 1, t % 32, 31, 1);
    UntouchedFar(s0, s, p, p + 1, t % 8, 7, t / 8 % 2 * 0x4000);
  }

  /** What decoding comes to after an instruction. */
  function Follow(i: Instruction, s: seq<byte>, out: seq<byte>): Outcome
    requires i.Copy? ==> 2 <= i.next <= |s| && i.dist >= 1
  {
    match i
    case Broken => Malformed
    case EndMark(next) => Complete(out, next)
    case Copy(len, dist, next) =>
      if dist <= |out| then Run(s, next, Matched, CopyMatch(out, len, dist)) else Malformed
  }

  /** Decoded up to p in one mode or another. */
  ghost predicate StableAny(s: seq<byte>, p: nat, out: seq<byte>)
  {
    StableAt(s, p, Top, out) || StableAt(s, p, AfterShort, out) || StableAt(s, p, AfterLong, out)
  }

  /** The outer loop: the rewritten stream may have got there with three literals where
      the original had none; then a match follows. */
  ghost predicate TopOk(s0: seq<byte>, s: seq<byte>, p: nat, out: seq<byte>)
  {
    && Untouched(s0, s, p) && Decode(s0) == Run(s0, p, Top, out)
    && (StableAt(s, p, Top, out) || (p < |s| && s[p] >= 16 && StableAt(s, p, AfterShort, out)))
  }

  ghost predicate MatchOk(s0: seq<byte>, s: seq<byte>, p: nat, out: seq<byte>)
  {
    && Untouched(s0, s, p) && p < |s| && s[p] >= 16 && Decode(s0) == Follow(ReadMatch(s0, p), s0, out)
    && StableAny(s, p, out)
  }

  ghost predicate NearOk(s0: seq<byte>, s: seq<byte>, p: nat, out: seq<byte>, mode: Mode)
  {
    && Untouched(s0, s, p) && p < |s| && s[p] < 16 && (mode.AfterShort? || mode.AfterLong?)
    && Decode(s0) == Follow(ReadNear(s0, p, mode), s0, out) && StableAt(s, p, mode, out)
  }

  /** Both streams have been decoded to out at p, in the same mode. */
  ghost predicate BothAt(s0: seq<byte>, s: seq<byte>, p: nat, mode: Mode, out: seq<byte>)
  {
    && Untouched(s0, s, p) && !mode.Matched?
    && Decode(s0) == Run(s0, p, mode, out) && StableAt(s, p, mode, out)
  }

  ghost predicate BothMatched(s0: seq<byte>, s: seq<byte>, q: nat, out: seq<byte>)
  {
    Untouched(s0, s, q) && 2 <= q && Decode(s0) == Run(s0, q, Matched, out) && StableMatched(s, q, out)
  }

  // ---------- from label to label ----------

  /** Where decoding ends well, an instruction follows. */
  lemma TopContinues(s0: seq<byte>, s: seq<byte>, p: nat, out: seq<byte>)
    requires TopOk(s0, s, p, out) && Decode(s0).Complete?
    ensures p < |s| && s[p] == s0[p]
    ensures s[p] >= 16 ==> MatchOk(s0, s, p, out)
  {
    hide Decode;
    UntouchedAt(s0, s, p, p);
  }

  lemma TopRun(s0: seq<byte>, s: seq<byte>, p: nat, out: seq<byte>) returns (c: Count)
    requires TopOk(s0, s, p, out) && Decode(s0).Complete? && p < |s| && s[p] < 16
    ensures c == if s[p] != 0 then Counted(s[p], p + 1) else LongCount(s, p + 1, 15)
    ensures c.Counted? && c.n >= 1 && c.next + c.n + 3 <= |s| && StableAt(s, p, Top, out)
    ensures BothAt(s0, s, c.next + c.n + 3, AfterLong, out + s[c.next..c.next + c.n + 3])
  {
    hide Decode;
    UntouchedAt(s0, s, p, p);
    c := if s[p] != 0 then Counted(s[p], p + 1) else LongCount(s, p + 1, 15);
    if s[p] == 0 {
      UntouchedCount(s0, s, p, p + 1, 15);
    }
    LongStable(s, p, out, c);
    UntouchedFrom(s0, s, p, c.next);
    UntouchedFrom(s0, s, p, c.next + c.n + 3);
  }

  lemma ShortContinues(s0: seq<byte>, s: seq<byte>, p: nat, mode: Mode, out: seq<byte>)
    requires BothAt(s0, s, p, mode, out) && !mode.Top? && Decode(s0).Complete?
    ensures p + 1 < |s| && s[p] == s0[p]
    ensures s[p] >= 16 ==> MatchOk(s0, s, p, out)
    ensures s[p] < 16 ==> NearOk(s0, s, p, out, mode)
  {
    hide Decode, LongCount, ReadFar, CopyMatch;
    UntouchedAt(s0, s, p, p);
  }

  /** A match has been read: it stays in range, and both streams go on behind it. */
  lemma MatchContinues(s0: seq<byte>, s: seq<byte>, p: nat, out: seq<byte>)
    requires MatchOk(s0, s, p, out) && Decode(s0).Complete?
    ensures ReadMatch(s, p) == ReadMatch(s0, p) && !ReadMatch(s, p).Broken?
    ensures var i := ReadMatch(s, p);
            && (i.Copy? ==> i.dist <= |out| && BothMatched(s0, s, i.next, CopyMatch(out, i.len, i.dist)))
            && (i.EndMark? ==> Decode(s0) == Complete(out, i.next) && Decode(s) == Complete(out, i.next))
  {
    hide Decode, ReadMatch, CopyMatch, Untouched, StableAt, StableMatched;
    UntouchedSize(s0, s, p);
    UntouchedMatch(s0, s, p);
    var i := ReadMatch(s, p);
    var mode := if StableAt(s, p, Top, out) then Top else if StableAt(s, p, AfterShort, out) then AfterShort else AfterLong;
    if i.Copy? {
      MatchStable(s, p, mode, out);
      UntouchedFrom(s0, s, p, i.next);
    } else {
      StableSelf(s, p, mode, out);
    }
  }

  lemma StableSelf(s: seq<byte>, p: nat, mode: Mode, out: seq<byte>)
    requires StableAt(s, p, mode, out)
    ensures Decode(s) == Run(s, p, mode, out)
  {
    hide Decode, Run;
  }

  lemma NearContinues(s0: seq<byte>, s: seq<byte>, p: nat, out: seq<byte>, mode: Mode)
    requires NearOk(s0, s, p, out, mode) && Decode(s0).Complete?
    ensures p + 1 < |s| && ReadNear(s, p, mode) == ReadNear(s0, p, mode) && ReadNear(s, p, mode).Copy?
    ensures var i := ReadNear(s, p, mode);
            i.dist <= |out| && BothMatched(s0, s, p + 2, CopyMatch(out, i.len, i.dist))
  {
    hide Decode, CopyMatch, StableAt, StableMatched;
    UntouchedAt(s0, s, p, p);
    if p + 1 < |s| {
      UntouchedAt(s0, s, p, p + 1);
      UntouchedFrom(s0, s, p, p + 2);
      MatchStable(s, p, mode, out);
    }
  }

  /** Behind a match: the literals that follow, if any, are there. */
  lemma MatchedContinues(s0: seq<byte>, s: seq<byte>, q: nat, out: seq<byte>)
    requires BothMatched(s0, s, q, out) && s[q - 2] == s0[q - 2] && Decode(s0).Complete?
    ensures var n := s[q - 2] % 4;
            && q + n <= |s|
            && (n == 0 ==> BothAt(s0, s, q, Top, out) && TopOk(s0, s, q, out))
            && (n > 0 ==> BothAt(s0, s, q + n, AfterShort, out + s[q..q + n]))
            && Placed(Short(q, out), s, q - 2, n, q + n, out + s[q..q + n])
  {
    hide Decode, StableAt;
    ShortStable(s, q, out);
    var n := s[q - 2] % 4;
    UntouchedFrom(s0, s, q, q);
    UntouchedFrom(s0, s, q, q + n);
    assert out + s[q..q] == out;
  }

  // ---------- rewriting ----------

  /** The original at the top level, whatever has become of the rewritten stream. */
  ghost predicate OriginAt(s0: seq<byte>, s: seq<byte>, p: nat, out: seq<byte>)
  {
    Untouched(s0, s, p) && Decode(s0) == Run(s0, p, Top, out)
  }

  /** A byte with the count of literals set to 0. */
  function WithoutCount(b: byte): (r: byte)
    ensures r % 4 == 0 && r / 4 == b / 4 && r <= 252
  {
    b / 4 * 4
  }

  lemma SameBytes(s: seq<byte>, s': seq<byte>, a: nat, b: nat)
    requires |s'| == |s| && a <= b <= |s| && forall i :: a <= i < b ==> s'[i] == s[i]
    ensures s'[a..b] == s[a..b]
  {
  }

  /** Behind q the stream is as it was. */
  lemma UntouchedStill(s0: seq<byte>, s: seq<byte>, s': seq<byte>, q: nat)
    requires Untouched(s0, s, q) && |s'| == |s| && forall i :: q <= i < |s| ==> s'[i] == s[i]
    ensures Untouched(s0, s', q)
  {
    SameBytes(s, s', q, |s|);
    assert s'[q..] == s'[q..|s|] && s[q..] == s[q..|s|];
  }

  lemma Joined(b: seq<byte>, x: seq<byte>, y: seq<byte>)
    ensures b + (x + y) == (b + x) + y
  {
  }

  lemma Cut(s: seq<byte>, a: nat, m: nat, b: nat)
    requires a <= m <= b <= |s|
    ensures s[a..b] == s[a..m] + s[m..b]
  {
  }

  /** A match of k bytes behind 3 - k literals, before another match: its bytes take
      the place of its instruction, and the count of the literals is set to 3. */
  lemma ExtendOk(s0: seq<byte>, s: seq<byte>, s': seq<byte>, q: nat, b: seq<byte>, lit: nat, pm: nat, out: seq<byte>, k: nat, out2: seq<byte>)
    requires Placed(Short(q, b), s, q - 2, lit, pm, out) && lit + k == 3 && pm + k < |s| && s[pm + k] >= 16
    requires OriginAt(s0, s, pm + k, out2)
    requires |s'| == |s| && s'[q - 2] == WithoutCount(s[q - 2]) + 3
    requires forall i :: 0 <= i < |s| && i != q - 2 && !(pm <= i < pm + k) ==> s'[i] == s[i]
    requires out2 == out + s'[pm..pm + k]
    ensures TopOk(s0, s', pm + k, out2) && Placed(Short(q, b), s', q - 2, 3, pm + k, out2)
  {
    hide Decode, Run, StableAt, StableMatched;
    SameBytes(s, s', 0, q - 2);
    SameBytes(s, s', q, pm);
    Cut(s', q, pm, pm + k);
    Joined(b, s'[q..pm], s'[pm..pm + k]);
    ExtendShort(s, q, b, s');
    UntouchedStill(s0, s, s', pm + k);
  }

  /** s' is s with the match at pm turned into its k bytes m, behind a new header that
      counts them, the n literals before and the t + 3 behind. */
  ghost predicate Rewritten(s: seq<byte>, s': seq<byte>, q: nat, n: nat, pm: nat, k: nat, t: nat, m: seq<byte>)
  {
    && 2 <= q <= pm && pm == q + n && pm + k < |s| && |s'| == |s| && n + k + t < 16
    && s'[q - 2] == WithoutCount(s[q - 2]) && s'[q] == n + k + t
    && s'[q + 1..pm + 1] == s[q..pm] && s'[pm + 1..pm + k + 1] == m
    && forall i :: 0 <= i < |s| && i != q - 2 && !(q <= i <= pm + k) ==> s'[i] == s[i]
  }

  /** First the count and the bytes of the match, then the literals and the header. */
  lemma RewrittenInSteps(s: seq<byte>, s1: seq<byte>, s2: seq<byte>, q: nat, n: nat, pm: nat, k: nat, t: nat)
    requires 2 <= q && pm == q + n && pm + k < |s| == |s1| == |s2| && n + k + t < 16
    requires s1[q - 2] == WithoutCount(s[q - 2])
    requires forall i :: 0 <= i < |s| && i != q - 2 && !(pm + 1 <= i <= pm + k) ==> s1[i] == s[i]
    requires s2[q] == n + k + t && s2[q + 1..q + 1 + n] == s1[q..q + n]
    requires forall i :: 0 <= i < |s| && !(q <= i <= q + n) ==> s2[i] == s1[i]
    ensures Rewritten(s, s2, q, n, pm, k, t, s1[pm + 1..pm + k + 1])
  {
    hide WithoutCount;
    SameBytes(s, s1, q, q + n);
    SameBytes(s1, s2, pm + 1, pm + k + 1);
  }

  /** A match of k bytes between a short run and a long one. The header of the new run
      stands where the short run started. */
  lemma JoinShortOk(s0: seq<byte>, s: seq<byte>, s': seq<byte>, q: nat, b: seq<byte>, lit: nat, pm: nat, out: seq<byte>,
                    k: nat, t: nat, m: seq<byte>, out2: seq<byte>)
    requires Placed(Short(q, b), s, q - 2, lit, pm, out) && pm + k < |s| && 1 <= t == s[pm + k] && lit + k + t < 16
    requires OriginAt(s0, s, pm + k, out2) && Decode(s0).Complete?
    requires Rewritten(s, s', q, lit, pm, k, t, m) && out2 == out + m
    ensures pm + k + 1 + t + 3 <= |s|
    ensures var e := pm + k + 1 + t + 3; var out3 := out2 + s'[pm + k + 1..e];
            BothAt(s0, s', e, AfterLong, out3) && Placed(Long(q, b), s', q, lit + k + t + 3, e, out3)
  {
    hide Decode, StableAt, StableMatched, Run, LongCount;
    var e := pm + k + 1 + t + 3;
    OriginRun(s0, s, pm + k, out2, t);
    SameBytes(s, s', 0, q - 2);
    Cut(s', q + 1, pm + 1, pm + k + 1);
    Joined(b, s'[q + 1..pm + 1], s'[pm + 1..pm + k + 1]);
    Cut(s', q + 1, pm + k + 1, e);
    Joined(b, s'[q + 1..pm + k + 1], s'[pm + k + 1..e]);
    SameBytes(s, s', pm + k + 1, e);
    MergeShort(s, q, b, s', lit + k + t);
    UntouchedStill(s0, s, s', e);
  }

  /** The original takes the long run that starts at p. */
  lemma OriginRun(s0: seq<byte>, s: seq<byte>, p: nat, out: seq<byte>, t: nat)
    requires OriginAt(s0, s, p, out) && Decode(s0).Complete? && p < |s| && t == s[p] && 1 <= t <= 15
    ensures p + 1 + t + 3 <= |s| && Untouched(s0, s, p + 1 + t + 3)
    ensures Decode(s0) == Run(s0, p + 1 + t + 3, AfterLong, out + s[p + 1..p + 1 + t + 3])
  {
    hide Decode;
    UntouchedAt(s0, s, p, p);
    UntouchedFrom(s0, s, p, p + 1);
    if p + 1 + t + 3 <= |s| {
      UntouchedFrom(s0, s, p, p + 1 + t + 3);
    }
  }

  /** A match of three bytes, coded in two, between two long runs. */
  lemma JoinLongOk(s0: seq<byte>, s: seq<byte>, s': seq<byte>, h: nat, b: seq<byte>, lit: nat, pm: nat, out: seq<byte>,
                   t: nat, out2: seq<byte>)
    requires Placed(Long(h, b), s, h, lit, pm, out) && pm + 2 < |s| && 1 <= t == s[pm + 2] && lit + 3 + t < 16
    requires OriginAt(s0, s, pm + 2, out2) && Decode(s0).Complete?
    requires |s'| == |s| && s'[h] == lit + 3 + t
    requires forall i :: 0 <= i < |s| && i != h && !(pm <= i < pm + 3) ==> s'[i] == s[i]
    requires out2 == out + s'[pm..pm + 3]
    ensures pm + 3 + t + 3 <= |s|
    ensures var e := pm + 3 + t + 3; var out3 := out2 + s'[pm + 3..e];
            BothAt(s0, s', e, AfterLong, out3) && Placed(Long(h, b), s', h, lit + 3 + t + 3, e, out3)
  {
    hide Decode, StableAt, Run, LongCount;
    var e := pm + 3 + t + 3;
    OriginRun(s0, s, pm + 2, out2, t);
    SameBytes(s, s', 0, h);
    SameBytes(s, s', h + 1, pm);
    Cut(s', h + 1, pm, pm + 3);
    Joined(b, s'[h + 1..pm], s'[pm..pm + 3]);
    Cut(s', h + 1, pm + 3, e);
    Joined(b, s'[h + 1..pm + 3], s'[pm + 3..e]);
    SameBytes(s, s', pm + 3, e);
    MergeLong(s, h, b, s', lit + 3 + t);
    UntouchedStill(s0, s, s', e);
  }
}
