/** The header of a dynamic block: what send_all_trees writes, a decoder reads back
    (section 3.2.7 of RFC 1951). */
module TreeHeader {
  import opened Bits
  import opened Canonical
  import opened PrefixCodes
  import opened Inflate
  import opened RunLengths

  // ---------- symbols without a code do not matter ----------

  lemma {:induction false} CountZeros(lens: seq<nat>, zeros: seq<nat>, b: nat)
    requires b >= 1 && forall i :: 0 <= i < |zeros| ==> zeros[i] == 0
    ensures Count(lens + zeros, b) == Count(lens, b)
  {
    if zeros == [] {
      assert lens + zeros == lens;
    } else {
      var z := zeros[..|zeros| - 1];
      CountZeros(lens, z, b);
      assert (lens + zeros)[..|lens + zeros| - 1] == lens + z;
    }
  }

  lemma {:induction false} FirstCodeZeros(lens: seq<nat>, zeros: seq<nat>, b: nat)
    requires forall i :: 0 <= i < |zeros| ==> zeros[i] == 0
    ensures FirstCode(lens + zeros, b) == FirstCode(lens, b)
  {
    if b > 1 {
      FirstCodeZeros(lens, zeros, b - 1);
      CountZeros(lens, zeros, b - 1);
    }
  }

  /** Trailing symbols without a code change no code. */
  lemma {:induction false} CodewordZeros(lens: seq<nat>, zeros: seq<nat>, c: nat)
    requires c < |lens| && forall i :: 0 <= i < |zeros| ==> zeros[i] == 0
    ensures Codeword(lens + zeros, c) == Codeword(lens, c)
  {
    FirstCodeZeros(lens, zeros, lens[c]);
    assert (lens + zeros)[..c] == lens[..c];
  }

  lemma {:induction false} KraftZeros(lens: seq<nat>, zeros: seq<nat>, m: nat)
    requires (forall i :: 0 <= i < |lens| ==> lens[i] <= m) && forall i :: 0 <= i < |zeros| ==> zeros[i] == 0
    ensures Kraft(lens + zeros, m) == Kraft(lens, m)
  {
    if zeros == [] {
      assert lens + zeros == lens;
    } else {
      var z := zeros[..|zeros| - 1];
      KraftZeros(lens, z, m);
      assert (lens + zeros)[..|lens + zeros| - 1] == lens + z;
    }
  }

  // ---------- the code length code ----------

  /** Where each symbol stands in CODE_LENGTH_ORDER. */
  const CODE_LENGTH_RANK: seq<nat> :=
    [3, 17, 15, 13, 11, 9, 7, 5, 4, 6, 8, 10, 12, 14, 16, 18, 0, 1, 2]

  lemma OrderIsPermutation()
    ensures |CODE_LENGTH_ORDER| == 19 && |CODE_LENGTH_RANK| == 19
    ensures forall i :: 0 <= i < 19 ==> CODE_LENGTH_RANK[i] < 19 && CODE_LENGTH_ORDER[CODE_LENGTH_RANK[i]] == i
    ensures forall j :: 0 <= j < 19 ==> CODE_LENGTH_ORDER[j] < 19 && CODE_LENGTH_RANK[CODE_LENGTH_ORDER[j]] == j
  {
  }

  /** The lengths of the first n symbols of CODE_LENGTH_ORDER, three bits each. */
  function OrderBits(clens: seq<nat>, n: nat): (b: seq<bool>)
    requires |clens| == 19 && n <= 19
    ensures |b| == 3 * n
  {
    if n == 0 then []
    else
      OrderBits(clens, n - 1) + LsbBits(clens[CODE_LENGTH_ORDER[n - 1]], 3)
  }

  lemma {:induction false} OrderBitsAt(clens: seq<nat>, n: nat, k: nat)
    requires |clens| == 19 && k < n <= 19
    ensures OrderBits(clens, n)[3 * k..3 * k + 3] == LsbBits(clens[CODE_LENGTH_ORDER[k]], 3)
  {
    hide LsbBits;
    if k < n - 1 {
      OrderBitsAt(clens, n - 1, k);
      assert OrderBits(clens, n)[3 * k..3 * k + 3] == OrderBits(clens, n - 1)[3 * k..3 * k + 3];
    }
  }

  /** The lengths a decoder knows after reading k of them. */
  function KnownLengths(clens: seq<nat>, k: nat): (r: seq<nat>)
    requires |clens| == 19 && k <= 19
    ensures |r| == 19
    ensures forall i :: 0 <= i < 19 ==> r[i] == if CODE_LENGTH_RANK[i] < k then clens[i] else 0
  {
    seq(19, i requires 0 <= i < 19 => if CODE_LENGTH_RANK[i] < k then clens[i] else 0)
  }

  lemma KnownNext(clens: seq<nat>, k: nat)
    requires |clens| == 19 && k < 19
    ensures var c := CODE_LENGTH_ORDER[k];
            c < 19 && KnownLengths(clens, k + 1) == KnownLengths(clens, k)[c := clens[c]]
  {
    OrderIsPermutation();
    var c := CODE_LENGTH_ORDER[k];
    var a, b := KnownLengths(clens, k + 1), KnownLengths(clens, k)[c := clens[c]];
    forall i | 0 <= i < 19 ensures a[i] == b[i] {
      if CODE_LENGTH_RANK[i] == k {
        assert CODE_LENGTH_ORDER[CODE_LENGTH_RANK[i]] == i;
      }
    }
  }

  lemma ReadsThree(s: seq<bool>, p: nat, v: nat)
    requires v < 8 && At(s, p, LsbBits(v, 3))
    ensures ReadBits(s, p, 3) == Next(v, p + 3)
  {
    Pow2Values();
    ReadsNumber(s, p, v, 3);
  }

  lemma {:induction false} ReadsCodeLengths(clens: seq<nat>, s: seq<bool>, p: nat, k: nat, n: nat)
    requires |clens| == 19 && k <= n <= 19 && forall i :: 0 <= i < 19 ==> clens[i] < 8
    requires At(s, p, OrderBits(clens, n))
    ensures ReadCodeLengthLengths(s, p + 3 * k, k, n, KnownLengths(clens, k)) == Next(KnownLengths(clens, n), p + 3 * n)
    decreases n - k
  {
    hide LsbBits, ReadBits, KnownLengths, OrderBits, At, Pow2;
    if k < n {
      OrderBitsAt(clens, n, k);
      KnownNext(clens, k);
      AtPart(s, p, OrderBits(clens, n), 3 * k, 3 * k + 3);
      ReadsThree(s, p + 3 * k, clens[CODE_LENGTH_ORDER[k]]);
      ReadsCodeLengths(clens, s, p, k + 1, n);
    }
  }

  // ---------- the whole header ----------

  /** No code length from index n of CODE_LENGTH_ORDER on occurs. */
  ghost predicate NoneFrom(clens: seq<nat>, n: nat)
  {
    |clens| == 19 && forall j :: n <= j < 19 ==> clens[CODE_LENGTH_ORDER[j]] == 0
  }

  /** Everything that is sent between the block type and the tokens. */
  ghost predicate HeaderOk(llens: seq<nat>, dlens: seq<nat>, clens: seq<nat>, n: nat)
  {
    && 257 <= |llens| <= 286 && 1 <= |dlens| <= 30 && 4 <= n <= 19
    && (forall i :: 0 <= i < |llens| ==> llens[i] <= 15) && (forall i :: 0 <= i < |dlens| ==> dlens[i] <= 15)
    && |clens| == 19 && (forall i :: 0 <= i < 19 ==> clens[i] < 8)
    && NoneFrom(clens, n)
    && IsCode(clens, MAX_BITS)
    && Sendable(clens, Rle(llens, 0, -1, 0)) && Sendable(clens, Rle(dlens, 0, -1, 0))
  }

  function CountBits(llens: seq<nat>, dlens: seq<nat>, n: nat): (b: seq<bool>)
    requires |llens| >= 257 && |dlens| >= 1 && n >= 4
    ensures |b| == 14
  {
    LsbBits(|llens| - 257, 5) + LsbBits(|dlens| - 1, 5) + LsbBits(n - 4, 4)
  }

  function HeaderBits(llens: seq<nat>, dlens: seq<nat>, clens: seq<nat>, n: nat): seq<bool>
    requires HeaderOk(llens, dlens, clens, n)
  {
    CountBits(llens, dlens, n) + OrderBits(clens, n)
    + (EncodeItems(clens, Rle(llens, 0, -1, 0)) + EncodeItems(clens, Rle(dlens, 0, -1, 0)))
  }

  lemma AllKnown(clens: seq<nat>, n: nat)
    requires n <= 19 && NoneFrom(clens, n)
    ensures KnownLengths(clens, n) == clens
  {
    OrderIsPermutation();
    forall i | 0 <= i < 19 ensures KnownLengths(clens, n)[i] == clens[i] {
      assert CODE_LENGTH_ORDER[CODE_LENGTH_RANK[i]] == i;
    }
  }

  lemma NoneKnown(clens: seq<nat>, zeros: seq<nat>)
    requires |clens| == 19 && |zeros| == 19 && forall i :: 0 <= i < 19 ==> zeros[i] == 0
    ensures KnownLengths(clens, 0) == zeros
  {
  }

  /** Runs never start with a repeat of something not sent yet. */
  lemma {:induction false} StartsFresh(lens: seq<nat>, n: nat, count: nat)
    requires n <= |lens| && count < 138
    requires n < |lens| ==> count < MaxCount(-1, lens[n])
    ensures Rle(lens, n, -1, count) == [] || !Rle(lens, n, -1, count)[0].Previous?
    decreases |lens| - n
  {
    if n < |lens| {
      if count + 1 < MaxCount(-1, lens[n]) && n + 1 < |lens| && lens[n + 1] == lens[n] {
        StartsFresh(lens, n + 1, count + 1);
      } else {
        var run := Run(-1, lens[n], count + 1);
        assert run[0] == (run + Rle(lens, n + 1, lens[n], 0))[0];
      }
    }
  }

  /** The decoder reads back both trees. */
  lemma {:induction false} ReadsBothTrees(llens: seq<nat>, dlens: seq<nat>, clens: seq<nat>, n: nat, s: seq<bool>, p: nat)
    requires HeaderOk(llens, dlens, clens, n)
    requires At(s, p, EncodeItems(clens, Rle(llens, 0, -1, 0)) + EncodeItems(clens, Rle(dlens, 0, -1, 0)))
    ensures ReadLengths(clens, s, p, |llens| + |dlens|, [])
         == Next(llens + dlens, p + |EncodeItems(clens, Rle(llens, 0, -1, 0)) + EncodeItems(clens, Rle(dlens, 0, -1, 0))|)
  {
    hide Rle, EncodeItems, Sendable, IsCode, Expand, HeaderOk, At, ReadLengths;
    HeaderFacts(llens, dlens, clens, n);
    var li, di := Rle(llens, 0, -1, 0), Rle(dlens, 0, -1, 0);
    AtConcat(s, p, EncodeItems(clens, li), EncodeItems(clens, di));
    RoundTrip([], llens);
    RoundTrip(llens, dlens);
    assert [] + llens == llens;
    StartsFresh(llens, 0, 0);
    ReadsItems(clens, MAX_BITS, s, p, |llens| + |dlens|, [], li);
    var p1 := p + |EncodeItems(clens, li)|;
    ReadsItems(clens, MAX_BITS, s, p1, |llens| + |dlens|, llens, di);
    ReadsNoMore(clens, s, p1 + |EncodeItems(clens, di)|, llens + dlens);
  }

  lemma HeaderFacts(llens: seq<nat>, dlens: seq<nat>, clens: seq<nat>, n: nat)
    requires HeaderOk(llens, dlens, clens, n)
    ensures llens != [] && IsCode(clens, MAX_BITS)
    ensures (forall i :: 0 <= i < |llens| ==> llens[i] <= 15) && (forall i :: 0 <= i < |dlens| ==> dlens[i] <= 15)
    ensures Sendable(clens, Rle(llens, 0, -1, 0)) && Sendable(clens, Rle(dlens, 0, -1, 0))
  {
  }

  lemma ReadsNoMore(clens: seq<nat>, s: seq<bool>, p: nat, lens: seq<nat>)
    ensures ReadLengths(clens, s, p, |lens|, lens) == Next(lens, p)
  {
  }

  /** The decoder reads back the three counts. */
  lemma ReadsCounts(llens: seq<nat>, dlens: seq<nat>, n: nat, s: seq<bool>, p: nat)
    requires 257 <= |llens| <= 286 && 1 <= |dlens| <= 30 && 4 <= n <= 19
    requires At(s, p, CountBits(llens, dlens, n))
    ensures ReadBits(s, p, 5) == Next(|llens| - 257, p + 5)
    ensures ReadBits(s, p + 5, 5) == Next(|dlens| - 1, p + 10)
    ensures ReadBits(s, p + 10, 4) == Next(n - 4, p + 14)
  {
    hide LsbBits, ReadBits;
    Pow2Values();
    var a, b, c := LsbBits(|llens| - 257, 5), LsbBits(|dlens| - 1, 5), LsbBits(n - 4, 4);
    AtConcat(s, p, a + b, c);
    AtConcat(s, p, a, b);
    ReadsNumber(s, p, |llens| - 257, 5);
    ReadsNumber(s, p + 5, |dlens| - 1, 5);
    ReadsNumber(s, p + 10, n - 4, 4);
  }

  /** The decoder reads back the whole header. */
  lemma {:induction false} ReadsHeader(llens: seq<nat>, dlens: seq<nat>, clens: seq<nat>, n: nat, s: seq<bool>, p: nat)
    requires HeaderOk(llens, dlens, clens, n) && At(s, p, HeaderBits(llens, dlens, clens, n))
    ensures ReadTrees(s, p) == Next((llens, dlens), p + |HeaderBits(llens, dlens, clens, n)|)
  {
    hide CountBits, OrderBits, EncodeItems, ReadBits, ReadLengths, ReadCodeLengthLengths, KnownLengths, Rle, Sendable, IsCode;
    var trees := EncodeItems(clens, Rle(llens, 0, -1, 0)) + EncodeItems(clens, Rle(dlens, 0, -1, 0));
    AtConcat(s, p, CountBits(llens, dlens, n) + OrderBits(clens, n), trees);
    AtConcat(s, p, CountBits(llens, dlens, n), OrderBits(clens, n));
    ReadsCounts(llens, dlens, n, s, p);
    ReadsCodeLengths(clens, s, p + 14, 0, n);
    NoneKnown(clens, Repeat(0, 19));
    AllKnown(clens, n);
    ReadsBothTrees(llens, dlens, clens, n, s, p + 14 + 3 * n);
    assert (llens + dlens)[..|llens|] == llens && (llens + dlens)[|llens|..] == dlens;
  }
}
