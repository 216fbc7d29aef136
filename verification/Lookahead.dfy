/** The bytes behind the lookahead, which longest_match may read: what depends on them, and
    what does not. */
module Lookahead {
  import opened Bits
  import opened Tokens
  import opened Hashing
  import opened HashChains
  import opened SlidingWindow
  import opened LazyParse

  /** The windows hold the same input, and may differ behind it. */
  ghost predicate SameInput(w: seq<byte>, w': seq<byte>, s: nat, lookahead: nat)
  {
    |w| == |w'| && s + MAX_MATCH <= |w| && s + lookahead <= |w| && w[..s + lookahead] == w'[..s + lookahead]
  }

  lemma SameByte(w: seq<byte>, w': seq<byte>, s: nat, lookahead: nat, i: nat)
    requires SameInput(w, w', s, lookahead) && i < s + lookahead
    ensures w[i] == w'[i]
  {
    assert w[..s + lookahead][i] == w'[..s + lookahead][i];
  }

  lemma SameHash(w: seq<byte>, w': seq<byte>, s: nat, lookahead: nat, q: nat)
    requires SameInput(w, w', s, lookahead) && lookahead >= MIN_MATCH && q <= s
    ensures HashAt(w, q) == HashAt(w', q)
  {
    hide Hash3;
    SameByte(w, w', s, lookahead, q);
    SameByte(w, w', s, lookahead, q + 1);
    SameByte(w, w', s, lookahead, q + 2);
  }

  lemma {:induction false} SameCount(w: seq<byte>, w': seq<byte>, s: nat, lookahead: nat, h: nat, lo: nat, hi: nat)
    requires SameInput(w, w', s, lookahead) && lookahead >= MIN_MATCH && hi <= s
    ensures HashCount(w, h, lo, hi) == HashCount(w', h, lo, hi)
  {
    hide HashAt;
    if hi > lo + 1 {
      SameCount(w, w', s, lookahead, h, lo, hi - 1);
      SameHash(w, w', s, lookahead, hi - 1);
    }
  }

  /** Up to the lookahead, strings agree in as many bytes. */
  lemma SameLen(w: seq<byte>, w': seq<byte>, s: nat, lookahead: nat, q: nat)
    requires SameInput(w, w', s, lookahead) && q < s
    ensures MatchLen(w, q, s) < lookahead || MatchLen(w', q, s) < lookahead ==> MatchLen(w, q, s) == MatchLen(w', q, s)
    ensures lookahead >= MAX_MATCH ==> MatchLen(w, q, s) == MatchLen(w', q, s)
  {
    hide MatchLen;
    forall i | 0 <= i < lookahead && i < MAX_MATCH ensures Same(w, q, s, i) <==> Same(w', q, s, i) {
      SameByte(w, w', s, lookahead, q + i);
      SameByte(w, w', s, lookahead, s + i);
    }
  }

  // ---------- what a search finds is unique ----------

  lemma {:induction false} CountLess(w: seq<byte>, h: nat, lo: nat, lo': nat, q: nat, hi: nat)
    requires hi + 2 <= |w| && lo < q <= lo' && q < hi && HashAt(w, q) == h
    ensures HashCount(w, h, lo', hi) < HashCount(w, h, lo, hi)
  {
    hide HashAt;
    if q == hi - 1 {
      NoneCounted(w, h, lo', hi);
    } else {
      CountLess(w, h, lo, lo', q, hi - 1);
    }
  }

  /** A search that has looked at string q can end before it only with a match of full
      length. */
  lemma LooksAt(w: seq<byte>, s: nat, head: nat, prevLength: nat, low: nat, low': nat, best': nat, q: nat)
    requires s + MAX_MATCH <= |w| && low < q < s && HashAt(w, q) == HashAt(w, s)
    requires Within(w, low, head, s) && EndsAtMost(w, low, s, prevLength)
    requires low' < head && EndsAt(w, low', s, prevLength, best')
    ensures low' < q || best' >= NICE_MATCH
  {
    hide HashAt, HashCount;
    if q <= low' {
      CountLess(w, HashAt(w, s), low, low', q, s);
    }
  }

  ghost predicate EndsAtMost(w: seq<byte>, low: nat, s: nat, prevLength: nat)
    requires s + MAX_MATCH <= |w|
  {
    low < s && HashCount(w, HashAt(w, s), low, s) <= Tries(prevLength)
  }

  lemma NoLonger(w: seq<byte>, s: nat, head: nat, prevLength: nat, start0: nat,
                 start: nat, best: nat, low: nat, start': nat, best': nat, low': nat)
    requires s + MAX_MATCH <= |w|
    requires Outcome(w, s, head, prevLength, start0, start, best, low)
    requires Outcome(w, s, head, prevLength, start0, start', best', low')
    ensures best' <= best
  {
    hide HashAt, HashCount, MatchLen, Within;
    if best' > best {
      MatchHash(w, start', s);
      LooksAt(w, s, head, prevLength, low', low, best, start');
    }
  }

  /** Whatever way a search goes, it finds the same. */
  lemma OutcomeUnique(w: seq<byte>, s: nat, head: nat, prevLength: nat, start0: nat,
                      start: nat, best: nat, low: nat, start': nat, best': nat, low': nat)
    requires s + MAX_MATCH <= |w|
    requires Outcome(w, s, head, prevLength, start0, start, best, low)
    requires Outcome(w, s, head, prevLength, start0, start', best', low')
    ensures best == best' && start == start'
  {
    hide HashAt, HashCount, MatchLen, Within, EndsAt;
    NoLonger(w, s, head, prevLength, start0, start, best, low, start', best', low');
    NoLonger(w, s, head, prevLength, start0, start', best', low', start, best, low);
    if best > prevLength {
      MatchHash(w, start, s);
      MatchHash(w, start', s);
    }
  }

  // ---------- what other bytes behind the lookahead change ----------

  /** Some string that is looked at agrees with the one at s in all of the lookahead. */
  ghost predicate AllAgree(w: seq<byte>, s: nat, lookahead: nat, low: nat)
    requires s + MAX_MATCH <= |w|
  {
    exists q :: low < q < s && HashAt(w, q) == HashAt(w, s) && MatchLen(w, q, s) >= lookahead
  }

  ghost predicate SameLens(w: seq<byte>, w': seq<byte>, s: nat, low: nat)
    requires s + MAX_MATCH <= |w| == |w'|
  {
    forall q :: low < q < s && HashAt(w, q) == HashAt(w, s) ==> MatchLen(w, q, s) == MatchLen(w', q, s)
  }

  lemma LensSame(w: seq<byte>, w': seq<byte>, s: nat, lookahead: nat, low: nat)
    requires SameInput(w, w', s, lookahead) && (lookahead >= MAX_MATCH || !AllAgree(w, s, lookahead, low))
    ensures SameLens(w, w', s, low)
  {
    hide HashAt, MatchLen;
    forall q | low < q < s && HashAt(w, q) == HashAt(w, s) ensures MatchLen(w, q, s) == MatchLen(w', q, s) {
      SameLen(w, w', s, lookahead, q);
    }
  }

  /** Where the strings looked at agree in as many bytes, the same is found. */
  lemma OutcomeSame(w: seq<byte>, w': seq<byte>, s: nat, lookahead: nat, head: nat, prevLength: nat, start0: nat,
                    start: nat, best: nat, low: nat)
    requires SameInput(w, w', s, lookahead) && lookahead >= MIN_MATCH && SameLens(w, w', s, low)
    requires Outcome(w, s, head, prevLength, start0, start, best, low)
    ensures Outcome(w', s, head, prevLength, start0, start, best, low)
  {
    hide HashAt, HashCount, MatchLen;
    forall q: nat | q <= s ensures HashAt(w, q) == HashAt(w', q) {
      SameHash(w, w', s, lookahead, q);
    }
    SameCount(w, w', s, lookahead, HashAt(w, s), low, s);
    if best > prevLength {
      MatchHash(w, start, s);
    }
  }

  /** With enough lookahead for the longest match, nothing depends on what is behind it. */
  lemma InputOnly(r: Decision, input: seq<byte>, w': seq<byte>)
    requires RoundOk(r, input) && r.lookahead >= MAX_MATCH && SameInput(r.window, w', r.s, r.lookahead)
    ensures Hunted(w', r.s, r.lookahead, r.before.length, r.start0, r.start, r.len, r.hunt)
  {
    hide Outcome, MatchLen, HashAt, Mirrors;
    var w, s := r.window, r.s;
    forall q: nat | q <= s ensures HashAt(w, q) == HashAt(w', q) {
      SameHash(w, w', s, r.lookahead, q);
    }
    if Searches(s, r.before.length, r.hunt.head) {
      LensSame(w, w', s, r.lookahead, r.hunt.low);
      OutcomeSame(w, w', s, r.lookahead, r.hunt.head, r.before.length, r.start0, r.start, r.hunt.found, r.hunt.low);
    }
  }

  /** This is found, wherever the search ends. */
  ghost predicate Finds(w: seq<byte>, s: nat, head: nat, prevLength: nat, start0: nat, start: nat, best: nat)
    requires s + MAX_MATCH <= |w|
  {
    exists low: nat :: Outcome(w, s, head, prevLength, start0, start, best, low)
  }

  /** Less lookahead than the longest match: the bytes behind it can change what is found
      exactly if some string that is looked at agrees in all of the lookahead. */
  lemma BehindMatters(w: seq<byte>, s: nat, lookahead: nat, head: nat, prevLength: nat, start0: nat,
                      start: nat, best: nat, low: nat)
    requires s + MAX_MATCH <= |w| && MIN_MATCH <= lookahead < MAX_MATCH && prevLength < MAX_MATCH
    requires Outcome(w, s, head, prevLength, start0, start, best, low)
    ensures (forall w' :: SameInput(w, w', s, lookahead) ==> Finds(w', s, head, prevLength, start0, start, best))
       <==> !AllAgree(w, s, lookahead, low)
  {
    hide Outcome, AllAgree;
    if AllAgree(w, s, lookahead, low) {
      var w' := OtherBytes(w, s, lookahead, head, prevLength, start0, start, best, low);
    } else {
      forall w' | SameInput(w, w', s, lookahead) ensures Finds(w', s, head, prevLength, start0, start, best) {
        LensSame(w, w', s, lookahead, low);
        OutcomeSame(w, w', s, lookahead, head, prevLength, start0, start, best, low);
      }
    }
  }

  lemma OtherBytes(w: seq<byte>, s: nat, lookahead: nat, head: nat, prevLength: nat, start0: nat,
                   start: nat, best: nat, low: nat) returns (w': seq<byte>)
    requires s + MAX_MATCH <= |w| && MIN_MATCH <= lookahead < MAX_MATCH && prevLength < MAX_MATCH
    requires Outcome(w, s, head, prevLength, start0, start, best, low) && AllAgree(w, s, lookahead, low)
    ensures SameInput(w, w', s, lookahead) && !Finds(w', s, head, prevLength, start0, start, best)
  {
    hide HashAt, HashCount, MatchLen, Within, EndsAt;
    var q :| low < q < s && HashAt(w, q) == HashAt(w, s) && MatchLen(w, q, s) >= lookahead;
    if best > prevLength {
      w' := OtherLength(w, s, lookahead, start, best);
    } else {
      w' := Extended(w, s, lookahead, q, MAX_MATCH);
      forall low': nat ensures !Outcome(w', s, head, prevLength, start0, start, best, low') {
        Longer(w, w', s, lookahead, head, prevLength, start0, start, best, low, low', q);
      }
    }
  }

  /** One other byte behind the lookahead makes a match that reaches it another length. */
  lemma OtherLength(w: seq<byte>, s: nat, lookahead: nat, start: nat, best: nat) returns (w': seq<byte>)
    requires s + MAX_MATCH <= |w| && lookahead < MAX_MATCH && start < s && MatchLen(w, start, s) == best >= lookahead
    ensures SameInput(w, w', s, lookahead) && MatchLen(w', start, s) != best
  {
    hide MatchLen;
    var other: byte := if best == lookahead then w[start + lookahead] else if w[s + lookahead] == 0 then 1 else 0;
    w' := w[s + lookahead := other];
    assert w'[..s + lookahead] == w[..s + lookahead];
    assert best > lookahead ==> Same(w, start, s, lookahead);
    assert Same(w', start, s, lookahead) <==> best == lookahead;
  }

  /** Bytes behind the lookahead that go on like the string at q. */
  lemma {:induction false} Extended(w: seq<byte>, s: nat, lookahead: nat, q: nat, n: nat) returns (w': seq<byte>)
    requires s + MAX_MATCH <= |w| && q < s && lookahead <= n <= MAX_MATCH && MatchLen(w, q, s) >= lookahead
    ensures SameInput(w, w', s, lookahead) && MatchLen(w', q, s) >= n
  {
    hide MatchLen;
    if n == lookahead {
      w' := w;
    } else {
      var v := Extended(w, s, lookahead, q, n - 1);
      w' := v[s + n - 1 := v[q + n - 1]];
      assert w'[..s + lookahead] == v[..s + lookahead];
      forall i | 0 <= i < n ensures Same(w', q, s, i) {
        if i < n - 1 {
          assert Same(v, q, s, i);
        }
      }
    }
  }

  /** With them the search would have found more. */
  lemma Longer(w: seq<byte>, w': seq<byte>, s: nat, lookahead: nat, head: nat, prevLength: nat, start0: nat,
               start: nat, best: nat, low: nat, low': nat, q: nat)
    requires SameInput(w, w', s, lookahead) && lookahead >= MIN_MATCH && best == prevLength < MAX_MATCH
    requires low < q < s && HashAt(w, q) == HashAt(w, s) && MatchLen(w', q, s) == MAX_MATCH
    requires Outcome(w, s, head, prevLength, start0, start, best, low)
    ensures !Outcome(w', s, head, prevLength, start0, start, best, low')
  {
    hide HashAt, HashCount, MatchLen;
    forall p: nat | p <= s ensures HashAt(w, p) == HashAt(w', p) {
      SameHash(w, w', s, lookahead, p);
    }
    SameCount(w, w', s, lookahead, HashAt(w, s), low, s);
    if Outcome(w', s, head, prevLength, start0, start, best, low') {
      LooksAt(w', s, head, prevLength, low, low', best, q);
    }
  }

  /** Cut off at the lookahead, the length found does not depend on what is behind it. */
  lemma SameWhenCut(w: seq<byte>, w': seq<byte>, s: nat, lookahead: nat, head: nat, prevLength: nat, start0: nat,
                    start: nat, best: nat, low: nat, start': nat, best': nat, low': nat)
    requires SameInput(w, w', s, lookahead) && lookahead >= MIN_MATCH
    requires Outcome(w, s, head, prevLength, start0, start, best, low)
    requires Outcome(w', s, head, prevLength, start0, start', best', low')
    ensures (best == best' && start == start') || (best >= lookahead && best' >= lookahead)
  {
    hide HashAt, HashCount, MatchLen, Within, EndsAt, Found;
    if best < lookahead {
      LensSame(w, w', s, lookahead, low);
      OutcomeSame(w, w', s, lookahead, head, prevLength, start0, start, best, low);
      OutcomeUnique(w', s, head, prevLength, start0, start, best, low, start', best', low');
    } else if best' < lookahead {
      LensSame(w', w, s, lookahead, low');
      OutcomeSame(w', w, s, lookahead, head, prevLength, start0, start', best', low');
      OutcomeUnique(w, s, head, prevLength, start0, start, best, low, start', best', low');
    }
  }

  // ---------- two windows with the same input and different matches ----------

  /** Three zeros from 1, from 5 and from 9 on, the last with x behind them. */
  function ThreeZeros(x: byte): seq<byte>
  {
    seq(300, i => if i == 4 then 2 else if i == 8 then 1 else if i == 12 then x else 0)
  }

  lemma LenAtMost(w: seq<byte>, q: nat, s: nat, k: nat)
    requires q + MAX_MATCH <= |w| && s + MAX_MATCH <= |w| && k < MAX_MATCH && w[q + k] != w[s + k]
    ensures MatchLen(w, q, s) <= k
  {
    hide MatchLen;
    assert !Same(w, q, s, k);
  }

  lemma {:induction false} CountBound(w: seq<byte>, h: nat, lo: nat, hi: nat)
    requires hi + 2 <= |w|
    ensures HashCount(w, h, lo, hi) <= hi
  {
    if hi > lo + 1 {
      CountBound(w, h, lo, hi - 1);
    }
  }

  lemma ZerosHash()
    ensures Hash3(0, 1, 0) != Hash3(0, 0, 0) && Hash3(1, 0, 0) != Hash3(0, 0, 0)
  {
    assert UpdateHash(0, 0) == 0 && UpdateHash(0, 1) == 1 && UpdateHash(1, 0) == 32 && UpdateHash(32, 0) == 1024;
  }

  lemma ThreeZerosHead(w: seq<byte>, x: byte)
    requires w == ThreeZeros(x)
    ensures Latest(w, 5, 9, HashAt(w, 9))
  {
    hide UpdateHash;
    ZerosHash();
    assert w[5] == w[6] == w[7] == w[9] == w[10] == w[11] == 0 && w[8] == 1;
    if HashAt(w, 6) == HashAt(w, 9) {
      ThirdByte(0, 0, 1, 0);
    }
  }

  /** All strings but the one from 1 on agree with the one from 9 on in three bytes at most. */
  lemma ThreeZerosLens(w: seq<byte>, x: byte)
    requires w == ThreeZeros(x) && x >= 2
    ensures Searched(w, 1, 9, 3) && Searched(w, 5, 9, 2)
  {
    hide MatchLen, HashAt;
    LenAtMost(w, 2, 9, 2);
    LenAtMost(w, 3, 9, 1);
    LenAtMost(w, 4, 9, 0);
    LenAtMost(w, 5, 9, 3);
    LenAtMost(w, 6, 9, 2);
    LenAtMost(w, 7, 9, 1);
    LenAtMost(w, 8, 9, 0);
  }

  /** Three bytes of lookahead, and two strings that agree in them: which of the two is found
      depends on what stands behind. */
  lemma PlaceMayDiffer()
    ensures SameInput(ThreeZeros(3), ThreeZeros(2), 9, 3)
    ensures Hunted(ThreeZeros(3), 9, 3, 2, 0, 5, 3, Hunt(5, 3, 0)) && Hunted(ThreeZeros(2), 9, 3, 2, 0, 1, 3, Hunt(5, 7, 0))
  {
    hide MatchLen, HashAt, HashCount, Latest;
    var w, v := ThreeZeros(3), ThreeZeros(2);
    assert w[..9 + 3] == v[..9 + 3];
    ThreeZerosHead(w, 3);
    ThreeZerosHead(v, 2);
    ThreeZerosLens(w, 3);
    ThreeZerosLens(v, 2);
    LenAtMost(w, 1, 9, 3);
    MatchLenIs(w, 5, 9, 3);
    MatchLenIs(v, 1, 9, 7);
    CountBound(w, HashAt(w, 9), 0, 9);
    CountBound(v, HashAt(v, 9), 0, 9);
    assert Outcome(w, 9, 5, 2, 0, 5, 3, 0);
    assert Outcome(v, 9, 5, 2, 0, 1, 7, 0);
  }
}
