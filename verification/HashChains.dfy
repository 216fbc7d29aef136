/** The hash chains of the sliding window, on values. prev holds, at p % WSIZE, the
    last position before p with the same hash and, from WSIZE on, the last position
    for every hash; 0 stands for none. */
module HashChains {
  import opened Bits
  import opened Hashing
  import opened Tokens

  const WSIZE: nat := 0x8000
  const MIN_LOOKAHEAD: nat := MAX_MATCH + MIN_MATCH + 1
  const MAX_DIST: nat := WSIZE - MIN_LOOKAHEAD

  /** The hash of the string that starts at p. */
  function HashAt(w: seq<byte>, p: nat): (h: nat)
    requires p + 2 < |w|
    ensures h < HASH_SIZE
  {
    Hash3(w[p], w[p + 1], w[p + 2])
  }

  /** m is the last position before n, other than 0, with hash h; 0 if there is none. */
  ghost predicate Latest(w: seq<byte>, m: nat, n: nat, h: nat)
    requires n + 2 <= |w|
  {
    && (m != 0 ==> m < n && HashAt(w, m) == h)
    && forall q :: m < q < n ==> HashAt(w, q) != h
  }

  /** How many strings that start between lo and hi, both excluded, have the hash h. */
  function HashCount(w: seq<byte>, h: nat, lo: nat, hi: nat): nat
    requires hi + 2 <= |w|
  {
    if hi <= lo + 1 then 0 else HashCount(w, h, lo, hi - 1) + if HashAt(w, hi - 1) == h then 1 else 0
  }

  lemma {:induction false} NoneCounted(w: seq<byte>, h: nat, lo: nat, hi: nat)
    requires hi + 2 <= |w| && forall q :: lo < q < hi ==> HashAt(w, q) != h
    ensures HashCount(w, h, lo, hi) == 0
  {
    if hi > lo + 1 {
      NoneCounted(w, h, lo, hi - 1);
    }
  }

  /** From one link of a chain to the next there is one string more. */
  lemma {:induction false} OneMoreLink(w: seq<byte>, h: nat, next: nat, cur: nat, hi: nat)
    requires hi + 2 <= |w| && next < cur < hi && HashAt(w, cur) == h
    requires Latest(w, next, cur, h)
    ensures HashCount(w, h, next, hi) == HashCount(w, h, cur, hi) + 1
  {
    hide HashAt;
    if hi == cur + 1 {
      NoneCounted(w, h, next, cur);
    } else {
      OneMoreLink(w, h, next, cur, hi - 1);
    }
  }

  function HeadOf(prev: seq<ush>, h: nat): ush
    requires |prev| == 2 * WSIZE && h < HASH_SIZE
  {
    prev[WSIZE + h]
  }

  function LinkOf(prev: seq<ush>, p: nat): ush
    requires |prev| == 2 * WSIZE
  {
    prev[p % WSIZE]
  }

  ghost predicate Heads(w: seq<byte>, prev: seq<ush>, n: nat)
    requires n + 2 <= |w| && |prev| == 2 * WSIZE
  {
    forall h :: 0 <= h < HASH_SIZE ==> Latest(w, HeadOf(prev, h), n, h)
  }

  /** Links are kept for the last WSIZE positions only. */
  ghost predicate Links(w: seq<byte>, prev: seq<ush>, n: nat)
    requires n + 2 <= |w| && |prev| == 2 * WSIZE
  {
    forall p: nat :: n - WSIZE <= p < n ==> Latest(w, LinkOf(prev, p), p, HashAt(w, p))
  }

  /** All strings that start before n are on their chains. */
  ghost predicate Chains(w: seq<byte>, prev: seq<ush>, n: nat)
  {
    n + 2 <= |w| && |prev| == 2 * WSIZE && Heads(w, prev, n) && Links(w, prev, n)
  }

  lemma ChainsEmpty(w: seq<byte>, prev: seq<ush>)
    requires |w| >= 2 && |prev| == 2 * WSIZE && forall h :: 0 <= h < HASH_SIZE ==> HeadOf(prev, h) == 0
    ensures Chains(w, prev, 0)
  {
  }

  lemma LatestNext(w: seq<byte>, m: nat, n: nat, h: nat)
    requires n + 2 < |w| && Latest(w, m, n, h)
    ensures Latest(w, if h == HashAt(w, n) then n else m, n + 1, h)
  {
  }

  lemma OtherSlot(n: nat, p: nat)
    requires n - WSIZE < p < n
    ensures p % WSIZE != n % WSIZE
  {
  }

  /** INSERT_STRING(n, m): n goes to the front of its chain. */
  lemma ChainsInsert(w: seq<byte>, prev: seq<ush>, n: nat, prev': seq<ush>)
    requires Chains(w, prev, n) && n + 2 < |w| && n < 0x10000
    requires prev' == prev[n % WSIZE := HeadOf(prev, HashAt(w, n))][WSIZE + HashAt(w, n) := n]
    ensures Chains(w, prev', n + 1) && Latest(w, HeadOf(prev, HashAt(w, n)), n, HashAt(w, n))
  {
    hide Latest, HashAt;
    var m := HeadOf(prev, HashAt(w, n));
    forall h | 0 <= h < HASH_SIZE ensures Latest(w, HeadOf(prev', h), n + 1, h) {
      assert Latest(w, HeadOf(prev, h), n, h);
      LatestNext(w, HeadOf(prev, h), n, h);
    }
    forall p: nat | n + 1 - WSIZE <= p < n + 1
      ensures Latest(w, LinkOf(prev', p), p, HashAt(w, p))
    {
      if p == n {
        assert LinkOf(prev', n) == m;
      } else {
        OtherSlot(n, p);
        assert LinkOf(prev', p) == LinkOf(prev, p);
        assert Latest(w, LinkOf(prev, p), p, HashAt(w, p));
      }
    }
  }

  /** Bytes not hashed yet do not matter. */
  lemma ChainsRead(w: seq<byte>, w': seq<byte>, prev: seq<ush>, n: nat)
    requires Chains(w, prev, n) && |w'| == |w| && w'[..n + 2] == w[..n + 2]
    ensures Chains(w', prev, n)
  {
    forall q: nat | q < n ensures HashAt(w', q) == HashAt(w, q) {
      assert w'[q] == w'[..n + 2][q] && w'[q + 1] == w'[..n + 2][q + 1] && w'[q + 2] == w'[..n + 2][q + 2];
    }
    forall h | 0 <= h < HASH_SIZE ensures Latest(w', HeadOf(prev, h), n, h) {
      assert Latest(w, HeadOf(prev, h), n, h);
    }
    forall p: nat | n - WSIZE <= p < n ensures Latest(w', LinkOf(prev, p), p, HashAt(w', p)) {
      assert Latest(w, LinkOf(prev, p), p, HashAt(w, p));
    }
  }

  // ---------- sliding ----------

  /** What an entry becomes when the window slides. */
  function Slid(m: ush): ush
  {
    if m >= WSIZE then m - WSIZE else 0
  }

  /** The upper half of the window is now also the lower half. */
  ghost predicate Moved(w: seq<byte>, w': seq<byte>)
  {
    |w'| == |w| >= 2 * WSIZE && w'[..WSIZE] == w[WSIZE..2 * WSIZE] && w'[WSIZE..] == w[WSIZE..]
  }

  lemma HashMoved(w: seq<byte>, w': seq<byte>, q: nat)
    requires Moved(w, w') && q + 2 < WSIZE
    ensures HashAt(w', q) == HashAt(w, q + WSIZE)
  {
    assert w'[q] == w'[..WSIZE][q] && w'[q + 1] == w'[..WSIZE][q + 1] && w'[q + 2] == w'[..WSIZE][q + 2];
    assert w[WSIZE..2 * WSIZE][q] == w[q + WSIZE] && w[WSIZE..2 * WSIZE][q + 1] == w[q + WSIZE + 1]
        && w[WSIZE..2 * WSIZE][q + 2] == w[q + WSIZE + 2];
  }

  lemma LatestMoved(w: seq<byte>, w': seq<byte>, m: ush, n: nat, h: nat)
    requires Moved(w, w') && WSIZE <= n && n + 2 <= 2 * WSIZE && Latest(w, m, n, h)
    ensures Latest(w', Slid(m), n - WSIZE, h)
  {
    hide HashAt, Moved;
    assert |w'| == |w| >= 2 * WSIZE by {
      MovedSize(w, w');
    }
    if m > WSIZE {
      HashMoved(w, w', m - WSIZE);
    }
    forall q | Slid(m) < q < n - WSIZE ensures HashAt(w', q) != h {
      HashMoved(w, w', q);
    }
  }

  lemma MovedSize(w: seq<byte>, w': seq<byte>)
    requires Moved(w, w')
    ensures |w'| == |w| >= 2 * WSIZE
  {
  }

  /** Sliding keeps what remains of the chains. */
  lemma ChainsMoved(w: seq<byte>, w': seq<byte>, prev: seq<ush>, prev': seq<ush>, n: nat)
    requires Moved(w, w') && Chains(w, prev, n) && WSIZE <= n && n + 2 <= 2 * WSIZE && |prev'| == |prev|
    requires forall i :: 0 <= i < WSIZE + HASH_SIZE ==> prev'[i] == Slid(prev[i])
    ensures Chains(w', prev', n - WSIZE)
  {
    hide Latest, HashAt, Moved;
    MovedSize(w, w');
    forall h | 0 <= h < HASH_SIZE ensures Latest(w', HeadOf(prev', h), n - WSIZE, h) {
      assert Latest(w, HeadOf(prev, h), n, h);
      LatestMoved(w, w', HeadOf(prev, h), n, h);
    }
    forall p: nat | p < n - WSIZE ensures Latest(w', LinkOf(prev', p), p, HashAt(w', p)) {
      var p0 := p + WSIZE;
      assert p0 % WSIZE == p % WSIZE;
      assert Latest(w, LinkOf(prev, p0), p0, HashAt(w, p0));
      HashMoved(w, w', p);
      LatestMoved(w, w', LinkOf(prev, p0), p0, HashAt(w, p0));
    }
  }

  // ---------- matches ----------

  /** The strings at a and b agree in byte i. */
  predicate Same(w: seq<byte>, a: nat, b: nat, i: nat)
    requires a + i < |w| && b + i < |w|
  {
    w[a + i] == w[b + i]
  }

  /** How far the strings at a and b agree from byte k on, at most to MAX_MATCH. */
  function CommonFrom(w: seq<byte>, a: nat, b: nat, k: nat): (r: nat)
    requires k <= MAX_MATCH && a + MAX_MATCH <= |w| && b + MAX_MATCH <= |w|
    ensures k <= r <= MAX_MATCH
    ensures r < MAX_MATCH ==> !Same(w, a, b, r)
    ensures forall i :: k <= i < r ==> Same(w, a, b, i)
    decreases MAX_MATCH - k
  {
    if k == MAX_MATCH || !Same(w, a, b, k) then k else CommonFrom(w, a, b, k + 1)
  }

  function MatchLen(w: seq<byte>, a: nat, b: nat): (r: nat)
    requires a + MAX_MATCH <= |w| && b + MAX_MATCH <= |w|
    ensures r <= MAX_MATCH
    ensures r < MAX_MATCH ==> !Same(w, a, b, r)
    ensures forall i :: 0 <= i < r ==> Same(w, a, b, i)
  {
    CommonFrom(w, a, b, 0)
  }

  /** What agrees and then differs is the match length. */
  lemma MatchLenIs(w: seq<byte>, a: nat, b: nat, len: nat)
    requires len <= MAX_MATCH && a + MAX_MATCH <= |w| && b + MAX_MATCH <= |w|
    requires forall i :: 0 <= i < len ==> Same(w, a, b, i)
    requires len < MAX_MATCH ==> !Same(w, a, b, len)
    ensures MatchLen(w, a, b) == len
  {
  }

  /** A match worth the name has the same hash. */
  lemma MatchHash(w: seq<byte>, a: nat, b: nat)
    requires a + MAX_MATCH <= |w| && b + MAX_MATCH <= |w| && MatchLen(w, a, b) >= MIN_MATCH
    ensures HashAt(w, a) == HashAt(w, b)
  {
    hide Hash3;
    assert Same(w, a, b, 0) && Same(w, a, b, 1) && Same(w, a, b, 2);
  }

  /** The third byte need not be compared. */
  lemma HashMatch(w: seq<byte>, a: nat, b: nat)
    requires a + MAX_MATCH <= |w| && b + MAX_MATCH <= |w|
    requires HashAt(w, a) == HashAt(w, b) && Same(w, a, b, 0) && Same(w, a, b, 1)
    ensures Same(w, a, b, 2)
  {
    hide Hash3;
    ThirdByte(w[a], w[a + 1], w[a + 2], w[b + 2]);
  }
}
