/** How far into the window longest_match is called: the assertion on strstart, and an input
    for which it fails. */
module LateSearch {
  import opened Bits
  import opened Tokens
  import opened HashChains
  import opened SlidingWindow
  import opened LazyParse
  import opened Lookahead

  /** What the source asserts: the longest match there is room for ends within the window. */
  predicate EnoughRoom(s: nat)
  {
    s <= WINDOW_SIZE - MIN_LOOKAHEAD
  }

  /** As long as there is more to be read, it holds, and the result of a search is that of any
      other window with this input. */
  lemma BeforeTheEnd(r: Decision, input: seq<byte>, w': seq<byte>)
    requires RoundOk(r, input) && !r.eof
    ensures EnoughRoom(r.s)
    ensures SameInput(r.window, w', r.s, r.lookahead) ==>
              Hunted(w', r.s, r.lookahead, r.before.length, r.start0, r.start, r.len, r.hunt)
  {
    hide Hunted, Mirrors;
    if SameInput(r.window, w', r.s, r.lookahead) {
      InputOnly(r, input, w');
    }
  }

  /** With this much lookahead it holds wherever that fits the window; with any less it need
      not. */
  lemma LookaheadNeeded(lookahead: nat)
    ensures (forall s: nat :: s + lookahead <= WINDOW_SIZE ==> EnoughRoom(s)) <==> lookahead >= MIN_LOOKAHEAD
  {
    assert !EnoughRoom(WINDOW_SIZE - MIN_LOOKAHEAD + 1);
  }

  /** Once all is read, it holds for every place up to the end exactly if the window, from its
      start, has no more input left than would leave the last place room. */
  lemma AtTheEnd(r: Decision, input: seq<byte>)
    requires RoundOk(r, input) && r.eof
    ensures (forall s :: r.s <= s < r.s + r.lookahead ==> EnoughRoom(s)) <==> |input| - r.base <= WINDOW_SIZE - MIN_LOOKAHEAD + 1
  {
    hide Hunted, Mirrors;
    var last := EnoughRoom(r.s + r.lookahead - 1);
  }

  // ---------- an input for which it fails ----------

  /** Only zeros, so that each search finds the longest match one byte back. */
  function Zeros(n: nat): seq<byte>
  {
    seq(n, _ => 0)
  }

  const LENGTH: nat := 65279

  lemma ZeroAt(w: seq<byte>, n: nat, base: nat, i: nat)
    requires Mirrors(w, n, Zeros(LENGTH), base) && i < n
    ensures w[i] == 0
  {
    MirrorsAt(w, n, Zeros(LENGTH), base, i);
  }

  lemma ZeroHash(w: seq<byte>, n: nat, base: nat, p: nat, q: nat)
    requires Mirrors(w, n, Zeros(LENGTH), base) && p + 3 <= n && q + 3 <= n && n < |w|
    ensures HashAt(w, p) == HashAt(w, q)
  {
    forall i | 0 <= i < n ensures w[i] == 0 {
      ZeroAt(w, n, base, i);
    }
  }

  /** The chain starts one byte back, but not at the start of the window. */
  lemma ZeroHead(r: Decision)
    requires RoundOk(r, Zeros(LENGTH)) && r.lookahead >= MIN_MATCH
    ensures r.hunt.head == if r.s >= 2 then r.s - 1 else 0
  {
    hide HashAt, Outcome, Mirrors;
    if r.s >= 2 {
      ZeroHash(r.window, r.s + r.lookahead, r.base, r.s - 1, r.s);
    }
  }

  lemma ZeroLen(r: Decision)
    requires RoundOk(r, Zeros(LENGTH)) && r.lookahead >= MAX_MATCH && r.s >= 1
    ensures MatchLen(r.window, r.s - 1, r.s) == MAX_MATCH
  {
    hide Hunted;
    forall i | 0 <= i < r.s + r.lookahead ensures r.window[i] == 0 {
      ZeroAt(r.window, r.s + r.lookahead, r.base, i);
    }
    MatchLenIs(r.window, r.s - 1, r.s, MAX_MATCH);
  }

  /** At the start no match is found. */
  lemma NoMatchYet(r: Decision)
    requires RoundOk(r, Zeros(LENGTH)) && r.lookahead >= MIN_MATCH && r.s <= 1
    ensures r.len == MIN_MATCH - 1
  {
    hide HashAt, Outcome, Mirrors;
    ZeroHead(r);
  }

  /** Later one of full length is. */
  lemma FullMatch(r: Decision)
    requires RoundOk(r, Zeros(LENGTH)) && r.lookahead >= MAX_MATCH && r.s >= 2 && r.before.length < MIN_MATCH
    ensures r.len == MAX_MATCH
  {
    hide HashAt, Mirrors, MatchLen, HashCount;
    ZeroHead(r);
    ZeroLen(r);
    ZeroHash(r.window, r.s + r.lookahead, r.base, r.s - 1, r.s);
  }

  /** Behind one of full length there is no search. */
  lemma NoSearch(r: Decision, input: seq<byte>)
    requires RoundOk(r, input) && r.before.length >= MAX_MATCH
    ensures r.len == MIN_MATCH - 1 && Takes(r)
  {
    hide HashAt, Mirrors, Outcome;
  }

  /** The round at a place, with nothing found before. */
  ghost predicate Fresh(rs: seq<Decision>, i: nat, at: nat)
  {
    i < |rs| && rs[i].before.at == at && rs[i].base == 0 && rs[i].before.length == MIN_MATCH - 1
  }

  /** There is another round, where this one ends. */
  lemma NextRound(rs: seq<Decision>, ts: seq<Token>, input: seq<byte>, i: nat)
    requires Parsed(rs, ts, input) && i < |rs| && After(rs[i]).at < |input|
    ensures i + 1 < |rs| && RoundOk(rs[i], input) && RoundOk(rs[i + 1], input) && Follows(rs[i], rs[i + 1])
  {
    hide RoundOk, Follows, Sent;
  }

  lemma RoundFacts(r: Decision, input: seq<byte>)
    requires RoundOk(r, input)
    ensures r.before.at == r.base + r.s < |input| && r.s + r.lookahead <= WINDOW_SIZE
    ensures r.base + r.s + r.lookahead <= |input|
    ensures r.lookahead >= MIN_LOOKAHEAD || r.base + r.s + r.lookahead == |input|
    ensures r.eof || r.lookahead >= MIN_LOOKAHEAD
  {
    hide Hunted;
  }

  lemma TwoFresh(rs: seq<Decision>, ts: seq<Token>)
    requires Parsed(rs, ts, Zeros(LENGTH))
    ensures Fresh(rs, 2, 2)
  {
    hide RoundOk, Sent;
    assert rs != [];
    RoundFacts(rs[0], Zeros(LENGTH));
    NoMatchYet(rs[0]);
    NextRound(rs, ts, Zeros(LENGTH), 0);
    RoundFacts(rs[1], Zeros(LENGTH));
    NoMatchYet(rs[1]);
    NextRound(rs, ts, Zeros(LENGTH), 1);
  }

  /** From one fresh round to the next it is a match of full length: a search and a round
      without one. */
  lemma FreshNext(rs: seq<Decision>, ts: seq<Token>, i: nat, at: nat)
    requires Parsed(rs, ts, Zeros(LENGTH)) && Fresh(rs, i, at) && 2 <= at
    requires at + MAX_MATCH < WSIZE + MAX_DIST || at + MIN_LOOKAHEAD - 1 == LENGTH
    ensures Fresh(rs, i + 2, at + MAX_MATCH)
  {
    hide RoundOk, Sent;
    var input := Zeros(LENGTH);
    assert RoundOk(rs[i], input);
    RoundFacts(rs[i], input);
    FullMatch(rs[i]);
    NextRound(rs, ts, input, i);
    RoundFacts(rs[i + 1], input);
    NoSearch(rs[i + 1], input);
    NextRound(rs, ts, input, i + 1);
  }

  lemma {:induction false} FreshAt(rs: seq<Decision>, ts: seq<Token>, k: nat) returns (i: nat)
    requires Parsed(rs, ts, Zeros(LENGTH)) && k <= 253
    ensures Fresh(rs, i, 2 + MAX_MATCH * k)
  {
    hide Parsed;
    if k == 0 {
      TwoFresh(rs, ts);
      i := 2;
    } else {
      i := FreshAt(rs, ts, k - 1);
      FreshNext(rs, ts, i, 2 + MAX_MATCH * (k - 1));
      i := i + 2;
    }
  }

  /** Compressing 65279 zeros, however they are read, the last search is made from a place
      where the assertion does not hold. */
  lemma AssertionFails(rs: seq<Decision>, ts: seq<Token>) returns (i: nat)
    requires Parsed(rs, ts, Zeros(LENGTH))
    ensures i < |rs| && Searches(rs[i].s, rs[i].before.length, rs[i].hunt.head) && !EnoughRoom(rs[i].s)
  {
    hide RoundOk, Sent;
    i := FreshAt(rs, ts, 253);
    assert RoundOk(rs[i], Zeros(LENGTH));
    RoundFacts(rs[i], Zeros(LENGTH));
    ZeroHead(rs[i]);
  }
}
