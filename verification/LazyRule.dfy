/** What a round of deflate() does, in plain numbers: which earlier strings it looks at, what it
    takes for a match, and what it sends. */
module LazyRule {
  import opened Bits
  import opened Tokens
  import opened HashChains
  import opened SlidingWindow
  import opened LazyParse

  /** The strings between low and s with the hash of the one at s. */
  function Looked(w: seq<byte>, s: nat, low: nat): (r: set<nat>)
    requires s + 258 <= |w|
    ensures forall q :: q in r <==> low < q < s && HashAt(w, q) == HashAt(w, s)
  {
    set q: nat | low < q < s && HashAt(w, q) == HashAt(w, s)
  }

  /** The strings at q and s agree in n bytes. */
  predicate Agree(w: seq<byte>, q: nat, s: nat, n: nat)
    requires q <= s && s + n <= |w|
  {
    forall i :: s <= i < s + n ==> w[i] == w[i - (s - q)]
  }

  /** The search at s, when the match found before is oldLength bytes long, looks at all strings
      with the same hash down to low: the first one at most 32506 back, the others nearer; not
      more than 4096, or 1024 if the old match has 32 bytes; and all of them, unless a match has
      258 bytes. */
  ghost predicate LooksAt(w: seq<byte>, s: nat, oldLength: nat, found: nat, head: nat, low: nat)
    requires s + 258 <= |w|
  {
    && low < head < s <= head + 32506 && head in Looked(w, s, low)
    && (forall q :: q in Looked(w, s, low) ==> q == head || (q < head && s < q + 32506))
    && |Looked(w, s, low)| <= (if oldLength >= 32 then 1024 else 4096)
    && (|Looked(w, s, low)| == (if oldLength >= 32 then 1024 else 4096) || found == 258
        || forall q :: 0 < q <= low && q in Looked(w, s, 0) ==> s >= q + 32506)
  }

  /** It finds the longest of them, the nearest one if there are several, but only if it is
      longer than the old match. */
  ghost predicate Finds(w: seq<byte>, s: nat, oldLength: nat, start0: nat, start: nat, found: nat, low: nat)
    requires s + 258 <= |w|
  {
    && oldLength <= found <= 258
    && (found < 258 ==> forall q :: q in Looked(w, s, low) ==> !Agree(w, q, s, found + 1))
    && if found == oldLength then start == start0
       else
         && start in Looked(w, s, low) && Agree(w, start, s, found)
         && forall q :: start < q && q in Looked(w, s, low) ==> !Agree(w, q, s, found)
  }

  /** There is no search if no string has the same hash, the nearest is further away than 32506,
      or the old match has 258 bytes. What is found is cut off at the lookahead; three bytes from
      further away than 4096 do not count. */
  ghost predicate SearchRule(w: seq<byte>, s: nat, lookahead: nat, oldLength: nat, start0: nat, start: nat, len: nat, h: Hunt)
    requires s + 258 <= |w|
  {
    && (h.head == 0 ==> Looked(w, s, 0) == {})
    && (h.head != 0 ==> h.head in Looked(w, s, 0) && forall q :: q in Looked(w, s, 0) ==> q <= h.head)
    && if h.head == 0 || oldLength >= 258 || s > h.head + 32506 then len == 2 && start == start0
       else
         && LooksAt(w, s, oldLength, h.found, h.head, h.low)
         && Finds(w, s, oldLength, start0, start, h.found, h.low)
         && len == var cut := if h.found > lookahead then lookahead else h.found;
              if cut == 3 && (s - start) % 0x1_0000_0000 > 4096 then 2 else cut
  }

  lemma {:induction false} CountIsSize(w: seq<byte>, s: nat, low: nat, hi: nat)
    requires s + 258 <= |w| && low < hi <= s
    ensures HashCount(w, HashAt(w, s), low, hi) == |set q: nat | low < q < hi && HashAt(w, q) == HashAt(w, s)|
    decreases hi - low
  {
    hide HashAt;
    var a := set q: nat | low < q < hi && HashAt(w, q) == HashAt(w, s);
    if hi == low + 1 {
      assert a == {};
    } else {
      var b := set q: nat | low < q < hi - 1 && HashAt(w, q) == HashAt(w, s);
      CountIsSize(w, s, low, hi - 1);
      assert a == if HashAt(w, hi - 1) == HashAt(w, s) then b + {hi - 1} else b;
    }
  }

  lemma AgreeIs(w: seq<byte>, q: nat, s: nat, n: nat)
    requires q < s && s + 258 <= |w| && n <= 258
    ensures Agree(w, q, s, n) <==> MatchLen(w, q, s) >= n
  {
    hide MatchLen;
    if MatchLen(w, q, s) < n {
      assert !Same(w, q, s, MatchLen(w, q, s));
      assert w[s + MatchLen(w, q, s)] != w[s + MatchLen(w, q, s) - (s - q)];
    } else {
      forall i | s <= i < s + n ensures w[i] == w[i - (s - q)] {
        assert Same(w, q, s, i - s);
      }
    }
  }

  lemma LooksAtIs(w: seq<byte>, s: nat, oldLength: nat, start0: nat, start: nat, found: nat, head: nat, low: nat)
    requires s + 258 <= |w| && Outcome(w, s, head, oldLength, start0, start, found, low)
    requires Latest(w, head, s, HashAt(w, s)) && 0 < head && s <= head + 32506
    ensures LooksAt(w, s, oldLength, found, head, low)
  {
    hide HashAt, HashCount, Found, Searched;
    CountIsSize(w, s, low, s);
    assert Looked(w, s, low) == set q: nat | low < q < s && HashAt(w, q) == HashAt(w, s);
  }

  lemma FindsIs(w: seq<byte>, s: nat, oldLength: nat, start0: nat, start: nat, found: nat, head: nat, low: nat)
    requires s + 258 <= |w| && Outcome(w, s, head, oldLength, start0, start, found, low)
    requires oldLength >= 2
    ensures Finds(w, s, oldLength, start0, start, found, low)
  {
    hide HashCount, Within, EndsAt, Agree, MatchLen, Looked;
    forall q | q in Looked(w, s, low) && found < 258 ensures !Agree(w, q, s, found + 1) {
      AgreeIs(w, q, s, found + 1);
      assert MatchLen(w, q, s) <= found;
    }
    if found > oldLength {
      AgreeIs(w, start, s, found);
      MatchHash(w, start, s);
      forall q | start < q && q in Looked(w, s, low) ensures !Agree(w, q, s, found) {
        AgreeIs(w, q, s, found);
        assert MatchLen(w, q, s) <= found - 1;
      }
    }
  }

  /** A search is as the rule says. */
  lemma SearchIs(w: seq<byte>, s: nat, lookahead: nat, oldLength: nat, start0: nat, start: nat, len: nat, h: Hunt)
    requires s + 258 <= |w| && oldLength >= 2 && Hunted(w, s, lookahead, oldLength, start0, start, len, h)
    ensures SearchRule(w, s, lookahead, oldLength, start0, start, len, h)
  {
    hide HashAt, Outcome, LooksAt, Finds;
    if h.head != 0 && oldLength < 258 && s <= h.head + 32506 {
      LooksAtIs(w, s, oldLength, start0, start, h.found, h.head, h.low);
      FindsIs(w, s, oldLength, start0, start, h.found, h.head, h.low);
    }
  }

  /** A match of three bytes or more found before goes out, unless the one found now is longer:
      the next round starts behind it, with nothing kept. Else the byte before goes out, if it
      has been kept, and the match found now waits while its first byte is kept. */
  ghost predicate SendRule(r: Decision, sent: seq<Token>, next: State, input: seq<byte>)
    requires r.before.available ==> 1 <= r.before.at <= |input|
  {
    if r.before.length >= 3 && r.len <= r.before.length then
      && sent == [Match(r.before.length, r.before.distance)]
      && next.at == r.before.at + r.before.length - 1 && !next.available && next.length == 2
    else
      && sent == (if r.before.available then [Literal(input[r.before.at - 1])] else [])
      && next.at == r.before.at + 1 && next.available && next.length == r.len
      && next.distance == (r.s - r.start) % 0x1_0000_0000
  }

  /** Rounds as the rules say, each from where the one before ended, the first from the start of
      the input with nothing kept. */
  ghost predicate ByTheRules(rs: seq<Decision>, input: seq<byte>)
  {
    && (forall i :: 0 <= i < |rs| ==> RoundByTheRules(rs[i], input))
    && (forall i :: 0 <= i < |rs| - 1 ==> Continues(rs[i], rs[i + 1].before, input))
    && (rs != [] ==> rs[0].before.at == 0 && !rs[0].before.available && rs[0].before.length == 2)
  }

  ghost predicate RoundByTheRules(r: Decision, input: seq<byte>)
  {
    && r.s + 258 <= |r.window| && r.s + r.lookahead <= |r.window| && (r.before.available ==> 1 <= r.before.at <= |input|)
    && r.base + r.s == r.before.at && r.before.at + r.lookahead <= |input|
    && (forall k :: 0 <= k < r.s + r.lookahead ==> r.window[k] == input[r.base + k])
    && (r.lookahead >= 262 || r.before.at + r.lookahead == |input|)
    && SearchRule(r.window, r.s, r.lookahead, r.before.length, r.start0, r.start, r.len, r.hunt)
  }

  ghost predicate Continues(r: Decision, q: State, input: seq<byte>)
  {
    && (r.before.available ==> 1 <= r.before.at <= |input|)
    && exists d: nat :: SendRule(r, Sends(r, input), q.(distance := d), input) && (q.length >= 3 ==> d == q.distance)
  }

  /** The rounds of a whole input are by the rules. */
  lemma ParsedByTheRules(rs: seq<Decision>, ts: seq<Token>, input: seq<byte>)
    requires Parsed(rs, ts, input)
    ensures ByTheRules(rs, input)
  {
    hide RoundOk, Follows, Sent, RoundByTheRules, Continues;
    forall i | 0 <= i < |rs| ensures RoundByTheRules(rs[i], input) {
      RoundIs(rs[i], input);
    }
    forall i | 0 <= i < |rs| - 1 ensures Continues(rs[i], rs[i + 1].before, input) {
      assert Follows(rs[i], rs[i + 1]);
      RoundIs(rs[i], input);
      FollowsIs(rs[i], rs[i + 1], input);
    }
  }

  lemma RoundIs(r: Decision, input: seq<byte>)
    requires RoundOk(r, input)
    ensures RoundByTheRules(r, input)
  {
    hide Hunted, SearchRule;
    forall k | 0 <= k < r.s + r.lookahead ensures r.window[k] == input[r.base + k] {
      MirrorsAt(r.window, r.s + r.lookahead, input, r.base, k);
    }
    SearchIs(r.window, r.s, r.lookahead, r.before.length, r.start0, r.start, r.len, r.hunt);
  }

  lemma FollowsIs(r: Decision, r': Decision, input: seq<byte>)
    requires RoundByTheRules(r, input) && Follows(r, r')
    ensures Continues(r, r'.before, input)
  {
    hide SearchRule;
    assert SendRule(r, Sends(r, input), r'.before.(distance := After(r).distance), input);
  }
}
