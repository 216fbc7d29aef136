/** The rounds of deflate(), and the tokens that they send: lazy matching. */
module LazyParse {
  import opened Bits
  import opened Tokens
  import opened HashChains
  import opened SlidingWindow

  /** Matches not longer than this are worth a search for a better one. */
  const MAX_LAZY_MATCH: nat := 258
  const TOO_FAR: nat := 4096

  /** What happens in a search: where the last string with the same hash is, how long a
      match was found, and down to where strings have been looked at. */
  datatype Hunt = Hunt(head: nat, found: nat, low: nat)

  /** A match is cut off at the lookahead; one of length 3 that is too far away does not
      count. */
  function Useful(found: nat, lookahead: nat, distance: nat): nat
  {
    var len := if found > lookahead then lookahead else found;
    if len == MIN_MATCH && distance > TOO_FAR then len - 1 else len
  }

  /** Whether there is a search at s at all: not if the previous match is good enough or no
      earlier string is near enough. */
  predicate Searches(s: nat, oldLength: nat, head: nat)
  {
    head != 0 && oldLength < MAX_LAZY_MATCH && s <= head + MAX_DIST
  }

  /** The match at s: none without a search, else the longest among the strings looked at. */
  ghost predicate Hunted(w: seq<byte>, s: nat, lookahead: nat, oldLength: nat, start0: nat, start: nat, len: nat, h: Hunt)
    requires s + MAX_MATCH <= |w|
  {
    && Latest(w, h.head, s, HashAt(w, s))
    && if Searches(s, oldLength, h.head) then
         && Outcome(w, s, h.head, oldLength, start0, start, h.found, h.low)
         && len == Useful(h.found, lookahead, (s - start) % UINT_RANGE)
       else len == MIN_MATCH - 1 && start == start0
  }

  lemma HuntedNone(w: seq<byte>, s: nat, lookahead: nat, oldLength: nat, start: nat, head: nat)
    requires s + MAX_MATCH <= |w| && Latest(w, head, s, HashAt(w, s)) && !Searches(s, oldLength, head)
    ensures Hunted(w, s, lookahead, oldLength, start, start, MIN_MATCH - 1, Hunt(head, MIN_MATCH - 1, 0))
  {
    hide Latest, HashAt;
  }

  /** What a round starts from: the position in the input, whether the byte before it is still
      to be sent, and the match found for that one, if it has three bytes. */
  datatype State = State(at: nat, available: bool, length: nat, distance: nat)

  /** A round: the window with how far it has slid, the place in it, what is there to be read
      and whether there is no more, the match found before and the one found now. */
  datatype Decision = Decision(window: seq<byte>, base: nat, s: nat, lookahead: nat, eof: bool,
                               before: State, start0: nat, len: nat, start: nat, hunt: Hunt)

  /** The match found before is better. */
  predicate Takes(r: Decision)
  {
    r.before.length >= MIN_MATCH && r.len <= r.before.length
  }

  /** The match found before, if it is better, or else the byte before. */
  function Sends(r: Decision, input: seq<byte>): seq<Token>
    requires r.before.available ==> 1 <= r.before.at <= |input|
  {
    if Takes(r) then [Match(r.before.length, r.before.distance)]
    else Held(r.before, input)
  }

  function Held(q: State, input: seq<byte>): seq<Token>
    requires q.available ==> 1 <= q.at <= |input|
  {
    if q.available then [Literal(input[q.at - 1])] else []
  }

  /** Behind a match that is sent, or one byte on with the match found now. */
  function After(r: Decision): State
  {
    if Takes(r) then State(r.before.at + r.before.length - 1, false, MIN_MATCH - 1, 0)
    else State(r.before.at + 1, true, r.len, (r.s - r.start) % UINT_RANGE)
  }

  /** The round works on the input, and has found what a search finds. */
  ghost predicate RoundOk(r: Decision, input: seq<byte>)
  {
    && |r.window| == WINDOW_SIZE + MAX_MATCH && 1 <= r.lookahead && r.s + r.lookahead <= WINDOW_SIZE
    && Mirrors(r.window, r.s + r.lookahead, input, r.base) && r.before.at == r.base + r.s
    && (if r.eof then r.base + r.s + r.lookahead == |input| else r.lookahead >= MIN_LOOKAHEAD)
    && (r.before.available ==> r.before.at >= 1)
    && r.before.length >= MIN_MATCH - 1
    && (r.before.length >= MIN_MATCH ==> r.before.available && r.before.distance == (r.s - 1 - r.start0) % UINT_RANGE)
    && Hunted(r.window, r.s, r.lookahead, r.before.length, r.start0, r.start, r.len, r.hunt)
  }

  /** What r leaves is what r' starts from; distances of matches that do not count may differ.
      The window slides only near its end, while there is more to read. */
  ghost predicate Follows(r: Decision, r': Decision)
  {
    && SameState(After(r), r'.before)
    && (r'.base == r.base || (!r.eof && r'.before.at >= r.base + WSIZE + MAX_DIST))
    && (r.eof ==> r'.eof)
  }

  predicate SameState(q: State, q': State)
  {
    && q.at == q'.at && q.available == q'.available && q.length == q'.length
    && (q.length >= MIN_MATCH ==> q.distance == q'.distance)
  }

  /** Rounds one after the other, from the start of the input. */
  ghost predicate Rounds(rs: seq<Decision>, input: seq<byte>)
  {
    && (forall i :: 0 <= i < |rs| ==> RoundOk(rs[i], input))
    && (forall i :: 0 <= i < |rs| - 1 ==> Follows(rs[i], rs[i + 1]))
    && (rs != [] ==> SameState(rs[0].before, FIRST) && rs[0].base == 0)
  }

  const FIRST := State(0, false, MIN_MATCH - 1, 0)

  function Last(rs: seq<Decision>): State
  {
    if rs == [] then FIRST else After(rs[|rs| - 1])
  }

  /** All tokens sent in these rounds. */
  ghost function Sent(rs: seq<Decision>, input: seq<byte>): seq<Token>
    requires Rounds(rs, input)
  {
    if rs == [] then []
    else
      RoundsFront(rs, input);
      Sent(rs[..|rs| - 1], input) + Sends(rs[|rs| - 1], input)
  }

  lemma RoundsFront(rs: seq<Decision>, input: seq<byte>)
    requires Rounds(rs, input) && rs != []
    ensures Rounds(rs[..|rs| - 1], input)
    ensures var r := rs[|rs| - 1]; r.before.available ==> 1 <= r.before.at <= |input|
  {
    hide Hunted, Mirrors;
    var front := rs[..|rs| - 1];
    forall i | 0 <= i < |front| - 1 ensures Follows(front[i], front[i + 1]) {
      assert Follows(rs[i], rs[i + 1]);
    }
    assert RoundOk(rs[|rs| - 1], input);
    Inside(rs[|rs| - 1], input);
  }

  lemma Inside(r: Decision, input: seq<byte>)
    requires RoundOk(r, input)
    ensures r.base + r.s + r.lookahead <= |input|
  {
    hide Hunted;
  }

  /** One round more. */
  lemma RoundNext(rs: seq<Decision>, r: Decision, input: seq<byte>)
    requires Rounds(rs, input) && RoundOk(r, input)
    requires if rs == [] then SameState(r.before, FIRST) && r.base == 0 else Follows(rs[|rs| - 1], r)
    ensures Rounds(rs + [r], input) && (r.before.available ==> 1 <= r.before.at <= |input|)
    ensures Sent(rs + [r], input) == Sent(rs, input) + Sends(r, input)
  {
    hide RoundOk, Follows;
    var l := rs + [r];
    forall i | 0 <= i < |l| - 1 ensures Follows(l[i], l[i + 1]) {
      if i < |rs| - 1 {
        assert Follows(rs[i], rs[i + 1]);
      }
    }
    assert l[..|l| - 1] == rs;
    RoundsFront(l, input);
  }

  /** The rounds so far have sent these tokens and left this state, with the window slid so far
      and the input at its end or not. */
  ghost predicate Chosen(rs: seq<Decision>, ts: seq<Token>, input: seq<byte>, q: State, base: nat, eof: bool)
  {
    && Rounds(rs, input) && ts == Sent(rs, input) && SameState(Last(rs), q)
    && if rs == [] then base == 0
       else
         var r := rs[|rs| - 1];
         (base == r.base || (!r.eof && q.at >= r.base + WSIZE + MAX_DIST)) && (r.eof ==> eof)
  }

  lemma ChosenNext(rs: seq<Decision>, ts: seq<Token>, input: seq<byte>, q: State, base: nat, eof: bool,
                   r: Decision, ts': seq<Token>, q': State, base': nat, eof': bool)
    requires Chosen(rs, ts, input, q, base, eof)
    requires RoundOk(r, input) && r.before == q && r.base == base && r.eof == eof && SameState(After(r), q')
    requires r.before.available ==> 1 <= r.before.at <= |input|
    requires ts' == ts + Sends(r, input)
    requires (base' == r.base || (!r.eof && q'.at >= r.base + WSIZE + MAX_DIST)) && (r.eof ==> eof')
    ensures Chosen(rs + [r], ts', input, q', base', eof')
  {
    hide RoundOk, Rounds, Sent, Sends;
    RoundNext(rs, r, input);
  }

  lemma ChosenAll(rs: seq<Decision>, ts: seq<Token>, input: seq<byte>, q: State, base: nat, eof: bool)
    requires Chosen(rs, ts, input, q, base, eof) && q.at == |input| && (q.available ==> 1 <= |input|)
    ensures Parsed(rs, ts + Held(q, input), input)
  {
    hide Rounds, Sent;
  }

  lemma NothingChosen(input: seq<byte>, q: State, eof: bool)
    requires q.at == 0 && !q.available && q.length == MIN_MATCH - 1
    ensures Chosen([], [], input, q, 0, eof)
  {
  }

  /** The tokens of a whole input: those of all rounds, and the last byte if it is left. */
  ghost predicate Parsed(rs: seq<Decision>, ts: seq<Token>, input: seq<byte>)
  {
    && Rounds(rs, input) && Last(rs).at == |input|
    && (Last(rs).available ==> 1 <= |input|) && ts == Sent(rs, input) + Held(Last(rs), input)
  }
}
