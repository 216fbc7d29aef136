/** deflate(): lazy matching over the whole input, and the theorem that a decoder
    gives the input back. */
module Deflate {
  import opened Bits
  import opened Inflate
  import opened BitWriting
  import opened Tokens
  import opened Blocks
  import opened BlockFormat
  import opened FlushBlock
  import opened Hashing
  import opened HashChains
  import opened SlidingWindow
  import opened LazyParse
  import opened LazyRule
  import opened Crc32
  import opened GzipFile
  import opened Options

  // ---------- matches in the input ----------

  /** len bytes of the input at pos repeat those d before. */
  ghost predicate Repeats(input: seq<byte>, pos: nat, d: nat, len: nat)
  {
    && 1 <= d <= pos && pos + len <= |input|
    && forall i :: pos <= i < pos + len ==> input[i] == input[i - d]
  }

  /** Copying such a match extends the output by input, also when it overlaps itself. */
  lemma {:induction false} CopyRepeats(input: seq<byte>, pos: nat, d: nat, len: nat)
    requires Repeats(input, pos, d, len)
    ensures CopyMatch(input[..pos], len, d) == input[..pos + len]
    decreases len
  {
    if len != 0 {
      assert input[..pos][pos - d] == input[pos - d] == input[pos];
      assert input[..pos] + [input[pos]] == input[..pos + 1];
      CopyRepeats(input, pos + 1, d, len - 1);
    }
  }

  /** A match found in the window, cut off at the lookahead, is one in the input. */
  lemma MatchRepeats(w: seq<byte>, n: nat, input: seq<byte>, base: nat, m: nat, s: nat, found: nat, len: nat)
    requires Mirrors(w, n, input, base) && IsMatch(w, m, s, found) && len <= found && s + len <= n
    ensures Repeats(input, base + s, s - m, len)
  {
    hide MatchLen;
    forall i | base + s <= i < base + s + len ensures input[i] == input[i - (s - m)] {
      var k := i - (base + s);
      MatchAgrees(w, m, s, k);
      MirrorsAt(w, n, input, base, s + k);
      MirrorsAt(w, n, input, base, m + k);
    }
  }

  lemma MatchAgrees(w: seq<byte>, m: nat, s: nat, k: nat)
    requires m + MAX_MATCH <= |w| && s + MAX_MATCH <= |w| && k < MatchLen(w, m, s)
    ensures w[m + k] == w[s + k]
  {
    assert Same(w, m, s, k);
  }

  // ---------- what deflate keeps ----------

  /** None of the buffers are shared. */
  ghost predicate Apart(m: Window, t: Trees, w: BitWriter)
  {
    && m.window !in t.Buffers() && m.prev !in t.Buffers() && w.outbuf !in t.Buffers()
    && (m as object) !in t.Buffers() && (w as object) !in t.Buffers() && m.window != w.outbuf
    && (m.window as object) != m.prev && (m.prev as object) != w.outbuf
  }

  /** The tokens not yet output stand for the input from block_start to pos. */
  ghost predicate Pending(m: Window, t: Trees, pos: nat)
    reads m`base, m`blockStart, t`tokens
  {
    && 0 <= m.base + m.blockStart <= pos <= |m.input|
    && WellFormed(m.input[..m.base + m.blockStart], t.tokens)
    && ApplyAll(m.input[..m.base + m.blockStart], t.tokens) == m.input[..pos]
  }

  /** All tokens so far, of which those of the current block are the last, stand for the
      input up to pos, with no match from further away than 32506. */
  ghost predicate Told(all: seq<Token>, tokens: seq<Token>, input: seq<byte>, pos: nat)
  {
    && pos <= |input| && WellFormed([], all) && ApplyAll([], all) == input[..pos]
    && (forall i :: 0 <= i < |all| && all[i].Match? ==> all[i].distance <= 32506)
    && |tokens| <= |all| && all[|all| - |tokens|..] == tokens
  }

  lemma ToldLiteral(all: seq<Token>, tokens: seq<Token>, input: seq<byte>, pos: nat)
    requires Told(all, tokens, input, pos) && pos < |input|
    ensures Told(all + [Literal(input[pos])], tokens + [Literal(input[pos])], input, pos + 1)
  {
    hide WellFormed, ApplyAll;
    LiteralCovers([], all, input, pos);
  }

  lemma ToldMatch(all: seq<Token>, tokens: seq<Token>, input: seq<byte>, pos: nat, d: nat, len: nat)
    requires Told(all, tokens, input, pos) && Repeats(input, pos, d, len) && MIN_MATCH <= len <= MAX_MATCH && d <= MAX_DIST
    ensures Told(all + [Match(len, d)], tokens + [Match(len, d)], input, pos + len)
  {
    hide WellFormed, ApplyAll, Repeats;
    RepeatsFits(input, pos, d, len);
    MatchCovers([], all, input, pos, d, len);
  }

  /** Whatever follows the bits sent so far, a decoder has made the input before
      block_start of them, and the tokens cover the rest up to pos. */
  ghost predicate Covered(m: Window, t: Trees, w: BitWriter, pos: nat)
    reads m`base, m`blockStart, t, t.Buffers(), w, w.outbuf
  {
    && Apart(m, t, w)
    && t.Valid() && w.Valid() && t.compressedLen == UInt(|w.sent|)
    && Pending(m, t, pos) && Told(t.all, t.tokens, m.input, pos)
    && Decodes([], w.sent, false, [], m.input[..m.base + m.blockStart])
  }

  lemma CoveredApart(m: Window, t: Trees, w: BitWriter, pos: nat)
    requires Covered(m, t, w, pos)
    ensures Apart(m, t, w)
  {
    hide Trees.Valid, BitWriter.Valid, Decodes, Pending, Told;
  }

  /** The match found one byte before strstart. */
  ghost predicate LazyMatch(m: Window, start: nat, len: nat)
    reads m`strstart, m`lookahead, m`base
  {
    && MIN_MATCH <= len <= MAX_MATCH && len <= m.lookahead + 1 && m.strstart >= 1
    && m.Distance(start) <= MAX_DIST
    && Repeats(m.input, m.base + m.strstart - 1, m.Distance(start), len)
  }

  /** One more literal. */
  lemma LiteralCovers(out: seq<byte>, ts: seq<Token>, input: seq<byte>, pos: nat)
    requires WellFormed(out, ts) && pos < |input| && ApplyAll(out, ts) == input[..pos]
    ensures WellFormed(out, ts + [Literal(input[pos])]) && ApplyAll(out, ts + [Literal(input[pos])]) == input[..pos + 1]
  {
    hide WellFormed, ApplyAll;
    ApplySnoc(out, ts, Literal(input[pos]));
  }

  /** One more match. */
  lemma MatchCovers(out: seq<byte>, ts: seq<Token>, input: seq<byte>, pos: nat, d: nat, len: nat)
    requires WellFormed(out, ts) && pos <= |input| && ApplyAll(out, ts) == input[..pos]
    requires Repeats(input, pos, d, len) && MIN_MATCH <= len <= MAX_MATCH && d <= 0x8000
    ensures WellFormed(out, ts + [Match(len, d)]) && ApplyAll(out, ts + [Match(len, d)]) == input[..pos + len]
  {
    hide WellFormed, ApplyAll;
    CopyRepeats(input, pos, d, len);
    ApplySnoc(out, ts, Match(len, d));
  }

  // ---------- the steps of deflate ----------

  /** FLUSH_BLOCK(0), and a new block from strstart on. */
  method FlushHere(m: Window, t: Trees, w: BitWriter)
    requires m.Placed() && Covered(m, t, w, m.At())
    modifies m`blockStart, t, t.Buffers(), w, w.outbuf
    ensures m.Placed() && m.blockStart == m.strstart
    ensures Covered(m, t, w, m.At()) && t.Room() && t.all == old(t.all)
  {
    hide Trees.Valid, BitWriter.Valid, Decodes, WellFormed, ApplyAll, Mirrors, Planned, Emitted, BestEncoding, Window.Summed;
    ghost var out := m.input[..m.base + m.blockStart];
    ghost var before := w.sent;
    BlockBytes(m.window[..], m.strstart + m.lookahead, m.input, m.base, m.blockStart, m.strstart);
    var total;
    ghost var body, kind, plan;
    total, body, kind, plan := FlushBlock.FlushBlock(t, w, m.window, m.blockStart, m.strstart - m.blockStart, false, out);
    DecodesChain([], before, body, false, [], out, m.input[..m.At()]);
    m.blockStart := m.strstart;
    NoTokens(m.input[..m.At()]);
  }

  /** The bytes of a block are still in the window, unless block_start has become
      negative. */
  lemma BlockBytes(w: seq<byte>, n: nat, input: seq<byte>, base: nat, blockStart: int, strstart: nat)
    requires Mirrors(w, n, input, base) && blockStart <= strstart <= n && 0 <= base + blockStart
    ensures blockStart >= 0 ==>
              input[..base + strstart] == input[..base + blockStart] + w[blockStart..strstart]
  {
    if blockStart >= 0 {
      assert w[blockStart..strstart] == w[..n][blockStart..strstart];
      Slice(input, base, base + n, blockStart, strstart);
    }
  }

  lemma Slice(input: seq<byte>, from: nat, to: nat, a: nat, b: nat)
    requires from <= to <= |input| && a <= b <= to - from
    ensures input[from..to][a..b] == input[from + a..from + b]
    ensures input[..from + b] == input[..from + a] + input[from + a..from + b]
  {
    var x, y := input[from..to][a..b], input[from + a..from + b];
    forall k | 0 <= k < b - a ensures x[k] == y[k] {
      assert x[k] == input[from..to][a + k] == input[from + a + k];
    }
  }

  /** Hand a token over; it covers the input up to pos. */
  method Hand(m: Window, t: Trees, w: BitWriter, dist: nat, lc: byte, ghost from: nat, ghost pos: nat) returns (flush: bool)
    requires m.Placed() && Covered(m, t, w, from) && t.Room() && dist <= MAX_DIST
    requires dist == 0 ==> from < |m.input| && lc == m.input[from] && pos == from + 1
    requires dist > 0 ==> Repeats(m.input, from, dist, lc + MIN_MATCH) && pos == from + lc + MIN_MATCH
    modifies t, t.Buffers()
    ensures Covered(m, t, w, pos) && (!flush ==> t.Room())
    ensures t.all == old(t.all) + [if dist == 0 then Literal(lc) else Match(lc + MIN_MATCH, dist)]
  {
    hide Trees.Valid, BitWriter.Valid, Decodes, WellFormed, ApplyAll, Mirrors, Repeats, Told, Window.Summed;
    ghost var out := m.input[..m.base + m.blockStart];
    if dist == 0 {
      LiteralCovers(out, t.tokens, m.input, from);
      ToldLiteral(t.all, t.tokens, m.input, from);
    } else {
      RepeatsFits(m.input, from, dist, lc + MIN_MATCH);
      ToldMatch(t.all, t.tokens, m.input, from, dist, lc + MIN_MATCH);
      MatchCovers(out, t.tokens, m.input, from, dist, lc + MIN_MATCH);
    }
    flush := t.Tally(dist, lc, m.strstart - m.blockStart);
  }

  lemma RepeatsFits(input: seq<byte>, pos: nat, d: nat, len: nat)
    requires Repeats(input, pos, d, len)
    ensures pos + len <= |input|
  {
  }

  lemma BetterFound(w: seq<byte>, s: nat, head: nat, prevLength: nat, start0: nat, start: nat, len: nat, low: nat)
    requires s + MAX_MATCH <= |w| && Outcome(w, s, head, prevLength, start0, start, len, low)
    ensures prevLength <= len <= MAX_MATCH && start < UINT_RANGE && (len > prevLength ==> IsMatch(w, start, s, len))
  {
    hide IsMatch, Searched, Within, EndsAt;
  }

  /** Follow the chain that starts at head. */
  method FollowChain(m: Window, head: nat) returns (matchLength: nat, ghost h: Hunt)
    requires m.Inserted() && m.lookahead > 0 && Latest(m.window[..], head, m.strstart, HashAt(m.window[..], m.strstart))
    requires 2 <= m.prevLength < MAX_LAZY_MATCH && 1 <= head < m.strstart <= head + MAX_DIST
    modifies m`matchStart
    ensures m.Inserted() && matchLength <= MAX_MATCH && (m.lookahead >= 2 ==> matchLength >= 2)
    ensures Hunted(m.window[..], m.strstart, m.lookahead, m.prevLength, old(m.matchStart), m.matchStart, matchLength, h)
    ensures matchLength >= MIN_MATCH && matchLength > m.prevLength ==>
              && matchLength <= m.lookahead && 1 <= m.matchStart < m.strstart <= m.matchStart + MAX_DIST
              && Repeats(m.input, m.At(), m.strstart - m.matchStart, matchLength)
  {
    hide Mirrors, Chains, Rolls, Latest, IsMatch, Repeats, Outcome;
    ghost var low;
    matchLength, low := m.LongestMatch(head);
    ghost var found := matchLength;
    h := Hunt(head, found, low);
    BetterFound(m.window[..], m.strstart, head, m.prevLength, old(m.matchStart), m.matchStart, found, low);
    if matchLength > m.lookahead {
      matchLength := m.lookahead;
    }
    if found > m.prevLength {
      MatchBounds(m.window[..], m.matchStart, m.strstart, found);
      MatchRepeats(m.window[..], m.strstart + m.lookahead, m.input, m.base, m.matchStart, m.strstart, found, matchLength);
    }
    if matchLength == MIN_MATCH && (m.strstart - m.matchStart) % UINT_RANGE > TOO_FAR {
      matchLength := matchLength - 1;
    }
  }

  /** Insert the current string and look for a match longer than the previous one,
      which was matchLength bytes long. */
  method Search(m: Window, oldLength: nat) returns (matchLength: nat, prevMatch: nat, ghost h: Hunt)
    requires m.Valid() && m.Hashed() && m.lookahead > 0 && 2 <= oldLength <= MAX_MATCH
    modifies m`insH, m`prevLength, m`matchStart, m.prev
    ensures m.Inserted() && m.prevLength == oldLength && prevMatch == old(m.matchStart)
    ensures Hunted(m.window[..], m.strstart, m.lookahead, oldLength, prevMatch, m.matchStart, matchLength, h)
    ensures matchLength <= MAX_MATCH && (m.lookahead >= 2 ==> matchLength >= 2)
    ensures matchLength >= MIN_MATCH && matchLength > m.prevLength ==>
              && matchLength <= m.lookahead && 1 <= m.matchStart < m.strstart <= m.matchStart + MAX_DIST
              && Repeats(m.input, m.At(), m.strstart - m.matchStart, matchLength)
  {
    hide Mirrors, Chains, Rolls, Latest, Repeats, Hunted, HashAt;
    var hashHead := m.InsertString();
    m.prevLength := oldLength;
    prevMatch := m.matchStart;
    matchLength := MIN_MATCH - 1;
    h := Hunt(hashHead, matchLength, 0);
    LatestBelow(m.window[..], hashHead, m.strstart);
    if hashHead != 0 && m.prevLength < MAX_LAZY_MATCH && m.strstart - hashHead <= MAX_DIST {
      matchLength, h := FollowChain(m, hashHead);
    } else {
      HuntedNone(m.window[..], m.strstart, m.lookahead, oldLength, m.matchStart, hashHead);
    }
  }

  lemma MatchBounds(w: seq<byte>, m: nat, s: nat, len: nat)
    requires IsMatch(w, m, s, len)
    ensures 1 <= m < s <= m + MAX_DIST
  {
  }

  lemma LatestBelow(w: seq<byte>, c: nat, s: nat)
    requires s + 2 < |w| && Latest(w, c, s, HashAt(w, s))
    ensures c != 0 ==> c < s
  {
  }

  /** Everything between two rounds of the main loop. matchLength is the length of
      the match found one byte before strstart, if available. */
  ghost predicate Ready(m: Window, t: Trees, w: BitWriter, available: bool, matchLength: nat)
    reads m, m.window, m.prev, t, t.Buffers(), w, w.outbuf
  {
    && m.Valid() && (m.lookahead > 0 ==> m.Hashed() && matchLength >= 2)
    && (available ==> m.strstart >= 1)
    && Covered(m, t, w, m.At() - (if available then 1 else 0)) && t.Room()
    && matchLength <= MAX_MATCH
    && (matchLength >= MIN_MATCH ==> available && LazyMatch(m, m.matchStart, matchLength))
  }

  /** The previous match was better: output it and go to its end. */
  method TakeMatch(m: Window, t: Trees, w: BitWriter, prevMatch: nat)
    requires m.Inserted() && LazyMatch(m, prevMatch, m.prevLength)
    requires Covered(m, t, w, m.At() - 1) && t.Room()
    modifies m`strstart, m`lookahead, m`prevLength, m`insH, m`blockStart, m.prev, t, t.Buffers(), w, w.outbuf
    ensures Ready(m, t, w, false, MIN_MATCH - 1)
    ensures m.strstart == old(m.strstart) + old(m.prevLength) - 1
    ensures m.lookahead == old(m.lookahead) - (old(m.prevLength) - 1)
    ensures t.all == old(t.all) + [Match(old(m.prevLength), old(m.Distance(prevMatch)))]
  {
    hide Trees.Valid, BitWriter.Valid, Decodes, WellFormed, ApplyAll, Mirrors, Chains, Rolls, Repeats, Told, Window.Summed, Pending;
    ghost var from := m.At() - 1;
    RepeatsDistance(m.input, from, m.Distance(prevMatch), m.prevLength);
    var flush := Hand(m, t, w, m.Distance(prevMatch), m.prevLength - MIN_MATCH, from, from + m.prevLength);
    m.SkipMatch();
    if flush {
      FlushHere(m, t, w);
    }
  }

  lemma RepeatsDistance(input: seq<byte>, pos: nat, d: nat, len: nat)
    requires Repeats(input, pos, d, len)
    ensures 1 <= d
  {
  }

  /** The byte before strstart goes out as a literal; the match at strstart, if any, waits
      for the next round. */
  method TakeLiteral(m: Window, t: Trees, w: BitWriter, matchLength: nat)
    requires m.Inserted() && m.strstart >= 1 && Covered(m, t, w, m.At() - 1) && t.Room()
    requires matchLength <= MAX_MATCH && (m.lookahead >= 2 ==> matchLength >= 2)
    requires matchLength >= MIN_MATCH ==>
               && matchLength <= m.lookahead && 1 <= m.matchStart < m.strstart <= m.matchStart + MAX_DIST
               && Repeats(m.input, m.At(), m.strstart - m.matchStart, matchLength)
    modifies m`strstart, m`lookahead, m`blockStart, t, t.Buffers(), w, w.outbuf
    ensures Ready(m, t, w, true, matchLength)
    ensures m.strstart == old(m.strstart) + 1 && m.lookahead == old(m.lookahead) - 1
    ensures old(m.At()) <= |m.input| && t.all == old(t.all) + [Literal(m.input[old(m.At()) - 1])]
  {
    hide Trees.Valid, BitWriter.Valid, Decodes, WellFormed, ApplyAll, Mirrors, Chains, Rolls, Repeats, LazyMatch, Told, Covered, Window.Summed;
    CoveredApart(m, t, w, m.At() - 1);
    MirrorsAt(m.window[..], m.strstart + m.lookahead, m.input, m.base, m.strstart - 1);
    var flush := Hand(m, t, w, 0, m.window[m.strstart - 1], m.At() - 1, m.At());
    if flush {
      FlushHere(m, t, w);
    }
    m.Advance();
    BecomesLazy(m, matchLength);
  }

  /** A match found at the last position is at a small distance. */
  lemma BecomesLazy(m: Window, len: nat)
    requires m.strstart >= 1 && len <= MAX_MATCH
    requires len >= MIN_MATCH ==>
               && len <= m.lookahead + 1 && 1 <= m.matchStart < m.strstart - 1 <= m.matchStart + MAX_DIST
               && Repeats(m.input, m.At() - 1, m.strstart - 1 - m.matchStart, len)
    ensures len >= MIN_MATCH ==> LazyMatch(m, m.matchStart, len)
  {
    hide Repeats;
  }

  /** One fill_window keeps everything, also when the window slides. */
  method FillOnce(m: Window, t: Trees, w: BitWriter, available: bool, matchLength: nat)
    requires Ready(m, t, w, available, matchLength) && !m.eofile && 2 <= m.lookahead < MIN_LOOKAHEAD
    modifies m`strstart, m`matchStart, m`blockStart, m`base, m`lookahead, m`eofile, m`inputPos, m`crc, m`isize, m.window, m.prev
    ensures Ready(m, t, w, available, matchLength) && m.At() == old(m.At())
    ensures m.lookahead >= old(m.lookahead) && (m.eofile || m.lookahead > old(m.lookahead))
    ensures matchLength >= MIN_MATCH ==> m.Distance(m.matchStart) == old(m.Distance(m.matchStart))
    ensures m.base == old(m.base) || m.At() >= old(m.base) + WSIZE + MAX_DIST
  {
    hide Trees.Valid, BitWriter.Valid, Decodes, WellFormed, ApplyAll, Mirrors, Chains, Rolls, Repeats, Window.Distance, Told, Window.Summed;
    m.FillWindow();
  }

  /** Fill the window until MIN_LOOKAHEAD bytes are ahead or there are no more. */
  method Refill(m: Window, t: Trees, w: BitWriter, available: bool, matchLength: nat)
    requires Ready(m, t, w, available, matchLength) && (m.eofile || m.lookahead >= 2)
    modifies m`strstart, m`matchStart, m`blockStart, m`base, m`lookahead, m`eofile, m`inputPos, m`crc, m`isize, m.window, m.prev
    ensures Ready(m, t, w, available, matchLength) && m.At() == old(m.At())
    ensures m.eofile || m.lookahead >= MIN_LOOKAHEAD
    ensures matchLength >= MIN_MATCH ==> m.Distance(m.matchStart) == old(m.Distance(m.matchStart))
    ensures m.base == old(m.base) || (!old(m.eofile) && m.At() >= old(m.base) + WSIZE + MAX_DIST)
    ensures old(m.eofile) ==> m.eofile
  {
    hide Ready;
    while m.lookahead < MIN_LOOKAHEAD && !m.eofile
      invariant Ready(m, t, w, available, matchLength) && m.At() == old(m.At())
      invariant m.eofile || m.lookahead >= 2
      invariant matchLength >= MIN_MATCH ==> m.Distance(m.matchStart) == old(m.Distance(m.matchStart))
      invariant m.base == old(m.base) || (!old(m.eofile) && m.At() >= old(m.base) + WSIZE + MAX_DIST)
      invariant old(m.eofile) ==> m.eofile
      decreases !m.eofile, MIN_LOOKAHEAD - m.lookahead
    {
      FillOnce(m, t, w, available, matchLength);
    }
  }

  /** What a round starts from. */
  ghost function StateOf(m: Window, available: bool, matchLength: nat): State
    reads m
  {
    State(m.At(), available, matchLength, m.Distance(m.matchStart))
  }

  /** A round may start: there is enough to be read, or all that is left. */
  ghost predicate Going(m: Window, t: Trees, w: BitWriter, available: bool, matchLength: nat)
    reads m, m.window, m.prev, t, t.Buffers(), w, w.outbuf
  {
    Ready(m, t, w, available, matchLength) && (m.eofile || m.lookahead >= MIN_LOOKAHEAD)
  }

  /** r is the decision to be made here, where a match of r.len bytes has been found. */
  ghost predicate Deciding(m: Window, r: Decision, prevMatch: nat)
    reads m
  {
    && r.before.at == m.At() && r.base == m.base && r.s == m.strstart && r.start == m.matchStart
    && r.before.length == m.prevLength && r.before.distance == m.Distance(prevMatch)
    && (r.before.available ==> m.strstart >= 1) && m.At() <= |m.input|
    && (r.before.length >= MIN_MATCH ==> r.before.available)
  }

  /** What is decided is done: the match found before goes out, or the byte before, if it has
      not been sent, and the match found now waits. */
  method Send(m: Window, t: Trees, w: BitWriter, prevMatch: nat, available: bool, len: nat, ghost r: Decision)
      returns (available': bool, matchLength': nat)
    requires m.Inserted() && Deciding(m, r, prevMatch) && r.before.available == available && r.len == len
    requires Covered(m, t, w, m.At() - (if available then 1 else 0)) && t.Room()
    requires m.prevLength >= MIN_MATCH ==> LazyMatch(m, prevMatch, m.prevLength)
    requires len <= MAX_MATCH && (m.lookahead >= 2 ==> len >= 2)
    requires len >= MIN_MATCH && len > m.prevLength ==>
               && len <= m.lookahead && 1 <= m.matchStart < m.strstart <= m.matchStart + MAX_DIST
               && Repeats(m.input, m.At(), m.strstart - m.matchStart, len)
    modifies m`strstart, m`lookahead, m`prevLength, m`insH, m`blockStart, m.prev, t, t.Buffers(), w, w.outbuf
    ensures Ready(m, t, w, available', matchLength') && m.At() > old(m.At())
    ensures m.lookahead + MAX_MATCH > old(m.lookahead)
    ensures SameState(After(r), StateOf(m, available', matchLength'))
    ensures r.before.available ==> 1 <= r.before.at <= |m.input|
    ensures t.all == old(t.all) + Sends(r, m.input)
  {
    hide Trees.Valid, BitWriter.Valid, Decodes, Pending, Mirrors, Chains, Rolls, Repeats, Told, Covered, Window.Summed;
    available' := available;
    matchLength' := len;
    if m.prevLength >= MIN_MATCH && matchLength' <= m.prevLength {
      TakeMatch(m, t, w, prevMatch);
      available' := false;
      matchLength' := MIN_MATCH - 1;
    } else if available {
      TakeLiteral(m, t, w, matchLength');
    } else {
      available' := true;
      m.Advance();
      BecomesLazy(m, matchLength');
    }
  }

  /** What the search leaves is a decision as it should be. */
  lemma DecisionOk(m: Window, r: Decision, w: seq<byte>)
    requires m.Placed() && m.lookahead >= 1 && (m.eofile || m.lookahead >= MIN_LOOKAHEAD) && w == m.window[..]
    requires r.window == w && r.base == m.base && r.s == m.strstart && r.lookahead == m.lookahead && r.eof == m.eofile
    requires r.before.at == m.At() && (r.before.available ==> m.strstart >= 1) && r.before.length >= MIN_MATCH - 1
    requires r.before.length >= MIN_MATCH ==> r.before.available && r.before.distance == m.Distance(r.start0)
    requires Hunted(w, r.s, r.lookahead, r.before.length, r.start0, r.start, r.len, r.hunt)
    ensures RoundOk(r, m.input)
  {
    hide Mirrors, Hunted;
  }

  /** One round of the main loop: a search, a decision, and more input. */
  method Round(m: Window, t: Trees, w: BitWriter, available: bool, matchLength: nat)
      returns (available': bool, matchLength': nat, ghost r: Decision)
    requires Going(m, t, w, available, matchLength) && m.lookahead != 0
    modifies m, m.window, m.prev, t, t.Buffers(), w, w.outbuf
    ensures Going(m, t, w, available', matchLength') && m.At() > old(m.At())
    ensures RoundOk(r, m.input) && r.before == old(StateOf(m, available, matchLength)) && r.base == old(m.base)
    ensures r.eof == old(m.eofile) && r.window == old(m.window[..])
    ensures SameState(After(r), StateOf(m, available', matchLength'))
    ensures r.before.available ==> 1 <= r.before.at <= |m.input|
    ensures t.all == old(t.all) + Sends(r, m.input)
    ensures m.base == r.base || (!r.eof && m.At() >= r.base + WSIZE + MAX_DIST)
    ensures r.eof ==> m.eofile
  {
    hide Trees.Valid, BitWriter.Valid, Decodes, Pending, Mirrors, Chains, Rolls, Repeats, LazyMatch, Hunted, Told, RoundOk, Sends, After,
         Window.Summed;
    ghost var q := StateOf(m, available, matchLength);
    ghost var start0 := m.matchStart;
    var len, prevMatch;
    ghost var hunt;
    len, prevMatch, hunt := Search(m, matchLength);
    r := Decision(m.window[..], m.base, m.strstart, m.lookahead, m.eofile, q, start0, len, m.matchStart, hunt);
    DecisionOk(m, r, m.window[..]);
    available', matchLength' := Send(m, t, w, prevMatch, available, len, r);
    Refill(m, t, w, available', matchLength');
  }

  /** FLUSH_BLOCK(1): the last block, padded to whole bytes. */
  method FlushLast(m: Window, t: Trees, w: BitWriter) returns (total: nat, ghost end: nat)
    requires m.Placed() && Covered(m, t, w, m.At()) && m.At() == |m.input|
    modifies t, t.Buffers(), w, w.outbuf
    ensures w.Valid() && w.biValid == 0
    ensures Decode(w.sent) == Next(m.input, end) && |w.sent| == Align(end) && total == UInt(|w.sent|) / 8
    ensures 8 * total == |w.sent| <==> |w.sent| < UINT_RANGE
    ensures t.all == old(t.all) && Told(t.all, [], m.input, |m.input|)
    ensures DecodesTo(w.sent, m.input, end)
  {
    hide Trees.Valid, BitWriter.Valid, WellFormed, ApplyAll, Mirrors, Planned, Emitted, BestEncoding, InflateFrom;
    ghost var out := m.input[..m.base + m.blockStart];
    ghost var before := w.sent;
    BlockBytes(m.window[..], m.strstart + m.lookahead, m.input, m.base, m.blockStart, m.strstart);
    ghost var body, kind, plan;
    total, body, kind, plan := FlushBlock.FlushBlock(t, w, m.window, m.blockStart, m.strstart - m.blockStart, true, out);
    DecodesChain([], before, body, true, [], out, m.input[..m.At()]);
    assert m.input[..m.At()] == m.input;
    end := |body|;
    Finished(body, w.sent, m.input);
  }

  lemma Finished(body: seq<bool>, sent: seq<bool>, data: seq<byte>)
    requires Decodes([], body, true, [], data) && body <= sent && |sent| == Align(|body|)
    ensures DecodesTo(sent, data, |body|)
  {
    hide InflateFrom;
  }

  /** Compress all the input. Returns its compressed length. The tokens are those of the
      rounds of lazy matching. */
  method Deflate(m: Window, t: Trees, w: BitWriter) returns (total: nat, ghost end: nat, ghost rs: seq<Decision>)
    requires Going(m, t, w, false, MIN_MATCH - 1) && m.At() == m.base == 0 && t.all == []
    modifies m, m.window, m.prev, t, t.Buffers(), w, w.outbuf
    ensures w.Valid() && w.biValid == 0
    ensures Decode(w.sent) == Next(m.input, end) && |w.sent| == Align(end) && total == UInt(|w.sent|) / 8
    ensures 8 * total == |w.sent| <==> |w.sent| < UINT_RANGE
    ensures Parsed(rs, t.all, m.input) && Told(t.all, [], m.input, |m.input|)
    ensures DecodesTo(w.sent, m.input, end) && m.crc == Remainder(m.input) && m.isize == UInt(|m.input|)
  {
    hide Going, Parsed, Told, Decode, BitWriter.Valid, Window.Valid, Trees.Valid, Covered, Window.Placed, Remainder, DecodesTo, UInt;
    var available;
    available, rs := AllRounds(m, t, w);
    CoveredApart(m, t, w, m.At() - (if available then 1 else 0));
    AllRead(m);
    SendHeld(m, t, w, available, rs);
    total, end := FlushLast(m, t, w);
  }

  /** The main loop. */
  method AllRounds(m: Window, t: Trees, w: BitWriter) returns (available: bool, ghost rs: seq<Decision>)
    requires Going(m, t, w, false, MIN_MATCH - 1) && m.At() == m.base == 0 && t.all == []
    modifies m, m.window, m.prev, t, t.Buffers(), w, w.outbuf
    ensures m.Placed() && m.At() == |m.input| && (available ==> m.strstart >= 1)
    ensures Covered(m, t, w, m.At() - (if available then 1 else 0)) && t.Room()
    ensures Parsed(rs, t.all + Held(State(|m.input|, available, 0, 0), m.input), m.input)
  {
    hide Going, Chosen, RoundOk, Sends, After, SameState, Covered, Parsed, Window.Placed, BitWriter.Valid, Trees.Valid;
    available := false;
    var matchLength: nat := MIN_MATCH - 1;
    rs := [];
    NothingChosen(m.input, StateOf(m, available, matchLength), m.eofile);
    while m.lookahead != 0
      invariant Going(m, t, w, available, matchLength)
      invariant Chosen(rs, t.all, m.input, StateOf(m, available, matchLength), m.base, m.eofile)
      decreases |m.input| - m.At()
    {
      ghost var rs0, ts, q, base, eof := rs, t.all, StateOf(m, available, matchLength), m.base, m.eofile;
      ghost var r;
      Ahead(m, t, w, available, matchLength);
      available, matchLength, r := Round(m, t, w, available, matchLength);
      ChosenNext(rs0, ts, m.input, q, base, eof, r, t.all, StateOf(m, available, matchLength), m.base, m.eofile);
      rs := rs0 + [r];
    }
    AtTheEnd(m, t, w, available, matchLength);
    ChosenAll(rs, t.all, m.input, StateOf(m, available, matchLength), m.base, m.eofile);
  }

  lemma Ahead(m: Window, t: Trees, w: BitWriter, available: bool, matchLength: nat)
    requires Going(m, t, w, available, matchLength)
    ensures m.At() + m.lookahead <= |m.input|
  {
    hide Covered, LazyMatch, Chains, Mirrors;
  }

  lemma AtTheEnd(m: Window, t: Trees, w: BitWriter, available: bool, matchLength: nat)
    requires Going(m, t, w, available, matchLength) && m.lookahead == 0
    ensures m.Placed() && m.At() == |m.input| && (available ==> m.strstart >= 1)
    ensures Covered(m, t, w, m.At() - (if available then 1 else 0)) && t.Room()
  {
    hide Covered, LazyMatch, Chains, Mirrors;
  }

  lemma AllRead(m: Window)
    requires m.Placed() && m.At() == |m.input|
    ensures m.crc == Remainder(m.input) && m.isize == UInt(|m.input|)
  {
    hide Mirrors, Remainder, IsTable, UInt;
    assert m.input[..m.inputPos] == m.input;
  }

  /** The last byte, if it has not been sent. */
  method SendHeld(m: Window, t: Trees, w: BitWriter, available: bool, ghost rs: seq<Decision>)
    requires m.Placed() && m.At() == |m.input| && (available ==> m.strstart >= 1)
    requires Covered(m, t, w, m.At() - (if available then 1 else 0)) && t.Room()
    modifies t, t.Buffers()
    ensures Covered(m, t, w, m.At())
    ensures t.all == old(t.all) + Held(State(|m.input|, available, 0, 0), m.input)
  {
    hide Covered, Mirrors;
    if available {
      MirrorsAt(m.window[..], m.strstart + m.lookahead, m.input, m.base, m.strstart - 1);
      var flush := Hand(m, t, w, 0, m.window[m.strstart - 1], m.At() - 1, m.At());
    }
  }

  lemma NothingDecoded(input: seq<byte>)
    ensures input[..0] == [] && Decodes([], [], false, [], []) && WellFormed([], []) && ApplyAll([], []) == []
  {
  }

  lemma ReadyAtStart(m: Window, t: Trees, w: BitWriter)
    requires Apart(m, t, w) && m.Valid() && m.strstart == 0 && m.base == 0 && m.blockStart == 0
    requires m.lookahead > 0 ==> m.Hashed()
    requires t.Valid() && t.Room() && t.tokens == [] && t.all == [] && t.compressedLen == 0
    requires w.Valid() && w.sent == []
    ensures Ready(m, t, w, false, MIN_MATCH - 1)
  {
    hide Trees.Valid, BitWriter.Valid, WellFormed, ApplyAll, Decodes, Mirrors, Chains, Rolls;
    NothingDecoded(m.input);
  }

  /** Compress data to a gzip file. However the reads split it, unpacking the file as RFC 1952
      and RFC 1951 say makes exactly data, and the checksum and the size in it are right. */
  method Zip(data: seq<byte>, timeStamp: nat, crcTable: seq<nat>)
      returns (w: BitWriter, ghost ts: seq<Token>, ghost rs: seq<Decision>)
    requires timeStamp < UINT_RANGE && IsTable(crcTable)
    ensures w.BufferValid() && w.outcnt == 0 && Gunzip(w.written) == Some(data)
    ensures Frame(w.written, timeStamp, Checksum(data), |data| % 0x1_0000_0000)
    ensures Parsed(rs, ts, data) && Told(ts, [], data, |data|)
  {
    hide Trees.Valid, BitWriter.Valid, Decode, Ready, Window.Valid, Window.Hashed, Parsed, Told, DecodesTo,
         Gunzip, Frame, Remainder, BytesToBits, UInt, Header, BitWriter.Bytes, FourBytes, Window.Summed, Covered, IsTable;
    w := new BitWriter(Header(timeStamp));
    PutHeader(w, timeStamp);
    var t, m := Prepare(data, crcTable);
    w.Put8(2);
    w.Put8(3);
    HeaderDone(w, timeStamp);
    ReadyAtStart(m, t, w);
    var total;
    ghost var end;
    total, end, rs := Deflate(m, t, w);
    ts := t.all;
    PutTrailer(w, m.crc, m.isize, timeStamp, data, end);
  }

  /** gzip from standard input to standard output. */
  method Gzip(data: seq<byte>, timeStamp: nat)
      returns (w: BitWriter, ghost ts: seq<Token>, ghost rs: seq<Decision>)
    requires timeStamp < UINT_RANGE
    ensures w.BufferValid() && w.outcnt == 0 && Gunzip(w.written) == Some(data)
    ensures Frame(w.written, timeStamp, Checksum(data), |data| % 0x1_0000_0000)
    ensures Parsed(rs, ts, data) && ByTheRules(rs, data) && Told(ts, [], data, |data|)
  {
    hide Gunzip, Frame, Parsed, Told, IsTable, ByTheRules;
    var table := FillTable();
    w, ts, rs := Zip(data, timeStamp, table[..]);
    ParsedByTheRules(rs, ts, data);
  }

  /** The checksum and the size, and the end of the file. */
  method PutTrailer(w: BitWriter, crc: nat, isize: nat, ghost timeStamp: nat, ghost data: seq<byte>, ghost end: nat)
    requires w.Valid() && w.biValid == 0 && timeStamp < UINT_RANGE && w.prefix == BytesToBits(Header(timeStamp))
    requires DecodesTo(w.sent, data, end) && crc == Remainder(data) && isize == UInt(|data|)
    modifies w, w.outbuf
    ensures w.BufferValid() && w.outcnt == 0 && Gunzip(w.written) == Some(data)
    ensures Frame(w.written, timeStamp, Checksum(data), |data| % 0x1_0000_0000)
  {
    hide BytesToBits, Remainder, DecodesTo, Header, Gunzip, FourBytes, BitWriter.Valid, Frame;
    WriterFacts(w);
    NothingLeft(w);
    ChecksumFits(data);
    ghost var deflated, bits := w.Bytes(), w.sent;
    w.Put32(ONES - crc);
    w.Put32(isize);
    MakesFile(w.Bytes(), timeStamp, deflated, bits, data, end);
    FrameIs(w.Bytes(), timeStamp, data);
    w.FlushOutbuf();
    assert w.Bytes() == w.written;
  }

  lemma WriterFacts(w: BitWriter)
    requires w.Valid()
    ensures w.BufferValid()
  {
  }

  /** ct_init and lm_init. */
  method Prepare(data: seq<byte>, crcTable: seq<nat>) returns (t: Trees, m: Window)
    requires IsTable(crcTable)
    ensures fresh(t) && fresh(t.Buffers()) && fresh(m) && fresh(m.window) && fresh(m.prev)
    ensures m.window !in t.Buffers() && m.prev !in t.Buffers() && (m as object) !in t.Buffers() && (m.window as object) != m.prev
    ensures t.Valid() && t.Room() && t.tokens == [] && t.all == [] && t.compressedLen == 0
    ensures m.Valid() && m.strstart == 0 && m.base == 0 && m.blockStart == 0 && m.input == data
    ensures (m.lookahead > 0 ==> m.Hashed()) && (m.eofile || m.lookahead >= MIN_LOOKAHEAD)
  {
    hide Trees.Valid, Window.Valid, Window.Hashed, CodeTables.Valid, IsTable, Window.Summed;
    var tables := CtInit();
    t := new Trees(tables);
    m := new Window(data, crcTable);
    m.LmInit();
  }

  /** The header up to the time stamp, and bi_init. */
  method PutHeader(w: BitWriter, timeStamp: nat)
    requires w.BufferValid() && w.Bytes() == [] && timeStamp < UINT_RANGE
    modifies w, w.outbuf
    ensures w.BufferValid() && w.biBuf == w.biValid == 0 && w.sent == old(w.sent)
    ensures w.Bytes() == [0x1f, 0x8b, 8, 0] + FourBytes(timeStamp)
  {
    w.Put32(0x00088b1f);
    w.Put32(timeStamp);
    w.BiInit();
  }

  lemma HeaderDone(w: BitWriter, timeStamp: nat)
    requires timeStamp < UINT_RANGE && w.BufferValid() && w.biBuf == w.biValid == 0 && w.sent == []
    requires w.prefix == BytesToBits(Header(timeStamp)) && w.Bytes() == [0x1f, 0x8b, 8, 0] + FourBytes(timeStamp) + [2] + [3]
    ensures w.Valid()
  {
    hide BytesToBits, FourBytes;
    assert w.Bytes() == Header(timeStamp);
    w.HeaderPut(Header(timeStamp));
  }

  lemma NothingLeft(w: BitWriter)
    requires w.Valid() && w.biValid == 0
    ensures BytesToBits(w.Bytes()) == w.prefix + w.sent
  {
  }
}
