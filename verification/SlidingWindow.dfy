/** The sliding window of gzip.c: lm_init, fill_window, INSERT_STRING and longest_match. */
module SlidingWindow {
  import opened Bits
  import opened Tokens
  import opened Hashing
  import opened HashChains
  import opened Crc32

  const WINDOW_SIZE: nat := 2 * WSIZE
  const MAX_CHAIN_LENGTH: nat := 4096
  const GOOD_MATCH: nat := 32
  const NICE_MATCH: nat := 258

  /** The first n bytes of the window are input from base on. */
  ghost predicate Mirrors(w: seq<byte>, n: nat, input: seq<byte>, base: nat)
  {
    n <= |w| && base + n <= |input| && w[..n] == input[base..base + n]
  }

  lemma MirrorsNothing(w: seq<byte>, input: seq<byte>)
    ensures Mirrors(w, 0, input, 0)
  {
  }

  lemma MirrorsMoved(w: seq<byte>, w': seq<byte>, n: nat, input: seq<byte>, base: nat)
    requires Moved(w, w') && Mirrors(w, n, input, base) && WSIZE <= n <= 2 * WSIZE
    ensures Mirrors(w', n - WSIZE, input, base + WSIZE)
  {
    assert w'[..n - WSIZE] == w'[..WSIZE][..n - WSIZE] == w[WSIZE..2 * WSIZE][..n - WSIZE] == w[..n][WSIZE..];
    assert input[base..base + n][WSIZE..] == input[base + WSIZE..base + n];
  }

  lemma MirrorsRead(w: seq<byte>, w': seq<byte>, n: nat, input: seq<byte>, base: nat, more: nat)
    requires Mirrors(w, n, input, base) && |w'| == |w| && n + more <= |w| && base + n + more <= |input|
    requires w'[..n] == w[..n] && w'[n..n + more] == input[base + n..base + n + more]
    ensures Mirrors(w', n + more, input, base)
  {
    assert w'[..n + more] == w'[..n] + w'[n..n + more];
  }

  /** Two window positions that agree are two input positions that agree. */
  lemma MirrorsAt(w: seq<byte>, n: nat, input: seq<byte>, base: nat, i: nat)
    requires Mirrors(w, n, input, base) && i < n
    ensures w[i] == input[base + i]
  {
    assert w[..n][i] == input[base..base + n][i];
  }

  /** A match that may be used: close enough, and as long as the strings agree. */
  ghost predicate IsMatch(w: seq<byte>, m: nat, s: nat, len: nat)
  {
    && 1 <= m < s <= m + MAX_DIST && s + MAX_MATCH <= |w|
    && MIN_MATCH <= len <= MAX_MATCH && len == MatchLen(w, m, s)
  }

  /** What longest_match leaves: a match longer than before or matchStart as it was. */
  ghost predicate Found(w: seq<byte>, s: nat, prevLength: nat, start0: nat, start: nat, len: nat)
  {
    && start < UINT_RANGE
    && (len > prevLength ==> IsMatch(w, start, s, len))
    && (len == prevLength ==> start == start0)
  }

  /** The chain of s down to c has been searched: nothing longer than best there. */
  ghost predicate Searched(w: seq<byte>, c: nat, s: nat, best: nat)
    requires s + MAX_MATCH <= |w|
  {
    forall q :: c < q < s && HashAt(w, q) == HashAt(w, s) ==> MatchLen(w, q, s) <= best
  }

  lemma SearchedNext(w: seq<byte>, c: nat, next: nat, s: nat, best: nat, best': nat)
    requires s + MAX_MATCH <= |w| && next < c < s && best <= best' && MatchLen(w, c, s) <= best'
    requires Searched(w, c, s, best) && Latest(w, next, c, HashAt(w, s))
    ensures Searched(w, next, s, best')
  {
    hide HashAt, MatchLen;
    assert forall q :: next < q < c ==> HashAt(w, q) != HashAt(w, s);
  }

  /** No string within reach agrees with the one at s in more than len bytes, if in three at
      least. */
  ghost predicate NoneLonger(w: seq<byte>, s: nat, len: nat)
    requires s + MAX_MATCH <= |w|
  {
    forall q :: 0 < q < s < q + MAX_DIST && MatchLen(w, q, s) >= MIN_MATCH ==> MatchLen(w, q, s) <= len
  }

  /** How many strings a search looks at, at most. */
  function Tries(prevLength: nat): nat
  {
    if prevLength >= GOOD_MATCH then MAX_CHAIN_LENGTH / 4 else MAX_CHAIN_LENGTH
  }

  /** Where a search down to low ends: never after more strings than allowed, and not before
      unless all within reach have been seen or a match is long enough. */
  ghost predicate EndsAt(w: seq<byte>, low: nat, s: nat, prevLength: nat, bestLen: nat)
    requires s + MAX_MATCH <= |w|
  {
    && low < s && HashCount(w, HashAt(w, s), low, s) <= Tries(prevLength)
    && (low == 0 || low + MAX_DIST <= s || bestLen >= NICE_MATCH
        || HashCount(w, HashAt(w, s), low, s) == Tries(prevLength))
  }

  /** The strings looked at are the head of the chain and others within reach. */
  ghost predicate Within(w: seq<byte>, low: nat, head: nat, s: nat)
    requires s + MAX_MATCH <= |w|
  {
    forall q :: low < q < s && HashAt(w, q) == HashAt(w, s) ==> q == head || s < q + MAX_DIST
  }

  /** A search that starts at head and goes down to low finds the match at start, the nearest
      one of its length, or none longer than prevLength. */
  ghost predicate Outcome(w: seq<byte>, s: nat, head: nat, prevLength: nat, start0: nat, start: nat, best: nat, low: nat)
    requires s + MAX_MATCH <= |w|
  {
    && prevLength <= best <= MAX_MATCH && low < head
    && Found(w, s, prevLength, start0, start, best)
    && (best > prevLength ==> low < start && Searched(w, start, s, best - 1))
    && Searched(w, low, s, best) && Within(w, low, head, s) && EndsAt(w, low, s, prevLength, best)
  }

  lemma WithinNext(w: seq<byte>, low: nat, cur: nat, head: nat, s: nat)
    requires s + MAX_MATCH <= |w| && low < cur < s && Within(w, cur, head, s) && (cur == head || s < cur + MAX_DIST)
    requires Latest(w, low, cur, HashAt(w, s))
    ensures Within(w, low, head, s)
  {
    hide HashAt;
  }

  lemma WithinFirst(w: seq<byte>, head: nat, s: nat)
    requires s + MAX_MATCH <= |w| && Latest(w, head, s, HashAt(w, s))
    ensures Within(w, head, head, s)
  {
    hide HashAt;
  }

  /** Looking at strings that are no longer, one finds nothing longer. */
  lemma SearchedMore(w: seq<byte>, c: nat, s: nat, best: nat, best': nat)
    requires s + MAX_MATCH <= |w| && Searched(w, c, s, best) && best <= best'
    ensures Searched(w, c, s, best')
  {
    hide HashAt, MatchLen;
  }

  /** Everything within reach has been seen. */
  lemma SearchedAll(w: seq<byte>, c: nat, s: nat, best: nat)
    requires s + MAX_MATCH <= |w| && Searched(w, c, s, best) && (c == 0 || c + MAX_DIST <= s)
    ensures NoneLonger(w, s, best)
  {
    hide HashAt, MatchLen;
    forall q | 0 < q < s < q + MAX_DIST && MatchLen(w, q, s) >= MIN_MATCH ensures MatchLen(w, q, s) <= best {
      MatchHash(w, q, s);
    }
  }

  lemma LinkLatest(w: seq<byte>, prev: seq<ush>, n: nat, p: nat)
    requires Chains(w, prev, n) && n - WSIZE <= p < n
    ensures |prev| == 2 * WSIZE && p + 2 < |w| && Latest(w, LinkOf(prev, p), p, HashAt(w, p))
  {
  }

  /** All entries of the hash table follow the bytes they point to. */
  method SlideEntries(prev: array<ush>)
    requires prev.Length == 2 * WSIZE
    modifies prev
    ensures forall i :: 0 <= i < WSIZE + HASH_SIZE ==> prev[i] == Slid(old(prev[i]))
  {
    ghost var p := prev[..];
    var n := 0;
    while n < HASH_SIZE
      invariant 0 <= n <= HASH_SIZE
      invariant forall i :: WSIZE <= i < WSIZE + n ==> prev[i] == Slid(p[i])
      invariant forall i :: 0 <= i < WSIZE || WSIZE + n <= i < 2 * WSIZE ==> prev[i] == p[i]
    {
      var m := prev[WSIZE + n];
      prev[WSIZE + n] := if m >= WSIZE then m - WSIZE else 0;
      n := n + 1;
    }
    n := 0;
    while n < WSIZE
      invariant 0 <= n <= WSIZE
      invariant forall i :: 0 <= i < n || WSIZE <= i < WSIZE + HASH_SIZE ==> prev[i] == Slid(p[i])
      invariant forall i :: n <= i < WSIZE ==> prev[i] == p[i]
    {
      var m := prev[n];
      prev[n] := if m >= WSIZE then m - WSIZE else 0;
      n := n + 1;
    }
  }

  /** No hash has a chain yet. */
  method ClearHeads(prev: array<ush>)
    requires prev.Length == 2 * WSIZE
    modifies prev
    ensures forall h :: 0 <= h < HASH_SIZE ==> HeadOf(prev[..], h) == 0
  {
    forall i | WSIZE <= i < WSIZE + HASH_SIZE {
      prev[i] := 0;
    }
  }

  class Window {
    const window: array<byte>
    const prev: array<ush>
    var strstart: nat
    var matchStart: nat
    var lookahead: nat
    var prevLength: nat
    var insH: nat
    var blockStart: int
    var eofile: bool
    const input: seq<byte>     // everything that standard input will deliver
    var inputPos: nat          // how much of it has been read
    const crcTable: seq<nat>   // global_crc32_table
    var crc: nat
    var isize: nat
    ghost var base: nat        // how far the window has slid

    ghost predicate Shape()
    {
      window.Length == WINDOW_SIZE + MAX_MATCH && prev.Length == 2 * WSIZE
    }

    /** crc and isize are up to date with what has been read. */
    ghost predicate Summed()
      reads this`crc, this`isize, this`inputPos
    {
      inputPos <= |input| && IsTable(crcTable) && crc == Remainder(input[..inputPos]) && isize == UInt(inputPos)
    }

    /** The window holds the input up to what has been read. */
    ghost predicate Placed()
      reads this, window, prev
    {
      && Shape()
      && strstart + lookahead <= WINDOW_SIZE && matchStart < UINT_RANGE
      && base + strstart + lookahead == inputPos <= |input| && Summed()
      && Mirrors(window[..], strstart + lookahead, input, base)
      && (eofile ==> inputPos == |input|)
      && 0 <= base + blockStart && blockStart <= strstart
    }

    /** All strings that start before strstart are on their hash chains. */
    ghost predicate Valid()
      reads this, window, prev
    {
      Placed() && Chains(window[..], prev[..], strstart)
    }

    /** insH has taken in the first two bytes of the string at strstart. */
    ghost predicate Hashed()
      reads this, window
      requires Shape() && strstart <= WINDOW_SIZE
    {
      Rolls(insH, window[strstart], window[strstart + 1])
    }

    /** The string at strstart is on its chain as well. */
    ghost predicate Inserted()
      reads this, window, prev
    {
      && Placed() && lookahead >= 1
      && Chains(window[..], prev[..], strstart + 1)
      && Rolls(insH, window[strstart + 1], window[strstart + 2])
    }

    /** The position in the input. */
    ghost function At(): nat
      reads this
    {
      base + strstart
    }

    /** How far back the match found for the string before strstart lies; unsigned
        arithmetic. */
    function Distance(match_: nat): nat
      reads this`strstart
    {
      (strstart - 1 - match_) % UINT_RANGE
    }

    /** Cleared buffers, and all the input still to be read. */
    constructor (data: seq<byte>, table: seq<nat>)
      requires IsTable(table)
      ensures Summed() && Shape() && input == data && inputPos == 0 && base == 0 && matchStart < UINT_RANGE
      ensures fresh(window) && fresh(prev)
    {
      window := new byte[WINDOW_SIZE + MAX_MATCH](_ => 0);
      prev := new ush[2 * WSIZE](_ => 0);
      input := data;
      inputPos, base := 0, 0;
      crcTable := table;
      crc, isize := ONES, 0;
      strstart, matchStart, lookahead, prevLength, insH, blockStart, eofile := 0, 0, 0, 0, 0, 0, false;
    }

    /** A window at the start of the input, with as much of it as the reads deliver until
        there is lookahead enough. */
    method LmInit()
      requires Shape() && Summed() && inputPos == 0 && base == 0 && matchStart < UINT_RANGE
      modifies this, window, prev
      ensures Valid() && strstart == 0 && base == 0 && blockStart == 0
      ensures eofile || lookahead >= MIN_LOOKAHEAD
      ensures lookahead > 0 ==> Hashed()
    {
      hide Mirrors, Chains, UpdateHash, Distance, Summed;
      ClearHeads(prev);
      strstart := 0;
      blockStart := 0;
      ghost var w := window[..];
      lookahead := FileRead(0, WINDOW_SIZE);
      MirrorsNothing(w, input);
      MirrorsRead(w, window[..], 0, input, 0, lookahead);
      ChainsEmpty(window[..], prev[..]);
      if lookahead == 0 {
        eofile := true;
        return;
      }
      eofile := false;
      FillUp();
      StartHash();
    }

    /** More reads at the start, for enough lookahead. */
    method FillUp()
      requires Valid() && strstart == 0 && base == 0 && blockStart == 0 && lookahead >= 1
      modifies this, window, prev
      ensures Valid() && strstart == 0 && base == 0 && blockStart == 0 && lookahead >= 1
      ensures eofile || lookahead >= MIN_LOOKAHEAD
    {
      hide Mirrors, Chains, UpdateHash, Distance, Summed;
      while lookahead < MIN_LOOKAHEAD && !eofile
        invariant Valid() && strstart == 0 && base == 0 && blockStart == 0 && lookahead >= 1
        decreases !eofile, WINDOW_SIZE - lookahead
      {
        FillWindow();
      }
    }

    /** Take in the first two bytes. */
    method StartHash()
      requires Shape() && strstart == 0
      modifies this`insH
      ensures Hashed()
    {
      hide UpdateHash;
      RollsFromStart(0, window[0], window[1]);
      insH := 0;
      var j := 0;
      while j < MIN_MATCH - 1
        invariant 0 <= j <= 2
        invariant insH == (if j == 0 then 0 else if j == 1 then UpdateHash(0, window[0])
                           else UpdateHash(UpdateHash(0, window[0]), window[1]))
      {
        insH := UpdateHash(insH, window[j]);
        j := j + 1;
      }
    }

    /** Read at most max bytes, as many as the system cares to deliver; none at the
        end only. */
    method FileRead(at: nat, max: nat) returns (n: nat)
      requires at + max <= window.Length && max >= 1 && Summed()
      modifies this`inputPos, this`crc, this`isize, window
      ensures Summed()
      ensures n <= max && inputPos == old(inputPos) + n <= |input|
      ensures n == 0 <==> old(inputPos) == |input|
      ensures window[..at] == old(window[..at])
      ensures window[at..at + n] == input[old(inputPos)..inputPos]
    {
      if inputPos == |input| {
        return 0;
      }
      n :| 1 <= n <= max && inputPos + n <= |input|;
      forall i | at <= i < at + n {
        window[i] := input[inputPos + i - at];
      }
      crc := Update(crc, window, at, n, crcTable);
      SumsMore(input, inputPos, window[at..at + n], isize);
      isize := (isize + n) % UINT_RANGE;
      inputPos := inputPos + n;
    }

    /** Move the upper half of the window to the lower one. */
    method Slide()
      requires Valid() && WSIZE + MAX_DIST <= strstart && 2 <= lookahead
      modifies this`strstart, this`matchStart, this`blockStart, this`base, window, prev
      ensures Valid() && strstart == old(strstart) - WSIZE && base == old(base) + WSIZE
      ensures blockStart == old(blockStart) - WSIZE && matchStart == (old(matchStart) - WSIZE) % UINT_RANGE
      ensures Moved(old(window[..]), window[..])
      ensures Distance(matchStart) == old(Distance(matchStart))
      ensures old(Hashed()) ==> Hashed()
    {
      hide Mirrors, Moved, Chains, Rolls, Summed;
      ghost var w, p := window[..], prev[..];
      forall i | 0 <= i < WSIZE {
        window[i] := window[i + WSIZE];
      }
      assert Moved(w, window[..]) by {
        Halves(w, window[..]);
      }
      SameDistance(strstart, matchStart, WSIZE);
      MovedBytes(w, window[..], strstart - WSIZE);
      matchStart := (matchStart - WSIZE) % UINT_RANGE;
      strstart := strstart - WSIZE;
      blockStart := blockStart - WSIZE;
      base := base + WSIZE;
      SlideEntries(prev);
      MirrorsMoved(w, window[..], old(strstart + lookahead), input, old(base));
      ChainsMoved(w, window[..], p, prev[..], old(strstart));
    }

    /** How much can be read; with the strings near the end, first slide. */
    method MakeRoom() returns (more: nat)
      requires Valid() && lookahead < MIN_LOOKAHEAD && (2 <= lookahead || strstart == 0)
      modifies this`strstart, this`matchStart, this`blockStart, this`base, window, prev
      ensures Valid() && At() == old(At()) && base + blockStart == old(base + blockStart)
      ensures more == WINDOW_SIZE - lookahead - strstart && more >= 2 && (old(strstart) >= 1 <==> strstart >= 1)
      ensures old(strstart) >= 1 ==> Distance(matchStart) == old(Distance(matchStart))
      ensures old(Hashed()) ==> Hashed()
      ensures base == if old(strstart) >= WSIZE + MAX_DIST then old(base) + WSIZE else old(base)
    {
      hide Mirrors, Chains, Moved, Distance, Summed;
      more := WINDOW_SIZE - lookahead - strstart;
      if strstart >= WSIZE + MAX_DIST {
        Slide();
        more := more + WSIZE;
      }
    }

    /** Append what one read delivers. */
    method ReadMore(more: nat)
      requires Valid() && !eofile && (2 <= lookahead || strstart == 0)
      requires more >= 1 && strstart + lookahead + more <= WINDOW_SIZE
      modifies this`lookahead, this`eofile, this`inputPos, this`crc, this`isize, window
      ensures Valid() && lookahead >= old(lookahead) && (eofile || lookahead > old(lookahead))
      ensures old(lookahead) >= 2 && old(Hashed()) ==> Hashed()
    {
      hide Mirrors, Chains, Rolls, Summed;
      ghost var w := window[..];
      var n := FileRead(strstart + lookahead, more);
      ReadKeeps(w, window[..], prev[..], strstart, lookahead);
      MirrorsRead(w, window[..], strstart + lookahead, input, base, n);
      if n == 0 {
        eofile := true;
      } else {
        lookahead := lookahead + n;
      }
    }

    /** More input comes in behind the lookahead, unless there is no more. Positions in the
        input and the distance of the last match stay what they are. */
    method FillWindow()
      requires Valid() && lookahead < MIN_LOOKAHEAD && !eofile && (2 <= lookahead || strstart == 0)
      modifies this`strstart, this`matchStart, this`blockStart, this`base, this`lookahead, this`eofile, this`inputPos,
               this`crc, this`isize, window, prev
      ensures Valid() && At() == old(At()) && base + blockStart == old(base + blockStart)
      ensures lookahead >= old(lookahead) && (old(strstart) >= 1 ==> strstart >= 1)
      ensures eofile || lookahead > old(lookahead)
      ensures old(strstart) >= 1 ==> Distance(matchStart) == old(Distance(matchStart))
      ensures old(lookahead) >= 2 && old(Hashed()) ==> Hashed()
      ensures base == if old(strstart) >= WSIZE + MAX_DIST then old(base) + WSIZE else old(base)
    {
      hide Mirrors, Chains, Moved, Distance, Rolls, Summed;
      var more := MakeRoom();
      ReadMore(more);
    }

    /** Insert the string at strstart in the dictionary; its old chain head is the
        last position with the same hash. */
    method InsertString() returns (matchHead: ush)
      requires Shape() && strstart < WINDOW_SIZE && Chains(window[..], prev[..], strstart) && Hashed()
      modifies this`insH, prev
      ensures Chains(window[..], prev[..], strstart + 1)
      ensures Latest(window[..], matchHead, strstart, HashAt(window[..], strstart))
      ensures Rolls(insH, window[strstart + 1], window[strstart + 2])
    {
      hide Mirrors, Chains, UpdateHash, Hash3, Latest, Summed;
      RollingHash(insH, window[strstart], window[strstart + 1], window[strstart + 2]);
      ghost var p := prev[..];
      insH := UpdateHash(insH, window[strstart + MIN_MATCH - 1]);
      matchHead := prev[WSIZE + insH];
      ChainsInsert(window[..], p, strstart, p[strstart % WSIZE := matchHead][WSIZE + insH := strstart]);
      prev[strstart % WSIZE] := matchHead;
      prev[WSIZE + insH] := strstart;
    }

    /** On to the next byte. */
    method Advance()
      requires Inserted()
      modifies this`strstart, this`lookahead
      ensures Valid() && Hashed() && strstart == old(strstart) + 1 && lookahead == old(lookahead) - 1
    {
      hide Mirrors, Chains, Rolls, Summed;
      strstart := strstart + 1;
      lookahead := lookahead - 1;
    }

    /** Go to the end of a match of prevLength bytes that began one byte before strstart;
        every string on the way is put on its chain. */
    method SkipMatch()
      requires Inserted() && MIN_MATCH <= prevLength <= lookahead + 1
      modifies this`strstart, this`lookahead, this`prevLength, this`insH, prev
      ensures Valid() && Hashed()
      ensures strstart == old(strstart) + old(prevLength) - 1 && lookahead == old(lookahead) - (old(prevLength) - 1)
    {
      hide Mirrors, Chains, Rolls, Latest, Summed;
      lookahead := lookahead - (prevLength - 1);
      prevLength := prevLength - 2;
      InsertRest();
      strstart := strstart + 1;
    }

    /** Insert the next prevLength strings. */
    method InsertRest()
      requires Shape() && prevLength >= 1 && strstart + prevLength < WINDOW_SIZE
      requires Chains(window[..], prev[..], strstart + 1) && Rolls(insH, window[strstart + 1], window[strstart + 2])
      modifies this`strstart, this`prevLength, this`insH, prev
      ensures prevLength == 0 && strstart == old(strstart) + old(prevLength)
      ensures Chains(window[..], prev[..], strstart + 1) && Rolls(insH, window[strstart + 1], window[strstart + 2])
    {
      hide Mirrors, Chains, Rolls, Latest;
      ghost var end := strstart + prevLength;
      while true
        invariant 1 <= prevLength && strstart + prevLength == end
        invariant Chains(window[..], prev[..], strstart + 1)
        invariant Rolls(insH, window[strstart + 1], window[strstart + 2])
        decreases prevLength
      {
        strstart := strstart + 1;
        var hashHead := InsertString();
        prevLength := prevLength - 1;
        if prevLength == 0 {
          break;
        }
      }
    }

    /** Compare the strings at match_ and scan, known to agree in three bytes, with a
        check for the end every eighth byte only. */
    method Compare(match_: nat, scan: nat) returns (len: nat)
      requires match_ < scan && scan + MAX_MATCH < window.Length
      requires Same(window[..], match_, scan, 0) && Same(window[..], match_, scan, 1) && Same(window[..], match_, scan, 2)
      ensures len == MatchLen(window[..], match_, scan)
    {
      ghost var w := window[..];
      var k := 2;
      while k < MAX_MATCH
        invariant 2 <= k <= MAX_MATCH && k % 8 == 2
        invariant forall i :: 0 <= i <= k ==> Same(w, match_, scan, i)
      {
        var end := k + 8;
        while k < end
          invariant k <= end <= MAX_MATCH && end % 8 == 2 && k >= end - 8
          invariant forall i :: 0 <= i <= k ==> Same(w, match_, scan, i)
        {
          k := k + 1;
          if window[scan + k] != window[match_ + k] {
            MatchLenIs(w, match_, scan, if k < MAX_MATCH then k else MAX_MATCH);
            return if k < MAX_MATCH then k else MAX_MATCH;
          }
          assert Same(w, match_, scan, k);
        }
      }
      MatchLenIs(w, match_, scan, MAX_MATCH);
      return MAX_MATCH;
    }

    /** The length of the match at cur if it can be longer than bestLen, else 0. */
    method TryMatch(cur: nat, bestLen: nat, scanEnd1: byte, scanEnd: byte) returns (len: nat)
      requires Shape() && cur < strstart < WINDOW_SIZE && 1 <= bestLen < MAX_MATCH
      requires HashAt(window[..], cur) == HashAt(window[..], strstart)
      requires scanEnd1 == window[strstart + bestLen - 1] && scanEnd == window[strstart + bestLen]
      ensures len > 0 ==> len == MatchLen(window[..], cur, strstart) >= MIN_MATCH
      ensures len == 0 ==> MatchLen(window[..], cur, strstart) <= bestLen
    {
      hide HashAt, MatchLen;
      ghost var w := window[..];
      if window[cur + bestLen] != scanEnd || window[cur + bestLen - 1] != scanEnd1
         || window[cur] != window[strstart] || window[cur + 1] != window[strstart + 1] {
        NoBetter(w, cur, strstart, bestLen);
        return 0;
      }
      HashMatch(w, cur, strstart);
      len := Compare(cur, strstart);
    }

    /** The longest match for strstart among the strings it is compared with, if that is
        longer than prevLength: its length is returned, its place goes to matchStart. Of
        several that long it is the nearest. The strings compared are the last ones with the
        same hash, down to low. */
    method LongestMatch(curMatch: nat) returns (bestLen: nat, ghost low: nat)
      requires Shape() && 1 <= curMatch < strstart < WINDOW_SIZE && strstart - curMatch <= MAX_DIST
      requires 1 <= prevLength < MAX_MATCH && matchStart < UINT_RANGE
      requires Chains(window[..], prev[..], strstart + 1)
      requires Latest(window[..], curMatch, strstart, HashAt(window[..], strstart))
      modifies this`matchStart
      ensures Outcome(window[..], strstart, curMatch, prevLength, old(matchStart), matchStart, bestLen, low)
    {
      hide Chains, Latest, HashAt, MatchLen, Searched, IsMatch, HashCount, Within;
      ghost var w := window[..];
      ghost var h := HashAt(w, strstart);
      var chainLength := MAX_CHAIN_LENGTH;
      bestLen := prevLength;
      var limit := if strstart > MAX_DIST then strstart - MAX_DIST else 0;
      var scanEnd1 := window[strstart + bestLen - 1];
      var scanEnd := window[strstart + bestLen];
      if prevLength >= GOOD_MATCH {
        chainLength := chainLength / 4;
      }
      var cur := curMatch;
      SearchedFirst(w, cur, strstart, bestLen);
      WithinFirst(w, cur, strstart);
      while true
        invariant 1 <= cur < strstart && strstart - cur <= MAX_DIST
        invariant HashAt(w, cur) == h
        invariant chainLength >= 1 && HashCount(w, h, cur, strstart) + chainLength == Tries(prevLength)
        invariant prevLength <= bestLen < MAX_MATCH
        invariant scanEnd1 == window[strstart + bestLen - 1] && scanEnd == window[strstart + bestLen]
        invariant Found(w, strstart, prevLength, old(matchStart), matchStart, bestLen)
        invariant Searched(w, cur, strstart, bestLen)
        invariant bestLen > prevLength ==> cur < matchStart && Searched(w, matchStart, strstart, bestLen - 1)
        invariant Within(w, cur, curMatch, strstart) && cur <= curMatch && (cur == curMatch || strstart < cur + MAX_DIST)
        decreases cur
      {
        ghost var best0 := bestLen;
        var len := TryMatch(cur, bestLen, scanEnd1, scanEnd);
        LinkLatest(w, prev[..], strstart + 1, cur);
        var next := prev[cur % WSIZE];
        LatestFacts(w, next, cur, h);
        OneMoreLink(w, h, next, cur, strstart);
        WithinNext(w, next, cur, curMatch, strstart);
        if len > bestLen {
          IsFound(w, cur, strstart, len);
          SearchedMore(w, cur, strstart, bestLen, len - 1);
          matchStart := cur;
          bestLen := len;
          SearchedNext(w, cur, next, strstart, best0, bestLen);
          if len >= NICE_MATCH {
            low := next;
            break;
          }
          scanEnd1 := window[strstart + bestLen - 1];
          scanEnd := window[strstart + bestLen];
        }
        SearchedNext(w, cur, next, strstart, best0, bestLen);
        cur := next;
        low := cur;
        if cur <= limit {
          break;
        }
        chainLength := chainLength - 1;
        if chainLength == 0 {
          break;
        }
      }
    }
  }

  /** The checksum and the size of what has been read, when there is more of it. */
  lemma SumsMore(input: seq<byte>, pos: nat, d: seq<byte>, size: nat)
    requires pos + |d| <= |input| && d == input[pos..pos + |d|] && size == UInt(pos)
    ensures Remainder(input[..pos + |d|]) == Divide(Remainder(input[..pos]), BytesToBits(d))
    ensures (size + |d|) % UINT_RANGE == UInt(pos + |d|)
  {
    hide Remainder, Divide, BytesToBits, UInt;
    assert input[..pos + |d|] == input[..pos] + d;
    SizeNext(pos, |d|);
    RemainderNext(input[..pos], d);
  }

  lemma SizeNext(pos: nat, n: nat)
    ensures (UInt(pos) + n) % UINT_RANGE == UInt(pos + n)
  {
    UIntAdd(pos, n);
  }

  lemma IsFound(w: seq<byte>, m: nat, s: nat, len: nat)
    requires 1 <= m < s <= m + MAX_DIST && s + MAX_MATCH <= |w|
    requires MIN_MATCH <= len && len == MatchLen(w, m, s)
    ensures IsMatch(w, m, s, len)
  {
  }

  lemma SearchedFirst(w: seq<byte>, c: nat, s: nat, best: nat)
    requires s + MAX_MATCH <= |w| && Latest(w, c, s, HashAt(w, s))
    ensures Searched(w, c, s, best) && HashCount(w, HashAt(w, s), c, s) == 0
    ensures c != 0 ==> c < s && HashAt(w, c) == HashAt(w, s)
  {
    hide HashAt, MatchLen;
    NoneCounted(w, HashAt(w, s), c, s);
  }

  lemma LatestFacts(w: seq<byte>, m: nat, n: nat, h: nat)
    requires n + 2 <= |w| && Latest(w, m, n, h)
    ensures m != 0 ==> m < n && HashAt(w, m) == h
  {
  }

  /** A string that differs in one of the four bytes looked at first is no better. */
  lemma NoBetter(w: seq<byte>, c: nat, s: nat, best: nat)
    requires c < s && s + MAX_MATCH <= |w| && 1 <= best < MAX_MATCH
    requires w[c + best] != w[s + best] || w[c + best - 1] != w[s + best - 1] || w[c] != w[s] || w[c + 1] != w[s + 1]
    ensures MatchLen(w, c, s) <= best
  {
    assert !Same(w, c, s, best) || !Same(w, c, s, best - 1) || !Same(w, c, s, 0) || !Same(w, c, s, 1);
  }

  lemma MovedBytes(w: seq<byte>, w': seq<byte>, s: nat)
    requires Moved(w, w') && s + 1 < WSIZE
    ensures |w| == |w'| && w'[s] == w[s + WSIZE] && w'[s + 1] == w[s + WSIZE + 1]
  {
    assert w'[..WSIZE][s] == w[WSIZE..2 * WSIZE][s] && w'[..WSIZE][s + 1] == w[WSIZE..2 * WSIZE][s + 1];
  }

  /** Distances do not change when the window slides, even if matchStart wraps around. */
  lemma SameDistance(s: nat, m: nat, k: nat)
    requires s >= k && m < UINT_RANGE
    ensures (s - k - 1 - (m - k) % UINT_RANGE) % UINT_RANGE == (s - 1 - m) % UINT_RANGE
  {
  }

  /** When the window slides with a match waiting, matchStart wraps around exactly if the match
      is as far back as it may be and the string as near the start as it can. */
  lemma WrapsWhen(s: nat, m: nat)
    requires WSIZE + MAX_DIST <= s <= WINDOW_SIZE && m < s - 1 <= m + MAX_DIST
    ensures (m - WSIZE) % UINT_RANGE != m - WSIZE <==> s == WSIZE + MAX_DIST && s - 1 - m == MAX_DIST
    ensures s == WSIZE + MAX_DIST && s - 1 - m == MAX_DIST ==> (m - WSIZE) % UINT_RANGE == UINT_RANGE - 1
  {
  }

  /** Reading behind the lookahead leaves alone what has been hashed. */
  lemma ReadKeeps(w: seq<byte>, w': seq<byte>, prev: seq<ush>, s: nat, lookahead: nat)
    requires |w| == |w'| && s + lookahead <= |w| && w'[..s + lookahead] == w[..s + lookahead]
    requires Chains(w, prev, s) && (2 <= lookahead || s == 0)
    ensures Chains(w', prev, s) && s + 2 <= |w|
    ensures 2 <= lookahead ==> w'[s] == w[s] && w'[s + 1] == w[s + 1]
  {
    if s == 0 {
      ChainsAtStart(w, w', prev);
    } else {
      assert w'[..s + 2] == w'[..s + lookahead][..s + 2] == w[..s + lookahead][..s + 2] == w[..s + 2];
      ChainsRead(w, w', prev, s);
    }
    if 2 <= lookahead {
      assert w'[..s + lookahead][s] == w[..s + lookahead][s] && w'[..s + lookahead][s + 1] == w[..s + lookahead][s + 1];
    }
  }

  lemma ChainsAtStart(w: seq<byte>, w': seq<byte>, prev: seq<ush>)
    requires |w| == |w'| && Chains(w, prev, 0)
    ensures Chains(w', prev, 0)
  {
    forall h | 0 <= h < HASH_SIZE ensures Latest(w', HeadOf(prev, h), 0, h) {
      assert Latest(w, HeadOf(prev, h), 0, h);
    }
  }

  lemma Halves(w: seq<byte>, w': seq<byte>)
    requires |w'| == |w| >= 2 * WSIZE
    requires forall i :: 0 <= i < WSIZE ==> w'[i] == w[i + WSIZE]
    requires forall i :: WSIZE <= i < |w| ==> w'[i] == w[i]
    ensures Moved(w, w')
  {
  }
}
