/** What a LZO1X encoder writes for a text, command by command, as the compressor of
    lzo1x_9x.c does: and decoding it gives the text. */
module LzoEncoding {
  import opened Bits
  import opened Lzo1x

  /** The four forms of a match. */
  datatype Form = M1 | M2 | M3 | M4

  /** A match, and the number of literals behind it. */
  datatype Phrase = Phrase(form: Form, len: nat, dist: nat, run: nat)

  /** What each form may carry; `before` literals stand directly before the match. */
  predicate Sendable(form: Form, len: nat, dist: nat, before: nat)
  {
    match form
    case M1 => (1 <= before <= 3 && len == 2 && 1 <= dist <= 1024) || (before >= 4 && len == 3 && 2049 <= dist <= 3072)
    case M2 => 3 <= len <= 8 && 1 <= dist <= 2048
    case M3 => len >= 3 && 1 <= dist <= 16384
    case M4 => len >= 3 && 16385 <= dist <= 49151
  }

  /** What did not fit the byte before: a zero for each 255, and from 1 to 255 at last. */
  function Rest(n: nat): (r: seq<byte>)
    requires n >= 1
    ensures |r| >= 1
  {
    if n <= 255 then [n] else [0] + Rest(n - 255)
  }

  /** A length from 3 on, `longest` of which fits the byte. */
  function Length(marker: nat, len: nat, longest: nat): (r: seq<byte>)
    requires marker + longest <= 257 && 3 <= len && 9 <= longest
    ensures |r| >= 1
  {
    if len <= longest then [marker + len - 2] else [marker] + Rest(len - longest)
  }

  /** The bytes of a match; from 0 to 3 literals that follow go into the last but one. */
  function MatchBytes(form: Form, len: nat, dist: nat, before: nat, follow: nat): (r: seq<byte>)
    requires Sendable(form, len, dist, before) && follow <= 3
    ensures |r| >= 2
  {
    match form
    case M1 =>
      var d := dist - if len == 2 then 1 else 2049;
      [d % 4 * 4 + follow, d / 4]
    case M2 => [(len - 1) * 32 + (dist - 1) % 8 * 4 + follow, (dist - 1) / 8]
    case M3 => Length(32, len, 33) + [(dist - 1) % 64 * 4 + follow, (dist - 1) / 64]
    case M4 =>
      var d := dist - 16384;
      Length(if d >= 16384 then 24 else 16, len, 9) + [d % 64 * 4 + follow, d / 64 % 256]
  }

  /** The bytes before a run of more than three literals. */
  function RunHeader(run: nat): (r: seq<byte>)
    requires run >= 4
    ensures |r| >= 1
  {
    if run <= 18 then [run - 3] else [0] + Rest(run - 18)
  }

  /** From `at` on, the text is what these commands say: a match repeats what stands its distance
      back, byte by byte. */
  ghost predicate Describes(phrases: seq<Phrase>, text: seq<byte>, at: nat, before: nat)
    decreases |phrases|
  {
    if phrases == [] then at == |text|
    else
      var f := phrases[0];
      Sendable(f.form, f.len, f.dist, before) && Repeats(text, at, f.len, f.dist)
      && at + f.len + f.run <= |text|
      && Describes(phrases[1..], text, at + f.len + f.run, f.run)
  }

  ghost predicate Repeats(text: seq<byte>, at: nat, len: nat, dist: nat)
  {
    dist <= at && at + len <= |text| && forall k :: at <= k < at + len ==> text[k] == text[k - dist]
  }

  /** The bytes of these commands and the end mark. */
  function Encoded(phrases: seq<Phrase>, text: seq<byte>, at: nat, before: nat): (r: seq<byte>)
    requires Describes(phrases, text, at, before)
    ensures |r| >= 3
    decreases |phrases|
  {
    if phrases == [] then [0x11, 0, 0]
    else
      var f := phrases[0];
      var lits := at + f.len;
      MatchBytes(f.form, f.len, f.dist, before, if f.run <= 3 then f.run else 0)
      + (if f.run <= 3 then [] else RunHeader(f.run))
      + text[lits..lits + f.run]
      + Encoded(phrases[1..], text, lits + f.run, f.run)
  }

  /** A block that starts with `first` literals: up to 238 of them may be counted by one byte. */
  function Block(first: nat, short: bool, phrases: seq<Phrase>, text: seq<byte>): seq<byte>
    requires first <= |text| && Describes(phrases, text, first, first)
    requires if short then 1 <= first <= 238 else first == 0 || first >= 4
  {
    (if short then [17 + first] else if first == 0 then [] else RunHeader(first))
    + text[..first] + Encoded(phrases, text, first, first)
  }

  /** b stands in s from p on. */
  ghost predicate Stands(s: seq<byte>, p: nat, b: seq<byte>)
  {
    p + |b| <= |s| && s[p..p + |b|] == b
  }

  lemma StandsParts(s: seq<byte>, p: nat, a: seq<byte>, b: seq<byte>)
    requires Stands(s, p, a + b)
    ensures Stands(s, p, a) && Stands(s, p + |a|, b)
  {
    assert s[p..p + |a|] == (a + b)[..|a|];
    assert s[p + |a|..p + |a| + |b|] == (a + b)[|a|..];
  }

  lemma StandsAt(s: seq<byte>, p: nat, b: seq<byte>, k: nat)
    requires Stands(s, p, b) && k < |b|
    ensures s[p + k] == b[k]
  {
    assert s[p..p + |b|][k] == s[p + k];
  }

  lemma {:induction false} RestRead(s: seq<byte>, p: nat, n: nat, base: nat)
    requires n >= 1 && Stands(s, p, Rest(n))
    ensures LongCount(s, p, base) == Counted(base + n, p + |Rest(n)|)
    decreases n
  {
    StandsAt(s, p, Rest(n), 0);
    if n > 255 {
      StandsParts(s, p, [0], Rest(n - 255));
      RestRead(s, p + 1, n - 255, base + 255);
    }
  }

  /** The part of a length that fits its byte. */
  function LowPart(len: nat, longest: nat): nat
    requires len >= 3
  {
    if len <= longest then len - 2 else 0
  }

  lemma FarRead(s: seq<byte>, p: nat, marker: nat, len: nat, longest: nat, lo: byte, hi: byte, dist: nat)
    requires marker + longest <= 257 && 3 <= len && 9 <= longest
    requires Stands(s, p, Length(marker, len, longest) + [lo, hi])
    ensures s[p] == marker + LowPart(len, longest) && s[p + |Length(marker, len, longest)|] == lo
    ensures ReadFar(s, p + 1, LowPart(len, longest), longest - 2, dist)
         == Copy(len, dist + lo / 4 + hi * 64, p + |Length(marker, len, longest)| + 2)
  {
    hide Rest, Stands, LongCount;
    var l := Length(marker, len, longest);
    StandsParts(s, p, l, [lo, hi]);
    TwoBytes(s, p + |l|, lo, hi);
    StandsAt(s, p, l, 0);
    if len > longest {
      StandsParts(s, p, [marker], Rest(len - longest));
      RestRead(s, p + 1, len - longest, longest - 2);
    }
  }

  /** The mode of the decoder behind this many literals. */
  function ModeBehind(before: nat): Mode
  {
    if before == 0 then Top else if before <= 3 then AfterShort else AfterLong
  }

  /** The instruction at p. */
  function ReadAt(s: seq<byte>, p: nat, mode: Mode): Instruction
    requires p < |s| && (s[p] < 16 ==> mode.AfterShort? || mode.AfterLong?)
  {
    if s[p] < 16 then ReadNear(s, p, mode) else ReadMatch(s, p)
  }

  /** A match is read back. */
  ghost predicate IsRead(s: seq<byte>, p: nat, len: nat, dist: nat, before: nat, follow: nat, next: nat)
  {
    2 <= next <= |s| && p < next && s[next - 2] % 4 == follow
    && (s[p] < 16 ==> before >= 1) && ReadAt(s, p, ModeBehind(before)) == Copy(len, dist, next)
  }

  lemma TwoBytes(s: seq<byte>, p: nat, a: byte, b: byte)
    requires Stands(s, p, [a, b])
    ensures p + 2 <= |s| && s[p] == a && s[p + 1] == b
  {
    StandsAt(s, p, [a, b], 0);
    StandsAt(s, p, [a, b], 1);
  }

  lemma M1Read(s: seq<byte>, p: nat, len: nat, dist: nat, before: nat, follow: nat)
    requires Sendable(M1, len, dist, before) && follow <= 3
    requires Stands(s, p, MatchBytes(M1, len, dist, before, follow))
    ensures IsRead(s, p, len, dist, before, follow, p + |MatchBytes(M1, len, dist, before, follow)|)
  {
    hide Stands, ReadMatch;
    var d := dist - if len == 2 then 1 else 2049;
    TwoBytes(s, p, d % 4 * 4 + follow, d / 4);
  }

  lemma M2Read(s: seq<byte>, p: nat, len: nat, dist: nat, before: nat, follow: nat)
    requires Sendable(M2, len, dist, before) && follow <= 3
    requires Stands(s, p, MatchBytes(M2, len, dist, before, follow))
    ensures IsRead(s, p, len, dist, before, follow, p + |MatchBytes(M2, len, dist, before, follow)|)
  {
    hide Stands, ReadNear, ReadFar;
    var t := (len - 1) * 32 + (dist - 1) % 8 * 4 + follow;
    TwoBytes(s, p, t, (dist - 1) / 8);
    assert t / 32 == len - 1 && t / 4 % 8 == (dist - 1) % 8;
  }

  lemma M3Read(s: seq<byte>, p: nat, len: nat, dist: nat, before: nat, follow: nat)
    requires Sendable(M3, len, dist, before) && follow <= 3
    requires Stands(s, p, MatchBytes(M3, len, dist, before, follow))
    ensures IsRead(s, p, len, dist, before, follow, p + |MatchBytes(M3, len, dist, before, follow)|)
  {
    hide Length, ReadFar, Stands;
    FarRead(s, p, 32, len, 33, (dist - 1) % 64 * 4 + follow, (dist - 1) / 64, 1);
  }

  lemma M4Read(s: seq<byte>, p: nat, len: nat, dist: nat, before: nat, follow: nat)
    requires Sendable(M4, len, dist, before) && follow <= 3
    requires Stands(s, p, MatchBytes(M4, len, dist, before, follow))
    ensures IsRead(s, p, len, dist, before, follow, p + |MatchBytes(M4, len, dist, before, follow)|)
  {
    hide Length, ReadFar, Stands;
    var d := dist - 16384;
    var k := if d >= 16384 then 24 else 16;
    FarRead(s, p, k, len, 9, d % 64 * 4 + follow, d / 64 % 256, (k - 16) / 8 * 0x4000);
  }

  lemma MatchRead(s: seq<byte>, p: nat, form: Form, len: nat, dist: nat, before: nat, follow: nat)
    requires Sendable(form, len, dist, before) && follow <= 3
    requires Stands(s, p, MatchBytes(form, len, dist, before, follow))
    ensures IsRead(s, p, len, dist, before, follow, p + |MatchBytes(form, len, dist, before, follow)|)
  {
    hide MatchBytes, IsRead, Stands;
    match form {
      case M1 => M1Read(s, p, len, dist, before, follow);
      case M2 => M2Read(s, p, len, dist, before, follow);
      case M3 => M3Read(s, p, len, dist, before, follow);
      case M4 => M4Read(s, p, len, dist, before, follow);
    }
  }

  /** Copying gives what the text repeats. */
  lemma {:induction false} CopyRepeat(text: seq<byte>, at: nat, len: nat, dist: nat)
    requires dist >= 1 && Repeats(text, at, len, dist)
    ensures CopyMatch(text[..at], len, dist) == text[..at + len]
    decreases len
  {
    if len != 0 {
      assert text[..at] + [text[at - dist]] == text[..at + 1];
      CopyRepeat(text, at + 1, len - 1, dist);
    }
  }

  /** One step over a run, over the literals behind a match, and over a match. */
  lemma RunStep(s: seq<byte>, p: nat, n: nat, next: nat, out: seq<byte>)
    requires p < |s| && s[p] < 16 && n >= 1 && next + n + 3 <= |s|
    requires (if s[p] != 0 then Counted(s[p], p + 1) else LongCount(s, p + 1, 15)) == Counted(n, next)
    ensures Run(s, p, Top, out) == Run(s, next + n + 3, AfterLong, out + s[next..next + n + 3])
  {
    hide LongCount, ReadMatch, ReadNear;
  }

  lemma TailStep(s: seq<byte>, p: nat, n: nat, out: seq<byte>)
    requires 2 <= p && p + n <= |s| && s[p - 2] % 4 == n
    ensures Run(s, p, Matched, out) == Run(s, p + n, if n == 0 then Top else AfterShort, if n == 0 then out else out + s[p..p + n])
  {
    hide LongCount, ReadMatch, ReadNear;
  }

  lemma MatchStep(s: seq<byte>, p: nat, len: nat, dist: nat, before: nat, follow: nat, next: nat, out: seq<byte>)
    requires IsRead(s, p, len, dist, before, follow, next) && 1 <= dist <= |out|
    ensures Run(s, p, ModeBehind(before), out) == Run(s, next, Matched, CopyMatch(out, len, dist))
  {
    hide LongCount, ReadMatch, ReadNear;
  }

  /** A run of four literals or more is read back. */
  lemma HeaderRead(s: seq<byte>, p: nat, lits: seq<byte>, out: seq<byte>)
    requires |lits| >= 4 && Stands(s, p, RunHeader(|lits|) + lits)
    ensures Run(s, p, Top, out) == Run(s, p + |RunHeader(|lits|)| + |lits|, AfterLong, out + lits)
  {
    hide LongCount, Run, Rest;
    var h := RunHeader(|lits|);
    StandsParts(s, p, h, lits);
    StandsAt(s, p, h, 0);
    if |lits| > 18 {
      StandsParts(s, p, [0], Rest(|lits| - 18));
      RestRead(s, p + 1, |lits| - 18, 15);
    }
    RunStep(s, p, |lits| - 3, p + |h|, out);
  }

  /** The literals behind a match. */
  lemma TailRead(s: seq<byte>, p: nat, lits: seq<byte>, out: seq<byte>)
    requires 2 <= p && Stands(s, p, (if |lits| <= 3 then [] else RunHeader(|lits|)) + lits)
    requires p <= |s| && s[p - 2] % 4 == if |lits| <= 3 then |lits| else 0
    ensures var next := p + (if |lits| <= 3 then 0 else |RunHeader(|lits|)|) + |lits|;
      next <= |s| && Run(s, p, Matched, out) == Run(s, next, ModeBehind(|lits|), out + lits)
  {
    hide Run, RunHeader;
    if |lits| > 3 {
      HeaderRead(s, p, lits, out);
      TailStep(s, p, 0, out);
    } else {
      assert [] + lits == lits && out + [] == out;
      TailStep(s, p, |lits|, out);
    }
  }

  lemma EndRead(s: seq<byte>, p: nat, before: nat, out: seq<byte>)
    requires Stands(s, p, [0x11, 0, 0])
    ensures Run(s, p, ModeBehind(before), out) == Complete(out, p + 3)
  {
    StandsAt(s, p, [0x11, 0, 0], 0);
    StandsAt(s, p, [0x11, 0, 0], 1);
    StandsAt(s, p, [0x11, 0, 0], 2);
    EndIs(s, p);
    EndStep(s, p, before, out);
  }

  lemma EndIs(s: seq<byte>, p: nat)
    requires p + 3 <= |s| && s[p] == 0x11 && s[p + 1] == 0 && s[p + 2] == 0
    ensures ReadMatch(s, p) == EndMark(p + 3)
  {
  }

  lemma EndStep(s: seq<byte>, p: nat, before: nat, out: seq<byte>)
    requires p < |s| && s[p] >= 16 && ReadMatch(s, p) == EndMark(p + 3)
    ensures Run(s, p, ModeBehind(before), out) == Complete(out, p + 3)
  {
    hide LongCount, ReadMatch, ReadNear;
  }

  /** Commands read back give the text. */
  lemma {:induction false} CommandsRead(s: seq<byte>, p: nat, phrases: seq<Phrase>, text: seq<byte>, at: nat, before: nat)
    requires at <= |text| && Describes(phrases, text, at, before) && Stands(s, p, Encoded(phrases, text, at, before))
    ensures Run(s, p, ModeBehind(before), text[..at]) == Complete(text, p + |Encoded(phrases, text, at, before)|)
    decreases |phrases|
  {
    hide Run, MatchBytes, RunHeader, IsRead, Sendable, Stands, Repeats, CopyMatch, ModeBehind;
    if phrases == [] {
      EndRead(s, p, before, text);
      assert text[..at] == text;
    } else {
      var f := phrases[0];
      var lits := at + f.len;
      var follow := if f.run <= 3 then f.run else 0;
      var m := MatchBytes(f.form, f.len, f.dist, before, follow);
      var h := if f.run <= 3 then [] else RunHeader(f.run);
      var tail := text[lits..lits + f.run];
      var rest := Encoded(phrases[1..], text, lits + f.run, f.run);
      EncodedParts(phrases, text, at, before, m, h + tail, rest);
      StandsParts(s, p, m, h + tail + rest);
      StandsParts(s, p + |m|, h + tail, rest);
      OnePhrase(s, p, f, text, at, before);
      CommandsRead(s, p + |m| + |h| + f.run, phrases[1..], text, lits + f.run, f.run);
    }
  }

  lemma EncodedParts(phrases: seq<Phrase>, text: seq<byte>, at: nat, before: nat, m: seq<byte>, t: seq<byte>, rest: seq<byte>)
    requires phrases != [] && Describes(phrases, text, at, before)
    requires var f := phrases[0];
      m == MatchBytes(f.form, f.len, f.dist, before, if f.run <= 3 then f.run else 0)
      && t == (if f.run <= 3 then [] else RunHeader(f.run)) + text[at + f.len..at + f.len + f.run]
      && rest == Encoded(phrases[1..], text, at + f.len + f.run, f.run)
    ensures Encoded(phrases, text, at, before) == m + (t + rest)
  {
    hide MatchBytes, RunHeader, Sendable, Repeats;
  }

  /** A match and the literals behind it. */
  lemma OnePhrase(s: seq<byte>, p: nat, f: Phrase, text: seq<byte>, at: nat, before: nat)
    requires Sendable(f.form, f.len, f.dist, before) && Repeats(text, at, f.len, f.dist) && at + f.len + f.run <= |text|
    requires Stands(s, p, MatchBytes(f.form, f.len, f.dist, before, if f.run <= 3 then f.run else 0))
    requires Stands(s, p + |MatchBytes(f.form, f.len, f.dist, before, if f.run <= 3 then f.run else 0)|,
               (if f.run <= 3 then [] else RunHeader(f.run)) + text[at + f.len..at + f.len + f.run])
    ensures var next := p + |MatchBytes(f.form, f.len, f.dist, before, if f.run <= 3 then f.run else 0)|
               + (if f.run <= 3 then 0 else |RunHeader(f.run)|) + f.run;
      next <= |s| && Run(s, p, ModeBehind(before), text[..at]) == Run(s, next, ModeBehind(f.run), text[..at + f.len + f.run])
  {
    hide Run, MatchBytes, RunHeader, Stands, CopyMatch, ModeBehind;
    var follow := if f.run <= 3 then f.run else 0;
    var q := p + |MatchBytes(f.form, f.len, f.dist, before, follow)|;
    var lits := text[at + f.len..at + f.len + f.run];
    MatchRead(s, p, f.form, f.len, f.dist, before, follow);
    MatchStep(s, p, f.len, f.dist, before, follow, q, text[..at]);
    CopyRepeat(text, at, f.len, f.dist);
    TailRead(s, q, lits, text[..at + f.len]);
    assert text[..at + f.len] + lits == text[..at + f.len + f.run];
  }

  lemma ShortStart(s: seq<byte>, first: nat)
    requires 1 <= first <= 238 && Stands(s, 0, [17 + first]) && 1 + first <= |s|
    ensures Decode(s) == Run(s, 1 + first, ModeBehind(first), s[1..1 + first])
  {
    hide Run;
    StandsAt(s, 0, [17 + first], 0);
  }

  lemma OtherStart(s: seq<byte>)
    requires s != [] && s[0] <= 17
    ensures Decode(s) == Run(s, 0, Top, [])
  {
    hide Run;
  }

  lemma LongStart(s: seq<byte>, first: nat)
    requires first >= 4 && Stands(s, 0, RunHeader(first))
    ensures s != [] && s[0] <= 17
  {
    StandsAt(s, 0, RunHeader(first), 0);
  }

  lemma EmptyStart(s: seq<byte>, phrases: seq<Phrase>, text: seq<byte>)
    requires Describes(phrases, text, 0, 0) && Stands(s, 0, Encoded(phrases, text, 0, 0))
    ensures s != [] && s[0] <= 17
  {
    assert phrases == [];
    StandsAt(s, 0, [0x11, 0, 0], 0);
  }

  /** Every text is what decoding its encodings gives, whichever way they cut it into literals and
      matches; bytes may follow. */
  lemma BlockDecodes(first: nat, short: bool, phrases: seq<Phrase>, text: seq<byte>, after: seq<byte>)
    requires first <= |text| && Describes(phrases, text, first, first)
    requires if short then 1 <= first <= 238 else first == 0 || first >= 4
    ensures Decode(Block(first, short, phrases, text) + after) == Complete(text, |Block(first, short, phrases, text)|)
  {
    hide Run, RunHeader, Describes, Encoded;
    var s := Block(first, short, phrases, text) + after;
    var h := if short then [17 + first] else if first == 0 then [] else RunHeader(first);
    var rest := Encoded(phrases, text, first, first);
    assert s[..|h| + first + |rest|] == h + text[..first] + rest == (h + text[..first]) + rest;
    assert Stands(s, 0, h + text[..first] + rest);
    StandsParts(s, 0, h + text[..first], rest);
    StandsParts(s, 0, h, text[..first]);
    CommandsRead(s, |h| + first, phrases, text, first, first);
    if short {
      ShortStart(s, first);
    } else if first == 0 {
      EmptyStart(s, phrases, text);
      OtherStart(s);
    } else {
      LongStart(s, first);
      OtherStart(s);
      HeaderRead(s, 0, text[..first], []);
      assert [] + text[..first] == text[..first];
    }
  }

  /** The near match behind a long run reaches on from where the two byte match ends. */
  lemma NearAboveM2(t: byte, hi: byte, u: byte, h: byte)
    requires 64 <= t && u < 16
    ensures 1 <= ReadMatch([t, hi], 0).dist <= 2048 < ReadNear([u, h], 0, AfterLong).dist <= 3072
    ensures ReadMatch([0x5c, 0xff], 0).dist + 1 == ReadNear([0, 0], 0, AfterLong).dist
  {
    assert [t, hi][0] == t && [u, h][0] == u && [0x5c, 0xff][0] == 0x5c;
  }

  // ---------- the compressor ----------

  /** The form that the compressor chooses. */
  function FormOf(len: nat, dist: nat, lit: nat): Form
  {
    if len == 2 then M1
    else if len <= 8 && dist <= 2048 then M2
    else if len == 3 && dist <= 3072 && lit >= 4 then M1
    else if dist <= 16384 then M3
    else M4
  }

  /** It may be sent whenever any form may. */
  lemma FormIsSendable(form: Form, len: nat, dist: nat, lit: nat)
    requires Sendable(form, len, dist, lit)
    ensures Sendable(FormOf(len, dist, lit), len, dist, lit)
  {
  }

  /** The loop at the end of a long length or run. */
  method PutRest(op0: seq<byte>, n: nat) returns (op: seq<byte>)
    requires n >= 1
    ensures op == op0 + Rest(n)
  {
    op := op0;
    var left := n;
    while left > 255
      invariant left >= 1 && op + Rest(left) == op0 + Rest(n)
    {
      assert op + Rest(left) == op + [0] + Rest(left - 255);
      op := op + [0];
      left := left - 255;
    }
    op := op + [left];
  }

  /** code_match. */
  method CodeMatch(op0: seq<byte>, len: nat, dist: nat, lit: nat) returns (op: seq<byte>)
    requires Sendable(FormOf(len, dist, lit), len, dist, lit)
    ensures op == op0 + MatchBytes(FormOf(len, dist, lit), len, dist, lit, 0)
  {
    hide Rest;
    if len == 2 {
      op := op0 + [(dist - 1) % 4 * 4, (dist - 1) / 4];
    } else if len <= 8 && dist <= 2048 {
      op := op0 + [(len - 1) * 32 + (dist - 1) % 8 * 4, (dist - 1) / 8];
    } else if len == 3 && dist <= 3072 && lit >= 4 {
      op := op0 + [(dist - 2049) % 4 * 4, (dist - 2049) / 4];
    } else if dist <= 16384 {
      op := PutLength(op0, 32, len, 33);
      op := PutFar(op, dist - 1);
      FarBytes(op0, len, dist, lit);
    } else {
      var k := if dist - 0x4000 >= 0x4000 then 8 else 0;
      op := PutLength(op0, 16 + k, len, 9);
      op := PutFar(op, dist - 0x4000);
      FarBytes(op0, len, dist, lit);
    }
  }

  method PutLength(op0: seq<byte>, marker: nat, len: nat, longest: nat) returns (op: seq<byte>)
    requires marker + longest <= 257 && 3 <= len && 9 <= longest
    ensures op == op0 + Length(marker, len, longest)
  {
    hide Rest;
    if len <= longest {
      op := op0 + [marker + len - 2];
    } else {
      op := PutRest(op0 + [marker], len - longest);
    }
  }

  /** Two bytes of distance, in the upper fourteen bits. */
  method PutFar(op0: seq<byte>, d: nat) returns (op: seq<byte>)
    ensures op == op0 + [d % 64 * 4, d / 64 % 256]
  {
    assert d * 4 % 256 == d % 64 * 4;
    op := op0 + [d * 4 % 256, d / 64 % 256];
  }

  lemma FarBytes(op: seq<byte>, len: nat, dist: nat, lit: nat)
    requires Sendable(FormOf(len, dist, lit), len, dist, lit)
    ensures FormOf(len, dist, lit).M3? ==>
      op + MatchBytes(M3, len, dist, lit, 0) == op + Length(32, len, 33) + [(dist - 1) % 64 * 4, (dist - 1) / 64 % 256]
    ensures FormOf(len, dist, lit).M4? ==>
      op + MatchBytes(M4, len, dist, lit, 0)
      == op + Length(if dist - 0x4000 >= 0x4000 then 24 else 16, len, 9) + [(dist - 0x4000) % 64 * 4, (dist - 0x4000) / 64 % 256]
  {
    hide Rest, Length;
  }

  /** STORE_RUN; three literals or fewer are counted in the match before them. */
  method StoreRun(op0: seq<byte>, lits: seq<byte>) returns (op: seq<byte>)
    requires lits != []
    requires op0 == [] || |lits| > 3 || (|op0| >= 2 && op0[|op0| - 2] % 4 == 0)
    ensures op == if op0 == [] && |lits| <= 238 then [17 + |lits|] + lits
      else if |lits| <= 3 then op0[|op0| - 2 := op0[|op0| - 2] + |lits|] + lits
      else op0 + RunHeader(|lits|) + lits
  {
    var t := |lits|;
    if op0 == [] && t <= 238 {
      op := [17 + t];
    } else if t <= 3 {
      op := op0[|op0| - 2 := op0[|op0| - 2] + t];
    } else if t <= 18 {
      op := op0 + [t - 3];
    } else {
      op := PutRest(op0 + [0], t - 18);
      assert op == op0 + RunHeader(t);
    }
    op := op + lits;
  }

  /** len_of_coded_match: how many bytes code_match would write, or -1. */
  method LenOfCodedMatch(len: nat, dist: nat, lit: nat) returns (n: int)
    requires dist >= 1
    ensures n == -1 ==> forall form :: !Sendable(form, len, dist, lit)
    ensures if Sendable(FormOf(len, dist, lit), len, dist, lit)
      then n == |MatchBytes(FormOf(len, dist, lit), len, dist, lit, 0)| else n == -1
  {
    forall form | Sendable(form, len, dist, lit) ensures Sendable(FormOf(len, dist, lit), len, dist, lit) {
      FormIsSendable(form, len, dist, lit);
    }
    n := 4;
    if len < 2 {
      return -1;
    }
    if len == 2 {
      return if dist <= 1024 && 0 < lit < 4 then 2 else -1;
    }
    if len <= 8 && dist <= 2048 {
      return 2;
    }
    if len == 3 && dist <= 3072 && lit >= 4 {
      return 2;
    }
    var left := len;
    if dist <= 16384 {
      if len <= 33 {
        return 3;
      }
      left := len - 33;
    } else if dist <= 49151 {
      if len <= 9 {
        return 3;
      }
      left := len - 9;
    } else {
      return -1;
    }
    ghost var all := left;
    while left > 255
      invariant left >= 1 && n + |Rest(left)| == 4 + |Rest(all)|
    {
      left := left - 255;
      n := n + 1;
    }
  }
}
