/** Decoding LZO1X, by the rules that lzo1x_optimize follows while it rewrites a
    stream. */
module Lzo1x {
  import opened Bits
  import Inflate

  /** Where the decoder stands: before an instruction, with the literals that came
      last deciding what a small first byte means; or behind a match, whose last byte
      but one says how many literals follow it. */
  datatype Mode = Top | AfterShort | AfterLong | Matched

  /** How decoding ends: behind an end mark, or not at all. */
  datatype Outcome = Malformed | Complete(out: seq<byte>, pos: nat)

  datatype Count = NoCount | Counted(n: nat, next: nat)

  datatype Instruction = Broken | EndMark(next: nat) | Copy(len: nat, dist: nat, next: nat)

  /** A length that did not fit the first byte: 255 for every zero, then the rest. */
  function LongCount(s: seq<byte>, p: nat, base: nat): (c: Count)
    ensures c.Counted? ==> p < c.next <= |s| && c.n > base
    decreases |s| - p
  {
    if p >= |s| then NoCount
    else if s[p] == 0 then LongCount(s, p + 1, base + 255)
    else Counted(base + s[p], p + 1)
  }

  /** M3 and M4: the length, 0 if it follows in more bytes, and two bytes of distance. */
  function ReadFar(s: seq<byte>, p: nat, low: nat, base: nat, dist: nat): (i: Instruction)
    ensures i.Copy? ==> p + 2 <= i.next <= |s| && i.len >= 3
  {
    var c := if low != 0 then Counted(low, p) else LongCount(s, p, base);
    if c.NoCount? || c.next + 2 > |s| then Broken
    else
      var lo: nat, hi: nat := s[c.next], s[c.next + 1];
      Copy(c.n + 2, dist + lo / 4 + hi * 64, c.next + 2)
  }

  /** A match whose first byte, at p, is 16 or more. */
  function ReadMatch(s: seq<byte>, p: nat): (i: Instruction)
    requires p < |s|
    ensures i.Copy? ==> p + 2 <= i.next <= |s| && i.len >= 2 && i.dist >= 1
    ensures i.Copy? && s[p] < 64 ==> p + 3 <= i.next
    ensures i.EndMark? ==> p + 2 < i.next <= |s|
  {
    var t: nat := s[p];
    if t >= 64 then
      if p + 1 >= |s| then Broken
      else
        var hi: nat := s[p + 1];
        Copy(t / 32 + 1, 1 + t / 4 % 8 + hi * 8, p + 2)
    else if t >= 32 then ReadFar(s, p + 1, t % 32, 31, 1)
    else
      var i := ReadFar(s, p + 1, t % 8, 7, t / 8 % 2 * 0x4000);
      if i.Copy? then
        (if i.dist == 0 then EndMark(i.next) else i.(dist := i.dist + 0x4000))
      else i
  }

  /** A match whose first byte is less than 16: what it means depends on the literals
      before it. */
  function ReadNear(s: seq<byte>, p: nat, mode: Mode): (i: Instruction)
    requires p < |s| && (mode.AfterShort? || mode.AfterLong?)
    ensures i.Copy? ==> i.next == p + 2 <= |s| && i.len >= 2 && i.dist >= 1
    ensures !i.EndMark?
  {
    if p + 1 >= |s| then Broken
    else
      var t: nat, hi: nat := s[p], s[p + 1];
      if mode.AfterShort? then Copy(2, 1 + t / 4 + hi * 4, p + 2)
      else Copy(3, 1 + 0x800 + t / 4 + hi * 4, p + 2)
  }

  function CopyMatch(out: seq<byte>, len: nat, dist: nat): (r: seq<byte>)
    requires 1 <= dist <= |out|
    ensures |r| == |out| + len
  {
    Inflate.CopyMatch(out, len, dist)
  }

  /** What remains to be decoded from p on. */
  function Run(s: seq<byte>, p: nat, mode: Mode, out: seq<byte>): Outcome
    requires mode.Matched? ==> 2 <= p <= |s|
    decreases |s| - p, if mode.Matched? then 1 else 0
  {
    if mode.Matched? then
      var n := s[p - 2] % 4;
      if n == 0 then Run(s, p, Top, out)
      else if p + n <= |s| then Run(s, p + n, AfterShort, out + s[p..p + n])
      else Malformed
    else if p >= |s| then Malformed
    else if s[p] < 16 && mode.Top? then
      var c := if s[p] != 0 then Counted(s[p], p + 1) else LongCount(s, p + 1, 15);
      if c.NoCount? || c.next + c.n + 3 > |s| then Malformed
      else Run(s, c.next + c.n + 3, AfterLong, out + s[c.next..c.next + c.n + 3])
    else
      match if s[p] < 16 then ReadNear(s, p, mode) else ReadMatch(s, p)
      case Broken => Malformed
      case EndMark(next) => Complete(out, next)
      case Copy(len, dist, next) =>
        if dist <= |out| then Run(s, next, Matched, CopyMatch(out, len, dist)) else Malformed
  }

  /** A whole block. A first byte above 17 starts it with literals. */
  function Decode(s: seq<byte>): Outcome
  {
    if s == [] then Malformed
    else if s[0] > 17 then
      var n := s[0] - 17;
      if 1 + n > |s| then Malformed
      else Run(s, 1 + n, if n < 4 then AfterShort else AfterLong, s[1..1 + n])
    else Run(s, 0, Top, [])
  }

  lemma {:induction false} CopyExtends(out: seq<byte>, len: nat, dist: nat)
    requires 1 <= dist <= |out|
    ensures out <= CopyMatch(out, len, dist)
    decreases len
  {
    if len != 0 {
      CopyExtends(out + [out[|out| - dist]], len - 1, dist);
    }
  }

  /** Decoding never takes anything back. */
  lemma {:induction false} RunExtends(s: seq<byte>, p: nat, mode: Mode, out: seq<byte>)
    requires mode.Matched? ==> 2 <= p <= |s|
    requires !Run(s, p, mode, out).Malformed?
    ensures out <= Run(s, p, mode, out).out
    decreases |s| - p, if mode.Matched? then 1 else 0
  {
    hide LongCount, ReadMatch, ReadNear, CopyMatch;
    if mode.Matched? {
      var n := s[p - 2] % 4;
      if n == 0 {
        RunExtends(s, p, Top, out);
      } else {
        RunExtends(s, p + n, AfterShort, out + s[p..p + n]);
      }
    } else {
      if s[p] < 16 && mode.Top? {
        var c := if s[p] != 0 then Counted(s[p], p + 1) else LongCount(s, p + 1, 15);
        RunExtends(s, c.next + c.n + 3, AfterLong, out + s[c.next..c.next + c.n + 3]);
      } else {
        var i := if s[p] < 16 then ReadNear(s, p, mode) else ReadMatch(s, p);
        if i.Copy? {
          CopyExtends(out, i.len, i.dist);
          RunExtends(s, i.next, Matched, CopyMatch(out, i.len, i.dist));
        }
      }
    }
  }
}
