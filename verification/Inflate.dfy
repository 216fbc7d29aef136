/** A decoder for the DEFLATE format, written from RFC 1951 alone. It reads a
    stream of bits s from a position p; Bad is a malformed stream. */
module Inflate {
  import opened Bits
  import opened Canonical

  datatype Step<+T> = Bad | Next(value: T, pos: nat)

  /** A number of n bits, least significant bit first (section 3.1.1). */
  function ReadBits(s: seq<bool>, p: nat, n: nat): (r: Step<nat>)
    ensures r.Next? ==> r.pos == p + n <= |s|
  {
    if p + n <= |s| then Next(BitsValue(s[p..p + n]), p + n) else Bad
  }

  /** One symbol of the Huffman code with these lengths (section 3.2.2). */
  function ReadSymbol(lens: seq<nat>, s: seq<bool>, p: nat): (r: Step<nat>)
    ensures r.Next? ==> r.value < |lens| && p < r.pos <= |s|
  {
    match FindSymbol(lens, s, p, 0)
    case None => Bad
    case Some(sym) => Next(sym, p + lens[sym])
  }

  /** Section 3.2.5: base length and extra bits of symbols 257..285, base
      distance and extra bits of distance symbols 0..29. */
  const LENGTH_BASE: seq<nat> :=
    [3, 4, 5, 6, 7, 8, 9, 10, 11, 13, 15, 17, 19, 23, 27, 31, 35, 43, 51, 59,
     67, 83, 99, 115, 131, 163, 195, 227, 258]
  const LENGTH_EXTRA: seq<nat> :=
    [0, 0, 0, 0, 0, 0, 0, 0, 1, 1, 1, 1, 2, 2, 2, 2, 3, 3, 3, 3,
     4, 4, 4, 4, 5, 5, 5, 5, 0]
  const DIST_BASE: seq<nat> :=
    [1, 2, 3, 4, 5, 7, 9, 13, 17, 25, 33, 49, 65, 97, 129, 193, 257, 385, 513, 769,
     1025, 1537, 2049, 3073, 4097, 6145, 8193, 12289, 16385, 24577]
  const DIST_EXTRA: seq<nat> :=
    [0, 0, 0, 0, 1, 1, 2, 2, 3, 3, 4, 4, 5, 5, 6, 6, 7, 7, 8, 8,
     9, 9, 10, 10, 11, 11, 12, 12, 13, 13]

  /** Append length bytes copied from distance back, byte by byte, so that the
      copy may overlap what it writes (section 3.2.3). */
  function CopyMatch(out: seq<byte>, length: nat, distance: nat): (r: seq<byte>)
    requires 1 <= distance <= |out|
    ensures |r| == |out| + length
    decreases length
  {
    if length == 0 then out
    else CopyMatch(out + [out[|out| - distance]], length - 1, distance)
  }

  /** The literal and match symbols of a block up to its end-of-block symbol. */
  function InflateData(llens: seq<nat>, dlens: seq<nat>, s: seq<bool>, p: nat, out: seq<byte>)
    : (r: Step<seq<byte>>)
    ensures r.Next? ==> p < r.pos <= |s|
    decreases |s| - p
  {
    match ReadSymbol(llens, s, p)
    case Bad => Bad
    case Next(sym, p1) =>
      if sym < 256 then InflateData(llens, dlens, s, p1, out + [sym])
      else if sym == 256 then Next(out, p1)
      else if sym > 285 then Bad
      else
        match ReadBits(s, p1, LENGTH_EXTRA[sym - 257])
        case Bad => Bad
        case Next(lx, p2) =>
          match ReadSymbol(dlens, s, p2)
          case Bad => Bad
          case Next(dsym, p3) =>
            if dsym >= 30 then Bad
            else
              match ReadBits(s, p3, DIST_EXTRA[dsym])
              case Bad => Bad
              case Next(dx, p4) =>
                var distance := DIST_BASE[dsym] + dx;
                if distance > |out| then Bad
                else InflateData(llens, dlens, s, p4, CopyMatch(out, LENGTH_BASE[sym - 257] + lx, distance))
  }

  /** Section 3.2.7: the order in which code length code lengths are sent. */
  const CODE_LENGTH_ORDER: seq<nat> :=
    [16, 17, 18, 0, 8, 7, 9, 6, 10, 5, 11, 4, 12, 3, 13, 2, 14, 1, 15]

  /** The n lengths, 3 bits each, of the code length code, into their places. */
  function ReadCodeLengthLengths(s: seq<bool>, p: nat, k: nat, n: nat, acc: seq<nat>)
    : (r: Step<seq<nat>>)
    requires k <= n <= 19 && |acc| == 19
    ensures r.Next? ==> |r.value| == 19
    decreases n - k
  {
    if k == n then Next(acc, p)
    else
      match ReadBits(s, p, 3)
      case Bad => Bad
      case Next(v, p1) => ReadCodeLengthLengths(s, p1, k + 1, n, acc[CODE_LENGTH_ORDER[k] := v])
  }

  /** n copies of x. */
  function Repeat<T>(x: T, n: nat): (r: seq<T>)
    ensures |r| == n && forall i :: 0 <= i < n ==> r[i] == x
  {
    if n == 0 then [] else Repeat(x, n - 1) + [x]
  }

  /** Section 3.2.6: the lengths of the fixed codes. */
  function FixedLiteralLengths(): (r: seq<nat>)
    ensures |r| == 288
  {
    Repeat(8, 144) + Repeat(9, 112) + Repeat(7, 24) + Repeat(8, 8)
  }

  function FixedDistanceLengths(): (r: seq<nat>)
    ensures |r| == 32
  {
    Repeat(5, 32)
  }

  /** Run-length coded code lengths, n of them in all (section 3.2.7). */
  function ReadLengths(clens: seq<nat>, s: seq<bool>, p: nat, n: nat, acc: seq<nat>)
    : (r: Step<seq<nat>>)
    ensures r.Next? ==> |r.value| == n
    decreases |s| - p
  {
    if |acc| >= n then (if |acc| == n then Next(acc, p) else Bad)
    else
      match ReadSymbol(clens, s, p)
      case Bad => Bad
      case Next(sym, p1) =>
        if sym <= 15 then ReadLengths(clens, s, p1, n, acc + [sym])
        else if sym == 16 then
          if acc == [] then Bad
          else
            match ReadBits(s, p1, 2)
            case Bad => Bad
            case Next(v, p2) => ReadLengths(clens, s, p2, n, acc + Repeat(acc[|acc| - 1], 3 + v))
        else if sym == 17 then
          match ReadBits(s, p1, 3)
          case Bad => Bad
          case Next(v, p2) => ReadLengths(clens, s, p2, n, acc + Repeat(0, 3 + v))
        else if sym == 18 then
          match ReadBits(s, p1, 7)
          case Bad => Bad
          case Next(v, p2) => ReadLengths(clens, s, p2, n, acc + Repeat(0, 11 + v))
        else Bad
  }

  /** The literal and distance code lengths of a dynamic block (section 3.2.7). */
  function ReadTrees(s: seq<bool>, p: nat): (r: Step<(seq<nat>, seq<nat>)>)
  {
    match ReadBits(s, p, 5)
    case Bad => Bad
    case Next(hlit, p1) =>
      match ReadBits(s, p1, 5)
      case Bad => Bad
      case Next(hdist, p2) =>
        match ReadBits(s, p2, 4)
        case Bad => Bad
        case Next(hclen, p3) =>
          if hclen + 4 > 19 then Bad
          else
            match ReadCodeLengthLengths(s, p3, 0, hclen + 4, Repeat(0, 19))
            case Bad => Bad
            case Next(clens, p4) =>
              match ReadLengths(clens, s, p4, (hlit + 257) + (hdist + 1), [])
              case Bad => Bad
              case Next(lens, p5) => Next((lens[..hlit + 257], lens[hlit + 257..]), p5)
  }

  /** The next position that is a whole number of bytes. */
  function Align(p: nat): (q: nat)
    ensures p <= q < p + 8 && q % 8 == 0
  {
    (p + 7) / 8 * 8
  }

  /** n bytes. */
  function ReadBytes(s: seq<bool>, p: nat, n: nat): (r: Step<seq<byte>>)
    decreases n
  {
    if n == 0 then Next([], p)
    else if p + 8 > |s| then Bad
    else
      match ReadBytes(s, p + 8, n - 1)
      case Bad => Bad
      case Next(bs, q) =>
        var v := BitsValue(s[p..p + 8]);
        if v < 256 then Next([v] + bs, q) else Bad
  }

  /** One block after its three header bits. */
  function InflateBlock(kind: nat, s: seq<bool>, p: nat, out: seq<byte>): (r: Step<seq<byte>>)
  {
    if kind == 0 then            // stored, section 3.2.4
      match ReadBits(s, Align(p), 16)
      case Bad => Bad
      case Next(len, p1) =>
        match ReadBits(s, p1, 16)
        case Bad => Bad
        case Next(nlen, p2) =>
          if len + nlen != 0xffff then Bad
          else
            match ReadBytes(s, p2, len)
            case Bad => Bad
            case Next(bs, p3) => Next(out + bs, p3)
    else if kind == 1 then       // fixed codes, section 3.2.6
      InflateData(FixedLiteralLengths(), FixedDistanceLengths(), s, p, out)
    else if kind == 2 then       // dynamic codes, section 3.2.7
      match ReadTrees(s, p)
      case Bad => Bad
      case Next((llens, dlens), p1) => InflateData(llens, dlens, s, p1, out)
    else Bad
  }

  /** Blocks from position p on, up to and including the one flagged final
      (section 3.2.3): all the bytes, and where the stream ends. */
  function InflateFrom(s: seq<bool>, p: nat, out: seq<byte>): (r: Step<seq<byte>>)
    decreases |s| - p
  {
    if p + 3 > |s| then Bad
    else
      match InflateBlock(BitsValue(s[p + 1..p + 3]), s, p + 3, out)
      case Bad => Bad
      case Next(bytes, q) =>
        if s[p] then Next(bytes, q)
        else if p < q then InflateFrom(s, q, bytes)
        else Bad
  }

  /** A whole stream. */
  function Decode(s: seq<bool>): (r: Step<seq<byte>>)
  {
    InflateFrom(s, 0, [])
  }
}
