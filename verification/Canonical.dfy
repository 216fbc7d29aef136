/** Canonical Huffman codes, section 3.2.2 of RFC 1951. */
module Canonical {
  import opened Options
  import opened Bits

  /** No code is longer (section 3.2.7). */
  const MAX_BITS: nat := 15

  /** How many of the lengths are b. */
  function Count(lens: seq<nat>, b: nat): nat
  {
    if lens == [] then 0
    else Count(lens[..|lens| - 1], b) + (if lens[|lens| - 1] == b then 1 else 0)
  }

  /** The smallest code of length b. */
  function FirstCode(lens: seq<nat>, b: nat): nat
  {
    if b <= 1 then 0 else 2 * (FirstCode(lens, b - 1) + Count(lens, b - 1))
  }

  /** The code of a symbol: consecutive values within one length, in symbol order. */
  function CodeOf(lens: seq<nat>, sym: nat): nat
    requires sym < |lens|
  {
    FirstCode(lens, lens[sym]) + Count(lens[..sym], lens[sym])
  }

  /** The code of a symbol as it stands in the stream, most significant bit first. */
  function Codeword(lens: seq<nat>, sym: nat): (b: seq<bool>)
    requires sym < |lens|
    ensures |b| == lens[sym]
  {
    MsbBits(CodeOf(lens, sym), lens[sym])
  }

  /** What one length takes of the code space, in units of 2^-m. */
  function KraftTerm(l: nat, m: nat): nat
    requires l <= m
  {
    if l == 0 then 0 else Pow2(m - l)
  }

  /** Kraft sum of the non-zero lengths, in units of 2^-m. */
  function Kraft(lens: seq<nat>, m: nat): nat
    requires forall i :: 0 <= i < |lens| ==> lens[i] <= m
  {
    if lens == [] then 0
    else Kraft(lens[..|lens| - 1], m) + KraftTerm(lens[|lens| - 1], m)
  }

  /** The lengths describe a prefix code whose longest code is m bits. */
  ghost predicate IsCode(lens: seq<nat>, m: nat)
  {
    && (forall i :: 0 <= i < |lens| ==> lens[i] <= m)
    && Kraft(lens, m) <= Pow2(m)
  }

  /** The first symbol from k on whose code stands at position p. */
  function FindSymbol(lens: seq<nat>, s: seq<bool>, p: nat, k: nat): (r: Option<nat>)
    requires k <= |lens|
    ensures r.Some? ==> r.value < |lens| && lens[r.value] > 0 && p + lens[r.value] <= |s|
    decreases |lens| - k
  {
    if k == |lens| then None
    else if lens[k] > 0 && p + lens[k] <= |s| && s[p..p + lens[k]] == Codeword(lens, k) then Some(k)
    else FindSymbol(lens, s, p, k + 1)
  }
}
