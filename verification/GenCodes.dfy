/** bi_reverse and gen_codes: from code lengths to codes ready to be sent. */
module GenCodes {
  import opened Bits
  import opened Canonical
  import opened PrefixCodes

  /** ct_data: fc is the frequency and later the code, dl is the father node and
      later the code length. */
  datatype CtData = CtData(fc: ush, dl: ush)

  function Lens(tree: seq<CtData>, n: nat): (r: seq<nat>)
    requires n <= |tree|
    ensures |r| == n && forall i :: 0 <= i < n ==> r[i] == tree[i].dl
  {
    seq(n, i requires 0 <= i < n => tree[i].dl)
  }

  /** The code kept for a symbol, sent least significant bit first, is its
      canonical code. */
  ghost predicate HasCode(tree: seq<CtData>, lens: seq<nat>, sym: nat)
    requires sym < |tree| && sym < |lens|
  {
    && tree[sym].dl == lens[sym]
    && (lens[sym] > 0 ==>
          tree[sym].fc < Pow2(lens[sym]) && LsbBits(tree[sym].fc, lens[sym]) == Codeword(lens, sym))
  }

  ghost predicate HasCodes(tree: seq<CtData>, lens: seq<nat>)
    requires |lens| <= |tree|
  {
    forall i :: 0 <= i < |lens| ==> HasCode(tree, lens, i)
  }

  lemma {:induction false} MsbBitsTop(v: nat, k: nat)
    ensures MsbBits(v, k + 1) == [Shr(v, k) % 2 == 1] + MsbBits(v, k)
  {
    if k != 0 {
      MsbBitsTop(v / 2, k - 1);
    }
  }

  lemma {:induction false} ShrStep(v: nat, k: nat)
    ensures Shr(v, k) / 2 == Shr(v, k + 1)
  {
    if k != 0 {
      ShrStep(v / 2, k - 1);
    }
  }

  lemma {:induction false} AppendLowBit(r: nat, b: nat, k: nat)
    requires b < 2 && r < Pow2(k)
    ensures BitOr(b, 2 * r) == 2 * r + b < Pow2(k + 1)
    ensures LsbBits(2 * r + b, k + 1) == [b == 1] + LsbBits(r, k)
  {
    BitOrDisjoint(b, 1, r);
    assert Pow2(1) == 2 && Pow2(k + 1) == 2 * Pow2(k);
    assert (2 * r + b) / 2 == r && (2 * r + b) % 2 == b;
  }

  /** The low len bits of code in the opposite order: sent lowest bit first, they leave in
      the order of the code. */
  method BiReverse(code: nat, len: nat) returns (res: nat)
    requires 1 <= len
    ensures res < Pow2(len)
    ensures LsbBits(res, len) == MsbBits(code, len)
  {
    hide LsbBits, MsbBits, BitOr, Shr;
    res := 0;
    var c, left := code, len;
    ghost var k := 0;
    ghost var r := 0;
    assert LsbBits(0, 0) == [] == MsbBits(code, 0);
    ShrZero(code);
    while true
      invariant 0 < left <= len && k == len - left && res == 2 * r && r < Pow2(k)
      invariant c == Shr(code, k)
      invariant LsbBits(r, k) == MsbBits(code, k)
      decreases left
    {
      AppendLowBit(r, c % 2, k);
      MsbBitsTop(code, k);
      ShrStep(code, k);
      res := BitOr(c % 2, res);
      left := left - 1;
      r, k := res, k + 1;
      if left <= 0 {
        return;
      }
      c := c / 2;
      res := 2 * res;
    }
  }

  lemma ShrZero(v: nat)
    ensures Shr(v, 0) == v
  {
  }

  lemma {:induction false} KraftScale(lens: seq<nat>, m: nat, n: nat)
    requires m <= n && forall i :: 0 <= i < |lens| ==> lens[i] <= m
    ensures Kraft(lens, n) == Kraft(lens, m) * Pow2(n - m)
  {
    if lens != [] {
      var l := lens[|lens| - 1];
      KraftScale(lens[..|lens| - 1], m, n);
      if l > 0 {
        Pow2Add(m - l, n - m);
      }
      MulSum(Kraft(lens[..|lens| - 1], m), KraftTerm(l, m), Pow2(n - m));
    }
  }

  /** A code of at most m bits is one of at most n. */
  lemma {:induction false} CodeWidens(lens: seq<nat>, m: nat, n: nat)
    requires m <= n && IsCode(lens, m)
    ensures IsCode(lens, n)
  {
    KraftScale(lens, m, n);
    Pow2Add(m, n - m);
    MulMonotone(Kraft(lens, m), Pow2(m), Pow2(n - m));
  }

  lemma MulMonotone(a: nat, b: nat, d: nat)
    requires a <= b
    ensures a * d <= b * d
  {
  }

  lemma NextFirstCode(lens: seq<nat>, b: nat)
    requires IsCode(lens, MAX_BITS) && 1 <= b < MAX_BITS
    ensures FirstCode(lens, b + 1) == 2 * (FirstCode(lens, b) + Count(lens, b)) < 0x10000
  {
    CodeFits(lens, MAX_BITS, b);
    Pow2Monotone(b, 14);
    Pow2Values();
  }

  lemma FirstCodeOne(lens: seq<nat>)
    ensures FirstCode(lens, 1) == 0
  {
  }

  /** While codes are handed out, the next one still fits its length. */
  lemma NextCodeFits(lens: seq<nat>, n: nat)
    requires IsCode(lens, MAX_BITS) && n < |lens| && lens[n] > 0
    ensures CodeOf(lens, n) == FirstCode(lens, lens[n]) + Count(lens[..n], lens[n]) < 0x8000
    ensures Pow2(lens[n]) <= 0x8000
  {
    SymbolCodeFits(lens, MAX_BITS, n);
    Pow2Monotone(lens[n], MAX_BITS);
    Pow2Values();
  }

  lemma CountStep(lens: seq<nat>, n: nat)
    requires n < |lens|
    ensures forall b :: Count(lens[..n + 1], b) == Count(lens[..n], b) + (if lens[n] == b then 1 else 0)
  {
    assert lens[..n + 1] == lens[..n] + [lens[n]];
    forall b {
      CountAppend(lens[..n], lens[n], b);
    }
  }

  /** The smallest codes of all lengths. */
  method FirstCodes(blCount: array<nat>, ghost lens: seq<nat>) returns (nextCode: array<ush>)
    requires blCount.Length == MAX_BITS + 1 && blCount[0] == 0
    requires forall b :: 1 <= b <= MAX_BITS ==> blCount[b] == Count(lens, b)
    requires IsCode(lens, MAX_BITS)
    ensures fresh(nextCode) && nextCode.Length == MAX_BITS + 1
    ensures forall b :: 1 <= b <= MAX_BITS ==> nextCode[b] == FirstCode(lens, b)
  {
    hide Count, FirstCode, IsCode;
    FirstCodeOne(lens);
    nextCode := new ush[MAX_BITS + 1](_ => 0);
    var code: ush := 0;
    var bits := 1;
    while bits <= MAX_BITS
      invariant 1 <= bits <= MAX_BITS + 1
      invariant bits == 1 ==> code == 0
      invariant bits > 1 ==> code == FirstCode(lens, bits - 1)
      invariant forall b :: 1 <= b < bits ==> nextCode[b] == FirstCode(lens, b)
    {
      if bits > 1 {
        NextFirstCode(lens, bits - 1);
      }
      code := (code + blCount[bits - 1]) * 2 % 0x10000;
      nextCode[bits] := code;
      bits := bits + 1;
    }
  }

  /** Each symbol with a length gets its canonical code, turned around for sending. */
  method Generate(tree: array<CtData>, maxCode: nat, blCount: array<nat>)
    requires maxCode < tree.Length
    requires blCount.Length == MAX_BITS + 1 && blCount[0] == 0
    requires forall b :: 1 <= b <= MAX_BITS ==> blCount[b] == Count(Lens(tree[..], maxCode + 1), b)
    requires IsCode(Lens(tree[..], maxCode + 1), MAX_BITS)
    modifies tree
    ensures forall i :: 0 <= i < tree.Length ==> tree[i].dl == old(tree[i].dl)
    ensures forall i :: maxCode < i < tree.Length ==> tree[i] == old(tree[i])
    ensures Lens(tree[..], maxCode + 1) == old(Lens(tree[..], maxCode + 1))
    ensures HasCodes(tree[..], Lens(tree[..], maxCode + 1))
  {
    hide Count, FirstCode, Kraft, Pow2, LsbBits, MsbBits;
    ghost var lens := Lens(tree[..], maxCode + 1);
    var nextCode := FirstCodes(blCount, lens);
    CountNone(lens[..0]);
    var n := 0;
    while n <= maxCode
      invariant 0 <= n <= maxCode + 1
      invariant forall i :: 0 <= i < tree.Length ==> tree[i].dl == old(tree[i].dl)
      invariant forall i :: n <= i < tree.Length ==> tree[i] == old(tree[i])
      invariant forall b :: 1 <= b <= MAX_BITS ==>
                  nextCode[b] == FirstCode(lens, b) + Count(lens[..n], b)
      invariant forall i :: 0 <= i < n ==> HasCode(tree[..], lens, i)
    {
      var len := tree[n].dl;
      assert len == lens[n];
      ghost var before := tree[..];
      CountStep(lens, n);
      if len != 0 {
        NextCodeFits(lens, n);
        var rev := BiReverse(nextCode[len], len);
        nextCode[len] := nextCode[len] + 1;
        tree[n] := tree[n].(fc := rev);
      }
      forall i | 0 <= i <= n
        ensures HasCode(tree[..], lens, i)
      {
        if i < n {
          assert HasCode(before, lens, i) && tree[..][i] == before[i];
        }
      }
      n := n + 1;
    }
    assert Lens(tree[..], maxCode + 1) == lens;
  }

  lemma CountNone(lens: seq<nat>)
    requires lens == []
    ensures forall b :: Count(lens, b) == 0
  {
  }
}
