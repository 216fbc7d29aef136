/** What makes a code canonical, without counting: in the order of lengths, and of symbols within
    a length, each code is the one before, plus one, with zeros behind it (section 3.2.2 of
    RFC 1951). */
module CodeOrder {
  import opened Bits
  import opened Canonical
  import opened PrefixCodes
  import opened Inflate
  import opened StaticTables

  /** One more, carrying to the left. */
  function Increment(c: seq<bool>): seq<bool>
  {
    if c == [] then []
    else if c[|c| - 1] then Increment(c[..|c| - 1]) + [false]
    else c[..|c| - 1] + [true]
  }

  predicate Before(lens: seq<nat>, i: nat, j: nat)
    requires i < |lens| && j < |lens|
  {
    lens[i] < lens[j] || (lens[i] == lens[j] && i < j)
  }

  /** j is the symbol whose turn it is behind i. */
  ghost predicate Successive(lens: seq<nat>, i: nat, j: nat)
    requires i < |lens| && j < |lens|
  {
    && 0 < lens[i] && Before(lens, i, j)
    && forall k :: 0 <= k < |lens| && Before(lens, i, k) ==> !Before(lens, k, j)
  }

  lemma {:induction false} MsbIncrement(v: nat, n: nat)
    ensures MsbBits(v + 1, n) == Increment(MsbBits(v, n))
    decreases n
  {
    if n != 0 {
      var front := MsbBits(v / 2, n - 1);
      assert MsbBits(v, n)[..n - 1] == front;
      if v % 2 == 1 {
        MsbIncrement(v / 2, n - 1);
        assert (v + 1) / 2 == v / 2 + 1;
      } else {
        assert (v + 1) / 2 == v / 2;
      }
    }
  }

  lemma {:induction false} MsbZeros(v: nat, n: nat, k: nat)
    ensures MsbBits(v * Pow2(k), n + k) == MsbBits(v, n) + Repeat(false, k)
    decreases k
  {
    if k != 0 {
      MsbZeros(v, n, k - 1);
      assert v * Pow2(k) == 2 * (v * Pow2(k - 1));
      assert MsbBits(v, n) + Repeat(false, k) == MsbBits(v, n) + Repeat(false, k - 1) + [false];
    } else {
      assert MsbBits(v, n) + Repeat(false, 0) == MsbBits(v, n);
    }
  }

  lemma {:induction false} MsbZero(n: nat)
    ensures MsbBits(0, n) == Repeat(false, n)
    decreases n
  {
    if n != 0 {
      MsbZero(n - 1);
    }
  }

  lemma {:induction false} NoneCounted(lens: seq<nat>, a: nat, b: nat, l: nat)
    requires a <= b <= |lens| && forall k :: a <= k < b ==> lens[k] != l
    ensures Count(lens[..b], l) == Count(lens[..a], l)
    decreases b
  {
    if a < b {
      NoneCounted(lens, a, b - 1, l);
      assert lens[..b] == lens[..b - 1] + [lens[b - 1]];
      CountAppend(lens[..b - 1], lens[b - 1], l);
    }
  }

  lemma CountedOnce(lens: seq<nat>, i: nat, b: nat)
    requires i < b <= |lens| && forall k :: i < k < b ==> lens[k] != lens[i]
    ensures Count(lens[..b], lens[i]) == Count(lens[..i], lens[i]) + 1
  {
    assert lens[..i + 1] == lens[..i] + [lens[i]];
    CountAppend(lens[..i], lens[i], lens[i]);
    NoneCounted(lens, i + 1, b, lens[i]);
  }

  /** With no code of the lengths between, the first of a length follows from the last before. */
  lemma {:induction false} FirstOfNext(lens: seq<nat>, a: nat, b: nat)
    requires 1 <= a < b && forall k :: 0 <= k < |lens| ==> !(a < lens[k] < b)
    ensures FirstCode(lens, b) == (FirstCode(lens, a) + Count(lens, a)) * Pow2(b - a)
    decreases b
  {
    if b > a + 1 {
      FirstOfNext(lens, a, b - 1);
      NoneCounted(lens, 0, |lens|, b - 1);
      assert lens[..|lens|] == lens && lens[..0] == [];
      MulPow2(FirstCode(lens, a) + Count(lens, a), b - a);
    } else {
      assert Pow2(1) == 2;
    }
  }

  /** Each code is the one before, plus one, with zeros behind it if it is longer. */
  lemma CodesInOrder(lens: seq<nat>, i: nat, j: nat)
    requires i < |lens| && j < |lens| && Successive(lens, i, j)
    ensures Codeword(lens, j) == Increment(Codeword(lens, i)) + Repeat(false, lens[j] - lens[i])
  {
    hide Count, FirstCode, MsbBits, Increment;
    var a, b := lens[i], lens[j];
    MsbIncrement(CodeOf(lens, i), a);
    MsbZeros(CodeOf(lens, i) + 1, a, b - a);
    if a == b {
      forall k | i < k < j ensures lens[k] != a {
        assert Before(lens, k, j) <==> lens[k] <= a;
      }
      CountedOnce(lens, i, j);
      assert Pow2(0) == 1;
    } else {
      LastOfLength(lens, i, j);
      FirstOfNext(lens, a, b);
    }
  }

  lemma LastOfLength(lens: seq<nat>, i: nat, j: nat)
    requires i < |lens| && j < |lens| && Successive(lens, i, j) && lens[i] < lens[j]
    ensures Count(lens, lens[i]) == Count(lens[..i], lens[i]) + 1
    ensures Count(lens[..j], lens[j]) == 0
    ensures forall k :: 0 <= k < |lens| ==> !(lens[i] < lens[k] < lens[j])
  {
    hide Count;
    forall k | i < k < |lens| ensures lens[k] != lens[i] {
      assert Before(lens, k, j) || lens[k] != lens[i];
    }
    CountedOnce(lens, i, |lens|);
    assert lens[..|lens|] == lens && lens[..0] == [];
    forall k | 0 <= k < j ensures lens[k] != lens[j] {
      assert Before(lens, i, k) || lens[k] != lens[j];
    }
    NoneCounted(lens, 0, j, lens[j]);
    NothingCounted();
    forall k | 0 <= k < |lens| ensures !(lens[i] < lens[k] < lens[j]) {
      assert lens[i] < lens[k] ==> Before(lens, i, k);
    }
  }

  /** The first code is all zeros. */
  lemma FirstIsZero(lens: seq<nat>, i: nat)
    requires i < |lens| && 0 < lens[i] && forall k :: 0 <= k < |lens| && 0 < lens[k] ==> !Before(lens, k, i)
    ensures Codeword(lens, i) == Repeat(false, lens[i])
  {
    hide Count, FirstCode, MsbBits;
    MsbZero(lens[i]);
    forall k | 0 <= k < i ensures lens[k] != lens[i] {
      assert Before(lens, k, i) || lens[k] != lens[i];
    }
    NoneCounted(lens, 0, i, lens[i]);
    assert lens[..0] == [];
    NothingCounted();
    NoneShorter(lens, lens[i]);
  }

  lemma {:induction false} NoneShorter(lens: seq<nat>, b: nat)
    requires forall k :: 0 <= k < |lens| ==> lens[k] == 0 || lens[k] >= b
    ensures FirstCode(lens, b) == 0
  {
    if b > 1 {
      NoneShorter(lens, b - 1);
      NoneCounted(lens, 0, |lens|, b - 1);
      assert lens[..|lens|] == lens && lens[..0] == [];
    }
  }

  // ---------- the fixed codes ----------

  lemma FixedCounts()
    ensures var l := FixedLiteralLengths();
      Count(l, 7) == 24 && Count(l, 8) == 152 && forall b :: b != 7 && b != 8 && b != 9 ==> Count(l, b) == 0
  {
    hide Count, Repeat;
    var a, b, c, d := Repeat(8, 144), Repeat(9, 112), Repeat(7, 24), Repeat(8, 8);
    forall x: nat ensures Count(a + b + c + d, x) == Count(a, x) + Count(b, x) + Count(c, x) + Count(d, x) {
      CountConcat(a, b, x);
      CountConcat(a + b, c, x);
      CountConcat(a + b + c, d, x);
    }
    forall x: nat ensures Count(a, x) == (if x == 8 then 144 else 0) && Count(b, x) == (if x == 9 then 112 else 0) {
      CountRepeat(8, 144, x);
      CountRepeat(9, 112, x);
    }
    forall x: nat ensures Count(c, x) == (if x == 7 then 24 else 0) && Count(d, x) == (if x == 8 then 8 else 0) {
      CountRepeat(7, 24, x);
      CountRepeat(8, 8, x);
    }
  }

  lemma FixedFirst()
    ensures var l := FixedLiteralLengths();
      FirstCode(l, 7) == 0 && FirstCode(l, 8) == 48 && FirstCode(l, 9) == 400
  {
    hide Count, FixedLiteralLengths;
    FixedCounts();
    var l := FixedLiteralLengths();
    assert FirstCode(l, 2) == 0 && FirstCode(l, 3) == 0;
    assert FirstCode(l, 4) == 0 && FirstCode(l, 5) == 0;
    assert FirstCode(l, 6) == 0 && FirstCode(l, 7) == 0;
  }

  /** Section 3.2.6: codes of 8 bits from 00110000, of 9 bits from 110010000, of 7 bits from
      0000000 and of 8 bits from 11000000. */
  lemma FixedLiteral(sym: nat)
    requires sym < 288
    ensures Codeword(FixedLiteralLengths(), sym) ==
      if sym < 144 then MsbBits(0x30 + sym, 8)
      else if sym < 256 then MsbBits(0x190 + (sym - 144), 9)
      else if sym < 280 then MsbBits(sym - 256, 7)
      else MsbBits(0xc0 + (sym - 280), 8)
  {
    hide Count, FirstCode, MsbBits;
    var l := FixedLiteralLengths();
    FixedFirst();
    FixedRank(sym);
  }

  lemma {:induction false} CountRun(lens: seq<nat>, from: nat, end: nat, x: nat)
    requires from <= end <= |lens| && forall k :: from <= k < end ==> lens[k] == x
    ensures Count(lens[..end], x) == Count(lens[..from], x) + (end - from)
    decreases end
  {
    if from < end {
      CountRun(lens, from, end - 1, x);
      assert lens[..end] == lens[..end - 1] + [lens[end - 1]];
      CountAppend(lens[..end - 1], lens[end - 1], x);
    }
  }

  lemma FixedLengths(sym: nat)
    requires sym < 288
    ensures FixedLiteralLengths()[sym] == if sym < 144 then 8 else if sym < 256 then 9 else if sym < 280 then 7 else 8
  {
  }

  lemma FixedRank(sym: nat)
    requires sym < 288
    ensures Count(FixedLiteralLengths()[..sym], FixedLiteralLengths()[sym]) ==
      if sym < 144 then sym else if sym < 256 then sym - 144 else if sym < 280 then sym - 256 else 144 + (sym - 280)
  {
    hide Count, FixedLiteralLengths;
    var l := FixedLiteralLengths();
    forall k: nat | k < 288 ensures l[k] == if k < 144 then 8 else if k < 256 then 9 else if k < 280 then 7 else 8 {
      FixedLengths(k);
    }
    NothingCounted();
    assert l[..0] == [];
    if sym < 144 {
      CountRun(l, 0, sym, 8);
    } else if sym < 256 {
      NoneCounted(l, 0, 144, 9);
      CountRun(l, 144, sym, 9);
    } else if sym < 280 {
      NoneCounted(l, 0, 256, 7);
      CountRun(l, 256, sym, 7);
    } else {
      CountRun(l, 0, 144, 8);
      NoneCounted(l, 144, 280, 8);
      CountRun(l, 280, sym, 8);
    }
  }

  /** The fixed distance codes are the numbers of five bits. */
  lemma FixedDistance(c: nat)
    requires c < 30
    ensures Codeword(FixedDistanceLengths(), c) == MsbBits(c, 5)
  {
    FixedDistanceCode(c);
  }
}
