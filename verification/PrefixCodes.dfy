/** Canonical codes decode uniquely: what gen_codes relies on. */
module PrefixCodes {
  import opened Options
  import opened Bits
  import opened Canonical
  import opened Inflate

  lemma {:induction false} CountAppend(lens: seq<nat>, l: nat, b: nat)
    ensures Count(lens + [l], b) == Count(lens, b) + (if l == b then 1 else 0)
  {
    assert (lens + [l])[..|lens|] == lens;
  }

  lemma {:induction false} CountConcat(a: seq<nat>, c: seq<nat>, b: nat)
    ensures Count(a + c, b) == Count(a, b) + Count(c, b)
  {
    if c == [] {
      assert a + c == a;
    } else {
      CountConcat(a, c[..|c| - 1], b);
      assert (a + c)[..|a + c| - 1] == a + c[..|c| - 1];
    }
  }

  /** A symbol's rank within its length stays below the count of that length. */
  lemma {:induction false} RankBelowCount(lens: seq<nat>, i: nat)
    requires i < |lens|
    ensures Count(lens[..i], lens[i]) < Count(lens, lens[i])
  {
    assert lens == lens[..i] + [lens[i]] + lens[i + 1..];
    CountConcat(lens[..i] + [lens[i]], lens[i + 1..], lens[i]);
    CountAppend(lens[..i], lens[i], lens[i]);
  }

  lemma {:induction false} RankIncreases(lens: seq<nat>, i: nat, j: nat)
    requires i < j < |lens| && lens[i] == lens[j]
    ensures Count(lens[..i], lens[i]) < Count(lens[..j], lens[i])
  {
    RankBelowCount(lens[..j], i);
    assert lens[..j][..i] == lens[..i];
  }

  /** Kraft sum of the lengths 1..b, grouped by length. */
  function CountedKraft(lens: seq<nat>, b: nat, m: nat): nat
    requires b <= m
  {
    if b == 0 then 0 else CountedKraft(lens, b - 1, m) + Count(lens, b) * Pow2(m - b)
  }

  lemma {:induction false} CountedKraftMonotone(lens: seq<nat>, a: nat, b: nat, m: nat)
    requires a <= b <= m
    ensures CountedKraft(lens, a, m) <= CountedKraft(lens, b, m)
    decreases b
  {
    if a < b {
      CountedKraftMonotone(lens, a, b - 1, m);
      assert Count(lens, b) * Pow2(m - b) >= 0;
    }
  }

  /** The codes up to length b, scaled to m bits, fill exactly their Kraft sum. */
  lemma {:induction false} CodesFillKraft(lens: seq<nat>, b: nat, m: nat)
    requires 1 <= b <= m
    ensures (FirstCode(lens, b) + Count(lens, b)) * Pow2(m - b) == CountedKraft(lens, b, m)
  {
    if b > 1 {
      CodesFillKraft(lens, b - 1, m);
      var c, n, d := FirstCode(lens, b - 1) + Count(lens, b - 1), Count(lens, b), Pow2(m - b);
      assert Pow2(m - (b - 1)) == 2 * d;
      MulDouble(c, n, d);
    } else {
      assert CountedKraft(lens, 0, m) == 0;
    }
  }

  lemma {:induction false} CountedKraftAppend(lens: seq<nat>, l: nat, b: nat, m: nat)
    requires b <= m
    ensures CountedKraft(lens + [l], b, m)
         == CountedKraft(lens, b, m) + (if 1 <= l <= b then Pow2(m - l) else 0)
  {
    if b != 0 {
      CountedKraftAppend(lens, l, b - 1, m);
      CountAppend(lens, l, b);
      MulSum(Count(lens, b), 1, Pow2(m - b));
    }
  }

  /** Grouping by length does not change the Kraft sum. */
  lemma {:induction false} KraftIsCounted(lens: seq<nat>, m: nat)
    requires forall i :: 0 <= i < |lens| ==> lens[i] <= m
    ensures Kraft(lens, m) == CountedKraft(lens, m, m)
  {
    if lens == [] {
      CountedKraftEmpty(m, m);
    } else {
      var front, l := lens[..|lens| - 1], lens[|lens| - 1];
      KraftIsCounted(front, m);
      CountedKraftAppend(front, l, m, m);
      assert lens == front + [l];
    }
  }

  lemma {:induction false} CountedKraftEmpty(b: nat, m: nat)
    requires b <= m
    ensures CountedKraft([], b, m) == 0
  {
    if b != 0 {
      CountedKraftEmpty(b - 1, m);
    }
  }

  lemma MulDouble(c: nat, n: nat, d: nat)
    ensures c * (2 * d) + n * d == (2 * c + n) * d
  {
  }

  lemma MulLeCancel(a: nat, b: nat, d: nat)
    requires d >= 1 && a * d <= b * d
    ensures a <= b
  {
  }

  lemma QuotientAbove(c: nat, k: nat, q: nat, d: nat, v: nat)
    requires c < k && k * d <= v < q * d + d
    ensures c < q
  {
    assert q + 1 <= k ==> (q + 1) * d <= k * d;
  }

  /** No code overruns its length. */
  lemma {:induction false} CodeFits(lens: seq<nat>, m: nat, b: nat)
    requires IsCode(lens, m) && 1 <= b <= m
    ensures FirstCode(lens, b) + Count(lens, b) <= Pow2(b)
  {
    CodesFillKraft(lens, b, m);
    CountedKraftMonotone(lens, b, m, m);
    KraftIsCounted(lens, m);
    Pow2Add(b, m - b);
    MulLeCancel(FirstCode(lens, b) + Count(lens, b), Pow2(b), Pow2(m - b));
  }

  lemma {:induction false} SymbolCodeFits(lens: seq<nat>, m: nat, i: nat)
    requires IsCode(lens, m) && i < |lens| && lens[i] > 0
    ensures CodeOf(lens, i) < Pow2(lens[i])
  {
    CodeFits(lens, m, lens[i]);
    RankBelowCount(lens, i);
  }

  /** All codes of length b, extended to a longer length, come before the first
      code of that length. */
  lemma {:induction false} LongerCodesFollow(lens: seq<nat>, a: nat, b: nat)
    requires 1 <= a < b
    ensures (FirstCode(lens, a) + Count(lens, a)) * Pow2(b - a) <= FirstCode(lens, b)
    decreases b
  {
    if b == a + 1 {
      assert Pow2(1) == 2;
    } else {
      LongerCodesFollow(lens, a, b - 1);
      MulPow2(FirstCode(lens, a) + Count(lens, a), b - a);
    }
  }

  /** Codes of one length differ. */
  lemma {:induction false} SameLengthDiffers(lens: seq<nat>, m: nat, i: nat, j: nat)
    requires IsCode(lens, m) && i < |lens| && j < |lens| && i != j
    requires 0 < lens[i] == lens[j]
    ensures Codeword(lens, j) != Codeword(lens, i)
  {
    SymbolCodeFits(lens, m, i);
    SymbolCodeFits(lens, m, j);
    if i < j {
      RankIncreases(lens, i, j);
    } else {
      RankIncreases(lens, j, i);
    }
    if Codeword(lens, j) == Codeword(lens, i) {
      MsbBitsInjective(CodeOf(lens, i), CodeOf(lens, j), lens[i]);
    }
  }

  /** A longer code does not start with a shorter one. */
  lemma {:induction false} LongerDiffers(lens: seq<nat>, m: nat, i: nat, j: nat)
    requires IsCode(lens, m) && i < |lens| && j < |lens|
    requires 0 < lens[i] < lens[j]
    ensures Codeword(lens, j)[..lens[i]] != Codeword(lens, i)
  {
    var a, b := lens[i], lens[j];
    var ci, cj := CodeOf(lens, i), CodeOf(lens, j);
    SymbolCodeFits(lens, m, i);
    SymbolCodeFits(lens, m, j);
    MsbBitsPrefix(cj, a, b);
    RankBelowCount(lens, i);
    LongerCodesFollow(lens, a, b);
    ShrParts(cj, b - a);
    ShrBound(cj, b - a, a);
    var q := Shr(cj, b - a);
    QuotientAbove(ci, FirstCode(lens, a) + Count(lens, a), q, Pow2(b - a), cj);
    if MsbBits(q, a) == MsbBits(ci, a) {
      MsbBitsInjective(q, ci, a);
    }
  }

  /** No code is a prefix of another. */
  lemma {:induction false} PrefixFree(lens: seq<nat>, m: nat, i: nat, j: nat)
    requires IsCode(lens, m) && i < |lens| && j < |lens| && i != j
    requires 0 < lens[i] <= lens[j]
    ensures Codeword(lens, j)[..lens[i]] != Codeword(lens, i)
  {
    if lens[i] == lens[j] {
      assert Codeword(lens, j)[..lens[i]] == Codeword(lens, j);
      SameLengthDiffers(lens, m, i, j);
    } else {
      LongerDiffers(lens, m, i, j);
    }
  }

  lemma {:induction false} FindSymbolFinds(lens: seq<nat>, m: nat, s: seq<bool>, p: nat, sym: nat, k: nat)
    requires IsCode(lens, m) && k <= sym < |lens| && lens[sym] > 0
    requires At(s, p, Codeword(lens, sym))
    ensures FindSymbol(lens, s, p, k) == Some(sym)
    decreases sym - k
  {
    if k < sym {
      if lens[k] > 0 && p + lens[k] <= |s| && s[p..p + lens[k]] == Codeword(lens, k) {
        if lens[k] <= lens[sym] {
          assert s[p..p + lens[sym]][..lens[k]] == s[p..p + lens[k]];
          PrefixFree(lens, m, k, sym);
        } else {
          assert s[p..p + lens[k]][..lens[sym]] == s[p..p + lens[sym]];
          PrefixFree(lens, m, sym, k);
        }
      }
      FindSymbolFinds(lens, m, s, p, sym, k + 1);
    }
  }

  /** Where the code of a symbol stands in a stream, the decoder reads that symbol. */
  lemma {:induction false} ReadsSymbol(lens: seq<nat>, m: nat, s: seq<bool>, p: nat, sym: nat)
    requires IsCode(lens, m) && sym < |lens| && lens[sym] > 0
    requires At(s, p, Codeword(lens, sym))
    ensures ReadSymbol(lens, s, p) == Next(sym, p + lens[sym])
  {
    FindSymbolFinds(lens, m, s, p, sym, 0);
  }

  /** The decoder reads back the number after a symbol. */
  lemma ReadsNumber(s: seq<bool>, p: nat, v: nat, n: nat)
    requires v < Pow2(n) && At(s, p, LsbBits(v, n))
    ensures ReadBits(s, p, n) == Next(v, p + n)
  {
    ValueOfLsbBits(v, n);
  }
}
