/** Symbol frequencies of a block, and what its symbols cost. */
module TokenCosts {
  import opened Bits
  import opened Canonical
  import opened Inflate
  import opened Tokens
  import opened FirstPass
  import opened CodeLengths

  /** How often the tokens use literal/length symbol s. */
  function LitCount(ts: seq<Token>, s: nat): nat
  {
    if ts == [] then 0 else LitCount(ts[..|ts| - 1], s) + (if Symbol(ts[|ts| - 1]) == s then 1 else 0)
  }

  predicate UsesDist(t: Token, s: nat)
  {
    t.Match? && DistCode(t.distance) == s
  }

  /** How often they use distance symbol s. */
  function DistCount(ts: seq<Token>, s: nat): nat
  {
    if ts == [] then 0 else DistCount(ts[..|ts| - 1], s) + (if UsesDist(ts[|ts| - 1], s) then 1 else 0)
  }

  lemma CountAppend(ts: seq<Token>, t: Token, s: nat)
    ensures LitCount(ts + [t], s) == LitCount(ts, s) + (if Symbol(t) == s then 1 else 0)
    ensures DistCount(ts + [t], s) == DistCount(ts, s) + (if UsesDist(t, s) then 1 else 0)
  {
    assert (ts + [t])[..|ts|] == ts;
  }

  lemma {:induction false} CountBound(ts: seq<Token>, s: nat)
    ensures LitCount(ts, s) <= |ts| && DistCount(ts, s) <= |ts|
  {
    if ts != [] {
      CountBound(ts[..|ts| - 1], s);
    }
  }

  lemma {:induction false} Counted(ts: seq<Token>, i: nat)
    requires i < |ts|
    ensures LitCount(ts, Symbol(ts[i])) > 0
    ensures ts[i].Match? ==> DistCount(ts, DistCode(ts[i].distance)) > 0
  {
    if i < |ts| - 1 {
      Counted(ts[..|ts| - 1], i);
    }
  }

  /** The frequencies of a block: its tokens and one end-of-block symbol. */
  function LitFreqs(ts: seq<Token>, n: nat): (w: seq<nat>)
    ensures |w| == n
    ensures forall s :: 0 <= s < n ==> w[s] == LitCount(ts, s) + (if s == END_BLOCK then 1 else 0)
  {
    seq(n, s requires 0 <= s < n => LitCount(ts, s) + (if s == END_BLOCK then 1 else 0))
  }

  function DistFreqs(ts: seq<Token>, n: nat): (w: seq<nat>)
    ensures |w| == n && forall s :: 0 <= s < n ==> w[s] == DistCount(ts, s)
  {
    seq(n, s requires 0 <= s < n => DistCount(ts, s))
  }

  lemma {:induction false} CostBump(w: seq<nat>, lens: seq<nat>, desc: TreeDesc, n: nat, s: nat)
    requires n <= |w| && n <= |lens| && s < |w|
    ensures SymbolCost(w[s := w[s] + 1], lens, desc, n)
         == SymbolCost(w, lens, desc, n) + (if s < n then lens[s] + desc.Extra(s) else 0)
  {
    if n != 0 {
      CostBump(w, lens, desc, n - 1, s);
      MulSum(w[n - 1], 1, lens[n - 1] + desc.Extra(n - 1));
    }
  }

  lemma {:induction false} CostNothing(w: seq<nat>, lens: seq<nat>, desc: TreeDesc, n: nat)
    requires n <= |w| && n <= |lens| && forall s :: 0 <= s < n ==> w[s] == 0
    ensures SymbolCost(w, lens, desc, n) == 0
  {
    if n != 0 {
      CostNothing(w, lens, desc, n - 1);
    }
  }

  /** The tree descriptions know the extra bits of section 3.2.5. */
  ghost predicate ExtrasMatch(ldesc: TreeDesc, ddesc: TreeDesc)
  {
    && (forall s :: 0 <= s <= 256 ==> ldesc.Extra(s) == 0)
    && (forall c :: 0 <= c <= 28 ==> ldesc.Extra(257 + c) == LENGTH_EXTRA[c])
    && (forall c :: 0 <= c <= 29 ==> ddesc.Extra(c) == DIST_EXTRA[c])
  }

  lemma TokenSize(llens: seq<nat>, dlens: seq<nat>, ldesc: TreeDesc, ddesc: TreeDesc, t: Token)
    requires Coded(llens, dlens, t) && ExtrasMatch(ldesc, ddesc)
    ensures |EncodeToken(llens, dlens, t)| == llens[Symbol(t)] + ldesc.Extra(Symbol(t))
              + (if t.Match? then dlens[DistCode(t.distance)] + ddesc.Extra(DistCode(t.distance)) else 0)
  {
    hide LengthCode, DistCode, Codeword, LsbBits;
  }

  /** The bits of the tokens and the end-of-block code are what the frequencies
      and lengths say. */
  lemma {:induction false} TokensCost(llens: seq<nat>, dlens: seq<nat>, ldesc: TreeDesc, ddesc: TreeDesc, ts: seq<Token>)
    requires AllCoded(llens, dlens, ts) && ExtrasMatch(ldesc, ddesc) && END_BLOCK < |llens|
    ensures |EncodeTokens(llens, dlens, ts)| + llens[END_BLOCK]
         == SymbolCost(LitFreqs(ts, |llens|), llens, ldesc, |llens|)
            + SymbolCost(DistFreqs(ts, |dlens|), dlens, ddesc, |dlens|)
  {
    hide SymbolCost, EncodeToken, LengthCode, DistCode;
    var nl, nd := |llens|, |dlens|;
    if ts == [] {
      var zero := seq(nl, _ => 0);
      CostNothing(zero, llens, ldesc, nl);
      CostNothing(DistFreqs(ts, nd), dlens, ddesc, nd);
      CostBump(zero, llens, ldesc, nl, END_BLOCK);
      assert LitFreqs(ts, nl) == zero[END_BLOCK := zero[END_BLOCK] + 1];
    } else {
      var front, t := ts[..|ts| - 1], ts[|ts| - 1];
      TokensCost(llens, dlens, ldesc, ddesc, front);
      TokenSize(llens, dlens, ldesc, ddesc, t);
      var wl, wd := LitFreqs(front, nl), DistFreqs(front, nd);
      CostBump(wl, llens, ldesc, nl, Symbol(t));
      assert LitFreqs(ts, nl) == wl[Symbol(t) := wl[Symbol(t)] + 1];
      if t.Match? {
        CostBump(wd, dlens, ddesc, nd, DistCode(t.distance));
        assert DistFreqs(ts, nd) == wd[DistCode(t.distance) := wd[DistCode(t.distance)] + 1];
      } else {
        assert DistFreqs(ts, nd) == wd;
      }
    }
  }

  /** The static cost of a symbol table is its cost with the static lengths; symbols
      that do not occur cost nothing. */
  lemma {:induction false} StaticIsCost(w: seq<nat>, lens: seq<nat>, desc: TreeDesc, n: nat, n': nat)
    requires n <= n' <= |w| && n' <= |lens| && n' <= |desc.staticLens|
    requires forall s :: 0 <= s < n' ==> lens[s] == desc.staticLens[s]
    requires forall s :: n <= s < n' ==> w[s] == 0
    ensures StaticSymbolCost(w, desc, n) == SymbolCost(w, lens, desc, n')
  {
    if n < n' {
      StaticIsCost(w, lens, desc, n, n' - 1);
      assert w[n' - 1] * (lens[n' - 1] + desc.Extra(n' - 1)) == 0;
    } else if n != 0 {
      StaticIsCost(w, lens, desc, n - 1, n - 1);
    }
  }
}
