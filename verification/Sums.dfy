/** Sums of table entries over lists of indices. */
module Sums {
  /** Every index of the list lies below n. */
  ghost predicate Below(ids: seq<nat>, n: nat)
  {
    forall i :: 0 <= i < |ids| ==> ids[i] < n
  }

  function SumOver(ids: seq<nat>, v: seq<int>): int
    requires Below(ids, |v|)
  {
    if ids == [] then 0 else SumOver(ids[..|ids| - 1], v) + v[ids[|ids| - 1]]
  }

  lemma SumAppend(ids: seq<nat>, x: nat, v: seq<int>)
    requires Below(ids, |v|) && x < |v|
    ensures Below(ids + [x], |v|) && SumOver(ids + [x], v) == SumOver(ids, v) + v[x]
  {
    assert (ids + [x])[..|ids|] == ids;
  }

  lemma {:induction false} SumConcat(a: seq<nat>, b: seq<nat>, v: seq<int>)
    requires Below(a, |v|) && Below(b, |v|)
    ensures Below(a + b, |v|) && SumOver(a + b, v) == SumOver(a, v) + SumOver(b, v)
  {
    if b == [] {
      assert a + b == a;
    } else {
      var n := |b| - 1;
      SumConcat(a, b[..n], v);
      assert a + b == (a + b[..n]) + [b[n]];
      SumAppend(a + b[..n], b[n], v);
    }
  }

  lemma {:induction false} SumRemove(ids: seq<nat>, i: nat, v: seq<int>)
    requires Below(ids, |v|) && i < |ids|
    ensures Below(ids[..i] + ids[i + 1..], |v|)
    ensures SumOver(ids, v) == SumOver(ids[..i] + ids[i + 1..], v) + v[ids[i]]
  {
    SumAppend(ids[..i], ids[i], v);
    SumConcat(ids[..i] + [ids[i]], ids[i + 1..], v);
    SumConcat(ids[..i], ids[i + 1..], v);
    assert ids == (ids[..i] + [ids[i]]) + ids[i + 1..];
  }

  lemma BagRemove(s: seq<nat>, i: nat)
    requires i < |s|
    ensures multiset(s[..i] + s[i + 1..]) == multiset(s) - multiset{s[i]}
  {
    assert s == s[..i] + [s[i]] + s[i + 1..];
  }

  /** The order of the indices does not matter. */
  lemma {:induction false} SumPermutation(a: seq<nat>, b: seq<nat>, v: seq<int>)
    requires multiset(a) == multiset(b) && Below(a, |v|) && Below(b, |v|)
    ensures SumOver(a, v) == SumOver(b, v)
    decreases |a|
  {
    if a == [] {
      assert |b| == |multiset(b)| == 0;
    } else {
      var n := |a| - 1;
      var x := a[n];
      assert x in multiset(b);
      var i: nat :| i < |b| && b[i] == x;
      var b' := b[..i] + b[i + 1..];
      SumRemove(b, i, v);
      BagRemove(b, i);
      BagRemove(a, n);
      assert a[..n] + a[n + 1..] == a[..n];
      SumPermutation(a[..n], b', v);
    }
  }

  lemma {:induction false} SumSame(ids: seq<nat>, v: seq<int>, w: seq<int>)
    requires Below(ids, |v|) && Below(ids, |w|)
    requires forall i :: 0 <= i < |ids| ==> v[ids[i]] == w[ids[i]]
    ensures SumOver(ids, v) == SumOver(ids, w)
  {
    if ids != [] {
      SumSame(ids[..|ids| - 1], v, w);
    }
  }

  lemma {:induction false} SumPlus(ids: seq<nat>, u: seq<int>, v: seq<int>, w: seq<int>)
    requires Below(ids, |u|) && Below(ids, |v|) && Below(ids, |w|)
    requires forall i :: 0 <= i < |ids| ==> u[ids[i]] == v[ids[i]] + w[ids[i]]
    ensures SumOver(ids, u) == SumOver(ids, v) + SumOver(ids, w)
  {
    if ids != [] {
      SumPlus(ids[..|ids| - 1], u, v, w);
    }
  }

  lemma {:induction false} SumZero(ids: seq<nat>, v: seq<int>)
    requires Below(ids, |v|) && forall i :: 0 <= i < |ids| ==> v[ids[i]] == 0
    ensures SumOver(ids, v) == 0
  {
    if ids != [] {
      SumZero(ids[..|ids| - 1], v);
    }
  }

  lemma {:induction false} SumNonNegative(ids: seq<nat>, v: seq<int>)
    requires Below(ids, |v|) && forall i :: 0 <= i < |ids| ==> v[ids[i]] >= 0
    ensures SumOver(ids, v) >= 0
  {
    if ids != [] {
      SumNonNegative(ids[..|ids| - 1], v);
    }
  }

  /** from, from + 1, .., to - 1 */
  function Range(from: nat, to: nat): (r: seq<nat>)
    requires from <= to
    ensures |r| == to - from && forall i :: 0 <= i < |r| ==> r[i] == from + i
  {
    seq(to - from, i requires 0 <= i < to - from => from + i)
  }

  lemma RangeNext(from: nat, to: nat)
    requires from <= to
    ensures Range(from, to + 1) == Range(from, to) + [to]
  {
  }

  /** The symbols below n whose frequency is not zero, in order. */
  function Active(freq: seq<nat>, n: nat): (r: seq<nat>)
    requires n <= |freq|
    ensures |r| <= n && Below(r, n)
  {
    if n == 0 then []
    else if freq[n - 1] > 0 then Active(freq, n - 1) + [n - 1]
    else Active(freq, n - 1)
  }

  lemma ActiveStep(w: seq<nat>, n: nat)
    requires n < |w|
    ensures Active(w, n + 1) == if w[n] > 0 then Active(w, n) + [n] else Active(w, n)
  {
  }

  lemma ActiveNone(w: seq<nat>)
    ensures Active(w, 0) == []
  {
  }

  lemma {:induction false} ActiveIncreases(freq: seq<nat>, n: nat)
    requires n <= |freq|
    ensures forall i, j :: 0 <= i < j < |Active(freq, n)| ==> Active(freq, n)[i] < Active(freq, n)[j]
  {
    if n != 0 {
      ActiveIncreases(freq, n - 1);
    }
  }

  lemma {:induction false} ActiveMembers(freq: seq<nat>, n: nat, x: nat)
    requires n <= |freq|
    ensures x in Active(freq, n) <==> x < n && freq[x] > 0
  {
    if n != 0 {
      ActiveMembers(freq, n - 1, x);
    }
  }

  lemma ActivePositive(freq: seq<nat>, n: nat)
    requires n <= |freq|
    ensures forall i :: 0 <= i < |Active(freq, n)| ==> freq[Active(freq, n)[i]] > 0
  {
    hide Active;
    forall i | 0 <= i < |Active(freq, n)| ensures freq[Active(freq, n)[i]] > 0 {
      ActiveMembers(freq, n, Active(freq, n)[i]);
    }
  }

  /** Summing over the active symbols is summing over all of them, where the
      others contribute nothing. */
  lemma {:induction false} SumActive(freq: seq<nat>, n: nat, v: seq<int>)
    requires n <= |freq| && n <= |v|
    requires forall x :: 0 <= x < n && freq[x] == 0 ==> v[x] == 0
    ensures SumOver(Active(freq, n), v) == SumOver(Range(0, n), v)
  {
    if n != 0 {
      SumActive(freq, n - 1, v);
      RangeNext(0, n - 1);
      SumAppend(Range(0, n - 1), n - 1, v);
      if freq[n - 1] > 0 {
        SumAppend(Active(freq, n - 1), n - 1, v);
      }
    }
  }

  lemma BagDistinct(s: seq<nat>, i: nat, j: nat)
    requires i < j < |s| && s[i] == s[j]
    ensures multiset(s)[s[i]] >= 2
  {
    assert s == s[..i] + [s[i]] + s[i + 1..j] + [s[j]] + s[j + 1..];
  }
}
