/** name_hashtable of dpkg.c: each text that is looked up gets a slot of its own, so that
    texts can be compared by their slots. */
module Interning {
  import opened Options
  import opened DpkgVersions
  import opened DoubleHashing

  type Names = seq<Option<Text>>

  /** What is always true of the table. mix stands for the sum that make_hash forms over
      the characters. */
  ghost predicate Consistent(t: Names, mix: Text -> nat, p: nat)
  {
    && 2 <= p <= |t| && (forall k :: p <= k < |t| ==> t[k].None?)
    && (forall k :: 0 <= k < p && t[k].Some? ==> Reached(t, mix(t[k].value), p, k))
    && (forall k, l :: 0 <= k < p && 0 <= l < p && t[k].Some? && t[k] == t[l] ==> k == l)
  }

  /** A call of search_name_hashtable with key turns t to u and returns r. */
  ghost predicate Interned(t: Names, key: Text, u: Names, r: nat)
  {
    && r < |t| && u == t[r := Some(key)]
    && (t[r].None? || t[r].value == key)
  }

  /** The texts in the first n slots. */
  ghost function Keys(t: Names, n: nat): set<Text>
    requires n <= |t|
  {
    if n == 0 then {}
    else if t[n - 1].Some? then Keys(t, n - 1) + {t[n - 1].value}
    else Keys(t, n - 1)
  }

  lemma {:induction false} KeyAt(t: Names, n: nat, key: Text) returns (k: nat)
    requires n <= |t| && key in Keys(t, n)
    ensures k < n && t[k] == Some(key)
  {
    if t[n - 1] == Some(key) {
      k := n - 1;
    } else {
      k := KeyAt(t, n - 1, key);
    }
  }

  lemma {:induction false} AtKey(t: Names, n: nat, k: nat)
    requires k < n <= |t| && t[k].Some?
    ensures t[k].value in Keys(t, n)
  {
    if k < n - 1 {
      AtKey(t, n - 1, k);
    }
  }

  lemma {:induction false} KeysAfter(t: Names, key: Text, u: Names, r: nat, n: nat)
    requires Interned(t, key, u, r) && n <= |t|
    ensures Keys(u, n) <= Keys(t, n) + {key}
  {
    if n != 0 {
      KeysAfter(t, key, u, r, n - 1);
    }
  }

  lemma KeyOnce(t: Names, mix: Text -> nat, p: nat, n: nat)
    requires Consistent(t, mix, p) && n < p && t[n].Some?
    ensures t[n].value !in Keys(t, n)
  {
    hide Keys;
    if t[n].value in Keys(t, n) {
      var k := KeyAt(t, n, t[n].value);
    }
  }

  lemma {:induction false} FullSize(t: Names, mix: Text -> nat, p: nat, n: nat)
    requires Consistent(t, mix, p) && n <= p && forall k :: 0 <= k < n ==> t[k].Some?
    ensures |Keys(t, n)| == n
  {
    hide Consistent;
    if n != 0 {
      FullSize(t, mix, p, n - 1);
      KeyOnce(t, mix, p, n - 1);
    }
  }

  /** There is a slot for key: its own or a free one. */
  lemma RoomFor(t: Names, mix: Text -> nat, p: nat, key: Text) returns (k: nat)
    requires Consistent(t, mix, p) && |Keys(t, p) + {key}| <= p
    ensures k < p && (t[k].None? || t[k].value == key)
  {
    if key in Keys(t, p) {
      k := KeyAt(t, p, key);
    } else if j: nat :| j < p && t[j].None? {
      k := j;
    } else {
      FullSize(t, mix, p, p);
      assert false;
    }
  }

  /** The key is not there, as the search came to a free slot. */
  lemma NotThere(t: Names, mix: Text -> nat, p: nat, key: Text, n: nat)
    requires Consistent(t, mix, p) && t[Slot(mix(key), p, n)].None?
    requires forall i: nat :: i < n ==> t[Slot(mix(key), p, i)] != Some(key)
    ensures forall k :: 0 <= k < p ==> t[k] != Some(key)
  {
    forall k: nat | k < p && t[k] == Some(key) ensures false {
      var i := PassedBy(t, mix(key), p, k, n);
    }
  }

  /** A new key at the end of its search. */
  lemma AddKey(t: Names, mix: Text -> nat, p: nat, key: Text, n: nat)
    requires Consistent(t, mix, p) && n < p && t[Slot(mix(key), p, n)].None?
    requires Taken(t, mix(key), p, n) && forall k :: 0 <= k < p ==> t[k] != Some(key)
    ensures Consistent(t[Slot(mix(key), p, n) := Some(key)], mix, p)
  {
    var f := Slot(mix(key), p, n);
    var u := t[f := Some(key)];
    assert Taken(u, mix(key), p, n);
    forall k: nat | k < p && u[k].Some? ensures Reached(u, mix(u[k].value), p, k) {
      if k != f {
        ReachedStill(t, mix(t[k].value), p, k, f, key);
      }
    }
  }

  class NameTable {
    const p: nat
    const mix: Text -> nat
    const table: array<Option<Text>>

    ghost predicate Valid()
      reads table
    {
      Prime(p) && table.Length == p + 1 && Consistent(table[..], mix, p)
    }

    constructor (mix: Text -> nat)
      ensures Valid() && p == NAME_HASH_PRIME && this.mix == mix && fresh(table)
      ensures forall k :: 0 <= k <= p ==> table[k].None?
    {
      HashPrimes();
      this.p := NAME_HASH_PRIME;
      this.mix := mix;
      table := new Option<Text>[NAME_HASH_PRIME + 1](_ => None);
    }

    /** The table has slots enough for these texts besides what is in it. */
    ghost predicate Room(words: set<Text>)
      requires p < table.Length
      reads table
    {
      |Keys(table[..], p) + words| <= p
    }

    /** The slot of key, which is put there if it is new. The search ends as long as the
        table has not more than p different texts to hold. */
    method SearchNameHashtable(key: Text, ghost words: set<Text>) returns (probe: nat)
      requires Valid() && Room(words) && key in words
      modifies table
      ensures Valid() && Room(words) && probe < p
      ensures Interned(old(table[..]), key, table[..], probe)
    {
      hide Consistent, Keys, Next, Start;
      SubsetSize(Keys(table[..], p) + {key}, Keys(table[..], p) + words);
      var h := mix(key);
      probe := Start(h, p);
      FirstSlot(h, p);
      ghost var t := table[..];
      ghost var goal := RoomFor(t, mix, p, key);
      ghost var m := SearchReaches(h, p, goal);
      ghost var n: nat := 0;
      while table[probe].Some?
        invariant table[..] == t && n <= m && probe == Slot(h, p, n)
        invariant Taken(t, h, p, n) && forall i: nat :: i < n ==> t[Slot(h, p, i)] != Some(key)
        decreases m - n
      {
        assert table[probe] == t[probe];
        if table[probe].value == key {
          assert t[probe := Some(key)] == t;
          return;
        }
        NextSlot(h, p, n);
        probe := Next(probe, h, p);
        n := n + 1;
      }
      assert table[probe] == t[probe];
      NotThere(t, mix, p, key, n);
      AddKey(t, mix, p, key, n);
      table[probe] := Some(key);
      assert table[..] == t[probe := Some(key)];
      KeysAfter(t, key, table[..], probe, p);
      SubsetSize(Keys(table[..], p) + words, Keys(t, p) + words);
    }
  }

  /** If the table is full of other texts, the search for key goes on for ever. */
  lemma NeverFound(t: Names, mix: Text -> nat, p: nat, key: Text, n: nat)
    requires Consistent(t, mix, p) && |Keys(t, p)| == p && key !in Keys(t, p)
    ensures t[Slot(mix(key), p, n)].Some? && t[Slot(mix(key), p, n)] != Some(key)
  {
    var k := Slot(mix(key), p, n);
    if t[k].None? {
      FreeSize(t, p, k);
    } else {
      AtKey(t, p, k);
    }
  }

  lemma {:induction false} KeysSize(t: Names, n: nat)
    requires n <= |t|
    ensures |Keys(t, n)| <= n
  {
    if n != 0 {
      KeysSize(t, n - 1);
    }
  }

  lemma {:induction false} FreeSize(t: Names, n: nat, k: nat)
    requires k < n <= |t| && t[k].None?
    ensures |Keys(t, n)| < n
  {
    if k == n - 1 {
      KeysSize(t, n - 1);
    } else {
      FreeSize(t, n - 1, k);
    }
  }

  /** Nothing in t is lost or moved in u. */
  ghost predicate Extends(t: Names, u: Names)
  {
    |t| == |u| && forall k :: 0 <= k < |t| && t[k].Some? ==> u[k] == t[k]
  }

  /** Slots can be compared instead of texts. */
  lemma SameSlot(t: Names, mix: Text -> nat, p: nat, a: nat, x: Text, b: nat, y: Text)
    requires Consistent(t, mix, p) && a < |t| && b < |t| && t[a] == Some(x) && t[b] == Some(y)
    ensures a == b <==> x == y
  {
  }

  // ---------- any sequence of calls ----------

  /** A call, with the table before and after it. */
  datatype Call = Call(before: Names, key: Text, after: Names, index: nat)

  /** Calls one after the other. */
  ghost predicate Run(calls: seq<Call>, mix: Text -> nat, p: nat)
  {
    forall i :: 0 <= i < |calls| ==>
      && Consistent(calls[i].before, mix, p) && Consistent(calls[i].after, mix, p) && calls[i].index < p
      && Interned(calls[i].before, calls[i].key, calls[i].after, calls[i].index)
      && (i > 0 ==> calls[i].before == calls[i - 1].after)
  }

  /** A text stays where it is. */
  lemma {:induction false} Stays(calls: seq<Call>, mix: Text -> nat, p: nat, i: nat, j: nat)
    requires Run(calls, mix, p) && i <= j < |calls|
    ensures |calls[j].after| == |calls[i].after| && calls[i].index < |calls[i].after|
    ensures calls[j].after[calls[i].index] == Some(calls[i].key)
  {
    if i < j {
      Stays(calls, mix, p, i, j - 1);
    }
  }

  /** Two indices that were returned are equal exactly if the texts were. */
  lemma SameIndexSameText(calls: seq<Call>, mix: Text -> nat, p: nat, i: nat, j: nat)
    requires Run(calls, mix, p) && i <= j < |calls|
    ensures calls[i].index == calls[j].index <==> calls[i].key == calls[j].key
  {
    Stays(calls, mix, p, i, j);
    Stays(calls, mix, p, j, j);
    var t := calls[j].after;
    assert Consistent(t, mix, p);
  }
}
