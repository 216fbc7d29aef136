/** Open addressing with double hashing in a table of prime size, as the three hash
    tables of dpkg.c use it. */
module DoubleHashing {
  import opened Options
  import Bits

  predicate Divides(d: nat, n: nat)
    requires d > 0
  {
    n % d == 0
  }

  ghost predicate Prime(p: nat)
  {
    p >= 2 && forall d :: 2 <= d < p ==> !Divides(d, p)
  }

  lemma Multiple(q: nat, p: nat)
    requires p > 0
    ensures Divides(p, q * p)
  {
    Bits.ModUnique(q * p, p, q, 0);
  }

  lemma Distribute(a: int, b: int, c: int)
    ensures a * (b + c) == a * b + a * c && (b + c) * a == b * a + c * a
  {
  }

  lemma MulAssoc(a: int, b: int, c: int)
    ensures a * (b * c) == (a * b) * c == (a * c) * b
  {
  }

  /** A prime that divides a product, but not the one factor, divides the other. */
  lemma {:induction false} EuclidsLemma(p: nat, a: nat, b: nat)
    requires Prime(p) && 1 <= b < p && Divides(p, a * b)
    ensures Divides(p, a)
    decreases b
  {
    if b == 1 {
      assert a * 1 == a;
    } else {
      assert !Divides(b, p);
      var q, r := p / b, p % b;
      Bits.DivModParts(p, b);
      // a * r is a multiple of p: it is a * p less a multiple of a * b
      var k := (a * b) / p;
      Bits.DivModParts(a * b, p);
      Distribute(a, q * b, r);
      MulAssoc(a, q, b);
      MulAssoc(q, k, p);
      assert a * r == a * p - q * (a * b) == a * p - (q * k) * p;
      Distribute(p, a, -(q * k));
      assert a * r == (a - q * k) * p;
      NotNegative(a - q * k, p);
      assert a * r >= 0;
      Multiple(a - q * k, p);
      EuclidsLemma(p, a, r);
    }
  }

  lemma NotNegative(x: int, p: nat)
    requires p > 0
    ensures x < 0 ==> x * p < 0
  {
  }

  /** The nth address looked at. */
  function Probe(start: nat, step: nat, p: nat, n: nat): (a: nat)
    requires start < p && 1 <= step < p
    ensures a < p
  {
    if n == 0 then start
    else
      var a := Probe(start, step, p, n - 1);
      if a < step then a - step + p else a - step
  }

  lemma {:induction false} ProbeIs(start: nat, step: nat, p: nat, n: nat) returns (q: int)
    requires start < p && 1 <= step < p
    ensures Probe(start, step, p, n) == start - n * step + q * p
  {
    if n == 0 {
      q := 0;
    } else {
      q := ProbeIs(start, step, p, n - 1);
      Distribute(step, n - 1, 1);
      Distribute(p, q, 1);
      if Probe(start, step, p, n - 1) < step {
        q := q + 1;
      }
    }
  }

  /** The first p addresses are all different. */
  lemma ProbesDiffer(start: nat, step: nat, p: nat, i: nat, j: nat)
    requires Prime(p) && start < p && 1 <= step < p && i < j < p
    ensures Probe(start, step, p, i) != Probe(start, step, p, j)
  {
    var x := ProbeIs(start, step, p, i);
    var y := ProbeIs(start, step, p, j);
    if Probe(start, step, p, i) == Probe(start, step, p, j) {
      Distribute(step, j, -i);
      Distribute(p, y, -x);
      var d: nat := j - i;
      assert d * step == (y - x) * p;
      assert d * step >= 0;
      NotNegative(y - x, p);
      Multiple(y - x, p);
      EuclidsLemma(p, d, step);
      Small(d, p);
    }
  }

  lemma Small(d: nat, p: nat)
    requires 0 < d < p
    ensures d % p == d
  {
  }

  /** The addresses looked at before the nth. */
  ghost function Seen(start: nat, step: nat, p: nat, n: nat): set<nat>
    requires start < p && 1 <= step < p
  {
    if n == 0 then {} else Seen(start, step, p, n - 1) + {Probe(start, step, p, n - 1)}
  }

  lemma {:induction false} SeenFrom(start: nat, step: nat, p: nat, n: nat, a: nat) returns (i: nat)
    requires start < p && 1 <= step < p && a in Seen(start, step, p, n)
    ensures i < n && Probe(start, step, p, i) == a
  {
    if a == Probe(start, step, p, n - 1) {
      i := n - 1;
    } else {
      i := SeenFrom(start, step, p, n - 1, a);
    }
  }

  /** They are n different ones. */
  lemma {:induction false} SeenSize(start: nat, step: nat, p: nat, n: nat)
    requires Prime(p) && start < p && 1 <= step < p && n <= p
    ensures |Seen(start, step, p, n)| == n
  {
    if n != 0 {
      SeenSize(start, step, p, n - 1);
      var a := Probe(start, step, p, n - 1);
      if a in Seen(start, step, p, n - 1) {
        var i := SeenFrom(start, step, p, n - 1, a);
        ProbesDiffer(start, step, p, i, n - 1);
      }
    }
  }

  /** All numbers below n. */
  ghost function Below(n: nat): (s: set<nat>)
    ensures forall x: nat :: x in s <==> x < n
  {
    if n == 0 then {} else Below(n - 1) + {n - 1}
  }

  lemma {:induction false} BelowSize(n: nat)
    ensures |Below(n)| == n
  {
    if n != 0 {
      BelowSize(n - 1);
      assert n - 1 !in Below(n - 1);
    }
  }

  lemma SubsetSize<T>(a: set<T>, b: set<T>)
    requires a <= b
    ensures |a| <= |b|
    decreases |a|
  {
    if a != {} {
      var x :| x in a;
      SubsetSize(a - {x}, b - {x});
    }
  }

  lemma EqualSize(a: set<nat>, b: set<nat>)
    requires a <= b && |a| == |b|
    ensures a == b
  {
    if b - a != {} {
      var x :| x in b - a;
      SubsetSize(a, b - {x});
    }
  }

  /** Every address is looked at sooner or later. */
  lemma ProbesReach(start: nat, step: nat, p: nat, a: nat) returns (n: nat)
    requires Prime(p) && start < p && 1 <= step < p && a < p
    ensures n < p && Probe(start, step, p, n) == a
  {
    SeenSize(start, step, p, p);
    BelowSize(p);
    forall x | x in Seen(start, step, p, p) ensures x in Below(p) {
      var i := SeenFrom(start, step, p, p, x);
    }
    EqualSize(Seen(start, step, p, p), Below(p));
    n := SeenFrom(start, step, p, p, a);
  }

  // ---------- tables ----------

  /** make_hash: where a search starts and how far it steps down, from the mixed bits
      of the key, which only the first of the two cuts to 32 bits. */
  function Start(mix: nat, p: nat): (r: nat)
    requires p >= 2
    ensures r < p
  {
    mix % 0x1_0000_0000 % p
  }

  function Step(mix: nat, p: nat): (r: nat)
    requires p >= 2
    ensures 1 <= r < p
  {
    1 + mix % (p - 1)
  }

  /** The nth slot looked at for a key. */
  function Slot(mix: nat, p: nat, n: nat): (a: nat)
    requires p >= 2
    ensures a < p
  {
    Probe(Start(mix, p), Step(mix, p), p, n)
  }

  /** The next one. */
  function Next(a: nat, mix: nat, p: nat): (r: nat)
    requires p >= 2 && a < p
    ensures r < p
  {
    var d := a - Step(mix, p);
    if d < 0 then d + p else d
  }

  lemma FirstSlot(mix: nat, p: nat)
    requires p >= 2
    ensures Slot(mix, p, 0) == Start(mix, p)
  {
  }

  lemma NextSlot(mix: nat, p: nat, n: nat)
    requires p >= 2
    ensures Slot(mix, p, n + 1) == Next(Slot(mix, p, n), mix, p)
  {
  }

  /** Slot k is found: all slots looked at before it are taken. */
  ghost predicate Reached<T>(t: seq<Option<T>>, mix: nat, p: nat, k: nat)
    requires 2 <= p <= |t|
  {
    exists n: nat :: n < p && Slot(mix, p, n) == k && Taken(t, mix, p, n)
  }

  ghost predicate Taken<T>(t: seq<Option<T>>, mix: nat, p: nat, n: nat)
    requires 2 <= p <= |t|
  {
    forall i: nat :: i < n ==> t[Slot(mix, p, i)].Some?
  }

  /** Filling a slot does not get in the way. */
  lemma ReachedStill<T>(t: seq<Option<T>>, mix: nat, p: nat, k: nat, f: nat, x: T)
    requires 2 <= p <= |t| && f < |t| && Reached(t, mix, p, k)
    ensures Reached(t[f := Some(x)], mix, p, k)
  {
    var n: nat :| n < p && Slot(mix, p, n) == k && Taken(t, mix, p, n);
    assert Taken(t[f := Some(x)], mix, p, n);
  }

  /** A search that comes to a free slot has come by every entry it could be for. */
  lemma PassedBy<T>(t: seq<Option<T>>, mix: nat, p: nat, k: nat, n: nat) returns (i: nat)
    requires 2 <= p <= |t| && k < p && Reached(t, mix, p, k) && t[k].Some?
    requires t[Slot(mix, p, n)].None?
    ensures i < n && Slot(mix, p, i) == k
  {
    i :| i < p && Slot(mix, p, i) == k && Taken(t, mix, p, i);
    assert i >= n ==> i == n;
  }

  /** The search comes to any given slot in fewer than p steps. */
  lemma SearchReaches(mix: nat, p: nat, a: nat) returns (n: nat)
    requires Prime(p) && a < p
    ensures n < p && Slot(mix, p, n) == a
  {
    n := ProbesReach(Start(mix, p), Step(mix, p), p, a);
  }

  /** The number of free slots among the first n. */
  ghost function FreeSlots<T>(t: seq<Option<T>>, n: nat): nat
    requires n <= |t|
  {
    if n == 0 then 0 else FreeSlots(t, n - 1) + if t[n - 1].None? then 1 else 0
  }

  lemma {:induction false} FreeSlot<T>(t: seq<Option<T>>, n: nat) returns (k: nat)
    requires n <= |t| && FreeSlots(t, n) > 0
    ensures k < n && t[k].None?
  {
    if t[n - 1].None? {
      k := n - 1;
    } else {
      k := FreeSlot(t, n - 1);
    }
  }

  lemma {:induction false} FreeLess<T>(t: seq<Option<T>>, n: nat, f: nat, x: T)
    requires n <= |t| && f < |t|
    ensures FreeSlots(t[f := Some(x)], n) == FreeSlots(t, n) - if f < n && t[f].None? then 1 else 0
  {
    if n != 0 {
      FreeLess(t, n - 1, f, x);
    }
  }

  // ---------- the sizes of the tables ----------

  const NAME_HASH_PRIME: nat := 16381
  const PACKAGE_HASH_PRIME: nat := 10007
  const STATUS_HASH_PRIME: nat := 8191

  /** No number from d to e divides p. */
  predicate NoneDivides(p: nat, d: nat, e: nat)
    requires d > 0
    decreases e + 1 - d
  {
    d > e || (!Divides(d, p) && NoneDivides(p, d + 1, e))
  }

  lemma {:induction false} NoneOfThem(p: nat, d: nat, e: nat, k: nat)
    requires 0 < d <= k <= e && NoneDivides(p, d, e)
    ensures !Divides(k, p)
    decreases k - d
  {
    if d < k {
      NoneOfThem(p, d + 1, e, k);
    }
  }

  /** A number is prime if nothing up to its root divides it. */
  lemma UpToTheRoot(p: nat, e: nat)
    requires p >= 2 && p < (e + 1) * (e + 1) && NoneDivides(p, 2, e)
    ensures Prime(p)
  {
    forall d: nat | 2 <= d < p ensures !Divides(d, p) {
      if Divides(d, p) {
        Bits.DivModParts(p, d);
        var c := p / d;
        assert p == c * d;
        if d <= e {
          NoneOfThem(p, 2, e, d);
        } else {
          Cofactor(c, d, p, e);
          Multiple(d, c);
          assert d * c == p;
          NoneOfThem(p, 2, e, c);
        }
      }
    }
  }

  lemma Cofactor(c: nat, d: nat, p: nat, e: nat)
    requires p == c * d && e < d < p < (e + 1) * (e + 1)
    ensures 2 <= c <= e
  {
    Product(e, c, d);
    assert c == 0 ==> c * d == 0;
    assert c == 1 ==> c * d == d;
  }

  lemma Product(e: nat, c: nat, d: nat)
    requires e < d
    ensures c > e ==> c * d >= (e + 1) * (e + 1)
  {
    Bits.MulStep(e, c, d);
    Bits.MulStep(e, d, e + 1);
  }

  lemma NoneLeft(p: nat, e: nat)
    ensures NoneDivides(p, e + 1, e)
  {
  }

  /** Four more numbers. */
  lemma Four(p: nat, d: nat, e: nat)
    requires d >= 2 && NoneDivides(p, d + 4, e)
    requires p % d != 0 && p % (d + 1) != 0 && p % (d + 2) != 0 && p % (d + 3) != 0
    ensures NoneDivides(p, d, e)
  {
    assert NoneDivides(p, d + 3, e);
    assert NoneDivides(p, d + 2, e);
    assert NoneDivides(p, d + 1, e);
  }

  lemma NameTrial()
    ensures NoneDivides(16381, 2, 129)
  {
    hide NoneDivides;
    NoneLeft(16381, 129);
    Four(16381, 126, 129); Four(16381, 122, 129); Four(16381, 118, 129); Four(16381, 114, 129);
    Four(16381, 110, 129); Four(16381, 106, 129); Four(16381, 102, 129); Four(16381, 98, 129);
    Four(16381, 94, 129); Four(16381, 90, 129); Four(16381, 86, 129); Four(16381, 82, 129);
    Four(16381, 78, 129); Four(16381, 74, 129); Four(16381, 70, 129); Four(16381, 66, 129);
    Four(16381, 62, 129); Four(16381, 58, 129); Four(16381, 54, 129); Four(16381, 50, 129);
    Four(16381, 46, 129); Four(16381, 42, 129); Four(16381, 38, 129); Four(16381, 34, 129);
    Four(16381, 30, 129); Four(16381, 26, 129); Four(16381, 22, 129); Four(16381, 18, 129);
    Four(16381, 14, 129); Four(16381, 10, 129); Four(16381, 6, 129); Four(16381, 2, 129);
  }

  lemma PackageTrial()
    ensures NoneDivides(10007, 2, 101)
  {
    hide NoneDivides;
    NoneLeft(10007, 101);
    Four(10007, 98, 101); Four(10007, 94, 101); Four(10007, 90, 101); Four(10007, 86, 101);
    Four(10007, 82, 101); Four(10007, 78, 101); Four(10007, 74, 101); Four(10007, 70, 101);
    Four(10007, 66, 101); Four(10007, 62, 101); Four(10007, 58, 101); Four(10007, 54, 101);
    Four(10007, 50, 101); Four(10007, 46, 101); Four(10007, 42, 101); Four(10007, 38, 101);
    Four(10007, 34, 101); Four(10007, 30, 101); Four(10007, 26, 101); Four(10007, 22, 101);
    Four(10007, 18, 101); Four(10007, 14, 101); Four(10007, 10, 101); Four(10007, 6, 101);
    Four(10007, 2, 101);
  }

  lemma StatusTrial()
    ensures NoneDivides(8191, 2, 93)
  {
    hide NoneDivides;
    NoneLeft(8191, 93);
    Four(8191, 90, 93); Four(8191, 86, 93); Four(8191, 82, 93); Four(8191, 78, 93);
    Four(8191, 74, 93); Four(8191, 70, 93); Four(8191, 66, 93); Four(8191, 62, 93);
    Four(8191, 58, 93); Four(8191, 54, 93); Four(8191, 50, 93); Four(8191, 46, 93);
    Four(8191, 42, 93); Four(8191, 38, 93); Four(8191, 34, 93); Four(8191, 30, 93);
    Four(8191, 26, 93); Four(8191, 22, 93); Four(8191, 18, 93); Four(8191, 14, 93);
    Four(8191, 10, 93); Four(8191, 6, 93); Four(8191, 2, 93);
  }

  /** The sizes of the three tables are prime. */
  lemma HashPrimes()
    ensures Prime(NAME_HASH_PRIME) && Prime(PACKAGE_HASH_PRIME) && Prime(STATUS_HASH_PRIME)
  {
    NameTrial();
    UpToTheRoot(16381, 129);
    PackageTrial();
    UpToTheRoot(10007, 101);
    StatusTrial();
    UpToTheRoot(8191, 93);
  }
}
