/** The part of gen_bitlen that repairs code lengths cut off at the limit. */
module LengthLimit {
  import opened Bits
  import opened Canonical

  /** Code space of c[1..b], where c[i] codes are i bits long, in units of 2^-m. */
  function CountSpace(c: seq<nat>, b: nat, m: nat): nat
    requires b <= m && b < |c|
  {
    if b == 0 then 0 else CountSpace(c, b - 1, m) + c[b] * Pow2(m - b)
  }

  /** How many codes there are of 1 to b bits. */
  function CountTotal(c: seq<nat>, b: nat): nat
    requires b < |c|
  {
    if b == 0 then 0 else CountTotal(c, b - 1) + c[b]
  }

  lemma {:induction false} SpaceUpdate(c: seq<nat>, b: nat, m: nat, i: nat, x: nat)
    requires b <= m && b < |c| && 1 <= i < |c|
    ensures CountSpace(c[i := x], b, m)
         == CountSpace(c, b, m) + (if i <= b then x * Pow2(m - i) - c[i] * Pow2(m - i) else 0)
  {
    if b != 0 {
      SpaceUpdate(c, b - 1, m, i, x);
    }
  }

  lemma {:induction false} TotalUpdate(c: seq<nat>, b: nat, i: nat, x: nat)
    requires b < |c| && 1 <= i < |c|
    ensures CountTotal(c[i := x], b) == CountTotal(c, b) + (if i <= b then x - c[i] else 0)
  {
    if b != 0 {
      TotalUpdate(c, b - 1, i, x);
    }
  }

  lemma {:induction false} NothingShort(c: seq<nat>, b: nat, m: nat)
    requires b <= m && b < |c| && forall i :: 1 <= i <= b ==> c[i] == 0
    ensures CountSpace(c, b, m) == 0 && CountTotal(c, b) == 0
  {
    if b != 0 {
      NothingShort(c, b - 1, m);
    }
  }

  /** With the code space oversubscribed, some code is shorter than the limit. */
  lemma {:induction false} SomeShortCode(c: seq<nat>, m: nat, excess: nat)
    requires 1 <= m < |c| && excess >= 1
    requires CountSpace(c, m, m) == Pow2(m) + excess && CountTotal(c, m) <= Pow2(m)
    ensures exists b :: 1 <= b < m && c[b] > 0
  {
    assert Pow2(m - m) == 1;
    if forall b :: 1 <= b < m ==> c[b] == 0 {
      NothingShort(c, m - 1, m);
    }
  }

  /** One repair: a code of b bits becomes b + 1 bits and gets a code from the
      limit as its brother. */
  function Moved(c: seq<nat>, b: nat, m: nat): seq<nat>
    requires 1 <= b < m < |c| && c[b] > 0 && c[m] > 0
  {
    var c1 := c[b := c[b] - 1];
    var c2 := c1[b + 1 := c1[b + 1] + 2];
    c2[m := c2[m] - 1]
  }

  lemma MovedSpace(c: seq<nat>, b: nat, m: nat)
    requires 1 <= b < m < |c| && c[b] > 0 && c[m] > 0
    ensures CountSpace(Moved(c, b, m), m, m) == CountSpace(c, m, m) - 1
    ensures CountTotal(Moved(c, b, m), m) == CountTotal(c, m)
    ensures Moved(c, b, m)[m] >= c[m] - 1
  {
    hide CountSpace, CountTotal, Pow2;
    var c1 := c[b := c[b] - 1];
    var c2 := c1[b + 1 := c1[b + 1] + 2];
    SpaceUpdate(c, m, m, b, c[b] - 1);
    SpaceUpdate(c1, m, m, b + 1, c1[b + 1] + 2);
    SpaceUpdate(c2, m, m, m, c2[m] - 1);
    TotalUpdate(c, m, b, c[b] - 1);
    TotalUpdate(c1, m, b + 1, c1[b + 1] + 2);
    TotalUpdate(c2, m, m, c2[m] - 1);
    MovedUnits(c[b], c1[b + 1], c2[m], b, m);
  }

  lemma MovedUnits(x: nat, y: nat, z: nat, b: nat, m: nat)
    requires b < m && x > 0 && z > 0
    ensures x * Pow2(m - b) - (x - 1) * Pow2(m - b) == Pow2(m - b) == 2 * Pow2(m - (b + 1))
    ensures (y + 2) * Pow2(m - (b + 1)) - y * Pow2(m - (b + 1)) == 2 * Pow2(m - (b + 1))
    ensures z * Pow2(m - m) - (z - 1) * Pow2(m - m) == 1
  {
    assert Pow2(m - b) == 2 * Pow2(m - (b + 1)) && Pow2(m - m) == 1;
    hide Pow2;
    MulSum(x - 1, 1, Pow2(m - b));
    MulSum(y, 2, Pow2(m - (b + 1)));
  }

  /** What holds of the counts while `excess` repairs are still to be made. */
  ghost predicate Oversubscribed(c: seq<nat>, m: nat, excess: nat)
    requires m < |c|
  {
    && CountSpace(c, m, m) == Pow2(m) + excess
    && CountTotal(c, m) <= Pow2(m)
    && c[m] >= excess
    && c[0] == 0
  }

  /** One repair takes the longest code below the limit: it becomes one bit longer, and so does the
      code from the limit that becomes its brother. */
  ghost predicate RepairStep(c: seq<nat>, c': seq<nat>, m: nat)
  {
    && |c'| == |c| > m
    && exists b: nat :: 1 <= b < m && c[b] > 0 && (forall i :: b < i < m ==> c[i] == 0) && MovedFrom(c, c', b, m)
  }

  ghost predicate MovedFrom(c: seq<nat>, c': seq<nat>, b: nat, m: nat)
    requires b < m < |c| == |c'|
  {
    forall i :: 0 <= i < |c| ==>
      c'[i] + (if i == b || i == m then 1 else 0) == c[i] + if i == b + 1 then 2 else 0
  }

  ghost predicate RepairSteps(cs: seq<seq<nat>>, m: nat)
  {
    forall i :: 0 <= i < |cs| - 1 ==> RepairStep(cs[i], cs[i + 1], m)
  }

  lemma StepMade(cs: seq<seq<nat>>, c: seq<nat>, b: nat, m: nat)
    requires cs != [] && c == cs[|cs| - 1] && RepairSteps(cs, m) && 1 <= b < m < |c| && c[b] > 0 && c[m] > 0
    requires forall i :: b < i < m ==> c[i] == 0
    ensures RepairSteps(cs + [Moved(c, b, m)], m)
  {
    var c' := Moved(c, b, m);
    assert MovedFrom(c, c', b, m);
    var l := cs + [c'];
    forall i | 0 <= i < |l| - 1 ensures RepairStep(l[i], l[i + 1], m) {
      if i < |cs| - 1 {
        assert RepairStep(cs[i], cs[i + 1], m);
      }
    }
  }

  /** The repair loop of gen_bitlen: brings the code space down to exactly one, step by step. */
  method Repair(blCount: array<nat>, maxLength: nat, nodesOver: nat, ghost excess: nat) returns (ghost cs: seq<seq<nat>>)
    requires blCount.Length == MAX_BITS + 1 && 1 <= maxLength <= MAX_BITS
    requires nodesOver == 2 * excess && excess >= 1
    requires Oversubscribed(blCount[..], maxLength, excess)
    modifies blCount
    ensures |cs| == excess + 1 && cs[0] == old(blCount[..]) && cs[excess] == blCount[..] && RepairSteps(cs, maxLength)
    ensures CountSpace(blCount[..], maxLength, maxLength) == Pow2(maxLength)
    ensures CountTotal(blCount[..], maxLength) == old(CountTotal(blCount[..], maxLength))
    ensures blCount[0] == 0
    ensures forall b :: maxLength < b <= MAX_BITS ==> blCount[b] == old(blCount[b])
  {
    hide CountSpace, CountTotal, Pow2, RepairStep;
    var overflow := nodesOver;
    ghost var left := excess;
    cs := [blCount[..]];
    while overflow > 0
      invariant overflow == 2 * left
      invariant |cs| + left == excess + 1 && |cs| >= 1 && cs[0] == old(blCount[..]) && cs[|cs| - 1] == blCount[..]
      invariant RepairSteps(cs, maxLength)
      invariant Oversubscribed(blCount[..], maxLength, left)
      invariant CountTotal(blCount[..], maxLength) == old(CountTotal(blCount[..], maxLength))
      invariant forall b :: maxLength < b <= MAX_BITS ==> blCount[b] == old(blCount[b])
    {
      SomeShortCode(blCount[..], maxLength, left);
      ghost var short :| 1 <= short < maxLength && blCount[..][short] > 0;
      var bits := maxLength - 1;
      while blCount[bits] == 0
        invariant short <= bits < maxLength
        invariant forall i :: bits < i < maxLength ==> blCount[i] == 0
        decreases bits
      {
        bits := bits - 1;
      }
      ghost var c := blCount[..];
      MovedSpace(c, bits, maxLength);
      StepMade(cs, c, bits, maxLength);
      blCount[bits] := blCount[bits] - 1;
      blCount[bits + 1] := blCount[bits + 1] + 2;
      blCount[maxLength] := blCount[maxLength] - 1;
      assert blCount[..] == Moved(c, bits, maxLength);
      cs := cs + [blCount[..]];
      overflow := overflow - 2;
      left := left - 1;
    }
  }
}
