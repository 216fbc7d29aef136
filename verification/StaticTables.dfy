/** ct_init: the tables that do not depend on the input. */
module StaticTables {
  import opened Bits
  import opened Canonical
  import opened PrefixCodes
  import opened Inflate
  import opened GenCodes
  import opened Tokens

  const LENGTH_CODES: nat := 29
  const D_CODES: nat := 30
  const L_CODES: nat := 286

  /** The code of a length - 3, and of a distance - 1. */
  function NormalLengthCode(l: nat): nat { LengthCode(l + 3) }
  function NormalDistCode(d: nat): nat { DistCode(d + 1) }

  /** Base length - 3 and base distance - 1 of a code. */
  function LengthBaseOf(c: nat): int
    requires c < LENGTH_CODES
  {
    LENGTH_BASE[c] - 3
  }

  function BaseOf(c: nat): int
    requires c < D_CODES
  {
    DIST_BASE[c] - 1
  }

  /** Length codes by length - 3, and the first such length of each code. The last
      code has no extra bits, so its base is never looked at. */
  ghost predicate LengthTables(lengthCode: seq<nat>, baseLength: seq<int>)
  {
    && |lengthCode| == 256 && |baseLength| == LENGTH_CODES
    && (forall l :: 0 <= l < 256 ==> lengthCode[l] == NormalLengthCode(l))
    && (forall c :: 0 <= c < LENGTH_CODES - 1 ==> baseLength[c] == LengthBaseOf(c))
  }

  /** D_CODE: the code of a distance - 1, looked up in two steps. */
  function DCode(distCode: seq<nat>, d: nat): nat
    requires |distCode| == 512 && d < 0x8000
  {
    if d < 256 then distCode[d] else distCode[256 + d / 128]
  }

  ghost predicate DistTables(distCode: seq<nat>, baseDist: seq<int>)
  {
    && |distCode| == 512 && |baseDist| == D_CODES
    && (forall d :: 0 <= d < 0x8000 ==> DCode(distCode, d) == NormalDistCode(d))
    && (forall c :: 0 <= c < D_CODES ==> baseDist[c] == BaseOf(c))
  }

  lemma {:induction false} LengthCodeIs(length: nat, c: nat, from: nat)
    requires from <= c <= 27 && LENGTH_BASE[c] <= length < LENGTH_BASE[c] + Pow2(LENGTH_EXTRA[c])
    requires length < 258
    ensures LengthCodeFrom(length, from) == c
    decreases 27 - from
  {
    LengthSpans(from);
    if from < c {
      LengthBaseIncreases(from + 1, c);
      LengthCodeIs(length, c, from + 1);
    } else {
      LengthSpans(c);
    }
  }

  lemma {:induction false} LengthBaseIncreases(a: nat, b: nat)
    requires a <= b <= 27
    ensures LENGTH_BASE[a] <= LENGTH_BASE[b]
    decreases b - a
  {
    if a < b {
      LengthSpans(a);
      LengthBaseIncreases(a + 1, b);
    }
  }

  lemma {:induction false} DistCodeIs(distance: nat, c: nat, from: nat)
    requires from <= c <= 29 && DIST_BASE[c] <= distance < DIST_BASE[c] + Pow2(DIST_EXTRA[c])
    ensures DistCodeFrom(distance, from) == c
    decreases 29 - from
  {
    DistSpans(from);
    if from < c {
      DistBaseIncreases(from + 1, c);
      DistCodeIs(distance, c, from + 1);
    } else {
      DistSpans(c);
    }
  }

  lemma {:induction false} DistBaseIncreases(a: nat, b: nat)
    requires a <= b <= 29
    ensures DIST_BASE[a] <= DIST_BASE[b]
    decreases b - a
  {
    if a < b {
      DistSpans(a);
      DistBaseIncreases(a + 1, b);
    }
  }

  /** The inner loop of both table initializations: code for the next n entries. */
  method FillRun(table: array<nat>, from: nat, count: nat, code: nat) returns (next: nat)
    requires from + count <= table.Length
    modifies table
    ensures next == from + count
    ensures forall i :: 0 <= i < table.Length ==> table[i] == if from <= i < next then code else old(table[i])
  {
    next := from;
    var n := 0;
    while n < count
      invariant 0 <= n <= count && next == from + n
      invariant forall i :: 0 <= i < table.Length ==> table[i] == if from <= i < next then code else old(table[i])
    {
      table[next] := code;
      next := next + 1;
      n := n + 1;
    }
  }

  /** First normalized length of each code, 0 standing for 3; code 28 would start at
      256 if 258 had no code of its own. */
  function FirstLength(c: nat): nat
    requires c <= 28
  {
    if c == 28 then 256 else LENGTH_BASE[c] - 3
  }

  lemma LengthRun(c: nat)
    requires c <= 27
    ensures FirstLength(c) + Pow2(LENGTH_EXTRA[c]) == FirstLength(c + 1) <= 256
    ensures forall l :: FirstLength(c) <= l < FirstLength(c + 1) && l < 255 ==> NormalLengthCode(l) == c
    ensures FirstLength(0) == 0 && LENGTH_BASE[c] == FirstLength(c) + 3
  {
    hide Pow2, NormalLengthCode;
    LengthSpans(c);
    LengthsEnd(c);
    forall l | FirstLength(c) <= l < FirstLength(c + 1) && l < 255 ensures NormalLengthCode(l) == c {
      NormalLengthIs(l, c);
    }
  }

  lemma NormalLengthIs(l: nat, c: nat)
    requires c <= 27 && FirstLength(c) <= l < FirstLength(c + 1) && l < 255
    ensures NormalLengthCode(l) == c
  {
    hide Pow2;
    LengthSpans(c);
    LengthCodeIs(l + 3, c, 0);
  }

  /** The codes of the first n lengths; 255 is set last of all. */
  ghost predicate LengthsDone(lengthCode: seq<nat>, n: nat)
  {
    |lengthCode| == 256 && n <= 256 && forall l :: 0 <= l < n && l < 255 ==> lengthCode[l] == NormalLengthCode(l)
  }

  ghost predicate LengthBasesDone(baseLength: seq<int>, n: nat)
  {
    |baseLength| == LENGTH_CODES && n <= LENGTH_CODES && forall c :: 0 <= c < n ==> baseLength[c] == LengthBaseOf(c)
  }

  lemma LengthsMore(before: seq<nat>, after: seq<nat>, n: nat, n': nat, code: nat)
    requires LengthsDone(before, n) && |after| == 256 && n <= n' <= 256
    requires forall i :: 0 <= i < 256 ==> after[i] == if n <= i < n' then code else before[i]
    requires forall l :: n <= l < n' && l < 255 ==> NormalLengthCode(l) == code
    ensures LengthsDone(after, n')
  {
  }

  lemma LengthsAllDone(lengthCode: seq<nat>, baseLength: seq<int>)
    requires LengthsDone(lengthCode, 256) && LengthBasesDone(baseLength, LENGTH_CODES - 1)
    requires NormalLengthCode(255) == 28
    ensures LengthTables(lengthCode[255 := 28], baseLength)
  {
    hide NormalLengthCode;
  }

  lemma NoLengthDone(lengthCode: seq<nat>)
    requires |lengthCode| == 256
    ensures LengthsDone(lengthCode, 0)
  {
  }

  /** Initialize the mapping from lengths to length codes. */
  method InitLengths() returns (lengthCode: array<nat>, baseLength: array<int>)
    ensures fresh(lengthCode) && fresh(baseLength)
    ensures LengthTables(lengthCode[..], baseLength[..])
  {
    hide NormalLengthCode, Pow2, FirstLength, LengthsDone, LengthTables;
    lengthCode := new nat[256](_ => 0);
    baseLength := new int[LENGTH_CODES](_ => 0);
    var length: nat := 0;
    var code: nat := 0;
    LengthRun(0);
    NoLengthDone(lengthCode[..]);
    while code < LENGTH_CODES - 1
      invariant 0 <= code <= LENGTH_CODES - 1 && length == FirstLength(code)
      invariant LengthsDone(lengthCode[..], length) && LengthBasesDone(baseLength[..], code)
    {
      baseLength[code] := length;
      LengthRun(code);
      ghost var before := lengthCode[..];
      var next := FillRun(lengthCode, length, Pow2(LENGTH_EXTRA[code]), code);
      LengthsMore(before, lengthCode[..], length, next, code);
      length := next;
      code := code + 1;
    }
    LastLength();
    LengthsAllDone(lengthCode[..], baseLength[..]);
    lengthCode[length - 1] := code;
  }

  lemma LastLength()
    ensures FirstLength(28) == 256 && NormalLengthCode(255) == 28
  {
  }

  lemma LengthsEnd(c: nat)
    requires c <= 27
    ensures LENGTH_BASE[c] + Pow2(LENGTH_EXTRA[c]) <= 259
  {
    LengthSpans(c);
    if c < 27 {
      LengthBaseIncreases(c + 1, 27);
    }
  }

  lemma DistsEnd(c: nat)
    requires c <= 29
    ensures DIST_BASE[c] + Pow2(DIST_EXTRA[c]) <= 0x8001
    ensures c < 16 ==> DIST_BASE[c] + Pow2(DIST_EXTRA[c]) <= 257
  {
    DistSpans(c);
    if c < 29 {
      DistBaseIncreases(c + 1, 29);
    }
    if c < 16 {
      DistBaseIncreases(c + 1, 16);
    }
  }

  /** First normalized distance of each code, 0 standing for 1. */
  function FirstDist(c: nat): nat
    requires c <= 30
  {
    if c == 30 then 0x8000 else DIST_BASE[c] - 1
  }

  lemma DistRun(c: nat)
    requires c <= 29
    ensures FirstDist(c) + Pow2(DIST_EXTRA[c]) == FirstDist(c + 1) <= 0x8000
    ensures c < 16 ==> FirstDist(c + 1) <= 256
    ensures forall d :: FirstDist(c) <= d < FirstDist(c + 1) ==> NormalDistCode(d) == c
    ensures DIST_BASE[c] == FirstDist(c) + 1
  {
    hide Pow2, NormalDistCode;
    DistSpans(c);
    DistsEnd(c);
    forall d | FirstDist(c) <= d < FirstDist(c + 1) ensures NormalDistCode(d) == c {
      NormalDistIs(d, c);
    }
  }

  lemma NormalDistIs(d: nat, c: nat)
    requires c <= 29 && FirstDist(c) <= d < FirstDist(c + 1)
    ensures NormalDistCode(d) == c
  {
    hide Pow2;
    DistSpans(c);
    DistCodeIs(d + 1, c, 0);
  }

  lemma DistMarks()
    ensures FirstDist(0) == 0 && FirstDist(16) == 256 && FirstDist(30) == 0x8000
  {
  }

  /** Codes 16.. in steps of 128 distances. */
  lemma LongDistRun(c: nat, i: nat)
    requires 16 <= c <= 29 && i * 128 == FirstDist(c)
    ensures DIST_EXTRA[c] >= 7 && (i + Pow2(DIST_EXTRA[c] - 7)) * 128 == FirstDist(c + 1)
    ensures i >= 2 && i + Pow2(DIST_EXTRA[c] - 7) <= 256
    ensures forall d :: i <= d / 128 < i + Pow2(DIST_EXTRA[c] - 7) ==> NormalDistCode(d) == c
  {
    DistRun(c);
    BlocksOf128(c);
    DistBaseIncreases(16, c);
  }

  /** The codes of the first n distances, one by one. */
  ghost predicate NearDone(distCode: seq<nat>, n: nat)
  {
    |distCode| == 512 && n <= 256 && forall d :: 0 <= d < n ==> distCode[d] == NormalDistCode(d)
  }

  /** The codes of the distances from 256 on, 128 at a time. */
  ghost predicate FarDone(distCode: seq<nat>, n: nat)
  {
    |distCode| == 512 && n <= 256
    && forall d :: 2 <= d / 128 < n && d < 0x8000 ==> distCode[256 + d / 128] == NormalDistCode(d)
  }

  ghost predicate BasesDone(baseDist: seq<int>, n: nat)
  {
    |baseDist| == D_CODES && n <= D_CODES && forall c :: 0 <= c < n ==> baseDist[c] == BaseOf(c)
  }

  lemma NearMore(before: seq<nat>, after: seq<nat>, n: nat, n': nat, code: nat)
    requires NearDone(before, n) && |after| == 512 && n <= n' <= 256
    requires forall i :: 0 <= i < 512 ==> after[i] == if n <= i < n' then code else before[i]
    requires forall d :: n <= d < n' ==> NormalDistCode(d) == code
    ensures NearDone(after, n')
  {
  }

  lemma FarMore(before: seq<nat>, after: seq<nat>, n: nat, n': nat, code: nat)
    requires NearDone(before, 256) && FarDone(before, n) && |after| == 512 && n <= n' <= 256
    requires forall i :: 0 <= i < 512 ==> after[i] == if 256 + n <= i < 256 + n' then code else before[i]
    requires forall d :: n <= d / 128 < n' ==> NormalDistCode(d) == code
    ensures NearDone(after, 256) && FarDone(after, n')
  {
    hide NormalDistCode;
    forall d | 2 <= d / 128 < n' && d < 0x8000 ensures after[256 + d / 128] == NormalDistCode(d) {
      assert d / 128 < n ==> before[256 + d / 128] == NormalDistCode(d);
    }
  }

  lemma DistsDone(distCode: seq<nat>, baseDist: seq<int>)
    requires NearDone(distCode, 256) && FarDone(distCode, 256) && BasesDone(baseDist, D_CODES)
    ensures DistTables(distCode, baseDist)
  {
    hide NormalDistCode;
  }

  /** Initialize the mapping from distances to distance codes. */
  method InitDists() returns (distCode: array<nat>, baseDist: array<int>)
    ensures fresh(distCode) && fresh(baseDist)
    ensures DistTables(distCode[..], baseDist[..])
  {
    hide NearDone, FarDone, Pow2, FirstDist, NormalDistCode, DistTables;
    distCode := new nat[512](_ => 0);
    baseDist := new int[D_CODES](_ => 0);
    var dist: nat := 0;
    var code: nat := 0;
    DistMarks();
    NoneDone(distCode[..]);
    while code < 16
      invariant 0 <= code <= 16 && dist == FirstDist(code) <= 256
      invariant NearDone(distCode[..], dist) && BasesDone(baseDist[..], code)
    {
      baseDist[code] := dist;
      DistRun(code);
      ghost var before := distCode[..];
      var next := FillRun(distCode, dist, Pow2(DIST_EXTRA[code]), code);
      NearMore(before, distCode[..], dist, next, code);
      dist := next;
      code := code + 1;
    }
    dist := dist / 128;
    NoneDone(distCode[..]);
    while code < D_CODES
      invariant 16 <= code <= D_CODES && 2 <= dist && dist * 128 == FirstDist(code)
      invariant NearDone(distCode[..], 256) && FarDone(distCode[..], dist) && BasesDone(baseDist[..], code)
    {
      baseDist[code] := dist * 128;
      DistRun(code);
      LongDistRun(code, dist);
      ghost var before := distCode[..];
      var next := FillRun(distCode, 256 + dist, Pow2(DIST_EXTRA[code] - 7), code);
      FarMore(before, distCode[..], dist, next - 256, code);
      dist := next - 256;
      code := code + 1;
    }
    DistsDone(distCode[..], baseDist[..]);
  }

  lemma NoneDone(distCode: seq<nat>)
    requires |distCode| == 512
    ensures NearDone(distCode, 0) && FarDone(distCode, 2)
  {
  }

  /** From code 16 on, codes cover whole multiples of 128 distances. */
  lemma BlocksOf128(c: nat)
    requires 16 <= c <= 29
    ensures DIST_EXTRA[c] >= 7 && Pow2(DIST_EXTRA[c]) == 128 * Pow2(DIST_EXTRA[c] - 7)
  {
    Pow2Values();
    Pow2Add(7, DIST_EXTRA[c] - 7);
  }

  // ---------- the static trees ----------

  lemma {:induction false} KraftConcat(a: seq<nat>, b: seq<nat>, m: nat)
    requires (forall i :: 0 <= i < |a| ==> a[i] <= m) && (forall i :: 0 <= i < |b| ==> b[i] <= m)
    ensures forall i :: 0 <= i < |a + b| ==> (a + b)[i] <= m
    ensures Kraft(a + b, m) == Kraft(a, m) + Kraft(b, m)
  {
    if b == [] {
      assert a + b == a;
    } else {
      KraftConcat(a, b[..|b| - 1], m);
      assert (a + b)[..|a + b| - 1] == a + b[..|b| - 1];
    }
  }

  lemma {:induction false} KraftRepeat(l: nat, n: nat, m: nat)
    requires 1 <= l <= m
    ensures Kraft(Repeat(l, n), m) == n * Pow2(m - l)
  {
    if n != 0 {
      KraftRepeat(l, n - 1, m);
      assert Repeat(l, n)[..n - 1] == Repeat(l, n - 1);
      MulSum(n - 1, 1, Pow2(m - l));
    }
  }

  /** The fixed codes use up the code space exactly. */
  lemma FixedIsCode()
    ensures IsCode(FixedLiteralLengths(), MAX_BITS) && IsCode(FixedDistanceLengths(), MAX_BITS)
  {
    hide Kraft, Repeat, Pow2;
    var a, b, c, d := Repeat(8, 144), Repeat(9, 112), Repeat(7, 24), Repeat(8, 8);
    KraftConcat(a, b, 15);
    KraftConcat(a + b, c, 15);
    KraftConcat(a + b + c, d, 15);
    KraftRepeat(8, 144, 15);
    KraftRepeat(9, 112, 15);
    KraftRepeat(7, 24, 15);
    KraftRepeat(8, 8, 15);
    KraftRepeat(5, 32, 15);
    Pow2Values();
  }

  /** Lengths len for the symbols up to last, and their statistics. */
  method FillLengths(tree: array<CtData>, blCount: array<nat>, n0: nat, last: nat, len: nat) returns (n: nat)
    requires n0 <= last + 1 <= tree.Length && 1 <= len <= MAX_BITS && blCount.Length == MAX_BITS + 1
    requires forall b :: 1 <= b <= MAX_BITS ==> blCount[b] == Count(Lens(tree[..], n0), b)
    requires blCount[0] == 0
    modifies tree, blCount
    ensures n == last + 1 && blCount[0] == 0
    ensures Lens(tree[..], n) == old(Lens(tree[..], n0)) + Repeat(len, n - n0)
    ensures forall b :: 1 <= b <= MAX_BITS ==> blCount[b] == Count(Lens(tree[..], n), b)
  {
    hide Count, Repeat;
    n := n0;
    RepeatStep(len, 0);
    while n <= last
      invariant n0 <= n <= last + 1 && blCount[0] == 0
      invariant Lens(tree[..], n) == old(Lens(tree[..], n0)) + Repeat(len, n - n0)
      invariant forall b :: 1 <= b <= MAX_BITS ==> blCount[b] == Count(Lens(tree[..], n), b)
    {
      ghost var lens := Lens(tree[..], n);
      tree[n] := tree[n].(dl := len);
      forall b {
        CountAppend(lens, len, b);
      }
      blCount[len] := blCount[len] + 1;
      RepeatStep(len, n - n0);
      n := n + 1;
      assert Lens(tree[..], n) == lens + [len];
    }
  }

  lemma RepeatStep(x: nat, n: nat)
    ensures Repeat(x, 0) == [] && Repeat(x, n + 1) == Repeat(x, n) + [x]
  {
  }

  /** The fixed code for literals and lengths. Two symbols that are never sent use up the
      rest of its code space. */
  method InitStaticLiterals(blCount: array<nat>) returns (ltree: array<CtData>)
    requires blCount.Length == MAX_BITS + 1 && forall b :: 0 <= b <= MAX_BITS ==> blCount[b] == 0
    modifies blCount
    ensures fresh(ltree) && ltree.Length == 288
    ensures HasCodes(ltree[..], FixedLiteralLengths())
  {
    hide Count, Repeat, HasCodes, IsCode;
    ltree := new CtData[288](_ => CtData(0, 0));
    assert Lens(ltree[..], 0) == [];
    NothingCounted();
    var n := FillLengths(ltree, blCount, 0, 143, 8);
    n := FillLengths(ltree, blCount, n, 255, 9);
    n := FillLengths(ltree, blCount, n, 279, 7);
    n := FillLengths(ltree, blCount, n, 287, 8);
    assert Lens(ltree[..], 288) == FixedLiteralLengths();
    FixedIsCode();
    Generate(ltree, 287, blCount);
  }

  lemma NothingCounted()
    ensures forall b :: Count([], b) == 0
  {
  }

  lemma {:induction false} CountRepeat(l: nat, n: nat, b: nat)
    ensures Count(Repeat(l, n), b) == if b == l then n else 0
  {
    if n != 0 {
      CountRepeat(l, n - 1, b);
      assert Repeat(l, n)[..n - 1] == Repeat(l, n - 1);
    }
  }

  /** With equal lengths, codes are the symbols themselves. */
  lemma {:induction false} FixedDistanceCode(n: nat)
    requires n < 32
    ensures CodeOf(FixedDistanceLengths(), n) == n
  {
    hide Count, Repeat;
    var lens := FixedDistanceLengths();
    CountRepeat(5, 32, 1);
    CountRepeat(5, 32, 2);
    CountRepeat(5, 32, 3);
    CountRepeat(5, 32, 4);
    assert FirstCode(lens, 1) == 0;
    assert FirstCode(lens, 2) == 0;
    assert FirstCode(lens, 3) == 0;
    assert FirstCode(lens, 4) == 0;
    assert FirstCode(lens, 5) == 0;
    var five: nat := 5;
    assert lens[..n] == Repeat(five, n);
    CountRepeat(five, n, 5);
    assert lens[n] == five;
  }

  /** The static distance tree: five bits each. */
  method InitStaticDistances() returns (dtree: array<CtData>)
    ensures fresh(dtree) && dtree.Length == D_CODES
    ensures forall c :: 0 <= c < D_CODES ==> HasCode(dtree[..], FixedDistanceLengths(), c)
  {
    hide LsbBits, MsbBits, CodeOf, Pow2;
    dtree := new CtData[D_CODES](_ => CtData(0, 0));
    var n := 0;
    while n < D_CODES
      invariant 0 <= n <= D_CODES
      invariant forall c :: 0 <= c < n ==> HasCode(dtree[..], FixedDistanceLengths(), c)
    {
      var code := BiReverse(n, 5);
      FixedDistanceCode(n);
      Pow2Values();
      ghost var before := dtree[..];
      dtree[n] := CtData(code, 5);
      forall c | 0 <= c <= n ensures HasCode(dtree[..], FixedDistanceLengths(), c) {
        if c < n {
          assert HasCode(before, FixedDistanceLengths(), c);
        }
      }
      n := n + 1;
    }
  }
}
