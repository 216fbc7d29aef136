/** The CRC-32 of libbb/crc32.c: a table with the effect of eight steps, used byte by byte,
    against the division of section 8 of RFC 1952, bit by bit. */
module Crc32 {
  import opened Bits
  import opened Hashing

  const POLYNOMIAL: nat := 0xedb88320
  const ONES: nat := 0xffff_ffff

  /** One step of the division, with one bit of data. */
  function DivideBit(c: nat, bit: bool): nat
  {
    if (c % 2 == 1) != bit then BitXor(c / 2, POLYNOMIAL) else c / 2
  }

  /** The remainder after all these bits. */
  function Divide(c: nat, bits: seq<bool>): nat
    decreases |bits|
  {
    if bits == [] then c else Divide(DivideBit(c, bits[0]), bits[1..])
  }

  /** The remainder after a text, starting from ones. */
  function Remainder(d: seq<byte>): nat
  {
    Divide(ONES, BytesToBits(d))
  }

  /** The checksum of a text. */
  function Checksum(d: seq<byte>): int
  {
    ONES - Remainder(d)
  }

  lemma {:induction false} DivideConcat(c: nat, a: seq<bool>, b: seq<bool>)
    ensures Divide(c, a + b) == Divide(Divide(c, a), b)
    decreases |a|
  {
    if a == [] {
      assert a + b == b;
    } else {
      assert (a + b)[1..] == a[1..] + b;
      DivideConcat(DivideBit(c, a[0]), a[1..], b);
    }
  }

  // ---------- exclusive or ----------

  lemma {:induction false} XorSwap(a: nat, b: nat)
    ensures BitXor(a, b) == BitXor(b, a)
  {
    if a != 0 && b != 0 {
      XorSwap(a / 2, b / 2);
    }
  }

  lemma XorNothing(a: nat)
    ensures BitXor(a, 0) == a == BitXor(0, a)
  {
  }

  lemma Parities(a: nat, b: nat, c: nat)
    ensures ((a + b) % 2 + c) % 2 == (a + (b + c) % 2) % 2
  {
  }

  lemma {:induction false} XorAssoc(a: nat, b: nat, c: nat)
    ensures BitXor(BitXor(a, b), c) == BitXor(a, BitXor(b, c))
    decreases a + b + c
  {
    hide BitXor;
    XorNothing(a);
    XorNothing(b);
    XorNothing(c);
    XorNothing(BitXor(a, b));
    XorNothing(BitXor(b, c));
    if a != 0 && b != 0 && c != 0 {
      XorStep(a, b);
      XorStep(b, c);
      XorStep(BitXor(a, b), c);
      XorStep(a, BitXor(b, c));
      XorAssoc(a / 2, b / 2, c / 2);
      Parities(a % 2, b % 2, c % 2);
      FromHalves(BitXor(BitXor(a, b), c), BitXor(a, BitXor(b, c)));
    }
  }

  lemma {:induction false} XorBelow(a: nat, b: nat, n: nat)
    requires a < Pow2(n) && b < Pow2(n)
    ensures BitXor(a, b) < Pow2(n)
  {
    if n != 0 && a != 0 && b != 0 {
      XorBelow(a / 2, b / 2, n - 1);
    }
  }

  /** Exclusive or with a value shifted up by n bits leaves the low n bits alone. */
  lemma {:induction false} XorLast(x: nat, h: nat, n: nat)
    requires n >= 1
    ensures BitXor(x, h * Pow2(n)) % 2 == x % 2
    ensures BitXor(x, h * Pow2(n)) / 2 == BitXor(x / 2, h * Pow2(n - 1))
  {
    hide BitXor;
    XorStep(x, h * Pow2(n));
    assert h * Pow2(n) == 2 * (h * Pow2(n - 1));
  }

  // ---------- eight steps at once ----------

  /** A step without data. */
  function Shift(c: nat): nat
  {
    if c % 2 == 1 then BitXor(c / 2, POLYNOMIAL) else c / 2
  }

  function Shifts(c: nat, n: nat): nat
    decreases n
  {
    if n == 0 then c else Shifts(Shift(c), n - 1)
  }

  /** Data may come in bit by bit, or all at once before the steps. */
  lemma {:induction false} DataFirst(c: nat, v: nat, n: nat)
    requires v < Pow2(n)
    ensures Divide(c, LsbBits(v, n)) == Shifts(BitXor(c, v), n)
    decreases n
  {
    hide BitXor;
    if n == 0 {
      assert Pow2(0) == 1;
      XorNothing(c);
    } else {
      var bits := LsbBits(v, n);
      assert bits[0] == (v % 2 == 1) && bits[1..] == LsbBits(v / 2, n - 1);
      XorStep(c, v);
      var y := BitXor(c / 2, v / 2);
      XorAssoc(c / 2, v / 2, POLYNOMIAL);
      XorAssoc(c / 2, POLYNOMIAL, v / 2);
      XorSwap(v / 2, POLYNOMIAL);
      assert Shift(BitXor(c, v)) == BitXor(DivideBit(c, bits[0]), v / 2);
      DataFirst(DivideBit(c, bits[0]), v / 2, n - 1);
    }
  }

  /** What stands above the low n bits only moves down in n steps. */
  lemma {:induction false} HighMoves(x: nat, h: nat, n: nat)
    ensures Shifts(BitXor(x, h * Pow2(n)), n) == BitXor(Shifts(x, n), h)
    decreases n
  {
    hide BitXor;
    if n == 0 {
      assert Pow2(0) == 1;
    } else {
      XorLast(x, h, n);
      var g := h * Pow2(n - 1);
      XorAssoc(x / 2, g, POLYNOMIAL);
      XorAssoc(x / 2, POLYNOMIAL, g);
      XorSwap(g, POLYNOMIAL);
      assert Shift(BitXor(x, h * Pow2(n))) == BitXor(Shift(x), g);
      HighMoves(Shift(x), h, n - 1);
    }
  }

  /** A number is its low bits and what stands above them. */
  lemma {:induction false} XorOfParts(c: nat, n: nat)
    ensures BitXor(c % Pow2(n), Shr(c, n) * Pow2(n)) == c
    decreases n
  {
    hide BitXor, Pow2;
    Pow2Next(n);
    if n == 0 {
      XorNothing(c);
    } else {
      XorOfParts(c / 2, n - 1);
      HalfMod(c, n);
      XorLast(c % Pow2(n), Shr(c, n), n);
      FromHalves(BitXor(c % Pow2(n), Shr(c, n) * Pow2(n)), c);
    }
  }

  lemma Pow2Next(n: nat)
    ensures Pow2(n) == if n == 0 then 1 else 2 * Pow2(n - 1)
  {
  }

  // ---------- the table ----------

  /** Eight steps for each value of a byte. */
  ghost predicate IsTable(t: seq<nat>)
  {
    |t| == 256 && forall i :: 0 <= i < 256 ==> t[i] == Shifts(i, 8)
  }

  lemma {:induction false} ShiftsNext(c: nat, n: nat)
    ensures Shifts(c, n + 1) == Shift(Shifts(c, n))
    decreases n
  {
    hide Shift;
    if n != 0 {
      ShiftsNext(Shift(c), n - 1);
    }
  }

  /** crc32_filltable(NULL, 0). */
  method FillTable() returns (table: array<nat>)
    ensures fresh(table) && IsTable(table[..])
  {
    hide Shifts, Shift;
    table := new nat[256];
    var i := 0;
    while i < 256
      invariant 0 <= i <= 256 && forall k :: 0 <= k < i ==> table[k] == Shifts(k, 8)
    {
      var c: nat := i;
      var j := 8;
      ShiftsNone(i);
      while j > 0
        invariant 0 <= j <= 8 && c == Shifts(i, 8 - j)
        invariant forall k :: 0 <= k < i ==> table[k] == Shifts(k, 8)
      {
        ShiftsNext(i, 8 - j);
        c := ShiftOnce(c);
        j := j - 1;
      }
      table[i] := c;
      i := i + 1;
    }
  }

  lemma ShiftsNone(c: nat)
    ensures Shifts(c, 0) == c
  {
  }

  method ShiftOnce(c: nat) returns (r: nat)
    ensures r == Shift(c)
  {
    if c % 2 == 1 {
      r := BitXor(c / 2, POLYNOMIAL);
    } else {
      r := c / 2;
    }
  }

  /** Looking up the low byte is eight steps with eight bits of data. */
  lemma LookUp(table: seq<nat>, c: nat, b: byte)
    requires IsTable(table)
    ensures BitXor(c % 256, b) < 256
    ensures BitXor(table[BitXor(c % 256, b)], c / 256) == Divide(c, LsbBits(b, 8))
  {
    hide BitXor, Shifts, Divide, LsbBits;
    Pow2Values();
    XorBelow(c % 256, b, 8);
    DataFirst(c, b, 8);
    var x, h := c % 256, c / 256;
    XorOfParts(c, 8);
    ShrParts(c, 8);
    XorAssoc(x, h * Pow2(8), b);
    XorSwap(h * Pow2(8), b);
    XorAssoc(x, b, h * Pow2(8));
    HighMoves(BitXor(x, b), h, 8);
  }

  /** crc32_block_endian0: the remainder after more bytes. */
  method Update(val0: nat, buf: array<byte>, start: nat, len: nat, table: seq<nat>) returns (val: nat)
    requires IsTable(table) && start + len <= buf.Length
    ensures val == Divide(val0, BytesToBits(buf[start..start + len]))
  {
    hide BitXor, Divide, LsbBits, BytesToBits, IsTable;
    ghost var d := buf[start..start + len];
    val := val0;
    NoData(val0, d);
    TableSize(table);
    var i := 0;
    while i < len
      invariant 0 <= i <= len && val == Divide(val0, BytesToBits(d[..i]))
    {
      LookUp(table, val, buf[start + i]);
      OneByteMore(val0, d, i);
      val := BitXor(table[BitXor(val % 256, buf[start + i])], val / 256);
      i := i + 1;
    }
    assert d[..len] == d;
  }

  lemma TableSize(table: seq<nat>)
    requires IsTable(table)
    ensures |table| == 256
  {
  }

  lemma NoData(c: nat, d: seq<byte>)
    ensures Divide(c, BytesToBits(d[..0])) == c
  {
  }

  lemma OneByteMore(c: nat, d: seq<byte>, i: nat)
    requires i < |d|
    ensures Divide(c, BytesToBits(d[..i + 1])) == Divide(Divide(c, BytesToBits(d[..i])), LsbBits(d[i], 8))
  {
    assert d[..i + 1] == d[..i] + [d[i]];
    BytesToBitsConcat(d[..i], [d[i]]);
    BytesToBitsOne(d[i]);
    DivideConcat(c, BytesToBits(d[..i]), LsbBits(d[i], 8));
  }

  lemma {:induction false} DivideBelow(c: nat, bits: seq<bool>)
    requires c <= ONES
    ensures Divide(c, bits) <= ONES
    decreases |bits|
  {
    if bits != [] {
      ThirtyTwo();
      XorBelow(c / 2, POLYNOMIAL, 32);
      DivideBelow(DivideBit(c, bits[0]), bits[1..]);
    }
  }

  lemma ThirtyTwo()
    ensures Pow2(32) == ONES + 1
  {
    Pow2Values();
    Pow2Add(16, 16);
  }

  /** The checksum fits 32 bits. */
  lemma ChecksumFits(d: seq<byte>)
    ensures 0 <= Checksum(d) <= ONES
  {
    DivideBelow(ONES, BytesToBits(d));
  }

  /** More of a text has come. */
  lemma RemainderNext(d: seq<byte>, e: seq<byte>)
    ensures Remainder(d + e) == Divide(Remainder(d), BytesToBits(e))
  {
    BytesToBitsConcat(d, e);
    DivideConcat(ONES, BytesToBits(d), BytesToBits(e));
  }
}
