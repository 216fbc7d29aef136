/** What the CRC-32 is: the remainder of the message, as a polynomial over the integers modulo 2,
    by the generator of ISO 3309 and ITU-T V.42, which RFC 1952 refers to; and its check value. */
module Crc32Standard {
  import opened Bits
  import opened Hashing
  import opened Crc32

  /** Bit k of a number. */
  function Bit(c: nat, k: nat): bool
    decreases k
  {
    if k == 0 then c % 2 == 1 else Bit(c / 2, k - 1)
  }

  // ---------- polynomials ----------

  /** The powers of x in the generator. */
  predicate Generator(e: int)
  {
    e in {32, 26, 23, 22, 16, 12, 11, 10, 8, 7, 5, 4, 2, 1, 0}
  }

  /** The coefficient of x^e in the generator times the sum of x^q[i]. */
  function Multiple(q: seq<nat>, e: nat): bool
  {
    if q == [] then false
    else
      var last := q[|q| - 1];
      Multiple(q[..|q| - 1], e) != (e >= last && Generator(e - last))
  }

  /** The coefficient of x^e in the message: the first bit belongs to the highest power. */
  predicate Message(bits: seq<bool>, e: int)
  {
    0 <= e < |bits| && bits[|bits| - 1 - e]
  }

  /** The message times x^32, with its first 32 bits complemented, and c, the lowest bit of which
      belongs to x^31, together are a multiple of the generator. */
  ghost predicate Congruent(bits: seq<bool>, c: nat)
  {
    exists q: seq<nat> :: Balances(bits, c, q)
  }

  ghost predicate Balances(bits: seq<bool>, c: nat, q: seq<nat>)
  {
    forall e: nat :: Multiple(q, e) == SumAt(bits, c, e)
  }

  predicate SumAt(bits: seq<bool>, c: nat, e: nat)
  {
    (Message(bits, e - 32) != (|bits| <= e < |bits| + 32)) != (e < 32 && Bit(c, 31 - e))
  }

  lemma {:induction false} XorBit(a: nat, b: nat, k: nat)
    ensures Bit(BitXor(a, b), k) == (Bit(a, k) != Bit(b, k))
    decreases k
  {
    hide BitXor;
    XorStep(a, b);
    if k != 0 {
      XorBit(a / 2, b / 2, k - 1);
    }
  }

  lemma {:induction false} NoHighBit(c: nat, n: nat)
    requires c < Pow2(n)
    ensures !Bit(c, n)
    decreases n
  {
    if n != 0 {
      NoHighBit(c / 2, n - 1);
    }
  }

  /** All powers one higher. */
  function Raised(q: seq<nat>): (r: seq<nat>)
    ensures |r| == |q| && forall i :: 0 <= i < |q| ==> r[i] == q[i] + 1
  {
    seq(|q|, i requires 0 <= i < |q| => q[i] + 1)
  }

  lemma {:induction false} RaisedMultiple(q: seq<nat>, e: nat)
    ensures Multiple(Raised(q), e) == (e >= 1 && Multiple(q, e - 1))
  {
    if q != [] {
      RaisedMultiple(q[..|q| - 1], e);
      assert Raised(q)[..|q| - 1] == Raised(q[..|q| - 1]);
    }
  }

  lemma MultipleMore(q: seq<nat>, e: nat)
    ensures Multiple(q + [0], e) == (Multiple(q, e) != Generator(e))
  {
    assert (q + [0])[..|q|] == q;
  }

  /** The bits of a number are those of its last hexadecimal digit and then of the others. */
  lemma DigitBits(c: nat, rest: nat, d: nat)
    requires c == 16 * rest + d && d < 16
    ensures Bit(c, 0) == (d % 2 == 1) && Bit(c, 1) == (d / 2 % 2 == 1) && Bit(c, 2) == (d / 4 % 2 == 1) && Bit(c, 3) == (d / 8 == 1)
    ensures forall k: nat :: k >= 4 ==> Bit(c, k) == Bit(rest, k - 4)
  {
    hide Bit;
    Quotients(c, rest, d);
    FewBits(c);
    forall k: nat | k >= 4 ensures Bit(c, k) == Bit(rest, k - 4) {
      Halve(c, k);
      Halve(c / 2, k - 1);
      Halve(c / 2 / 2, k - 2);
      Halve(c / 2 / 2 / 2, k - 3);
    }
  }

  lemma Quotients(c: nat, rest: nat, d: nat)
    requires c == 16 * rest + d && d < 16
    ensures c % 2 == d % 2 && c / 2 % 2 == d / 2 % 2 && c / 2 / 2 % 2 == d / 4 % 2 && c / 2 / 2 / 2 % 2 == d / 8
    ensures c / 2 / 2 / 2 / 2 == rest
  {
    assert c / 2 == 8 * rest + d / 2;
    assert c / 2 / 2 == 4 * rest + d / 4;
    assert c / 2 / 2 / 2 == 2 * rest + d / 8;
  }

  lemma FewBits(c: nat)
    ensures Bit(c, 0) == (c % 2 == 1) && Bit(c, 1) == (c / 2 % 2 == 1)
    ensures Bit(c, 2) == (c / 2 / 2 % 2 == 1) && Bit(c, 3) == (c / 2 / 2 / 2 % 2 == 1)
  {
    hide Bit;
    Halve(c, 0);
    Halve(c, 1);
    Halve(c / 2, 0);
    Halve(c, 2);
    Halve(c / 2, 1);
    Halve(c / 2 / 2, 0);
    Halve(c, 3);
    Halve(c / 2, 2);
    Halve(c / 2 / 2, 1);
    Halve(c / 2 / 2 / 2, 0);
  }

  lemma Halve(c: nat, k: nat)
    ensures Bit(c, k) == if k == 0 then c % 2 == 1 else Bit(c / 2, k - 1)
  {
  }

  /** The constant of the code is the generator without x^32, the highest power at the lowest bit. */
  lemma PolynomialBit(k: nat)
    requires k < 32
    ensures Bit(POLYNOMIAL, k) <==> Generator(31 - k)
  {
    hide Bit;
    DigitBits(0xedb88320, 0xedb8832, 0);
    DigitBits(0xedb8832, 0xedb883, 2);
    DigitBits(0xedb883, 0xedb88, 3);
    DigitBits(0xedb88, 0xedb8, 8);
    DigitBits(0xedb8, 0xedb, 8);
    DigitBits(0xedb, 0xed, 11);
    DigitBits(0xed, 0xe, 13);
    DigitBits(0xe, 0, 14);
  }

  /** One bit more: the remainder stays right. */
  lemma BitMore(bits: seq<bool>, c: nat, q: seq<nat>, b: bool) returns (r: seq<nat>)
    requires c <= ONES && Balances(bits, c, q)
    ensures Balances(bits + [b], DivideBit(c, b), r)
  {
    hide Bit, Multiple, BitXor;
    var odd := (c % 2 == 1) != b;
    r := if odd then Raised(q) + [0] else Raised(q);
    forall e: nat ensures Multiple(r, e) == SumAt(bits + [b], DivideBit(c, b), e) {
      RaisedMultiple(q, e);
      MultipleMore(Raised(q), e);
      if e >= 1 {
        assert Multiple(q, e - 1) == SumAt(bits, c, e - 1);
      }
      CoefficientMore(bits, c, b, e);
    }
  }

  lemma CoefficientMore(bits: seq<bool>, c: nat, b: bool, e: nat)
    requires c <= ONES
    ensures SumAt(bits + [b], DivideBit(c, b), e)
         == ((e >= 1 && SumAt(bits, c, e - 1)) != ((c % 2 == 1) != b && Generator(e)))
  {
    hide Bit, BitXor;
    var odd := (c % 2 == 1) != b;
    assert e != 32 ==> Message(bits + [b], e - 32) == Message(bits, e - 1 - 32);
    Halve(c, 0);
    if e < 32 {
      Halve(c, 32 - e);
      PolynomialBit(31 - e);
      XorBit(c / 2, POLYNOMIAL, 31 - e);
      if e == 0 {
        ThirtyTwo();
        NoHighBit(c, 32);
      }
    }
  }

  lemma {:induction false} DivideCongruent(bits: seq<bool>, n: nat)
    requires n <= |bits|
    ensures Divide(ONES, bits[..n]) <= ONES && Congruent(bits[..n], Divide(ONES, bits[..n]))
  {
    hide Divide, DivideBit, Multiple;
    if n == 0 {
      NoneDivided();
      assert bits[..0] == [];
    } else {
      DivideCongruent(bits, n - 1);
      var front, b := bits[..n - 1], bits[n - 1];
      assert bits[..n] == front + [b];
      var c := Divide(ONES, front);
      var q :| Balances(front, c, q);
      var r := BitMore(front, c, q, b);
      DivideConcat(ONES, front, [b]);
      DivideOne(c, b);
      DivideBelow(c, [b]);
    }
  }

  lemma DivideOne(c: nat, b: bool)
    ensures Divide(c, [b]) == DivideBit(c, b)
  {
    assert [b][1..] == [];
  }

  lemma {:induction false} OnesBit(n: nat, k: nat)
    requires k < n
    ensures Bit(Pow2(n) - 1, k)
    decreases n
  {
    if k != 0 {
      OnesBit(n - 1, k - 1);
      assert (Pow2(n) - 1) / 2 == Pow2(n - 1) - 1;
    }
  }

  lemma NoneDivided()
    ensures Divide(ONES, []) == ONES && Congruent([], ONES)
  {
    ThirtyTwo();
    forall e: nat ensures Multiple([], e) == SumAt([], ONES, e) {
      if e < 32 {
        OnesBit(32, 31 - e);
      }
    }
    assert Balances([], ONES, []);
  }

  /** The remainder that the checksum is the complement of is congruent to the message, and of a
      lower degree than the generator. */
  lemma RemainderLaw(d: seq<byte>)
    ensures 0 <= Remainder(d) <= ONES && Congruent(BytesToBits(d), Remainder(d))
  {
    var bits := BytesToBits(d);
    DivideCongruent(bits, |bits|);
    assert bits[..|bits|] == bits;
  }

  // ---------- the check value ----------

  /** The same division on bit vectors. */
  function StepBits(v: bv32, bit: bool): bv32
  {
    if Low(v) != bit then Xor(Down(v), 0xedb88320) else Down(v)
  }

  function Low(v: bv32): bool
  {
    v & 1 == 1
  }

  function Down(v: bv32): bv32
  {
    v >> 1
  }

  function Xor(v: bv32, w: bv32): bv32
  {
    v ^ w
  }

  function BitAt(v: bv32, k: nat): bool
    decreases k
  {
    if k == 0 then Low(v) else BitAt(Down(v), k - 1)
  }

  /** A number and a bit vector with the same n bits. */
  ghost predicate Agree(c: nat, v: bv32, n: nat)
  {
    forall k: nat :: k < n ==> Bit(c, k) == BitAt(v, k)
  }

  lemma XorDown(v: bv32, w: bv32)
    ensures Down(Xor(v, w)) == Xor(Down(v), Down(w))
    ensures Low(Xor(v, w)) == (Low(v) != Low(w))
  {
  }

  lemma {:induction false} BitAtXor(v: bv32, w: bv32, k: nat)
    ensures BitAt(Xor(v, w), k) == (BitAt(v, k) != BitAt(w, k))
    decreases k
  {
    hide Xor, Down, Low;
    XorDown(v, w);
    if k != 0 {
      BitAtXor(Down(v), Down(w), k - 1);
    }
  }

  /** A bit vector is its lowest bit and the others. */
  lemma AgreeBit(c: nat, v: bv32, rest: nat, w: bv32, n: nat)
    requires c / 2 == rest && Down(v) == w && (c % 2 == 1) == Low(v) && Agree(rest, w, n)
    ensures Agree(c, v, n + 1)
  {
    hide Down, Low;
    forall k: nat | k < n + 1 ensures Bit(c, k) == BitAt(v, k) {
      assert k >= 1 ==> Bit(rest, k - 1) == BitAt(w, k - 1);
    }
  }

  lemma Downs(v: bv32, w: bv32)
    requires v >> 4 == w
    ensures Down(Down(Down(Down(v)))) == w
    ensures Low(v) == (v & 1 == 1) && Low(Down(v)) == (v & 2 == 2)
    ensures Low(Down(Down(v))) == (v & 4 == 4) && Low(Down(Down(Down(v)))) == (v & 8 == 8)
  {
  }

  /** The four low bits of d and of v. */
  predicate SameDigit(d: nat, v: bv32)
  {
    (d % 2 == 1) == (v & 1 == 1) && (d / 2 % 2 == 1) == (v & 2 == 2)
    && (d / 4 % 2 == 1) == (v & 4 == 4) && (d / 8 == 1) == (v & 8 == 8)
  }

  /** They are their lowest hexadecimal digit and the others. */
  lemma AgreeDigit(c: nat, v: bv32, rest: nat, w: bv32, d: nat, n: nat)
    requires c == 16 * rest + d && d < 16 && v >> 4 == w && Agree(rest, w, n) && SameDigit(d, v)
    ensures Agree(c, v, n + 4)
  {
    hide Agree, Down, Low;
    Quotients(c, rest, d);
    Downs(v, w);
    AgreeBit(c / 2 / 2 / 2, Down(Down(Down(v))), rest, w, n);
    AgreeBit(c / 2 / 2, Down(Down(v)), c / 2 / 2 / 2, Down(Down(Down(v))), n + 1);
    AgreeBit(c / 2, Down(v), c / 2 / 2, Down(Down(v)), n + 2);
    AgreeBit(c, v, c / 2, Down(v), n + 3);
  }

  lemma NoBitsAgree(c: nat, v: bv32)
    ensures Agree(c, v, 0)
  {
  }

  lemma {:induction false} SameBits(a: nat, b: nat, n: nat)
    requires a < Pow2(n) && b < Pow2(n) && forall k: nat :: k < n ==> Bit(a, k) == Bit(b, k)
    ensures a == b
    decreases n
  {
    if n != 0 {
      forall k: nat | k < n - 1 ensures Bit(a / 2, k) == Bit(b / 2, k) {
        assert Bit(a, k + 1) == Bit(b, k + 1);
      }
      SameBits(a / 2, b / 2, n - 1);
      assert Bit(a, 0) == Bit(b, 0);
    }
  }

  lemma PolynomialAgrees()
    ensures Agree(POLYNOMIAL, 0xedb88320, 32)
  {
    hide Agree;
    NoBitsAgree(0, 0);
    AgreeDigit(0xe, 0xe, 0, 0, 14, 0);
    AgreeDigit(0xed, 0xed, 0xe, 0xe, 13, 4);
    AgreeDigit(0xedb, 0xedb, 0xed, 0xed, 11, 8);
    AgreeDigit(0xedb8, 0xedb8, 0xedb, 0xedb, 8, 12);
    AgreeDigit(0xedb88, 0xedb88, 0xedb8, 0xedb8, 8, 16);
    AgreeDigit(0xedb883, 0xedb883, 0xedb88, 0xedb88, 3, 20);
    AgreeDigit(0xedb8832, 0xedb8832, 0xedb883, 0xedb883, 2, 24);
    AgreeDigit(0xedb88320, 0xedb88320, 0xedb8832, 0xedb8832, 0, 28);
  }

  lemma ResultAgrees()
    ensures Agree(0x340bc6d9, 0x340bc6d9, 32)
  {
    hide Agree;
    NoBitsAgree(0, 0);
    AgreeDigit(0x3, 0x3, 0, 0, 3, 0);
    AgreeDigit(0x34, 0x34, 0x3, 0x3, 4, 4);
    AgreeDigit(0x340, 0x340, 0x34, 0x34, 0, 8);
    AgreeDigit(0x340b, 0x340b, 0x340, 0x340, 11, 12);
    AgreeDigit(0x340bc, 0x340bc, 0x340b, 0x340b, 12, 16);
    AgreeDigit(0x340bc6, 0x340bc6, 0x340bc, 0x340bc, 6, 20);
    AgreeDigit(0x340bc6d, 0x340bc6d, 0x340bc6, 0x340bc6, 13, 24);
    AgreeDigit(0x340bc6d9, 0x340bc6d9, 0x340bc6d, 0x340bc6d, 9, 28);
  }

  /** One step on both. */
  lemma StepAgrees(c: nat, v: bv32, bit: bool)
    requires c <= ONES && Agree(c, v, 32)
    ensures DivideBit(c, bit) <= ONES && Agree(DivideBit(c, bit), StepBits(v, bit), 32)
  {
    hide Bit, BitAt, BitXor, Down, Low, Xor;
    LowestAgree(c, v);
    PolynomialAgrees();
    ThirtyTwo();
    XorBelow(c / 2, POLYNOMIAL, 32);
    forall k: nat | k < 32 ensures Bit(DivideBit(c, bit), k) == BitAt(StepBits(v, bit), k) {
      DownAgrees(c, v, k);
      XorBit(c / 2, POLYNOMIAL, k);
      BitAtXor(Down(v), 0xedb88320, k);
    }
  }

  lemma LowestAgree(c: nat, v: bv32)
    requires Agree(c, v, 32)
    ensures (c % 2 == 1) == Low(v)
  {
    hide Down, Low;
    assert Bit(c, 0) == BitAt(v, 0);
  }

  lemma DownAgrees(c: nat, v: bv32, k: nat)
    requires c <= ONES && Agree(c, v, 32) && k < 32
    ensures Bit(c / 2, k) == BitAt(Down(v), k)
  {
    hide Down, Low;
    if k < 31 {
      assert Bit(c, k + 1) == BitAt(v, k + 1);
    } else {
      ThirtyTwo();
      NoHighBit(c, 32);
      NoHighBitAt(v);
      assert Bit(c, 32) == Bit(c / 2, 31) && BitAt(v, 32) == BitAt(Down(v), 31);
    }
  }

  /** Eight places down. */
  function Byte(v: bv32): bv32
  {
    v >> 8
  }

  lemma ByteDown(v: bv32)
    ensures Down(Down(Down(Down(Down(Down(Down(Down(v)))))))) == Byte(v)
  {
  }

  lemma AllDown(v: bv32)
    ensures !Low(Byte(Byte(Byte(Byte(v)))))
  {
  }

  lemma BitAtByte(v: bv32, k: nat)
    ensures BitAt(v, k + 8) == BitAt(Byte(v), k)
  {
    hide Down, Low, Byte;
    ByteDown(v);
    BitAtFour(v, k + 4);
    BitAtFour(Down(Down(Down(Down(v)))), k);
  }

  lemma BitAtFour(v: bv32, k: nat)
    ensures BitAt(v, k + 4) == BitAt(Down(Down(Down(Down(v)))), k)
  {
    hide Down, Low;
    assert BitAt(v, k + 4) == BitAt(Down(v), k + 3) == BitAt(Down(Down(v)), k + 2) == BitAt(Down(Down(Down(v))), k + 1);
  }

  lemma NoHighBitAt(v: bv32)
    ensures !BitAt(v, 32)
  {
    hide Down, Low, Byte;
    AllDown(v);
    BitAtByte(v, 24);
    BitAtByte(Byte(v), 16);
    BitAtByte(Byte(Byte(v)), 8);
    BitAtByte(Byte(Byte(Byte(v))), 0);
  }

  // ---------- the nine digits ----------

  function Run(v: bv32, bits: seq<bool>): bv32
    decreases |bits|
  {
    if bits == [] then v else Run(StepBits(v, bits[0]), bits[1..])
  }

  lemma {:induction false} RunAgrees(c: nat, v: bv32, bits: seq<bool>)
    requires c <= ONES && Agree(c, v, 32)
    ensures Divide(c, bits) <= ONES && Agree(Divide(c, bits), Run(v, bits), 32)
    decreases |bits|
  {
    hide Agree, DivideBit, StepBits;
    if bits != [] {
      StepAgrees(c, v, bits[0]);
      RunAgrees(DivideBit(c, bits[0]), StepBits(v, bits[0]), bits[1..]);
    }
  }

  /** The bits of a digit 0x30 + k after those of k. */
  function Eight(v: bv32, a: bool, b: bool, c: bool, d: bool): bv32
  {
    StepBits(StepBits(StepBits(StepBits(Four(v, a, b, c, d), true), true), false), false)
  }

  function Four(v: bv32, a: bool, b: bool, c: bool, d: bool): bv32
  {
    StepBits(StepBits(StepBits(StepBits(v, a), b), c), d)
  }

  lemma RunFour(v: bv32, a: bool, b: bool, c: bool, d: bool, rest: seq<bool>)
    ensures Run(v, [a, b, c, d] + rest) == Run(Four(v, a, b, c, d), rest)
  {
    hide StepBits, Run;
    assert [a, b, c, d] + rest == [a] + ([b] + ([c] + ([d] + rest)));
    RunOne(v, a, [b] + ([c] + ([d] + rest)));
    RunOne(StepBits(v, a), b, [c] + ([d] + rest));
    RunOne(StepBits(StepBits(v, a), b), c, [d] + rest);
    RunOne(StepBits(StepBits(StepBits(v, a), b), c), d, rest);
  }

  lemma RunOne(v: bv32, a: bool, rest: seq<bool>)
    ensures Run(v, [a] + rest) == Run(StepBits(v, a), rest)
  {
    hide StepBits;
    assert ([a] + rest)[1..] == rest;
  }

  lemma RunEight(v: bv32, a: bool, b: bool, c: bool, d: bool)
    ensures Run(v, [a, b, c, d, true, true, false, false]) == Eight(v, a, b, c, d)
  {
    hide StepBits, Run;
    var w := Four(v, a, b, c, d);
    RunFour(v, a, b, c, d, [true, true, false, false]);
    assert [a, b, c, d, true, true, false, false] == [a, b, c, d] + [true, true, false, false];
    RunFour(w, true, true, false, false, []);
    assert [true, true, false, false] + [] == [true, true, false, false];
    RunNone(Four(w, true, true, false, false));
  }

  lemma RunNone(v: bv32)
    ensures Run(v, []) == v
  {
  }

  function Number(a: bool, b: bool, c: bool, d: bool): nat
  {
    (if a then 1 else 0) + (if b then 2 else 0) + (if c then 4 else 0) + if d then 8 else 0
  }

  lemma DigitText(a: bool, b: bool, c: bool, d: bool)
    ensures LsbBits(0x30 + Number(a, b, c, d), 8) == [a, b, c, d, true, true, false, false]
  {
    hide LsbBits, Number;
    NumberParts(a, b, c, d);
    LowFour(0x30 + Number(a, b, c, d));
    LowFour(3);
    assert LsbBits(3, 4) == [true, true, false, false];
  }

  lemma NumberParts(a: bool, b: bool, c: bool, d: bool)
    ensures var k := 0x30 + Number(a, b, c, d);
      k % 2 == (if a then 1 else 0) && k / 2 % 2 == (if b then 1 else 0) && k / 2 / 2 % 2 == (if c then 1 else 0)
      && k / 2 / 2 / 2 % 2 == (if d then 1 else 0) && k / 2 / 2 / 2 / 2 == 3
  {
  }

  lemma LowFour(k: nat)
    ensures LsbBits(k, 8) == [k % 2 == 1, k / 2 % 2 == 1, k / 2 / 2 % 2 == 1, k / 2 / 2 / 2 % 2 == 1] + LsbBits(k / 2 / 2 / 2 / 2, 4)
    ensures LsbBits(k, 4) == [k % 2 == 1, k / 2 % 2 == 1, k / 2 / 2 % 2 == 1, k / 2 / 2 / 2 % 2 == 1]
  {
    hide LsbBits;
    LowFourOf(k, 8);
    LowFourOf(k, 4);
    LowNone(k / 2 / 2 / 2 / 2);
  }

  lemma LowFourOf(k: nat, n: nat)
    requires n >= 4
    ensures LsbBits(k, n) == [k % 2 == 1, k / 2 % 2 == 1, k / 2 / 2 % 2 == 1, k / 2 / 2 / 2 % 2 == 1] + LsbBits(k / 2 / 2 / 2 / 2, n - 4)
  {
    hide LsbBits;
    LowOne(k, n);
    LowOne(k / 2, n - 1);
    LowOne(k / 2 / 2, n - 2);
    LowOne(k / 2 / 2 / 2, n - 3);
  }

  lemma LowOne(k: nat, n: nat)
    requires n >= 1
    ensures LsbBits(k, n) == [k % 2 == 1] + LsbBits(k / 2, n - 1)
  {
  }

  lemma LowNone(k: nat)
    ensures LsbBits(k, 0) == []
  {
  }

  /** One digit more of the text. */
  lemma DigitMore(text: seq<byte>, n: nat, k: nat, v: bv32, w: bv32, a: bool, b: bool, c: bool, d: bool)
    requires n < |text| && text[n] as int == 0x30 + k && k == Number(a, b, c, d)
    requires Remainder(text[..n]) <= ONES && Agree(Remainder(text[..n]), v, 32) && Eight(v, a, b, c, d) == w
    ensures Remainder(text[..n + 1]) <= ONES && Agree(Remainder(text[..n + 1]), w, 32)
  {
    hide Agree, Eight, Run, LsbBits, Divide;
    OneByteMore(ONES, text, n);
    DigitText(a, b, c, d);
    RunAgrees(Remainder(text[..n]), v, LsbBits(0x30 + k, 8));
    RunEight(v, a, b, c, d);
  }

  lemma OnesAgree()
    ensures Agree(ONES, 0xffff_ffff, 32)
  {
    hide Agree;
    NoBitsAgree(0, 0);
    AgreeDigit(0xf, 0xf, 0, 0, 15, 0);
    AgreeDigit(0xff, 0xff, 0xf, 0xf, 15, 4);
    AgreeDigit(0xfff, 0xfff, 0xff, 0xff, 15, 8);
    AgreeDigit(0xffff, 0xffff, 0xfff, 0xfff, 15, 12);
    AgreeDigit(0xfffff, 0xfffff, 0xffff, 0xffff, 15, 16);
    AgreeDigit(0xffffff, 0xffffff, 0xfffff, 0xfffff, 15, 20);
    AgreeDigit(0xfffffff, 0xfffffff, 0xffffff, 0xffffff, 15, 24);
    AgreeDigit(0xffffffff, 0xffffffff, 0xfffffff, 0xfffffff, 15, 28);
  }

  lemma Step1()
    ensures Eight(0xffffffff, true, false, false, false) == 0x7c231048
  {
  }

  lemma Step2()
    ensures Eight(0x7c231048, false, true, false, false) == 0xb0acbb32
  {
  }

  lemma Step3()
    ensures Eight(0xb0acbb32, true, true, false, false) == 0x77b79c2d
  {
  }

  lemma Step4()
    ensures Eight(0x77b79c2d, false, false, true, false) == 0x641c1f5c
  {
  }

  lemma Step5()
    ensures Eight(0x641c1f5c, true, false, true, false) == 0x340ac5e3
  {
  }

  lemma Step6()
    ensures Eight(0x340ac5e3, false, true, true, false) == 0xf68d2c9e
  {
  }

  lemma Step7()
    ensures Eight(0xf68d2c9e, true, true, true, false) == 0xaffc9660
  {
  }

  lemma Step8()
    ensures Eight(0xaffc9660, false, false, false, true) == 0x651f2550
  {
  }

  lemma Step9()
    ensures Eight(0x651f2550, true, false, false, true) == 0x340bc6d9
  {
  }

  /** The check value of the standard: that of the nine digits 1 to 9. */
  lemma CheckValue(d: seq<byte>)
    requires d == [0x31, 0x32, 0x33, 0x34, 0x35, 0x36, 0x37, 0x38, 0x39]
    ensures Checksum(d) == 0xcbf43926
  {
    hide Agree, Eight, Remainder;
    NoDigits(d);
    Step1();
    DigitMore(d, 0, 1, 0xffffffff, 0x7c231048, true, false, false, false);
    Step2();
    DigitMore(d, 1, 2, 0x7c231048, 0xb0acbb32, false, true, false, false);
    Step3();
    DigitMore(d, 2, 3, 0xb0acbb32, 0x77b79c2d, true, true, false, false);
    Step4();
    DigitMore(d, 3, 4, 0x77b79c2d, 0x641c1f5c, false, false, true, false);
    Step5();
    DigitMore(d, 4, 5, 0x641c1f5c, 0x340ac5e3, true, false, true, false);
    Step6();
    DigitMore(d, 5, 6, 0x340ac5e3, 0xf68d2c9e, false, true, true, false);
    Step7();
    DigitMore(d, 6, 7, 0xf68d2c9e, 0xaffc9660, true, true, true, false);
    Step8();
    DigitMore(d, 7, 8, 0xaffc9660, 0x651f2550, false, false, false, true);
    Step9();
    DigitMore(d, 8, 9, 0x651f2550, 0x340bc6d9, true, false, false, true);
    assert d[..9] == d;
    SameAsResult(Remainder(d));
  }

  lemma NoDigits(d: seq<byte>)
    ensures Remainder(d[..0]) <= ONES && Agree(Remainder(d[..0]), 0xffff_ffff, 32)
  {
    hide Agree;
    NoData(ONES, d);
    OnesAgree();
  }

  lemma SameAsResult(c: nat)
    requires c <= ONES && Agree(c, 0x340bc6d9, 32)
    ensures c == 0x340bc6d9
  {
    hide Bit, BitAt;
    ResultAgrees();
    ThirtyTwo();
    SameBits(c, 0x340bc6d9, 32);
  }
}
