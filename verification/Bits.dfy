/** Bit strings, as the DEFLATE format packs them: every number is sent least
    significant bit first, except Huffman codes, which start from the most
    significant bit (section 3.1.1 of RFC 1951). */
module Bits {

  type byte = x: int | 0 <= x < 256
  type ush = x: int | 0 <= x < 0x10000

  function Pow2(n: nat): (p: nat)
    ensures p >= 1
  {
    if n == 0 then 1 else 2 * Pow2(n - 1)
  }

  lemma {:induction false} Pow2Add(a: nat, b: nat)
    ensures Pow2(a + b) == Pow2(a) * Pow2(b)
  {
    if a != 0 {
      Pow2Add(a - 1, b);
      assert Pow2(a + b) == 2 * Pow2(a - 1 + b);
      assert 2 * (Pow2(a - 1) * Pow2(b)) == (2 * Pow2(a - 1)) * Pow2(b);
    }
  }

  lemma {:induction false} Pow2Monotone(a: nat, b: nat)
    requires a <= b
    ensures Pow2(a) <= Pow2(b)
    decreases b - a
  {
    if a < b {
      Pow2Monotone(a, b - 1);
    }
  }

  lemma MulSum(a: int, b: int, d: int)
    ensures (a + b) * d == a * d + b * d
  {
  }

  lemma Pow2Values()
    ensures Pow2(1) == 2 && Pow2(2) == 4 && Pow2(3) == 8 && Pow2(4) == 16 && Pow2(5) == 32
    ensures Pow2(6) == 64 && Pow2(7) == 128 && Pow2(8) == 256
    ensures Pow2(9) == 512 && Pow2(10) == 1024 && Pow2(11) == 2048
    ensures Pow2(12) == 4096 && Pow2(13) == 8192 && Pow2(14) == 16384
    ensures Pow2(15) == 32768 && Pow2(16) == 65536
  {
    assert Pow2(4) == 16;
    assert Pow2(8) == 256;
    assert Pow2(12) == 4096;
  }

  /** The n low bits of v, least significant first. */
  function LsbBits(v: nat, n: nat): (b: seq<bool>)
    ensures |b| == n
  {
    if n == 0 then [] else [v % 2 == 1] + LsbBits(v / 2, n - 1)
  }

  /** The n low bits of v, most significant first. */
  function MsbBits(v: nat, n: nat): (b: seq<bool>)
    ensures |b| == n
  {
    if n == 0 then [] else MsbBits(v / 2, n - 1) + [v % 2 == 1]
  }

  /** The number that a bit string sent least significant bit first stands for. */
  function BitsValue(b: seq<bool>): nat
  {
    if b == [] then 0 else (if b[0] then 1 else 0) + 2 * BitsValue(b[1..])
  }

  lemma {:induction false} ValueOfLsbBits(v: nat, n: nat)
    requires v < Pow2(n)
    ensures BitsValue(LsbBits(v, n)) == v
  {
    if n != 0 {
      ValueOfLsbBits(v / 2, n - 1);
      assert LsbBits(v, n)[1..] == LsbBits(v / 2, n - 1);
    }
  }

  lemma MulPow2(w: nat, n: nat)
    requires n >= 1
    ensures Pow2(n) == 2 * Pow2(n - 1) && w * Pow2(n) == 2 * (w * Pow2(n - 1))
  {
    assert w * (2 * Pow2(n - 1)) == 2 * (w * Pow2(n - 1));
  }

  lemma HalfSum(v: nat, x: nat)
    ensures (v + 2 * x) / 2 == v / 2 + x && (v + 2 * x) % 2 == v % 2
  {
  }

  lemma {:induction false} LsbBitsConcat(v: nat, n: nat, w: nat, m: nat)
    requires v < Pow2(n)
    ensures LsbBits(v + w * Pow2(n), n + m) == LsbBits(v, n) + LsbBits(w, m)
  {
    if n != 0 {
      MulPow2(w, n);
      hide Pow2;
      LsbBitsConcat(v / 2, n - 1, w, m);
      HalfSum(v, w * Pow2(n - 1));
    }
  }

  /** v shifted right by n bits. */
  function Shr(v: nat, n: nat): nat
  {
    if n == 0 then v else Shr(v / 2, n - 1)
  }

  lemma {:induction false} ShrBound(v: nat, n: nat, m: nat)
    requires v < Pow2(n + m)
    ensures Shr(v, n) < Pow2(m)
  {
    if n != 0 {
      assert Pow2(n + m) == 2 * Pow2(n - 1 + m);
      ShrBound(v / 2, n - 1, m);
    }
  }

  /** v shifted left by n bits. */
  function Shl(v: nat, n: nat): nat
  {
    v * Pow2(n)
  }

  /** What is shifted out is less than one unit of what stays. */
  lemma {:induction false} ShrParts(v: nat, n: nat)
    ensures Shr(v, n) * Pow2(n) <= v < Shr(v, n) * Pow2(n) + Pow2(n)
  {
    if n != 0 {
      ShrParts(v / 2, n - 1);
      var q, d := Shr(v, n), Pow2(n - 1);
      assert q * (2 * d) == 2 * (q * d);
      assert q * d <= v / 2 < q * d + d;
    }
  }

  lemma {:induction false} LsbBitsSplit(v: nat, n: nat, m: nat)
    ensures LsbBits(v, n + m) == LsbBits(v, n) + LsbBits(Shr(v, n), m)
  {
    if n != 0 {
      LsbBitsSplit(v / 2, n - 1, m);
    }
  }

  /** Only the low n bits matter. */
  lemma {:induction false} LsbBitsMod(v: nat, n: nat)
    ensures LsbBits(v % Pow2(n), n) == LsbBits(v, n)
  {
    var d := Pow2(n);
    var q, r := v / d, v % d;
    DivModParts(v, d);
    LsbBitsConcat(r, n, q, 0);
    assert LsbBits(q, 0) == [];
  }

  lemma DivModParts(v: nat, d: nat)
    requires d > 0
    ensures v == v % d + v / d * d
    ensures 0 <= v % d < d && v / d >= 0
  {
  }

  lemma MulStep(x: nat, y: nat, d: nat)
    ensures x < y ==> x * d + d <= y * d
  {
    if x < y {
      assert (x + 1) * d <= y * d;
    }
  }

  lemma ModUnique(a: nat, d: nat, q: nat, r: nat)
    requires d > 0 && a == q * d + r && r < d
    ensures a % d == r
  {
    DivModParts(a, d);
    MulStep(q, a / d, d);
    MulStep(a / d, q, d);
  }

  /** Different n-bit numbers have different bit strings. */
  lemma {:induction false} MsbBitsInjective(v: nat, w: nat, n: nat)
    requires v < Pow2(n) && w < Pow2(n)
    requires MsbBits(v, n) == MsbBits(w, n)
    ensures v == w
  {
    if n != 0 {
      var a, b := MsbBits(v, n), MsbBits(w, n);
      assert a[..n - 1] == MsbBits(v / 2, n - 1) && b[..n - 1] == MsbBits(w / 2, n - 1);
      assert a[n - 1] == (v % 2 == 1) && b[n - 1] == (w % 2 == 1);
      MsbBitsInjective(v / 2, w / 2, n - 1);
    }
  }

  /** The first m of n bits, most significant first, are the number shifted right. */
  lemma {:induction false} MsbBitsPrefix(v: nat, m: nat, n: nat)
    requires m <= n
    ensures MsbBits(v, n)[..m] == MsbBits(Shr(v, n - m), m)
    decreases n
  {
    if m < n {
      MsbBitsPrefix(v / 2, m, n - 1);
      assert MsbBits(v, n)[..m] == MsbBits(v / 2, n - 1)[..m];
    } else {
      assert MsbBits(v, n)[..m] == MsbBits(v, n);
    }
  }

  /** The bits of a byte string. */
  function BytesToBits(bs: seq<byte>): (b: seq<bool>)
    ensures |b| == 8 * |bs|
  {
    if bs == [] then [] else LsbBits(bs[0], 8) + BytesToBits(bs[1..])
  }

  lemma {:induction false} BytesToBitsConcat(a: seq<byte>, b: seq<byte>)
    ensures BytesToBits(a + b) == BytesToBits(a) + BytesToBits(b)
  {
    if a == [] {
      assert a + b == b;
    } else {
      assert (a + b)[1..] == a[1..] + b;
      BytesToBitsConcat(a[1..], b);
    }
  }

  lemma BytesToBitsOne(x: byte)
    ensures BytesToBits([x]) == LsbBits(x, 8)
  {
    assert [x][1..] == [];
  }

  /** Bitwise or of two numbers. */
  function BitOr(a: nat, b: nat): nat
  {
    if a == 0 then b
    else if b == 0 then a
    else (if a % 2 == 1 || b % 2 == 1 then 1 else 0) + 2 * BitOr(a / 2, b / 2)
  }

  /** Where the operands share no bit, or is addition. */
  lemma {:induction false} BitOrDisjoint(a: nat, n: nat, w: nat)
    requires a < Pow2(n)
    ensures BitOr(a, w * Pow2(n)) == a + w * Pow2(n)
  {
    if n != 0 && a != 0 && w * Pow2(n) != 0 {
      var x := w * Pow2(n - 1);
      assert w * Pow2(n) == 2 * x by {
        assert w * (2 * Pow2(n - 1)) == 2 * (w * Pow2(n - 1));
      }
      BitOrDisjoint(a / 2, n - 1, w);
      assert (2 * x) / 2 == x;
    }
  }

  /** The bits e stand in the stream s from position p on. */
  ghost predicate At(s: seq<bool>, p: nat, e: seq<bool>)
  {
    p + |e| <= |s| && s[p..p + |e|] == e
  }

  lemma AtConcat(s: seq<bool>, p: nat, a: seq<bool>, b: seq<bool>)
    ensures At(s, p, a + b) <==> At(s, p, a) && At(s, p + |a|, b)
  {
    if At(s, p, a + b) {
      assert s[p..p + |a|] == (a + b)[..|a|] == a;
      assert s[p + |a|..p + |a| + |b|] == (a + b)[|a|..] == b;
    }
    if At(s, p, a) && At(s, p + |a|, b) {
      assert s[p..p + |a + b|] == s[p..p + |a|] + s[p + |a|..p + |a| + |b|];
    }
  }

  /** A part of what stands at p stands where it should. */
  lemma AtPart(s: seq<bool>, p: nat, e: seq<bool>, i: nat, j: nat)
    requires At(s, p, e) && i <= j <= |e|
    ensures At(s, p + i, e[i..j])
  {
    assert e == e[..i] + e[i..j] + e[j..];
    AtConcat(s, p, e[..i] + e[i..j], e[j..]);
    AtConcat(s, p, e[..i], e[i..j]);
  }

  // ---------- 32 bits ----------

  const UINT_RANGE: nat := 0x1_0000_0000

  /** What is left of a number in an unsigned 32 bit variable. */
  function UInt(x: nat): (r: nat)
    ensures r < UINT_RANGE && (x < UINT_RANGE ==> r == x)
  {
    x % UINT_RANGE
  }

  lemma UIntAdd(x: nat, y: nat)
    ensures UInt(UInt(x) + y) == UInt(x + y)
  {
  }

  /** Rounding down to whole bytes may come before or after. */
  lemma UIntBytes(x: nat)
    ensures UInt(x) / 8 * 8 == UInt(x / 8 * 8) && UInt(x) / 8 == UInt(x / 8 * 8) / 8
  {
    var q, b, r := x / UINT_RANGE, x % UINT_RANGE / 8, x % 8;
    assert x == q * UINT_RANGE + 8 * b + r;
    assert x / 8 * 8 == q * UINT_RANGE + 8 * b;
    assert UInt(x) == 8 * b + r && UInt(x / 8 * 8) == 8 * b;
  }
}
