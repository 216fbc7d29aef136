/** lzo_adler32: the Adler-32 checksum of section 2.2 of RFC 1950, with the modulo
    operation put off as long as 32 bits allow. */
module Adler32 {
  import opened Bits

  const LZO_BASE: nat := 65521
  const LZO_NMAX: nat := 5552

  /** The sum of all bytes, from a on. */
  function ByteSum(a: nat, d: seq<byte>): nat
  {
    if d == [] then a else ByteSum(a, d[..|d| - 1]) + d[|d| - 1]
  }

  /** The sum of all values that the first sum takes, from b on. */
  function SumSum(a: nat, b: nat, d: seq<byte>): nat
  {
    if d == [] then b else SumSum(a, b, d[..|d| - 1]) + ByteSum(a, d)
  }

  /** Both sums, reduced after every byte. */
  function PerByte(a: nat, b: nat, d: seq<byte>): (r: (nat, nat))
  {
    if d == [] then (a, b)
    else
      var (x, y) := PerByte(a, b, d[..|d| - 1]);
      var x' := (x + d[|d| - 1]) % LZO_BASE;
      (x', (y + x') % LZO_BASE)
  }

  /** The checksum of d, continuing one of what came before. */
  function Adler(adler: nat, d: seq<byte>): (r: nat)
    requires adler < UINT_RANGE
    ensures r < UINT_RANGE
  {
    PerByteSmall(adler % 0x10000, adler / 0x10000, d);
    var (x, y) := PerByte(adler % 0x10000, adler / 0x10000, d);
    y * 0x10000 + x
  }

  lemma PerByteSmall(a: nat, b: nat, d: seq<byte>)
    requires a < 0x10000 && b < 0x10000
    ensures PerByte(a, b, d).0 < 0x10000 && PerByte(a, b, d).1 < 0x10000
  {
  }

  /** Congruent numbers stay so when something is added. */
  lemma AddCongruent(x: nat, y: nat, u: nat, v: nat, m: nat)
    requires m > 0 && x % m == y % m && u % m == v % m
    ensures (x + u) % m == (y + v) % m
  {
    DivModParts(x, m);
    DivModParts(y, m);
    DivModParts(u, m);
    DivModParts(v, m);
    var r := x % m + u % m;
    Multiple(r, x / m + u / m, m);
    Multiple(r, y / m + v / m, m);
    MulSum(x / m, u / m, m);
    MulSum(y / m, v / m, m);
  }

  lemma Multiple(r: nat, q: nat, m: nat)
    requires m > 0
    ensures (r + q * m) % m == r % m
  {
    DivModParts(r, m);
    MulSum(r / m, q, m);
    ModUnique(r + q * m, m, r / m + q, r % m);
  }

  lemma ModTwice(x: nat)
    ensures x % LZO_BASE % LZO_BASE == x % LZO_BASE
  {
  }

  /** Reducing after every byte is reducing the whole sums. */
  lemma {:induction false} PerByteIsSums(a: nat, b: nat, d: seq<byte>)
    ensures PerByte(a, b, d).0 % LZO_BASE == ByteSum(a, d) % LZO_BASE
    ensures PerByte(a, b, d).1 % LZO_BASE == SumSum(a, b, d) % LZO_BASE
    ensures d != [] ==> PerByte(a, b, d) == (ByteSum(a, d) % LZO_BASE, SumSum(a, b, d) % LZO_BASE)
  {
    if d != [] {
      var front, c := d[..|d| - 1], d[|d| - 1];
      PerByteIsSums(a, b, front);
      var (x, y) := PerByte(a, b, front);
      AddCongruent(x, ByteSum(a, front), c, c, LZO_BASE);
      var x' := (x + c) % LZO_BASE;
      ModTwice(x + c);
      AddCongruent(y, SumSum(a, b, front), x', ByteSum(a, d), LZO_BASE);
      ModTwice(y + x');
    }
  }

  lemma {:induction false} PerByteConcat(a: nat, b: nat, x: seq<byte>, y: seq<byte>)
    ensures PerByte(a, b, x + y) == PerByte(PerByte(a, b, x).0, PerByte(a, b, x).1, y)
  {
    if y == [] {
      assert x + y == x;
    } else {
      assert (x + y)[..|x + y| - 1] == x + y[..|y| - 1];
      PerByteConcat(a, b, x, y[..|y| - 1]);
    }
  }

  lemma Unpack(x: nat, y: nat)
    requires x < 0x10000
    ensures (y * 0x10000 + x) % 0x10000 == x && (y * 0x10000 + x) / 0x10000 == y
  {
  }

  /** Checksumming pieces in turn is checksumming the whole. */
  lemma Pieces(adler: nat, x: seq<byte>, y: seq<byte>)
    requires adler < UINT_RANGE
    ensures Adler(Adler(adler, x), y) == Adler(adler, x + y)
  {
    hide PerByte;
    var a, b := adler % 0x10000, adler / 0x10000;
    PerByteSmall(a, b, x);
    PerByteConcat(a, b, x, y);
    var (s1, s2) := PerByte(a, b, x);
    Unpack(s1, s2);
  }

  /** Twice the largest second sum after n bytes without a reduction. */
  function Largest(n: nat): nat
  {
    2 * 0xffff * (n + 1) + 255 * (n * (n + 1))
  }

  /** With at most n bytes since the last reduction, both sums fit 32 bits. */
  lemma NoOverflow(n: nat, s1: nat, s2: nat)
    requires n <= LZO_NMAX && s1 <= 0xffff + 255 * n && 2 * s2 <= Largest(n)
    ensures s1 < UINT_RANGE && s2 < UINT_RANGE
  {
    assert n * (n + 1) <= LZO_NMAX * (LZO_NMAX + 1) by {
      Squares(n, LZO_NMAX);
    }
  }

  lemma Squares(n: nat, m: nat)
    requires n <= m
    ensures n * (n + 1) <= m * (m + 1)
  {
    assert n * (n + 1) <= m * (n + 1) <= m * (m + 1);
  }

  /** The bounds of NoOverflow, one byte on. */
  lemma OneMore(n: nat, s1: nat, s2: nat, c: byte)
    requires s1 <= 0xffff + 255 * n && 2 * s2 <= Largest(n)
    ensures s1 + c <= 0xffff + 255 * (n + 1)
    ensures 2 * (s2 + (s1 + c)) <= Largest(n + 1)
  {
    assert (n + 1) * (n + 2) == n * (n + 1) + 2 * (n + 1);
  }

  lemma StartSmall()
    ensures Largest(0) == 2 * 0xffff
  {
  }

  lemma NextSums(a: nat, b: nat, d: seq<byte>, k: nat)
    requires k < |d|
    ensures ByteSum(a, d[..k + 1]) == ByteSum(a, d[..k]) + d[k]
    ensures SumSum(a, b, d[..k + 1]) == SumSum(a, b, d[..k]) + ByteSum(a, d[..k + 1])
  {
    assert d[..k + 1][..k] == d[..k];
  }

  /** s1 and s2 are the sums over d, but for multiples of LZO_BASE. */
  ghost predicate SumsOf(a: nat, b: nat, d: seq<byte>, s1: nat, s2: nat)
  {
    s1 % LZO_BASE == ByteSum(a, d) % LZO_BASE && s2 % LZO_BASE == SumSum(a, b, d) % LZO_BASE
  }

  lemma ByteAdded(a: nat, b: nat, d: seq<byte>, k: nat, s1: nat, s2: nat)
    requires k < |d| && SumsOf(a, b, d[..k], s1, s2)
    ensures SumsOf(a, b, d[..k + 1], s1 + d[k], s2 + (s1 + d[k]))
  {
    hide ByteSum, SumSum;
    NextSums(a, b, d, k);
    AddCongruent(s1, ByteSum(a, d[..k]), d[k], d[k], LZO_BASE);
    AddCongruent(s2, SumSum(a, b, d[..k]), s1 + d[k], ByteSum(a, d[..k + 1]), LZO_BASE);
  }

  /** The inner loop: k bytes without a reduction; the additions are those of uint32_t. */
  method AddBytes(buf: array<byte>, at: nat, k0: nat, t1: nat, t2: nat, ghost a: nat, ghost b: nat) returns (s1: nat, s2: nat)
    requires 1 <= k0 <= LZO_NMAX && at + k0 <= buf.Length && t1 <= 0xffff && t2 <= 0xffff
    requires SumsOf(a, b, buf[..at], t1, t2)
    ensures SumsOf(a, b, buf[..at + k0], s1, s2)
  {
    hide SumsOf, Largest, UInt;
    StartSmall();
    s1, s2 := t1, t2;
    var k, p := k0, at;
    while true
      invariant 1 <= k <= k0 && p + k == at + k0
      invariant s1 <= 0xffff + 255 * (p - at) && 2 * s2 <= Largest(p - at)
      invariant SumsOf(a, b, buf[..p], s1, s2)
      decreases k
    {
      OneMore(p - at, s1, s2, buf[p]);
      NoOverflow(p - at + 1, s1 + buf[p], s2 + (s1 + buf[p]));
      assert buf[..][..p] == buf[..p] && buf[..][..p + 1] == buf[..p + 1];
      ByteAdded(a, b, buf[..], p, s1, s2);
      s1 := UInt(s1 + buf[p]);
      s2 := UInt(s2 + s1);
      p := p + 1;
      k := k - 1;
      if k == 0 {
        break;
      }
    }
  }

  /** The checksum of the first len bytes of buf, if there is one. */
  method LzoAdler32(adler: nat, buf: array?<byte>, len0: nat) returns (r: nat)
    requires adler < UINT_RANGE && (buf != null ==> len0 <= buf.Length)
    ensures buf == null ==> r == 1
    ensures buf != null ==> r == Adler(adler, buf[..len0])
  {
    hide ByteSum, SumSum, PerByte;
    var s1: nat := adler % 0x10000;
    var s2: nat := adler / 0x10000;
    ghost var a, b := s1, s2;
    if buf == null {
      return 1;
    }
    var len: nat, p: nat := len0, 0;
    NoSums(a, b);
    assert buf[..0] == [];
    while len > 0
      invariant p + len == len0 && s1 <= 0xffff && s2 <= 0xffff
      invariant p == 0 ==> s1 == a && s2 == b
      invariant p > 0 ==> s1 < LZO_BASE && s2 < LZO_BASE
      invariant SumsOf(a, b, buf[..p], s1, s2)
    {
      var k := if len < LZO_NMAX then len else LZO_NMAX;
      len := len - k;
      s1, s2 := AddBytes(buf, p, k, s1, s2, a, b);
      p := p + k;
      s1 := s1 % LZO_BASE;
      s2 := s2 % LZO_BASE;
    }
    PerByteIsSums(a, b, buf[..len0]);
    r := s2 * 0x10000 + s1;
  }

  lemma NoSums(a: nat, b: nat)
    ensures ByteSum(a, []) == a && SumSum(a, b, []) == b && PerByte(a, b, []) == (a, b)
  {
  }
}
