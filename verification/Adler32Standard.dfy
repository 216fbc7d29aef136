/** The constants of lzo_adler32, and the checksum as section 8.2 of RFC 1950 defines it. */
module Adler32Standard {
  import opened Bits
  import opened DoubleHashing
  import opened Adler32

  lemma UpperTrial()
    ensures NoneDivides(65521, 130, 257)
  {
    hide NoneDivides;
    NoneLeft(65521, 257);
    Four(65521, 254, 257); Four(65521, 250, 257); Four(65521, 246, 257); Four(65521, 242, 257);
    Four(65521, 238, 257); Four(65521, 234, 257); Four(65521, 230, 257); Four(65521, 226, 257);
    Four(65521, 222, 257); Four(65521, 218, 257); Four(65521, 214, 257); Four(65521, 210, 257);
    Four(65521, 206, 257); Four(65521, 202, 257); Four(65521, 198, 257); Four(65521, 194, 257);
    Four(65521, 190, 257); Four(65521, 186, 257); Four(65521, 182, 257); Four(65521, 178, 257);
    Four(65521, 174, 257); Four(65521, 170, 257); Four(65521, 166, 257); Four(65521, 162, 257);
    Four(65521, 158, 257); Four(65521, 154, 257); Four(65521, 150, 257); Four(65521, 146, 257);
    Four(65521, 142, 257); Four(65521, 138, 257); Four(65521, 134, 257); Four(65521, 130, 257);
  }

  lemma MiddleTrial()
    ensures NoneDivides(65521, 66, 257)
  {
    hide NoneDivides;
    UpperTrial();
    Four(65521, 126, 257); Four(65521, 122, 257); Four(65521, 118, 257); Four(65521, 114, 257);
    Four(65521, 110, 257); Four(65521, 106, 257); Four(65521, 102, 257); Four(65521, 98, 257);
    Four(65521, 94, 257); Four(65521, 90, 257); Four(65521, 86, 257); Four(65521, 82, 257);
    Four(65521, 78, 257); Four(65521, 74, 257); Four(65521, 70, 257); Four(65521, 66, 257);
  }

  lemma BaseTrial()
    ensures NoneDivides(65521, 2, 257)
  {
    hide NoneDivides;
    MiddleTrial();
    Four(65521, 62, 257); Four(65521, 58, 257); Four(65521, 54, 257); Four(65521, 50, 257);
    Four(65521, 46, 257); Four(65521, 42, 257); Four(65521, 38, 257); Four(65521, 34, 257);
    Four(65521, 30, 257); Four(65521, 26, 257); Four(65521, 22, 257); Four(65521, 18, 257);
    Four(65521, 14, 257); Four(65521, 10, 257); Four(65521, 6, 257); Four(65521, 2, 257);
  }

  lemma Composite(p: nat, d: nat, c: nat)
    requires 2 <= d < p && p == c * d
    ensures !Prime(p)
  {
    DoubleHashing.Multiple(c, d);
    assert Divides(d, p);
  }

  /** LZO_BASE is the largest prime that sixteen bits hold. */
  lemma BaseIsLargestPrime(p: nat)
    requires LZO_BASE <= p < 0x10000
    ensures Prime(p) <==> p == LZO_BASE
  {
    hide Prime;
    if p == 65521 {
      BaseTrial();
      UpToTheRoot(65521, 257);
    } else if p % 2 == 0 {
      Composite(p, 2, p / 2);
    } else if p % 3 == 0 {
      Composite(p, 3, p / 3);
    } else {
      assert p in {65525, 65527, 65531, 65533};
      Composite(65525, 5, 13105);
      Composite(65527, 7, 9361);
      Composite(65531, 19, 3449);
      Composite(65533, 13, 5041);
    }
  }

  /** The second sum after n bytes of 255, from the largest reduced values on. */
  function Worst(n: nat): nat
  {
    255 * (n * (n + 1)) / 2 + (n + 1) * 65520
  }

  /** LZO_NMAX is the largest number of bytes for which 32 bits hold it. */
  lemma NmaxIsLargest(n: nat)
    ensures n <= LZO_NMAX <==> Worst(n) <= 0xffff_ffff
  {
    if n <= 5552 {
      Squares(n, 5552);
      assert Worst(n) <= Worst(5552);
    } else {
      Squares(5553, n);
      assert Worst(5553) <= Worst(n);
    }
  }

  /** The bytes added up, and each as often as there are bytes from it on. */
  function Total(d: seq<byte>): nat
  {
    if d == [] then 0 else d[0] + Total(d[1..])
  }

  function Weighted(d: seq<byte>): nat
  {
    if d == [] then 0 else |d| * d[0] + Weighted(d[1..])
  }

  /** The Adler-32 checksum of a text. */
  predicate IsAdler(r: nat, d: seq<byte>)
  {
    r % 0x10000 == (1 + Total(d)) % 65521 && r / 0x10000 == (|d| + Weighted(d)) % 65521
  }

  lemma {:induction false} SumsFromFront(a: nat, b: nat, d: seq<byte>)
    requires d != []
    ensures ByteSum(a, d) == ByteSum(a + d[0], d[1..])
    ensures SumSum(a, b, d) == SumSum(a + d[0], b + a + d[0], d[1..])
  {
    var n := |d| - 1;
    if n == 0 {
      assert d[..0] == [] == d[1..];
    } else {
      assert d[..n][1..] == d[1..][..n - 1];
      SumsFromFront(a, b, d[..n]);
    }
  }

  lemma {:induction false} SumsAre(a: nat, b: nat, d: seq<byte>)
    ensures ByteSum(a, d) == a + Total(d)
    ensures SumSum(a, b, d) == b + |d| * a + Weighted(d)
    decreases |d|
  {
    hide ByteSum, SumSum;
    if d == [] {
      NoSums(a, b);
    } else {
      SumsFromFront(a, b, d);
      SumsAre(a + d[0], b + a + d[0], d[1..]);
      Weights(|d| - 1, a, d[0]);
    }
  }

  lemma Weights(n: nat, a: nat, c: nat)
    ensures n * (a + c) + a + c == (n + 1) * a + (n + 1) * c
  {
  }

  lemma AdlerIs(d: seq<byte>)
    ensures IsAdler(Adler(1, d), d)
  {
    PerByteIsSums(1, 0, d);
    SumsAre(1, 0, d);
    PerByteSmall(1, 0, d);
    var (x, y) := PerByte(1, 0, d);
    Unpack(x, y);
  }

  /** The checksum of a whole text. */
  method Whole(buf: array<byte>) returns (r: nat)
    ensures IsAdler(r, buf[..])
  {
    r := LzoAdler32(1, buf, buf.Length);
    assert buf[..buf.Length] == buf[..];
    AdlerIs(buf[..]);
  }

  /** The check value: that of the nine digits 1 to 9. */
  lemma CheckValue(d: seq<byte>)
    requires d == [0x31, 0x32, 0x33, 0x34, 0x35, 0x36, 0x37, 0x38, 0x39]
    ensures Adler(1, d) == 0x091e01de
  {
    AdlerIs(d);
    NineDigits();
  }

  lemma NineDigits()
    ensures Total([0x31, 0x32, 0x33, 0x34, 0x35, 0x36, 0x37, 0x38, 0x39]) == 477
    ensures Weighted([0x31, 0x32, 0x33, 0x34, 0x35, 0x36, 0x37, 0x38, 0x39]) == 2325
  {
  }
}
