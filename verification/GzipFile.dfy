/** A gzip file: section 2.3 of RFC 1952. */
module GzipFile {
  import opened Options
  import opened Bits
  import opened Inflate
  import opened BitWriting
  import opened Crc32

  /** The 32 bit number at p, low byte first. */
  function NumberAt(f: seq<byte>, p: nat): nat
    requires p + 4 <= |f|
  {
    Number(f[p], f[p + 1], f[p + 2], f[p + 3])
  }

  function Number(a: nat, b: nat, c: nat, d: nat): nat
  {
    a + 256 * (b + 256 * (c + 256 * d))
  }

  /** What a file of one member without optional fields stands for: magic number, method and
      flags are as they should be, deflated data stand behind a header of ten bytes, and their
      checksum and size behind them, up to the end of the file. */
  function Gunzip(f: seq<byte>): Option<seq<byte>>
  {
    if |f| < 18 || f[..4] != [0x1f, 0x8b, 8, 0] then None
    else
      match Decode(BytesToBits(f[10..]))
      case Bad => None
      case Next(data, end) =>
        var q := 10 + Align(end) / 8;
        if q + 8 == |f| && NumberAt(f, q) == Checksum(data) && NumberAt(f, q + 4) == UInt(|data|) then Some(data) else None
  }

  /** Four bytes, the low one first. */
  function LowFirst(n: int): seq<byte>
    requires 0 <= n < 0x1_0000_0000
  {
    [n % 0x100, n / 0x100 % 0x100, n / 0x1_0000 % 0x100, n / 0x100_0000]
  }

  /** The bytes of a file around the deflated data: magic number, method, flags, time stamp, and how
      it was compressed and where; at the end the checksum and the size. */
  predicate Frame(f: seq<byte>, time: nat, crc: int, size: int)
  {
    && 0 <= time < 0x1_0000_0000 && 0 <= crc < 0x1_0000_0000 && 0 <= size < 0x1_0000_0000 && |f| >= 18
    && f[..10] == [0x1f, 0x8b, 8, 0] + LowFirst(time) + [2, 3]
    && f[|f| - 8..] == LowFirst(crc) + LowFirst(size)
  }

  lemma FrameIs(f: seq<byte>, time: nat, data: seq<byte>)
    requires Gunzip(f) == Some(data) && time < UINT_RANGE && f[..10] == Header(time)
    ensures Frame(f, time, Checksum(data), |data| % 0x1_0000_0000)
  {
    hide Decode, BytesToBits, Checksum, LowFirst, FourBytes, Number;
    FourIsLowFirst(time);
    var t := f[|f| - 8..];
    NumberIs(t[0], t[1], t[2], t[3]);
    NumberIs(t[4], t[5], t[6], t[7]);
    assert t == [t[0], t[1], t[2], t[3]] + [t[4], t[5], t[6], t[7]];
  }

  lemma FourIsLowFirst(n: nat)
    requires n < UINT_RANGE
    ensures FourBytes(n) == LowFirst(n)
  {
    Quarters(n);
  }

  lemma Quarters(n: nat)
    ensures n / 256 / 256 == n / 0x1_0000 && n / 256 / 256 / 256 == n / 0x100_0000
  {
  }

  lemma NumberIs(a: byte, b: byte, c: byte, d: byte)
    ensures 0 <= Number(a, b, c, d) < 0x1_0000_0000 && LowFirst(Number(a, b, c, d)) == [a, b, c, d]
  {
    var n := Number(a, b, c, d);
    Quarters(n);
    assert n % 256 == a && n / 256 == b + 256 * (c + 256 * d);
    assert n / 256 / 256 == c + 256 * d;
  }

  /** Whatever follows, these bits decode to data. */
  ghost predicate DecodesTo(bits: seq<bool>, data: seq<byte>, end: nat)
  {
    |bits| == Align(end) && forall s :: bits <= s ==> Decode(s) == Next(data, end)
  }

  function Header(time: nat): (h: seq<byte>)
    requires time < UINT_RANGE
    ensures |h| == 10
  {
    [0x1f, 0x8b, 8, 0] + FourBytes(time) + [2, 3]
  }

  lemma NumberOf(a: seq<byte>, n: nat, b: seq<byte>)
    requires n < UINT_RANGE
    ensures NumberAt(a + FourBytes(n) + b, |a|) == n
  {
    var f := a + FourBytes(n) + b;
    assert f[|a|] == n % 256 && f[|a| + 1] == n / 256 % 256;
    assert f[|a| + 2] == n / 256 / 256 % 256 && f[|a| + 3] == n / 256 / 256 / 256;
  }

  /** Texts with the same bits are the same. */
  lemma {:induction false} SameBytes(a: seq<byte>, b: seq<byte>)
    requires BytesToBits(a) == BytesToBits(b)
    ensures a == b
  {
    assert |a| == |b|;
    if a != [] {
      assert BytesToBits(a)[..8] == LsbBits(a[0], 8) && BytesToBits(b)[..8] == LsbBits(b[0], 8);
      assert BytesToBits(a)[8..] == BytesToBits(a[1..]) && BytesToBits(b)[8..] == BytesToBits(b[1..]);
      SameBytes(a[1..], b[1..]);
      Pow2Values();
      ValueOfLsbBits(a[0], 8);
      ValueOfLsbBits(b[0], 8);
    }
  }

  /** Where the bits of a text start with those of another, the text does. */
  lemma StartsWith(f: seq<byte>, h: seq<byte>, bits: seq<bool>)
    requires BytesToBits(f) == BytesToBits(h) + bits
    ensures |h| <= |f| && f[..|h|] == h && BytesToBits(f[|h|..]) == bits
  {
    hide BytesToBits;
    assert |BytesToBits(f)| == 8 * |f| && |BytesToBits(h)| == 8 * |h|;
    var a, b := f[..|h|], f[|h|..];
    assert f == a + b;
    BytesToBitsConcat(a, b);
    assert BytesToBits(a) == BytesToBits(f)[..8 * |h|] == BytesToBits(h);
    SameBytes(a, h);
    assert bits == BytesToBits(f)[8 * |h|..] == BytesToBits(b);
  }

  /** A header, deflated data, their checksum and their size make a gzip file. */
  lemma MakesFile(f: seq<byte>, time: nat, deflated: seq<byte>, bits: seq<bool>, data: seq<byte>, end: nat)
    requires time < UINT_RANGE && 0 <= Checksum(data) < UINT_RANGE
    requires BytesToBits(deflated) == BytesToBits(Header(time)) + bits && DecodesTo(bits, data, end)
    requires f == deflated + FourBytes(Checksum(data)) + FourBytes(UInt(|data|))
    ensures Gunzip(f) == Some(data) && f[..10] == Header(time)
  {
    hide BytesToBits, FourBytes, Decode, Checksum, UInt, NumberAt, Align;
    var crc, size := FourBytes(Checksum(data)), FourBytes(UInt(|data|));
    FourLong(Checksum(data));
    FourLong(UInt(|data|));
    FourLong(time);
    StartsWith(deflated, Header(time), bits);
    var body := deflated[10..];
    assert f[10..] == body + (crc + size);
    BytesToBitsConcat(body, crc + size);
    assert |BytesToBits(body)| == 8 * |body| == Align(end);
    assert f[..10] == deflated[..10] == Header(time);
    assert f[..4] == Header(time)[..4] == [0x1f, 0x8b, 8, 0];
    assert |deflated| == 10 + Align(end) / 8;
    NumberOf(deflated, Checksum(data), size);
    assert f == (deflated + crc) + size + [];
    NumberOf(deflated + crc, UInt(|data|), []);
  }

  lemma FourLong(n: nat)
    requires n < UINT_RANGE
    ensures |FourBytes(n)| == 4
  {
  }
}
