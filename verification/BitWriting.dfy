/** The output buffer and the "bit string" routines of gzip.c. */
module BitWriting {
  import opened Bits
  import opened Inflate

  const OUTBUFSIZ: nat := 8192

  lemma ShrByte(w: nat)
    ensures Shr(w, 8) == w / 256
  {
    ShrParts(w, 8);
    Pow2Values();
  }

  lemma WordAsBytes(w: ush)
    ensures BytesToBits([w % 256, w / 256]) == LsbBits(w, 16)
  {
    LsbBitsSplit(w, 8, 8);
    ShrByte(w);
    Pow2Values();
    LsbBitsMod(w, 8);
    assert [w % 256, w / 256] == [w % 256] + [w / 256];
    BytesToBitsConcat([w % 256], [w / 256]);
    BytesToBitsOne(w % 256);
    BytesToBitsOne(w / 256);
  }

  /** Filling bi_buf with the low bits of a value completes a 16 bit word. */
  lemma FullWord(buf: nat, valid: nat, value: nat)
    requires valid <= 16 && buf < Pow2(valid) && value < 0x10000
    ensures LsbBits(BitOr(buf, Shl(value, valid)) % 0x10000, 16)
         == LsbBits(buf, valid) + LsbBits(value, 16 - valid)
  {
    hide LsbBits, BitOr, Pow2;
    BitOrDisjoint(buf, valid, value);
    Pow2Values();
    LsbBitsMod(buf + Shl(value, valid), 16);
    LsbBitsConcat(buf, valid, value, 16 - valid);
  }

  /** With room to spare, the value lands above the bits already there. */
  lemma PartialWord(buf: nat, valid: nat, value: nat, length: nat)
    requires valid + length <= 16 && buf < Pow2(valid) && value < Pow2(length)
    ensures BitOr(buf, Shl(value, valid)) < Pow2(valid + length) <= 0x10000
    ensures LsbBits(BitOr(buf, Shl(value, valid)), valid + length)
         == LsbBits(buf, valid) + LsbBits(value, length)
  {
    BitOrDisjoint(buf, valid, value);
    LsbBitsConcat(buf, valid, value, length);
    Pow2Add(length, valid);
    FieldBelow(buf, value, Pow2(valid), Pow2(length));
    Pow2Values();
    Pow2Monotone(valid + length, 16);
  }

  lemma FieldBelow(lo: nat, hi: nat, d: nat, e: nat)
    requires lo < d && hi < e
    ensures lo + hi * d < e * d
  {
    assert (hi + 1) * d <= e * d;
  }

  /** What send_bits does when bi_buf overflows: one full word and the rest. */
  lemma SendsAcross(a: seq<bool>, buf: nat, valid: nat, value: nat, length: nat)
    requires valid <= 16 && length <= 16 && valid + length > 16
    requires buf < Pow2(valid) && value < Pow2(length)
    ensures Shr(value, 16 - valid) < Pow2(valid + length - 16) <= 0x10000
    ensures a + LsbBits(buf, valid) + LsbBits(value, length)
         == a + LsbBits(BitOr(buf, Shl(value, valid)) % 0x10000, 16)
              + LsbBits(Shr(value, 16 - valid), valid + length - 16)
  {
    hide LsbBits, BitOr, Pow2, Shr;
    Pow2Values();
    Pow2Monotone(length, 16);
    Pow2Monotone(valid + length - 16, 16);
    ShrBound(value, 16 - valid, valid + length - 16);
    FullWord(buf, valid, value);
    LsbBitsSplit(value, 16 - valid, valid + length - 16);
  }

  /** A word whose high bits are clear is its valid bits and zeros. */
  lemma {:induction false} PaddedWord(buf: nat, valid: nat, n: nat)
    requires valid <= n && buf < Pow2(valid)
    ensures LsbBits(buf, n) == LsbBits(buf, valid) + LsbBits(0, n - valid)
  {
    LsbBitsSplit(buf, valid, n - valid);
    ShrBound(buf, valid, 0);
  }

  lemma AlignedTo(before: nat, p: nat, q: nat, bytes: nat)
    requires before % 8 == 0 && p <= q < p + 8 && before + q == 8 * bytes
    ensures q == Align(p)
  {
  }

  lemma NoBytes()
    ensures BytesToBits([]) == []
  {
  }

  lemma NoBits()
    ensures Pow2(0) == 1 && LsbBits(0, 0) == []
  {
  }

  /** A 32 bit number, low byte first. */
  function FourBytes(n: nat): seq<byte>
    requires n < UINT_RANGE
  {
    [n % 256, n / 256 % 256, n / 256 / 256 % 256, n / 256 / 256 / 256]
  }

  lemma FourBytesAre(n: nat)
    requires n < UINT_RANGE
    ensures n / 0x1_0000 < 0x1_0000
    ensures FourBytes(n) == [n % 0x1_0000 % 256, n % 0x1_0000 / 256] + [n / 0x1_0000 % 256, n / 0x1_0000 / 256]
  {
    var r, q := n % 0x1_0000, n / 0x1_0000;
    ModUnique(n, 256, 256 * q + r / 256, r % 256);
    ModUnique(n / 256, 256, q, r / 256);
  }

  class BitWriter {
    const outbuf: array<byte>   // bytes not yet handed to xwrite
    var outcnt: nat             // how many
    var written: seq<byte>      // everything handed to xwrite
    var biBuf: ush              // bits not yet put in outbuf, from the bottom
    var biValid: nat            // how many
    ghost const prefix: seq<bool> // what stands before the deflated data
    ghost var sent: seq<bool>   // the deflated data so far

    /** outcnt stays below OUTBUFSIZ between calls. */
    ghost predicate BufferValid()
      reads this`outcnt
    {
      outbuf.Length == OUTBUFSIZ && outcnt < OUTBUFSIZ
    }

    /** All bytes output so far, flushed or not. */
    ghost function Bytes(): seq<byte>
      requires BufferValid()
      reads this`outcnt, this`written, outbuf
    {
      written + outbuf[..outcnt]
    }

    ghost function ByteBits(): seq<bool>
      requires BufferValid()
      reads this`outcnt, this`written, outbuf
    {
      BytesToBits(Bytes())
    }

    /** Flushed bytes, buffered bytes and the valid bits of biBuf are, in this
        order, the concatenation of everything sent. */
    ghost predicate Valid()
      reads this, outbuf
    {
      && BufferValid()
      && biValid <= 16 && biBuf < Pow2(biValid)
      && |prefix| % 8 == 0
      && prefix + sent == ByteBits() + LsbBits(biBuf, biValid)
    }

    /** An empty buffer. header is what is going to stand before the deflated data. */
    constructor (ghost header: seq<byte>)
      ensures BufferValid() && Bytes() == [] && fresh(outbuf) && sent == [] && prefix == BytesToBits(header)
    {
      outbuf := new byte[OUTBUFSIZ](_ => 0);
      outcnt := 0;
      written := [];
      biBuf, biValid := 0, 0;
      prefix := BytesToBits(header);
      sent := [];
    }

    /** bi_init: no bits are left over. */
    method BiInit()
      modifies this`biBuf, this`biValid
      ensures biBuf == biValid == 0
    {
      biBuf, biValid := 0, 0;
    }

    /** With the header in place, deflated data may follow. */
    lemma HeaderPut(header: seq<byte>)
      requires BufferValid() && biBuf == biValid == 0 && Bytes() == header && prefix == BytesToBits(header) && sent == []
      ensures Valid()
    {
    }

    method FlushOutbuf()
      requires outbuf.Length == OUTBUFSIZ && outcnt <= OUTBUFSIZ
      modifies this`outcnt, this`written
      ensures BufferValid() && outcnt == 0
      ensures Bytes() == old(written + outbuf[..outcnt])
    {
      if outcnt == 0 {
        return;
      }
      written := written + outbuf[..outcnt];
      outcnt := 0;
    }

    method Put8(c: byte)
      requires BufferValid()
      modifies this`outcnt, this`written, outbuf
      ensures BufferValid() && Bytes() == old(Bytes()) + [c]
      ensures ByteBits() == old(ByteBits()) + LsbBits(c, 8)
    {
      BytesToBitsOne(c);
      BytesToBitsConcat(Bytes(), [c]);
      outbuf[outcnt] := c;
      outcnt := outcnt + 1;
      if outcnt == OUTBUFSIZ {
        FlushOutbuf();
      }
    }

    /** Both paths append the two bytes of w, low byte first. */
    method Put16(w: ush)
      requires BufferValid()
      modifies this`outcnt, this`written, outbuf
      ensures BufferValid() && Bytes() == old(Bytes()) + [w % 256, w / 256]
      ensures ByteBits() == old(ByteBits()) + LsbBits(w, 16)
    {
      WordAsBytes(w);
      BytesToBitsConcat(Bytes(), [w % 256, w / 256]);
      if outcnt < OUTBUFSIZ - 2 {
        outbuf[outcnt] := w % 256;
        outbuf[outcnt + 1] := w / 256;
        outcnt := outcnt + 2;
      } else {
        Put8(w % 256);
        Put8(w / 256);
      }
    }

    /** Four bytes, the lowest first. */
    method Put32(n: nat)
      requires BufferValid() && n < UINT_RANGE
      modifies this`outcnt, this`written, outbuf
      ensures BufferValid() && Bytes() == old(Bytes()) + FourBytes(n)
    {
      hide BitWriter.Bytes, BytesToBits, LsbBits;
      FourBytesAre(n);
      Put16(n % 0x10000);
      Put16(n / 0x10000);
    }

    /** The bits of value, the lowest one first, follow what has been sent. */
    method SendBits(value: nat, length: nat)
      requires Valid() && length <= 16 && value < Pow2(length)
      modifies this, outbuf
      ensures Valid()
      ensures sent == old(sent) + LsbBits(value, length)
    {
      hide LsbBits, Pow2, BytesToBits, BitOr, Shr;
      assert prefix + (sent + LsbBits(value, length)) == prefix + sent + LsbBits(value, length);
      if biValid > 16 - length {
        SendsAcross(ByteBits(), biBuf, biValid, value, length);
        Put16(BitOr(biBuf, Shl(value, biValid)) % 0x10000);
        biBuf := Shr(value, 16 - biValid);
        biValid := biValid + length - 16;
      } else {
        PartialWord(biBuf, biValid, value, length);
        assert ByteBits() + LsbBits(biBuf, biValid) + LsbBits(value, length)
            == ByteBits() + (LsbBits(biBuf, biValid) + LsbBits(value, length));
        biBuf := BitOr(biBuf, Shl(value, biValid));
        biValid := biValid + length;
      }
      sent := sent + LsbBits(value, length);
    }

    /** Nothing stays in biBuf: zeros complete the last byte. */
    method BiWindup()
      requires Valid()
      modifies this, outbuf
      ensures Valid() && biBuf == biValid == 0
      ensures old(sent) <= sent && |sent| == Align(|old(sent)|)
    {
      hide LsbBits, Pow2, BytesToBits, BitOr, Shr, Align;
      NoBits();
      ghost var pad: seq<bool> := [];
      if biValid > 8 {
        PaddedWord(biBuf, biValid, 16);
        Put16(biBuf);
        pad := LsbBits(0, 16 - biValid);
      } else if biValid > 0 {
        PaddedWord(biBuf, biValid, 8);
        Pow2Monotone(biValid, 8);
        Pow2Values();
        Put8(biBuf);
        pad := LsbBits(0, 8 - biValid);
      }
      assert prefix + (sent + pad) == prefix + sent + pad;
      sent := sent + pad;
      AlignedTo(|prefix|, |old(sent)|, |sent|, |Bytes()|);
      biBuf := 0;
      biValid := 0;
    }

    /** Append bytes. */
    method PutBytes(src: array<byte>, start: nat, len: nat)
      requires BufferValid() && src != outbuf && start + len <= src.Length
      modifies this`outcnt, this`written, outbuf
      ensures BufferValid() && ByteBits() == old(ByteBits()) + BytesToBits(src[start..start + len])
    {
      hide LsbBits, BytesToBits, BitWriter.Bytes;
      ghost var bits, data := ByteBits(), src[start..start + len];
      NoBytes();
      assert data[..0] == [];
      var i := 0;
      while i < len
        invariant 0 <= i <= len
        invariant BufferValid() && ByteBits() == bits + BytesToBits(data[..i])
        invariant data == src[start..start + len]
      {
        Put8(src[start + i]);
        BytesToBitsConcat(data[..i], [data[i]]);
        BytesToBitsOne(data[i]);
        assert data[..i + 1] == data[..i] + [data[i]];
        i := i + 1;
      }
      assert data[..len] == data;
    }

    /** Copy a stored block, after its length and the one's complement of it. */
    method CopyBlock(src: array<byte>, start: nat, len: nat) returns (ghost padded: seq<bool>)
      requires Valid() && src != outbuf
      requires start + len <= src.Length && len <= 0xffff
      modifies this, outbuf
      ensures Valid() && biValid == 0
      ensures old(sent) <= padded && |padded| == Align(|old(sent)|)
      ensures sent == padded + LsbBits(len, 16) + LsbBits(0xffff - len, 16)
                    + BytesToBits(src[start..start + len])
    {
      hide LsbBits, Pow2, BytesToBits, BitOr, Shr, BitWriter.Bytes, BitWriter.ByteBits;
      BiWindup();
      NoBits();
      padded := sent;
      assert prefix + padded == ByteBits();
      Put16(len);
      Put16(0xffff - len);
      ghost var data := src[start..start + len];
      PutBytes(src, start, len);
      Regrouped(prefix, padded, LsbBits(len, 16), LsbBits(0xffff - len, 16), BytesToBits(data));
      sent := padded + LsbBits(len, 16) + LsbBits(0xffff - len, 16) + BytesToBits(data);
      assert prefix + sent == ByteBits() + [];
    }
  }

  lemma Regrouped(a: seq<bool>, b: seq<bool>, c: seq<bool>, d: seq<bool>, e: seq<bool>)
    ensures a + (b + c + d + e) == a + b + c + d + e
  {
  }
}
