/** UPDATE_HASH bit by bit: each of the three bytes is shifted up five bits for every byte behind
    it, and the lowest 13 bits are kept. */
module HashBits {
  import opened Bits
  import opened Hashing
  import opened Crc32Standard

  lemma {:induction false} ShiftedBit(h: nat, n: nat, k: nat)
    ensures Bit(h * Pow2(n), k) == (k >= n && Bit(h, k - n))
    decreases n
  {
    hide Bit;
    if n == 0 {
      assert Pow2(0) == 1;
    } else {
      assert h * Pow2(n) == 2 * (h * Pow2(n - 1));
      Halve(h * Pow2(n), k);
      if k >= 1 {
        ShiftedBit(h, n - 1, k - 1);
      }
    }
  }

  lemma {:induction false} MaskedBit(x: nat, n: nat, k: nat)
    ensures Bit(x % Pow2(n), k) == (k < n && Bit(x, k))
    decreases n
  {
    hide Bit;
    if n == 0 {
      NoBits(k);
      assert Pow2(0) == 1;
    } else {
      HalfMod(x, n);
      Halve(x, k);
      Halve(x % Pow2(n), k);
      if k >= 1 {
        MaskedBit(x / 2, n - 1, k - 1);
      }
    }
  }

  lemma {:induction false} NoBits(k: nat)
    ensures !Bit(0, k)
    decreases k
  {
    if k != 0 {
      NoBits(k - 1);
    }
  }

  lemma UpdateBit(h: nat, c: byte, k: nat)
    ensures Bit(UpdateHash(h, c), k) == (k < 13 && (k >= 5 && Bit(h, k - 5)) != Bit(c, k))
  {
    hide Bit, BitXor, Pow2;
    Pow2Values();
    Shifted(h);
    ShiftedBit(h, 5, k);
    XorBit(h * 32, c, k);
    MaskedBit(BitXor(h * 32, c), 13, k);
  }

  /** The hash of a string. */
  lemma HashBit(a: byte, b: byte, c: byte, k: nat)
    ensures Bit(Hash3(a, b, c), k)
         == (k < 13 && ((k >= 10 && Bit(a, k - 10)) != (k >= 5 && Bit(b, k - 5))) != Bit(c, k))
  {
    hide Bit, UpdateHash;
    var h := UpdateHash(0, a);
    UpdateBit(UpdateHash(h, b), c, k);
    if k >= 5 {
      UpdateBit(h, b, k - 5);
    }
    if k >= 10 {
      UpdateBit(0, a, k - 10);
    }
    if k >= 15 {
      NoBits(k - 15);
    }
  }
}
