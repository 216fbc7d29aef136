/** The running hash of UPDATE_HASH: after three bytes the oldest no longer takes
    part, and with the first two known the hash tells the third. */
module Hashing {
  import opened Bits

  const HASH_BITS: nat := 13
  const HASH_SIZE: nat := 0x2000
  const H_SHIFT: nat := 5

  function BitXor(a: nat, b: nat): nat
  {
    if a == 0 then b
    else if b == 0 then a
    else (a % 2 + b % 2) % 2 + 2 * BitXor(a / 2, b / 2)
  }

  lemma XorStep(a: nat, b: nat)
    ensures BitXor(a, b) / 2 == BitXor(a / 2, b / 2) && BitXor(a, b) % 2 == (a % 2 + b % 2) % 2
  {
  }

  /** Low bits depend on low bits only. */
  lemma {:induction false} XorLow(a: nat, b: nat, c: nat, d: nat, n: nat)
    requires a % Pow2(n) == c % Pow2(n) && b % Pow2(n) == d % Pow2(n)
    ensures BitXor(a, b) % Pow2(n) == BitXor(c, d) % Pow2(n)
  {
    if n != 0 {
      hide BitXor;
      XorStep(a, b);
      XorStep(c, d);
      HalfMod(a, n);
      HalfMod(b, n);
      HalfMod(c, n);
      HalfMod(d, n);
      XorLow(a / 2, b / 2, c / 2, d / 2, n - 1);
      HalfMod(BitXor(a, b), n);
      HalfMod(BitXor(c, d), n);
    }
  }

  /** The remainder of a number by 2^n, from its lowest bit and the rest. */
  lemma HalfMod(a: nat, n: nat)
    requires n >= 1
    ensures a % Pow2(n) == a % 2 + 2 * ((a / 2) % Pow2(n - 1))
    ensures (a % Pow2(n)) % 2 == a % 2 && (a % Pow2(n)) / 2 == (a / 2) % Pow2(n - 1)
  {
    var d := Pow2(n - 1);
    var q, r := (a / 2) / d, (a / 2) % d;
    DivModParts(a / 2, d);
    assert a == 2 * (r + q * d) + a % 2;
    assert 2 * (q * d) == q * (2 * d);
    ModUnique(a, 2 * d, q, 2 * r + a % 2);
  }

  lemma XorParts(k: nat, c: nat, n: nat)
    requires n >= 1
    ensures var x := BitXor(k, c) % Pow2(n);
            x % 2 == (k % 2 + c % 2) % 2 && x / 2 == BitXor(k / 2, c / 2) % Pow2(n - 1)
  {
    hide BitXor, Pow2;
    XorStep(k, c);
    HalfMod(BitXor(k, c), n);
  }

  lemma ParityCancel(k: nat, c: nat, d: nat)
    requires (k % 2 + c % 2) % 2 == (k % 2 + d % 2) % 2
    ensures c % 2 == d % 2
  {
  }

  lemma FromHalves(x: nat, y: nat)
    requires x % 2 == y % 2 && x / 2 == y / 2
    ensures x == y
  {
  }

  /** Xor can be cancelled, also where only n bits are known. */
  lemma {:induction false} XorCancel(k: nat, c: nat, d: nat, n: nat)
    requires BitXor(k, c) % Pow2(n) == BitXor(k, d) % Pow2(n)
    ensures c % Pow2(n) == d % Pow2(n)
    decreases n
  {
    hide BitXor, Pow2;
    if n == 0 {
      assert Pow2(0) == 1 by {
        Powers();
      }
    } else {
      XorParts(k, c, n);
      XorParts(k, d, n);
      XorCancel(k / 2, c / 2, d / 2, n - 1);
      ParityCancel(k, c, d);
      HalfMod(c, n);
      HalfMod(d, n);
      FromHalves(c % Pow2(n), d % Pow2(n));
    }
  }

  /** UPDATE_HASH(h, c). */
  function UpdateHash(h: nat, c: byte): (r: nat)
    ensures r < HASH_SIZE
  {
    BitXor(Shl(h, H_SHIFT), c) % HASH_SIZE
  }

  /** The hash of a three byte string. */
  function Hash3(a: byte, b: byte, c: byte): (r: nat)
    ensures r < HASH_SIZE
  {
    UpdateHash(UpdateHash(UpdateHash(0, a), b), c)
  }

  lemma Powers()
    ensures Pow2(0) == 1 && Pow2(3) == 8 && Pow2(H_SHIFT) == 32 && Pow2(8) == 256 && Pow2(HASH_BITS) == HASH_SIZE
  {
    Pow2Values();
  }

  lemma Shifted(h: nat)
    ensures Shl(h, H_SHIFT) == h * 32
  {
    hide Pow2;
    Powers();
  }

  lemma Scaled8(g: nat)
    ensures (g * 32) % 256 == (g % 8) * 32
  {
    var q := g / 8;
    assert g * 32 == 256 * q + (g % 8) * 32;
  }

  lemma Scaled256(g: nat)
    ensures (g * 32) % HASH_SIZE == (g % 256) * 32
  {
    var q := g / 256;
    assert g * 32 == HASH_SIZE * q + (g % 256) * 32;
  }

  lemma LowScaled(g: nat, h: nat)
    ensures g % 8 == h % 8 ==> (g * 32) % 256 == (h * 32) % 256
    ensures g % 256 == h % 256 ==> (g * 32) % HASH_SIZE == (h * 32) % HASH_SIZE
  {
    Scaled8(g);
    Scaled8(h);
    Scaled256(g);
    Scaled256(h);
  }

  lemma Masked(x: nat)
    ensures x % HASH_SIZE % 8 == x % 8 && x % HASH_SIZE % 256 == x % 256
  {
  }

  /** After a byte is taken in, its low three bits are the low bits of the hash. */
  lemma UpdateLow3(h: nat, c: byte)
    ensures UpdateHash(h, c) % 8 == c % 8
  {
    hide BitXor, Pow2, Shl;
    Shifted(h);
    Powers();
    XorLow(h * 32, c, 0, c, 3);
    XorZero(c);
    Masked(BitXor(h * 32, c));
  }

  lemma XorZero(c: nat)
    ensures BitXor(0, c) == c
  {
  }

  lemma UpdateLow8(g: nat, h: nat, c: byte)
    requires g % 8 == h % 8
    ensures UpdateHash(g, c) % 256 == UpdateHash(h, c) % 256
  {
    hide BitXor, Pow2, Shl;
    Shifted(g);
    Shifted(h);
    Powers();
    LowScaled(g, h);
    XorLow(g * 32, c, h * 32, c, 8);
    Masked(BitXor(g * 32, c));
    Masked(BitXor(h * 32, c));
  }

  lemma UpdateWhole(g: nat, h: nat, c: byte)
    requires g % 256 == h % 256
    ensures UpdateHash(g, c) == UpdateHash(h, c)
  {
    hide BitXor, Pow2, Shl;
    Shifted(g);
    Shifted(h);
    Powers();
    LowScaled(g, h);
    XorLow(g * 32, c, h * 32, c, HASH_BITS);
  }

  /** h has taken in a and then b, after whatever came before. */
  ghost predicate Rolls(h: nat, a: byte, b: byte)
  {
    h < HASH_SIZE && h % 256 == UpdateHash(UpdateHash(0, a), b) % 256
  }

  /** The running hash is the hash of the last three bytes. */
  lemma RollingHash(h: nat, a: byte, b: byte, c: byte)
    requires Rolls(h, a, b)
    ensures UpdateHash(h, c) == Hash3(a, b, c) && Rolls(UpdateHash(h, c), b, c)
  {
    hide UpdateHash;
    UpdateWhole(h, UpdateHash(UpdateHash(0, a), b), c);
    UpdateLow3(UpdateHash(0, a), b);
    UpdateLow3(0, b);
    UpdateLow8(UpdateHash(UpdateHash(0, a), b), UpdateHash(0, b), c);
  }

  lemma RollsFromStart(h: nat, a: byte, b: byte)
    ensures Rolls(UpdateHash(UpdateHash(h, a), b), a, b)
  {
    hide UpdateHash;
    UpdateLow3(h, a);
    UpdateLow3(0, a);
    UpdateLow8(UpdateHash(h, a), UpdateHash(0, a), b);
  }

  /** Strings with the same hash and the same first two bytes agree in the third. */
  lemma ThirdByte(a: byte, b: byte, c: byte, d: byte)
    requires Hash3(a, b, c) == Hash3(a, b, d)
    ensures c == d
  {
    hide BitXor, Pow2, Shl;
    Powers();
    var k := Shl(UpdateHash(UpdateHash(0, a), b), H_SHIFT);
    assert BitXor(k, c) % HASH_SIZE == BitXor(k, d) % HASH_SIZE;
    XorCancel(k, c, d, HASH_BITS);
  }
}
