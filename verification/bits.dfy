/** Bit-level helpers: powers of two, bit length, and the portable clz32 of nanoid.cpp. */
module Bits {

  /** 2^k. */
  function Pow2(k: nat): (p: nat)
    ensures p >= 1
  {
    if k == 0 then 1 else 2 * Pow2(k - 1)
  }

  lemma Pow2Table()
    ensures Pow2(0) == 1 && Pow2(1) == 2 && Pow2(2) == 4 && Pow2(3) == 8
    ensures Pow2(4) == 16 && Pow2(5) == 32 && Pow2(6) == 64 && Pow2(7) == 128
    ensures Pow2(8) == 256
  {
  }

  /** Number of binary digits of n (0 for n == 0). */
  function BitLength(n: nat): nat
  {
    if n == 0 then 0 else 1 + BitLength(n / 2)
  }

  lemma {:induction false} Pow2Monotone(j: nat, k: nat)
    requires j <= k
    ensures Pow2(j) <= Pow2(k)
    decreases k
  {
    if j < k {
      Pow2Monotone(j, k - 1);
    }
  }

  /** The bit length of n is the k with 2^(k-1) <= n < 2^k. */
  lemma {:induction false} BitLengthOfBracket(n: nat, k: nat)
    requires 1 <= k
    requires Pow2(k - 1) <= n < Pow2(k)
    ensures BitLength(n) == k
    decreases k
  {
    if k > 1 {
      BitLengthOfBracket(n / 2, k - 1);
    }
  }

  /** The bit length of a byte-sized value, bracket by bracket. */
  lemma BitLengthOfByte(n: nat)
    requires 0 < n < 256
    ensures n < 2 ==> BitLength(n) == 1
    ensures 2 <= n < 4 ==> BitLength(n) == 2
    ensures 4 <= n < 8 ==> BitLength(n) == 3
    ensures 8 <= n < 16 ==> BitLength(n) == 4
    ensures 16 <= n < 32 ==> BitLength(n) == 5
    ensures 32 <= n < 64 ==> BitLength(n) == 6
    ensures 64 <= n < 128 ==> BitLength(n) == 7
    ensures 128 <= n ==> BitLength(n) == 8
  {
    if n < 2 { BitLengthOfBracket(n, 1); }
    else if n < 4 { BitLengthOfBracket(n, 2); }
    else if n < 8 { BitLengthOfBracket(n, 3); }
    else if n < 16 { BitLengthOfBracket(n, 4); }
    else if n < 32 { BitLengthOfBracket(n, 5); }
    else if n < 64 { BitLengthOfBracket(n, 6); }
    else if n < 128 { assert Pow2(7) == 128; BitLengthOfBracket(n, 7); }
    else { assert Pow2(8) == 256; BitLengthOfBracket(n, 8); }
  }

  /** C++ `x >> n` on a signed 32-bit int, taken as arithmetic (sign-filling) shift
      on its two's-complement bits. */
  function Sar(x: bv32, n: nat): bv32
    requires n < 32
  {
    if x & 0x8000_0000 == 0 then x >> n else (x >> n) | !(0xFFFF_FFFF >> n)
  }

  /** The smearing half of clz32: copies every set bit into all lower positions. */
  function Smear(x: bv32): bv32
  {
    var x1 := x | Sar(x, 1);
    var x2 := x1 | Sar(x1, 2);
    var x3 := x2 | Sar(x2, 4);
    var x4 := x3 | Sar(x3, 8);
    x4 | Sar(x4, 16)
  }

  /** The SWAR population count half of clz32 (the count lands in the low six bits);
      additions wrap around as two's-complement int arithmetic does. */
  function SwarCount(x: bv32): bv32
  {
    var y1 := x - (Sar(x, 1) & 0x5555_5555);
    var y2 := (Sar(y1, 2) & 0x3333_3333) + (y1 & 0x3333_3333);
    var y3 := (Sar(y2, 4) + y2) & 0x0f0f_0f0f;
    var y4 := y3 + Sar(y3, 8);
    y4 + Sar(y4, 16)
  }

  /** impl::clz32: 32 minus the number of ones left after smearing. */
  function Clz32(x: bv32): int
  {
    32 - (SwarCount(Smear(x)) & 0x3f) as int
  }

  /** clz32 on every byte-sized argument, one power-of-two bracket at a time. */
  lemma Clz32OnBytes(x: bv32)
    requires x < 256
    ensures x == 0 ==> Clz32(x) == 32
    ensures 1 <= x < 2 ==> Clz32(x) == 31
    ensures 2 <= x < 4 ==> Clz32(x) == 30
    ensures 4 <= x < 8 ==> Clz32(x) == 29
    ensures 8 <= x < 16 ==> Clz32(x) == 28
    ensures 16 <= x < 32 ==> Clz32(x) == 27
    ensures 32 <= x < 64 ==> Clz32(x) == 26
    ensures 64 <= x < 128 ==> Clz32(x) == 25
    ensures 128 <= x ==> Clz32(x) == 24
  {
    if x == 0 {
    } else if x < 16 {
      assert x < 2 ==> Clz32(x) == 31;
      assert 2 <= x < 4 ==> Clz32(x) == 30;
      assert 4 <= x < 8 ==> Clz32(x) == 29;
    } else {
      assert 16 <= x < 32 ==> Clz32(x) == 27;
      assert 32 <= x < 64 ==> Clz32(x) == 26;
      assert 64 <= x < 128 ==> Clz32(x) == 25;
    }
  }

  /** On the arguments the generator passes (1..255), clz32 is 32 minus the bit length. */
  lemma Clz32Correct(x: bv32)
    requires 0 < x < 256
    ensures Clz32(x) == 32 - BitLength(x as int)
  {
    Clz32OnBytes(x);
    BitLengthOfByte(x as int);
  }
}
