/** Sampling parameters derived once per generate call: the index mask and the batch size. */
module Params {
  import opened Bits

  /** The largest alphabet generate accepts. */
  const MaxAlphabetSize := 255

  /** The argument nanoid.cpp passes to clz32: (alphSize - 1) | 1, taken on the low byte,
      which is all of alphSize - 1 here. */
  function ClzArgument(alphSize: nat): (x: bv32)
    requires 1 <= alphSize <= MaxAlphabetSize
    ensures 0 < x < 256
  {
    (((alphSize - 1) as bv8) | 1) as bv32
  }

  /** The mask as nanoid.cpp computes it: (2 << (31 - clz32((alphSize - 1) | 1))) - 1. */
  function ClzMask(alphSize: nat): (mask: nat)
    requires 1 <= alphSize <= MaxAlphabetSize
    ensures mask >= 1
  {
    var x := ClzArgument(alphSize);
    Clz32OnBytes(x);
    2 * Pow2(31 - Clz32(x)) - 1
  }

  /** Number of bits the mask keeps: the bit length of alphSize - 1, and at least one. */
  function MaskWidth(alphSize: nat): nat
    requires 1 <= alphSize
  {
    if alphSize == 1 then 1 else BitLength(alphSize - 1)
  }

  /** Reference definition of the mask: the all-ones value just wide enough for every
      alphabet position, 2^w - 1 for w = MaskWidth(alphSize). */
  function Mask(alphSize: nat): (mask: nat)
    requires 1 <= alphSize
  {
    Pow2(MaskWidth(alphSize)) - 1
  }

  /** Setting the lowest bit keeps a byte inside its power-of-two bracket (and lifts 0 to 1). */
  lemma OrOneBracket(b: bv8)
    ensures var x := (b | 1) as bv32;
      && (b < 2 ==> 1 <= x < 2)
      && (2 <= b < 4 ==> 2 <= x < 4)
      && (4 <= b < 8 ==> 4 <= x < 8)
      && (8 <= b < 16 ==> 8 <= x < 16)
      && (16 <= b < 32 ==> 16 <= x < 32)
      && (32 <= b < 64 ==> 32 <= x < 64)
      && (64 <= b < 128 ==> 64 <= x < 128)
      && (128 <= b ==> 128 <= x)
  {
  }

  /** clz32 of the mask argument, by power-of-two bracket of alphSize - 1. */
  lemma ClzArgumentTable(alphSize: nat)
    requires 1 <= alphSize <= MaxAlphabetSize
    ensures var n := alphSize - 1; var c := Clz32(ClzArgument(alphSize));
      && (n < 2 ==> c == 31)
      && (2 <= n < 4 ==> c == 30)
      && (4 <= n < 8 ==> c == 29)
      && (8 <= n < 16 ==> c == 28)
      && (16 <= n < 32 ==> c == 27)
      && (32 <= n < 64 ==> c == 26)
      && (64 <= n < 128 ==> c == 25)
      && (128 <= n ==> c == 24)
  {
    var n := alphSize - 1;
    var b := n as bv8;
    OrOneBracket(b);
    Clz32OnBytes(ClzArgument(alphSize));
  }

  /** The clz32-based mask by power-of-two bracket of alphSize - 1. */
  lemma ClzMaskTable(alphSize: nat)
    requires 1 <= alphSize <= MaxAlphabetSize
    ensures var n := alphSize - 1; var m := ClzMask(alphSize);
      && (n < 2 ==> m == 1)
      && (2 <= n < 4 ==> m == 3)
      && (4 <= n < 8 ==> m == 7)
      && (8 <= n < 16 ==> m == 15)
      && (16 <= n < 32 ==> m == 31)
      && (32 <= n < 64 ==> m == 63)
      && (64 <= n < 128 ==> m == 127)
      && (128 <= n ==> m == 255)
  {
    ClzArgumentTable(alphSize);
    Pow2Table();
  }

  /** The reference mask by power-of-two bracket of alphSize - 1. */
  lemma MaskTable(alphSize: nat)
    requires 1 <= alphSize <= MaxAlphabetSize
    ensures var n := alphSize - 1; var m := Mask(alphSize);
      && (n < 2 ==> m == 1)
      && (2 <= n < 4 ==> m == 3)
      && (4 <= n < 8 ==> m == 7)
      && (8 <= n < 16 ==> m == 15)
      && (16 <= n < 32 ==> m == 31)
      && (32 <= n < 64 ==> m == 63)
      && (64 <= n < 128 ==> m == 127)
      && (128 <= n ==> m == 255)
  {
    Pow2Table();
    if alphSize > 1 {
      BitLengthOfByte(alphSize - 1);
    }
  }

  /** The clz32 trick computes the reference mask for every accepted alphabet size. */
  lemma ClzMaskIsMask(alphSize: nat)
    requires 1 <= alphSize <= MaxAlphabetSize
    ensures ClzMask(alphSize) == Mask(alphSize)
  {
    ClzMaskTable(alphSize);
    MaskTable(alphSize);
  }

  /** The mask is 2^k - 1 for k = MaskWidth(alphSize), 1 <= k <= 8, and it covers every
      alphabet position without exceeding a byte. */
  lemma MaskShape(alphSize: nat)
    requires 1 <= alphSize <= MaxAlphabetSize
    ensures 1 <= MaskWidth(alphSize) <= 8
    ensures 1 <= Mask(alphSize) && alphSize - 1 <= Mask(alphSize) <= 255
  {
    MaskTable(alphSize);
    if alphSize > 1 {
      BitLengthOfByte(alphSize - 1);
    }
  }

  /** No smaller all-ones value 2^k - 1 (k >= 1) covers alphSize - 1. */
  lemma MaskMinimal(alphSize: nat, k: nat)
    requires 1 <= alphSize <= MaxAlphabetSize
    requires 1 <= k
    requires alphSize - 1 <= Pow2(k) - 1
    ensures Mask(alphSize) <= Pow2(k) - 1
  {
    MaskShape(alphSize);
    WidthMinimal(alphSize, k);
  }

  lemma WidthMinimal(alphSize: nat, k: nat)
    requires 1 <= alphSize
    requires 1 <= k
    requires alphSize - 1 <= Pow2(k) - 1
    ensures Pow2(MaskWidth(alphSize)) <= Pow2(k)
  {
    var w := MaskWidth(alphSize);
    if k < w {
      // alphSize - 1 has bit length w > 1, so it is at least 2^(w-1) >= 2^k
      BitLengthLowerBound(alphSize - 1);
      Pow2Monotone(k, w - 1);
      assert false;
    }
    Pow2Monotone(w, k);
  }

  lemma {:induction false} BitLengthLowerBound(n: nat)
    requires 1 <= n
    ensures Pow2(BitLength(n) - 1) <= n
  {
    if n > 1 {
      BitLengthLowerBound(n / 2);
    }
  }

  /** A one-symbol alphabet still gets a one-bit mask: alphSize - 1 is 0, whose clz32 is 32 and
      would make the shift count 31 - 32 negative, but `| 1` lifts the argument to 1. */
  lemma MaskOfSingleSymbol()
    ensures Clz32(0) == 32
    ensures ClzArgument(1) == 1 && ClzMask(1) == 1 && Mask(1) == 1
  {
    Clz32OnBytes(0);
    ClzMaskTable(1);
    MaskTable(1);
  }

  /** For two or more symbols more than half of all masked values are accepted:
      mask + 1 < 2 * alphSize. */
  lemma MaskAcceptsMoreThanHalf(alphSize: nat)
    requires 2 <= alphSize <= MaxAlphabetSize
    ensures Mask(alphSize) + 1 < 2 * alphSize
  {
    MaskTable(alphSize);
  }

  /** floor(log2(m)), defined by its power-of-two bracket. */
  function FloorLog2(m: nat): (r: nat)
    requires 1 <= m
    ensures Pow2(r) <= m < Pow2(r + 1)
  {
    if m == 1 then 0 else 1 + FloorLog2(m / 2)
  }

  /** The unit test's reference mask, (2 << floor(log2(length - 1))) - 1, agrees with the
      clz32-based mask for every alphabet size from 2 to 255. */
  lemma MaskEquivalence(alphSize: nat)
    requires 2 <= alphSize <= MaxAlphabetSize
    ensures Mask(alphSize) == 2 * Pow2(FloorLog2(alphSize - 1)) - 1
  {
    MaskShape(alphSize);
    WidthIsFloorLog2(alphSize);
  }

  lemma WidthIsFloorLog2(alphSize: nat)
    requires 2 <= alphSize
    ensures Pow2(MaskWidth(alphSize)) == 2 * Pow2(FloorLog2(alphSize - 1))
  {
    var r := FloorLog2(alphSize - 1);
    BitLengthOfBracket(alphSize - 1, r + 1);
  }

  /** The unit test's reference mask as the loop writes it, for lengths 1..255:
      at length 1 it takes the logarithm of zero, which has no integer floor. */
  datatype TestMask = Defined(mask: nat) | UndefinedLog

  /** Where the reference is defined, lengths 2..255, it equals the clz32 mask the test
      compares it with; only length 1 is left undefined. */
  function TestMaskAsWritten(length: nat): (t: TestMask)
    ensures length >= 2 <==> t.Defined?
    ensures 2 <= length <= MaxAlphabetSize ==> t == Defined(ClzMask(length))
  {
    if length <= 1 then UndefinedLog
    else if length <= MaxAlphabetSize then
      MaskEquivalence(length);
      ClzMaskIsMask(length);
      Defined(2 * Pow2(FloorLog2(length - 1)) - 1)
    else Defined(2 * Pow2(FloorLog2(length - 1)) - 1)
  }

  /** Length 1, the loop's first iteration, has no defined reference mask. */
  lemma TestMaskUndefinedAtOne()
    ensures TestMaskAsWritten(1) == UndefinedLog
  {
  }

  /** The reference mask the test evidently intends: the floor-log formula for lengths 2..255
      and the one-bit mask for length 1. It agrees with the clz32-based mask on every alphabet size. */
  function TestMaskCorrected(length: nat): (m: nat)
    requires 1 <= length
  {
    if length == 1 then 1 else 2 * Pow2(FloorLog2(length - 1)) - 1
  }

  lemma TestMaskCorrectedAgrees(alphSize: nat)
    requires 1 <= alphSize <= MaxAlphabetSize
    ensures TestMaskCorrected(alphSize) == ClzMask(alphSize)
  {
    ClzMaskIsMask(alphSize);
    if alphSize == 1 {
      MaskOfSingleSymbol();
    } else {
      MaskEquivalence(alphSize);
    }
  }

  /** Batch size: ceil(1.6 * mask * size / alphSize), as an exact integer ceiling. */
  function Step(mask: nat, size: nat, alphSize: nat): (step: nat)
    requires 1 <= mask && 1 <= size && 1 <= alphSize
    ensures 1 <= step
  {
    (16 * mask * size + 10 * alphSize - 1) / (10 * alphSize)
  }

  /** The step is the least whole number of bytes at or above 1.6 * mask * size / alphSize. */
  lemma StepIsCeiling(mask: nat, size: nat, alphSize: nat)
    requires 1 <= mask && 1 <= size && 1 <= alphSize
    ensures var step := Step(mask, size, alphSize);
      10 * alphSize * (step - 1) < 16 * mask * size <= 10 * alphSize * step
  {
    var num := 16 * mask * size;
    var den := 10 * alphSize;
    var q := (num + den - 1) / den;
    assert num + den - 1 == den * q + (num + den - 1) % den;
  }

  /** The batch size can be smaller than the identifier length: two symbols, length 5. */
  lemma StepCanBeBelowSize()
    ensures Step(Mask(2), 5, 2) == 4
  {
    MaskTable(2);
    StepIsCeiling(Mask(2), 5, 2);
  }
}
