/** The fixed expectations of tests/unit_tests.cpp, derived from the model: the predefined byte
    source of TestPredefinedRandomSequence, the one-letter alphabet of TestSingleLetterAlphabet
    and the custom alphabet of TestCustomAlphabetAndSize. */
module GoldenCases {
  import opened Params
  import opened Sampling
  import opened Sources
  import opened Generator

  /** The byte pattern the predefined source repeats. */
  const GoldenPattern: seq<bv8> := [2, 255, 3, 7, 7, 7, 7, 7, 0, 1]

  const GoldenAlphabet := "abcde"

  /** Ten bytes of the pattern, as the 41-byte batch shows them after its first byte. */
  const Period: seq<bv8> := [1, 0, 7, 7, 7, 7, 7, 3, 255, 2]

  /** Five symbols need mask 7; identifiers of 4 and 18 symbols request 9 and 41 bytes. */
  lemma GoldenParameters()
    ensures Mask(5) == 7 && ByteMask(5) == 7
    ensures BatchSize(5, 4) == 9 && BatchSize(5, 18) == 41
  {
    MaskTable(5);
  }

  /** A 9-byte request: the first nine pattern bytes, reversed. */
  lemma GoldenBatchOfNine()
    ensures PredefinedBytes(GoldenPattern, 9) == [0, 7, 7, 7, 7, 7, 3, 255, 2]
  {
    var b := PredefinedBytes(GoldenPattern, 9);
    var expected: seq<bv8> := [0, 7, 7, 7, 7, 7, 3, 255, 2];
    forall i | 0 <= i < 9
      ensures b[i] == expected[i]
    {
      assert b[i] == GoldenPattern[8 - i];
    }
  }

  /** A 41-byte request: the byte 2, then four times the pattern bytes 9 down to 0. */
  lemma GoldenBatchOfFortyOne()
    ensures PredefinedBytes(GoldenPattern, 41) == [2] + Period + Period + Period + Period
  {
    var b := PredefinedBytes(GoldenPattern, 41);
    assert b[0] == 2;
    ChunkOfFortyOne(0);
    ChunkOfFortyOne(1);
    ChunkOfFortyOne(2);
    ChunkOfFortyOne(3);
    assert b == b[..1] + b[1..11] + b[11..21] + b[21..31] + b[31..41];
  }

  /** Bytes 1 + 10q up to 11 + 10q of the 41-byte request are one period. */
  lemma ChunkOfFortyOne(q: nat)
    requires q < 4
    ensures PredefinedBytes(GoldenPattern, 41)[1 + 10 * q..11 + 10 * q] == Period
  {
    var b := PredefinedBytes(GoldenPattern, 41);
    forall r | 0 <= r < 10
      ensures b[1 + 10 * q + r] == Period[r]
    {
      ChunkByte(q, r);
    }
  }

  lemma ChunkByte(q: nat, r: nat)
    requires q < 4 && r < 10
    ensures PredefinedBytes(GoldenPattern, 41)[1 + 10 * q + r] == Period[r]
  {
    DivModUnique(40 - (1 + 10 * q + r), 10, 3 - q, 9 - r);
    assert Period[r] == GoldenPattern[9 - r];
  }

  /** The 9-byte request yields "adc": bytes 0, 3 and 2 are kept, the four 7s and 255 rejected. */
  lemma GoldenAcceptedNine()
    ensures Accepted(PredefinedBytes(GoldenPattern, 9), GoldenAlphabet, 7) == "adc"
  {
    GoldenBatchOfNine();
    assert Accepted([0, 7, 7, 7, 7, 7, 3, 255, 2], GoldenAlphabet, 7) == "adc";
  }

  /** The 41-byte request yields "c" and then "badc" for each period. */
  lemma GoldenAcceptedFortyOne()
    ensures Accepted(PredefinedBytes(GoldenPattern, 41), GoldenAlphabet, 7) == "cbadcbadcbadcbadc"
  {
    GoldenBatchOfFortyOne();
    assert Accepted(Period, GoldenAlphabet, 7) == "badc";
    assert Accepted([2], GoldenAlphabet, 7) == "c";
    FourPeriods(Period, GoldenAlphabet);
  }

  lemma FourPeriods(p: seq<bv8>, alphabet: string)
    requires Accepted(p, alphabet, 7) == "badc" && Accepted([2], alphabet, 7) == "c"
    ensures Accepted([2] + p + p + p + p, alphabet, 7) == "cbadcbadcbadcbadc"
  {
    AcceptedAppend([2], p, alphabet, 7);
    AcceptedAppend([2] + p, p, alphabet, 7);
    AcceptedAppend([2] + p + p, p, alphabet, 7);
    AcceptedAppend([2] + p + p + p, p, alphabet, 7);
  }

  /** TestPredefinedRandomSequence, size 4: the first request yields "adc", the second
      completes "adca". */
  lemma GoldenSizeFour(fuel: nat)
    requires 2 <= fuel
    ensures Generate(Predefined(GoldenPattern), GoldenAlphabet, 4, fuel) == Generated("adca", 2)
  {
    GoldenParameters();
    GoldenAcceptedNine();
    GoldenTwoRequests(9, fuel, 4, "adc", "adca");
  }

  /** With a single request allowed the size-4 identifier cannot be completed. */
  lemma GoldenSizeFourNeedsTwoRequests()
    ensures Generate(Predefined(GoldenPattern), GoldenAlphabet, 4, 1) == Unfinished
  {
    GoldenParameters();
    GoldenAcceptedNine();
    var b := PredefinedBytes(GoldenPattern, 9);
    PredefinedDraws(GoldenPattern, 9, 1);
    var batches := Draws(Predefined(GoldenPattern), 9, 1);
    assert batches == [b];
    assert Flatten(batches) == b;
    GenerateSamples(Predefined(GoldenPattern), GoldenAlphabet, 4, 1);
  }

  /** TestPredefinedRandomSequence, size 18: the first request yields "c" and four times
      "badc", the second completes "cbadcbadcbadcbadcc". */
  lemma GoldenSizeEighteen(fuel: nat)
    requires 2 <= fuel
    ensures Generate(Predefined(GoldenPattern), GoldenAlphabet, 18, fuel) == Generated("cbadcbadcbadcbadcc", 2)
  {
    GoldenParameters();
    GoldenAcceptedFortyOne();
    GoldenTwoRequests(41, fuel, 18, "cbadcbadcbadcbadc", "cbadcbadcbadcbadcc");
  }

  /** When one request of `step` bytes yields `once`, fewer than `size` symbols, and two
      requests yield at least `size`, generate finishes on the second request with the first
      `size` symbols of `once` twice over. */
  lemma GoldenTwoRequests(step: nat, fuel: nat, size: nat, once: string, id: string)
    requires 2 <= fuel && 1 <= size
    requires BatchSize(5, size) == step && ByteMask(5) == 7
    requires Accepted(PredefinedBytes(GoldenPattern, step), GoldenAlphabet, 7) == once
    requires |once| < size <= 2 * |once| && id == (once + once)[..size]
    ensures Generate(Predefined(GoldenPattern), GoldenAlphabet, size, fuel) == Generated(id, 2)
  {
    var b := PredefinedBytes(GoldenPattern, step);
    var batches := Draws(Predefined(GoldenPattern), step, fuel);
    PredefinedDraws(GoldenPattern, step, fuel);
    TwoEqualBatches(batches, b);
    AcceptedAppend(b, b, GoldenAlphabet, 7);
    FillsAtRequest(batches, 2, GoldenAlphabet, 7, size);
    GenerateFilled(Predefined(GoldenPattern), GoldenAlphabet, size, fuel);
  }

  /** The first one and two batches of a run of equal batches, laid end to end. */
  lemma TwoEqualBatches(batches: seq<seq<bv8>>, b: seq<bv8>)
    requires 2 <= |batches| && batches[0] == b && batches[1] == b
    ensures Flatten(batches[..1]) == b
    ensures Flatten(batches[..2]) == b + b
  {
    assert batches[..1] == [b];
    assert batches[..2] == [b, b];
    assert [b, b][1..] == [b];
  }

  /** TestSingleLetterAlphabet: alphabet "a", size 5 gives "aaaaa" whenever it finishes. */
  lemma GoldenSingleLetter(src: Source, fuel: nat)
    ensures var r := Generate(src, "a", 5, fuel);
      r.Generated? ==> r.id == "aaaaa"
  {
    SingleSymbolAlphabet(src, 'a', 5, fuel);
  }

  /** TestCustomAlphabetAndSize: "1234abcd" has 8 symbols, mask 7, and a 10-byte request covers
      7 symbols, so one answered request gives the identifier, each symbol taken from a byte. */
  lemma GoldenCustomAlphabet(src: Source, fuel: nat)
    requires 1 <= fuel
    requires NextBytes(src, 10).Drawn?
    ensures Mask(8) == 7 && BatchSize(8, 7) == 10
    ensures var batch := NextBytes(src, 10).bytes; var r := Generate(src, "1234abcd", 7, fuel);
      && r.Generated? && r.requests == 1
      && forall i | 0 <= i < 7 :: r.id[i] == "1234abcd"[(batch[i] & 7) as int]
  {
    MaskTable(8);
    assert BatchSize(8, 7) == 10;
    assert ByteMask(8) == 7;
    OneRequestSuffices(src, "1234abcd", 7, fuel);
  }
}
