/** nanoid::generate: input validation, parameter derivation and the sampling loop driven by a
    byte source, plus the default-argument overloads. */
module Generator {
  import opened Bits
  import opened Params
  import opened Sampling
  import opened Sources

  /** The 64 URL-safe symbols used when no alphabet is given. */
  const DefaultAlphabet := "_-0123456789abcdefghijklmnopqrstuvwxyzABCDEFGHIJKLMNOPQRSTUVWXYZ"

  /** The identifier length used when no size is given. */
  const DefaultSize := 21

  const AlphabetSizeMessage := "alphabet must contain between 1 and 255 symbols."
  const SizeMessage := "size must be greater than zero."

  /** The outcome of one generate call. Generated carries the identifier and the number of
      next_bytes requests made; InvalidArgument is the std::invalid_argument thrown before any
      request; Unfinished means the permitted requests (or the source) ran out before the
      identifier was complete, where the original keeps looping. */
  datatype Generation =
    | Generated(id: string, requests: nat)
    | InvalidArgument(message: string)
    | Unfinished

  /** The alphabet sizes generate accepts. */
  predicate ValidAlphabetSize(alphSize: nat)
  {
    1 <= alphSize <= MaxAlphabetSize
  }

  /** The mask as the byte it is applied to: w low one-bits, for the mask's width w. */
  function ByteMask(alphSize: nat): (m: bv8)
    requires ValidAlphabetSize(alphSize)
    ensures m as int == Mask(alphSize)
  {
    MaskShape(alphSize);
    Pow2Table();
    var w := MaskWidth(alphSize);
    if w == 1 then 1
    else if w == 2 then 3
    else if w == 3 then 7
    else if w == 4 then 15
    else if w == 5 then 31
    else if w == 6 then 63
    else if w == 7 then 127
    else 255
  }

  lemma MaskedBelowMask(b: bv8, m: bv8)
    ensures IndexOf(b, m) <= m as int
  {
  }

  /** The number of bytes requested per next_bytes call. */
  function BatchSize(alphSize: nat, size: nat): (step: nat)
    requires ValidAlphabetSize(alphSize) && 1 <= size
    ensures 1 <= step
  {
    Step(Mask(alphSize), size, alphSize)
  }

  /** nanoid::generate(random, alphabet, size), allowed at most `fuel` requests to `src`. */
  function Generate(src: Source, alphabet: string, size: nat, fuel: nat): (r: Generation)
    ensures r.InvalidArgument? <==> !ValidAlphabetSize(|alphabet|) || size == 0
    ensures !ValidAlphabetSize(|alphabet|) ==> r == InvalidArgument(AlphabetSizeMessage)
    ensures ValidAlphabetSize(|alphabet|) && size == 0 ==> r == InvalidArgument(SizeMessage)
    ensures r.Generated? ==> |r.id| == size && 1 <= r.requests <= fuel
    ensures r.Generated? ==> forall j | 0 <= j < size :: r.id[j] in alphabet
  {
    if |alphabet| <= 0 || |alphabet| >= 256 then
      InvalidArgument(AlphabetSizeMessage)
    else if size <= 0 then
      InvalidArgument(SizeMessage)
    else
      var mask := ByteMask(|alphabet|);
      var batches := Draws(src, BatchSize(|alphabet|, size), fuel);
      match SampleBatches(batches, alphabet, mask, size)
      case Filled(id, n) =>
        AcceptedInAlphabet(Flatten(batches), alphabet, mask);
        Generated(id, n)
      case Starved(_) =>
        Unfinished
  }

  /** For valid arguments, generate returns the first `size` accepted symbols of the bytes the
      source delivered, and is unfinished exactly when those bytes hold fewer. */
  lemma GenerateSamples(src: Source, alphabet: string, size: nat, fuel: nat)
    requires ValidAlphabetSize(|alphabet|) && 1 <= size
    ensures var batches := Draws(src, BatchSize(|alphabet|, size), fuel);
      var all := Accepted(Flatten(batches), alphabet, ByteMask(|alphabet|));
      var r := Generate(src, alphabet, size, fuel);
      && (r.Generated? <==> size <= |all|)
      && (r.Unfinished? <==> |all| < size)
      && (r.Generated? ==> r.id == all[..size])
  {
    var mask := ByteMask(|alphabet|);
    var batches := Draws(src, BatchSize(|alphabet|, size), fuel);
    GenerateFilled(src, alphabet, size, fuel);
    SampleOutcome(batches, alphabet, mask, size);
  }

  /** Invalid arguments are rejected without looking at the source: the result is the same
      for every source and every request budget, including none. */
  lemma ValidationBeforeRead(src1: Source, src2: Source, alphabet: string, size: nat, fuel: nat)
    requires !ValidAlphabetSize(|alphabet|) || size == 0
    ensures Generate(src1, alphabet, size, 0) == Generate(src2, alphabet, size, fuel)
    ensures Generate(src1, alphabet, size, 0).InvalidArgument?
  {
  }

  /** A one-symbol alphabet yields `size` copies of that symbol. */
  lemma SingleSymbolAlphabet(src: Source, c: char, size: nat, fuel: nat)
    ensures var r := Generate(src, [c], size, fuel);
      r.Generated? ==> r.id == seq(size, _ => c)
  {
    var r := Generate(src, [c], size, fuel);
    if r.Generated? {
      assert forall j | 0 <= j < size :: r.id[j] in [c];
    }
  }

  /** When the alphabet size is a power of two the mask is alphabet size - 1. */
  lemma MaskOfPowerOfTwo(k: nat)
    requires 1 <= k <= 7
    ensures ValidAlphabetSize(Pow2(k))
    ensures Mask(Pow2(k)) == Pow2(k) - 1
  {
    Pow2Monotone(k, 7);
    Pow2Table();
    MaskShape(Pow2(k));
    MaskMinimal(Pow2(k), k);
  }

  /** With mask == alphabet size - 1 no byte is ever rejected. */
  lemma NoRejection(b: bv8, alphabet: string)
    requires ValidAlphabetSize(|alphabet|)
    requires Mask(|alphabet|) == |alphabet| - 1
    ensures Accepts(b, alphabet, ByteMask(|alphabet|))
  {
    MaskedBelowMask(b, ByteMask(|alphabet|));
  }

  /** With mask == alphabet size - 1 and a batch at least as long as the identifier, the first
      request completes the identifier: symbol i is the one byte i of that batch selects. */
  lemma OneRequestSuffices(src: Source, alphabet: string, size: nat, fuel: nat)
    requires ValidAlphabetSize(|alphabet|) && 1 <= size && 1 <= fuel
    requires Mask(|alphabet|) == |alphabet| - 1
    requires size <= BatchSize(|alphabet|, size)
    requires NextBytes(src, BatchSize(|alphabet|, size)).Drawn?
    ensures var batch := NextBytes(src, BatchSize(|alphabet|, size)).bytes;
      var r := Generate(src, alphabet, size, fuel);
      && r.Generated? && r.requests == 1
      && forall i | 0 <= i < size ::
        Accepts(batch[i], alphabet, ByteMask(|alphabet|)) && r.id[i] == alphabet[IndexOf(batch[i], ByteMask(|alphabet|))]
  {
    var mask := ByteMask(|alphabet|);
    var batch := NextBytes(src, BatchSize(|alphabet|, size)).bytes;
    FirstRequestResult(src, alphabet, size, fuel);
    AcceptedPrefix(batch, alphabet, mask, size);
  }

  lemma FirstRequestResult(src: Source, alphabet: string, size: nat, fuel: nat)
    requires ValidAlphabetSize(|alphabet|) && 1 <= size && 1 <= fuel
    requires Mask(|alphabet|) == |alphabet| - 1
    requires size <= BatchSize(|alphabet|, size)
    requires NextBytes(src, BatchSize(|alphabet|, size)).Drawn?
    ensures var batch := NextBytes(src, BatchSize(|alphabet|, size)).bytes;
      var mask := ByteMask(|alphabet|);
      && (forall i | 0 <= i < |batch| :: Accepts(batch[i], alphabet, mask))
      && |Accepted(batch, alphabet, mask)| == |batch|
      && Generate(src, alphabet, size, fuel) == Generated(Accepted(batch, alphabet, mask)[..size], 1)
  {
    var step := BatchSize(|alphabet|, size);
    var mask := ByteMask(|alphabet|);
    var batch := NextBytes(src, step).bytes;
    var batches := Draws(src, step, fuel);
    FirstDraw(src, step, fuel);
    forall i | 0 <= i < |batch|
      ensures Accepts(batch[i], alphabet, mask)
    {
      NoRejection(batch[i], alphabet);
    }
    FirstBatchFills(batches, alphabet, mask, size);
    GenerateFilled(src, alphabet, size, fuel);
  }

  lemma FirstDraw(src: Source, size: nat, fuel: nat)
    requires 1 <= fuel && NextBytes(src, size).Drawn?
    ensures 1 <= |Draws(src, size, fuel)| && Draws(src, size, fuel)[0] == NextBytes(src, size).bytes
  {
  }

  /** For valid arguments generate reports what the sampling loop produced from the batches
      the source delivered. */
  lemma GenerateFilled(src: Source, alphabet: string, size: nat, fuel: nat)
    requires ValidAlphabetSize(|alphabet|) && 1 <= size
    ensures var s := SampleBatches(Draws(src, BatchSize(|alphabet|, size), fuel), alphabet, ByteMask(|alphabet|), size);
      && (s.Filled? ==> Generate(src, alphabet, size, fuel) == Generated(s.id, s.requests))
      && (s.Starved? ==> Generate(src, alphabet, size, fuel) == Unfinished)
  {
  }

  /** nanoid::generate(random): default alphabet and size. */
  function GenerateDefault(src: Source, fuel: nat): (r: Generation)
    ensures !r.InvalidArgument?
    ensures r.Generated? ==> |r.id| == DefaultSize && forall j | 0 <= j < DefaultSize :: r.id[j] in DefaultAlphabet
  {
    Generate(src, DefaultAlphabet, DefaultSize, fuel)
  }

  /** nanoid::generate(random, alphabet): default size. */
  function GenerateWithAlphabet(src: Source, alphabet: string, fuel: nat): (r: Generation)
    ensures r.InvalidArgument? <==> !ValidAlphabetSize(|alphabet|)
    ensures r.Generated? ==> |r.id| == DefaultSize && forall j | 0 <= j < DefaultSize :: r.id[j] in alphabet
  {
    Generate(src, alphabet, DefaultSize, fuel)
  }

  /** nanoid::generate(random, size): default alphabet. */
  function GenerateWithSize(src: Source, size: nat, fuel: nat): (r: Generation)
    ensures r.InvalidArgument? <==> size == 0
    ensures r.Generated? ==> |r.id| == size && forall j | 0 <= j < size :: r.id[j] in DefaultAlphabet
  {
    Generate(src, DefaultAlphabet, size, fuel)
  }

  /** The default alphabet has 64 symbols, so its mask is 63, no byte is rejected, and a request
      of 34 bytes covers the 21 default symbols: whenever the source answers, one request
      produces the identifier. */
  lemma DefaultsNeedOneRequest(src: Source, fuel: nat)
    requires 1 <= fuel
    requires NextBytes(src, 34).Drawn?
    ensures Mask(|DefaultAlphabet|) == 63
    ensures BatchSize(|DefaultAlphabet|, DefaultSize) == 34
    ensures var batch := NextBytes(src, 34).bytes; var r := GenerateDefault(src, fuel);
      && r.Generated? && r.requests == 1
      && forall i | 0 <= i < DefaultSize :: r.id[i] == DefaultAlphabet[(batch[i] & 63) as int]
  {
    DefaultParameters();
    OneRequestSuffices(src, DefaultAlphabet, DefaultSize, fuel);
  }

  lemma DefaultParameters()
    ensures |DefaultAlphabet| == 64
    ensures Mask(64) == 63 && ByteMask(64) == 63
    ensures BatchSize(64, 21) == 34
  {
    MaskTable(64);
  }
}
