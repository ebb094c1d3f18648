# nanoid (C++) generator core in Dafny

This project models the identifier generator of the C++ nanoid library and proves properties of the model.
`generate(random, alphabet, size)` first checks its arguments.
It then derives two parameters:

- a bit mask, the smallest all-ones value covering every alphabet position, computed with a count-leading-zeros trick;
- a batch size, `step`.

It then keeps asking a byte source for `step` random bytes.
For each byte it keeps the masked value when that value names an alphabet symbol and rejects it otherwise.
It stops as soon as `size` symbols are placed.

Two byte sources have visible behaviour, and both are modelled:

- `crypto_random<G>`, which slices 32-bit generator words into bytes;
- the test source `predefined_random`, which answers every request with a prefix of a repeated pattern, reversed.

Modules, one per file:

- `Bits` (`bits.dfy`): `impl::clz32` as written (bit smear and SWAR popcount on two's-complement `int`), powers of two and bit length.
- `Params` (`params.dfy`): the mask as written (`ClzMask`) and its reference definition (`Mask`), the batch size `Step`, and the mask check of the unit tests.
- `Sampling` (`sampling.dfy`): the rejection-sampling loop over a finite sequence of delivered batches.
  - `Accepted` is the reference definition: the accepted symbols of a byte sequence, in order.
  - `Meets` is the specification of the loop's outcome. `Fill` and the imperative `SampleLoop` both meet it, and `MeetsUnique` shows it allows one outcome only.
- `Sources` (`sources.dfy`): `crypto_random::next_bytes` as an imperative method and a reference definition, `predefined_random::next_bytes`, and a `Source` datatype for the two sources with their request sequence `Draws`.
- `Generator` (`generator.dfy`): `generate` with its validation, messages and default-argument overloads.
- `GoldenCases` (`golden.dfy`): the fixed expectations of the unit tests, derived from the model.

The original loops forever when the source never supplies enough accepted bytes.
The model therefore allows at most `fuel` requests and reports `Unfinished` when they run out.
A word source with too few words left also ends the run, and so does a predefined source with an empty pattern, whose loop in the test never advances.

The mask in `Generate` is the reference `Mask`.
`Params.ClzMaskIsMask` proves it equal to the clz32 expression of the source for every alphabet size `generate` accepts.

## Model

| member | source | states |
|---|---|---|
| Bits.Clz32Correct | src/nanoid/nanoid.cpp:13-29 | For every argument from 1 to 255, clz32 returns 32 minus the argument's bit length. |
| Bits.Clz32OnBytes | src/nanoid/nanoid.cpp:13-29 | clz32 of every byte-sized argument, bracket by bracket: 32 for zero, 31 for 1, down to 24 for 128..255. |
| Params.ClzMaskTable | src/nanoid/nanoid.cpp:110 | The mask `(2 << (31 - clz32((alphSize-1)\|1))) - 1` is 1, 3, 7, …, 255 as alphSize - 1 falls below 2, 4, 8, …, 256. |
| Params.ClzMaskIsMask | src/nanoid/nanoid.cpp:110 | The clz32 mask equals 2^w - 1, where w is the bit length of alphSize - 1 and at least 1, for every alphabet size 1..255. |
| Params.MaskShape | src/nanoid/nanoid.cpp:110 | The mask width is between 1 and 8. The mask is at least 1, covers alphSize - 1, and fits in a byte. |
| Params.MaskMinimal | src/nanoid/nanoid.cpp:110 | No smaller all-ones value 2^k - 1 with k >= 1 covers alphSize - 1. |
| Params.MaskOfSingleSymbol | src/nanoid/nanoid.cpp:110 | For one symbol, alphSize - 1 is 0 and clz32(0) is 32, which would make the shift count negative. The `\| 1` turns the argument into 1, so the clz32 formula and the reference both give mask 1. |
| Params.MaskAcceptsMoreThanHalf | src/nanoid/nanoid.cpp:110 | For two or more symbols, mask + 1 < 2 * alphSize: more than half of all masked values are accepted. |
| Params.Step | src/nanoid/nanoid.cpp:111 | Every request asks for at least one byte. |
| Params.StepIsCeiling | src/nanoid/nanoid.cpp:111 | The step is the least integer at or above 1.6 * mask * size / alphSize. |
| Params.StepCanBeBelowSize | src/nanoid/nanoid.cpp:111 | With two symbols and size 5 the step is 4, smaller than the identifier. |
| Params.MaskEquivalence | tests/unit_tests.cpp:180-188 | For alphabet sizes 2..255 the mask equals the test's reference `(2 << floor(log2(n - 1))) - 1`. |
| Params.TestMaskAsWritten | tests/unit_tests.cpp:182-186 | The test's reference mask, taken with an exact floor(log2), is undefined at length 1. On every other iteration, 2..255, it equals the clz32 mask it is compared with. |
| Params.TestMaskUndefinedAtOne | tests/unit_tests.cpp:182-184 | At length 1, the loop's first iteration, the reference takes log(0) and has no defined value. |
| Params.TestMaskCorrectedAgrees | tests/unit_tests.cpp:180-188 | The corrected reference (mask 1 at length 1) equals the clz32 mask for every length 1..255. |
| Sampling.Pick | src/nanoid/nanoid.cpp:126-129 | A byte yields exactly one symbol iff `(b & mask) < alphSize`, and that symbol is `alphabet[b & mask]`. |
| Sampling.AcceptedAppend | src/nanoid/nanoid.cpp:118-135 | The symbols accepted from two byte runs laid end to end are those of the first followed by those of the second. |
| Sampling.AcceptedInAlphabet | src/nanoid/nanoid.cpp:129 | Every accepted symbol belongs to the alphabet. |
| Sampling.AcceptedWithoutRejection | src/nanoid/nanoid.cpp:126-129 | When no byte is rejected, symbol i is `alphabet[byte i & mask]` and no symbol is lost. |
| Sampling.AcceptedPrefix | src/nanoid/nanoid.cpp:126-133 | When no byte is rejected, the first n symbols come from the first n bytes. |
| Sampling.Scan | src/nanoid/nanoid.cpp:123-135 | One batch appends its accepted symbols to those already placed, truncated at `size`. |
| Sampling.Fill | src/nanoid/nanoid.cpp:118-137 | The outer loop meets its specification. The identifier is the first `size` accepted symbols of all delivered bytes. It finishes at the first batch that completes the identifier, or is starved holding every accepted symbol. |
| Sampling.SampleOutcome | src/nanoid/nanoid.cpp:118-137 | Sampling finishes iff the delivered bytes hold at least `size` accepted symbols, and then yields the first `size` of them. |
| Sampling.MeetsUnique | src/nanoid/nanoid.cpp:118-137 | At most one outcome meets the loop's specification. |
| Sampling.AcceptedCountMonotone | src/nanoid/nanoid.cpp:118-137 | More requests never yield fewer accepted symbols. |
| Sampling.FilledIgnoresLaterBatches | src/nanoid/nanoid.cpp:130-133 | Batches after the one that completes the identifier never change the result. |
| Sampling.FillsAtRequest | src/nanoid/nanoid.cpp:118-133 | If n - 1 batches hold fewer than `size` accepted symbols and n batches hold enough, the loop returns after request n with the first `size` symbols. |
| Sampling.FirstBatchFills | src/nanoid/nanoid.cpp:121-133 | A first batch without rejections and at least `size` long completes the identifier alone. |
| Sampling.SampleLoop | src/nanoid/nanoid.cpp:113-137 | The imperative loop (idBuilder, write index cnt, early return) meets the specification and agrees with `SampleBatches`. |
| Sampling.ScanLoop | src/nanoid/nanoid.cpp:123-135 | The inner loop keeps cnt below `size` while writing. It returns at the byte that completes the identifier, or at the end of the batch with the accepted symbols so far. |
| Sources.ShiftedByte | inc/nanoid/crypto_random.h:52 | The truncating cast `(uint8_t)(last >> 8j)` is byte j of the word. |
| Sources.LeBytes | inc/nanoid/crypto_random.h:44-47 | Byte i of the stored words is byte i mod 4 of word i div 4, little-endian. |
| Sources.PutWords | inc/nanoid/crypto_random.h:42-47 | The whole-word loop makes reps / 4 generator calls and fills the first reps bytes, leaving the rest untouched. |
| Sources.PutTail | inc/nanoid/crypto_random.h:49-53 | The tail loop writes byte i - reps of the last word at every position reps <= i < size and nothing else. |
| Sources.AdapterNextBytes | inc/nanoid/crypto_random.h:40-54 | next_bytes makes ceil(size / 4) generator calls, with no extra call when size is a multiple of 4 (none for 0). It writes exactly the first `size` bytes, which are the little-endian serialisation of the drawn words. Tail byte i comes from the last word, with i - reps <= 2. |
| Sources.CycleChunks | tests/unit_tests.cpp:40-48 | The intermediate vector is the length-`size` prefix of the pattern repeated cyclically. |
| Sources.PredefinedBytes | tests/unit_tests.cpp:38-54 | The buffer has `size` bytes and `buffer[i] == pattern[(size - 1 - i) mod |pattern|]`. |
| Sources.NextBytes | tests/unit_tests.cpp:38-54 | A predefined source answers iff its pattern is non-empty (or nothing is asked) and is unchanged by answering. A word source answers iff ceil(size/4) words remain. Every answer has the requested length. |
| Sources.Draws | src/nanoid/nanoid.cpp:121 | Every request of a run asks for the same number of bytes, and there are at most `fuel` of them. |
| Sources.PredefinedDraws | tests/unit_tests.cpp:38-54 | The test source is stateless: every request of a size yields the same batch. |
| Sources.WordStreamDraws | inc/nanoid/crypto_random.h:40-54 | A word source serves min(fuel, words / ceil(size/4)) requests. Request k reads the words after the k * ceil(size/4) used before it. |
| Generator.Generate | src/nanoid/nanoid.cpp:93-137 | The result is an invalid argument iff the alphabet size is outside 1..255 or size is 0, with the source's messages in that order of checks. A finished identifier has exactly `size` symbols, all from the alphabet, after 1..fuel requests. |
| Generator.GenerateSamples | src/nanoid/nanoid.cpp:105-137 | For valid arguments, the identifier is the first `size` accepted symbols of the delivered bytes. The run is unfinished exactly when those bytes hold fewer. |
| Generator.ValidationBeforeRead | src/nanoid/nanoid.cpp:95-103 | Invalid arguments give the same result for every source and every request budget, including none. |
| Generator.SingleSymbolAlphabet | src/nanoid/nanoid.cpp:126-133 | A one-symbol alphabet yields `size` copies of its symbol. |
| Generator.MaskOfPowerOfTwo | src/nanoid/nanoid.cpp:110 | For alphabet sizes 2, 4, …, 128 the mask is alphabet size - 1. |
| Generator.NoRejection | src/nanoid/nanoid.cpp:126-128 | When mask == alphabet size - 1, no byte is rejected. |
| Generator.OneRequestSuffices | src/nanoid/nanoid.cpp:110-133 | With mask == alphabet size - 1 and step >= size, the first answered request completes the identifier, and symbol i is `alphabet[byte i & mask]`. |
| Generator.GenerateDefault | src/nanoid/nanoid.cpp:81-84 | The default overload never rejects its arguments. Its identifier has 21 symbols from the 64-symbol default alphabet. |
| Generator.GenerateWithAlphabet | src/nanoid/nanoid.cpp:85-88 | With the default size, only the alphabet can be rejected. The identifier has 21 symbols of that alphabet. |
| Generator.GenerateWithSize | src/nanoid/nanoid.cpp:89-92 | With the default alphabet, only size 0 is rejected. The identifier has `size` default symbols. |
| Generator.DefaultParameters | src/nanoid/nanoid.cpp:7-8 | The default alphabet has 64 symbols, mask 63, and 21 symbols request 34 bytes. |
| Generator.DefaultsNeedOneRequest | src/nanoid/nanoid.cpp:81-84 | With the defaults, one answered request of 34 bytes yields the identifier, symbol i being `alphabet[byte i & 63]`. |
| GoldenCases.GoldenParameters | src/nanoid/nanoid.cpp:110-111 | For "abcde": mask 7; sizes 4 and 18 request 9 and 41 bytes. |
| GoldenCases.GoldenBatchOfNine | tests/unit_tests.cpp:38-54 | A 9-byte request to the golden source returns 0, 7, 7, 7, 7, 7, 3, 255, 2. |
| GoldenCases.GoldenBatchOfFortyOne | tests/unit_tests.cpp:38-54 | A 41-byte request returns the byte 2 followed by four periods 1, 0, 7, 7, 7, 7, 7, 3, 255, 2. |
| GoldenCases.GoldenSizeFour | tests/unit_tests.cpp:105-116 | With two or more requests allowed, `generate(r, "abcde", 4)` is "adca", finished on the second request. |
| GoldenCases.GoldenSizeFourNeedsTwoRequests | tests/unit_tests.cpp:105-116 | One request is not enough for "adca": its 9 bytes give only "adc". |
| GoldenCases.GoldenSizeEighteen | tests/unit_tests.cpp:105-116 | With two or more requests allowed, `generate(r, "abcde", 18)` is "cbadcbadcbadcbadcc", finished on the second request. |
| GoldenCases.GoldenSingleLetter | tests/unit_tests.cpp:97-103 | Alphabet "a" with size 5 gives "aaaaa" whenever the run finishes. |
| GoldenCases.GoldenCustomAlphabet | tests/unit_tests.cpp:84-95 | Alphabet "1234abcd" with size 7 has mask 7 and step 10. One answered request gives the identifier, symbol i being `"1234abcd"[byte i & 7]`. |

The step can be smaller than the identifier length. `Params.StepCanBeBelowSize` shows step 4 for two symbols and size 5, so several requests may be needed even when no byte is rejected.

## Left out

- The process-wide `std::random_device` source of the argument-less overloads (src/nanoid/nanoid.cpp:9, 31-46) is nondeterministic. Those overloads are the ones with an explicit source, applied to a `Source` supplied by the caller. `generate(alphabet, size)` is `Generate` itself.
- Generate: the source's `while (true)` loop has no bound. The model allows `fuel` requests and returns `Unfinished` when they, or the source, run out.
- `Source` is closed to the two visible implementations of `crypto_random_base`. The base class's own `next_bytes` body and user-defined sources are not part of this model.
- The uniform random bit generator inside `crypto_random<G>` is a finite sequence of its next outputs. Its `min`, `max` and `operator()` wrappers are trivial and not modelled. The test source's `operator()` has no return statement and is never called.
- Params.Step: the source computes the step in `double` as `ceil(1.6 * mask * size / alphSize)`. The model uses the exact integer ceiling of 16 * mask * size / (10 * alphSize). The two differ when rounding pushes a whole quotient just above an integer. For 3 symbols (mask 3) and size 5, the `double` value of `1.6*3*5/3` is 8.000000000000002, so the program requests 9 bytes where the model requests 8. On such inputs `Generate`'s batches, and for a fixed source its identifier, differ from the program's. Integer overflow of the step for huge sizes is not modelled either.
- Params.TestMaskAsWritten: the test computes `std::floor(std::log(length - 1) / std::log(2))` in `double`. The model takes this quotient as the exact floor(log2(length - 1)) (`Params.FloorLog2`). So the agreement with the clz32 mask is proved for the exact reference. It is not proved for the rounded `double` quotient, and the same holds for `Params.MaskEquivalence`.
- Generator.Generate: each `char` of the alphabet and of the identifier stands for one byte of the `std::string`, so only alphabets whose characters are below 256 correspond to the program. The program counts and indexes bytes (src/nanoid/nanoid.cpp:95, 105, 129). A UTF-8 alphabet of 200 copies of 'é' is 400 bytes, which the program rejects while the model accepts 200 characters. A multi-byte character is one alphabet symbol here but several to the program. Sampling.Pick and Sampling.Accepted index characters in the same way.
- Sources.LeBytes: the word store through a `uint32_t*` cast depends on the platform byte order. The model assumes a little-endian target.
- Bits.Clz32Correct: proved only for arguments 1..255, the range `generate` passes. Arguments of 256 and above are not covered.
- `generate_async` and its overloads (src/nanoid/nanoid.cpp:48-79) are `std::async` plumbing with no behaviour of their own.
- The collision and distribution tests (tests/unit_tests.cpp:138-178) are statistical and use floating point. The remaining test cases only check lengths or regex shapes, which `Generate`'s contract covers.
- The OpenSSL example wraps a foreign `RAND_bytes` call and console output.
- inc/nanoid/nanoid.h and inc/nanoid/settings.h are not part of this model. They only declare the functions above and the namespace macro.

## Findings

| source | as written | input that shows it | evidently intended | confidence | as-written member | corrected member |
|---|---|---|---|---|---|---|
| tests/unit_tests.cpp:182-184 | The TestMask loop starts at `length = 1` and computes `floor(log(length - 1) / log(2))`, that is, the logarithm of 0. | length 1, the first iteration: `std::log(0)` is negative infinity, and converting its floor to `int` is undefined behaviour. | Start the comparison at length 2, or use mask 1 for length 1, the value the clz32 mask gives. | not executed | Params.TestMaskAsWritten, Params.TestMaskUndefinedAtOne | Params.TestMaskCorrected, Params.TestMaskCorrectedAgrees |
