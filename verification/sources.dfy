/** The byte sources whose behaviour is visible: the crypto_random<G> adapter that slices
    32-bit generator words into bytes, and the cyclic test source predefined_random. */
module Sources {

  // A generator word (result_type, uint32) is four bytes.

  /** Byte j (0 = least significant) of a word. */
  function ByteOf(w: bv32, j: nat): bv8
    requires j < 4
  {
    if j == 0 then (w & 0xFF) as bv8
    else if j == 1 then ((w >> 8) & 0xFF) as bv8
    else if j == 2 then ((w >> 16) & 0xFF) as bv8
    else (w >> 24) as bv8
  }

  /** The tail byte as next_bytes computes it: (uint8_t)(last >> 8j). */
  function TailByte(last: bv32, j: nat): bv8
    requires j < 4
  {
    ((last >> (8 * j)) & 0xFF) as bv8
  }

  /** The truncating cast picks byte j. */
  lemma ShiftedByte(w: bv32, j: nat)
    requires j < 4
    ensures TailByte(w, j) == ByteOf(w, j)
  {
    if j == 0 {
      assert w >> (8 * j) == w;
    } else if j == 1 {
      assert w >> (8 * j) == w >> 8;
    } else if j == 2 {
      assert w >> (8 * j) == w >> 16;
    } else {
      assert w >> (8 * j) == w >> 24;
    }
  }

  /** Computes `(uint8_t)(last >> 8j)`, which is byte j of `last`. */
  method CastTailByte(last: bv32, j: nat) returns (b: bv8)
    requires j < 4
    ensures b == ByteOf(last, j)
  {
    b := TailByte(last, j);
    ShiftedByte(last, j);
  }

  /** The four bytes a word occupies when stored through a uint32 pointer, on a
      little-endian target. */
  function LittleEndian(w: bv32): (bytes: seq<bv8>)
    ensures |bytes| == 4
    ensures forall j | 0 <= j < 4 :: bytes[j] == ByteOf(w, j)
  {
    [ByteOf(w, 0), ByteOf(w, 1), ByteOf(w, 2), ByteOf(w, 3)]
  }

  /** Words laid out one after another, each little-endian. */
  function LeBytes(words: seq<bv32>): (bytes: seq<bv8>)
    ensures |bytes| == 4 * |words|
    ensures forall i | 0 <= i < |bytes| :: bytes[i] == ByteOf(words[i / 4], i % 4)
  {
    if |words| == 0 then [] else LittleEndian(words[0]) + LeBytes(words[1..])
  }

  /** Number of generator calls a request for `size` bytes needs: ceil(size / 4). */
  function WordCalls(size: nat): nat
  {
    (size + 3) / 4
  }

  /** Reference definition of crypto_random::next_bytes: the first `size` bytes of the
      little-endian serialisation of the words drawn. */
  function AdapterBytes(words: seq<bv32>, size: nat): (bytes: seq<bv8>)
    requires WordCalls(size) <= |words|
    ensures |bytes| == size
  {
    LeBytes(words[..WordCalls(size)])[..size]
  }

  /** crypto_random::next_bytes as written: whole words into the first `reps` bytes, then one
      more word whose low bytes fill the tail. `words` are the generator's next outputs;
      `buffer0` is the caller's buffer. */
  method AdapterNextBytes(words: seq<bv32>, buffer0: seq<bv8>, size: nat) returns (buffer: seq<bv8>, calls: nat)
    requires size <= |buffer0|
    requires WordCalls(size) <= |words|
    ensures calls == WordCalls(size)
    ensures size % 4 == 0 ==> calls == size / 4
    ensures |buffer| == |buffer0| && buffer[size..] == buffer0[size..]
    ensures buffer[..size] == AdapterBytes(words, size)
    ensures var reps := size / 4 * 4;
      forall i | reps <= i < size :: i - reps <= 2 && buffer[i] == ByteOf(words[calls - 1], i - reps)
  {
    var reps := (size / 4) * 4;
    buffer, calls := PutWords(words, buffer0, reps);
    if reps == size {
      AdapterBytesMatch(words, size, buffer, calls);
      return;
    }
    var last := words[calls];
    calls := calls + 1;
    buffer := PutTail(last, buffer, reps, size);
    forall j | 0 <= j < size
      ensures buffer[j] == ByteOf(words[j / 4], j % 4)
    {
      if reps <= j {
        TailPosition(size, j);
      }
    }
    AdapterBytesMatch(words, size, buffer, calls);
  }

  /** The whole-word loop: `reps / 4` generator words stored one after another. */
  method PutWords(words: seq<bv32>, buffer0: seq<bv8>, reps: nat) returns (buffer: seq<bv8>, calls: nat)
    requires reps % 4 == 0 && reps <= |buffer0| && reps / 4 <= |words|
    ensures calls == reps / 4
    ensures |buffer| == |buffer0| && buffer[reps..] == buffer0[reps..]
    ensures forall j | 0 <= j < reps :: buffer[j] == ByteOf(words[j / 4], j % 4)
  {
    buffer := buffer0;
    calls := 0;
    var i := 0;
    while i < reps
      invariant i <= reps && i % 4 == 0 && calls == i / 4
      invariant |buffer| == |buffer0|
      invariant forall j | 0 <= j < i :: buffer[j] == ByteOf(words[j / 4], j % 4)
      invariant buffer[i..] == buffer0[i..]
    {
      var w := words[calls];
      calls := calls + 1;
      PutWord(words, buffer, buffer0, i);
      buffer := buffer[..i] + LittleEndian(w) + buffer[i + 4..];
      i := i + 4;
    }
  }

  /** The tail loop: the low bytes of one more word into positions reps up to size. */
  method PutTail(last: bv32, buffer0: seq<bv8>, reps: nat, size: nat) returns (buffer: seq<bv8>)
    requires reps <= size <= |buffer0| && size - reps < 4
    ensures |buffer| == |buffer0|
    ensures buffer[..reps] == buffer0[..reps] && buffer[size..] == buffer0[size..]
    ensures forall j | reps <= j < size :: buffer[j] == ByteOf(last, j - reps)
  {
    buffer := buffer0;
    var i := reps;
    while i < size
      invariant reps <= i <= size
      invariant |buffer| == |buffer0|
      invariant buffer[..reps] == buffer0[..reps]
      invariant forall j | reps <= j < i :: buffer[j] == ByteOf(last, j - reps)
      invariant buffer[i..] == buffer0[i..]
    {
      var b := CastTailByte(last, i - reps);
      PutTailByte(buffer, buffer0, reps, i, last, b);
      buffer := buffer[i := b];
      i := i + 1;
    }
  }

  /** One iteration of the whole-word loop keeps its invariant. */
  lemma PutWord(words: seq<bv32>, buffer: seq<bv8>, buffer0: seq<bv8>, i: nat)
    requires i % 4 == 0 && i / 4 < |words| && i + 4 <= |buffer| == |buffer0|
    requires forall j | 0 <= j < i :: buffer[j] == ByteOf(words[j / 4], j % 4)
    requires buffer[i..] == buffer0[i..]
    ensures var next := buffer[..i] + LittleEndian(words[i / 4]) + buffer[i + 4..];
      && |next| == |buffer0|
      && (forall j | 0 <= j < i + 4 :: next[j] == ByteOf(words[j / 4], j % 4))
      && next[i + 4..] == buffer0[i + 4..]
  {
    var next := buffer[..i] + LittleEndian(words[i / 4]) + buffer[i + 4..];
    forall j | i <= j < i + 4
      ensures next[j] == ByteOf(words[j / 4], j % 4)
    {
      DivModUnique(j, 4, i / 4, j - i);
    }
    assert next[i + 4..] == buffer[i + 4..];
  }

  /** One iteration of the tail loop keeps its invariant: byte i - reps of `last` goes to
      position i. */
  lemma PutTailByte(buffer: seq<bv8>, buffer0: seq<bv8>, reps: nat, i: nat, last: bv32, v: bv8)
    requires reps <= i < |buffer| == |buffer0| && i - reps < 4
    requires v == ByteOf(last, i - reps)
    requires forall j | reps <= j < i :: buffer[j] == ByteOf(last, j - reps)
    requires buffer[i..] == buffer0[i..]
    ensures var next := buffer[i := v];
      && (forall j | reps <= j < i + 1 :: next[j] == ByteOf(last, j - reps))
      && next[..i] == buffer[..i]
      && next[i + 1..] == buffer0[i + 1..]
  {
    var next := buffer[i := v];
    assert next[i + 1..] == buffer[i + 1..];
  }

  /** A tail position lies in the word after the `reps` whole-word bytes. */
  lemma TailPosition(size: nat, j: nat)
    requires size / 4 * 4 <= j < size
    ensures j / 4 == size / 4 && j % 4 == j - size / 4 * 4 <= 2
    ensures WordCalls(size) == size / 4 + 1
  {
  }

  /** A buffer holding byte (i mod 4) of word (i div 4) at every position i < size is the
      reference output. */
  lemma AdapterBytesMatch(words: seq<bv32>, size: nat, buffer: seq<bv8>, calls: nat)
    requires calls == WordCalls(size) <= |words|
    requires size <= |buffer|
    requires forall j | 0 <= j < size :: buffer[j] == ByteOf(words[j / 4], j % 4)
    ensures buffer[..size] == AdapterBytes(words, size)
  {
    var ref := LeBytes(words[..calls]);
    assert forall j | 0 <= j < size :: ref[j] == ByteOf(words[j / 4], j % 4);
  }

  function Min(a: nat, b: nat): nat
  {
    if a <= b then a else b
  }

  lemma {:induction false} MulGap(m: int, a: int, b: int)
    requires m > 0 && a < b
    ensures m * a + m <= m * b
    decreases b - a
  {
    if a + 1 < b {
      MulGap(m, a, b - 1);
    }
    assert m * b == m * (b - 1) + m;
  }

  /** Quotient and remainder are unique. */
  lemma DivModUnique(x: int, m: int, q: int, r: int)
    requires m > 0 && 0 <= r < m && x == m * q + r
    ensures x % m == r && x / m == q
  {
    var q', r' := x / m, x % m;
    assert x == m * q' + r';
    if q' > q {
      MulGap(m, q, q');
      assert false;
    } else if q' < q {
      MulGap(m, q', q);
      assert false;
    }
  }

  lemma ModShift(j: nat, m: nat)
    requires 0 < m <= j
    ensures (j - m) % m == j % m
  {
    var q, r := (j - m) / m, (j - m) % m;
    assert j - m == m * q + r;
    assert j == m * (q + 1) + r;
    DivModUnique(j, m, q + 1, r);
  }

  /** A pattern prefix followed by a cyclic run (which is only non-empty after a whole
      copy of the pattern) is again a cyclic run. */
  lemma CyclicConcat(pattern: seq<bv8>, chunk: seq<bv8>, rest: seq<bv8>)
    requires |pattern| > 0
    requires |chunk| <= |pattern| && chunk == pattern[..|chunk|]
    requires |rest| > 0 ==> |chunk| == |pattern|
    requires forall j | 0 <= j < |rest| :: rest[j] == pattern[j % |pattern|]
    ensures forall j | 0 <= j < |chunk + rest| :: (chunk + rest)[j] == pattern[j % |pattern|]
  {
    var m := |pattern|;
    forall j | 0 <= j < |chunk + rest|
      ensures (chunk + rest)[j] == pattern[j % m]
    {
      if j < |chunk| {
        DivModUnique(j, m, 0, j);
      } else {
        ModShift(j, m);
        assert (chunk + rest)[j] == rest[j - m];
      }
    }
  }

  /** The `bytes` vector of predefined_random::next_bytes from loop index i on: whole copies
      of the pattern, the last one cut to reach `size`. */
  function CycleChunks(pattern: seq<bv8>, size: nat, i: nat): (bytes: seq<bv8>)
    requires |pattern| > 0
    ensures |bytes| == if i < size then size - i else 0
    ensures forall j | 0 <= j < |bytes| :: bytes[j] == pattern[j % |pattern|]
    decreases if i < size then size - i else 0
  {
    if i >= size then []
    else
      var chunk := pattern[..Min(size - i, |pattern|)];
      var rest := CycleChunks(pattern, size, i + |pattern|);
      CyclicConcat(pattern, chunk, rest);
      chunk + rest
  }

  /** predefined_random::next_bytes: the first `size` bytes of the pattern repeated
      cyclically, written to the buffer in reverse order. An empty pattern never finishes
      a non-empty request, so it is only defined for size 0. */
  function PredefinedBytes(pattern: seq<bv8>, size: nat): (buffer: seq<bv8>)
    requires |pattern| > 0 || size == 0
    ensures |buffer| == size
    ensures forall i | 0 <= i < size :: buffer[i] == pattern[(size - 1 - i) % |pattern|]
  {
    if size == 0 then []
    else
      var bytes := CycleChunks(pattern, size, 0);
      seq(size, i requires 0 <= i < size => bytes[size - i - 1])
  }

  /** A byte source: one of the visible crypto_random_base implementations, with its state.
      A WordStream holds the generator outputs still to come (a finite prefix of them). */
  datatype Source =
    | Predefined(pattern: seq<bv8>)
    | WordStream(words: seq<bv32>)

  /** The answer to one next_bytes request: the bytes and the source afterwards, or Stalled
      when the request does not complete (an empty pattern loops forever; a word stream has
      run past the modelled prefix). */
  datatype Draw = Drawn(bytes: seq<bv8>, next: Source) | Stalled

  function NextBytes(src: Source, size: nat): (d: Draw)
    ensures d.Drawn? ==> |d.bytes| == size
    ensures src.Predefined? ==> (d.Drawn? <==> |src.pattern| > 0 || size == 0)
    ensures src.Predefined? && d.Drawn? ==> d.next == src
    ensures src.WordStream? ==> (d.Drawn? <==> WordCalls(size) <= |src.words|)
  {
    match src
    case Predefined(p) =>
      if |p| == 0 && size > 0 then Stalled else Drawn(PredefinedBytes(p, size), src)
    case WordStream(ws) =>
      var c := WordCalls(size);
      if |ws| < c then Stalled else Drawn(AdapterBytes(ws, size), WordStream(ws[c..]))
  }

  /** The batches `fuel` successive requests of `size` bytes obtain, stopping at a stall. */
  function Draws(src: Source, size: nat, fuel: nat): (batches: seq<seq<bv8>>)
    ensures |batches| <= fuel
    ensures forall k | 0 <= k < |batches| :: |batches[k]| == size
    decreases fuel
  {
    if fuel == 0 then []
    else
      match NextBytes(src, size)
      case Stalled => []
      case Drawn(bytes, next) => [bytes] + Draws(next, size, fuel - 1)
  }

  /** The test source is stateless: every request of the same size gets the same bytes. */
  lemma {:induction false} PredefinedDraws(pattern: seq<bv8>, size: nat, fuel: nat)
    requires |pattern| > 0
    ensures Draws(Predefined(pattern), size, fuel) == seq(fuel, _ => PredefinedBytes(pattern, size))
    decreases fuel
  {
    if fuel > 0 {
      PredefinedDraws(pattern, size, fuel - 1);
    }
  }

  lemma ConsIndex<T>(s: seq<T>, x: T, tail: seq<T>, k: nat)
    requires s == [x] + tail && 1 <= k < |s|
    ensures s[k] == tail[k - 1]
  {
  }

  lemma DropDrop<T>(s: seq<T>, c: nat, a: nat)
    requires c + a <= |s|
    ensures s[c..][a..] == s[a + c..]
  {
  }

  lemma DivStep(n: nat, c: nat)
    requires 0 < c <= n
    ensures (n - c) / c == n / c - 1
  {
    var q, r := (n - c) / c, (n - c) % c;
    assert n - c == c * q + r;
    assert n == c * (q + 1) + r;
    DivModUnique(n, c, q + 1, r);
  }

  lemma MulStep(k: nat, c: nat)
    requires 1 <= k
    ensures (k - 1) * c + c == k * c
  {
  }

  /** Request k of a word stream is served from the words after the k * ceil(size/4)
      consumed by the requests before it. */
  predicate ServedFrom(words: seq<bv32>, size: nat, batches: seq<seq<bv8>>, k: nat)
    requires k < |batches|
  {
    var c := WordCalls(size);
    k * c + c <= |words| && batches[k] == AdapterBytes(words[k * c..], size)
  }

  /** A word stream serves min(fuel, |words| / ceil(size/4)) requests, each from the words
      the previous ones left. */
  lemma {:induction false} WordStreamDraws(words: seq<bv32>, size: nat, fuel: nat)
    requires 1 <= size
    ensures var batches := Draws(WordStream(words), size, fuel);
      && |batches| == Min(fuel, |words| / WordCalls(size))
      && forall k | 0 <= k < |batches| :: ServedFrom(words, size, batches, k)
    decreases fuel
  {
    var c := WordCalls(size);
    var batches := Draws(WordStream(words), size, fuel);
    if fuel == 0 {
    } else if |words| < c {
      assert batches == [];
      DivModUnique(|words|, c, 0, |words|);
    } else {
      var rest := words[c..];
      var tail := Draws(WordStream(rest), size, fuel - 1);
      WordStreamDraws(rest, size, fuel - 1);
      assert batches == [AdapterBytes(words, size)] + tail;
      DivStep(|words|, c);
      forall k | 0 <= k < |batches|
        ensures ServedFrom(words, size, batches, k)
      {
        ServedAfterFirst(words, size, batches, tail, k);
      }
    }
  }

  /** Request k of the stream is request k - 1 of the words left after the first request. */
  lemma ServedAfterFirst(words: seq<bv32>, size: nat, batches: seq<seq<bv8>>, tail: seq<seq<bv8>>, k: nat)
    requires WordCalls(size) <= |words|
    requires batches == [AdapterBytes(words, size)] + tail && k < |batches|
    requires forall m | 0 <= m < |tail| :: ServedFrom(words[WordCalls(size)..], size, tail, m)
    ensures ServedFrom(words, size, batches, k)
  {
    var c := WordCalls(size);
    if k == 0 {
      assert words[0 * c..] == words;
    } else {
      var a := (k - 1) * c;
      MulStep(k, c);
      ConsIndex(batches, AdapterBytes(words, size), tail, k);
      assert ServedFrom(words[c..], size, tail, k - 1);
      DropDrop(words, c, a);
    }
  }
}
