/** The rejection-sampling loop of generate, over the batches the byte source delivered. */
module Sampling {

  /** The alphabet position a random byte selects: the byte with every bit above the mask
      cleared (`bytes[i] & mask`). */
  function IndexOf(b: bv8, mask: bv8): nat
  {
    (b & mask) as int
  }

  /** The accept/reject rule: a byte is used only when its masked value names a symbol. */
  predicate Accepts(b: bv8, alphabet: string, mask: bv8)
  {
    IndexOf(b, mask) < |alphabet|
  }

  /** What one byte contributes to the identifier: its symbol, or nothing when rejected. */
  function Pick(b: bv8, alphabet: string, mask: bv8): (s: string)
    ensures Accepts(b, alphabet, mask) <==> |s| == 1
    ensures |s| <= 1
    ensures |s| == 1 ==> s[0] == alphabet[IndexOf(b, mask)]
  {
    if Accepts(b, alphabet, mask) then [alphabet[IndexOf(b, mask)]] else []
  }

  /** Reference definition: the symbols of all accepted bytes, in byte order. */
  function Accepted(bytes: seq<bv8>, alphabet: string, mask: bv8): string
  {
    if |bytes| == 0 then [] else Pick(bytes[0], alphabet, mask) + Accepted(bytes[1..], alphabet, mask)
  }

  lemma {:induction false} AcceptedAppend(a: seq<bv8>, b: seq<bv8>, alphabet: string, mask: bv8)
    ensures Accepted(a + b, alphabet, mask) == Accepted(a, alphabet, mask) + Accepted(b, alphabet, mask)
    decreases |a|
  {
    if |a| > 0 {
      assert (a + b)[1..] == a[1..] + b;
      AcceptedAppend(a[1..], b, alphabet, mask);
    } else {
      assert a + b == b;
    }
  }

  /** Every accepted symbol is alphabet[j] for some j below the alphabet size. */
  lemma {:induction false} AcceptedInAlphabet(bytes: seq<bv8>, alphabet: string, mask: bv8)
    ensures forall c | c in Accepted(bytes, alphabet, mask) :: c in alphabet
    decreases |bytes|
  {
    if |bytes| > 0 {
      AcceptedInAlphabet(bytes[1..], alphabet, mask);
    }
  }

  /** With no rejected byte, every byte yields exactly its masked symbol. */
  lemma {:induction false} AcceptedWithoutRejection(bytes: seq<bv8>, alphabet: string, mask: bv8)
    requires forall i | 0 <= i < |bytes| :: Accepts(bytes[i], alphabet, mask)
    ensures |Accepted(bytes, alphabet, mask)| == |bytes|
    ensures forall i | 0 <= i < |bytes| ::
      IndexOf(bytes[i], mask) < |alphabet| && Accepted(bytes, alphabet, mask)[i] == alphabet[IndexOf(bytes[i], mask)]
    decreases |bytes|
  {
    if |bytes| > 0 {
      AcceptedWithoutRejection(bytes[1..], alphabet, mask);
    }
  }

  /** The first n symbols taken from a batch without rejections are the masked symbols of its
      first n bytes. */
  lemma AcceptedPrefix(bytes: seq<bv8>, alphabet: string, mask: bv8, n: nat)
    requires n <= |bytes|
    requires forall i | 0 <= i < |bytes| :: Accepts(bytes[i], alphabet, mask)
    ensures n <= |Accepted(bytes, alphabet, mask)|
    ensures forall i | 0 <= i < n ::
      Accepts(bytes[i], alphabet, mask) && Accepted(bytes, alphabet, mask)[..n][i] == alphabet[IndexOf(bytes[i], mask)]
  {
    AcceptedWithoutRejection(bytes, alphabet, mask);
  }

  /** The batches laid end to end. */
  function Flatten(batches: seq<seq<bv8>>): seq<bv8>
  {
    if |batches| == 0 then [] else batches[0] + Flatten(batches[1..])
  }

  lemma {:induction false} FlattenAppend(a: seq<seq<bv8>>, b: seq<seq<bv8>>)
    ensures Flatten(a + b) == Flatten(a) + Flatten(b)
    decreases |a|
  {
    if |a| > 0 {
      assert (a + b)[1..] == a[1..] + b;
      FlattenAppend(a[1..], b);
    } else {
      assert a + b == b;
    }
  }

  /** The outcome of the sampling loop: the identifier and the number of batch requests it
      took, or (when the delivered batches run out first) the symbols accepted so far. */
  datatype Sample = Filled(id: string, requests: nat) | Starved(partial: string)

  /** Number of symbols accepted from the first n batches, counting `acc` already placed. */
  function AcceptedCount(batches: seq<seq<bv8>>, n: nat, alphabet: string, mask: bv8, acc: string): nat
    requires n <= |batches|
  {
    |acc| + |Accepted(Flatten(batches[..n]), alphabet, mask)|
  }

  /** What the loop must produce, stated against the reference definition: the identifier is
      the first `size` accepted symbols of all delivered bytes (after the `acc` already placed),
      and the loop stops at the first batch that completes it. When the batches do not hold
      `size` accepted symbols, it has placed all of them and not finished. */
  ghost predicate Meets(batches: seq<seq<bv8>>, alphabet: string, mask: bv8, size: nat, acc: string, s: Sample)
  {
    var all := acc + Accepted(Flatten(batches), alphabet, mask);
    match s
    case Filled(id, n) =>
      && size <= |all| && id == all[..size]
      && 1 <= n <= |batches|
      && AcceptedCount(batches, n - 1, alphabet, mask, acc) < size <= AcceptedCount(batches, n, alphabet, mask, acc)
    case Starved(partial) => |all| < size && partial == all
  }

  /** The inner `for` loop over one batch: appends accepted symbols to `acc`, returning as soon
      as `size` symbols are placed and dropping the rest of the batch. */
  function Scan(batch: seq<bv8>, alphabet: string, mask: bv8, size: nat, acc: string): (out: string)
    requires |acc| < size
    ensures var all := acc + Accepted(batch, alphabet, mask);
      if |all| < size then out == all else out == all[..size]
    decreases |batch|
  {
    if |batch| == 0 then acc
    else
      var acc1 := acc + Pick(batch[0], alphabet, mask);
      assert acc + Accepted(batch, alphabet, mask) == acc1 + Accepted(batch[1..], alphabet, mask);
      if |acc1| == size then acc1 else Scan(batch[1..], alphabet, mask, size, acc1)
  }

  /** Flatten of a prefix of batches, split after its first batch. */
  lemma FlattenPrefix(batches: seq<seq<bv8>>, n: nat)
    requires 1 <= n <= |batches|
    ensures Flatten(batches[..n]) == batches[0] + Flatten(batches[1..][..n - 1])
  {
    assert batches[..n][1..] == batches[1..][..n - 1];
  }

  /** The outer `while (true)` loop: one batch per iteration until the identifier is full. */
  function Fill(batches: seq<seq<bv8>>, alphabet: string, mask: bv8, size: nat, acc: string): (s: Sample)
    requires |acc| < size
    ensures Meets(batches, alphabet, mask, size, acc, s)
    decreases |batches|
  {
    if |batches| == 0 then Starved(acc)
    else
      var acc1 := Scan(batches[0], alphabet, mask, size, acc);
      FillFirst(batches, alphabet, mask, acc);
      if |acc1| == size then Filled(acc1, 1)
      else
        match Fill(batches[1..], alphabet, mask, size, acc1)
        case Filled(id, n) =>
          AcceptedCountShift(batches, n + 1, alphabet, mask, acc);
          AcceptedCountShift(batches, n, alphabet, mask, acc);
          Filled(id, n + 1)
        case Starved(p) => Starved(p)
  }

  /** The symbols of the first batch come first, and they are all the first request counts. */
  lemma FillFirst(batches: seq<seq<bv8>>, alphabet: string, mask: bv8, acc: string)
    requires 1 <= |batches|
    ensures acc + Accepted(Flatten(batches), alphabet, mask)
         == (acc + Accepted(batches[0], alphabet, mask)) + Accepted(Flatten(batches[1..]), alphabet, mask)
    ensures AcceptedCount(batches, 0, alphabet, mask, acc) == |acc|
    ensures AcceptedCount(batches, 1, alphabet, mask, acc) == |acc| + |Accepted(batches[0], alphabet, mask)|
  {
    AcceptedAppend(batches[0], Flatten(batches[1..]), alphabet, mask);
    assert batches[..0] == [];
    FlattenNext(batches, 0);
  }

  /** Counting n requests from the start is counting n - 1 requests after the first batch. */
  lemma AcceptedCountShift(batches: seq<seq<bv8>>, n: nat, alphabet: string, mask: bv8, acc: string)
    requires 1 <= n <= |batches|
    ensures AcceptedCount(batches, n, alphabet, mask, acc)
         == AcceptedCount(batches[1..], n - 1, alphabet, mask, acc + Accepted(batches[0], alphabet, mask))
  {
    FlattenPrefix(batches, n);
    AcceptedAppend(batches[0], Flatten(batches[1..][..n - 1]), alphabet, mask);
  }

  /** Sampling from a fresh, empty identifier. */
  function SampleBatches(batches: seq<seq<bv8>>, alphabet: string, mask: bv8, size: nat): (s: Sample)
    requires 1 <= size
    ensures Meets(batches, alphabet, mask, size, [], s)
  {
    Fill(batches, alphabet, mask, size, [])
  }

  /** Sampling fills the identifier exactly when all delivered bytes hold `size` accepted
      symbols, and then with the first `size` of them. */
  lemma SampleOutcome(batches: seq<seq<bv8>>, alphabet: string, mask: bv8, size: nat)
    requires 1 <= size
    ensures var s := SampleBatches(batches, alphabet, mask, size);
      var all := Accepted(Flatten(batches), alphabet, mask);
      && (s.Filled? <==> size <= |all|)
      && (s.Starved? <==> |all| < size)
      && (s.Filled? ==> s.id == all[..size])
  {
    var s := SampleBatches(batches, alphabet, mask, size);
    assert Meets(batches, alphabet, mask, size, [], s);
    assert [] + Accepted(Flatten(batches), alphabet, mask) == Accepted(Flatten(batches), alphabet, mask);
  }

  /** The specification pins the outcome down: at most one Sample meets it. */
  lemma MeetsUnique(batches: seq<seq<bv8>>, alphabet: string, mask: bv8, size: nat, acc: string, s: Sample, t: Sample)
    requires Meets(batches, alphabet, mask, size, acc, s)
    requires Meets(batches, alphabet, mask, size, acc, t)
    ensures s == t
  {
    if s.Filled? && t.Filled? && s.requests != t.requests {
      var m, n := s.requests, t.requests;
      if m < n {
        AcceptedCountMonotone(batches, m, n - 1, alphabet, mask, acc);
      } else {
        AcceptedCountMonotone(batches, n, m - 1, alphabet, mask, acc);
      }
    }
  }

  lemma AcceptedCountMonotone(batches: seq<seq<bv8>>, m: nat, n: nat, alphabet: string, mask: bv8, acc: string)
    requires m <= n <= |batches|
    ensures AcceptedCount(batches, m, alphabet, mask, acc) <= AcceptedCount(batches, n, alphabet, mask, acc)
  {
    assert batches[..n] == batches[..m] + batches[m..n];
    FlattenAppend(batches[..m], batches[m..n]);
    AcceptedAppend(Flatten(batches[..m]), Flatten(batches[m..n]), alphabet, mask);
  }

  /** Batches delivered after the identifier is complete are never looked at. */
  lemma FilledIgnoresLaterBatches(batches: seq<seq<bv8>>, more: seq<seq<bv8>>, alphabet: string, mask: bv8, size: nat)
    requires 1 <= size
    requires SampleBatches(batches, alphabet, mask, size).Filled?
    ensures SampleBatches(batches + more, alphabet, mask, size) == SampleBatches(batches, alphabet, mask, size)
  {
    var s := SampleBatches(batches, alphabet, mask, size);
    var all := batches + more;
    var n := s.requests;
    assert all[..n] == batches[..n];
    assert all[..n - 1] == batches[..n - 1];
    FlattenAppend(batches, more);
    AcceptedAppend(Flatten(batches), Flatten(more), alphabet, mask);
    assert Meets(all, alphabet, mask, size, [], s);
    MeetsUnique(all, alphabet, mask, size, [], s, SampleBatches(all, alphabet, mask, size));
  }

  /** The loop finishes at request n exactly when the first n - 1 batches hold fewer than `size`
      accepted symbols and the first n hold enough; the identifier is then the first `size`
      symbols of those n batches. */
  lemma FillsAtRequest(batches: seq<seq<bv8>>, n: nat, alphabet: string, mask: bv8, size: nat)
    requires 1 <= size && 1 <= n <= |batches|
    requires AcceptedCount(batches, n - 1, alphabet, mask, []) < size <= AcceptedCount(batches, n, alphabet, mask, [])
    ensures SampleBatches(batches, alphabet, mask, size)
         == Filled(Accepted(Flatten(batches[..n]), alphabet, mask)[..size], n)
  {
    var front := Accepted(Flatten(batches[..n]), alphabet, mask);
    assert batches == batches[..n] + batches[n..];
    FlattenAppend(batches[..n], batches[n..]);
    AcceptedAppend(Flatten(batches[..n]), Flatten(batches[n..]), alphabet, mask);
    assert [] + Accepted(Flatten(batches), alphabet, mask) == front + Accepted(Flatten(batches[n..]), alphabet, mask);
    var t := Filled(front[..size], n);
    assert Meets(batches, alphabet, mask, size, [], t);
    MeetsUnique(batches, alphabet, mask, size, [], t, SampleBatches(batches, alphabet, mask, size));
  }

  /** A first batch without rejected bytes and at least `size` long completes the identifier
      by itself. */
  lemma FirstBatchFills(batches: seq<seq<bv8>>, alphabet: string, mask: bv8, size: nat)
    requires 1 <= size && 1 <= |batches| && size <= |batches[0]|
    requires forall i | 0 <= i < |batches[0]| :: Accepts(batches[0][i], alphabet, mask)
    ensures |Accepted(batches[0], alphabet, mask)| == |batches[0]|
    ensures SampleBatches(batches, alphabet, mask, size) == Filled(Accepted(batches[0], alphabet, mask)[..size], 1)
  {
    var batch := batches[0];
    AcceptedWithoutRejection(batch, alphabet, mask);
    assert batches == [batch] + batches[1..];
    FlattenAppend([batch], batches[1..]);
    assert Flatten([batch]) == batch;
    AcceptedAppend(batch, Flatten(batches[1..]), alphabet, mask);
    assert batches[..1] == [batch];
    assert batches[..0] == [];
    var t := Filled(Accepted(batch, alphabet, mask)[..size], 1);
    assert Meets(batches, alphabet, mask, size, [], t);
    MeetsUnique(batches, alphabet, mask, size, [], t, SampleBatches(batches, alphabet, mask, size));
  }

  /** The loop of nanoid.cpp as written: an identifier buffer of `size` slots filled at the
      write index `cnt`, one fully replaced batch per outer iteration. */
  method SampleLoop(batches: seq<seq<bv8>>, alphabet: string, mask: bv8, size: nat) returns (s: Sample)
    requires 1 <= size
    ensures Meets(batches, alphabet, mask, size, [], s)
    ensures s == SampleBatches(batches, alphabet, mask, size)
  {
    var idBuilder := seq(size, _ => '_');
    var cnt: nat := 0;
    var k := 0;
    while k < |batches|
      invariant 0 <= k <= |batches|
      invariant |idBuilder| == size
      invariant cnt < size
      invariant idBuilder[..cnt] == Accepted(Flatten(batches[..k]), alphabet, mask)
    {
      FlattenNext(batches, k);
      var i: nat;
      idBuilder, cnt, i := ScanLoop(batches[k], Flatten(batches[..k]), alphabet, mask, size, idBuilder, cnt);
      if i < |batches[k]| {
        SampleLoopFinish(batches, k, i, alphabet, mask, size, idBuilder);
        s := Filled(idBuilder, k + 1);
        MeetsUnique(batches, alphabet, mask, size, [], s, SampleBatches(batches, alphabet, mask, size));
        return;
      }
      k := k + 1;
    }
    assert batches[..k] == batches;
    s := Starved(idBuilder[..cnt]);
    MeetsUnique(batches, alphabet, mask, size, [], s, SampleBatches(batches, alphabet, mask, size));
  }

  /** The inner `for` loop of SampleLoop over one batch, continuing an identifier whose first
      `cnt0` symbols are those accepted from `before`. It stops at byte i < |bytes| when that
      byte completes the identifier, and returns i == |bytes| when the batch runs out first. */
  method ScanLoop(bytes: seq<bv8>, ghost before: seq<bv8>, alphabet: string, mask: bv8, size: nat,
                  idBuilder0: string, cnt0: nat)
    returns (idBuilder: string, cnt: nat, i: nat)
    requires |idBuilder0| == size && cnt0 < size
    requires idBuilder0[..cnt0] == Accepted(before, alphabet, mask)
    ensures |idBuilder| == size && cnt <= size && i <= |bytes|
    ensures i < |bytes| ==> cnt == size && idBuilder == Accepted(before + bytes[..i + 1], alphabet, mask)
    ensures i == |bytes| ==> cnt < size && idBuilder[..cnt] == Accepted(before + bytes, alphabet, mask)
  {
    idBuilder, cnt := idBuilder0, cnt0;
    i := 0;
    assert before + bytes[..0] == before;
    while i < |bytes|
      invariant 0 <= i <= |bytes|
      invariant |idBuilder| == size
      invariant cnt < size
      invariant idBuilder[..cnt] == Accepted(before + bytes[..i], alphabet, mask)
    {
      AcceptedNext(before, bytes, i, alphabet, mask);
      var alphabetIndex := IndexOf(bytes[i], mask);
      if alphabetIndex < |alphabet| {
        idBuilder := idBuilder[cnt := alphabet[alphabetIndex]];
        cnt := cnt + 1;
        if cnt == size {
          return;
        }
      }
      i := i + 1;
    }
    assert bytes[..i] == bytes;
  }

  /** The early return of SampleLoop meets the specification. */
  lemma SampleLoopFinish(batches: seq<seq<bv8>>, k: nat, i: nat, alphabet: string, mask: bv8, size: nat, id: string)
    requires k < |batches| && i < |batches[k]|
    requires |id| == size
    requires AcceptedCount(batches, k, alphabet, mask, []) < size
    requires id == Accepted(Flatten(batches[..k]) + batches[k][..i + 1], alphabet, mask)
    ensures Meets(batches, alphabet, mask, size, [], Filled(id, k + 1))
  {
    var bytes := batches[k];
    var head := Flatten(batches[..k]) + bytes[..i + 1];
    FlattenNext(batches, k);
    assert Flatten(batches[..k + 1]) == head + bytes[i + 1..];
    AcceptedAppend(head, bytes[i + 1..], alphabet, mask);
    assert batches == batches[..k + 1] + batches[k + 1..];
    FlattenAppend(batches[..k + 1], batches[k + 1..]);
    assert Flatten(batches) == head + (bytes[i + 1..] + Flatten(batches[k + 1..]));
    AcceptedAppend(head, bytes[i + 1..] + Flatten(batches[k + 1..]), alphabet, mask);
  }

  /** Flatten of a prefix grows by the next batch. */
  lemma FlattenNext(batches: seq<seq<bv8>>, k: nat)
    requires k < |batches|
    ensures Flatten(batches[..k + 1]) == Flatten(batches[..k]) + batches[k]
  {
    assert batches[..k + 1] == batches[..k] + [batches[k]];
    FlattenAppend(batches[..k], [batches[k]]);
    assert Flatten([batches[k]]) == batches[k];
  }

  /** Accepting one more byte adds its symbol, if any. */
  lemma AcceptedNext(before: seq<bv8>, bytes: seq<bv8>, i: nat, alphabet: string, mask: bv8)
    requires i < |bytes|
    ensures Accepted(before + bytes[..i + 1], alphabet, mask)
         == Accepted(before + bytes[..i], alphabet, mask) + Pick(bytes[i], alphabet, mask)
  {
    assert bytes[..i + 1] == bytes[..i] + [bytes[i]];
    assert before + bytes[..i + 1] == (before + bytes[..i]) + [bytes[i]];
    AcceptedAppend(before + bytes[..i], [bytes[i]], alphabet, mask);
    assert Accepted([bytes[i]], alphabet, mask) == Pick(bytes[i], alphabet, mask);
  }
}
