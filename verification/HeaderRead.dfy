/** Finding the end of the HTTP headers while the request arrives in pieces. */
module HeaderRead {
  import opened Outcome
  import opened Bytes

  const MAX_HEADER_BYTES: nat := 32 * 1024

  predicate TerminatorAt(data: seq<byte>, i: nat) {
    i + 4 <= |data| && data[i] == 13 && data[i + 1] == 10 && data[i + 2] == 13 && data[i + 3] == 10
  }

  /** `find_header_end`: the first blank line at or after `start`. */
  function FindHeaderEnd(data: seq<byte>, start: nat): (r: Option<nat>)
    ensures r.Some? ==> start <= r.value && TerminatorAt(data, r.value)
    ensures forall i: nat | start <= i && TerminatorAt(data, i) :: r.Some? && r.value <= i
    decreases |data| - start
  {
    if start + 4 > |data| then None
    else if TerminatorAt(data, start) then Some(start)
    else FindHeaderEnd(data, start + 1)
  }

  datatype HeaderOutcome =
    | Found(headerEnd: nat, data: seq<byte>)
    | TooLong
    | EndOfInput(data: seq<byte>)

  /** After the first `k` chunks the data is over the limit and still without a terminator. */
  predicate GivesUpAfter(chunks: seq<seq<byte>>, k: nat) {
    && 0 < k <= |chunks|
    && |Joined(chunks[..k])| > MAX_HEADER_BYTES
    && FindHeaderEnd(Joined(chunks[..k]), 0).None?
  }

  /** The `k`th chunk is the one that completes the terminator. */
  predicate CompletedBy(chunks: seq<seq<byte>>, k: nat) {
    && 0 < k <= |chunks|
    && FindHeaderEnd(Joined(chunks[..k - 1]), 0).None?
    && FindHeaderEnd(Joined(chunks[..k]), 0).Some?
  }

  /** The read loop of `handle_connection`, up to the end of the headers. Each search starts three
      bytes before the end of what was already searched. */
  method ReadHeaders(chunks: seq<seq<byte>>) returns (r: HeaderOutcome)
    ensures r.Found? ==> FindHeaderEnd(Joined(chunks), 0) == Some(r.headerEnd)
    ensures r.Found? ==> exists k: nat :: CompletedBy(chunks, k) && r.data == Joined(chunks[..k])
    ensures r.EndOfInput? ==> FindHeaderEnd(Joined(chunks), 0).None? && r.data == Joined(chunks)
    ensures r.TooLong? <==> exists k: nat :: GivesUpAfter(chunks, k)
  {
    var requestData: seq<byte> := [];
    var next := 0;
    while next < |chunks|
      invariant 0 <= next <= |chunks|
      invariant requestData == Joined(chunks[..next])
      invariant FindHeaderEnd(requestData, 0).None?
      invariant forall k: nat | k <= next :: !GivesUpAfter(chunks, k)
    {
      var unscanned := if |requestData| < 3 then 0 else |requestData| - 3;
      ghost var before := requestData;
      requestData := requestData + chunks[next];
      assert chunks[..next + 1][..next] == chunks[..next];
      SearchResumes(before, chunks[next]);
      var headerEnd := FindHeaderEnd(requestData, unscanned);
      next := next + 1;
      if headerEnd.Some? {
        JoinedPrefix(chunks, next);
        FoundStays(requestData, Joined(chunks));
        NoLaterGivingUp(chunks, next);
        assert CompletedBy(chunks, next);
        return Found(headerEnd.value, requestData);
      }
      if |requestData| > MAX_HEADER_BYTES {
        assert GivesUpAfter(chunks, next);
        return TooLong;
      }
    }
    assert chunks[..next] == chunks;
    r := EndOfInput(requestData);
  }

  /** Skipping all but the last three searched bytes misses nothing. */
  lemma SearchResumes(searched: seq<byte>, more: seq<byte>)
    requires FindHeaderEnd(searched, 0).None?
    ensures FindHeaderEnd(searched + more, if |searched| < 3 then 0 else |searched| - 3)
         == FindHeaderEnd(searched + more, 0)
  {
    var data := searched + more;
    forall i: nat | TerminatorAt(data, i)
      ensures i + 4 > |searched|
    {
      if i + 4 <= |searched| {
        assert TerminatorAt(searched, i);
      }
    }
  }

  /** The first terminator of a prefix is the first terminator of the whole. */
  lemma FoundStays(data: seq<byte>, longer: seq<byte>)
    requires data <= longer && FindHeaderEnd(data, 0).Some?
    ensures FindHeaderEnd(longer, 0) == FindHeaderEnd(data, 0)
  {
    var i := FindHeaderEnd(data, 0).value;
    assert TerminatorAt(longer, i);
    var j := FindHeaderEnd(longer, 0).value;
    assert TerminatorAt(data, j);
  }

  lemma {:induction false} JoinedPrefix(chunks: seq<seq<byte>>, k: nat)
    requires k <= |chunks|
    ensures Joined(chunks[..k]) <= Joined(chunks)
  {
    if k < |chunks| {
      var front := chunks[..|chunks| - 1];
      assert front[..k] == chunks[..k];
      JoinedPrefix(front, k);
    } else {
      assert chunks[..k] == chunks;
    }
  }

  lemma NoLaterGivingUp(chunks: seq<seq<byte>>, found: nat)
    requires found <= |chunks| && FindHeaderEnd(Joined(chunks[..found]), 0).Some?
    ensures forall k: nat | found <= k :: !GivesUpAfter(chunks, k)
  {
    forall k: nat | found <= k <= |chunks|
      ensures !GivesUpAfter(chunks, k)
    {
      assert chunks[..k][..found] == chunks[..found];
      JoinedPrefix(chunks[..k], found);
      FoundStays(Joined(chunks[..found]), Joined(chunks[..k]));
    }
  }

  /** The loop gives up exactly when some read ends past the limit and before the end of the first
      terminator; so with a terminator that ends within the limit it never does. */
  lemma GivesUpExactly(chunks: seq<seq<byte>>, k: nat)
    requires 0 < k <= |chunks|
    ensures var end := FindHeaderEnd(Joined(chunks), 0); var len := |Joined(chunks[..k])|;
      && (GivesUpAfter(chunks, k) <==> len > MAX_HEADER_BYTES && (end.None? || len < end.value + 4))
      && (end.Some? && end.value + 4 <= MAX_HEADER_BYTES ==> !GivesUpAfter(chunks, k))
  {
    var end, part := FindHeaderEnd(Joined(chunks), 0), Joined(chunks[..k]);
    JoinedPrefix(chunks, k);
    if FindHeaderEnd(part, 0).Some? {
      FoundStays(part, Joined(chunks));
    }
    if end.Some? && end.value + 4 <= |part| {
      assert TerminatorAt(part, end.value);
    }
  }

  /** A client that sends one byte more than the limit before its terminator is given up on. */
  lemma GivesUpOnSlowHeaders(pad: seq<byte>)
    requires |pad| == MAX_HEADER_BYTES + 1 && 13 !in pad
    ensures var chunks := [pad, [13, 10, 13, 10]];
      GivesUpAfter(chunks, 1) && FindHeaderEnd(Joined(chunks), 0) == Some(|pad|)
  {
    var chunks: seq<seq<byte>> := [pad, [13, 10, 13, 10]];
    assert chunks[..1] == [pad] && [pad][..0] == [];
    assert Joined([pad]) == [] + pad == pad;
    assert Joined(chunks) == pad + [13, 10, 13, 10];
    assert TerminatorAt(Joined(chunks), |pad|);
    assert forall i: nat | i < |pad| :: Joined(chunks)[i] in pad;
    assert forall i: nat | i < |pad| :: pad[i] in pad;
  }
}
