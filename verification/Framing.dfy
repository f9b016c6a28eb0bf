/** Length-delimited framing of the messages in a response body. */
module Framing {
  import opened Outcome
  import opened Bytes

  /** Base-128 little-endian, the high bit of every byte but the last set. */
  function Varint(n: nat): (v: seq<byte>)
    ensures v != []
  {
    if n >= 0x80 then [n % 0x80 + 0x80] + Varint(n / 0x80) else [n]
  }

  function Delimited(message: seq<byte>): seq<byte> {
    Varint(|message|) + message
  }

  function DelimitedAll(messages: seq<seq<byte>>): seq<byte> {
    if messages == [] then [] else Delimited(messages[0]) + DelimitedAll(messages[1..])
  }

  /** `encode_length_delimited`: setting bit 7 of the low byte of `len` leaves its low seven bits. */
  method EncodeLengthDelimited(output: seq<byte>, data: seq<byte>) returns (r: seq<byte>)
    ensures r == output + Delimited(data)
  {
    r := output;
    var len: nat := |data|;
    while len >= 0x80
      invariant r + Varint(len) == output + Varint(|data|)
      decreases len
    {
      ghost var before := r;
      r := r + [len % 0x80 + 0x80];
      assert r + Varint(len / 0x80) == before + Varint(len);
      len := len / 0x80;
    }
    r := r + [len];
    r := r + data;
    assert output + Varint(|data|) + data == output + Delimited(data);
  }

  /** The response writer: a header message and then one message per page. */
  method EncodeResponse(header: seq<byte>, pages: seq<seq<byte>>) returns (body: seq<byte>)
    ensures body == DelimitedAll([header] + pages)
  {
    body := EncodeLengthDelimited([], header);
    assert ([header] + pages)[..1] == [header] && [header][1..] == [];
    assert body == DelimitedAll([header]);
    for i := 0 to |pages|
      invariant body == DelimitedAll(([header] + pages)[..i + 1])
    {
      body := EncodeLengthDelimited(body, pages[i]);
      DelimitedAllAppend(([header] + pages)[..i + 1], pages[i]);
      assert ([header] + pages)[..i + 2] == ([header] + pages)[..i + 1] + [pages[i]];
    }
    assert ([header] + pages)[..|pages| + 1] == [header] + pages;
  }

  lemma {:induction false} DelimitedAllAppend(messages: seq<seq<byte>>, m: seq<byte>)
    ensures DelimitedAll(messages + [m]) == DelimitedAll(messages) + Delimited(m)
  {
    if messages == [] {
      assert [m][1..] == [] && [] + [m] == [m];
    } else {
      DelimitedAllAppend(messages[1..], m);
      assert (messages + [m])[1..] == messages[1..] + [m];
    }
  }

  // ----- the reader's side -----

  /** The value of the varint at the head of `bytes` and what follows it. */
  function ReadVarint(bytes: seq<byte>): (r: Option<(nat, seq<byte>)>)
    ensures r.Some? ==> |r.value.1| < |bytes|
  {
    if bytes == [] then None
    else if bytes[0] < 0x80 then Some((bytes[0], bytes[1..]))
    else
      match ReadVarint(bytes[1..])
      case None => None
      case Some((high, rest)) => Some((bytes[0] - 0x80 + 0x80 * high, rest))
  }

  /** Splits a body into its messages; `None` if the last one is cut short. */
  function ReadAll(bytes: seq<byte>): Option<seq<seq<byte>>>
    decreases |bytes|
  {
    if bytes == [] then Some([])
    else
      match ReadVarint(bytes)
      case None => None
      case Some((len, rest)) =>
        if len > |rest| then None
        else
          match ReadAll(rest[len..])
          case None => None
          case Some(more) => Some([rest[..len]] + more)
  }

  lemma {:induction false} VarintRoundTrip(n: nat, rest: seq<byte>)
    ensures ReadVarint(Varint(n) + rest) == Some((n, rest))
    decreases n
  {
    var v := Varint(n) + rest;
    if n >= 0x80 {
      VarintRoundTrip(n / 0x80, rest);
      assert v[1..] == Varint(n / 0x80) + rest;
    } else {
      assert v[1..] == rest;
    }
  }

  /** A body splits into exactly the messages it was written from. */
  lemma {:induction false} ReadsWhatWasWritten(messages: seq<seq<byte>>)
    ensures ReadAll(DelimitedAll(messages)) == Some(messages)
  {
    if messages != [] {
      var m, more := messages[0], DelimitedAll(messages[1..]);
      var bytes := DelimitedAll(messages);
      assert bytes == Varint(|m|) + (m + more);
      VarintRoundTrip(|m|, m + more);
      assert (m + more)[|m|..] == more && (m + more)[..|m|] == m;
      ReadsWhatWasWritten(messages[1..]);
      assert messages == [m] + messages[1..];
    }
  }

  /** A body cut anywhere strictly inside it is never mistaken for a complete one of the same messages,
      and what can be read of it is a prefix of them. */
  lemma {:induction false} TruncationIsSeen(messages: seq<seq<byte>>, cut: nat)
    requires cut < |DelimitedAll(messages)|
    ensures match ReadAll(DelimitedAll(messages)[..cut])
      case None => true
      case Some(read) => read < messages
    decreases messages
  {
    var m, more := messages[0], DelimitedAll(messages[1..]);
    var bytes := DelimitedAll(messages);
    var head := |Delimited(m)|;
    assert bytes == Delimited(m) + more;
    if cut >= head {
      var short := more[..cut - head];
      assert bytes[..cut] == Varint(|m|) + (m + short);
      VarintRoundTrip(|m|, m + short);
      assert (m + short)[|m|..] == short && (m + short)[..|m|] == m;
      TruncationIsSeen(messages[1..], cut - head);
      assert messages == [m] + messages[1..];
    } else if cut > 0 {
      assert bytes[..cut] == Delimited(m)[..cut];
      if cut >= |Varint(|m|)| {
        var part := m[..cut - |Varint(|m|)|];
        assert Delimited(m)[..cut] == Varint(|m|) + part;
        VarintRoundTrip(|m|, part);
      } else {
        assert Delimited(m)[..cut] == Varint(|m|)[..cut];
        CutVarint(|m|, cut);
      }
    }
  }

  lemma {:induction false} CutVarint(n: nat, cut: nat)
    requires cut < |Varint(n)|
    ensures ReadVarint(Varint(n)[..cut]) == None
    decreases n
  {
    if cut > 0 {
      CutVarint(n / 0x80, cut - 1);
      assert Varint(n)[..cut][1..] == Varint(n / 0x80)[..cut - 1];
    }
  }
}
