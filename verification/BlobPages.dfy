/** Byte ranges of a payload that is split between a leaf page and a chain of overflow pages: the
    ground under the `BlobRead` and `BlobWrite` instructions. */
module BlobPages {
  import opened Outcome
  import opened Bytes
  import opened BlobVm

  /** The part of the payload on the leaf page, and the content of each overflow page. */
  datatype Payload = Payload(onLeaf: seq<byte>, overflow: seq<seq<byte>>, per: nat)

  predicate Valid(p: Payload) {
    p.per > 0 && forall k | 0 <= k < |p.overflow| :: |p.overflow[k]| == p.per
  }

  function Concat(pages: seq<seq<byte>>): seq<byte> {
    if pages == [] then [] else pages[0] + Concat(pages[1..])
  }

  /** The payload as one run of bytes. */
  function Flat(p: Payload): seq<byte> {
    p.onLeaf + Concat(p.overflow)
  }

  datatype Span = Local(pageOff: nat, take: nat) | Overflow(idx: nat, within: nat, take: nat)

  function Min(a: nat, b: nat): nat {
    if a <= b then a else b
  }

  /** `blob_span`: the page and the range on it that begin at payload offset `pos`. */
  function SpanAt(p: Payload, pos: nat, remaining: nat): Span
    requires p.per > 0
  {
    if pos < |p.onLeaf| then Local(pos, Min(|p.onLeaf| - pos, remaining))
    else
      var ov := pos - |p.onLeaf|;
      Overflow(ov / p.per, ov % p.per, Min(p.per - ov % p.per, remaining))
  }

  // ----- where a payload offset lives -----

  lemma IndexInChain(ov: nat, per: nat, pages: nat)
    requires per > 0 && ov < pages * per
    ensures ov / per < pages && ov % per < per && ov == (ov / per) * per + ov % per
  {
    var q := ov / per;
    assert q >= pages ==> q * per >= pages * per;
  }

  /** Page `idx` of the chain is the bytes from `idx * per` on. */
  lemma {:induction false} ConcatAt(pages: seq<seq<byte>>, per: nat, idx: nat)
    requires per > 0 && (forall k | 0 <= k < |pages| :: |pages[k]| == per) && idx < |pages|
    ensures |Concat(pages)| == |pages| * per
    ensures idx * per + per <= |Concat(pages)|
    ensures Concat(pages)[idx * per..idx * per + per] == pages[idx]
  {
    var rest := pages[1..];
    ConcatLength(pages, per);
    ConcatLength(rest, per);
    if idx == 0 {
      assert Concat(pages)[..per] == pages[0];
    } else {
      ConcatAt(rest, per, idx - 1);
      assert idx * per == per + (idx - 1) * per;
      var a := (idx - 1) * per;
      assert Concat(pages)[per + a..per + a + per] == Concat(rest)[a..a + per];
    }
  }

  lemma {:induction false} ConcatLength(pages: seq<seq<byte>>, per: nat)
    requires forall k | 0 <= k < |pages| :: |pages[k]| == per
    ensures |Concat(pages)| == |pages| * per
  {
    if pages != [] {
      ConcatLength(pages[1..], per);
    }
  }

  /** A span is a non-empty piece of the payload that starts at `pos`. */
  lemma SpanIsThere(p: Payload, pos: nat, remaining: nat)
    requires Valid(p) && remaining > 0 && pos + remaining <= |Flat(p)|
    ensures var s := SpanAt(p, pos, remaining);
      && 0 < s.take <= remaining
      && (s.Local? ==>
            s.pageOff + s.take <= |p.onLeaf| && p.onLeaf[s.pageOff..s.pageOff + s.take] == Flat(p)[pos..pos + s.take])
      && (s.Overflow? ==>
            && s.idx < |p.overflow| && s.within + s.take <= p.per
            && |p.onLeaf| + s.idx * p.per + s.within == pos
            && p.overflow[s.idx][s.within..s.within + s.take] == Flat(p)[pos..pos + s.take])
  {
    ConcatLength(p.overflow, p.per);
    if pos >= |p.onLeaf| {
      OverflowSpanIsThere(p, pos, remaining);
    }
  }

  lemma OverflowSpanIsThere(p: Payload, pos: nat, remaining: nat)
    requires Valid(p) && remaining > 0 && |p.onLeaf| <= pos && pos + remaining <= |p.onLeaf| + |p.overflow| * p.per
    requires |Concat(p.overflow)| == |p.overflow| * p.per
    ensures var s := SpanAt(p, pos, remaining);
      && s.Overflow? && 0 < s.take <= remaining && s.idx < |p.overflow| && s.within + s.take <= p.per
      && |p.onLeaf| + s.idx * p.per + s.within == pos
      && p.overflow[s.idx][s.within..s.within + s.take] == Flat(p)[pos..pos + s.take]
  {
    var ov := pos - |p.onLeaf|;
    IndexInChain(ov, p.per, |p.overflow|);
    var idx, within := ov / p.per, ov % p.per;
    var take := SpanAt(p, pos, remaining).take;
    ConcatAt(p.overflow, p.per, idx);
    SliceOfSlice(Concat(p.overflow), idx * p.per, p.overflow[idx], within, take);
    AfterLeaf(p, ov, take);
  }

  lemma SliceOfSlice(whole: seq<byte>, start: nat, part: seq<byte>, within: nat, take: nat)
    requires start + |part| <= |whole| && whole[start..start + |part|] == part && within + take <= |part|
    ensures part[within..within + take] == whole[start + within..start + within + take]
  {
    assert forall i | 0 <= i < |part| :: part[i] == whole[start + i];
  }

  lemma AfterLeaf(p: Payload, ov: nat, take: nat)
    requires ov + take <= |Concat(p.overflow)|
    ensures Flat(p)[|p.onLeaf| + ov..|p.onLeaf| + ov + take] == Concat(p.overflow)[ov..ov + take]
  {
  }

  lemma SlicesJoin(whole: seq<byte>, a: nat, b: nat, c: nat)
    requires a <= b <= c <= |whole|
    ensures whole[a..b] + whole[b..c] == whole[a..c]
  {
  }

  // ----- reading -----

  /** `copy_payload_range`: one page at a time, in order; `None` when an overflow page is not in memory yet,
      where it returns to start over later. */
  method CopyPayloadRange(p: Payload, off: nat, len: nat, resident: nat -> bool) returns (r: Option<seq<byte>>)
    requires Valid(p) && off + len <= |Flat(p)|
    ensures r.Some? ==> r.value == Flat(p)[off..off + len]
    ensures (forall page :: resident(page)) ==> r.Some?
  {
    hide Flat, SpanAt;
    var out: seq<byte> := [];
    var done := 0;
    while done < len
      invariant 0 <= done <= len
      invariant out == Flat(p)[off..off + done]
      decreases len - done
    {
      SpanIsThere(p, off + done, len - done);
      var s := SpanAt(p, off + done, len - done);
      match s {
        case Local(pageOff, take) => out := out + p.onLeaf[pageOff..pageOff + take];
        case Overflow(idx, within, take) =>
          if !resident(idx) {
            return None;
          }
          out := out + p.overflow[idx][within..within + take];
      }
      SlicesJoin(Flat(p), off, off + done, off + done + s.take);
      done := done + s.take;
    }
    r := Some(out);
  }

  // ----- writing -----

  /** Storing a span's worth of bytes on its page. */
  function StoreSpan(p: Payload, s: Span, data: seq<byte>): Payload
    requires Valid(p) && |data| == s.take
    requires s.Local? ==> s.pageOff + s.take <= |p.onLeaf|
    requires s.Overflow? ==> s.idx < |p.overflow| && s.within + s.take <= p.per
  {
    match s
    case Local(pageOff, _) => p.(onLeaf := Overwrite(p.onLeaf, pageOff, data))
    case Overflow(idx, within, _) =>
      p.(overflow := p.overflow[idx := Overwrite(p.overflow[idx], within, data)])
  }

  lemma {:induction false} ConcatUpdate(pages: seq<seq<byte>>, per: nat, idx: nat, page: seq<byte>)
    requires per > 0 && (forall k | 0 <= k < |pages| :: |pages[k]| == per) && idx < |pages| && |page| == per
    ensures |Concat(pages)| == |pages| * per && idx * per + per <= |Concat(pages)|
    ensures Concat(pages[idx := page]) == Overwrite(Concat(pages), idx * per, page)
  {
    ConcatAt(pages, per, idx);
    var rest := pages[1..];
    if idx == 0 {
      assert pages[0 := page][1..] == rest;
      assert Concat(pages)[per..] == Concat(rest);
    } else {
      ConcatUpdate(rest, per, idx - 1, page);
      assert pages[idx := page][1..] == rest[idx - 1 := page];
      var a := (idx - 1) * per;
      assert idx * per == per + a;
      assert Concat(pages)[..per + a] == pages[0] + Concat(rest)[..a];
      assert Concat(pages)[per + a + per..] == Concat(rest)[a + per..];
    }
  }

  lemma OverwriteInner(whole: seq<byte>, start: nat, part: seq<byte>, within: nat, data: seq<byte>)
    requires start + |part| <= |whole| && whole[start..start + |part|] == part && within + |data| <= |part|
    ensures Overwrite(whole, start, Overwrite(part, within, data)) == Overwrite(whole, start + within, data)
  {
    assert forall i | 0 <= i < |part| :: part[i] == whole[start + i];
  }

  /** Storing a span changes exactly the payload bytes it covers. */
  lemma StoreIsOverwrite(p: Payload, pos: nat, remaining: nat, data: seq<byte>)
    requires Valid(p) && remaining > 0 && pos + remaining <= |Flat(p)|
    requires |data| == SpanAt(p, pos, remaining).take
    ensures var s := SpanAt(p, pos, remaining);
      && 0 < s.take <= remaining
      && (s.Local? ==> s.pageOff + s.take <= |p.onLeaf|)
      && (s.Overflow? ==> s.idx < |p.overflow| && s.within + s.take <= p.per)
      && Valid(StoreSpan(p, s, data))
      && Flat(StoreSpan(p, s, data)) == Overwrite(Flat(p), pos, data)
  {
    SpanIsThere(p, pos, remaining);
    var s := SpanAt(p, pos, remaining);
    if s.Overflow? {
      hide SpanAt;
      StoreOnOverflow(p, s.idx, s.within, data);
      OverwriteAfter(p.onLeaf, Concat(p.overflow), s.idx * p.per + s.within, data);
    }
  }

  lemma StoreOnOverflow(p: Payload, idx: nat, within: nat, data: seq<byte>)
    requires Valid(p) && idx < |p.overflow| && within + |data| <= p.per
    ensures idx * p.per + within + |data| <= |Concat(p.overflow)|
    ensures Concat(p.overflow[idx := Overwrite(p.overflow[idx], within, data)])
         == Overwrite(Concat(p.overflow), idx * p.per + within, data)
  {
    ConcatUpdate(p.overflow, p.per, idx, Overwrite(p.overflow[idx], within, data));
    ConcatAt(p.overflow, p.per, idx);
    OverwriteInner(Concat(p.overflow), idx * p.per, p.overflow[idx], within, data);
  }

  lemma OverwriteAfter(front: seq<byte>, back: seq<byte>, at: nat, data: seq<byte>)
    requires at + |data| <= |back|
    ensures front + Overwrite(back, at, data) == Overwrite(front + back, |front| + at, data)
  {
  }

  /** `blob_write_range` up to its end or to an overflow page that is not in memory yet, where it
      returns to start over later. What it leaves is the overwrite by a prefix of the data. */
  method WritePayloadRange(p: Payload, off: nat, data: seq<byte>, resident: nat -> bool)
      returns (r: Payload, finished: bool, done: nat)
    requires Valid(p) && off + |data| <= |Flat(p)|
    ensures Valid(r) && done <= |data| && Flat(r) == Overwrite(Flat(p), off, data[..done])
    ensures finished ==> done == |data|
    ensures (forall page :: resident(page)) ==> finished
  {
    hide *;
    r, done := p, 0;
    OverwriteNothing(Flat(p), off, data);
    while done < |data|
      invariant 0 <= done <= |data|
      invariant Valid(r) && |Flat(r)| == |Flat(p)| && Flat(r) == Overwrite(Flat(p), off, data[..done])
      decreases |data| - done
    {
      ValidPer(r);
      var s := SpanAt(r, off + done, |data| - done);
      if s.Overflow? && !resident(s.idx) {
        return r, false, done;
      }
      SpanIsThere(r, off + done, |data| - done);
      StoreIsOverwrite(r, off + done, |data| - done, data[done..done + s.take]);
      OverwriteExtends(Flat(p), off, data, done, done + s.take);
      r := StoreSpan(r, s, data[done..done + s.take]);
      done := done + s.take;
    }
    finished := true;
  }

  lemma ValidPer(p: Payload)
    requires Valid(p)
    ensures p.per > 0
  {
  }

  lemma OverwriteNothing(bytes: seq<byte>, off: nat, data: seq<byte>)
    requires off <= |bytes|
    ensures Overwrite(bytes, off, data[..0]) == bytes
  {
  }

  lemma OverwriteExtends(bytes: seq<byte>, off: nat, data: seq<byte>, from: nat, to: nat)
    requires off + |data| <= |bytes| && from <= to <= |data|
    ensures Overwrite(Overwrite(bytes, off, data[..from]), off + from, data[from..to])
         == Overwrite(bytes, off, data[..to])
  {
    assert data[..to] == data[..from] + data[from..to];
  }

  // ----- one column of the record -----

  /** The bytes of the column value within the payload. */
  function Column(p: Payload, bodyOff: nat, len: nat): seq<byte>
    requires bodyOff + len <= |Flat(p)|
  {
    Flat(p)[bodyOff..bodyOff + len]
  }

  /** What an access to a column comes to. */
  datatype Access<T> = Got(value: T) | PastEnd | NotYet

  /** `blob_read_column`. */
  method ReadColumn(p: Payload, bodyOff: nat, len: nat, off: nat, amount: nat, resident: nat -> bool)
      returns (r: Access<seq<byte>>)
    requires Valid(p) && bodyOff + len <= |Flat(p)|
    ensures r.PastEnd? <==> off + amount > len
    ensures r.Got? ==> r.value == Column(p, bodyOff, len)[off..off + amount]
    ensures r.Got? ==> r.value == Flat(p)[bodyOff + off..bodyOff + off + amount]
    ensures (forall page :: resident(page)) ==> !r.NotYet?
  {
    if off + amount > len {
      return PastEnd;
    }
    var out := CopyPayloadRange(p, bodyOff + off, amount, resident);
    if out.None? {
      return NotYet;
    }
    SliceOfSlice(Flat(p), bodyOff, Column(p, bodyOff, len), off, amount);
    r := Got(out.value);
  }

  /** `blob_write_column`: the value is overwritten by a prefix of the data, all of it unless a page has to
      be waited for, and the rest of the record is left alone. */
  method WriteColumn(p: Payload, bodyOff: nat, len: nat, off: nat, data: seq<byte>, resident: nat -> bool)
      returns (r: Payload, access: Access<()>, done: nat)
    requires Valid(p) && bodyOff + len <= |Flat(p)|
    ensures Valid(r) && |Flat(r)| == |Flat(p)| && done <= |data|
    ensures access.PastEnd? <==> off + |data| > len
    ensures access.PastEnd? ==> r == p && done == 0
    ensures !access.PastEnd? ==> Column(r, bodyOff, len) == Overwrite(Column(p, bodyOff, len), off, data[..done])
    ensures access.Got? ==> done == |data| && Flat(r)[bodyOff + off..bodyOff + off + |data|] == data
    ensures (forall page :: resident(page)) ==> !access.NotYet?
    ensures Flat(r)[..bodyOff] == Flat(p)[..bodyOff] && Flat(r)[bodyOff + len..] == Flat(p)[bodyOff + len..]
  {
    hide Flat, Valid, Overwrite;
    if off + |data| > len {
      return p, PastEnd, 0;
    }
    var finished;
    r, finished, done := WritePayloadRange(p, bodyOff + off, data, resident);
    OverwriteWithin(Flat(p), bodyOff, len, off, data[..done]);
    assert finished ==> data[..done] == data;
    access := if finished then Got(()) else NotYet;
  }

  lemma OverwriteWithin(bytes: seq<byte>, bodyOff: nat, len: nat, off: nat, data: seq<byte>)
    requires bodyOff + len <= |bytes| && off + |data| <= len
    ensures var r := Overwrite(bytes, bodyOff + off, data);
      && r[bodyOff..bodyOff + len] == Overwrite(bytes[bodyOff..bodyOff + len], off, data)
      && r[..bodyOff] == bytes[..bodyOff] && r[bodyOff + len..] == bytes[bodyOff + len..]
      && r[bodyOff + off..bodyOff + off + |data|] == data
  {
  }
}
