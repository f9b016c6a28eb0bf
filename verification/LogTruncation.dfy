/** What survives when the log file changes under the scan: truncation at any byte, growth,
    and a torn tail that is completed or overwritten. */
module LogTruncation {
  import opened Outcome
  import opened Bytes
  import opened LogicalLog
  import opened LogFormat

  /** A complete frame reads the same wherever its bytes are. */
  lemma ReadFrameMoves(cs: Checksum, log: seq<byte>, at: Boundary, other: seq<byte>, offset: nat)
    requires at.offset <= |log| <= USIZE_MAX && |other| <= USIZE_MAX
    requires ReadFrame(cs, log, at).Ok? && ReadFrame(cs, log, at).value.Some?
    requires At(other, offset, log[at.offset..ReadFrame(cs, log, at).value.value.offset])
    ensures var next := ReadFrame(cs, log, at).value.value;
      ReadFrame(cs, other, Boundary(offset, at.crc))
      == Ok(Some(Boundary(offset + next.offset - at.offset, next.crc)))
  {
    hide *;
    var f := FrameOfRead(cs, log, at);
    ReadsWrittenFrame(cs, f, log, at);
    SameBytes(cs, f, log, at, other, offset);
    ReadsWrittenFrame(cs, f, other, Boundary(offset, at.crc));
    AfterMoves(cs, f, at, offset);
  }

  lemma AfterMoves(cs: Checksum, f: TxFrame, at: Boundary, offset: nat)
    ensures var next, moved := After(cs, f, at), After(cs, f, Boundary(offset, at.crc));
      moved == Boundary(offset + next.offset - at.offset, next.crc)
  {
  }

  lemma SameBytes(cs: Checksum, f: TxFrame, log: seq<byte>, at: Boundary, other: seq<byte>, offset: nat)
    requires At(log, at.offset, EncodeFrame(cs, f, at.crc)) && |EncodeFrame(cs, f, at.crc)| == FrameSize(f)
    requires At(other, offset, log[at.offset..After(cs, f, at).offset])
    ensures At(other, offset, EncodeFrame(cs, f, at.crc))
  {
    hide EncodeFrame, FrameSize;
  }

  /** Cutting the log inside a frame the reader would not object to leaves a torn tail. */
  lemma ReadFrameTorn(cs: Checksum, log: seq<byte>, at: Boundary, cut: nat)
    requires at.offset <= cut <= |log|
    requires ReadFrame(cs, log, at).Ok?
    requires ReadFrame(cs, log, at).value.Some? ==> cut < ReadFrame(cs, log, at).value.value.offset
    ensures ReadFrame(cs, log[..cut], at) == Ok(None)
  {
    hide FromLe;
    var short, offset := log[..cut], at.offset;
    if cut - offset >= TX_HEADER_SIZE + TX_TRAILER_SIZE {
      CutKeeps(log, cut, offset, 4);
      CutKeeps(log, cut, offset + 4, 8);
      if U32At(log, offset) == EXT_FRAME_MAGIC && cut - offset >= TX_EXT_HEADER_SIZE + TX_TRAILER_SIZE {
        CutKeeps(log, cut, offset + 24, 8);
        CutKeeps(log, cut, offset + 32, 4);
        CutKeeps(log, cut, offset + 36, 4);
      }
    }
  }

  lemma CutKeeps(log: seq<byte>, cut: nat, offset: nat, width: nat)
    requires offset + width <= cut <= |log|
    ensures log[..cut][offset..offset + width] == log[offset..offset + width]
  {
  }

  /** The leading boundaries that lie at or before `cut`. */
  function UpTo(bs: seq<Boundary>, cut: nat): seq<Boundary> {
    if bs == [] || bs[0].offset > cut then [] else [bs[0]] + UpTo(bs[1..], cut)
  }

  predicate Increasing(bs: seq<Boundary>) {
    forall i, j | 0 <= i < j < |bs| :: bs[i].offset < bs[j].offset
  }

  lemma {:induction false} FramesIncrease(cs: Checksum, log: seq<byte>, at: Boundary)
    requires at.offset <= |log| && Frames(cs, log, at).Ok?
    ensures Increasing(Frames(cs, log, at).value)
    ensures forall b | b in Frames(cs, log, at).value :: at.offset <= b.offset <= |log|
    decreases |log| - at.offset
  {
    hide FromLe;
    var r := ReadFrame(cs, log, at);
    if r.value.Some? {
      FramesIncrease(cs, log, r.value.value);
    }
  }

  /** On increasing boundaries `UpTo` keeps exactly those at or before the cut. */
  lemma {:induction false} UpToIsFilter(bs: seq<Boundary>, cut: nat)
    requires Increasing(bs)
    ensures UpTo(bs, cut) <= bs
    ensures forall i | 0 <= i < |bs| :: i < |UpTo(bs, cut)| <==> bs[i].offset <= cut
  {
    if bs != [] && bs[0].offset <= cut {
      UpToIsFilter(bs[1..], cut);
      forall i | 0 <= i < |bs|
        ensures i < |UpTo(bs, cut)| <==> bs[i].offset <= cut
      {
        if i > 0 {
          assert bs[i] == bs[1..][i - 1];
        }
      }
    }
  }

  lemma {:induction false} FramesTruncated(cs: Checksum, log: seq<byte>, at: Boundary, cut: nat)
    requires at.offset <= cut <= |log| <= USIZE_MAX
    requires Frames(cs, log, at).Ok?
    ensures Frames(cs, log[..cut], at) == Ok(UpTo(Frames(cs, log, at).value, cut))
    decreases |log| - at.offset
  {
    hide FromLe, ReadFrame, UpTo;
    var r := ReadFrame(cs, log, at);
    if r.value.Some? && r.value.value.offset <= cut {
      var next := r.value.value;
      assert At(log[..cut], at.offset, log[at.offset..next.offset]);
      ReadFrameMoves(cs, log, at, log[..cut], at.offset);
      FramesTruncated(cs, log, next, cut);
      UpToCons(at, Frames(cs, log, next).value, cut);
    } else {
      ReadFrameTorn(cs, log, at, cut);
      UpToCons(at, if r.value.Some? then Frames(cs, log, r.value.value).value else [], cut);
    }
  }

  lemma UpToCons(b: Boundary, rest: seq<Boundary>, cut: nat)
    requires b.offset <= cut
    ensures UpTo([b] + rest, cut) == [b] + UpTo(rest, cut)
    ensures rest == [] || rest[0].offset > cut ==> UpTo([b] + rest, cut) == [b]
    ensures UpTo([b], cut) == [b]
  {
    assert ([b] + rest)[1..] == rest;
    assert [b][1..] == [];
  }

  /** Truncating an accepted log anywhere after its header leaves an accepted log whose boundaries
      are those of the frames still complete. */
  lemma ScanTruncated(cs: Checksum, log: seq<byte>, cut: nat)
    requires LOG_HEADER_SIZE <= cut <= |log| <= USIZE_MAX
    requires Scan(cs, log).Ok?
    ensures var whole := Scan(cs, log).value.crcByOffset; var kept := UpTo(whole, cut);
      && Scan(cs, log[..cut]).Ok?
      && Scan(cs, log[..cut]).value.crcByOffset == kept
      && Increasing(whole)
      && kept <= whole
      && forall i | 0 <= i < |whole| :: i < |kept| <==> whole[i].offset <= cut
  {
    hide FromLe;
    HeaderTruncated(cs, log, cut);
    var first := Boundary(LOG_HEADER_SIZE, InitialCrc(cs, log));
    FramesTruncated(cs, log, first, cut);
    FramesIncrease(cs, log, first);
    UpToIsFilter(Scan(cs, log).value.crcByOffset, cut);
  }

  lemma HeaderTruncated(cs: Checksum, log: seq<byte>, cut: nat)
    requires LOG_HEADER_SIZE <= cut <= |log|
    ensures ValidateHeader(cs, log[..cut]) == ValidateHeader(cs, log)
    ensures InitialCrc(cs, log[..cut]) == InitialCrc(cs, log)
  {
    hide FromLe, ToLe;
    CutKeeps(log, cut, 0, 4);
    CutKeeps(log, cut, 6, 2);
    CutKeeps(log, cut, SALT_START, 8);
    CutKeeps(log, cut, HEADER_CRC_START, 4);
    assert log[..cut][..HEADER_CRC_START] == log[..HEADER_CRC_START];
  }

  /** The bytes up to the end offset of a scan are all that the scan depends on. */
  lemma ScanOfValidPrefix(cs: Checksum, log: seq<byte>)
    requires |log| <= USIZE_MAX && Scan(cs, log).Ok?
    ensures Scan(cs, log[..Scan(cs, log).value.endOffset]) == Scan(cs, log)
  {
    hide FromLe;
    var s := Scan(cs, log).value;
    if log == [] {
      assert log[..s.endOffset] == log;
    } else {
      ScanTruncated(cs, log, s.endOffset);
      var kept := UpTo(s.crcByOffset, s.endOffset);
      assert Last(s.crcByOffset).offset <= s.endOffset;
      assert kept == s.crcByOffset;
    }
  }

  /** Whatever happens to the file after the validated prefix, a later successful scan
      extends the earlier one: no boundary handed out is ever lost. */
  lemma ScanExtends(cs: Checksum, before: seq<byte>, after: seq<byte>)
    requires |before| <= USIZE_MAX && |after| <= USIZE_MAX
    requires Scan(cs, before).Ok? && Scan(cs, after).Ok?
    requires before != [] && before[..Scan(cs, before).value.endOffset] <= after
    ensures Scan(cs, before).value.crcByOffset <= Scan(cs, after).value.crcByOffset
  {
    hide FromLe;
    var s := Scan(cs, before).value;
    ScanOfValidPrefix(cs, before);
    assert after[..s.endOffset] == before[..s.endOffset];
    ScanTruncated(cs, after, s.endOffset);
  }
}
