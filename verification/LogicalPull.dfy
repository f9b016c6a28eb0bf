/** Logical pulls: a client holding a revision asks the sync server for the log from there on. */
module LogicalPull {
  import opened Outcome
  import opened Bytes
  import opened LogicalLog
  import opened LogFormat
  import opened LogTruncation
  import Decimal

  datatype PullError =
    | LogRejected(error: LogError)
    | NotPortable(version: byte)
    | BadRevision(revision: string)
    | UnknownGeneration(revision: string)
    | FromTheFuture(clientOffset: nat, serverOffset: nat)
    | NotABoundary(offset: nat)

  datatype LogRange = LogRange(startOffset: nat, endOffset: nat, startsWithHeader: bool, crcSeed: Option<seq<byte>>)

  datatype PullResponse = PullResponse(serverRevision: string, range: Option<LogRange>, body: seq<byte>)

  // ----- revisions -----

  function FormatRevision(offset: nat): string {
    "g1:o" + Decimal.Render(offset)
  }

  /** The index of the first ":o" at or after `from`. */
  function FindSeparator(s: string, from: nat): (r: Option<nat>)
    ensures r.Some? ==> from <= r.value && r.value + 2 <= |s| && s[r.value] == ':' && s[r.value + 1] == 'o'
    decreases |s| - from
  {
    if from + 2 > |s| then None
    else if s[from] == ':' && s[from + 1] == 'o' then Some(from)
    else FindSeparator(s, from + 1)
  }

  /** `parse_mvcc_revision_offset`. A revision without a separator is a WAL frame number from an
      older page bootstrap and stands for the current end of the log. */
  function ParseRevision(revision: string, legacyDefault: nat): Result<nat, PullError> {
    if revision == "" then Ok(0)
    else
      match FindSeparator(revision, 0)
      case None => Ok(legacyDefault)
      case Some(i) =>
        if i == 0 || revision[0] != 'g' then Err(BadRevision(revision))
        else
          match Decimal.Parse(revision[1..i], 0xFFFF_FFFF_FFFF_FFFF)
          case None => Err(BadRevision(revision))
          case Some(generation) =>
            if generation != 1 then Err(UnknownGeneration(revision))
            else
              match Decimal.Parse(revision[i + 2..], 0xFFFF_FFFF_FFFF_FFFF)
              case None => Err(BadRevision(revision))
              case Some(offset) => Ok(offset)
  }

  /** The revision handed out for an offset is read back as that offset. */
  lemma RevisionRoundTrip(offset: nat, legacyDefault: nat)
    requires offset <= 0xFFFF_FFFF_FFFF_FFFF
    ensures ParseRevision(FormatRevision(offset), legacyDefault) == Ok(offset)
  {
    var r := FormatRevision(offset);
    assert r[1] == '1' && r[2] == ':' && r[3] == 'o';
    assert FindSeparator(r, 2) == Some(2);
    assert FindSeparator(r, 0) == Some(2);
    assert r[1..2] == "1" && "1"[..0] == [];
    assert r[4..] == Decimal.Render(offset);
    Decimal.ParseOfRender(1, 0xFFFF_FFFF_FFFF_FFFF);
    Decimal.ParseOfRender(offset, 0xFFFF_FFFF_FFFF_FFFF);
    assert Decimal.Render(1) == "1";
  }

  // ----- the handler -----

  /** `MvccLogSnapshot::crc_seed_at`: the checksum recorded for the first boundary at the offset. */
  function CrcSeedAt(bs: seq<Boundary>, offset: nat): Option<u32> {
    if bs == [] then None
    else if bs[0].offset == offset then Some(bs[0].crc)
    else CrcSeedAt(bs[1..], offset)
  }

  /** `handle_logical_pull_updates` on the bytes of the log file. */
  function HandlePull(cs: Checksum, log: seq<byte>, revision: string): Result<PullResponse, PullError> {
    match Scan(cs, log)
    case Err(UnsupportedVersion(v)) => Err(NotPortable(v))
    case Err(e) => Err(LogRejected(e))
    case Ok(snapshot) =>
      match ParseRevision(revision, snapshot.endOffset)
      case Err(e) => Err(e)
      case Ok(start) =>
        var end := snapshot.endOffset;
        if start > end then Err(FromTheFuture(start, end))
        else if start == end then Ok(PullResponse(FormatRevision(end), None, []))
        else if start == 0 then
          Ok(PullResponse(FormatRevision(end), Some(LogRange(0, end, true, None)), log[..end]))
        else
          match CrcSeedAt(snapshot.crcByOffset, start)
          case None => Err(NotABoundary(start))
          case Some(seed) =>
            Ok(PullResponse(FormatRevision(end), Some(LogRange(start, end, false, Some(ToLe(seed, 4)))),
                            log[start..end]))
  }

  predicate IsBoundary(bs: seq<Boundary>, offset: nat) {
    exists b :: b in bs && b.offset == offset
  }

  lemma {:induction false} SeedFound(bs: seq<Boundary>, offset: nat)
    ensures CrcSeedAt(bs, offset).Some? <==> IsBoundary(bs, offset)
    ensures CrcSeedAt(bs, offset).Some? ==> Boundary(offset, CrcSeedAt(bs, offset).value) in bs
  {
    if bs != [] {
      SeedFound(bs[1..], offset);
      if IsBoundary(bs, offset) && bs[0].offset != offset {
        var b :| b in bs && b.offset == offset;
        assert b in bs[1..];
      }
      if IsBoundary(bs[1..], offset) {
        var b :| b in bs[1..] && b.offset == offset;
        assert b in bs;
      }
    }
  }

  /** On an accepted log a pull succeeds exactly for the start of the log and its boundaries,
      and then its body is the log from there to the last complete frame. */
  lemma PullOutcome(cs: Checksum, log: seq<byte>, offset: nat)
    requires |log| <= USIZE_MAX && offset <= 0xFFFF_FFFF_FFFF_FFFF && Scan(cs, log).Ok?
    ensures var s := Scan(cs, log).value; var r := HandlePull(cs, log, FormatRevision(offset));
      && (r.Ok? <==> offset == 0 || IsBoundary(s.crcByOffset, offset))
      && (r.Err? ==>
            r.error == if offset > s.endOffset then FromTheFuture(offset, s.endOffset) else NotABoundary(offset))
      && (r.Ok? ==>
            && offset <= s.endOffset
            && r.value.serverRevision == FormatRevision(s.endOffset)
            && r.value.body == log[offset..s.endOffset])
  {
    hide FromLe, ToLe, Frames, ValidateHeader, Decimal.Render;
    var s := Scan(cs, log).value;
    RevisionRoundTrip(offset, s.endOffset);
    SeedFound(s.crcByOffset, offset);
    BoundariesInRange(cs, log);
    assert IsBoundary(s.crcByOffset, s.endOffset) by {
      assert Last(s.crcByOffset) in s.crcByOffset;
    }
  }

  lemma BoundariesInRange(cs: Checksum, log: seq<byte>)
    requires Scan(cs, log).Ok?
    ensures Increasing(Scan(cs, log).value.crcByOffset)
    ensures forall b | b in Scan(cs, log).value.crcByOffset :: b.offset <= Scan(cs, log).value.endOffset
  {
    hide FromLe, ToLe, ReadFrame;
    var s := Scan(cs, log).value;
    if log != [] {
      FramesIncrease(cs, log, Boundary(LOG_HEADER_SIZE, InitialCrc(cs, log)));
    }
    forall b | b in s.crcByOffset
      ensures b.offset <= s.endOffset
    {
      var i :| 0 <= i < |s.crcByOffset| && s.crcByOffset[i] == b;
    }
  }

  // ----- a body stands on its own -----

  function ShiftBack(bs: seq<Boundary>, base: nat): seq<Boundary>
    requires forall b | b in bs :: b.offset >= base
  {
    if bs == [] then [] else [Boundary(bs[0].offset - base, bs[0].crc)] + ShiftBack(bs[1..], base)
  }

  /** The boundaries from one of them on are what a scan started there finds. */
  lemma {:induction false} FramesFromBoundary(cs: Checksum, log: seq<byte>, at: Boundary, i: nat)
    requires at.offset <= |log| && Frames(cs, log, at).Ok? && i < |Frames(cs, log, at).value|
    ensures var bs := Frames(cs, log, at).value;
      bs[i].offset <= |log| && Frames(cs, log, bs[i]) == Ok(bs[i..])
    decreases i
  {
    hide ReadFrame;
    var bs := Frames(cs, log, at).value;
    if i == 0 {
      assert bs[0..] == bs;
    } else {
      var next := ReadFrame(cs, log, at).value.value;
      ReadAdvances(cs, log, at);
      FramesFromBoundary(cs, log, next, i - 1);
      assert bs[1..] == Frames(cs, log, next).value;
      assert bs[i..] == bs[1..][i - 1..];
    }
  }

  lemma ReadAdvances(cs: Checksum, log: seq<byte>, at: Boundary)
    requires at.offset <= |log|
    ensures ReadFrame(cs, log, at).Ok? && ReadFrame(cs, log, at).value.Some? ==>
              at.offset < ReadFrame(cs, log, at).value.value.offset <= |log|
  {
    hide FromLe;
  }

  lemma FramesUnfold(cs: Checksum, log: seq<byte>, at: Boundary)
    requires at.offset <= |log|
    ensures ReadFrame(cs, log, at) == Ok(None) ==> Frames(cs, log, at) == Ok([at])
    ensures Frames(cs, log, at).Ok? && ReadFrame(cs, log, at) != Ok(None) ==>
              && ReadFrame(cs, log, at).Ok? && Frames(cs, log, ReadFrame(cs, log, at).value.value).Ok?
    ensures ReadFrame(cs, log, at).Ok? && ReadFrame(cs, log, at).value.Some? ==>
              Frames(cs, log, at) == Prepend([at], Frames(cs, log, ReadFrame(cs, log, at).value.value))
  {
    hide ReadFrame;
  }

  /** Frames that end exactly at the end of the buffer scan the same without the bytes before them. */
  lemma {:induction false} FramesShifted(cs: Checksum, log: seq<byte>, at: Boundary, base: nat)
    requires base <= at.offset <= |log| <= USIZE_MAX
    requires Frames(cs, log, at).Ok? && Last(Frames(cs, log, at).value).offset == |log|
    ensures forall b | b in Frames(cs, log, at).value :: b.offset >= base
    ensures Frames(cs, log[base..], Boundary(at.offset - base, at.crc))
         == Ok(ShiftBack(Frames(cs, log, at).value, base))
    decreases |log| - at.offset
  {
    hide ReadFrame, Frames, ShiftBack;
    FramesIncrease(cs, log, at);
    var tail, here := log[base..], Boundary(at.offset - base, at.crc);
    var r := ReadFrame(cs, log, at);
    FramesUnfold(cs, log, at);
    FramesUnfold(cs, tail, here);
    if r == Ok(None) {
      NothingLeft(cs, tail, here);
      ShiftFirst(at, [], base);
    } else {
      var next := r.value.value;
      assert tail[here.offset..next.offset - base] == log[at.offset..next.offset];
      ReadFrameMoves(cs, log, at, tail, here.offset);
      FramesShifted(cs, log, next, base);
      ShiftFirst(at, Frames(cs, log, next).value, base);
    }
  }

  lemma ShiftFirst(at: Boundary, rest: seq<Boundary>, base: nat)
    requires at.offset >= base && forall b | b in rest :: b.offset >= base
    ensures ShiftBack([at] + rest, base) == [Boundary(at.offset - base, at.crc)] + ShiftBack(rest, base)
    ensures ShiftBack([at], base) == [Boundary(at.offset - base, at.crc)]
  {
    assert ([at] + rest)[1..] == rest;
    assert [at][1..] == [] && ShiftBack([], base) == [];
  }

  lemma NothingLeft(cs: Checksum, log: seq<byte>, at: Boundary)
    requires at.offset == |log|
    ensures ReadFrame(cs, log, at) == Ok(None)
  {
  }

  /** The log from a boundary to its last complete frame scans, from the checksum at that boundary,
      to the boundaries that follow. */
  lemma SuffixScans(cs: Checksum, log: seq<byte>, i: nat)
    requires log != [] && |log| <= USIZE_MAX && Scan(cs, log).Ok?
    requires i < |Scan(cs, log).value.crcByOffset|
    ensures var s := Scan(cs, log).value; var at := s.crcByOffset[i];
      && at.offset <= s.endOffset
      && (forall b | b in s.crcByOffset[i..] :: b.offset >= at.offset)
      && Frames(cs, log[at.offset..s.endOffset], Boundary(0, at.crc)) == Ok(ShiftBack(s.crcByOffset[i..], at.offset))
  {
    hide ReadFrame, ValidateHeader, FromLe, ToLe;
    var s := Scan(cs, log).value;
    var at := s.crcByOffset[i];
    BoundariesInRange(cs, log);
    assert at in s.crcByOffset;
    ScanOfValidPrefix(cs, log);
    var valid := log[..s.endOffset];
    var first := Boundary(LOG_HEADER_SIZE, InitialCrc(cs, valid));
    FramesFromBoundary(cs, valid, first, i);
    assert Last(s.crcByOffset[i..]) == Last(s.crcByOffset);
    FramesShifted(cs, valid, at, at.offset);
    assert valid[at.offset..] == log[at.offset..s.endOffset];
  }

  lemma {:induction false} SeedAtIndex(bs: seq<Boundary>, i: nat)
    requires Increasing(bs) && i < |bs|
    ensures CrcSeedAt(bs, bs[i].offset) == Some(bs[i].crc)
  {
    if i > 0 {
      assert bs[i] == bs[1..][i - 1];
      SeedAtIndex(bs[1..], i - 1);
    }
  }

  /** The body of a resumed pull, rescanned alone from the checksum seed that came with it, yields
      the boundaries and checksums of the full scan from the client's offset on. */
  lemma ResumedBodyStandsAlone(cs: Checksum, log: seq<byte>, i: nat)
    requires log != [] && |log| <= USIZE_MAX && Scan(cs, log).Ok?
    requires i + 1 < |Scan(cs, log).value.crcByOffset|
    ensures var bs := Scan(cs, log).value.crcByOffset;
      var r := HandlePull(cs, log, FormatRevision(bs[i].offset));
      && r.Ok? && r.value.range.Some?
      && r.value.range.value == LogRange(bs[i].offset, Scan(cs, log).value.endOffset, false, Some(ToLe(bs[i].crc, 4)))
      && FromLe(r.value.range.value.crcSeed.value) == bs[i].crc
      && (forall b | b in bs[i..] :: b.offset >= bs[i].offset)
      && Frames(cs, r.value.body, Boundary(0, bs[i].crc)) == Ok(ShiftBack(bs[i..], bs[i].offset))
  {
    hide ReadFrame, Frames, ValidateHeader, FromLe, ToLe, ParseRevision, Decimal.Render, ShiftBack;
    var s := Scan(cs, log).value;
    var at := s.crcByOffset[i];
    BoundariesInRange(cs, log);
    SuffixScans(cs, log, i);
    SeedAtIndex(s.crcByOffset, i);
    FirstBoundaryAfterHeader(cs, log, i);
    RevisionRoundTrip(at.offset, s.endOffset);
    WidthFacts();
    LeRoundTrip(at.crc, 4);
    assert s.crcByOffset[i + 1] in s.crcByOffset;
  }

  lemma FirstBoundaryAfterHeader(cs: Checksum, log: seq<byte>, i: nat)
    requires log != [] && Scan(cs, log).Ok? && i < |Scan(cs, log).value.crcByOffset|
    ensures Scan(cs, log).value.crcByOffset[i].offset >= LOG_HEADER_SIZE
  {
    hide ReadFrame, ValidateHeader;
    var bs := Scan(cs, log).value.crcByOffset;
    FramesIncrease(cs, log, Boundary(LOG_HEADER_SIZE, InitialCrc(cs, log)));
    assert bs[i] in bs;
  }

  /** The body of a first pull is itself a log, with the same scan. */
  lemma FirstBodyStandsAlone(cs: Checksum, log: seq<byte>)
    requires log != [] && |log| <= USIZE_MAX && Scan(cs, log).Ok?
    ensures var r := HandlePull(cs, log, "");
      && r.Ok? && r.value.range == Some(LogRange(0, Scan(cs, log).value.endOffset, true, None))
      && Scan(cs, r.value.body) == Scan(cs, log)
  {
    hide ReadFrame, Frames, ValidateHeader, FromLe, ToLe, Decimal.Render;
    ScanOfValidPrefix(cs, log);
  }

  /** The range sent says exactly which bytes of the log the body is: whatever the revision presented,
      there is none only with an empty body, it ends at the last complete frame, and it carries the
      header, and no seed, exactly when it starts the log. */
  predicate Describes(range: Option<LogRange>, body: seq<byte>, log: seq<byte>, end: nat) {
    && (range.None? <==> body == [])
    && (range.Some? ==>
          var r := range.value;
          && r.startOffset < r.endOffset == end <= |log|
          && body == log[r.startOffset..r.endOffset]
          && (r.startsWithHeader <==> r.startOffset == 0)
          && (r.crcSeed.None? <==> r.startOffset == 0))
  }

  lemma RangeDescribesBody(cs: Checksum, log: seq<byte>, revision: string)
    requires HandlePull(cs, log, revision).Ok?
    ensures Scan(cs, log).Ok?
    ensures var r, end := HandlePull(cs, log, revision).value, Scan(cs, log).value.endOffset;
      r.serverRevision == FormatRevision(end) && Describes(r.range, r.body, log, end)
  {
    hide ParseRevision, FormatRevision, ToLe;
    ScanInside(cs, log);
    hide Scan;
  }

  lemma ScanInside(cs: Checksum, log: seq<byte>)
    ensures Scan(cs, log).Ok? ==> Scan(cs, log).value.endOffset <= |log|
  {
  }

  /** A revision without a separator, a frame number from an older page bootstrap, is up to date. */
  lemma LegacyRevisionIsUpToDate(cs: Checksum, log: seq<byte>, revision: string)
    requires revision != "" && Scan(cs, log).Ok?
    requires forall i | 0 <= i < |revision| - 1 :: !(revision[i] == ':' && revision[i + 1] == 'o')
    ensures HandlePull(cs, log, revision)
         == Ok(PullResponse(FormatRevision(Scan(cs, log).value.endOffset), None, []))
  {
    hide Scan, FormatRevision, FindSeparator;
    assert FindSeparator(revision, 0).None?;
  }

  /** A log in another version of the format is refused by that version, whatever else it holds. */
  lemma OtherVersionIsNotPortable(cs: Checksum, log: seq<byte>, revision: string)
    requires |log| >= 56 && U32At(log, 0) == LOG_MAGIC && log[4] != LOG_VERSION
    ensures HandlePull(cs, log, revision) == Err(NotPortable(log[4]))
  {
    hide U32At, Frames;
  }

  /** Of an empty log there is nothing to send. */
  lemma EmptyLogIsUpToDate(cs: Checksum)
    ensures HandlePull(cs, [], "") == Ok(PullResponse("g1:o0", None, []))
  {
    assert Decimal.Render(0) == ['0'];
    assert "g1:o" + ['0'] == "g1:o0";
  }

  /** A 64-bit number in decimal, with or without a plus sign. */
  function Number(s: string): Option<nat> {
    Decimal.Parse(s, 18446744073709551615)
  }

  /** With a separator, what is before it must be a `g` and the number 1, and what is after it the number of
      an offset, which is then served as the revision handed out for it would be. */
  lemma RevisionForms(cs: Checksum, log: seq<byte>, before: string, after: string)
    requires ':' !in before && Scan(cs, log).Ok?
    ensures var revision := before + ":o" + after; var r := HandlePull(cs, log, revision);
      var g := before != "" && before[0] == 'g';
      && (!g || Number(before[1..]) == None ==> r == Err(BadRevision(revision)))
      && (g && Number(before[1..]) !in {None, Some(1)} ==> r == Err(UnknownGeneration(revision)))
      && (g && Number(before[1..]) == Some(1) && Number(after) == None ==> r == Err(BadRevision(revision)))
      && (g && Number(before[1..]) == Some(1) && Number(after).Some? ==>
            r == HandlePull(cs, log, FormatRevision(Number(after).value)))
  {
    hide Scan, Decimal.Parse, FindSeparator;
    var revision := before + ":o" + after;
    SeparatorAfter(before, after);
    assert revision[|before| + 2..] == after;
    if before != "" {
      assert revision[1..|before|] == before[1..];
    }
    if Number(after).Some? {
      RevisionRoundTrip(Number(after).value, Scan(cs, log).value.endOffset);
    }
    hide FormatRevision;
  }

  lemma SeparatorAfter(before: string, after: string)
    requires ':' !in before
    ensures FindSeparator(before + ":o" + after, 0) == Some(|before|)
  {
    var s := before + ":o" + after;
    var k := |before|;
    assert forall i | 0 <= i < k :: s[i] == before[i];
    while k > 0
      invariant 0 <= k <= |before| && FindSeparator(s, k) == Some(|before|)
    {
      k := k - 1;
    }
  }

  // ----- whole runs -----

  /** What a client has: the revision to present next, and the bytes received so far. */
  datatype Client = Client(revision: string, received: seq<byte>)

  function PullOnce(cs: Checksum, log: seq<byte>, c: Client): Client {
    match HandlePull(cs, log, c.revision)
    case Err(_) => c
    case Ok(response) => Client(response.serverRevision, c.received + response.body)
  }

  /** One pull against each state the log file is found in. */
  function PullRun(cs: Checksum, logs: seq<seq<byte>>): Client {
    if logs == [] then Client("", [])
    else PullOnce(cs, logs[|logs| - 1], PullRun(cs, logs[..|logs| - 1]))
  }

  /** The part of the file that a successful scan vouches for. */
  function Validated(cs: Checksum, log: seq<byte>): seq<byte> {
    match Scan(cs, log)
    case Err(_) => []
    case Ok(s) => log[..s.endOffset]
  }

  /** The file may grow, be torn, have its torn tail rewritten, or be unreadable for a while; bytes
      that once formed complete frames stay. */
  predicate AppendOnly(cs: Checksum, logs: seq<seq<byte>>) {
    && (forall i | 0 <= i < |logs| :: |logs[i]| <= USIZE_MAX)
    && (forall i, j | 0 <= i < j < |logs| :: Validated(cs, logs[i]) <= logs[j])
  }

  /** The last accepted state of the log, if any. */
  function LastAccepted(cs: Checksum, logs: seq<seq<byte>>): Option<nat> {
    if logs == [] then None
    else if Scan(cs, logs[|logs| - 1]).Ok? then Some(|logs| - 1)
    else LastAccepted(cs, logs[..|logs| - 1])
  }

  lemma ValidatedGrows(cs: Checksum, before: seq<byte>, after: seq<byte>)
    requires |before| <= USIZE_MAX && |after| <= USIZE_MAX
    requires Scan(cs, before).Ok? && Scan(cs, after).Ok? && Validated(cs, before) <= after
    ensures var e := Scan(cs, before).value.endOffset; var s := Scan(cs, after).value;
      && e <= s.endOffset && (e == 0 || IsBoundary(s.crcByOffset, e))
      && Validated(cs, before) == after[..e]
  {
    hide ReadFrame, ValidateHeader, Frames;
    if before != [] {
      ScanExtends(cs, before, after);
      var bs := Scan(cs, before).value.crcByOffset;
      var b := Last(bs);
      assert b in bs && b in Scan(cs, after).value.crcByOffset;
      BoundariesInRange(cs, after);
    }
  }

  /** The client state after a successful pull of `log`. */
  function CaughtUp(cs: Checksum, log: seq<byte>): Client {
    Client(FormatRevision(|Validated(cs, log)|), Validated(cs, log))
  }

  lemma CatchUp(cs: Checksum, before: seq<byte>, after: seq<byte>)
    requires |before| <= USIZE_MAX && |after| <= USIZE_MAX
    requires Scan(cs, before).Ok? && Scan(cs, after).Ok? && Validated(cs, before) <= after
    ensures PullOnce(cs, after, CaughtUp(cs, before)) == CaughtUp(cs, after)
  {
    hide ReadFrame, ValidateHeader, Frames, FromLe, ToLe, Decimal.Render, ParseRevision;
    var n := |Validated(cs, before)|;
    ValidatedGrows(cs, before, after);
    PullOutcome(cs, after, n);
    assert after[..n] + after[n..Scan(cs, after).value.endOffset] == Validated(cs, after);
  }

  /** Over every run: the bytes received are exactly the validated part of the last readable log,
      and the revision held names exactly their length. */
  lemma {:induction false} RunDeliversTheLog(cs: Checksum, logs: seq<seq<byte>>)
    requires AppendOnly(cs, logs)
    ensures match LastAccepted(cs, logs)
      case None => PullRun(cs, logs) == Client("", [])
      case Some(k) => k < |logs| && Scan(cs, logs[k]).Ok? && PullRun(cs, logs) == CaughtUp(cs, logs[k])
  {
    hide Scan, Validated, FormatRevision, HandlePull;
    if logs != [] {
      var n := |logs| - 1;
      var before, log := logs[..n], logs[n];
      RunDeliversTheLog(cs, before);
      if Scan(cs, log).Ok? {
        match LastAccepted(cs, before)
        case None =>
          FirstPull(cs, log);
        case Some(k) =>
          assert logs[k] == before[k];
          CatchUp(cs, logs[k], log);
      } else {
        NoPull(cs, log, PullRun(cs, before));
      }
    }
  }

  lemma NoPull(cs: Checksum, log: seq<byte>, c: Client)
    requires Scan(cs, log).Err?
    ensures PullOnce(cs, log, c) == c
  {
    hide Scan;
  }

  lemma FirstPull(cs: Checksum, log: seq<byte>)
    requires Scan(cs, log).Ok?
    ensures PullOnce(cs, log, Client("", [])) == CaughtUp(cs, log)
  {
    hide ReadFrame, ValidateHeader, Frames, FromLe, ToLe, Decimal.Render;
    assert [] + Validated(cs, log) == Validated(cs, log);
  }

  /** Every revision handed out stays acceptable: presented to any later readable state of the log
      it gets exactly the bytes added since. */
  lemma RevisionsStayValid(cs: Checksum, logs: seq<seq<byte>>, i: nat, j: nat)
    requires AppendOnly(cs, logs) && i < j < |logs|
    requires Scan(cs, logs[i]).Ok? && Scan(cs, logs[j]).Ok?
    ensures var handedOut := FormatRevision(Scan(cs, logs[i]).value.endOffset);
      var r := HandlePull(cs, logs[j], handedOut);
      && r.Ok?
      && Validated(cs, logs[i]) + r.value.body == Validated(cs, logs[j])
  {
    hide ReadFrame, ValidateHeader, Frames, FromLe, ToLe, Decimal.Render, ParseRevision;
    var e, end := Scan(cs, logs[i]).value.endOffset, Scan(cs, logs[j]).value.endOffset;
    ValidatedGrows(cs, logs[i], logs[j]);
    PullOutcome(cs, logs[j], e);
    assert logs[j][..e] + logs[j][e..end] == logs[j][..end];
  }

  /** What it means that a body needs nothing but what came with it. */
  predicate StandsAlone(cs: Checksum, response: PullResponse, full: Snapshot) {
    response.range.Some? &&
    var range := response.range.value;
    if range.startsWithHeader then Scan(cs, response.body) == Ok(full)
    else
      range.crcSeed.Some? && |range.crcSeed.value| == 4 &&
      exists i | 0 <= i < |full.crcByOffset| ::
        && full.crcByOffset[i].offset == range.startOffset && full.crcByOffset[i].crc == FromLe(range.crcSeed.value)
        && (forall b | b in full.crcByOffset[i..] :: b.offset >= range.startOffset)
        && Frames(cs, response.body, Boundary(0, full.crcByOffset[i].crc))
           == Ok(ShiftBack(full.crcByOffset[i..], range.startOffset))
  }

  /** Every body a client receives in a run, unless it is empty, rescans alone, from the seed sent with it,
      to the boundaries and checksums of the full scan from the client's offset on. */
  lemma RunBodiesStandAlone(cs: Checksum, logs: seq<seq<byte>>, n: nat)
    requires AppendOnly(cs, logs) && n < |logs| && Scan(cs, logs[n]).Ok?
    ensures var r := HandlePull(cs, logs[n], PullRun(cs, logs[..n]).revision);
      r.Ok? && (r.value.body != [] ==> StandsAlone(cs, r.value, Scan(cs, logs[n]).value))
  {
    hide Scan, Validated, FormatRevision, HandlePull, StandsAlone;
    var before := logs[..n];
    assert AppendOnly(cs, before);
    RunDeliversTheLog(cs, before);
    match LastAccepted(cs, before)
    case None =>
      FirstResponse(cs, logs[n], "");
    case Some(k) =>
      assert before[k] == logs[k];
      ResponseAfter(cs, logs[k], logs[n]);
  }

  lemma FirstResponse(cs: Checksum, log: seq<byte>, revision: string)
    requires |log| <= USIZE_MAX && Scan(cs, log).Ok? && (revision == "" || revision == FormatRevision(0))
    ensures var r := HandlePull(cs, log, revision);
      r.Ok? && (r.value.body != [] ==> StandsAlone(cs, r.value, Scan(cs, log).value))
  {
    hide ReadFrame, Frames, ValidateHeader, FromLe, ToLe, Decimal.Render, ShiftBack;
    RevisionRoundTrip(0, Scan(cs, log).value.endOffset);
    if log != [] {
      ScanOfValidPrefix(cs, log);
    }
  }

  lemma ResponseAfter(cs: Checksum, before: seq<byte>, log: seq<byte>)
    requires |before| <= USIZE_MAX && |log| <= USIZE_MAX
    requires Scan(cs, before).Ok? && Scan(cs, log).Ok? && Validated(cs, before) <= log
    ensures var r := HandlePull(cs, log, CaughtUp(cs, before).revision);
      r.Ok? && (r.value.body != [] ==> StandsAlone(cs, r.value, Scan(cs, log).value))
  {
    hide ReadFrame, Frames, ValidateHeader, FromLe, ToLe, ParseRevision, Decimal.Render,
      ShiftBack, HandlePull, FormatRevision;
    var s, e := Scan(cs, log).value, Scan(cs, before).value.endOffset;
    ValidatedGrows(cs, before, log);
    assert |Validated(cs, before)| == e;
    if e == 0 {
      FirstResponse(cs, log, FormatRevision(0));
    } else {
      PullOutcome(cs, log, e);
      if e < s.endOffset {
        var b :| b in s.crcByOffset && b.offset == e;
        var i :| 0 <= i < |s.crcByOffset| && s.crcByOffset[i] == b;
        assert i + 1 < |s.crcByOffset|;
        ResumedBodyStandsAlone(cs, log, i);
        assert |ToLe(b.crc, 4)| == 4;
      }
    }
  }
}
