/** The MVCC logical log: a checksum-chained sequence of transaction frames, and the
    sync server's scan of it into transaction boundaries.

    The checksum is a parameter of everything below, so each result holds for every
    pair of functions that `crc32c` and `crc32c_append` could be. */
module LogicalLog {
  import opened Outcome
  import opened Bytes

  const LOG_MAGIC: u32 := 0x4C4D4C32
  const LOG_VERSION: byte := 3
  const LOG_HEADER_SIZE: nat := 56
  const SALT_START: nat := 8
  const RESERVED_START: nat := 16
  const HEADER_CRC_START: nat := 52
  const FRAME_MAGIC: u32 := 0x5854564D
  const EXT_FRAME_MAGIC: u32 := 0x5845564D
  const END_MAGIC: u32 := 0x4554564D
  const TX_HEADER_SIZE: nat := 24
  const TX_EXT_HEADER_SIZE: nat := 40
  const TX_TRAILER_SIZE: nat := 8

  datatype Checksum = Checksum(hash: seq<byte> -> u32, append: (u32, seq<byte>) -> u32)

  datatype LogError =
    | TruncatedHeader(len: nat)
    | BadMagic
    | UnsupportedVersion(version: byte)
    | BadHeaderFlags
    | BadHeaderLength(len: nat)
    | ReservedNotZero
    | HeaderChecksumMismatch
    | BadFrameMagic(offset: nat)
    | BadFrameFlags(offset: nat)
    | RecordCountWithoutExtension(offset: nat)
    | ExtensionFlagMissing(offset: nat)
    | FrameOffsetOverflow
    | FrameEndOverflow
    | FrameChecksumMismatch(offset: nat)
    | BadEndMagic(offset: nat)

  /** A transaction boundary and the running checksum there. */
  datatype Boundary = Boundary(offset: nat, crc: u32)

  datatype Snapshot = Snapshot(endOffset: nat, crcByOffset: seq<Boundary>)

  // ----- the reader -----

  function HeaderSize(magic: u32): nat {
    if magic == EXT_FRAME_MAGIC then TX_EXT_HEADER_SIZE else TX_HEADER_SIZE
  }

  /** The extension-header checks: the size of the extension block, or what is wrong with it.
      A plain frame has none. Bit 0 of the flags marks an extension block; no other bit may be set. */
  function ExtensionSize(log: seq<byte>, offset: nat): (r: Result<nat, LogError>)
    requires offset + 4 <= |log|
    requires offset + HeaderSize(U32At(log, offset)) <= |log|
  {
    if U32At(log, offset) != EXT_FRAME_MAGIC then Ok(0)
    else
      var size := U64At(log, offset + 24);
      var count := U32At(log, offset + 32);
      var flags := U32At(log, offset + 36);
      if flags > 1 then Err(BadFrameFlags(offset))
      else if size == 0 && count != 0 then Err(RecordCountWithoutExtension(offset))
      else if size > 0 && flags % 2 == 0 then Err(ExtensionFlagMissing(offset))
      else Ok(size)
  }

  /** `read_mvcc_frame_boundary`: `Ok(None)` is a torn tail, `Ok(Some(b))` a complete frame ending at `b`. */
  function ReadFrame(cs: Checksum, log: seq<byte>, at: Boundary): (r: Result<Option<Boundary>, LogError>)
    requires at.offset <= |log|
    ensures r.Ok? && r.value.Some? ==>
              at.offset + TX_HEADER_SIZE + TX_TRAILER_SIZE <= r.value.value.offset <= |log|
  {
    var offset := at.offset;
    if |log| - offset < TX_HEADER_SIZE + TX_TRAILER_SIZE then Ok(None)
    else
      var magic := U32At(log, offset);
      if magic != FRAME_MAGIC && magic != EXT_FRAME_MAGIC then Err(BadFrameMagic(offset))
      else if |log| - offset < HeaderSize(magic) + TX_TRAILER_SIZE then Ok(None)
      else
        var payloadSize := U64At(log, offset + 4);
        match ExtensionSize(log, offset)
        case Err(e) => Err(e)
        case Ok(extensionSize) =>
          var trailerStart := offset + HeaderSize(magic) + payloadSize + extensionSize;
          var frameEnd := trailerStart + TX_TRAILER_SIZE;
          if trailerStart > USIZE_MAX then Err(FrameOffsetOverflow)
          else if frameEnd > USIZE_MAX then Err(FrameEndOverflow)
          else if frameEnd > |log| then Ok(None)
          else
            var stored := U32At(log, trailerStart);
            if stored != cs.append(at.crc, log[offset..trailerStart]) then Err(FrameChecksumMismatch(offset))
            else if U32At(log, trailerStart + 4) != END_MAGIC then Err(BadEndMagic(offset))
            else Ok(Some(Boundary(frameEnd, stored)))
  }

  /** `validate_mvcc_log_header`: the first thing wrong with the header, if anything. */
  function ValidateHeader(cs: Checksum, log: seq<byte>): Option<LogError>
    requires |log| >= LOG_HEADER_SIZE
  {
    if U32At(log, 0) != LOG_MAGIC then Some(BadMagic)
    else if log[4] != LOG_VERSION then Some(UnsupportedVersion(log[4]))
    else if log[5] > 1 then Some(BadHeaderFlags)
    else if U16At(log, 6) != LOG_HEADER_SIZE then Some(BadHeaderLength(U16At(log, 6)))
    else if exists i :: RESERVED_START <= i < HEADER_CRC_START && log[i] != 0 then Some(ReservedNotZero)
    else if U32At(log, HEADER_CRC_START) != cs.hash(log[..HEADER_CRC_START] + [0, 0, 0, 0])
    then Some(HeaderChecksumMismatch)
    else None
  }

  /** `initial_mvcc_log_crc`: decoding the salt and encoding it again gives back its bytes. */
  function InitialCrc(cs: Checksum, log: seq<byte>): u32
    requires |log| >= LOG_HEADER_SIZE
  {
    cs.hash(ToLe(U64At(log, SALT_START), 8))
  }

  // ----- what a scan of the frames means -----

  /** The boundary `at` and every boundary after it, in order. */
  function Frames(cs: Checksum, log: seq<byte>, at: Boundary): (r: Result<seq<Boundary>, LogError>)
    requires at.offset <= |log|
    ensures r.Ok? ==> r.value != [] && r.value[0] == at && at.offset <= Last(r.value).offset <= |log|
    decreases |log| - at.offset
  {
    match ReadFrame(cs, log, at)
    case Err(e) => Err(e)
    case Ok(None) => Ok([at])
    case Ok(Some(next)) =>
      match Frames(cs, log, next)
      case Err(e) => Err(e)
      case Ok(rest) => Ok([at] + rest)
  }

  function Prepend(bs: seq<Boundary>, r: Result<seq<Boundary>, LogError>): Result<seq<Boundary>, LogError> {
    match r
    case Err(e) => Err(e)
    case Ok(rest) => Ok(bs + rest)
  }

  function Last(bs: seq<Boundary>): Boundary
    requires bs != []
  {
    bs[|bs| - 1]
  }

  /** What the scan of a whole log returns. */
  function Scan(cs: Checksum, log: seq<byte>): (r: Result<Snapshot, LogError>)
    ensures r.Ok? ==> r.value.crcByOffset != [] && Last(r.value.crcByOffset).offset == r.value.endOffset <= |log|
    ensures r.Ok? && log != [] ==> LOG_HEADER_SIZE <= r.value.endOffset
  {
    if log == [] then Ok(Snapshot(0, [Boundary(0, 0)]))
    else if |log| < LOG_HEADER_SIZE then Err(TruncatedHeader(|log|))
    else
      match ValidateHeader(cs, log)
      case Some(e) => Err(e)
      case None =>
        var first := Boundary(LOG_HEADER_SIZE, InitialCrc(cs, log));
        match Frames(cs, log, first)
        case Err(e) => Err(e)
        case Ok(bs) => Ok(Snapshot(Last(bs).offset, bs))
  }

  /** `scan_mvcc_log`. */
  method ScanLog(cs: Checksum, log: seq<byte>) returns (r: Result<Snapshot, LogError>)
    ensures r == Scan(cs, log)
  {
    if log == [] {
      return Ok(Snapshot(0, [Boundary(0, 0)]));
    }
    if |log| < LOG_HEADER_SIZE {
      return Err(TruncatedHeader(|log|));
    }
    var invalid := ValidateHeader(cs, log);
    if invalid.Some? {
      return Err(invalid.value);
    }
    var runningCrc := InitialCrc(cs, log);
    var offset := LOG_HEADER_SIZE;
    var crcByOffset := [Boundary(offset, runningCrc)];
    ghost var done := [];
    PrependNothing(Frames(cs, log, Boundary(offset, runningCrc)));
    while offset < |log|
      invariant LOG_HEADER_SIZE <= offset <= |log|
      invariant crcByOffset == done + [Boundary(offset, runningCrc)]
      invariant Frames(cs, log, Boundary(LOG_HEADER_SIZE, InitialCrc(cs, log)))
             == Prepend(done, Frames(cs, log, Boundary(offset, runningCrc)))
    {
      var frame := ReadFrame(cs, log, Boundary(offset, runningCrc));
      if frame.Err? {
        return Err(frame.error);
      }
      if frame.value.None? {
        break;
      }
      PrependAssociates(done, Boundary(offset, runningCrc), Frames(cs, log, frame.value.value));
      done := crcByOffset;
      runningCrc := frame.value.value.crc;
      offset := frame.value.value.offset;
      crcByOffset := crcByOffset + [Boundary(offset, runningCrc)];
    }
    r := Ok(Snapshot(offset, crcByOffset));
  }

  lemma PrependNothing(r: Result<seq<Boundary>, LogError>)
    ensures Prepend([], r) == r
  {
    if r.Ok? {
      assert [] + r.value == r.value;
    }
  }

  lemma PrependAssociates(bs: seq<Boundary>, b: Boundary, r: Result<seq<Boundary>, LogError>)
    ensures Prepend(bs, Prepend([b], r)) == Prepend(bs + [b], r)
  {
    if r.Ok? {
      assert bs + ([b] + r.value) == (bs + [b]) + r.value;
    }
  }
}
