/** The log as the commit path writes it, and the proof that the scan accepts exactly that
    language: every written log scans to its cumulative frame boundaries, and every log the
    scan accepts is a header, a list of frames and at most one torn frame. */
module LogFormat {
  import opened Outcome
  import opened Bytes
  import opened LogicalLog

  /** A transaction frame. The writer emits `Portable` frames with one flagged extension record;
      the format allows any count, and an unflagged empty block. */
  datatype TxFrame =
    | Plain(opCount: u32, commitTs: u64, payload: seq<byte>)
    | Portable(opCount: u32, commitTs: u64, payload: seq<byte>,
               extension: seq<byte>, recordCount: u32, flagged: bool)

  predicate ValidFrame(f: TxFrame) {
    && |f.payload| <= USIZE_MAX
    && (f.Portable? ==>
          && |f.extension| <= USIZE_MAX
          && (f.extension == [] ==> f.recordCount == 0)
          && (f.extension != [] ==> f.flagged))
  }

  function TxHeader(f: TxFrame): (h: seq<byte>) {
    match f
    case Plain(ops, ts, payload) =>
      ToLe(FRAME_MAGIC, 4) + ToLe(|payload|, 8) + ToLe(ops, 4) + ToLe(ts, 8)
    case Portable(ops, ts, payload, ext, count, flagged) =>
      ToLe(EXT_FRAME_MAGIC, 4) + ToLe(|payload|, 8) + ToLe(ops, 4) + ToLe(ts, 8)
      + ToLe(|ext|, 8) + ToLe(count, 4) + ToLe(if flagged then 1 else 0, 4)
  }

  function Extension(f: TxFrame): seq<byte> {
    if f.Portable? then f.extension else []
  }

  /** The checksummed part: header, extension block, recovery payload. */
  function Body(f: TxFrame): seq<byte> {
    TxHeader(f) + Extension(f) + f.payload
  }

  /** The checksum after the frame, chained from the one before it. */
  function NextCrc(cs: Checksum, f: TxFrame, crc: u32): u32 {
    cs.append(crc, Body(f))
  }

  function EncodeFrame(cs: Checksum, f: TxFrame, crc: u32): seq<byte> {
    Body(f) + ToLe(NextCrc(cs, f, crc), 4) + ToLe(END_MAGIC, 4)
  }

  function FrameSize(f: TxFrame): nat {
    match f
    case Plain(_, _, payload) => TX_HEADER_SIZE + |payload| + TX_TRAILER_SIZE
    case Portable(_, _, payload, ext, _, _) => TX_EXT_HEADER_SIZE + |ext| + |payload| + TX_TRAILER_SIZE
  }

  function EncodeFrames(cs: Checksum, fs: seq<TxFrame>, crc: u32): seq<byte> {
    if fs == [] then []
    else EncodeFrame(cs, fs[0], crc) + EncodeFrames(cs, fs[1..], NextCrc(cs, fs[0], crc))
  }

  function After(cs: Checksum, f: TxFrame, at: Boundary): Boundary {
    Boundary(at.offset + FrameSize(f), NextCrc(cs, f, at.crc))
  }

  /** The boundary `at` and the cumulative boundaries of the frames laid out from it on. */
  function CumulativeBoundaries(cs: Checksum, fs: seq<TxFrame>, at: Boundary): seq<Boundary> {
    if fs == [] then [at] else [at] + CumulativeBoundaries(cs, fs[1..], After(cs, fs[0], at))
  }

  function HeaderPrefix(flags: byte, salt: u64): (h: seq<byte>)
    ensures |h| == HEADER_CRC_START
  {
    ToLe(LOG_MAGIC, 4) + [LOG_VERSION, flags] + ToLe(LOG_HEADER_SIZE, 2) + ToLe(salt, 8)
    + Reserved()
  }

  function Reserved(): (r: seq<byte>)
    ensures |r| == HEADER_CRC_START - RESERVED_START && forall i | 0 <= i < |r| :: r[i] == 0
  {
    seq(HEADER_CRC_START - RESERVED_START, _ => 0)
  }

  /** The header checksum is taken with its own field zero. */
  function EncodeHeader(cs: Checksum, flags: byte, salt: u64): (h: seq<byte>)
    ensures |h| == LOG_HEADER_SIZE
  {
    HeaderPrefix(flags, salt) + ToLe(cs.hash(HeaderPrefix(flags, salt) + [0, 0, 0, 0]), 4)
  }

  function FirstBoundary(cs: Checksum, salt: u64): Boundary {
    Boundary(LOG_HEADER_SIZE, cs.hash(ToLe(salt, 8)))
  }

  function EncodeLog(cs: Checksum, flags: byte, salt: u64, fs: seq<TxFrame>): seq<byte> {
    EncodeHeader(cs, flags, salt) + EncodeFrames(cs, fs, cs.hash(ToLe(salt, 8)))
  }

  // ----- one frame -----

  lemma WidthFacts()
    ensures Pow256(2) == 0x1_0000 && Pow256(4) == 0x1_0000_0000 && Pow256(8) == 0x1_0000_0000_0000_0000
  {
  }

  /** `record` sits in `buf` at `offset`. */
  predicate At(buf: seq<byte>, offset: nat, record: seq<byte>) {
    offset + |record| <= |buf| && buf[offset..offset + |record|] == record
  }

  lemma AtConcat(buf: seq<byte>, offset: nat, a: seq<byte>, b: seq<byte>)
    ensures At(buf, offset, a + b) <==> At(buf, offset, a) && At(buf, offset + |a|, b)
  {
    if offset + |a| + |b| <= |buf| {
      var whole := buf[offset..offset + |a + b|];
      assert whole[..|a|] == buf[offset..offset + |a|];
      assert whole[|a|..] == buf[offset + |a|..offset + |a| + |b|];
      assert whole == whole[..|a|] + whole[|a|..];
      assert (a + b)[..|a|] == a && (a + b)[|a|..] == b;
    }
  }

  lemma U32Written(buf: seq<byte>, offset: nat, x: u32)
    requires offset + 4 <= |buf|
    ensures At(buf, offset, ToLe(x, 4)) <==> U32At(buf, offset) == x
  {
    WidthFacts();
    LeRoundTrip(x, 4);
    LeUnique(buf[offset..offset + 4]);
  }

  lemma U64Written(buf: seq<byte>, offset: nat, x: u64)
    requires offset + 8 <= |buf|
    ensures At(buf, offset, ToLe(x, 8)) <==> U64At(buf, offset) == x
  {
    WidthFacts();
    LeRoundTrip(x, 8);
    LeUnique(buf[offset..offset + 8]);
  }

  /** The fields that make the bytes at `offset` the header of `f`. */
  predicate HeaderFieldsAt(log: seq<byte>, offset: nat, f: TxFrame)
    requires offset + TX_HEADER_SIZE <= |log|
    requires f.Portable? ==> offset + TX_EXT_HEADER_SIZE <= |log|
  {
    && U32At(log, offset) == (if f.Portable? then EXT_FRAME_MAGIC else FRAME_MAGIC)
    && U64At(log, offset + 4) == |f.payload|
    && U32At(log, offset + 12) == f.opCount
    && U64At(log, offset + 16) == f.commitTs
    && (f.Portable? ==>
          && U64At(log, offset + 24) == |f.extension|
          && U32At(log, offset + 32) == f.recordCount
          && U32At(log, offset + 36) == if f.flagged then 1 else 0)
  }

  lemma CompactHeaderAt(log: seq<byte>, offset: nat, magic: u32, size: u64, ops: u32, ts: u64)
    requires offset + TX_HEADER_SIZE <= |log|
    ensures At(log, offset, ToLe(magic, 4) + ToLe(size, 8) + ToLe(ops, 4) + ToLe(ts, 8))
       <==> && U32At(log, offset) == magic && U64At(log, offset + 4) == size
            && U32At(log, offset + 12) == ops && U64At(log, offset + 16) == ts
  {
    hide At, FromLe, ToLe, U32At, U64At;
    AtConcat(log, offset, ToLe(magic, 4) + ToLe(size, 8) + ToLe(ops, 4), ToLe(ts, 8));
    AtConcat(log, offset, ToLe(magic, 4) + ToLe(size, 8), ToLe(ops, 4));
    AtConcat(log, offset, ToLe(magic, 4), ToLe(size, 8));
    U32Written(log, offset, magic);
    U64Written(log, offset + 4, size);
    U32Written(log, offset + 12, ops);
    U64Written(log, offset + 16, ts);
  }

  lemma ExtensionHeaderAt(log: seq<byte>, offset: nat, compact: seq<byte>, size: u64, count: u32, flags: u32)
    requires |compact| == TX_HEADER_SIZE && offset + TX_EXT_HEADER_SIZE <= |log|
    ensures At(log, offset, compact + ToLe(size, 8) + ToLe(count, 4) + ToLe(flags, 4))
       <==> && At(log, offset, compact) && U64At(log, offset + 24) == size
            && U32At(log, offset + 32) == count && U32At(log, offset + 36) == flags
  {
    hide At, FromLe, ToLe, U32At, U64At;
    AtConcat(log, offset, compact + ToLe(size, 8) + ToLe(count, 4), ToLe(flags, 4));
    AtConcat(log, offset, compact + ToLe(size, 8), ToLe(count, 4));
    AtConcat(log, offset, compact, ToLe(size, 8));
    U64Written(log, offset + 24, size);
    U32Written(log, offset + 32, count);
    U32Written(log, offset + 36, flags);
  }

  lemma TxHeaderAt(log: seq<byte>, offset: nat, f: TxFrame)
    requires ValidFrame(f)
    requires offset + |TxHeader(f)| <= |log|
    ensures |TxHeader(f)| == if f.Portable? then TX_EXT_HEADER_SIZE else TX_HEADER_SIZE
    ensures At(log, offset, TxHeader(f)) <==> HeaderFieldsAt(log, offset, f)
  {
    hide At, FromLe, ToLe, U32At, U64At;
    match f
    case Plain(ops, ts, payload) =>
      CompactHeaderAt(log, offset, FRAME_MAGIC, |payload|, ops, ts);
    case Portable(ops, ts, payload, ext, count, flagged) =>
      CompactHeaderAt(log, offset, EXT_FRAME_MAGIC, |payload|, ops, ts);
      ExtensionHeaderAt(log, offset, ToLe(EXT_FRAME_MAGIC, 4) + ToLe(|payload|, 8) + ToLe(ops, 4) + ToLe(ts, 8),
                        |ext|, count, if flagged then 1 else 0);
  }

  lemma TrailerAt(log: seq<byte>, offset: nat, body: seq<byte>, crc: u32)
    requires offset + |body| + TX_TRAILER_SIZE <= |log|
    ensures At(log, offset, body + ToLe(crc, 4) + ToLe(END_MAGIC, 4))
       <==> && At(log, offset, body)
            && U32At(log, offset + |body|) == crc && U32At(log, offset + |body| + 4) == END_MAGIC
  {
    hide At, FromLe, ToLe, U32At, U64At;
    AtConcat(log, offset, body + ToLe(crc, 4), ToLe(END_MAGIC, 4));
    AtConcat(log, offset, body, ToLe(crc, 4));
    U32Written(log, offset + |body|, crc);
    U32Written(log, offset + |body| + 4, END_MAGIC);
  }

  /** A frame's bytes sit at `offset` exactly when the fields the reader looks at say so and the
      two variable parts follow the header. */
  lemma BodyAt(log: seq<byte>, offset: nat, f: TxFrame)
    requires ValidFrame(f)
    requires offset + FrameSize(f) <= |log|
    ensures |Body(f)| == FrameSize(f) - TX_TRAILER_SIZE
    ensures At(log, offset, Body(f)) <==>
            var h := FrameSize(f) - TX_TRAILER_SIZE - |Extension(f)| - |f.payload|;
            && HeaderFieldsAt(log, offset, f)
            && At(log, offset + h, Extension(f))
            && At(log, offset + h + |Extension(f)|, f.payload)
  {
    TxHeaderSize(f);
    hide At, FromLe, ToLe, HeaderFieldsAt, TxHeader;
    TxHeaderAt(log, offset, f);
    AtConcat(log, offset, TxHeader(f) + Extension(f), f.payload);
    AtConcat(log, offset, TxHeader(f), Extension(f));
  }

  /** A written frame is read back as exactly that frame, wherever it sits in the log. */
  lemma ReadsWrittenFrame(cs: Checksum, f: TxFrame, log: seq<byte>, at: Boundary)
    requires ValidFrame(f) && |log| <= USIZE_MAX
    requires At(log, at.offset, EncodeFrame(cs, f, at.crc))
    ensures |EncodeFrame(cs, f, at.crc)| == FrameSize(f)
    ensures ReadFrame(cs, log, at) == Ok(Some(After(cs, f, at)))
  {
    hide FromLe, ToLe;
    var body, next := Body(f), NextCrc(cs, f, at.crc);
    TxHeaderSize(f);
    TrailerAt(log, at.offset, body, next);
    BodyAt(log, at.offset, f);
    assert log[at.offset..at.offset + |body|] == body;
    ReadFromFields(cs, log, at, at.offset + |body|, f.Portable?, |f.payload|, |Extension(f)|);
  }

  lemma TxHeaderSize(f: TxFrame)
    ensures |TxHeader(f)| == if f.Portable? then TX_EXT_HEADER_SIZE else TX_HEADER_SIZE
  {
  }

  /** What the reader returns, from the fields alone. */
  lemma ReadFromFields(cs: Checksum, log: seq<byte>, at: Boundary, trailer: nat,
                       portable: bool, payloadSize: nat, extensionSize: nat)
    requires trailer + TX_TRAILER_SIZE <= |log| <= USIZE_MAX
    requires trailer == at.offset + (if portable then TX_EXT_HEADER_SIZE else TX_HEADER_SIZE)
                          + payloadSize + extensionSize
    requires U32At(log, at.offset) == if portable then EXT_FRAME_MAGIC else FRAME_MAGIC
    requires U64At(log, at.offset + 4) == payloadSize
    requires ExtensionSize(log, at.offset) == Ok(extensionSize)
    requires U32At(log, trailer) == cs.append(at.crc, log[at.offset..trailer])
    requires U32At(log, trailer + 4) == END_MAGIC
    ensures ReadFrame(cs, log, at) == Ok(Some(Boundary(trailer + TX_TRAILER_SIZE, U32At(log, trailer))))
  {
  }

  // ----- whole logs -----

  lemma {:induction false} FramesOfEncoding(cs: Checksum, fs: seq<TxFrame>, log: seq<byte>, at: Boundary)
    requires forall f | f in fs :: ValidFrame(f)
    requires |log| <= USIZE_MAX && at.offset <= |log|
    requires log[at.offset..] == EncodeFrames(cs, fs, at.crc)
    ensures Frames(cs, log, at) == Ok(CumulativeBoundaries(cs, fs, at))
    ensures Last(CumulativeBoundaries(cs, fs, at)).offset == |log|
  {
    hide FromLe, ToLe, ReadFrame, EncodeFrame, ValidFrame;
    if fs == [] {
      NothingToRead(cs, log, at);
    } else {
      EncodingSplits(cs, fs, log, at);
      ReadsWrittenFrame(cs, fs[0], log, at);
      FramesOfEncoding(cs, fs[1..], log, After(cs, fs[0], at));
    }
  }

  lemma NothingToRead(cs: Checksum, log: seq<byte>, at: Boundary)
    requires at.offset == |log|
    ensures ReadFrame(cs, log, at) == Ok(None)
  {
  }

  lemma EncodingSplits(cs: Checksum, fs: seq<TxFrame>, log: seq<byte>, at: Boundary)
    requires fs != [] && at.offset <= |log| && log[at.offset..] == EncodeFrames(cs, fs, at.crc)
    ensures At(log, at.offset, EncodeFrame(cs, fs[0], at.crc))
    ensures log[at.offset + |EncodeFrame(cs, fs[0], at.crc)|..] == EncodeFrames(cs, fs[1..], NextCrc(cs, fs[0], at.crc))
  {
    hide ToLe, EncodeFrame;
    SplitSuffix(log, at.offset, EncodeFrame(cs, fs[0], at.crc), EncodeFrames(cs, fs[1..], NextCrc(cs, fs[0], at.crc)));
  }

  lemma SplitSuffix(log: seq<byte>, offset: nat, a: seq<byte>, b: seq<byte>)
    requires offset <= |log| && log[offset..] == a + b
    ensures At(log, offset, a) && log[offset + |a|..] == b
  {
    assert log[offset..][..|a|] == a;
    assert log[offset..][..|a|] == log[offset..offset + |a|];
    assert log[offset..][|a|..] == b;
    assert log[offset..][|a|..] == log[offset + |a|..];
  }

  /** The header check accepts exactly the headers that are written, with either value of the one flag. */
  lemma HeaderIsWritten(cs: Checksum, flags: byte, salt: u64, log: seq<byte>)
    requires |log| >= LOG_HEADER_SIZE && flags <= 1
    ensures At(log, 0, EncodeHeader(cs, flags, salt))
       <==> ValidateHeader(cs, log) == None && log[5] == flags && U64At(log, SALT_START) == salt
  {
    hide FromLe, ToLe;
    var crc := cs.hash(HeaderPrefix(flags, salt) + [0, 0, 0, 0]);
    AtConcat(log, 0, HeaderPrefix(flags, salt), ToLe(crc, 4));
    WidthFacts();
    U32Written(log, HEADER_CRC_START, crc);
    HeaderPrefixFields(flags, salt, log);
    assert log[..HEADER_CRC_START] == log[0..HEADER_CRC_START];
    hide HeaderPrefix;
  }

  lemma HeaderPrefixFields(flags: byte, salt: u64, log: seq<byte>)
    requires |log| >= HEADER_CRC_START
    ensures At(log, 0, HeaderPrefix(flags, salt))
       <==> && U32At(log, 0) == LOG_MAGIC && log[4] == LOG_VERSION && log[5] == flags
            && U16At(log, 6) == LOG_HEADER_SIZE && U64At(log, SALT_START) == salt
            && forall i | RESERVED_START <= i < HEADER_CRC_START :: log[i] == 0
  {
    hide FromLe;
    WidthFacts();
    var magic, version := ToLe(LOG_MAGIC, 4), [LOG_VERSION, flags];
    var len, salted := ToLe(LOG_HEADER_SIZE, 2), ToLe(salt, 8);
    hide ToLe;
    AtConcat(log, 0, magic + version + len + salted, Reserved());
    ZeroesAt(log, RESERVED_START, Reserved());
    AtConcat(log, 0, magic + version + len, salted);
    U64Written(log, SALT_START, salt);
    AtConcat(log, 0, magic + version, len);
    U16Written(log, 6, LOG_HEADER_SIZE);
    AtConcat(log, 0, magic, version);
    U32Written(log, 0, LOG_MAGIC);
    assert log[4..6] == [log[4], log[5]];
    hide Reserved, At;
  }

  lemma U16Written(buf: seq<byte>, offset: nat, x: nat)
    requires x < 0x1_0000 && offset + 2 <= |buf|
    ensures At(buf, offset, ToLe(x, 2)) <==> U16At(buf, offset) == x
  {
    WidthFacts();
    LeRoundTrip(x, 2);
    LeUnique(buf[offset..offset + 2]);
  }

  lemma ZeroesAt(log: seq<byte>, offset: nat, zeroes: seq<byte>)
    requires offset + |zeroes| <= |log| && forall i | 0 <= i < |zeroes| :: zeroes[i] == 0
    ensures At(log, offset, zeroes) <==> forall i | offset <= i < offset + |zeroes| :: log[i] == 0
  {
    var part := log[offset..offset + |zeroes|];
    if part == zeroes {
      forall i | offset <= i < offset + |zeroes|
        ensures log[i] == 0
      {
        assert log[i] == part[i - offset];
      }
    }
  }

  /** Scanning a well-formed log returns the header boundary followed by the end of each frame. */
  lemma ScanOfWrittenLog(cs: Checksum, flags: byte, salt: u64, fs: seq<TxFrame>, log: seq<byte>)
    requires flags <= 1 && forall f | f in fs :: ValidFrame(f)
    requires log == EncodeLog(cs, flags, salt, fs) && |log| <= USIZE_MAX
    ensures Scan(cs, log) == Ok(Snapshot(|log|, CumulativeBoundaries(cs, fs, FirstBoundary(cs, salt))))
  {
    assert At(log, 0, EncodeHeader(cs, flags, salt));
    HeaderIsWritten(cs, flags, salt, log);
    assert log[LOG_HEADER_SIZE..] == EncodeFrames(cs, fs, cs.hash(ToLe(salt, 8)));
    FramesOfEncoding(cs, fs, log, FirstBoundary(cs, salt));
  }

  // ----- the converse: nothing else scans -----

  /** The frame a successful read found, reconstructed from its bytes. */
  lemma FrameOfRead(cs: Checksum, log: seq<byte>, at: Boundary) returns (f: TxFrame)
    requires at.offset <= |log| <= USIZE_MAX
    requires ReadFrame(cs, log, at).Ok? && ReadFrame(cs, log, at).value.Some?
    ensures ValidFrame(f)
    ensures ReadFrame(cs, log, at) == Ok(Some(After(cs, f, at)))
    ensures At(log, at.offset, EncodeFrame(cs, f, at.crc))
  {
    f := FrameFields(cs, log, at);
    WrittenFromFields(cs, log, at, f);
    ReadsWrittenFrame(cs, f, log, at);
  }

  lemma WrittenFromFields(cs: Checksum, log: seq<byte>, at: Boundary, f: TxFrame)
    requires ValidFrame(f) && at.offset + FrameSize(f) <= |log|
    requires var t := at.offset + FrameSize(f) - TX_TRAILER_SIZE;
      var h := FrameSize(f) - TX_TRAILER_SIZE - |Extension(f)| - |f.payload|;
      && HeaderFieldsAt(log, at.offset, f)
      && At(log, at.offset + h, Extension(f))
      && At(log, at.offset + h + |Extension(f)|, f.payload)
      && U32At(log, t) == cs.append(at.crc, log[at.offset..t])
      && U32At(log, t + 4) == END_MAGIC
    ensures At(log, at.offset, EncodeFrame(cs, f, at.crc))
  {
    hide FromLe, ToLe;
    BodyAt(log, at.offset, f);
    FrameFromBody(cs, log, at, Body(f), at.offset + FrameSize(f) - TX_TRAILER_SIZE);
  }

  lemma FrameFromBody(cs: Checksum, log: seq<byte>, at: Boundary, body: seq<byte>, t: nat)
    requires At(log, at.offset, body) && t == at.offset + |body| && t + TX_TRAILER_SIZE <= |log|
    requires U32At(log, t) == cs.append(at.crc, log[at.offset..t])
    requires U32At(log, t + 4) == END_MAGIC
    ensures At(log, at.offset, body + ToLe(cs.append(at.crc, body), 4) + ToLe(END_MAGIC, 4))
  {
    TrailerAt(log, at.offset, body, cs.append(at.crc, body));
  }

  lemma FrameFields(cs: Checksum, log: seq<byte>, at: Boundary) returns (f: TxFrame)
    requires at.offset <= |log| <= USIZE_MAX
    requires ReadFrame(cs, log, at).Ok? && ReadFrame(cs, log, at).value.Some?
    ensures ValidFrame(f)
    ensures var next := ReadFrame(cs, log, at).value.value;
      var t := next.offset - TX_TRAILER_SIZE;
      var h := FrameSize(f) - TX_TRAILER_SIZE - |Extension(f)| - |f.payload|;
      && next.offset == at.offset + FrameSize(f)
      && HeaderFieldsAt(log, at.offset, f)
      && At(log, at.offset + h, Extension(f))
      && At(log, at.offset + h + |Extension(f)|, f.payload)
      && next.crc == U32At(log, t) == cs.append(at.crc, log[at.offset..t])
      && U32At(log, t + 4) == END_MAGIC
  {
    hide FromLe, ToLe;
    var offset := at.offset;
    var t := ReadFrame(cs, log, at).value.value.offset - TX_TRAILER_SIZE;
    var ops, ts := U32At(log, offset + 12), U64At(log, offset + 16);
    if U32At(log, offset) == EXT_FRAME_MAGIC {
      var split := offset + TX_EXT_HEADER_SIZE + U64At(log, offset + 24);
      f := Portable(ops, ts, log[split..t], log[offset + TX_EXT_HEADER_SIZE..split],
                    U32At(log, offset + 32), U32At(log, offset + 36) == 1);
    } else {
      f := Plain(ops, ts, log[offset + TX_HEADER_SIZE..t]);
    }
  }

  /** Every accepted log is an encoding of frames followed by bytes that hold no complete frame. */
  lemma {:induction false} AcceptedFramesAreWritten(cs: Checksum, log: seq<byte>, at: Boundary)
      returns (fs: seq<TxFrame>)
    requires at.offset <= |log| <= USIZE_MAX
    requires Frames(cs, log, at).Ok?
    ensures forall f | f in fs :: ValidFrame(f)
    ensures Frames(cs, log, at) == Ok(CumulativeBoundaries(cs, fs, at))
    ensures At(log, at.offset, EncodeFrames(cs, fs, at.crc))
    ensures var last := Last(CumulativeBoundaries(cs, fs, at));
      last.offset == at.offset + |EncodeFrames(cs, fs, at.crc)| && ReadFrame(cs, log, last) == Ok(None)
    decreases |log| - at.offset
  {
    var r := ReadFrame(cs, log, at);
    if r.value.None? {
      fs := [];
    } else {
      var f := FrameOfRead(cs, log, at);
      ReadsWrittenFrame(cs, f, log, at);
      var rest := AcceptedFramesAreWritten(cs, log, After(cs, f, at));
      fs := [f] + rest;
      EncodingOfCons(cs, f, rest, log, at);
    }
  }

  lemma EncodingOfCons(cs: Checksum, f: TxFrame, rest: seq<TxFrame>, log: seq<byte>, at: Boundary)
    requires At(log, at.offset, EncodeFrame(cs, f, at.crc)) && |EncodeFrame(cs, f, at.crc)| == FrameSize(f)
    requires At(log, After(cs, f, at).offset, EncodeFrames(cs, rest, After(cs, f, at).crc))
    ensures CumulativeBoundaries(cs, [f] + rest, at) == [at] + CumulativeBoundaries(cs, rest, After(cs, f, at))
    ensures At(log, at.offset, EncodeFrames(cs, [f] + rest, at.crc))
    ensures |EncodeFrames(cs, [f] + rest, at.crc)| == FrameSize(f) + |EncodeFrames(cs, rest, After(cs, f, at).crc)|
  {
    hide EncodeFrame, EncodeFrames, CumulativeBoundaries, FrameSize, NextCrc, At;
    EncodeCons(cs, f, rest, at);
    AtConcat(log, at.offset, EncodeFrame(cs, f, at.crc), EncodeFrames(cs, rest, NextCrc(cs, f, at.crc)));
  }

  lemma EncodeCons(cs: Checksum, f: TxFrame, rest: seq<TxFrame>, at: Boundary)
    ensures EncodeFrames(cs, [f] + rest, at.crc)
         == EncodeFrame(cs, f, at.crc) + EncodeFrames(cs, rest, NextCrc(cs, f, at.crc))
    ensures CumulativeBoundaries(cs, [f] + rest, at) == [at] + CumulativeBoundaries(cs, rest, After(cs, f, at))
  {
    assert ([f] + rest)[1..] == rest;
  }

  /** Conversely, a log the scan accepts begins with a written log, and the scan is of that one. */
  lemma AcceptedLogIsWritten(cs: Checksum, log: seq<byte>) returns (flags: byte, salt: u64, fs: seq<TxFrame>)
    requires log != [] && |log| <= USIZE_MAX && Scan(cs, log).Ok?
    ensures flags <= 1 && forall f | f in fs :: ValidFrame(f)
    ensures var s := Scan(cs, log).value;
            log[..s.endOffset] == EncodeLog(cs, flags, salt, fs)
            && s.crcByOffset == CumulativeBoundaries(cs, fs, FirstBoundary(cs, salt))
  {
    flags, salt := log[5], U64At(log, SALT_START);
    HeaderIsWritten(cs, flags, salt, log);
    var first := FirstBoundary(cs, salt);
    fs := AcceptedFramesAreWritten(cs, log, first);
    hide *;
    WrittenPrefix(cs, flags, salt, fs, log);
  }

  lemma WrittenPrefix(cs: Checksum, flags: byte, salt: u64, fs: seq<TxFrame>, log: seq<byte>)
    requires At(log, 0, EncodeHeader(cs, flags, salt))
    requires At(log, LOG_HEADER_SIZE, EncodeFrames(cs, fs, FirstBoundary(cs, salt).crc))
    ensures |EncodeLog(cs, flags, salt, fs)| <= |log|
    ensures log[..|EncodeLog(cs, flags, salt, fs)|] == EncodeLog(cs, flags, salt, fs)
  {
    AtConcat(log, 0, EncodeHeader(cs, flags, salt), EncodeFrames(cs, fs, FirstBoundary(cs, salt).crc));
  }
}
