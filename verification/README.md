# Turso: verified models of replication, connection state and scanners

A Dafny model of the parts of Turso, an SQLite-compatible database written in Rust, whose behaviour is
hardest to see from the code: the sync server's replication protocols, the state machines of a connection,
the bytecode program behind incremental blob I/O, and the scanners and numeric kernels around them.
`dafny verify dfyconfig.toml` checks everything.

How to read it:

- Code that only computes is modelled by functions. Code that changes things is modelled by methods and
  classes with loops, proved against a function or a property of the inputs. What the source promises is then
  proved of those functions, for all inputs or all runs.
- Checksums, statement execution, callbacks and the answers of a database are parameters, so a result holds
  for every possible behaviour of them. Waits for I/O are schedules: a result about a resumable operation
  holds for every placement of the waits.
- Concurrent parts (`SchemaGate`, `CheckpointGuard`) are step functions over a shared state. A run is any
  sequence of steps, so their theorems cover every interleaving of the modelled atomic steps.
- Integers are unbounded; the widths that matter (`usize`, `u64`, `u32`, `i64`, `i32`, checked arithmetic,
  truncating division) are written out. Reals stand for floating point.

## Results that depart from the documentation or from first expectations

- The AUTOINCREMENT sync does not always leave a next id: a sequence at the largest 64-bit id, or a recorded
  id that large, is exhausted (`ExhaustedSequence`; exact condition in `NextIsUnused`). By itself the sync
  would lower a next id in one case, an empty backing table whose recorded ids are all negative
  (`EmptyTableFollows`, `NextDecreasesExactly`). The bootstrap never gets there, because the load before it
  refuses an empty backing table (`NextNeverDecreases`). On a descending sequence the sync would neither clear
  the recorded id nor settle (`DescendingIsNotCleared`); CREATE TABLE makes only ascending ones.
- `name(index(n)) == n` fails for a number written with a plus sign or leading zeros: `?07` resolves to the
  slot named `?7` (`LeadingZeroIsLost`; `NameOfIndex` has the exact condition, on the spelling of the name).
- The header read loop can give up although the terminator is on its way (`GivesUpOnSlowHeaders`;
  exact condition in `GivesUpExactly`).
- In the block-comment scan of the statement reader the opening star counts, so `/*/` is a whole comment and
  `/*/;` a complete statement (`OpenCommentCompletes`; exact condition in `SkipsCommentExactly`).
- The format description allows log headers of at least 56 bytes; the server's check accepts exactly 56, and
  the model follows the check.
- An incremental-blob write that has to wait starts over from its first byte; `WriteCompletes` shows that the
  value ends as if it had never waited.

## Model

| member | source | states |
|---|---|---|
| Bytes.LeRoundTrip | cli/sync_server.rs:1218-1230 | Little-endian decoding undoes encoding for every value that fits the width. |
| Bytes.LeUnique | cli/sync_server.rs:1218-1230 | No other byte string of that width decodes to the value. |
| LogicalLog.ScanLog | cli/sync_server.rs:1058-1091 | The scanning loop computes the recursive scan, errors included. |
| LogFormat.HeaderIsWritten | cli/sync_server.rs:1098-1131 | The header check accepts exactly the headers the writer encodes, for either value of the flag, and the salt is read back. |
| LogFormat.BodyAt | core/mvcc/persistent_storage/logical_log.rs:809-845 | Bytes in the log are a frame's header, extension and payload exactly when the fields the reader looks at say so. |
| LogFormat.ReadsWrittenFrame | cli/sync_server.rs:1142-1216 | A written plain or extended frame is read back with its end and chained checksum, wherever it sits. |
| LogFormat.FramesOfEncoding | cli/sync_server.rs:1070-1088 | Scanning encoded frames gives their cumulative boundaries. |
| LogFormat.ScanOfWrittenLog | cli/sync_server.rs:1058-1091 | Scanning any well-formed log gives the header boundary and then the end and checksum of each frame. |
| LogFormat.FrameOfRead | cli/sync_server.rs:1142-1216 | Every frame the reader accepts is the encoding of some valid frame. |
| LogFormat.AcceptedFramesAreWritten | cli/sync_server.rs:1070-1088 | Accepted bytes are an encoding of frames, followed by no complete frame. |
| LogFormat.AcceptedLogIsWritten | cli/sync_server.rs:1058-1091 | Conversely to ScanOfWrittenLog: an accepted log, up to its end offset, is a written log with exactly the reported boundaries. |
| LogTruncation.ReadFrameMoves | cli/sync_server.rs:1142-1216 | A complete frame reads the same from the same bytes at any other place. |
| LogTruncation.ReadFrameTorn | cli/sync_server.rs:1142-1216 | A log cut inside an acceptable frame has a torn tail there, not an error. |
| LogTruncation.FramesIncrease | cli/sync_server.rs:1070-1088 | Boundaries strictly increase. |
| LogTruncation.UpToIsFilter | cli/sync_server.rs:1070-1088 | The boundaries kept by a cut are exactly those at or before it. |
| LogTruncation.FramesTruncated | cli/sync_server.rs:1070-1088 | Scanning a cut of accepted frames gives exactly the boundaries of the frames still complete. |
| LogTruncation.ScanTruncated | cli/sync_server.rs:1058-1091 | Every truncation that keeps the header scans, to exactly the boundaries of the complete frames that remain. |
| LogTruncation.ScanOfValidPrefix | cli/sync_server.rs:1058-1091 | A scan depends only on the bytes up to its end offset. |
| LogTruncation.ScanExtends | cli/sync_server.rs:1058-1091 | Whatever follows the validated bytes later, a later successful scan keeps every earlier boundary. |
| Decimal.ParseOfRender | cli/sync_server.rs:1047-1055 | Parsing a rendered number succeeds exactly when the type can hold it and gives it back. |
| Decimal.ParseExactly | cli/sync_server.rs:1041-1050 | A number is read from digits alone, after at most one plus sign, and only if the type can hold it. |
| Decimal.RenderOfValue | core/parameters.rs:84-85 | A digit string without a leading zero is the rendering of its value. |
| LogicalPull.RevisionRoundTrip | cli/sync_server.rs:1033-1056 | The revision handed out for an offset is read back as that offset. |
| LogicalPull.SeedFound | cli/sync_server.rs:1001-1008 | A checksum seed is found exactly for the recorded boundaries, and it is theirs. |
| LogicalPull.PullOutcome | cli/sync_server.rs:807-859 | A pull succeeds exactly from the start and from boundaries, with the error of each refusal; its body is the log from there to the end offset, and its revision names that. |
| LogicalPull.RangeDescribesBody | cli/sync_server.rs:807-846 | Whatever the revision, the range sent says exactly which bytes of the log the body is, ends at the last complete frame, is missing only with an empty body, and carries the header, and no seed, exactly when it starts the log. |
| LogicalPull.RevisionForms | cli/sync_server.rs:1033-1050 | With a separator, a revision is served exactly as the one handed out for its offset, refused for another generation, and refused as malformed otherwise. |
| LogicalPull.LegacyRevisionIsUpToDate | cli/sync_server.rs:1051-1055 | A revision without one counts as up to date. |
| LogicalPull.OtherVersionIsNotPortable | cli/sync_server.rs:790-806 | A log in another version of the format is refused by that version, whatever else it holds. |
| LogicalPull.EmptyLogIsUpToDate | cli/sync_server.rs:1058-1066 | Of an empty log there is nothing to send, and its revision names offset 0. |
| LogicalPull.FramesFromBoundary | cli/sync_server.rs:1070-1088 | Scanning from any boundary finds the boundaries after it. |
| LogicalPull.FramesShifted | cli/sync_server.rs:1070-1088 | The same frames scan the same without the bytes before them. |
| LogicalPull.SuffixScans | cli/sync_server.rs:1058-1091 | The log from any boundary on scans alone to the rest of the boundaries. |
| LogicalPull.ResumedBodyStandsAlone | cli/sync_server.rs:818-843 | A resumed body, rescanned alone from the seed sent with it, has the boundaries and checksums of the full scan. |
| LogicalPull.FirstBodyStandsAlone | cli/sync_server.rs:818-843 | A first body is a log with the same scan, sent as the range from 0 to its end, with the header and without a seed. |
| LogicalPull.CatchUp | cli/sync_server.rs:807-859 | A client that has one validated log gets exactly to the next one in one pull. |
| LogicalPull.RunDeliversTheLog | cli/sync_server.rs:807-859 | Over every run of appends, tears and pulls, the bodies received make up exactly the validated log, and the revision held names its length. |
| LogicalPull.RevisionsStayValid | cli/sync_server.rs:807-859 | Every revision handed out is accepted by every later readable state of the log and gets exactly the bytes since. |
| LogicalPull.RunBodiesStandAlone | cli/sync_server.rs:818-843 | Every non-empty body received in a run rescans alone, from the seed sent with it, to the boundaries and checksums of the full scan from the client's offset on. |
| PagePull.SelectPages | cli/sync_server.rs:651-701 | The newest-first loop sends the last version of each selected page, in order of last frame; a missing frame is an error. |
| PagePull.SentFrames | cli/sync_server.rs:660-690 | The pages sent are those of exactly the selected frames that are last to write their page, oldest first. |
| PagePull.SentOnce | cli/sync_server.rs:660-690 | No page is sent twice. |
| PagePull.AllSent | cli/sync_server.rs:660-690 | Every selected page written in the range is sent. |
| PagePull.ApplyIsReplay | cli/sync_server.rs:660-701 | Applying the pages sent equals replaying every selected frame in the range. |
| PagePull.ReplayHoldsNewest | cli/sync_server.rs:660-701 | Said of the frames alone: after a replay a selected page holds the data of the last frame that wrote it, and every other page is as it was. |
| PagePull.PullHoldsNewest | cli/sync_server.rs:660-701 | So it is after applying the pages sent. |
| PagePull.PullsCompose | cli/sync_server.rs:660-701 | Pulling (a, b] and then (b, c] equals pulling (a, c]. |
| PagePull.HandlePagePull | cli/sync_server.rs:614-701 | From request strings to pages: the exact error condition, the revision returned, and an effect equal to replay, after which every selected page holds the data of its last frame. |
| PagePull.RunIsReplay | cli/sync_server.rs:614-701 | However the WAL grows between pulls, the client ends with the replay of the whole WAL. |
| PagePull.RunHoldsNewest | cli/sync_server.rs:614-701 | So it ends with the data of the last frame of every selected page, and nothing else. |
| PagePull.RevisionIsRead | cli/sync_server.rs:614-650 | A revision handed out is read back; one that is not a number falls back. |
| Framing.EncodeLengthDelimited | cli/sync_server.rs:1438-1446 | The loop appends the varint of the length and the data. |
| Framing.EncodeResponse | cli/sync_server.rs:703-748 | The body is the header and every page, each length-delimited, in order. |
| Framing.VarintRoundTrip | cli/sync_server.rs:1438-1446 | A varint is read back, with exactly the rest left over. |
| Framing.ReadsWhatWasWritten | cli/sync_server.rs:1438-1446 | A body splits into exactly the messages it was written from. |
| Framing.TruncationIsSeen | cli/sync_server.rs:1438-1446 | A body cut anywhere inside is not read as complete, and what can be read is a prefix of the messages. |
| HeaderRead.FindHeaderEnd | cli/sync_server.rs:1268-1270 | The result is a terminator, and none lies before it. |
| HeaderRead.ReadHeaders | cli/sync_server.rs:222-242 | The chunked loop finds the terminator of a single full scan with exactly the chunks up to the one that completes it read, reports the end of input when there is none, and gives up exactly in the stated case. |
| HeaderRead.SearchResumes | cli/sync_server.rs:230-235 | Searching again from three bytes before the end of the old data misses nothing. |
| HeaderRead.GivesUpExactly | cli/sync_server.rs:235-242 | The limit is hit exactly when a read ends past it and before the first terminator's end; never if the terminator ends within it. |
| HeaderRead.GivesUpOnSlowHeaders | cli/sync_server.rs:235-242 | An input that shows it: one byte more than the limit arrives before the terminator does. |
| CloneWriter.FindStmtEnd | cli/input.rs:238-256 | The loop finds the first terminator and its length. |
| CloneWriter.TerminatorExactly | cli/input.rs:238-256 | A terminator is a semicolon and a line break, with or without a carriage return. |
| CloneWriter.StmtEnd | cli/input.rs:238-256 | The position found is a terminator and no earlier one exists. |
| CloneWriter.SplitKeepsEverything | cli/input.rs:258-267 | Statements, line breaks and leftover reassemble the input. |
| CloneWriter.SplitIsExact | cli/input.rs:258-267 | Each statement ends in the only terminator of its bytes, and the leftover has none. |
| CloneWriter.SplitResumes | cli/input.rs:258-267 | Splitting what has arrived, then the leftover with the rest, is splitting it all. |
| CloneWriter.ApplyWriter.FlushCompleteStatements | cli/input.rs:258-267 | The loop ends and executes, drains and fails as the recursive flush does. |
| CloneWriter.ApplyWriter.Write | cli/input.rs:306-310 | A write is a flush of the old buffer with the data appended. |
| CloneWriter.ApplyWriter.Finish | cli/input.rs:270-285 | The last statement is executed exactly when only blanks follow its semicolon. |
| CloneWriter.LastStatementAt | cli/input.rs:270-285 | Which bytes the last statement is: up to the last semicolon, with only blanks after it. |
| CloneWriter.FlushIsSplit | cli/input.rs:258-267 | Without errors the statements executed are those of the split. |
| CloneWriter.FlushStopsAtError | cli/input.rs:258-267 | After an error the refused statement is dropped, those before it were executed, everything after it is kept. |
| CloneWriter.FlushResumes | cli/input.rs:258-267 | Flushing in two parts is flushing at once, if the first part went well; after an error the rest stays behind. |
| CloneWriter.ChunkingDoesNotMatter | cli/input.rs:306-310 | However the bytes are cut into writes, and whatever statements are refused: statements executed, outcome and leftover are those of one write of everything. |
| CloneWriter.AcceptedChunksAreAllWritten | cli/input.rs:306-310 | When nothing is refused, every chunk is written. |
| BlobVm.BuildBlobProgram | core/incremental_blob.rs:394-531 | Emitting with labels and resolving them gives the program whose targets are fixed positions. |
| BlobLoop.Progress | core/incremental_blob.rs:394-531 | Every instruction moves towards a stop or uses up a wait, so the program always comes to a stop. |
| BlobLoop.Pump | core/incremental_blob.rs:49-66 | Stepping ends, in a row, the end or an error. |
| BlobLoop.ReadsOp | core/incremental_blob.rs:452-470 | From any pause the op bound last is dispatched, whatever registers and parameters hold. |
| BlobLoop.ReadCompletes | core/vdbe/execute.rs:3590-3627 | A read that waits any number of times yields the range asked for. |
| BlobLoop.WriteCompletes | core/vdbe/execute.rs:3656-3697 | A write that waits partway and starts over stores exactly its data. |
| BlobLoop.OverwriteAgain | core/vdbe/execute.rs:3656-3697 | A partial overwrite leaves no trace under the complete one. |
| BlobLoop.ReadOp | core/incremental_blob.rs:93-116 | Op 1 gives one row, the bytes or NULL on an expired cursor, and changes nothing else. |
| BlobLoop.WriteOp | core/incremental_blob.rs:118-139 | Op 2 gives one row, 1 with the data stored or NULL with nothing stored. |
| BlobLoop.CloseOp | core/incremental_blob.rs:145-149 | Op 0 ends the program without a row and leaves the value alone. |
| BlobLoop.OpenOp | core/incremental_blob.rs:349-384 | Opening gives one row with the length if the row holds addressable bytes, and an error otherwise. |
| BlobHandle.Blob.PumpStep | core/incremental_blob.rs:49-66 | The stepping loop waits out every wait and returns what the program does next. |
| BlobHandle.Blob.StepOp | core/incremental_blob.rs:175-205 | The row's value is returned; a NULL row latches expiry. |
| BlobHandle.Replies | core/incremental_blob.rs:93-173 | Which reply a call gets, in plain arithmetic: expiry first, then the refusal to write, then a range past the end, and expiry of a written row only for a call about some bytes. |
| BlobHandle.Effects | core/incremental_blob.rs:93-173 | Only a completed write changes bytes, and only an expired reply latches. |
| BlobHandle.Blob.ReadBytes | core/incremental_blob.rs:93-116 | The bytecode and driver answer a read as a fixed-length byte array would; out-of-range reads never reach the program. |
| BlobHandle.Blob.WriteBytes | core/incremental_blob.rs:118-139 | The same for a write, with the read-only and out-of-range refusals. |
| BlobHandle.Blob.Close | core/incremental_blob.rs:145-149 | Closing ends the program, expired or not, and keeps the bytes. |
| BlobHandle.OpenBlob | core/incremental_blob.rs:349-384 | A handle is made exactly for an addressable row, with its length. |
| BlobHandle.ExpiryLatches | core/incremental_blob.rs:175-205 | After one expired reply every later call is refused, and calls no longer change the bytes. |
| BlobHandle.HoldsLastWrites | core/incremental_blob.rs:118-139 | Over every run of calls each byte is that of the last write that covered it. |
| BlobHandle.ReadsLastWrites | core/incremental_blob.rs:93-116 | So every read in range returns the last writes. |
| BlobPages.SpanIsThere | core/storage/btree.rs:6106-6141 | A span is a non-empty piece of the payload at the position asked for. |
| BlobPages.CopyPayloadRange | core/storage/btree.rs:6143-6170 | Copying page by page gives the range of the whole payload, or nothing if a page has to be waited for. |
| BlobPages.StoreIsOverwrite | core/storage/btree.rs:6172-6194 | Storing into a page changes exactly the payload bytes of the span. |
| BlobPages.WritePayloadRange | core/storage/btree.rs:6172-6194 | Writing page by page overwrites the range, or a prefix of it up to a page that is not there yet. |
| BlobPages.ReadColumn | core/storage/btree.rs:6233-6260 | A column range is read, refused past the end of the value, or left until a page is there. |
| BlobPages.WriteColumn | core/storage/btree.rs:6262-6276 | Only the addressed column changes, by a prefix of the data, all of it if no page had to be waited for. |
| BlobOps.OpBlobRead | core/vdbe/execute.rs:3590-3627 | On the pages of a record the read instruction does exactly what the interpreter's step does on the column's value, or waits and changes nothing. |
| BlobOps.OpBlobWrite | core/vdbe/execute.rs:3656-3697 | The write instruction does the interpreter's step, or its wait with a prefix stored; the bytes of other columns stay. |
| Savepoints.Innermost | core/connection.rs:4742-4745 | The most recent open savepoint of a name. |
| Savepoints.FramesKept | core/connection.rs:149-158 | Stored snapshots keep their contents under writes to schemas they do not hold. |
| Savepoints.Connection.constructor | core/connection.rs:547-547 | A new connection agrees with the empty history. |
| Savepoints.Connection.MakeMut | core/schema.rs:3653-3658 | The slot gets a schema nobody else holds, with the same contents, and a copy exactly when someone else did; no other holder sees a change. |
| Savepoints.Connection.ChangeSchema | core/connection.rs:3129-3178 | A change to main, temp or an attached schema is the change of that slot alone, and no snapshot changes. |
| Savepoints.Connection.ReadSchema | core/connection.rs:3288-3313 | A reader sees the staged schema of an attached database, or else the published one, and an empty temp schema before there is a temp database. |
| Savepoints.Connection.InitTempDatabase | core/connection.rs:788-805 | The temp schema appears, empty. |
| Savepoints.Connection.PushSavepoint | core/connection.rs:4697-4723 | A savepoint captures exactly the schemas of that moment. |
| Savepoints.Connection.BeginTransaction | core/vdbe/execute.rs:5537-5576 | BEGIN turns automatic commit off, or is refused inside a transaction; either way everything else is kept. |
| Savepoints.Connection.EndCommittedTransaction | core/vdbe/execute.rs:5440-5450 | A commit keeps the schemas and drops every savepoint. |
| Savepoints.Connection.FindSavepoint | core/connection.rs:4742-4745 | The innermost frame of the name is found. |
| Savepoints.Connection.RollbackToSavepoint | core/connection.rs:4740-4756 | ROLLBACK TO restores exactly the schemas current at the innermost open savepoint of the name and drops only the frames above it. |
| Savepoints.Connection.RestoreSlots | core/vdbe/execute.rs:5853-5930 | The captured schemas are put back; a temp database that did not exist then is emptied. |
| Savepoints.Connection.ReleaseSavepoint | core/connection.rs:4725-4738 | RELEASE drops the frame and those above it, or asks for a commit for the one that began the transaction. |
| Savepoints.SlotChanged | core/connection.rs:3136-3178 | A write to a slot's own copy changes that slot and no other. |
| Savepoints.ChangeIsSeen | core/connection.rs:3136-3178 | After a change a reader of the slot sees the change of what was seen there before, and every other slot is as it was. |
| Savepoints.ChangesAddUp | core/connection.rs:3136-3178 | Two changes of one slot are seen one on top of the other. |
| Savepoints.InitTempIsUnseen | core/connection.rs:788-805 | A temp database that comes into being is empty; one that is there stays as it is. |
| Savepoints.InTransactionExactly | core/connection.rs:4697-4723 | A transaction is open exactly when a SAVEPOINT or BEGIN came after the last end of one. |
| Savepoints.RollbackUndoes | core/connection.rs:4740-4756 | SAVEPOINT, anything that leaves it the innermost open one of its name (more savepoints, releases, rollbacks, schema changes), ROLLBACK TO: the schemas are as before it, a temp database made since is empty, and exactly the savepoints up to it are open. |
| Savepoints.RollbackRepeats | core/connection.rs:4740-4756 | After anything that leaves the same savepoint the innermost of its name, a second ROLLBACK TO gives the same schemas again. |
| Savepoints.StackBelow | core/connection.rs:4725-4756 | While a savepoint is open, the ones below it are those open when it was made. |
| Savepoints.TempStays | core/connection.rs:788-805 | No operation removes a temp database. |
| SequenceLoader.Loader.ReadDescriptorRow | core/connection.rs:3823-3868 | The row captured is the current table's own, across waits. |
| SequenceLoader.Loader.ReadWatermarkRow | core/connection.rs:3901-3941 | The same for the watermark row. |
| SequenceLoader.Loader.Resume | core/connection.rs:3713-3821 | Each resumption waits with its state intact, fails as the straight-line load, or is done with its result. |
| SequenceLoader.Loader.ReadEntry | core/connection.rs:3746-3815 | One entry is skipped, registered, left waiting or fails the load. |
| SequenceLoader.Loader.Run | core/connection.rs:3713-3821 | For every placement of waits the loader's result is that of the straight-line loop. |
| SequenceLoader.RunStmt | core/connection.rs:3847-3866 | At most one row is captured, and none is lost or repeated by a wait. |
| SequenceLoader.LoadFailsExactly | core/connection.rs:3870-3899 | The load fails exactly when some new entry's table cannot be read, is empty, or has a first row that is no descriptor: increment zero, bounds out of order, or a start outside them. |
| SequenceLoader.DescriptorIsFirstRow | core/schema.rs:720-760 | A descriptor has the entry's name and the start, increment, bounds and cycle of its table's first row. |
| SequenceLoader.LoadedSequences | core/connection.rs:3713-3821 | Every new entry gets its own descriptor, every known one is kept. |
| SequenceLoader.LoadedFields | core/connection.rs:3870-3899 | So does every sequence a load registers. |
| SequenceLoader.LoadedWatermarks | core/connection.rs:3943-3958 | Every new entry gets its own table's watermark; others stay. |
| SequenceLoader.WatermarkIsNext | core/mvcc/database/mod.rs:106-118 | The watermark of an ascending sequence that does not cycle is the id handed out next, above every id in its table but those at the end of the range. |
| Sequences.NextIdInBounds | core/vdbe/execute.rs:15316-15405 | The next value is one increment on while that is within bounds; past them a sequence starts over if it cycles and is exhausted if not. |
| Sequences.NormalizeIgnoresCase | core/util.rs:128-132 | Names are the same sequence exactly when they differ in ASCII case only. |
| AutoincrementSync.Upsert | core/connection.rs:4113-4123 | Exactly the row with the same key is replaced. |
| AutoincrementSync.Syncer.Resume | core/connection.rs:3990-4150 | Each resumption waits with its state intact, fails with nothing durable and exactly the rows before the failing one in the watermarks, or is done with the straight-line result committed. |
| AutoincrementSync.Syncer.SyncRow | core/connection.rs:4050-4139 | One row of sqlite_sequence is skipped, applied, left waiting or fails the sync. |
| AutoincrementSync.Syncer.ReadBacking | core/connection.rs:4078-4089 | The watermark row read is the current table's own, across waits; an unreadable table fails the sync. |
| AutoincrementSync.Syncer.Run | core/connection.rs:3990-4150 | For every placement of waits, what is committed is the straight-line sync, or nothing; the watermarks in memory are then those of the rows reached. |
| AutoincrementSync.OneRaises | core/connection.rs:4078-4137 | One recorded id raises its own sequence to just above it, and no other. |
| AutoincrementSync.SyncRaises | core/connection.rs:4030-4139 | After the sync every sequence stands at the largest of its old position and the ids just above the recorded ones. |
| AutoincrementSync.RaisedIsLeast | core/connection.rs:4090-4112 | That position is above every recorded id, not below the old one, and is one of them. |
| AutoincrementSync.StandardNext | core/vdbe/execute.rs:15316-15405 | What an AUTOINCREMENT sequence hands out next, from its position. |
| AutoincrementSync.NextIsUnused | core/connection.rs:4090-4123 | No id at or below a recorded one is handed out; one is handed out exactly when neither the sequence nor a recorded id has reached the end. |
| AutoincrementSync.ExhaustedSequence | core/connection.rs:4090-4123 | A sequence at the largest id stays exhausted after a sync that records a small one. |
| AutoincrementSync.NextDecreasesExactly | core/connection.rs:4090-4123 | The sync by itself lowers a next id exactly on an empty backing table with only negative recorded ids. |
| AutoincrementSync.EmptyTableFollows | core/connection.rs:4090-4123 | That case at an input: the next id goes from 1 to -4. |
| Bootstrap.LoadedTableHasRow | core/mvcc/database/mod.rs:5286-5298 | A table whose descriptor the load accepted has a row. |
| Bootstrap.NextNeverDecreases | core/mvcc/database/mod.rs:5286-5308 | In the bootstrap, where the load comes first, the sync never lowers a next id. |
| Bootstrap.WatermarksAgreeAfterSync | core/mvcc/database/mod.rs:5286-5308 | After load and sync every watermark in memory agrees with its table. |
| AutoincrementSync.SecondSyncWritesNothing | core/connection.rs:4094-4108 | A second sync leaves everything as it is, the number of writes included. |
| AutoincrementSync.SyncKeepsWatermarks | core/connection.rs:4125-4136 | In-memory watermarks keep agreeing with their tables. |
| AutoincrementSync.SyncKeepsColumns | core/connection.rs:4109-4120 | The rows written have the columns CREATE TABLE gives, so a later load finds the same descriptor. |
| AutoincrementSync.DescendingIsNotCleared | core/connection.rs:4090-4123 | A descending sequence shows why ascending ones are needed. |
| SchemaGate.Kept | core/connection.rs:2029-2056 | Every step of a connection, a publisher or a schema change keeps the invariant. |
| SchemaGate.PublisherKeeps | core/mvcc/database/checkpoint_state_machine.rs:2056-2132 | No step of a publish touches a schema that a connection holds. |
| SchemaGate.ChangeKeeps | core/connection.rs:3129-3178 | A transaction's own schema change, its commit and its rollback leave every other connection's schema alone. |
| SchemaGate.BeginKeeps | core/connection.rs:2029-2056 | No step of a begin lets a stale schema past the comparison and the re-check. |
| SchemaGate.Run | core/connection.rs:2029-2056 | The invariant holds after every interleaving. |
| SchemaGate.BeginsWithPublishedSchema | core/mvcc/database/mod.rs:6730-6757 | A begin that passes the gate and the re-check holds the schema published at that moment, unless the cookie differs; a refusal means a publish happened since. |
| SchemaGate.RunsOnSchemaAtBegin | core/vdbe/execute.rs:5253-5262 | Past the cookie check, a transaction runs on the schema published at its begin until it ends or changes the schema itself. |
| SchemaGate.RecheckIsNeeded | core/connection.rs:2046-2048 | A publish can make the schema stale between the comparison and the begin. |
| SchemaGate.PassesGate | core/connection.rs:2035-2056 | Beside any other connections, one that holds the shared schema is not refused by the comparison. |
| SchemaGate.PublishLands | core/mvcc/database/checkpoint_state_machine.rs:2056-2132 | Whatever the connections are doing, a publish of a schema that is held puts a copy under a new identity, keeps the cookie and bumps the generation. |
| SchemaGate.BeginRuns | core/connection.rs:2029-2056 | Undisturbed, a connection that holds the shared schema gets to run on it. |
| SchemaGate.RefreshTakesShared | core/connection.rs:2058-2069 | An idle connection with an older or stale schema takes the shared one; any other keeps its own. |
| SchemaGate.UpdateTakesCopy | core/connection.rs:1965-1998 | The other way to catch up takes a copy with resolved roots, which the gate then refuses, and touches nothing that anyone holds. |
| SchemaGate.AlterStaysPrivate | core/connection.rs:3129-3134 | A schema change is made on a copy exactly when anyone else holds the schema, and nobody else sees it. |
| SchemaGate.ChangeEnds | core/database.rs:3511-3527 | Under a newer cookie its commit makes it the shared schema; a rollback goes back to that. |
| CheckpointGuard.Kept | core/connection.rs:4489-4529 | Every atomic step keeps the counters true and what a begin has read not below the truth. |
| CheckpointGuard.LoadsKeep | core/connection.rs:4517-4518 | The difference read, root count first, is at least the number of active non-blob statements. |
| CheckpointGuard.GuardsKeep | core/connection.rs:4519-4528 | A guard is granted only when nothing but its own statement and blob handles is active. |
| CheckpointGuard.Run | core/connection.rs:4489-4529 | The invariant holds after every interleaving. |
| CheckpointGuard.Exclusion | core/connection.rs:334-356 | At most one guard is alive, the flag says whether one is, no drop finds it clear, and beside it only its own statement and blob handles are active. |
| CheckpointGuard.NothingStarts | core/connection.rs:4489-4498 | While a guard is alive no root statement starts. |
| CheckpointGuard.StartIsCounted | core/connection.rs:4489-4498 | With no guard alive and no begin under way every other statement can start, and is counted. |
| CheckpointGuard.FinishIsUncounted | core/connection.rs:4489-4498 | A statement that finishes leaves the count. |
| CheckpointGuard.HandleComesAndGoes | core/connection.rs:4508-4518 | A blob handle is in the blob count while it is parked, and can finish after it has left it. |
| CheckpointGuard.DropReleases | core/connection.rs:343-356 | Dropping the guard clears the flag and leaves none. |
| CheckpointGuard.ClearFlagIsNoticed | core/connection.rs:349-354 | A drop that finds the flag clear is noticed. |
| CheckpointGuard.RefusalIsExact | core/connection.rs:4504-4529 | With no blob handle between its counters, an undisturbed begin is refused exactly when a guard is alive or another statement is active. |
| CivilDate.YearStartIsCount | core/build.rs:90-107 | The reference day count advances by 365 or 366 days a year under the 4/100/400 rule, from 1970. |
| CivilDate.MonthStartIs | core/build.rs:101-102 | Months start where the 153-days-in-five-months formula says. |
| CivilDate.EraIsFloor | core/build.rs:97-98 | With truncating division and the negative branch, the era is the floor. |
| CivilDate.YearOfEraContains | core/build.rs:99-101 | The year formula gives the year that contains the day, with a 366th day only before a leap year. |
| CivilDate.FromDaysIsRight | core/build.rs:96-105 | Every day, before the epoch too, becomes a valid date that counts back to that day. |
| CivilDate.DateOfDayNumber | core/build.rs:96-105 | Conversely every valid date is the date of its day. |
| CivilDate.EarlierCountsLess | core/build.rs:96-105 | Calendar order is day order. |
| CivilDate.FromDaysSteps | core/build.rs:96-105 | The next day is the calendar's successor, and day 0 is 1 January 1970. |
| UtcText.TimeOfIsRight | core/build.rs:91-95 | Every epoch becomes a valid time that counts back to that epoch. |
| UtcText.EpochOfIsRight | core/build.rs:91-105 | Every valid time is the time of exactly its epoch. |
| UtcText.YearReadsBack | core/build.rs:106-106 | The padded year, with its sign, is read back. |
| UtcText.TextLayout | core/build.rs:106-106 | For the years 0 to 9999 the text has nineteen characters, the separators in their places and the digits of each field between them. |
| UtcText.TextDeterminesEpoch | core/build.rs:91-107 | Two epochs never have the same text. |
| EditDistance.Levenshtein | cli/manual.rs:76-103 | The two-row loop computes the distance. |
| EditDistance.NoShorterScript | cli/manual.rs:76-103 | No script of inserts, deletes and substitutes is shorter than the distance. |
| EditDistance.DistanceIsLeast | cli/manual.rs:76-103 | The distance is the least length of such a script. |
| EditDistance.Symmetric | cli/manual.rs:76-103 | The distance is symmetric. |
| EditDistance.ZeroExactlyOnEqual | cli/manual.rs:76-103 | It is zero exactly on equal strings. |
| EditDistance.Triangle | cli/manual.rs:76-103 | It satisfies the triangle inequality. |
| EditDistance.AtMostLonger | cli/manual.rs:76-103 | It is at most the longer length. |
| EditDistance.CloseExactly | cli/manual.rs:109-122 | A page is close enough exactly when its distance is less than two fifths of the longer name. |
| EditDistance.FindClosest | cli/manual.rs:105-128 | The suggestion is the first of the nearest pages under the threshold, and there is none exactly when no page is under it. |
| Welford.StandardDeviation.constructor | core/percentile.rs:217-223 | The accumulator starts with no numbers. |
| Welford.StandardDeviation.Step | core/percentile.rs:225-239 | After each step the accumulator holds the true mean and the true sum of squared deviations of the numbers so far. |
| Welford.StandardDeviation.Finalize | core/percentile.rs:241-249 | The result is the square root of that sum over one less than the count, never of a negative number, and absent below two numbers. |
| Welford.StdDev | core/percentile.rs:225-249 | The aggregate over a column is the square root of the sample variance of its numbers. |
| Welford.OneMore | core/percentile.rs:228-238 | Welford's update of mean and deviations is exact. |
| Welford.OrderDoesNotMatter | core/percentile.rs:225-239 | The same numbers in any order give the same mean and deviations. |
| Percentiles.Sorted | core/percentile.rs:92-92 | The sorted list is ascending and a permutation. |
| Percentiles.SortedIsUnique | core/percentile.rs:92-92 | There is only one such list. |
| Percentiles.Index | core/percentile.rs:93-96 | The index of a percentile in range is within the list. |
| Percentiles.NeighboursInRange | core/percentile.rs:95-96 | Floor and ceiling of an index in range are in the list, at most one apart, around it. |
| Percentiles.Accumulator.Step | core/percentile.rs:56-77 | The accumulator holds the values accepted, the first percentile in range and the first refusal. |
| Percentiles.Accumulator.Finalize | core/percentile.rs:79-106 | The result is that of the rows' summary. |
| Percentiles.SummaryStep | core/percentile.rs:118-139 | One more row accepted, refused or first to set the percentile. |
| Percentiles.Outcomes | core/percentile.rs:188-206 | Null exactly when no row was accepted, an error exactly when some but not all were, never for a missing percentile. |
| Percentiles.RowsThatFit | core/percentile.rs:118-139 | The first percentile in range sets it, and if all rows ask for it within a thousandth every value counts. |
| Percentiles.RowThatDoesNotFit | core/percentile.rs:118-139 | Otherwise the first row that does not decides the error. |
| Percentiles.NoRowCounts | core/percentile.rs:118-146 | With no percentile in range there is no result. |
| Percentiles.Between | core/percentile.rs:98-106 | The interpolated value lies between its two neighbours in the sorted list. |
| Percentiles.AtGrows | core/percentile.rs:98-106 | A later position never has a smaller value. |
| Percentiles.OrderDoesNotMatter | core/percentile.rs:141-168 | The result depends on the values, not on their order. |
| Percentiles.RowOrderDoesNotMatter | core/percentile.rs:141-168 | Rows that all ask for the same percentile may come in any order. |
| Percentiles.PercentileGrows | core/percentile.rs:188-206 | A larger percentile never gives a smaller result; results stay within the values, and the discrete one is a value. |
| Percentiles.DiscreteIsAt | core/percentile.rs:188-206 | The discrete percentile is the value at the largest position not above p (n - 1). |
| Percentiles.ContinuousIsOnLine | core/percentile.rs:141-168 | The continuous one lies on the line between the values at the two nearest positions. |
| Percentiles.PercentIsCont | core/percentile.rs:79-106 | `percentile` on its scale is `percentile_cont` on its own. |
| Percentiles.MedianIsHalf | core/percentile.rs:28-44 | The median is the continuous percentile one half. |
| StatementReader.Tokenizer.ReadKeyword | cli/read_state_machine.rs:55-72 | The longest word is consumed and classified without case. |
| StatementReader.KeywordExactly | cli/read_state_machine.rs:65-72 | Which words, in any case, give which token. |
| StatementReader.TokenByCodes | cli/read_state_machine.rs:78-117 | Which token a text begins with, by the codes of its first characters. |
| StatementReader.LengthByCodes | cli/read_state_machine.rs:78-117 | How far that piece goes: a word to its last character, a quoted region and a line comment to the first character that ends them. |
| StatementReader.Tokenizer.NextPiece | cli/read_state_machine.rs:78-117 | One turn of the loop consumes exactly the next quoted region, comment or token. |
| StatementReader.Tokenizer.Next | cli/read_state_machine.rs:78-117 | The loop returns the next token of the text and consumes up to it, or ends with the text. |
| StatementReader.Reader.Process | cli/read_state_machine.rs:201-205 | Processing folds the text's tokens into the state. |
| StatementReader.FoldAppend | cli/read_state_machine.rs:201-205 | Token sequences are processed one after the other. |
| StatementReader.OpeningStates | cli/read_state_machine.rs:136-180 | Within a first statement the state says how its tokens began; a trigger is entered exactly by CREATE, any TEMPs, TRIGGER, possibly explained. |
| StatementReader.TriggerStates | cli/read_state_machine.rs:182-198 | Inside a trigger the state says which part of the closing pattern the tokens end in. |
| StatementReader.TriggerCompletesExactly | cli/read_state_machine.rs:182-198 | A trigger first completes exactly when its tokens first end in semicolon, END, semicolon with the allowed tokens between. |
| StatementReader.OrdinaryExactly | cli/read_state_machine.rs:137-180 | The reader stays out of the trigger states exactly on texts none of whose statements begins CREATE, any TEMPs, TRIGGER, possibly explained. |
| StatementReader.OrdinaryCompletesExactly | cli/read_state_machine.rs:137-180 | A text with no such statement is complete exactly when its last token apart from whitespace is a semicolon. |
| StatementComments.SkipsCommentExactly | cli/read_state_machine.rs:99-108 | A block comment is skipped up to its own closing exactly when no slash, with text after it, follows the opening at once. |
| StatementComments.TokensAsMeant | cli/read_state_machine.rs:78-117 | A text without that pattern makes the tokens it would make if comments were skipped as meant. |
| StatementComments.OpenCommentCompletes | cli/read_state_machine.rs:99-108 | A text with it, one open comment, is called complete. |
| StatementCuts.PiecePrefix | cli/read_state_machine.rs:78-117 | What the tokenizer consumes depends on those characters and at most one more. |
| StatementCuts.CutTokens | cli/read_state_machine.rs:78-117 | A text cut at a token boundary makes the tokens of its parts. |
| StatementCuts.CutProcesses | cli/read_state_machine.rs:201-205 | Processing the parts is processing the whole. |
| StatementCuts.BoundaryStays | cli/read_state_machine.rs:78-117 | A boundary stays one when what follows changes after its first character. |
| StatementCuts.QuotedMakesNothing | cli/read_state_machine.rs:83-91 | A closed quoted region makes no token. |
| StatementCuts.QuotedBodyIsIgnored | cli/read_state_machine.rs:83-91 | Replacing its body by any text without the delimiter leaves the final state unchanged. |
| Parameters.ParameterTable.constructor | core/parameters.rs:51-59 | A new table describes no occurrence. |
| Parameters.ParameterTable.PushPositional | core/parameters.rs:118-145 | A positional occurrence is recorded, or the index overflows and nothing changes. |
| Parameters.ParameterTable.PushNamedAt | core/parameters.rs:147-179 | A named occurrence is recorded, or the index overflows and nothing changes. |
| Parameters.ParameterTable.Push | core/parameters.rs:181-200 | A known name is returned, a new one gets the next index, a number is positional; the exact failures. |
| Parameters.NamePushed | core/parameters.rs:181-194 | A known name keeps its index and is no occurrence; a new one gets the next index while there is one. |
| Parameters.NumberPushed | core/parameters.rs:195-200 | A number is an unnamed parameter with that index; zero, the last index and anything else fail as stated. |
| Parameters.PositionalDescribes | core/parameters.rs:126-145 | List and maps keep agreeing with each other and with the occurrences. |
| Parameters.NamedDescribes | core/parameters.rs:147-179 | The same for a named occurrence, which may replace a positional slot. |
| Parameters.FirstNameIsFirst | core/parameters.rs:147-179 | The name of an index is the one of its first named occurrence. |
| Parameters.NextIsPastLargest | core/parameters.rs:118-145 | The next free index is 1, or one more than the largest so far. |
| Parameters.NameIsFirstSpelling | core/parameters.rs:80-88 | The name of an index is the first name given to it, else its number if it was ever written with one. |
| Parameters.NameOfIndex | core/parameters.rs:90-103 | A name that resolves is the name of its index exactly when it was given as a name or is a number without a plus sign and leading zeros. |
| Parameters.IndexOfName | core/parameters.rs:80-103 | The name of an index resolves to it exactly when no earlier index took that name. |
| Parameters.LeadingZeroIsLost | core/parameters.rs:95-103 | A number with a leading zero resolves to a slot with another name. |
| BusyHandler.PriorIsSum | core/busy.rs:61-91 | The cumulative table, continued by 100 ms steps, is the partial sums of the delays. |
| BusyHandler.EventIs | core/busy.rs:145-167 | After any number of invocations the delays granted sum to the smaller of the schedule and the timeout. |
| BusyHandler.WaitsExactlyTheTimeout | core/busy.rs:145-167 | No prefix of the delays exceeds the timeout; at the first refusal they sum to exactly it, and refusal persists. |
| BusyHandler.RefusesInTheEnd | core/busy.rs:145-167 | The handler does refuse. |
| BusyHandler.CounterSuffices | core/busy.rs:145-167 | A timeout within the counter's range never overflows it. |
| BusyHandler.BusyHandlerState.Reset | core/busy.rs:103-107 | Everything starts over. |
| BusyHandler.BusyHandlerState.Invoke | core/busy.rs:121-140 | Each kind of handler retries, gives up and counts as stated; a custom callback gets the number of earlier invocations; what an overflow of the counter leaves is stated too. |
| BusyHandler.BusyHandlerState.InvokeTimeoutHandler | core/busy.rs:145-167 | The delay granted is that of the schedule cut to the timeout; narrowing the iteration to 32 bits loses nothing; on overflow of the counter the iteration has advanced and nothing else has changed. |
| BusyHandler.BusyHandlerState.GetDelay | core/busy.rs:173-180 | The delay left is the time to the deadline, and zero exactly when it has passed. |
| BusyHandler.WaitForLock | core/busy.rs:121-167 | Invoking over and over grants exactly the delays of the schedule, and the time waited is their sum. |

## Left out

- Sockets, HTTP, protobuf and JSON, file handling: input and output are byte strings and parsed requests.
- `page:N` revisions and new log generations: the server supports one append-only generation.
- Encrypted log payloads: a payload is any bytes, so the scan does not tell the difference.
- BlobHandle.Blob.PumpStep: does not model the busy and interrupt replies, which end a call with an error; waiting is modelled, giving up is not.
- BlobHandle.OpenBlob: does not model the checks of `blob_open` on tables, columns and indexes before the program starts, which look up a schema entry by entry.
- BlobPages.WritePayloadRange: does not model how overflow pages are fetched and cached; any set of pages may be missing.
- Savepoints: rolling back a whole transaction, deferred foreign keys and the pager's own savepoints are not modelled; schemas are maps from names to definitions.
- SequenceLoader.Loader.Run: does not model SQL execution; a table is its rows in key order, or cannot be read.
- SequenceLoader.Loader.ReadDescriptorRow: does not model a read that fails after its statement has been prepared.
- SequenceLoader.Loader.ReadWatermarkRow: does not model one either.
- SequenceLoader.RunStmt: knows waits and rows, not errors in the middle of a statement.
- AutoincrementSync.Syncer.SyncRow: does not model an upsert that fails; a row is skipped, written, or refused before it is written.
- AutoincrementSync.Syncer.Run: does not model failures inside the commit; before it nothing is durable.
- SchemaGate.Run: takes the publisher's critical section and the agreement of header cookie and shared schema as given, and does not model wrap-around of the 64-bit generation.
- CheckpointGuard.Run: does not model wrap-around of the 32-bit counters or the pager cleanup in the guard's drop.
- Welford.StandardDeviation.Finalize: takes the square root as a parameter; floating-point rounding is not modelled.
- Percentiles.Accumulator.Step: does not model infinities, NaN and signed zeros; values are reals.
- EditDistance.FindClosest: compares the relative distance over exact reals.
- Memory orderings and wall-clock time: steps are atomic, instants are integers.
- The pager, b-tree, WAL and MVCC store behind a connection, the command-line interface, and the finite tables of functions, errors and opcodes.
