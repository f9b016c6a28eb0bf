/** The bootstrap sync that moves AUTOINCREMENT sequences past the ids `sqlite_sequence` records, so
    that no id is handed out twice after a switch to MVCC. It may have to wait for I/O at any step. */
module AutoincrementSync {
  import opened Outcome
  import opened Sequences
  import opened SequenceLoader

  /** A row of `sqlite_sequence`: a table and the largest id it ever used. */
  datatype Used = Used(table: string, lastUsedId: i64)

  datatype SyncError = NotLoaded(sequence: string) | CorruptTable(sequence: string)

  /** Backing tables and watermarks by normalized sequence name, and how many rows the sync has written. */
  datatype Store = Store(tables: map<string, Table>, watermarks: map<string, i64>, upserts: nat)

  /** The descriptors loaded before the sync, by normalized name. */
  type Descriptors = map<string, Sequence>

  const AUTOINCREMENT_SEQ_PREFIX := "__turso_internal_autoincrement_"

  function Key(u: Used): string {
    Normalize(AUTOINCREMENT_SEQ_PREFIX + u.table)
  }

  // ----- what a straight-line sync does -----

  /** The row CREATE TABLE would have written, moved to the last used id. */
  function AdvancedRow(lastUsedId: i64): Row {
    Row(lastUsedId, true, 1, 1, 1, I64_MAX, false)
  }

  /** `INSERT OR REPLACE` by primary key. */
  function Upsert(rows: Rows, r: Row): (result: Rows)
    ensures r in result
    ensures forall x | x in result :: x == r || (x in rows && x.value != r.value)
    ensures forall x | x in rows && x.value != r.value :: x in result
  {
    if rows == [] then [r]
    else
      SortedTail(rows);
      if rows[0].value < r.value then
        var rest := Upsert(rows[1..], r);
        SortedCons(rows[0], rest);
        [rows[0]] + rest
      else if rows[0].value == r.value then
        SortedCons(r, rows[1..]);
        [r] + rows[1..]
      else
        SortedCons(r, rows);
        [r] + rows
  }

  lemma SortedTail(rows: Rows)
    requires rows != []
    ensures Sorted(rows[1..])
    ensures forall x :: x in rows <==> x == rows[0] || x in rows[1..]
    ensures forall x | x in rows[1..] :: rows[0].value < x.value
  {
    assert rows == [rows[0]] + rows[1..];
  }

  lemma SortedCons(r: Row, rest: Rows)
    requires forall x | x in rest :: r.value < x.value
    ensures Sorted([r] + rest)
    ensures forall x :: x in [r] + rest <==> x == r || x in rest
  {
  }

  /** The sequence row says that the next id is above the last used one. */
  predicate AlreadyAbove(rows: seq<Row>, lastUsedId: i64) {
    rows != [] && (rows[0].value > lastUsedId || (rows[0].value == lastUsedId && rows[0].isCalled))
  }

  function NextWatermark(lastUsedId: i64): i64 {
    if lastUsedId + 1 <= I64_MAX then lastUsedId + 1 else lastUsedId
  }

  function Advance(st: Store, key: string, lastUsedId: i64): Store
    requires key in st.tables && st.tables[key].Readable?
  {
    Store(st.tables[key := Readable(Upsert(st.tables[key].rows, AdvancedRow(lastUsedId)))],
          st.watermarks[key := NextWatermark(lastUsedId)],
          st.upserts + 1)
  }

  function SyncOne(ds: Descriptors, u: Used, st: Store): Result<Store, SyncError> {
    var key := Key(u);
    if key !in st.tables then Ok(st)
    else if key !in ds then Err(NotLoaded(key))
    else if st.tables[key].Unreadable? then Err(CorruptTable(key))
    else if AlreadyAbove(WatermarkRows(st.tables[key], ds[key].inc), u.lastUsedId) then Ok(st)
    else Ok(Advance(st, key, u.lastUsedId))
  }

  function SyncAll(ds: Descriptors, used: seq<Used>, st: Store): Result<Store, SyncError> {
    if used == [] then Ok(st)
    else
      match SyncOne(ds, used[0], st)
      case Err(e) => Err(e)
      case Ok(next) => SyncAll(ds, used[1..], next)
  }

  /** How far a sync gets before it ends or fails. */
  function Reached(ds: Descriptors, used: seq<Used>, st: Store): Store
    decreases used
  {
    if used == [] || SyncOne(ds, used[0], st).Err? then st
    else Reached(ds, used[1..], SyncOne(ds, used[0], st).value)
  }

  // ----- the re-entrant sync -----

  datatype Sub =
    | RowStart
    | ReadSequenceRow(stmt: Option<Stmt>, row: Option<Row>)
    | Upserting

  datatype Phase =
    | Start
    | ReadSeqRows(left: seq<Used>, rows: seq<Used>)
    | Process(rows: seq<Used>, idx: nat, sub: Sub)
    | Committing

  datatype SyncPoll = SyncWaiting | SyncDone | SyncFailed(error: SyncError)

  class Syncer {
    const descriptors: Descriptors
    /** The content of `sqlite_sequence`, if the table exists. */
    const used: Option<seq<Used>>
    /** What the sync's transaction sees, and the tables that are committed. */
    var work: Store
    var durable: map<string, Table>
    /** The watermarks in memory, which no transaction protects. */
    var watermarks: map<string, i64>
    var phase: Phase

    ghost const initial: Store

    constructor (descriptors: Descriptors, used: Option<seq<Used>>, initial: Store)
      ensures Valid() && this.descriptors == descriptors && this.used == used && this.initial == initial
      ensures durable == initial.tables && watermarks == initial.watermarks
    {
      this.descriptors, this.used, this.initial := descriptors, used, initial;
      work, durable, watermarks, phase := initial, initial.tables, initial.watermarks, Start;
    }

    ghost function Outcome(): Result<Store, SyncError> {
      if used.None? then Ok(initial) else SyncAll(descriptors, used.value, initial)
    }

    /** The watermarks a straight-line sync leaves, also when it fails. */
    ghost function Left(): map<string, i64> {
      (if used.None? then initial else Reached(descriptors, used.value, initial)).watermarks
    }

    ghost predicate Valid()
      reads this
    {
      && durable == initial.tables && watermarks == work.watermarks
      && match phase
         case Start => work == initial
         case ReadSeqRows(left, rows) => work == initial && used == Some(rows + left)
         case Process(rows, idx, sub) =>
           && used == Some(rows) && idx <= |rows|
           && SyncAll(descriptors, rows[idx..], work) == Outcome()
           && Reached(descriptors, rows[idx..], work).watermarks == Left()
           && (sub != RowStart ==> idx < |rows| && Reading(rows[idx], sub))
         case Committing => Outcome() == Ok(work) && work.watermarks == Left()
    }

    /** The saved read is of the current row's own table. */
    ghost predicate Reading(u: Used, sub: Sub)
      reads this
    {
      && Key(u) in work.tables && Key(u) in descriptors && (sub.Upserting? ==> work.tables[Key(u)].Readable?)
      && var all := WatermarkRows(work.tables[Key(u)], descriptors[Key(u)].inc);
         match sub
         case RowStart => true
         case ReadSequenceRow(stmt, row) =>
           (match stmt
            case None => row == None
            case Some(rest) =>
              && work.tables[Key(u)].Readable?
              && ((row == None && rest == all) || (row.Some? && rest == [] && all == [row.value])))
         case Upserting => !AlreadyAbove(all, u.lastUsedId)
    }

    /** `sync_autoincrement_backing_tables_from_sqlite_sequence_nonblock`: runs until it has to wait, fails
        or has committed. Nothing is durable before the commit, but the watermarks in memory are set as the
        rows are written, and stay so if a later row fails. */
    method Resume(io: Schedule) returns (r: SyncPoll, rest: Schedule)
      requires Valid()
      modifies this
      ensures r.SyncWaiting? ==> Valid() && |rest| < |io|
      ensures r.SyncDone? ==> Outcome().Ok? && durable == Outcome().value.tables && watermarks == Left()
      ensures r.SyncFailed? ==> Outcome() == Err(r.error) && durable == initial.tables && watermarks == Left()
    {
      hide SyncAll, SyncOne, Reached, Key, WatermarkRows, AlreadyAbove;
      rest := io;
      if phase.Start? {
        if used.None? {
          return SyncDone, rest;
        }
        phase := ReadSeqRows(used.value, []);
        assert [] + used.value == used.value;
      }
      if phase.ReadSeqRows? {
        var waiting;
        waiting, rest := ReadUsedRows(rest);
        if waiting {
          return SyncWaiting, rest;
        }
        phase := Process(phase.rows, 0, RowStart);
        assert phase.rows + [] == phase.rows == phase.rows[0..];
      }
      while phase.Process? && phase.idx < |phase.rows|
        invariant Valid() && |rest| <= |io| && (phase.Process? || phase.Committing?)
        decreases if phase.Process? then |phase.rows| - phase.idx + 1 else 0
      {
        r, rest := SyncRow(rest);
        if !r.SyncDone? {
          return r, rest;
        }
      }
      if phase.Process? {
        AllSynced(descriptors, phase.rows, phase.idx, work);
        phase := Committing;
      }
      if rest != [] && rest[0] {
        return SyncWaiting, rest[1..];
      }
      durable := work.tables;
      r := SyncDone;
    }

    method ReadUsedRows(io: Schedule) returns (waiting: bool, rest: Schedule)
      requires Valid() && phase.ReadSeqRows?
      modifies this`phase
      ensures Valid() && phase.ReadSeqRows?
      ensures |rest| <= |io| && (waiting ==> |rest| < |io|) && (!waiting ==> phase.left == [])
    {
      rest := io;
      while true
        invariant Valid() && phase.ReadSeqRows? && |rest| <= |io|
        decreases if phase.ReadSeqRows? then |phase.left| else 0
      {
        if rest != [] {
          var wait := rest[0];
          rest := rest[1..];
          if wait {
            return true, rest;
          }
        }
        if phase.left == [] {
          return false, rest;
        }
        var next := phase.left[0];
        assert phase.rows + phase.left == (phase.rows + [next]) + phase.left[1..];
        phase := ReadSeqRows(phase.left[1..], phase.rows + [next]);
      }
    }

    /** Reads the watermark row of the backing table, from where the read was left. */
    method ReadBacking(io: Schedule) returns (r: SyncPoll, captured: seq<Row>, rest: Schedule)
      requires Valid() && phase.Process? && phase.sub.ReadSequenceRow?
      modifies this`phase
      ensures |rest| <= |io| && (r.SyncWaiting? ==> |rest| < |io|)
      ensures phase.Process? && phase.rows == old(phase.rows) && phase.idx == old(phase.idx) < |phase.rows|
      ensures phase.sub.ReadSequenceRow? && Valid()
      ensures var key := Key(phase.rows[phase.idx]);
        && key in work.tables && key in descriptors
        && (r.SyncFailed? ==> work.tables[key].Unreadable? && r.error == CorruptTable(key))
        && (r.SyncDone? ==> work.tables[key].Readable?
                               && captured == WatermarkRows(work.tables[key], descriptors[key].inc))
    {
      hide SyncAll, SyncOne, Reached, Key, WatermarkRows, AlreadyAbove, Upsert;
      var stmt, row, key := phase.sub.stmt, phase.sub.row, Key(phase.rows[phase.idx]);
      if stmt.None? {
        if work.tables[key].Unreadable? {
          return SyncFailed(CorruptTable(key)), [], io;
        }
        stmt, row := Some(WatermarkRows(work.tables[key], descriptors[key].inc)), None;
      }
      AtMostOneRow(work.tables[key], descriptors[key].inc);
      var left, waiting;
      left, row, waiting, rest := RunStmt(stmt.value, row, io);
      phase := Process(phase.rows, phase.idx, ReadSequenceRow(Some(left), row));
      r := if waiting then SyncWaiting else SyncDone;
      captured := if row.None? then [] else [row.value];
    }

    /** One row of `sqlite_sequence`. */
    method SyncRow(io: Schedule) returns (r: SyncPoll, rest: Schedule)
      requires Valid() && phase.Process? && phase.idx < |phase.rows|
      modifies this`work, this`watermarks, this`phase
      ensures |rest| <= |io| && (r.SyncWaiting? ==> |rest| < |io|)
      ensures !r.SyncFailed? ==> Valid() && phase.Process? && phase.rows == old(phase.rows)
      ensures r.SyncDone? ==> phase.idx == old(phase.idx) + 1
      ensures r.SyncFailed? ==> Outcome() == Err(r.error) && watermarks == Left()
    {
      hide SyncAll, SyncOne, Reached, Key, WatermarkRows, AlreadyAbove, Upsert;
      rest := io;
      var rows, idx := phase.rows, phase.idx;
      var u, key := rows[idx], Key(rows[idx]);
      OneMoreRow(descriptors, rows, idx, work);
      SyncOneCases(descriptors, u, work);
      if phase.sub.RowStart? {
        if key !in work.tables {
          phase := Process(rows, idx + 1, RowStart);
          return SyncDone, rest;
        }
        if key !in descriptors {
          return SyncFailed(NotLoaded(key)), rest;
        }
        phase := Process(rows, idx, ReadSequenceRow(None, None));
      }
      if phase.sub.ReadSequenceRow? {
        var captured;
        r, captured, rest := ReadBacking(rest);
        if !r.SyncDone? {
          return;
        }
        if AlreadyAbove(captured, u.lastUsedId) {
          phase := Process(rows, idx + 1, RowStart);
          return SyncDone, rest;
        }
        phase := Process(rows, idx, Upserting);
      }
      if rest != [] && rest[0] {
        return SyncWaiting, rest[1..];
      }
      work := Advance(work, key, u.lastUsedId);
      watermarks := watermarks[key := NextWatermark(u.lastUsedId)];
      phase := Process(rows, idx + 1, RowStart);
      r := SyncDone;
    }

    /** The bootstrap driver: resumes until the sync is over, whatever the waits. */
    method Run(io: Schedule) returns (r: Option<SyncError>)
      requires Valid()
      modifies this
      ensures match Outcome()
              case Ok(st) => r.None? && durable == st.tables && watermarks == st.watermarks
              case Err(e) => r == Some(e) && durable == initial.tables && watermarks == Left()
    {
      hide SyncAll, Reached;
      if used.Some? {
        ReachedIsResult(descriptors, used.value, initial);
      }
      var rest := io;
      var p := SyncWaiting;
      while p.SyncWaiting?
        invariant p.SyncWaiting? ==> Valid()
        invariant p.SyncDone? ==> Outcome().Ok? && durable == Outcome().value.tables && watermarks == Left()
        invariant p.SyncFailed? ==> Outcome() == Err(p.error) && durable == initial.tables && watermarks == Left()
        decreases p.SyncWaiting?, |rest|
      {
        p, rest := Resume(rest);
      }
      r := if p.SyncDone? then None else Some(p.error);
    }
  }

  lemma OneMoreRow(ds: Descriptors, rows: seq<Used>, idx: nat, st: Store)
    requires idx < |rows|
    ensures SyncAll(ds, rows[idx..], st)
         == match SyncOne(ds, rows[idx], st)
            case Err(e) => Err(e)
            case Ok(next) => SyncAll(ds, rows[idx + 1..], next)
    ensures Reached(ds, rows[idx..], st)
         == match SyncOne(ds, rows[idx], st)
            case Err(_) => st
            case Ok(next) => Reached(ds, rows[idx + 1..], next)
  {
    assert rows[idx..][1..] == rows[idx + 1..];
  }

  /** A sync that succeeds ends where it gets to. */
  lemma {:induction false} ReachedIsResult(ds: Descriptors, used: seq<Used>, st: Store)
    ensures SyncAll(ds, used, st).Ok? ==> Reached(ds, used, st) == SyncAll(ds, used, st).value
    decreases used
  {
    if used != [] && SyncOne(ds, used[0], st).Ok? {
      ReachedIsResult(ds, used[1..], SyncOne(ds, used[0], st).value);
    }
  }

  lemma AllSynced(ds: Descriptors, rows: seq<Used>, idx: nat, st: Store)
    requires idx == |rows|
    ensures SyncAll(ds, rows[idx..], st) == Ok(st) && Reached(ds, rows[idx..], st) == st
  {
  }

  lemma SyncOneCases(ds: Descriptors, u: Used, st: Store)
    ensures Key(u) !in st.tables ==> SyncOne(ds, u, st) == Ok(st)
    ensures Key(u) in st.tables && Key(u) !in ds ==> SyncOne(ds, u, st) == Err(NotLoaded(Key(u)))
    ensures Key(u) in st.tables && Key(u) in ds && st.tables[Key(u)].Unreadable? ==>
              SyncOne(ds, u, st) == Err(CorruptTable(Key(u)))
    ensures Key(u) in st.tables && Key(u) in ds && st.tables[Key(u)].Readable? ==>
              SyncOne(ds, u, st)
              == Ok(if AlreadyAbove(WatermarkRows(st.tables[Key(u)], ds[Key(u)].inc), u.lastUsedId) then st
                    else Advance(st, Key(u), u.lastUsedId))
  {
  }

  lemma AtMostOneRow(t: Table, inc: int)
    ensures |WatermarkRows(t, inc)| <= 1
  {
  }

  // ----- what the sync achieves -----

  /** The smallest id a row leaves free. */
  function FreeFrom(r: Row): int {
    if r.isCalled then r.value + 1 else r.value
  }

  /** The id from which an ascending sequence hands out, if its table has a row; ids end at `I64_MAX`. */
  function HighWater(t: Table): Option<int> {
    if t.Readable? && t.rows != [] then Some(FreeFrom(t.rows[|t.rows| - 1])) else None
  }

  function Raise(h: Option<int>, lastUsedId: i64): Option<int> {
    Some(if h.Some? && h.value > lastUsedId then h.value else lastUsedId + 1)
  }

  /** The high water a sequence must have reached: its own, and above every id recorded for it. */
  function Raised(h: Option<int>, used: seq<Used>, key: string): Option<int>
    decreases used
  {
    if used == [] then h
    else Raised(if Key(used[0]) == key then Raise(h, used[0].lastUsedId) else h, used[1..], key)
  }

  /** What CREATE TABLE gives every AUTOINCREMENT sequence. */
  predicate Standard(s: Sequence) {
    s.start == 1 && s.inc == 1 && s.min == 1 && s.max == I64_MAX && !s.cycle
  }

  /** The sequences behind the recorded tables do not descend; other sequences may. */
  predicate Ascending(ds: Descriptors, used: seq<Used>) {
    forall u | u in used && Key(u) in ds :: ds[Key(u)].inc >= 0
  }

  /** A replaced key keeps the rows sorted, so the written row is the last one if no key is above it. */
  lemma UpsertedLast(rows: Rows, r: Row)
    requires rows == [] || rows[|rows| - 1].value <= r.value
    ensures Upsert(rows, r) != [] && Upsert(rows, r)[|Upsert(rows, r)| - 1] == r
  {
    hide Upsert;
    var result := Upsert(rows, r);
    var last := result[|result| - 1];
    var i :| 0 <= i < |result| && result[i] == r;
    assert result[i].value <= last.value;
    assert forall x | x in rows :: x.value <= r.value;
    assert last == r || (last in rows && last.value != r.value);
  }

  /** The code's test on a row is a comparison of ids. */
  lemma AboveIsHigher(t: Table, inc: int, lastUsedId: i64)
    requires inc >= 0
    ensures AlreadyAbove(WatermarkRows(t, inc), lastUsedId) <==> HighWater(t).Some? && HighWater(t).value > lastUsedId
  {
  }

  /** One row of `sqlite_sequence` raises its own sequence to just above the id, and no other. */
  lemma OneRaises(ds: Descriptors, u: Used, st: Store, key: string)
    requires (Key(u) in ds ==> ds[Key(u)].inc >= 0) && SyncOne(ds, u, st).Ok? && key in st.tables
    ensures SyncOne(ds, u, st).value.tables.Keys == st.tables.Keys
    ensures Key(u) != key ==> SyncOne(ds, u, st).value.tables[key] == st.tables[key]
    ensures Key(u) == key ==> st.tables[key].Readable? && SyncOne(ds, u, st).value.tables[key].Readable?
    ensures HighWater(SyncOne(ds, u, st).value.tables[key])
         == if Key(u) == key then Raise(HighWater(st.tables[key]), u.lastUsedId) else HighWater(st.tables[key])
  {
    hide Key, WatermarkRows, AlreadyAbove, Upsert;
    SyncOneCases(ds, u, st);
    var k := Key(u);
    if k == key {
      AboveIsHigher(st.tables[k], ds[k].inc, u.lastUsedId);
      if !AlreadyAbove(WatermarkRows(st.tables[k], ds[k].inc), u.lastUsedId) {
        UpsertedLast(st.tables[k].rows, AdvancedRow(u.lastUsedId));
      }
    }
  }

  /** After a sync, every sequence hands out from its old high water or from just above the largest id
      recorded for it, whichever is higher; a name may be recorded more than once or in another case. */
  lemma {:induction false} SyncRaises(ds: Descriptors, used: seq<Used>, st: Store, key: string)
    requires Ascending(ds, used) && SyncAll(ds, used, st).Ok? && key in st.tables
    ensures key in SyncAll(ds, used, st).value.tables
    ensures HighWater(SyncAll(ds, used, st).value.tables[key]) == Raised(HighWater(st.tables[key]), used, key)
    decreases used
  {
    if used != [] {
      hide Key, SyncOne, HighWater;
      OneRaises(ds, used[0], st, key);
      SyncRaises(ds, used[1..], SyncOne(ds, used[0], st).value, key);
    }
  }

  /** `Raised` is the least upper bound of the old high water and every id just above a recorded one. */
  lemma {:induction false} RaisedIsLeast(h: Option<int>, used: seq<Used>, key: string)
    ensures h.Some? ==> Raised(h, used, key).Some? && Raised(h, used, key).value >= h.value
    ensures forall u | u in used && Key(u) == key :: Raised(h, used, key).Some?
               && Raised(h, used, key).value > u.lastUsedId
    ensures Raised(h, used, key) == h
         || exists u | u in used && Key(u) == key :: Raised(h, used, key) == Some(u.lastUsedId + 1)
    decreases used
  {
    if used != [] {
      hide Key;
      var h' := if Key(used[0]) == key then Raise(h, used[0].lastUsedId) else h;
      RaisedIsLeast(h', used[1..], key);
      forall u | u in used && Key(u) == key
        ensures Raised(h, used, key).Some? && Raised(h, used, key).value > u.lastUsedId
      {
        assert u == used[0] || u in used[1..];
      }
      if Raised(h', used[1..], key) == h' && h' != h {
        assert used[0] in used && Key(used[0]) == key;
      }
    }
  }

  /** What a standard sequence hands out, by its high water. */
  lemma StandardNext(s: Sequence, t: Table)
    requires Standard(s)
    ensures NextId(s, WatermarkRows(t, s.inc))
         == match HighWater(t)
            case None => Some(1)
            case Some(h) => if h <= I64_MAX then Some(h) else None
  {
  }

  /** The next id of a sequence in a store. */
  function Next(ds: Descriptors, st: Store, key: string): Option<i64>
    requires key in ds && key in st.tables
  {
    NextId(ds[key], WatermarkRows(st.tables[key], ds[key].inc))
  }

  /** The sync's promise. A sequence never again hands out an id at or below a recorded one. It hands one
      out exactly when neither a recorded id nor the sequence itself has reached `I64_MAX`. */
  lemma NextIsUnused(ds: Descriptors, used: seq<Used>, st: Store, key: string)
    requires Ascending(ds, used) && SyncAll(ds, used, st).Ok? && key in st.tables && key in ds && Standard(ds[key])
    ensures key in SyncAll(ds, used, st).value.tables
    ensures var next := Next(ds, SyncAll(ds, used, st).value, key);
            && (next.Some? ==> forall u | u in used && Key(u) == key :: next.value > u.lastUsedId)
            && (next.Some? <==>
                Next(ds, st, key).Some? && forall u | u in used && Key(u) == key :: u.lastUsedId < I64_MAX)
  {
    hide SyncAll, Key, HighWater, WatermarkRows, NextId;
    SyncRaises(ds, used, st, key);
    RaisedIsLeast(HighWater(st.tables[key]), used, key);
    StandardNext(ds[key], st.tables[key]);
    StandardNext(ds[key], SyncAll(ds, used, st).value.tables[key]);
  }

  /** No next id decreases, except that an empty backing table, whose next id is 1, follows recorded ids
      that are all negative. */
  lemma NextDecreasesExactly(ds: Descriptors, used: seq<Used>, st: Store, key: string)
    requires Ascending(ds, used) && SyncAll(ds, used, st).Ok? && key in st.tables && key in ds && Standard(ds[key])
    ensures key in SyncAll(ds, used, st).value.tables
    ensures var before, after := Next(ds, st, key), Next(ds, SyncAll(ds, used, st).value, key);
            (after.Some? && (before.None? || after.value < before.value))
            <==>
            && WatermarkRows(st.tables[key], 1) == []
            && (exists u :: u in used && Key(u) == key)
            && (forall u | u in used && Key(u) == key :: u.lastUsedId < 0)
  {
    hide SyncAll, Key, NextId, Raised;
    SyncRaises(ds, used, st, key);
    RaisedIsLeast(HighWater(st.tables[key]), used, key);
    StandardNext(ds[key], st.tables[key]);
    StandardNext(ds[key], SyncAll(ds, used, st).value.tables[key]);
  }

  /** A standard sequence and its table, on their own. */
  function Lone(u: Used, rows: Rows): (Descriptors, Store) {
    (map[Key(u) := Sequence(Key(u), 1, 1, 1, I64_MAX, false)], Store(map[Key(u) := Readable(rows)], map[], 0))
  }

  /** A sequence at its end stays exhausted, though the id recorded for it is small. */
  lemma ExhaustedSequence()
    ensures var u := Used("t", 5);
            var (ds, st) := Lone(u, [Row(I64_MAX, true, 1, 1, 1, I64_MAX, false)]);
            SyncAll(ds, [u], st) == Ok(st) && Next(ds, st, Key(u)) == None
  {
    hide Key;
    assert [Used("t", 5)][1..] == [];
  }

  /** An empty backing table, whose next id is 1, follows a negative recorded id. */
  lemma EmptyTableFollows()
    ensures var u := Used("t", -5);
            var (ds, st) := Lone(u, []);
            && Next(ds, st, Key(u)) == Some(1)
            && SyncAll(ds, [u], st).Ok? && Key(u) in SyncAll(ds, [u], st).value.tables
            && Next(ds, SyncAll(ds, [u], st).value, Key(u)) == Some(-4)
  {
    hide Key;
    var u := Used("t", -5);
    var (ds, st) := Lone(u, []);
    assert [u][1..] == [];
    assert SyncAll(ds, [u], st) == SyncOne(ds, u, st);
    assert Upsert([], AdvancedRow(-5)) == [AdvancedRow(-5)];
  }

  /** A row with the columns CREATE TABLE gives an AUTOINCREMENT sequence. */
  predicate StandardRow(r: Row) {
    r.start == 1 && r.inc == 1 && r.min == 1 && r.max == 0x7FFF_FFFF_FFFF_FFFF && !r.cycle
  }

  predicate StandardTable(t: Table) {
    t.Readable? ==> forall r | r in t.rows :: StandardRow(r)
  }

  /** The sync writes only such rows, so a later load still finds the same descriptor. */
  lemma {:induction false} SyncKeepsColumns(ds: Descriptors, used: seq<Used>, st: Store)
    requires SyncAll(ds, used, st).Ok? && forall k | k in st.tables :: StandardTable(st.tables[k])
    ensures forall k | k in SyncAll(ds, used, st).value.tables :: StandardTable(SyncAll(ds, used, st).value.tables[k])
    decreases used
  {
    if used != [] {
      hide Key, Upsert, AlreadyAbove;
      SyncKeepsColumns(ds, used[1..], SyncOne(ds, used[0], st).value);
    }
  }

  /** A sync that succeeds leaves nothing to do: the next one writes no row and succeeds. */
  lemma SecondSyncWritesNothing(ds: Descriptors, used: seq<Used>, st: Store)
    requires Ascending(ds, used) && SyncAll(ds, used, st).Ok?
    ensures SyncAll(ds, used, SyncAll(ds, used, st).value) == SyncAll(ds, used, st)
  {
    hide SyncAll, SyncOne, Raised;
    var synced := SyncAll(ds, used, st).value;
    forall u | u in used
      ensures SyncOne(ds, u, synced) == Ok(synced)
    {
      SyncKeeps(ds, used, st);
      if Key(u) in st.tables {
        SyncRaises(ds, used, st, Key(u));
        RaisedIsLeast(HighWater(st.tables[Key(u)]), used, Key(u));
        AboveIsHigher(synced.tables[Key(u)], ds[Key(u)].inc, u.lastUsedId);
      }
      SyncOneCases(ds, u, synced);
    }
    Idle(ds, used, synced);
  }

  lemma {:induction false} SyncKeeps(ds: Descriptors, used: seq<Used>, st: Store)
    requires Ascending(ds, used) && SyncAll(ds, used, st).Ok?
    ensures SyncAll(ds, used, st).value.tables.Keys == st.tables.Keys
    ensures forall u | u in used && Key(u) in st.tables :: Key(u) in ds
    decreases used
  {
    if used != [] {
      hide Key, AlreadyAbove, WatermarkRows, Upsert;
      SyncOneCases(ds, used[0], st);
      SyncKeeps(ds, used[1..], SyncOne(ds, used[0], st).value);
      forall u | u in used && Key(u) in st.tables
        ensures Key(u) in ds
      {
        assert u == used[0] || u in used[1..];
      }
    }
  }

  lemma {:induction false} Idle(ds: Descriptors, used: seq<Used>, st: Store)
    requires forall u | u in used :: SyncOne(ds, u, st) == Ok(st)
    ensures SyncAll(ds, used, st) == Ok(st)
  {
    if used != [] {
      hide SyncOne;
      assert used[0] in used;
      Idle(ds, used[1..], st);
    }
  }

  /** Every in-memory watermark is the first unsafe value of its table, as the loader leaves it. */
  predicate WatermarksAgree(ds: Descriptors, st: Store) {
    forall k | k in ds && k in st.tables && WatermarkRows(st.tables[k], ds[k].inc) != [] ::
      k in st.watermarks && st.watermarks[k] == FirstUnsafe(ds[k], WatermarkRows(st.tables[k], ds[k].inc)[0])
  }

  /** The sync moves each watermark with its table. */
  lemma {:induction false} SyncKeepsWatermarks(ds: Descriptors, used: seq<Used>, st: Store)
    requires (forall u | u in used && Key(u) in ds :: Standard(ds[Key(u)]))
    requires WatermarksAgree(ds, st) && SyncAll(ds, used, st).Ok?
    ensures WatermarksAgree(ds, SyncAll(ds, used, st).value)
    decreases used
  {
    if used != [] {
      var u, next := used[0], SyncOne(ds, used[0], st).value;
      assert WatermarksAgree(ds, next) by {
        hide Key, AlreadyAbove, Upsert, WatermarksAgree;
        SyncOneCases(ds, u, st);
        if next != st {
          AdvanceKeepsWatermarks(ds, u, st);
        }
      }
      SyncKeepsWatermarks(ds, used[1..], next);
    }
  }

  lemma AdvanceKeepsWatermarks(ds: Descriptors, u: Used, st: Store)
    requires WatermarksAgree(ds, st)
    requires Key(u) in st.tables && Key(u) in ds && Standard(ds[Key(u)]) && st.tables[Key(u)].Readable?
    requires !AlreadyAbove(WatermarkRows(st.tables[Key(u)], ds[Key(u)].inc), u.lastUsedId)
    ensures WatermarksAgree(ds, Advance(st, Key(u), u.lastUsedId))
  {
    hide Key, Upsert;
    UpsertedLast(st.tables[Key(u)].rows, AdvancedRow(u.lastUsedId));
  }

  /** On a descending sequence, which CREATE TABLE never makes, the sync would neither clear the recorded
      id nor ever come to rest. */
  lemma DescendingIsNotCleared()
    ensures var u := Used("t", 5);
            var row := Row(3, false, 3, -1, 1, 9, false);
            var ds := map[Key(u) := Sequence(Key(u), 3, -1, 1, 9, false)];
            var st := Store(map[Key(u) := Readable([row])], map[], 0);
            && SyncAll(ds, [u], st).Ok?
            && var once := SyncAll(ds, [u], st).value;
               && Key(u) in once.tables && Next(ds, once, Key(u)) == Some(3)
               && SyncAll(ds, [u], once).Ok? && SyncAll(ds, [u], once).value.upserts == once.upserts + 1
  {
    hide Key;
    var u := Used("t", 5);
    var row := Row(3, false, 3, -1, 1, 9, false);
    var up := AdvancedRow(5);
    var ds := map[Key(u) := Sequence(Key(u), 3, -1, 1, 9, false)];
    var st := Store(map[Key(u) := Readable([row])], map[], 0);
    assert Upsert([row], up) == [row, up] by {
      assert [row][1..] == [];
    }
    assert [u][1..] == [];
    assert SyncAll(ds, [u], st) == SyncOne(ds, u, st);
    var once := SyncOne(ds, u, st).value;
    assert once.tables[Key(u)] == Readable([row, up]);
    assert SyncAll(ds, [u], once) == SyncOne(ds, u, once);
  }
}
