/** The bootstrap loader that registers a descriptor for every sequence backing table. It may have to
    wait for I/O at any row, returns to its caller then, and continues from saved state. */
module SequenceLoader {
  import opened Outcome
  import opened Sequences

  datatype LoadError = Corrupt(table: string)

  /** A backing table to read and the name of its sequence. */
  datatype Entry = Entry(table: string, name: string)

  /** What loading fills in: descriptors by normalized name, and watermarks if there is an MVCC store. */
  datatype Loaded = Loaded(sequences: map<string, Sequence>, watermarks: map<string, i64>)

  datatype Env = Env(tables: map<string, Table>, hasMvStore: bool)

  function TableOf(env: Env, e: Entry): Table {
    if e.table in env.tables then env.tables[e.table] else Unreadable
  }

  // ----- what a straight-line loop would build -----

  function DescriptorOf(env: Env, e: Entry): Result<Sequence, LoadError> {
    var rows := DescriptorRows(TableOf(env, e));
    if rows == [] then Err(Corrupt(e.table))
    else
      match NewSequence(e.name, rows[0])
      case None => Err(Corrupt(e.table))
      case Some(s) => Ok(s)
  }

  function Register(env: Env, e: Entry, s: Sequence, r: Row, l: Loaded): Loaded {
    Loaded(l.sequences[Normalize(e.name) := s],
           if env.hasMvStore then l.watermarks[Normalize(e.name) := FirstUnsafe(s, r)] else l.watermarks)
  }

  function LoadOne(env: Env, e: Entry, l: Loaded): Result<Loaded, LoadError> {
    if Normalize(e.name) in l.sequences then Ok(l)
    else
      match DescriptorOf(env, e)
      case Err(err) => Err(err)
      case Ok(s) =>
        var rows := WatermarkRows(TableOf(env, e), s.inc);
        if rows == [] then Err(Corrupt(e.table)) else Ok(Register(env, e, s, rows[0], l))
  }

  function LoadAll(env: Env, pending: seq<Entry>, l: Loaded): Result<Loaded, LoadError> {
    if pending == [] then Ok(l)
    else
      match LoadOne(env, pending[0], l)
      case Err(err) => Err(err)
      case Ok(next) => LoadAll(env, pending[1..], next)
  }

  // ----- the re-entrant loader -----

  /** A running `SELECT`: the rows it has still to deliver. */
  type Stmt = seq<Row>

  /** Whether each step of a statement has to wait; once used up, none does. */
  type Schedule = seq<bool>

  datatype Poll = Waiting | Finished | Failed(error: LoadError)

  class Loader {
    const env: Env
    const worklist: seq<Entry>
    var loaded: Loaded

    // The saved state: not started, or reading `pending[idx]`.
    var started: bool
    var pending: seq<Entry>
    var idx: nat
    var stmt: Option<Stmt>
    var meta: Option<Row>
    var sequence: Option<Sequence>
    var watermarkStmt: Option<Stmt>
    var watermarkRow: Option<Row>

    ghost const initial: Loaded

    constructor (env: Env, worklist: seq<Entry>, initial: Loaded)
      ensures Valid() && this.env == env && this.worklist == worklist && this.initial == initial
    {
      this.env, this.worklist, this.initial, loaded := env, worklist, initial, initial;
      started, pending, idx := false, [], 0;
      stmt, meta, sequence, watermarkStmt, watermarkRow := None, None, None, None, None;
    }

    /** Captured rows belong to the running statement and to no other table. */
    ghost predicate Captures(all: seq<Row>, s: Option<Stmt>, row: Option<Row>)
    {
      match s
      case None => row == None
      case Some(rest) => (row == None && rest == all) || (row.Some? && rest == [] && all == [row.value])
    }

    ghost predicate Valid()
      reads this
    {
      if !started then
        loaded == initial && idx == 0 && stmt.None? && meta.None? && sequence.None?
        && watermarkStmt.None? && watermarkRow.None?
      else
        && pending == worklist && idx <= |pending|
        && LoadAll(env, pending[idx..], loaded) == LoadAll(env, worklist, initial)
        && (idx == |pending| ==> stmt.None? && sequence.None? && watermarkStmt.None?)
        && (idx < |pending| ==> InFlight(pending[idx]))
        && (stmt.None? ==> meta.None?) && (watermarkStmt.None? ==> watermarkRow.None?)
    }

    /** The saved reads are reads of the current entry. */
    ghost predicate InFlight(e: Entry)
      reads this
    {
      && Captures(DescriptorRows(TableOf(env, e)), stmt, meta)
      && (stmt.Some? ==> sequence.None?)
      && (sequence.Some? ==> DescriptorOf(env, e) == Ok(sequence.value)
                             && Captures(WatermarkRows(TableOf(env, e), sequence.value.inc),
                                         watermarkStmt, watermarkRow))
      && (watermarkStmt.Some? ==> sequence.Some?)
      && (stmt.Some? || sequence.Some? ==> Normalize(e.name) !in loaded.sequences)
    }

    /** `read_seq_descriptor_row_nonblock`: a fresh statement forgets any row captured before it. */
    method ReadDescriptorRow(e: Entry, io: Schedule) returns (r: Poll, rest: Schedule)
      requires Captures(DescriptorRows(TableOf(env, e)), stmt, meta)
      modifies this`stmt, this`meta
      ensures |rest| <= |io| && (r.Waiting? ==> |rest| < |io|)
      ensures r.Failed? <==> old(stmt).None? && TableOf(env, e).Unreadable?
      ensures r.Failed? ==> r.error == Corrupt(e.table)
      ensures !r.Failed? ==> stmt.Some? && Captures(DescriptorRows(TableOf(env, e)), stmt, meta)
      ensures r.Finished? ==> DescriptorRows(TableOf(env, e)) == if meta.None? then [] else [meta.value]
    {
      if stmt.None? {
        if TableOf(env, e).Unreadable? {
          return Failed(Corrupt(e.table)), io;
        }
        stmt, meta := Some(DescriptorRows(TableOf(env, e))), None;
      }
      var rows, waiting;
      rows, meta, waiting, rest := RunStmt(stmt.value, meta, io);
      stmt := Some(rows);
      r := if waiting then Waiting else Finished;
    }

    /** `read_sequence_watermark_row_nonblock`. */
    method ReadWatermarkRow(e: Entry, s: Sequence, io: Schedule) returns (r: Poll, rest: Schedule)
      requires Captures(WatermarkRows(TableOf(env, e), s.inc), watermarkStmt, watermarkRow)
      modifies this`watermarkStmt, this`watermarkRow
      ensures |rest| <= |io| && (r.Waiting? ==> |rest| < |io|) && !r.Failed?
      ensures watermarkStmt.Some? && Captures(WatermarkRows(TableOf(env, e), s.inc), watermarkStmt, watermarkRow)
      ensures r.Finished? ==>
                WatermarkRows(TableOf(env, e), s.inc) == if watermarkRow.None? then [] else [watermarkRow.value]
    {
      if watermarkStmt.None? {
        watermarkStmt, watermarkRow := Some(WatermarkRows(TableOf(env, e), s.inc)), None;
      }
      var rows, waiting;
      rows, watermarkRow, waiting, rest := RunStmt(watermarkStmt.value, watermarkRow, io);
      watermarkStmt := Some(rows);
      r := if waiting then Waiting else Finished;
    }

    /** `load_sequence_descriptors_via_sql_nonblock`: runs until it has to wait, fails or is done. */
    method Resume(io: Schedule) returns (r: Poll, rest: Schedule)
      requires Valid()
      modifies this
      ensures r.Waiting? ==> Valid() && |rest| < |io|
      ensures r.Finished? ==> LoadAll(env, worklist, initial) == Ok(loaded)
      ensures r.Failed? ==> LoadAll(env, worklist, initial) == Err(r.error)
    {
      hide LoadAll, InFlight;
      rest := io;
      if !started {
        started, pending := true, worklist;
        assert pending[0..] == pending;
        NothingInFlight();
      }
      while idx < |pending|
        invariant started && Valid() && |rest| <= |io|
        decreases |pending| - idx
      {
        r, rest := ReadEntry(rest);
        if !r.Finished? {
          return r, rest;
        }
      }
      NoneLeft(env, pending, idx, loaded);
      r := Finished;
    }

    /** One round of the loop: the current entry is skipped, registered, or left for later. */
    method ReadEntry(io: Schedule) returns (r: Poll, rest: Schedule)
      requires started && Valid() && idx < |pending|
      modifies this`loaded, this`idx, this`stmt, this`meta, this`sequence, this`watermarkStmt, this`watermarkRow
      ensures |rest| <= |io| && (r.Waiting? ==> |rest| < |io|)
      ensures !r.Failed? ==> Valid()
      ensures r.Finished? ==> idx == old(idx) + 1
      ensures r.Failed? ==> LoadAll(env, worklist, initial) == Err(r.error)
    {
      hide LoadAll, LoadOne, Register, FirstUnsafe, DescriptorOf, DescriptorRows,
        WatermarkRows, Normalize, TableOf, FromMeta;
      rest := io;
      var e := pending[idx];
      OneMore(env, pending, idx, loaded);
      if Normalize(e.name) in loaded.sequences {
        SkipPresent(env, e, loaded);
        idx, stmt, meta, sequence, watermarkStmt, watermarkRow := idx + 1, None, None, None, None, None;
        NothingInFlight();
        return Finished, rest;
      }
      if sequence.None? {
        r, rest := ReadDescriptorRow(e, rest);
        if r.Failed? {
          UnreadableFails(env, e, loaded);
        }
        if !r.Finished? {
          return r, rest;
        }
        var s := FromMeta(e, meta);
        MetaIsDescriptor(env, e, meta, loaded);
        if s.Err? {
          return Failed(s.error), rest;
        }
        sequence, stmt, meta := Some(s.value), None, None;
      }
      r, rest := ReadWatermarkRow(e, sequence.value, rest);
      if r.Waiting? {
        return Waiting, rest;
      }
      LoadedOne(env, e, sequence.value, watermarkRow, loaded);
      if watermarkRow.None? {
        return Failed(Corrupt(e.table)), rest;
      }
      loaded := Register(env, e, sequence.value, watermarkRow.value, loaded);
      idx, stmt, meta, sequence, watermarkStmt, watermarkRow := idx + 1, None, None, None, None, None;
      NothingInFlight();
      r := Finished;
    }

    lemma NothingInFlight()
      requires stmt.None? && meta.None? && sequence.None? && watermarkStmt.None? && watermarkRow.None?
      ensures forall e :: InFlight(e)
    {
    }

    /** The bootstrap driver: resumes until the load is over, whatever the waits. */
    method Run(io: Schedule) returns (r: Result<Loaded, LoadError>)
      requires Valid()
      modifies this
      ensures r == LoadAll(env, worklist, initial)
    {
      var rest := io;
      var p := Waiting;
      while p.Waiting?
        invariant p.Waiting? ==> Valid()
        invariant p.Finished? ==> LoadAll(env, worklist, initial) == Ok(loaded)
        invariant p.Failed? ==> LoadAll(env, worklist, initial) == Err(p.error)
        decreases p.Waiting?, |rest|
      {
        hide LoadAll;
        p, rest := Resume(rest);
      }
      r := if p.Finished? then Ok(loaded) else Err(p.error);
    }
  }

  // ----- one entry of the worklist -----

  function FromMeta(e: Entry, meta: Option<Row>): Result<Sequence, LoadError> {
    if meta.None? then Err(Corrupt(e.table))
    else
      match NewSequence(e.name, meta.value)
      case None => Err(Corrupt(e.table))
      case Some(s) => Ok(s)
  }

  lemma OneMore(env: Env, pending: seq<Entry>, idx: nat, l: Loaded)
    requires idx < |pending|
    ensures LoadAll(env, pending[idx..], l)
         == match LoadOne(env, pending[idx], l)
            case Err(err) => Err(err)
            case Ok(next) => LoadAll(env, pending[idx + 1..], next)
  {
    assert pending[idx..][1..] == pending[idx + 1..];
  }

  lemma NoneLeft(env: Env, pending: seq<Entry>, idx: nat, l: Loaded)
    requires idx == |pending|
    ensures LoadAll(env, pending[idx..], l) == Ok(l)
  {
  }

  lemma SkipPresent(env: Env, e: Entry, l: Loaded)
    requires Normalize(e.name) in l.sequences
    ensures LoadOne(env, e, l) == Ok(l)
  {
  }

  lemma UnreadableFails(env: Env, e: Entry, l: Loaded)
    requires Normalize(e.name) !in l.sequences && TableOf(env, e).Unreadable?
    ensures LoadOne(env, e, l) == Err(Corrupt(e.table))
  {
  }

  lemma MetaIsDescriptor(env: Env, e: Entry, meta: Option<Row>, l: Loaded)
    requires Normalize(e.name) !in l.sequences
    requires DescriptorRows(TableOf(env, e)) == if meta.None? then [] else [meta.value]
    ensures FromMeta(e, meta) == DescriptorOf(env, e)
    ensures FromMeta(e, meta).Err? ==> LoadOne(env, e, l) == Err(FromMeta(e, meta).error)
  {
  }

  lemma LoadedOne(env: Env, e: Entry, s: Sequence, row: Option<Row>, l: Loaded)
    requires Normalize(e.name) !in l.sequences && DescriptorOf(env, e) == Ok(s)
    requires WatermarkRows(TableOf(env, e), s.inc) == if row.None? then [] else [row.value]
    ensures LoadOne(env, e, l) == if row.None? then Err(Corrupt(e.table)) else Ok(Register(env, e, s, row.value, l))
  {
  }

  /** `run_with_row_callback_nonblock` with a callback that keeps the row: rows are delivered until the
      statement ends or has to wait. */
  method RunStmt(s: Stmt, row: Option<Row>, io: Schedule)
      returns (s': Stmt, row': Option<Row>, waiting: bool, rest: Schedule)
    requires |s| <= 1
    ensures waiting ==> |rest| < |io|
    ensures |rest| <= |io|
    ensures (s' == s && row' == row) || (s != [] && s' == [] && row' == Some(s[0]))
    ensures !waiting ==> s' == []
  {
    s', row', rest := s, row, io;
    while true
      invariant |rest| <= |io|
      invariant (s' == s && row' == row) || (s != [] && s' == [] && row' == Some(s[0]))
      decreases |s'|
    {
      if rest != [] {
        var wait := rest[0];
        rest := rest[1..];
        if wait {
          return s', row', true, rest;
        }
      }
      if s' == [] {
        return s', row', false, rest;
      }
      row' := Some(s'[0]);
      s' := s'[1..];
    }
  }

  // ----- what the load amounts to -----

  /** An entry the load has to read: its sequence is not known yet. */
  predicate IsNew(e: Entry, l: Loaded) {
    Normalize(e.name) !in l.sequences
  }

  ghost predicate Distinct(pending: seq<Entry>) {
    forall i, j | 0 <= i < j < |pending| :: Normalize(pending[i].name) != Normalize(pending[j].name)
  }

  /** The entry's table can be read, and its first row is a descriptor. */
  predicate HasDescriptor(env: Env, e: Entry) {
    && e.table in env.tables && env.tables[e.table].Readable? && env.tables[e.table].rows != []
    && var row := env.tables[e.table].rows[0];
       row.inc != 0 && row.min < row.max && row.min <= row.start <= row.max
  }

  /** The descriptor of an entry has its name and the fields of its table's first row. */
  lemma DescriptorIsFirstRow(env: Env, e: Entry)
    ensures DescriptorOf(env, e).Ok? <==> HasDescriptor(env, e)
    ensures HasDescriptor(env, e) ==>
              var s, row := DescriptorOf(env, e).value, env.tables[e.table].rows[0];
              && s.name == e.name && s.start == row.start && s.inc == row.inc
              && s.min == row.min && s.max == row.max && s.cycle == row.cycle
  {
  }

  /** The load fails exactly when the descriptor of some new entry is missing or invalid. */
  lemma LoadFailsExactly(env: Env, pending: seq<Entry>, l: Loaded)
    requires Distinct(pending)
    ensures LoadAll(env, pending, l).Ok? <==> forall e | e in pending && IsNew(e, l) :: HasDescriptor(env, e)
  {
    hide LoadAll, DescriptorOf, HasDescriptor, IsNew;
    LoadFailsOnDescriptor(env, pending, l);
    forall e | e in pending
      ensures DescriptorOf(env, e).Ok? <==> HasDescriptor(env, e)
    {
      DescriptorIsFirstRow(env, e);
    }
  }

  lemma {:induction false} LoadFailsOnDescriptor(env: Env, pending: seq<Entry>, l: Loaded)
    requires Distinct(pending)
    ensures LoadAll(env, pending, l).Ok? <==> forall e | e in pending && IsNew(e, l) :: DescriptorOf(env, e).Ok?
  {
    hide Normalize, DescriptorOf;
    if pending != [] {
      var e, rest := pending[0], pending[1..];
      DescriptorDecides(env, e, l);
      if LoadOne(env, e, l).Ok? {
        var next := LoadOne(env, e, l).value;
        LoadFailsOnDescriptor(env, rest, next);
        assert forall x | x in rest :: IsNew(x, next) <==> IsNew(x, l);
        assert forall x | x in pending :: x == e || x in rest;
      } else {
        assert e in pending;
      }
    }
  }

  lemma DescriptorDecides(env: Env, e: Entry, l: Loaded)
    ensures LoadOne(env, e, l).Ok? <==> !IsNew(e, l) || DescriptorOf(env, e).Ok?
    ensures LoadOne(env, e, l).Ok? && IsNew(e, l) ==>
              LoadOne(env, e, l).value
              == Loaded(l.sequences[Normalize(e.name) := DescriptorOf(env, e).value],
                        if env.hasMvStore then l.watermarks[Normalize(e.name) := WatermarkOf(env, e)] else l.watermarks)
    ensures !IsNew(e, l) ==> LoadOne(env, e, l) == Ok(l)
  {
    hide Normalize;
  }

  /** Whatever the order of the worklist, a successful load keeps what was known and gives every new
      entry its own descriptor. */
  lemma {:induction false} LoadedSequences(env: Env, pending: seq<Entry>, l: Loaded, n: string)
    requires Distinct(pending) && LoadAll(env, pending, l).Ok?
    ensures var r := LoadAll(env, pending, l).value.sequences;
      && (n in l.sequences ==> n in r && r[n] == l.sequences[n])
      && (forall e | e in pending && IsNew(e, l) && Normalize(e.name) == n ::
            DescriptorOf(env, e).Ok? && n in r && r[n] == DescriptorOf(env, e).value)
      && (n in r && n !in l.sequences ==> exists e :: e in pending && Normalize(e.name) == n)
  {
    hide Normalize, DescriptorOf, LoadOne, WatermarkOf;
    if pending != [] {
      var e, rest := pending[0], pending[1..];
      DescriptorDecides(env, e, l);
      var next := LoadOne(env, e, l).value;
      LoadedSequences(env, rest, next, n);
      assert e in pending;
      assert forall x | x in rest ::
               x in pending && (IsNew(x, next) <==> IsNew(x, l)) && Normalize(x.name) != Normalize(e.name);
      assert forall x | x in pending :: x == e || x in rest;
    }
  }

  /** Every new entry is registered with the fields of its own table's first row. */
  lemma LoadedFields(env: Env, pending: seq<Entry>, l: Loaded, e: Entry)
    requires Distinct(pending) && LoadAll(env, pending, l).Ok? && e in pending && IsNew(e, l)
    ensures HasDescriptor(env, e)
    ensures var row, all := env.tables[e.table].rows[0], LoadAll(env, pending, l).value.sequences;
      && Normalize(e.name) in all
      && var s := all[Normalize(e.name)];
         && s.name == e.name && s.start == row.start && s.inc == row.inc
         && s.min == row.min && s.max == row.max && s.cycle == row.cycle
  {
    hide LoadAll, Normalize, DescriptorOf, HasDescriptor;
    LoadedSequences(env, pending, l, Normalize(e.name));
    DescriptorIsFirstRow(env, e);
  }

  /** And the watermark of its own table; other watermarks stay. */
  lemma {:induction false} LoadedWatermarks(env: Env, pending: seq<Entry>, l: Loaded, n: string)
    requires Distinct(pending) && LoadAll(env, pending, l).Ok?
    ensures var r := LoadAll(env, pending, l).value.watermarks;
      && (forall e | e in pending && IsNew(e, l) && env.hasMvStore && Normalize(e.name) == n ::
            DescriptorOf(env, e).Ok? && n in r && r[n] == WatermarkOf(env, e))
      && ((!env.hasMvStore || forall e | e in pending && IsNew(e, l) :: Normalize(e.name) != n) ==>
            (n in r <==> n in l.watermarks) && (n in r ==> r[n] == l.watermarks[n]))
  {
    hide Normalize, DescriptorOf, LoadOne, WatermarkOf;
    if pending != [] {
      var e, rest := pending[0], pending[1..];
      DescriptorDecides(env, e, l);
      var next := LoadOne(env, e, l).value;
      LoadedWatermarks(env, rest, next, n);
      assert e in pending;
      assert forall x | x in rest ::
               x in pending && (IsNew(x, next) <==> IsNew(x, l)) && Normalize(x.name) != Normalize(e.name);
      assert forall x | x in pending :: x == e || x in rest;
    }
  }

  /** The watermark the entry's own table gives. */
  function WatermarkOf(env: Env, e: Entry): i64
    requires DescriptorOf(env, e).Ok?
  {
    var s := DescriptorOf(env, e).value;
    FirstUnsafe(s, WatermarkRows(TableOf(env, e), s.inc)[0])
  }

  /** The watermark of an ascending sequence that does not cycle is the id it hands out next, as long as it
      hands one out, and above every id in its table but those at the end of the range; of any other
      sequence it is the id at the end of its table. */
  lemma WatermarkIsNext(env: Env, e: Entry)
    requires DescriptorOf(env, e).Ok?
    ensures var s, t := DescriptorOf(env, e).value, TableOf(env, e);
      var next := NextId(s, WatermarkRows(t, s.inc));
      && t.Readable? && t.rows != []
      && (s.inc > 0 && !s.cycle && next.Some? ==> WatermarkOf(env, e) == next.value)
      && (s.inc > 0 && !s.cycle ==>
            forall r | r in t.rows ::
              || r.value < WatermarkOf(env, e)
              || (r.value == WatermarkOf(env, e) && (!r.isCalled || r.value + s.inc > I64_MAX)))
      && (s.inc > 0 && s.cycle ==> WatermarkOf(env, e) == t.rows[|t.rows| - 1].value)
      && (s.inc < 0 ==> WatermarkOf(env, e) == t.rows[0].value)
  {
    var t := TableOf(env, e);
    forall r | r in t.rows
      ensures r == t.rows[|t.rows| - 1] || r.value < t.rows[|t.rows| - 1].value
    {
      var i :| 0 <= i < |t.rows| && t.rows[i] == r;
    }
  }
}
