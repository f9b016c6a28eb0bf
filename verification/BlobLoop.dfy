/** What one stop-to-stop run of the blob program does, for every placement of I/O waits. */
module BlobLoop {
  import opened Outcome
  import opened Bytes
  import opened BlobVm

  /** The instructions that read the bound op and branch on it, after label resolution. */
  lemma DispatchInsns(c: Config)
    ensures var p := BlobProgram(c);
      && |p| == LENGTH
      && p[6] == Variable(1, R_OP) && p[7] == SetInteger(0, R_ZERO) && p[8] == Eq(R_OP, R_ZERO, Offset(DONE))
      && p[9] == Variable(2, R_OFF) && p[10] == SetInteger(2, R_TWO) && p[11] == Eq(R_OP, R_TWO, Offset(WRITE))
  {
  }

  /** The instructions that serve a read and a write. */
  lemma ServeInsns(c: Config)
    ensures var p := BlobProgram(c);
      && |p| == LENGTH
      && p[12] == Variable(3, R_AMT) && p[13] == BlobRead(R_OFF, R_AMT, R_DATA) && p[14] == ResultRow(R_DATA)
      && p[15] == Goto(Offset(LOOP))
      && p[16] == Variable(4, R_SRC) && p[17] == BlobWrite(R_OFF, R_SRC, R_ACK) && p[18] == ResultRow(R_ACK)
      && p[19] == Goto(Offset(LOOP))
  {
  }

  /** The instructions that open the row. */
  lemma OpenInsns(c: Config)
    ensures var p := BlobProgram(c);
      && |p| == LENGTH
      && p[0] == Init(Offset(INIT)) && p[1] == (if c.readWrite then OpenWrite else OpenRead)
      && p[2] == SetInteger(c.rowid, R_ROWID) && p[3] == SeekRowid(R_ROWID, Offset(NOT_FOUND))
      && p[4] == BlobLen(R_READY) && p[5] == ResultRow(R_READY)
  {
  }

  /** The instructions that end the program and those it begins with. */
  lemma EndInsns(c: Config)
    ensures var p := BlobProgram(c);
      && |p| == LENGTH
      && p[20] == Goto(Offset(END)) && p[21] == Halt(1) && p[22] == Halt(0)
      && p[23] == Transaction(c.readWrite) && p[24] == Goto(Offset(1))
  {
  }

  /** Instructions still to run before the program must stop. */
  function Rank(pc: nat): nat {
    if pc == 0 then 30 else if pc == INIT then 29 else if pc == 24 then 28
    else if pc < LOOP then 28 - pc
    else if pc < AFTER_READ then 25 - pc
    else if pc == AFTER_READ || pc == AFTER_WRITE then 20
    else if pc < AFTER_WRITE then 29 - pc
    else if pc == DONE then 5
    else 1
  }

  /** A step that does not stop moves on, or uses up a scheduled wait. */
  predicate MovesOn(m: Machine, io: Schedule, s: Stepped) {
    && (s.signal.Continue? ==> s.m.pc < LENGTH && Rank(s.m.pc) < Rank(m.pc) && |s.rest| <= |io|)
    && (s.signal.Suspended? ==> s.m.pc == m.pc && |s.rest| < |io|)
  }

  lemma ProgressEarly(c: Config, m: Machine, io: Schedule)
    requires m.pc < AFTER_READ - 3 && |BlobProgram(c)| == LENGTH
    ensures MovesOn(m, io, Step(BlobProgram(c), m, io))
  {
    hide BlobProgram, Overwrite, InRange, IsIndex, Reg, Param;
    OpenInsns(c);
    DispatchInsns(c);
  }

  lemma ProgressLate(c: Config, m: Machine, io: Schedule)
    requires AFTER_READ - 3 <= m.pc < LENGTH && |BlobProgram(c)| == LENGTH
    ensures MovesOn(m, io, Step(BlobProgram(c), m, io))
  {
    hide BlobProgram, Overwrite, InRange, IsIndex, Reg, Param;
    ServeInsns(c);
    EndInsns(c);
  }

  /** Every step does. */
  lemma Progress(c: Config, m: Machine, io: Schedule)
    requires m.pc < LENGTH
    ensures |BlobProgram(c)| == LENGTH && MovesOn(m, io, Step(BlobProgram(c), m, io))
  {
    hide BlobProgram, Step, MovesOn;
    EndInsns(c);
    if m.pc < AFTER_READ - 3 {
      ProgressEarly(c, m, io);
    } else {
      ProgressLate(c, m, io);
    }
  }

  /** `pump_step`'s loop: step until a row, the end or an error. */
  function Pump(c: Config, m: Machine, io: Schedule): (r: Stepped)
    requires m.pc < LENGTH
    ensures !r.signal.Continue? && !r.signal.Suspended?
    decreases |io|, Rank(m.pc)
  {
    Progress(c, m, io);
    var s := Step(BlobProgram(c), m, io);
    if s.signal.Continue? || s.signal.Suspended? then Pump(c, s.m, s.rest) else s
  }

  lemma PumpUnfolds(c: Config, m: Machine, io: Schedule)
    requires m.pc < LENGTH && |BlobProgram(c)| == LENGTH
    ensures var s := Step(BlobProgram(c), m, io);
            if s.signal.Continue? || s.signal.Suspended?
            then s.m.pc < LENGTH && Pump(c, m, io) == Pump(c, s.m, s.rest)
            else Pump(c, m, io) == s
  {
    hide BlobProgram, Step;
    Progress(c, m, io);
  }

  /** An instruction that never waits just happens. */
  lemma Runs(c: Config, m: Machine, io: Schedule, insn: Insn)
    requires m.pc < |BlobProgram(c)| == LENGTH && BlobProgram(c)[m.pc] == insn && !MayWait(insn)
    requires Execute(m, insn).1.Continue?
    ensures Execute(m, insn).0.pc < LENGTH
    ensures Pump(c, m, io) == Pump(c, Execute(m, insn).0, io)
  {
    hide BlobProgram, Execute;
    Progress(c, m, io);
  }

  /** Neither do the waits of an instruction that starts over from an unchanged state. */
  lemma {:induction false} Completes(c: Config, m: Machine, io: Schedule, insn: Insn) returns (rest: Schedule)
    requires m.pc < |BlobProgram(c)| == LENGTH && BlobProgram(c)[m.pc] == insn && MayWait(insn) && !insn.BlobWrite?
    requires Execute(m, insn).1.Continue?
    ensures Execute(m, insn).0.pc < LENGTH
    ensures Pump(c, m, io) == Pump(c, Execute(m, insn).0, rest)
    decreases |io|
  {
    hide BlobProgram, Execute;
    Progress(c, m, io);
    if io != [] && io[0].Some? {
      rest := Completes(c, m, io[1..], insn);
    } else {
      rest := if io != [] then io[1..] else io;
    }
  }

  predicate Paused(pc: nat) {
    pc == LOOP || pc == AFTER_READ || pc == AFTER_WRITE
  }

  /** From any pause, the op is read and 0 branches out. Registers hold whatever they held. */
  lemma ReadsOp(c: Config, m: Machine, io: Schedule) returns (m': Machine)
    requires Paused(m.pc) && Param(m, 1).Integer?
    ensures m'.params == m.params && m'.row == m.row && Reg(m', R_OP) == Param(m, 1)
    ensures m'.pc == if Param(m, 1).i == 0 then DONE else 9
    ensures Pump(c, m, io) == Pump(c, m', io)
  {
    hide BlobProgram, Pump;
    DispatchInsns(c);
    ServeInsns(c);
    m' := m;
    if m.pc != LOOP {
      Runs(c, m', io, Goto(Offset(LOOP)));
      m' := m'.(pc := LOOP);
    }
    Runs(c, m', io, Variable(1, R_OP));
    m' := SetReg(m', R_OP, Param(m, 1));
    Runs(c, m', io, SetInteger(0, R_ZERO));
    m' := SetReg(m', R_ZERO, Integer(0));
    Runs(c, m', io, Eq(R_OP, R_ZERO, Offset(DONE)));
    m' := m'.(pc := if Param(m, 1).i == 0 then DONE else 9);
  }

  /** Then the offset is read and 2 branches to the write. */
  lemma Dispatches(c: Config, m: Machine, io: Schedule) returns (m': Machine)
    requires Paused(m.pc) && Param(m, 1).Integer? && Param(m, 1).i != 0
    ensures m'.params == m.params && m'.row == m.row && Reg(m', R_OFF) == Param(m, 2)
    ensures m'.pc == if Param(m, 1).i == 2 then WRITE else 12
    ensures Pump(c, m, io) == Pump(c, m', io)
  {
    hide BlobProgram, Pump;
    DispatchInsns(c);
    m' := ReadsOp(c, m, io);
    Runs(c, m', io, Variable(2, R_OFF));
    m' := SetReg(m', R_OFF, Param(m, 2));
    Runs(c, m', io, SetInteger(2, R_TWO));
    m' := SetReg(m', R_TWO, Integer(2));
    Runs(c, m', io, Eq(R_OP, R_TWO, Offset(WRITE)));
    m' := m'.(pc := if Param(m, 1).i == 2 then WRITE else 12);
  }

  /** A run that stops with a row. */
  predicate YieldsRow(s: Stepped, v: Value, pc: nat, params: map<nat, Value>, row: RowState) {
    s.signal == Row(v) && s.m.pc == pc && s.m.params == params && s.m.row == row
  }

  /** At the read instruction: whatever waits are scheduled, the row is the range asked for. */
  lemma ReadCompletes(c: Config, m: Machine, io: Schedule, offset: nat, amount: nat)
    requires m.pc == 13 && Reg(m, R_OFF) == Integer(offset) && Reg(m, R_AMT) == Integer(amount)
    requires m.row.Addressable? && (!m.row.expired ==> offset + amount <= |m.row.bytes|)
    ensures YieldsRow(Pump(c, m, io), if m.row.expired then Null else Blob(m.row.bytes[offset..offset + amount]),
                      AFTER_READ, m.params, m.row)
  {
    hide BlobProgram;
    ServeInsns(c);
    var rest := Completes(c, m, io, BlobRead(R_OFF, R_AMT, R_DATA));
  }

  /** At the write instruction: a write that waits partway and starts over stores exactly its data. */
  lemma {:induction false} WriteCompletes(c: Config, m: Machine, io: Schedule, offset: nat, data: seq<byte>)
    requires m.pc == 17 && Reg(m, R_OFF) == Integer(offset) && Reg(m, R_SRC) == Blob(data)
    requires m.row.Addressable? && (!m.row.expired ==> offset + |data| <= |m.row.bytes|)
    ensures YieldsRow(Pump(c, m, io), if m.row.expired then Null else Integer(1), AFTER_WRITE, m.params,
                      if m.row.expired then m.row else m.row.(bytes := Overwrite(m.row.bytes, offset, data)))
    decreases |io|
  {
    hide BlobProgram;
    ServeInsns(c);
    var s := Step(BlobProgram(c), m, io);
    assert Pump(c, m, io) == Pump(c, s.m, s.rest);
    if io != [] && io[0].Some? {
      if !m.row.expired && io[0].value <= |data| {
        OverwriteAgain(m.row.bytes, offset, data, io[0].value);
      }
      WriteCompletes(c, s.m, io[1..], offset, data);
    } else {
      assert s.m.pc == 18;
    }
  }

  /** Overwriting after a partial overwrite of the same range leaves no trace of the partial one. */
  lemma OverwriteAgain(bytes: seq<byte>, offset: nat, data: seq<byte>, done: nat)
    requires offset + |data| <= |bytes| && done <= |data|
    ensures Overwrite(Overwrite(bytes, offset, data[..done]), offset, data) == Overwrite(bytes, offset, data)
  {
    var partial := Overwrite(bytes, offset, data[..done]);
    assert partial[..offset] == bytes[..offset];
    assert partial[offset + |data|..] == bytes[offset + |data|..];
  }

  // ----- one operation, from pause to pause -----

  /** op 1: one row, the bytes asked for, or NULL from an expired cursor. Nothing else changes, and
      neither stale parameters nor old registers matter. */
  lemma ReadOp(c: Config, m: Machine, io: Schedule, offset: nat, amount: nat)
    requires Paused(m.pc) && m.row.Addressable?
    requires Param(m, 1) == Integer(1) && Param(m, 2) == Integer(offset) && Param(m, 3) == Integer(amount)
    requires !m.row.expired ==> offset + amount <= |m.row.bytes|
    ensures YieldsRow(Pump(c, m, io), if m.row.expired then Null else Blob(m.row.bytes[offset..offset + amount]),
                      AFTER_READ, m.params, m.row)
  {
    hide BlobProgram, Pump;
    ServeInsns(c);
    var m' := Dispatches(c, m, io);
    Runs(c, m', io, Variable(3, R_AMT));
    ReadCompletes(c, SetReg(m', R_AMT, Param(m, 3)), io, offset, amount);
  }

  /** op 2: one row, 1 with the data stored or NULL with nothing stored. */
  lemma WriteOp(c: Config, m: Machine, io: Schedule, offset: nat, data: seq<byte>)
    requires Paused(m.pc) && m.row.Addressable?
    requires Param(m, 1) == Integer(2) && Param(m, 2) == Integer(offset) && Param(m, 4) == Blob(data)
    requires !m.row.expired ==> offset + |data| <= |m.row.bytes|
    ensures YieldsRow(Pump(c, m, io), if m.row.expired then Null else Integer(1), AFTER_WRITE, m.params,
                      if m.row.expired then m.row else m.row.(bytes := Overwrite(m.row.bytes, offset, data)))
  {
    hide BlobProgram, Pump;
    ServeInsns(c);
    var m' := Dispatches(c, m, io);
    Runs(c, m', io, Variable(4, R_SRC));
    WriteCompletes(c, SetReg(m', R_SRC, Param(m, 4)), io, offset, data);
  }

  /** op 0: the program ends without another row and leaves the value alone. */
  lemma CloseOp(c: Config, m: Machine, io: Schedule)
    requires Paused(m.pc) && Param(m, 1) == Integer(0)
    ensures Pump(c, m, io).signal == Done && Pump(c, m, io).m.row == m.row
  {
    hide BlobProgram, Pump;
    EndInsns(c);
    var m' := ReadsOp(c, m, io);
    Runs(c, m', io, Goto(Offset(END)));
    Halts(c, m'.(pc := END), io);
  }

  lemma {:induction false} Halts(c: Config, m: Machine, io: Schedule)
    requires m.pc == END
    ensures Pump(c, m, io).signal == Done && Pump(c, m, io).m.row == m.row
    decreases |io|
  {
    hide BlobProgram;
    EndInsns(c);
    if io != [] && io[0].Some? {
      Halts(c, m, io[1..]);
    }
  }

  /** From the start: one row with the value's length if the row holds addressable bytes, and an
      error, never a row, if it does not. */
  lemma OpenOp(c: Config, m: Machine, io: Schedule)
    requires m.pc == 0 && (m.row.Addressable? ==> !m.row.expired && |m.row.bytes| <= I64_MAX)
    ensures var s := Pump(c, m, io);
      if m.row.Addressable? then YieldsRow(s, Integer(|m.row.bytes|), LOOP, m.params, m.row)
      else s.signal == Failed
  {
    hide BlobProgram, Pump;
    OpenInsns(c);
    var io1 := ToSeek(c, m, io);
    var m2 := SetReg(m.(pc := 2), R_ROWID, Integer(c.rowid));
    var io2 := Completes(c, m2, io1, SeekRowid(R_ROWID, Offset(NOT_FOUND)));
    if m.row.Missing? {
      Fails(c, m2.(pc := NOT_FOUND), io2);
    } else if m.row.NotAddressable? {
      Fails(c, m2.(pc := 4), io2);
    } else {
      var io3 := Completes(c, m2.(pc := 4), io2, BlobLen(R_READY));
      ReadyRow(c, SetReg(m2.(pc := 4), R_READY, Integer(|m.row.bytes|)), io3);
    }
  }

  /** The transaction is begun and the cursor opened before the row is looked for. */
  lemma ToSeek(c: Config, m: Machine, io: Schedule) returns (rest: Schedule)
    requires m.pc == 0
    ensures Pump(c, m, io) == Pump(c, SetReg(m.(pc := 2), R_ROWID, Integer(c.rowid)), rest)
  {
    hide BlobProgram, Pump;
    OpenInsns(c);
    EndInsns(c);
    Runs(c, m, io, Init(Offset(INIT)));
    rest := Completes(c, m.(pc := INIT), io, Transaction(c.readWrite));
    Runs(c, m.(pc := 24), rest, Goto(Offset(1)));
    Runs(c, m.(pc := 1), rest, if c.readWrite then OpenWrite else OpenRead);
    Runs(c, m.(pc := 2), rest, SetInteger(c.rowid, R_ROWID));
  }

  lemma ReadyRow(c: Config, m: Machine, io: Schedule)
    requires m.pc == 5
    ensures YieldsRow(Pump(c, m, io), Reg(m, R_READY), LOOP, m.params, m.row)
  {
    hide BlobProgram;
    OpenInsns(c);
  }

  lemma {:induction false} Fails(c: Config, m: Machine, io: Schedule)
    requires m.pc == NOT_FOUND || (m.pc == 4 && m.row.NotAddressable?)
    ensures Pump(c, m, io).signal == Failed
    decreases |io|
  {
    hide BlobProgram;
    OpenInsns(c);
    EndInsns(c);
    if io != [] && io[0].Some? {
      Fails(c, m, io[1..]);
    }
  }
}
