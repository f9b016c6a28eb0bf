/** The bytecode behind an incremental-blob handle: the instructions it uses, a small-step
    interpreter for them, and the paused loop program that services the handle. */
module BlobVm {
  import opened Outcome
  import opened Bytes

  const I64_MAX: nat := 0x7FFF_FFFF_FFFF_FFFF

  datatype Value = Null | Integer(i: int) | Blob(bytes: seq<byte>)

  /** A branch target: a label until the program is built, an instruction index after. */
  datatype Target = ToLabel(name: Label) | Offset(pc: nat)

  datatype Label = LInit | LNotFound | LLoop | LWrite | LDone | LEnd

  datatype Insn =
    | Init(target: Target)
    | Transaction(write: bool)
    | OpenRead
    | OpenWrite
    | SetInteger(value: int, dest: nat)
    | SeekRowid(src: nat, target: Target)
    | BlobLen(dest: nat)
    | ResultRow(reg: nat)
    | Variable(index: nat, dest: nat)
    | Eq(lhs: nat, rhs: nat, target: Target)
    | BlobRead(offset: nat, amount: nat, dest: nat)
    | BlobWrite(offset: nat, src: nat, dest: nat)
    | Goto(target: Target)
    | Halt(errCode: nat)

  type Program = seq<Insn>

  /** The row the handle points to, as its cursor finds it: gone, holding a value without bytes, or
      holding a TEXT or BLOB. The cursor is expired once a peer has written the row. */
  datatype RowState =
    | Missing
    | NotAddressable
    | Addressable(bytes: seq<byte>, expired: bool)

  datatype Machine = Machine(pc: nat, regs: map<nat, Value>, params: map<nat, Value>, row: RowState)

  datatype Signal = Continue | Suspended | Row(value: Value) | Done | Failed

  function Reg(m: Machine, r: nat): Value {
    if r in m.regs then m.regs[r] else Null
  }

  /** An unbound parameter reads as NULL. */
  function Param(m: Machine, index: nat): Value {
    if index in m.params then m.params[index] else Null
  }

  function Bind(m: Machine, index: nat, v: Value): Machine {
    m.(params := m.params[index := v])
  }

  /** Sets a register and moves on. */
  function SetReg(m: Machine, r: nat, v: Value): Machine {
    m.(regs := m.regs[r := v], pc := m.pc + 1)
  }

  function JumpTo(m: Machine, t: Target): (Machine, Signal) {
    match t
    case ToLabel(_) => (m, Failed)
    case Offset(pc) => (m.(pc := pc), Continue)
  }

  /** In-place overwrite; the length cannot change. */
  function Overwrite(bytes: seq<byte>, offset: nat, data: seq<byte>): (r: seq<byte>)
    requires offset + |data| <= |bytes|
    ensures |r| == |bytes|
  {
    bytes[..offset] + data + bytes[offset + |data|..]
  }

  predicate IsIndex(v: Value) {
    v.Integer? && v.i >= 0
  }

  /** The range an access names lies within the value. */
  predicate InRange(row: RowState, offset: Value, amount: nat)
    requires row.Addressable? && IsIndex(offset)
  {
    offset.i + amount <= |row.bytes|
  }

  /** Instructions that may wait for I/O. */
  predicate MayWait(insn: Insn) {
    insn.Transaction? || insn.SeekRowid? || insn.BlobLen? || insn.BlobRead? || insn.BlobWrite? || insn.Halt?
  }

  /** The effect of an instruction that runs to completion. */
  function Execute(m: Machine, insn: Insn): (Machine, Signal) {
    match insn
    case Init(t) => JumpTo(m, t)
    case Transaction(_) => (m.(pc := m.pc + 1), Continue)
    case OpenRead => (m.(pc := m.pc + 1), Continue)
    case OpenWrite => (m.(pc := m.pc + 1), Continue)
    case SetInteger(v, dest) => (SetReg(m, dest, Integer(v)), Continue)
    case SeekRowid(_, t) => if m.row.Missing? then JumpTo(m, t) else (m.(pc := m.pc + 1), Continue)
    case BlobLen(dest) =>
      if m.row.Addressable? && !m.row.expired && |m.row.bytes| <= I64_MAX
      then (SetReg(m, dest, Integer(|m.row.bytes|)), Continue)
      else (m, Failed)
    case ResultRow(r) => (m.(pc := m.pc + 1), Row(Reg(m, r)))
    case Variable(index, dest) => (SetReg(m, dest, Param(m, index)), Continue)
    case Eq(l, r, t) =>
      if Reg(m, l) == Reg(m, r) && Reg(m, l) != Null then JumpTo(m, t) else (m.(pc := m.pc + 1), Continue)
    case BlobRead(off, amount, dest) =>
      var o, a := Reg(m, off), Reg(m, amount);
      if !m.row.Addressable? || !IsIndex(o) || !IsIndex(a) then (m, Failed)
      else if m.row.expired then (SetReg(m, dest, Null), Continue)
      else if !InRange(m.row, o, a.i) then (m, Failed)
      else (SetReg(m, dest, Blob(m.row.bytes[o.i..o.i + a.i])), Continue)
    case BlobWrite(off, src, dest) =>
      var o, d := Reg(m, off), Reg(m, src);
      if !m.row.Addressable? || !IsIndex(o) || !d.Blob? then (m, Failed)
      else if m.row.expired then (SetReg(m, dest, Null), Continue)
      else if !InRange(m.row, o, |d.bytes|) then (m, Failed)
      else (SetReg(m, dest, Integer(1)).(row := m.row.(bytes := Overwrite(m.row.bytes, o.i, d.bytes))), Continue)
    case Goto(t) => JumpTo(m, t)
    case Halt(code) => (m, if code == 0 then Done else Failed)
  }

  /** The effect of an instruction that waits for I/O and will run again from its start. A write may
      have stored the first `done` bytes already. */
  function Wait(m: Machine, insn: Insn, done: nat): Machine {
    match insn
    case BlobWrite(off, src, _) =>
      var o, d := Reg(m, off), Reg(m, src);
      if m.row.Addressable? && !m.row.expired && IsIndex(o) && d.Blob?
         && InRange(m.row, o, |d.bytes|) && done <= |d.bytes|
      then m.(row := m.row.(bytes := Overwrite(m.row.bytes, o.i, d.bytes[..done])))
      else m
    case _ => m
  }

  /** One entry for each attempt at an instruction that may wait: `Some(done)` to wait, `None` to run
      through. Once it is used up, nothing waits any more. */
  type Schedule = seq<Option<nat>>

  datatype Stepped = Stepped(m: Machine, signal: Signal, rest: Schedule)

  function Step(p: Program, m: Machine, io: Schedule): Stepped {
    if m.pc >= |p| then Stepped(m, Failed, io)
    else
      var insn := p[m.pc];
      if MayWait(insn) && io != [] && io[0].Some? then Stepped(Wait(m, insn, io[0].value), Suspended, io[1..])
      else
        var (next, signal) := Execute(m, insn);
        Stepped(next, signal, if MayWait(insn) && io != [] then io[1..] else io)
  }

  // ----- the program -----

  datatype Config = Config(rowid: int, readWrite: bool)

  const R_ROWID := 1
  const R_READY := 2
  const R_OP := 3
  const R_ZERO := 4
  const R_OFF := 5
  const R_TWO := 6
  const R_AMT := 7
  const R_DATA := 8
  const R_SRC := 9
  const R_ACK := 10

  const LOOP := 6
  const AFTER_READ := 15
  const WRITE := 16
  const AFTER_WRITE := 19
  const DONE := 20
  const NOT_FOUND := 21
  const END := 22
  const INIT := 23
  const LENGTH := 25

  /** Where each label was assigned. */
  datatype Labels = Labels(init: nat, notFound: nat, loop: nat, write: nat, done: nat, end: nat)

  function ResolveTarget(t: Target, at: Labels): Target {
    match t
    case ToLabel(LInit) => Offset(at.init)
    case ToLabel(LNotFound) => Offset(at.notFound)
    case ToLabel(LLoop) => Offset(at.loop)
    case ToLabel(LWrite) => Offset(at.write)
    case ToLabel(LDone) => Offset(at.done)
    case ToLabel(LEnd) => Offset(at.end)
    case Offset(_) => t
  }

  function Resolve(insn: Insn, at: Labels): Insn {
    match insn
    case Init(t) => Init(ResolveTarget(t, at))
    case SeekRowid(r, t) => SeekRowid(r, ResolveTarget(t, at))
    case Eq(l, r, t) => Eq(l, r, ResolveTarget(t, at))
    case Goto(t) => Goto(ResolveTarget(t, at))
    case _ => insn
  }

  function ResolveAll(insns: Program, at: Labels): (p: Program)
    ensures |p| == |insns|
    ensures forall i | 0 <= i < |p| :: p[i] == Resolve(insns[i], at)
  {
    seq(|insns|, i requires 0 <= i < |insns| => Resolve(insns[i], at))
  }

  /** The built program: it opens the row and pauses, serves reads and writes, and ends. */
  function BlobProgram(c: Config): (p: Program)
    ensures |p| == LENGTH
  {
    Opening(c) + (Serving() + Ending(c))
  }

  function Opening(c: Config): (p: Program)
    ensures |p| == LOOP
  {
    [ Init(Offset(INIT)),
      if c.readWrite then OpenWrite else OpenRead,
      SetInteger(c.rowid, R_ROWID),
      SeekRowid(R_ROWID, Offset(NOT_FOUND)),
      BlobLen(R_READY),
      ResultRow(R_READY) ]
  }

  function Serving(): (p: Program)
    ensures |p| == DONE - LOOP
  {
    [ Variable(1, R_OP),
      SetInteger(0, R_ZERO),
      Eq(R_OP, R_ZERO, Offset(DONE)),
      Variable(2, R_OFF),
      SetInteger(2, R_TWO),
      Eq(R_OP, R_TWO, Offset(WRITE)),
      Variable(3, R_AMT),
      BlobRead(R_OFF, R_AMT, R_DATA),
      ResultRow(R_DATA),
      Goto(Offset(LOOP)),
      // WRITE
      Variable(4, R_SRC),
      BlobWrite(R_OFF, R_SRC, R_ACK),
      ResultRow(R_ACK),
      Goto(Offset(LOOP)) ]
  }

  function Ending(c: Config): (p: Program)
    ensures |p| == LENGTH - DONE
  {
    [ Goto(Offset(END)),
      // NOT_FOUND
      Halt(1),
      // END
      Halt(0),
      // INIT
      Transaction(c.readWrite),
      Goto(Offset(1)) ]
  }

  /** Where the labels end up. */
  const PLACES := Labels(INIT, NOT_FOUND, LOOP, WRITE, DONE, END)

  /** `build_blob_program`: instructions are appended with labels for targets, labels are assigned to the
      instruction that comes next, and the labels are resolved at the end. Every branch ends up at the
      position that the program names. */
  method BuildBlobProgram(c: Config) returns (p: Program)
    ensures p == BlobProgram(c)
  {
    hide ResolveAll, Opening, Serving, Ending;
    var at := Labels(0, 0, 0, 0, 0, 0);
    var opening, start := EmitOpening(c);
    var insns := opening;
    at := at.(loop := |insns|);
    var serving, write := EmitServing(|insns|);
    at := at.(write := write);
    insns := insns + serving;
    var ending;
    ending, at := EmitEnding(c, |insns|, start, at);
    insns := insns + ending;
    p := ResolveAll(insns, at);
    ResolveAppend(opening + serving, ending, at);
    ResolveAppend(opening, serving, at);
    assert p == Opening(c) + Serving() + Ending(c);
  }

  method EmitOpening(c: Config) returns (insns: Program, start: nat)
    ensures start == 1 && |insns| == LOOP && ResolveAll(insns, PLACES) == Opening(c)
  {
    insns := [Init(ToLabel(LInit))];
    start := |insns|;
    insns := insns + [
      if c.readWrite then OpenWrite else OpenRead,
      SetInteger(c.rowid, R_ROWID),
      SeekRowid(R_ROWID, ToLabel(LNotFound)),
      BlobLen(R_READY),
      ResultRow(R_READY)
    ];
  }

  /** The two branches of the loop, after `before` instructions, and where the write begins. */
  method EmitServing(before: nat) returns (insns: Program, write: nat)
    requires before == LOOP
    ensures write == WRITE && |insns| == DONE - LOOP && ResolveAll(insns, PLACES) == Serving()
  {
    insns := [
      Variable(1, R_OP),
      SetInteger(0, R_ZERO),
      Eq(R_OP, R_ZERO, ToLabel(LDone)),
      Variable(2, R_OFF),
      SetInteger(2, R_TWO),
      Eq(R_OP, R_TWO, ToLabel(LWrite)),
      Variable(3, R_AMT),
      BlobRead(R_OFF, R_AMT, R_DATA),
      ResultRow(R_DATA),
      Goto(ToLabel(LLoop))
    ];
    write := before + |insns|;
    insns := insns + [
      Variable(4, R_SRC),
      BlobWrite(R_OFF, R_SRC, R_ACK),
      ResultRow(R_ACK),
      Goto(ToLabel(LLoop))
    ];
  }

  method EmitEnding(c: Config, before: nat, start: nat, labels: Labels) returns (insns: Program, at: Labels)
    requires before == DONE && start == 1 && labels.loop == LOOP && labels.write == WRITE
    ensures at == PLACES && |insns| == LENGTH - DONE && ResolveAll(insns, PLACES) == Ending(c)
  {
    at := labels.(done := before);
    insns := [Goto(ToLabel(LEnd))];
    at := at.(notFound := before + |insns|);
    insns := insns + [Halt(1)];
    at := at.(end := before + |insns|);
    insns := insns + [Halt(0)];
    at := at.(init := before + |insns|);
    insns := insns + [Transaction(c.readWrite), Goto(Offset(start))];
  }

  lemma ResolveAppend(a: Program, b: Program, at: Labels)
    ensures ResolveAll(a + b, at) == ResolveAll(a, at) + ResolveAll(b, at)
  {
    hide Resolve;
  }
}
