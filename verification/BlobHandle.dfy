/** The `Blob` handle: it drives the paused program through bound parameters and behaves like a plain
    fixed-length byte array with an expiry latch. */
module BlobHandle {
  import opened Outcome
  import opened Bytes
  import opened BlobVm
  import opened BlobLoop

  // ----- what a handle is -----

  /** The abstract handle: the row's bytes, whether a peer has written the row since the handle was
      opened, and whether the handle has noticed. */
  datatype Handle = Handle(bytes: seq<byte>, len: nat, rowWritten: bool, expired: bool, readOnly: bool)

  datatype Call = Read(offset: nat, amount: nat) | Write(offset: nat, data: seq<byte>)

  datatype Reply = Data(bytes: seq<byte>) | Written | Expired | ReadOnly | OutOfRange | InternalError

  ghost predicate WellFormed(h: Handle) {
    h.len <= I64_MAX && (!h.rowWritten ==> |h.bytes| == h.len && !h.expired)
  }

  /** `check_in_bounds`: the end is computed without wrapping around. */
  predicate InBounds(len: nat, offset: nat, amount: nat) {
    offset + amount <= USIZE_MAX && offset + amount <= len
  }

  function Serve(h: Handle, call: Call): (Handle, Reply)
    requires WellFormed(h)
  {
    if h.expired then (h, Expired)
    else
      match call
      case Read(offset, amount) =>
        if !InBounds(h.len, offset, amount) then (h, OutOfRange)
        else if amount == 0 then (h, Data([]))
        else if h.rowWritten then (h.(expired := true), Expired)
        else (h, Data(h.bytes[offset..offset + amount]))
      case Write(offset, data) =>
        if h.readOnly then (h, ReadOnly)
        else if !InBounds(h.len, offset, |data|) then (h, OutOfRange)
        else if data == [] then (h, Written)
        else if h.rowWritten then (h.(expired := true), Expired)
        else (h.(bytes := Overwrite(h.bytes, offset, data)), Written)
  }

  /** How many bytes a call is about. */
  function Amount(call: Call): nat {
    match call
    case Read(_, amount) => amount
    case Write(_, data) => |data|
  }

  /** The reply to a call, by its kind: expiry comes first, then the refusal to write, then the range, and
      only a call for some bytes finds out that the row was written. */
  lemma Replies(h: Handle, call: Call)
    requires WellFormed(h)
    ensures var reply := Serve(h, call).1;
      var refused := call.Write? && h.readOnly;
      var past := call.offset + Amount(call) > h.len;
      && (reply == ReadOnly <==> !h.expired && refused)
      && (reply == OutOfRange <==> !h.expired && !refused && past)
      && (reply == Expired <==> h.expired || (!refused && !past && h.rowWritten && Amount(call) > 0))
      && (reply.Data? || reply == Written <==> !h.expired && !refused && !past && (h.rowWritten ==> Amount(call) == 0))
      && (reply.Data? ==> call.Read?) && (reply == Written ==> call.Write?)
  {
  }

  /** Nothing but a reply of its kind changes the handle: a write done its bytes, an expiry its latch. */
  lemma Effects(h: Handle, call: Call)
    requires WellFormed(h)
    ensures var (next, reply) := Serve(h, call);
      && next.len == h.len && next.rowWritten == h.rowWritten && next.readOnly == h.readOnly
      && next.expired == (reply == Expired)
      && |next.bytes| == |h.bytes|
      && (reply != Written ==> next.bytes == h.bytes)
  {
  }

  // ----- the implementation -----

  class Blob {
    const config: Config
    const program: Program
    const len: nat
    const readOnly: bool
    /** The paused statement: registers, bound parameters, and the row its cursor is on. */
    var machine: Machine
    var expired: bool

    constructor (config: Config, program: Program, machine: Machine, len: nat, readOnly: bool)
      ensures this.config == config && this.program == program && this.len == len && this.readOnly == readOnly
      ensures this.machine == machine && !expired
    {
      this.config, this.program, this.len, this.readOnly := config, program, len, readOnly;
      this.machine, this.expired := machine, false;
    }

    ghost predicate Valid()
      reads this
    {
      && program == BlobProgram(config)
      && Paused(machine.pc)
      && machine.row.Addressable?
      && WellFormed(Abs())
    }

    ghost function Abs(): Handle
      reads this
      requires machine.row.Addressable?
    {
      Handle(machine.row.bytes, len, machine.row.expired, expired, readOnly)
    }

    /** `pump_step`: waits are waited out; the first row, end or error is returned. */
    method PumpStep(io: Schedule) returns (signal: Signal)
      requires program == BlobProgram(config) && machine.pc < LENGTH
      modifies this`machine
      ensures machine == Pump(config, old(machine), io).m && signal == Pump(config, old(machine), io).signal
    {
      hide Pump, BlobProgram, Execute, Step;
      var rest := io;
      signal := Continue;
      while signal.Continue? || signal.Suspended?
        invariant signal.Continue? || signal.Suspended? ==>
                    machine.pc < LENGTH && Pump(config, machine, rest) == Pump(config, old(machine), io)
        invariant !(signal.Continue? || signal.Suspended?) ==>
                    Stepped(machine, signal, rest) == Pump(config, old(machine), io)
        decreases signal.Continue? || signal.Suspended?, |rest|, Rank(machine.pc)
      {
        Progress(config, machine, rest);
        PumpUnfolds(config, machine, rest);
        var s := Step(program, machine, rest);
        machine, signal, rest := s.m, s.signal, s.rest;
      }
    }

    /** `step_op`: a NULL row is the program's expiry signal and latches. */
    method StepOp(io: Schedule) returns (r: Result<Value, Reply>)
      requires program == BlobProgram(config) && machine.pc < LENGTH
      modifies this
      ensures var s := Pump(config, old(machine), io);
        && machine == s.m
        && r == (if s.signal.Row? then (if s.signal.value == Null then Err(Expired) else Ok(s.signal.value))
                 else Err(InternalError))
        && expired == (old(expired) || s.signal == Row(Null))
    {
      var signal := PumpStep(io);
      if !signal.Row? {
        return Err(InternalError);
      }
      if signal.value == Null {
        expired := true;
        return Err(Expired);
      }
      r := Ok(signal.value);
    }

    method ReadBytes(offset: nat, amount: nat, io: Schedule) returns (r: Reply)
      requires Valid()
      modifies this
      ensures Valid()
      ensures (Abs(), r) == Serve(old(Abs()), Read(offset, amount))
      ensures offset + amount > len ==> machine == old(machine)
    {
      hide Pump, BlobProgram;
      if expired {
        return Expired;
      }
      if !InBounds(len, offset, amount) {
        return OutOfRange;
      }
      if amount == 0 {
        return Data([]);
      }
      machine := Bind(machine, 1, Integer(1));
      machine := Bind(machine, 2, Integer(offset));
      machine := Bind(machine, 3, Integer(amount));
      ReadOp(config, machine, io, offset, amount);
      var v := StepOp(io);
      match v
      case Ok(Blob(b)) => r := if |b| == amount then Data(b) else InternalError;
      case Ok(_) => r := InternalError;
      case Err(e) => r := e;
    }

    method WriteBytes(offset: nat, data: seq<byte>, io: Schedule) returns (r: Reply)
      requires Valid()
      modifies this
      ensures Valid()
      ensures (Abs(), r) == Serve(old(Abs()), Write(offset, data))
      ensures offset + |data| > len || readOnly ==> machine == old(machine)
    {
      hide Pump, BlobProgram;
      if expired {
        return Expired;
      }
      if readOnly {
        return ReadOnly;
      }
      if !InBounds(len, offset, |data|) {
        return OutOfRange;
      }
      if data == [] {
        return Written;
      }
      machine := Bind(machine, 1, Integer(2));
      machine := Bind(machine, 2, Integer(offset));
      machine := Bind(machine, 4, Blob(data));
      WriteOp(config, machine, io, offset, data);
      var v := StepOp(io);
      match v
      case Ok(Integer(i)) => r := if i == 1 then Written else InternalError;
      case Ok(_) => r := InternalError;
      case Err(e) => r := e;
    }

    /** Closing steps for as long as rows come, until the program ends, expired or not; the bytes stay as
        they are. By `CloseOp` not even one row comes. */
    method Close(io: Schedule) returns (signal: Signal)
      requires Valid()
      modifies this
      ensures signal.Done?
      ensures machine.row == old(machine.row)
    {
      hide Pump, BlobProgram;
      machine := Bind(machine, 1, Integer(0));
      CloseOp(config, machine, io);
      signal := PumpStep(io);
      ghost var left := 1;
      while signal.Row?
        invariant signal.Row? || signal.Done?
        invariant signal.Row? ==> Paused(machine.pc) && Param(machine, 1) == Integer(0) && left == 1
        invariant machine.row == old(machine.row)
        decreases left
      {
        CloseOp(config, machine, io);
        signal := PumpStep(io);
        left := 0;
      }
    }

    /** A peer writes the row: the cursor is told, and the value may be anything afterwards. */
    method PeerWritesRow(bytes: seq<byte>)
      requires Valid()
      modifies this
      ensures Valid()
      ensures Abs() == old(Abs()).(bytes := bytes, rowWritten := true)
    {
      machine := machine.(row := Addressable(bytes, true));
    }
  }

  /** The stepping part of `blob_open`. */
  method OpenBlob(config: Config, row: RowState, io: Schedule) returns (r: Result<Blob, Reply>)
    requires row.Addressable? ==> !row.expired && |row.bytes| <= I64_MAX
    ensures r.Ok? <==> row.Addressable?
    ensures r.Ok? ==> fresh(r.value) && r.value.Valid()
    ensures r.Ok? ==> r.value.Abs() == Handle(row.bytes, |row.bytes|, false, false, !config.readWrite)
  {
    hide Pump, BlobProgram;
    var program := BuildBlobProgram(config);
    var machine := Machine(0, map[], map[], row);
    OpenOp(config, machine, io);
    var probe := new Blob(config, program, machine, 0, true);
    var signal := probe.PumpStep(io);
    match signal
    case Row(Integer(n)) =>
      if n < 0 {
        return Err(InternalError);
      }
      var blob := new Blob(config, program, probe.machine, n, !config.readWrite);
      r := Ok(blob);
    case _ =>
      r := Err(InternalError);
  }

  // ----- every run -----

  datatype Event = Calls(call: Call) | PeerWrite(bytes: seq<byte>)

  function React(h: Handle, e: Event): (r: (Handle, Option<Reply>))
    requires WellFormed(h)
    ensures WellFormed(r.0) && r.0.len == h.len && r.0.readOnly == h.readOnly
  {
    match e
    case PeerWrite(bytes) => (h.(bytes := bytes, rowWritten := true), None)
    case Calls(call) =>
      var (next, reply) := Serve(h, call);
      (next, Some(reply))
  }

  /** The handle after a run. */
  function After(h: Handle, events: seq<Event>): (r: Handle)
    requires WellFormed(h)
    ensures WellFormed(r) && r.len == h.len && r.readOnly == h.readOnly
  {
    if events == [] then h else React(After(h, events[..|events| - 1]), events[|events| - 1]).0
  }

  /** The reply to the last event of a run. */
  function LastReply(h: Handle, events: seq<Event>): Option<Reply>
    requires WellFormed(h) && events != []
  {
    React(After(h, events[..|events| - 1]), events[|events| - 1]).1
  }

  /** Once one call has reported expiry, every later call does, and no call touches the bytes. */
  lemma {:induction false} ExpiryLatches(h: Handle, events: seq<Event>, k: nat)
    requires WellFormed(h) && 0 < k < |events|
    requires LastReply(h, events[..k]) == Some(Expired)
    ensures After(h, events).expired
    ensures events[|events| - 1].Calls? ==> LastReply(h, events) == Some(Expired)
    ensures (forall i | k <= i < |events| :: events[i].Calls?) ==> After(h, events).bytes == After(h, events[..k]).bytes
  {
    var n := |events| - 1;
    var front := events[..n];
    assert front[..k] == events[..k];
    if k < n {
      ExpiryLatches(h, front, k);
    } else {
      assert front == events[..k];
    }
  }

  /** The byte at `i` that a run of calls leaves: from the last write that covers it, or the original. */
  function ByteAt(bytes: seq<byte>, calls: seq<Call>, i: nat): byte
    requires i < |bytes|
    decreases calls
  {
    if calls == [] then bytes[i]
    else
      var last := calls[|calls| - 1];
      if last.Write? && last.offset + |last.data| <= |bytes| && last.offset <= i < last.offset + |last.data|
      then last.data[i - last.offset]
      else ByteAt(bytes, calls[..|calls| - 1], i)
  }

  function AsEvents(calls: seq<Call>): (r: seq<Event>)
    ensures |r| == |calls| && forall i | 0 <= i < |r| :: r[i] == Calls(calls[i])
  {
    seq(|calls|, i requires 0 <= i < |calls| => Calls(calls[i]))
  }

  /** While no peer writes the row, a writable handle holds exactly the last write to every byte. */
  lemma {:induction false} HoldsLastWrites(h: Handle, calls: seq<Call>)
    requires WellFormed(h) && !h.rowWritten && !h.readOnly
    ensures var r := After(h, AsEvents(calls));
      && !r.rowWritten && !r.expired
      && (forall i | 0 <= i < h.len :: r.bytes[i] == ByteAt(h.bytes, calls, i))
  {
    if calls != [] {
      var n := |calls| - 1;
      var front, last := calls[..n], calls[n];
      HoldsLastWrites(h, front);
      assert AsEvents(calls)[..n] == AsEvents(front);
      var before := After(h, AsEvents(front));
      var r := After(h, AsEvents(calls));
      assert r == Serve(before, last).0;
    }
  }

  /** So every read in range returns, byte for byte, the last write before it. */
  lemma ReadsLastWrites(h: Handle, calls: seq<Call>, offset: nat, amount: nat)
    requires WellFormed(h) && !h.rowWritten && !h.readOnly
    requires offset + amount <= |h.bytes|
    ensures var reply := Serve(After(h, AsEvents(calls)), Read(offset, amount)).1;
      && reply.Data? && |reply.bytes| == amount
      && (forall i | 0 <= i < amount :: reply.bytes[i] == ByteAt(h.bytes, calls, offset + i))
  {
    HoldsLastWrites(h, calls);
  }
}
