/** The blob instructions on the pages of a record do what the interpreter says they do. */
module BlobOps {
  import opened Bytes
  import opened BlobVm
  import opened BlobPages

  /** A record, where the column's value lies in it, and whether the cursor's row has been written by a peer. */
  datatype Record = Record(payload: Payload, bodyOff: nat, len: nat, expired: bool)

  ghost predicate Stored(r: Record) {
    Valid(r.payload) && r.bodyOff + r.len <= |Flat(r.payload)|
  }

  /** The row the cursor shows. */
  function RowOf(r: Record): RowState
    requires Stored(r)
  {
    Addressable(Column(r.payload, r.bodyOff, r.len), r.expired)
  }

  /** `op_blob_read`: it runs as the interpreter's instruction, or waits and leaves everything alone. */
  method OpBlobRead(r: Record, m: Machine, insn: Insn, resident: nat -> bool) returns (next: Machine, signal: Signal)
    requires Stored(r) && m.row == RowOf(r) && insn.BlobRead?
    ensures signal.Suspended? ==> next == Wait(m, insn, 0)
    ensures !signal.Suspended? ==> (next, signal) == Execute(m, insn)
    ensures (forall page :: resident(page)) ==> !signal.Suspended?
    ensures signal.Continue? && !r.expired ==>
              var at, n := r.bodyOff + Reg(m, insn.offset).i, Reg(m, insn.amount).i;
              at + n <= r.bodyOff + r.len && Reg(next, insn.dest) == Blob(Flat(r.payload)[at..at + n])
  {
    var o, a := Reg(m, insn.offset), Reg(m, insn.amount);
    if !IsIndex(o) || !IsIndex(a) {
      return m, Failed;
    }
    if r.expired {
      return SetReg(m, insn.dest, Null), Continue;
    }
    var access := ReadColumn(r.payload, r.bodyOff, r.len, o.i, a.i, resident);
    match access
    case Got(bytes) => next, signal := SetReg(m, insn.dest, Blob(bytes)), Continue;
    case PastEnd => next, signal := m, Failed;
    case NotYet => next, signal := m, Suspended;
  }

  /** `op_blob_write`: it runs as the interpreter's instruction, or waits with a prefix of the data stored.
      The row shown afterwards is that of the record left, and the rest of the record is as it was. */
  method OpBlobWrite(r: Record, m: Machine, insn: Insn, resident: nat -> bool)
      returns (left: Record, next: Machine, signal: Signal)
    requires Stored(r) && m.row == RowOf(r) && insn.BlobWrite?
    ensures Stored(left) && next.row == RowOf(left)
    ensures signal.Suspended? ==> exists done :: next == Wait(m, insn, done)
    ensures !signal.Suspended? ==> (next, signal) == Execute(m, insn)
    ensures (forall page :: resident(page)) ==> !signal.Suspended?
    ensures left.bodyOff == r.bodyOff && left.len == r.len
    ensures signal.Continue? && !r.expired ==>
              var at, data := r.bodyOff + Reg(m, insn.offset).i, Reg(m, insn.src).bytes;
              at + |data| <= r.bodyOff + r.len && Flat(left.payload)[at..at + |data|] == data
    ensures Flat(left.payload)[..r.bodyOff] == Flat(r.payload)[..r.bodyOff]
    ensures Flat(left.payload)[r.bodyOff + r.len..] == Flat(r.payload)[r.bodyOff + r.len..]
  {
    var o, d := Reg(m, insn.offset), Reg(m, insn.src);
    if !IsIndex(o) || !d.Blob? {
      return r, m, Failed;
    }
    if r.expired {
      return r, SetReg(m, insn.dest, Null), Continue;
    }
    hide Overwrite, Flat, Valid;
    var payload, access, done := WriteColumn(r.payload, r.bodyOff, r.len, o.i, d.bytes, resident);
    left := r.(payload := payload);
    if access.PastEnd? {
      return left, m, Failed;
    }
    if access.Got? {
      assert d.bytes[..done] == d.bytes;
      next, signal := SetReg(m, insn.dest, Integer(1)).(row := RowOf(left)), Continue;
    } else {
      next, signal := m.(row := RowOf(left)), Suspended;
      assert next == Wait(m, insn, done);
    }
  }
}
