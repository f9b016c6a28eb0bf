/** Sequences and the backing tables that persist them. */
module Sequences {
  import opened Outcome

  const I64_MAX: int := 0x7FFF_FFFF_FFFF_FFFF
  const I64_MIN: int := -0x8000_0000_0000_0000

  type i64 = x: int | I64_MIN <= x <= I64_MAX

  /** A row of a backing table. `value` is its primary key. */
  datatype Row = Row(value: i64, isCalled: bool, start: i64, inc: i64, min: i64, max: i64, cycle: bool)

  /** Rows in key order. */
  predicate Sorted(rows: seq<Row>) {
    forall i, j | 0 <= i < j < |rows| :: rows[i].value < rows[j].value
  }

  type Rows = rows: seq<Row> | Sorted(rows) witness []

  /** A backing table, or one whose columns cannot be selected. */
  datatype Table = Readable(rows: Rows) | Unreadable

  datatype Sequence = Sequence(name: string, start: i64, inc: i64, min: i64, max: i64, cycle: bool)

  /** `Sequence::new`: `None` for a descriptor it rejects. */
  function NewSequence(name: string, r: Row): Option<Sequence> {
    if r.inc == 0 || r.min >= r.max || r.start < r.min || r.start > r.max then None
    else Some(Sequence(name, r.start, r.inc, r.min, r.max, r.cycle))
  }

  function LowerChar(c: char): char {
    if 'A' <= c <= 'Z' then (c as int + 32) as char else c
  }

  /** `normalize_ident`: ASCII lower case. */
  function Normalize(s: string): (r: string)
    ensures |r| == |s|
  {
    seq(|s|, i requires 0 <= i < |s| => LowerChar(s[i]))
  }

  /** `SELECT start, inc, min, max, cycle ... LIMIT 1`. */
  function DescriptorRows(t: Table): seq<Row> {
    if t.Readable? && t.rows != [] then [t.rows[0]] else []
  }

  /** `SELECT value, is_called ... ORDER BY value DESC LIMIT 1`, or ascending for a descending sequence. */
  function WatermarkRows(t: Table, inc: int): seq<Row> {
    if t.Readable? && t.rows != [] then [if inc >= 0 then t.rows[|t.rows| - 1] else t.rows[0]] else []
  }

  /** `first_unsafe_sequence_watermark`, with `checked_add`. */
  function FirstUnsafe(s: Sequence, r: Row): i64 {
    if !r.isCalled then r.value
    else if s.inc > 0 && !s.cycle && r.value + s.inc <= I64_MAX then r.value + s.inc
    else r.value
  }

  /** `op_sequence_compute_next`: the value handed out next from the watermark rows, or `None` when the
      sequence is exhausted (for AUTOINCREMENT: the database is full). */
  function NextId(s: Sequence, rows: seq<Row>): Option<i64> {
    if rows == [] then Some(s.start)
    else if !rows[0].isCalled then Some(rows[0].value)
    else
      var next := rows[0].value + s.inc;
      var exhausted := !(I64_MIN <= next <= I64_MAX)
                       || (s.inc > 0 && next > s.max)
                       || (s.inc < 0 && next < s.min);
      if !exhausted then Some(next)
      else if s.cycle then Some(if s.inc > 0 then s.min else s.max)
      else None
  }

  /** The same character, or the same ASCII letter in the other case. */
  predicate SameLetter(c: char, d: char) {
    c == d || (65 <= c as int <= 90 && d as int == c as int + 32) || (65 <= d as int <= 90 && c as int == d as int + 32)
  }

  /** Names are the same sequence exactly when they differ in ASCII case only. */
  lemma NormalizeIgnoresCase(s: string, t: string)
    ensures Normalize(s) == Normalize(t) <==> |s| == |t| && forall i | 0 <= i < |s| :: SameLetter(s[i], t[i])
  {
    if |s| == |t| {
      assert forall i | 0 <= i < |s| :: Normalize(s)[i] == Normalize(t)[i] <==> SameLetter(s[i], t[i]);
    }
  }

  /** A sequence that has handed out a value hands out the one an increment on while that is within its
      bounds; beyond them it starts over at the other bound if it cycles, and otherwise is exhausted. */
  lemma NextIdInBounds(s: Sequence, row: Row)
    requires row.isCalled && s.inc != 0
    ensures var v, r := row.value + s.inc, NextId(s, [row]);
      var within := if s.inc > 0 then v <= s.max else v >= s.min;
      && (within ==> r == Some(v))
      && (!within && s.cycle ==> r == Some(if s.inc > 0 then s.min else s.max))
      && (!within && !s.cycle ==> r == None)
  {
  }
}
