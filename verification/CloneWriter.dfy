/** The writer behind `.clone`: bytes of a dump arrive in pieces and each complete statement, one that
    ends in `;` and a line break, is executed as soon as it is whole. */
module CloneWriter {
  import opened Outcome
  import opened Bytes

  const SEMICOLON: byte := 59
  const NEWLINE: byte := 10
  const RETURN: byte := 13

  /** A terminator is a semicolon and a line break, `;\n` or `;\r\n`. */
  lemma TerminatorExactly(buf: seq<byte>, i: nat)
    ensures TerminatorLength(buf, i) == 2 <==> i + 2 <= |buf| && buf[i..i + 2] == [59, 10]
    ensures TerminatorLength(buf, i) == 3 <==> i + 3 <= |buf| && buf[i..i + 3] == [59, 13, 10]
    ensures TerminatorLength(buf, i) in {0, 2, 3}
  {
    assert i + 2 <= |buf| ==> buf[i..i + 2] == [buf[i], buf[i + 1]];
    assert i + 3 <= |buf| ==> buf[i..i + 3] == [buf[i], buf[i + 1], buf[i + 2]];
  }

  /** The length of the statement terminator at `i`, or 0. */
  function TerminatorLength(buf: seq<byte>, i: nat): (n: nat) {
    if i + 1 < |buf| && buf[i] == SEMICOLON && buf[i + 1] == NEWLINE then 2
    else if i + 2 < |buf| && buf[i] == SEMICOLON && buf[i + 1] == RETURN && buf[i + 2] == NEWLINE then 3
    else 0
  }

  /** `find_stmt_end`: the first terminator and how many bytes of it to drain. */
  method FindStmtEnd(buf: seq<byte>) returns (r: Option<(nat, nat)>)
    ensures r == StmtEnd(buf, 0)
  {
    var i := 0;
    while i < |buf|
      invariant 0 <= i <= |buf|
      invariant StmtEnd(buf, 0) == StmtEnd(buf, i)
    {
      if buf[i] == SEMICOLON {
        if i + 1 < |buf| && buf[i + 1] == NEWLINE {
          return Some((i, 2));
        }
        if i + 2 < |buf| && buf[i + 1] == RETURN && buf[i + 2] == NEWLINE {
          return Some((i, 3));
        }
      }
      i := i + 1;
    }
    r := None;
  }

  function StmtEnd(buf: seq<byte>, start: nat): (r: Option<(nat, nat)>)
    ensures r.Some? ==> start <= r.value.0 && r.value.1 == TerminatorLength(buf, r.value.0) > 0
                        && r.value.0 + r.value.1 <= |buf|
    ensures forall i: nat | start <= i && TerminatorLength(buf, i) > 0 :: r.Some? && r.value.0 <= i
    decreases |buf| - start
  {
    if start >= |buf| then None
    else if TerminatorLength(buf, start) > 0 then Some((start, TerminatorLength(buf, start)))
    else StmtEnd(buf, start + 1)
  }

  /** A statement, with the line break that followed it. */
  datatype Piece = Piece(stmt: seq<byte>, lineBreak: seq<byte>)

  datatype Split = Split(pieces: seq<Piece>, leftover: seq<byte>)

  /** The first complete statement, and the bytes after its line break. */
  function FirstPiece(bytes: seq<byte>): (r: Option<(Piece, seq<byte>)>)
    ensures r.Some? ==> |r.value.1| < |bytes| && bytes == r.value.0.stmt + r.value.0.lineBreak + r.value.1
  {
    match StmtEnd(bytes, 0)
    case None => None
    case Some((end, drain)) =>
      assert bytes == bytes[..end + 1] + bytes[end + 1..end + drain] + bytes[end + drain..];
      Some((Piece(bytes[..end + 1], bytes[end + 1..end + drain]), bytes[end + drain..]))
  }

  /** How a whole dump splits into statements. */
  function SplitAll(bytes: seq<byte>): Split
    decreases |bytes|
  {
    match FirstPiece(bytes)
    case None => Split([], bytes)
    case Some((p, rest)) =>
      var s := SplitAll(rest);
      Split([p] + s.pieces, s.leftover)
  }

  function Reassemble(pieces: seq<Piece>, leftover: seq<byte>): seq<byte> {
    if pieces == [] then leftover
    else pieces[0].stmt + pieces[0].lineBreak + Reassemble(pieces[1..], leftover)
  }

  /** Nothing is lost or reordered: statements, line breaks and leftover make up the input. */
  lemma {:induction false} SplitKeepsEverything(bytes: seq<byte>)
    ensures Reassemble(SplitAll(bytes).pieces, SplitAll(bytes).leftover) == bytes
    decreases |bytes|
  {
    hide FirstPiece;
    match FirstPiece(bytes)
    case None =>
    case Some((p, rest)) =>
      SplitKeepsEverything(rest);
      assert ([p] + SplitAll(rest).pieces)[1..] == SplitAll(rest).pieces;
  }

  /** A statement ends in the only terminator of its bytes. */
  predicate IsStatement(p: Piece) {
    && p.stmt != [] && p.stmt[|p.stmt| - 1] == SEMICOLON
    && p.lineBreak in {[NEWLINE], [RETURN, NEWLINE]}
    && StmtEnd(p.stmt + p.lineBreak, 0) == Some((|p.stmt| - 1, |p.lineBreak| + 1))
  }

  lemma FirstPieceIsStatement(bytes: seq<byte>)
    ensures FirstPiece(bytes).Some? ==> IsStatement(FirstPiece(bytes).value.0)
    ensures FirstPiece(bytes).None? <==> StmtEnd(bytes, 0).None?
  {
    hide StmtEnd;
    if FirstPiece(bytes).Some? {
      var (end, drain) := StmtEnd(bytes, 0).value;
      PieceAt(bytes, end, drain);
      var part := bytes[..end + drain];
      assert bytes[..end + 1] + bytes[end + 1..end + drain] == part;
      PrefixKeepsFirst(part, bytes);
      hide TerminatorLength;
    }
  }

  lemma PieceAt(bytes: seq<byte>, end: nat, drain: nat)
    requires drain == TerminatorLength(bytes, end) > 0
    ensures end + drain <= |bytes| && bytes[end] == SEMICOLON
    ensures bytes[end + 1..end + drain] in {[NEWLINE], [RETURN, NEWLINE]}
  {
    assert drain == 2 ==> bytes[end + 1..end + drain] == [NEWLINE];
    assert drain == 3 ==> bytes[end + 1..end + drain] == [RETURN, NEWLINE];
  }

  /** Every piece is a statement, and the leftover holds none. */
  lemma {:induction false} SplitIsExact(bytes: seq<byte>)
    ensures StmtEnd(SplitAll(bytes).leftover, 0).None?
    ensures forall p | p in SplitAll(bytes).pieces :: IsStatement(p)
    decreases |bytes|
  {
    hide FirstPiece, IsStatement, StmtEnd;
    FirstPieceIsStatement(bytes);
    match FirstPiece(bytes)
    case None =>
    case Some((_, rest)) => SplitIsExact(rest);
  }

  /** A terminator wholly inside a prefix is the first one of the prefix iff it is of the whole. */
  lemma PrefixKeepsFirst(part: seq<byte>, whole: seq<byte>)
    requires part <= whole
    ensures StmtEnd(part, 0).Some? ==> StmtEnd(whole, 0) == StmtEnd(part, 0)
    ensures StmtEnd(whole, 0).Some? && StmtEnd(whole, 0).value.0 + StmtEnd(whole, 0).value.1 <= |part| ==>
              StmtEnd(part, 0) == StmtEnd(whole, 0)
  {
    if StmtEnd(part, 0).Some? {
      var (i, n) := StmtEnd(part, 0).value;
      assert TerminatorLength(whole, i) == n;
      var (j, m) := StmtEnd(whole, 0).value;
      assert j < i ==> TerminatorLength(part, j) == m;
    }
    if StmtEnd(whole, 0).Some? {
      var (j, m) := StmtEnd(whole, 0).value;
      if j + m <= |part| {
        assert TerminatorLength(part, j) == m;
      }
    }
  }

  lemma FirstPieceResumes(a: seq<byte>, b: seq<byte>)
    requires FirstPiece(a).Some?
    ensures FirstPiece(a + b) == Some((FirstPiece(a).value.0, FirstPiece(a).value.1 + b))
  {
    hide StmtEnd;
    var (end, drain) := StmtEnd(a, 0).value;
    PrefixKeepsFirst(a, a + b);
    assert (a + b)[..end + 1] == a[..end + 1];
    assert (a + b)[end + 1..end + drain] == a[end + 1..end + drain];
    assert (a + b)[end + drain..] == a[end + drain..] + b;
  }

  /** Splitting what has arrived and then the leftover with the rest is splitting it all. */
  lemma {:induction false} SplitResumes(a: seq<byte>, b: seq<byte>)
    ensures var first := SplitAll(a); var second := SplitAll(first.leftover + b);
      SplitAll(a + b) == Split(first.pieces + second.pieces, second.leftover)
    decreases |a|
  {
    hide FirstPiece;
    match FirstPiece(a)
    case None =>
      var s := SplitAll(a + b);
      assert [] + s.pieces == s.pieces;
    case Some((p, rest)) =>
      FirstPieceResumes(a, b);
      SplitResumes(rest, b);
      var first, second := SplitAll(rest), SplitAll(SplitAll(rest).leftover + b);
      assert [p] + (first.pieces + second.pieces) == ([p] + first.pieces) + second.pieces;
  }

  // ----- the writer -----

  /** What flushing a buffer does, when `accepts` says which statements execute without error:
      the statements executed, the buffer left, and whether all went well. */
  datatype Flushed = Flushed(executed: seq<seq<byte>>, buf: seq<byte>, ok: bool)

  function Flush(accepts: seq<byte> -> bool, buf: seq<byte>): Flushed
    decreases |buf|
  {
    match FirstPiece(buf)
    case None => Flushed([], buf, true)
    case Some((p, rest)) =>
      if !accepts(p.stmt) then Flushed([], rest, false)
      else
        var f := Flush(accepts, rest);
        Flushed([p.stmt] + f.executed, f.buf, f.ok)
  }

  /** A flush on top of statements already executed. */
  function After(executed: seq<seq<byte>>, f: Flushed): Flushed {
    Flushed(executed + f.executed, f.buf, f.ok)
  }

  lemma AfterIs(executed: seq<seq<byte>>, f: Flushed)
    ensures After(executed, f) == Flushed(executed + f.executed, f.buf, f.ok)
  {
  }

  lemma FlushUnfolds(accepts: seq<byte> -> bool, buf: seq<byte>)
    ensures FirstPiece(buf).None? ==> Flush(accepts, buf) == Flushed([], buf, true)
    ensures FirstPiece(buf).Some? ==>
      var stmt, rest := FirstPiece(buf).value.0.stmt, FirstPiece(buf).value.1;
      Flush(accepts, buf) == if accepts(stmt) then After([stmt], Flush(accepts, rest)) else Flushed([], rest, false)
  {
    hide FirstPiece;
  }

  lemma FlushStep(accepts: seq<byte> -> bool, executed: seq<seq<byte>>, buf: seq<byte>)
    ensures StmtEnd(buf, 0).None? ==> After(executed, Flush(accepts, buf)) == Flushed(executed, buf, true)
    ensures StmtEnd(buf, 0).Some? ==>
      var (end, drain) := StmtEnd(buf, 0).value;
      var stmt, rest := buf[..end + 1], buf[end + drain..];
      && |rest| < |buf|
      && After(executed, Flush(accepts, buf))
         == if accepts(stmt) then After(executed + [stmt], Flush(accepts, rest)) else Flushed(executed, rest, false)
  {
    hide StmtEnd, TerminatorLength, Flush;
    FlushUnfolds(accepts, buf);
    assert executed + [] == executed;
    if StmtEnd(buf, 0).Some? {
      var (end, drain) := StmtEnd(buf, 0).value;
      var stmt, f := buf[..end + 1], Flush(accepts, buf[end + drain..]);
      assert executed + ([stmt] + f.executed) == (executed + [stmt]) + f.executed;
    }
  }

  predicate IsBlank(b: byte) {
    b in {32, 9, RETURN, NEWLINE}
  }

  class ApplyWriter {
    const accepts: seq<byte> -> bool
    /** The statements executed on the target so far. */
    var executed: seq<seq<byte>>
    var buf: seq<byte>

    constructor (accepts: seq<byte> -> bool)
      ensures this.accepts == accepts && executed == [] && buf == []
    {
      this.accepts := accepts;
      executed := [];
      buf := [];
    }

    method FlushCompleteStatements() returns (ok: bool)
      modifies this
      ensures var f := Flush(accepts, old(buf));
        executed == old(executed) + f.executed && buf == f.buf && ok == f.ok
    {
      hide Flush, StmtEnd, After;
      ghost var all := After(executed, Flush(accepts, buf));
      var next := FindStmtEnd(buf);
      while next.Some?
        invariant next == StmtEnd(buf, 0)
        invariant After(executed, Flush(accepts, buf)) == all
        decreases |buf|
      {
        FlushStep(accepts, executed, buf);
        var (end, drain) := next.value;
        var stmt := buf[..end + 1];
        buf := buf[end + drain..];
        if !accepts(stmt) {
          AfterIs(old(executed), Flush(accepts, old(buf)));
          return false;
        }
        executed := executed + [stmt];
        next := FindStmtEnd(buf);
      }
      FlushStep(accepts, executed, buf);
      AfterIs(old(executed), Flush(accepts, old(buf)));
      ok := true;
    }

    method Write(data: seq<byte>) returns (ok: bool)
      modifies this
      ensures var f := Flush(accepts, old(buf) + data);
        executed == old(executed) + f.executed && buf == f.buf && ok == f.ok
    {
      buf := buf + data;
      ok := FlushCompleteStatements();
    }

    /** Executes a final statement that only blanks follow. */
    method Finish() returns (ok: bool)
      modifies this
      ensures match LastStatement(old(buf))
        case None => ok && executed == old(executed) && buf == old(buf)
        case Some(stmt) =>
          && ok == accepts(stmt) && buf == []
          && executed == old(executed) + (if ok then [stmt] else [])
    {
      var last := |buf|;
      while last > 0 && buf[last - 1] != SEMICOLON
        invariant 0 <= last <= |buf|
        invariant forall k | last <= k < |buf| :: buf[k] != SEMICOLON
      {
        last := last - 1;
      }
      LastStatementAt(buf, last);
      if last > 0 && forall k | last <= k < |buf| :: IsBlank(buf[k]) {
        var stmt := buf[..last];
        buf := [];
        ok := accepts(stmt);
        if ok {
          executed := executed + [stmt];
        }
        return;
      }
      ok := true;
    }
  }

  /** The buffer up to its last semicolon, when nothing but blanks follows it. */
  function LastStatement(buf: seq<byte>): Option<seq<byte>> {
    if buf == [] then None
    else if buf[|buf| - 1] == SEMICOLON then Some(buf)
    else if IsBlank(buf[|buf| - 1]) then LastStatement(buf[..|buf| - 1])
    else None
  }

  lemma {:induction false} LastStatementAt(buf: seq<byte>, last: nat)
    requires last <= |buf| && (forall k | last <= k < |buf| :: buf[k] != SEMICOLON)
    requires last > 0 ==> buf[last - 1] == SEMICOLON
    ensures LastStatement(buf)
         == if last > 0 && (forall k | last <= k < |buf| :: buf[k] in {9, 10, 13, 32}) then Some(buf[..last]) else None
  {
    if last < |buf| {
      var front := buf[..|buf| - 1];
      LastStatementAt(front, last);
      assert front[..last] == buf[..last];
    } else {
      assert buf[..last] == buf;
    }
  }

  // ----- every chunking -----

  function Statements(pieces: seq<Piece>): seq<seq<byte>> {
    if pieces == [] then [] else [pieces[0].stmt] + Statements(pieces[1..])
  }

  /** Without errors a flush executes exactly the statements of the split. */
  lemma {:induction false} FlushIsSplit(accepts: seq<byte> -> bool, buf: seq<byte>)
    requires forall s :: accepts(s)
    ensures Flush(accepts, buf) == Flushed(Statements(SplitAll(buf).pieces), SplitAll(buf).leftover, true)
    decreases |buf|
  {
    hide FirstPiece;
    match FirstPiece(buf)
    case None =>
    case Some((p, rest)) =>
      FlushIsSplit(accepts, rest);
      assert ([p] + SplitAll(rest).pieces)[1..] == SplitAll(rest).pieces;
  }

  /** A flush that went wrong executed the statements before the first one refused, dropped that one,
      and kept everything after it. */
  lemma {:induction false} FlushStopsAtError(accepts: seq<byte> -> bool, buf: seq<byte>) returns (refused: seq<byte>)
    requires !Flush(accepts, buf).ok
    ensures !accepts(refused)
    ensures forall s | s in Flush(accepts, buf).executed :: accepts(s)
    ensures var f := Flush(accepts, buf); var kept := SplitAll(f.buf);
      && Statements(SplitAll(buf).pieces) == f.executed + [refused] + Statements(kept.pieces)
      && SplitAll(buf).leftover == kept.leftover
    decreases |buf|
  {
    hide FirstPiece;
    var (p, rest) := FirstPiece(buf).value;
    assert ([p] + SplitAll(rest).pieces)[1..] == SplitAll(rest).pieces;
    if accepts(p.stmt) {
      refused := FlushStopsAtError(accepts, rest);
      var f := Flush(accepts, rest);
      var kept := Statements(SplitAll(f.buf).pieces);
      assert [p.stmt] + (f.executed + [refused] + kept) == ([p.stmt] + f.executed) + [refused] + kept;
    } else {
      refused := p.stmt;
    }
  }

  /** Flushing what has arrived and then, if that went well, the leftover with the rest is flushing it all;
      after an error the rest just stays behind. */
  lemma {:induction false} FlushResumes(accepts: seq<byte> -> bool, a: seq<byte>, b: seq<byte>)
    ensures var first := Flush(accepts, a);
      Flush(accepts, a + b)
      == if first.ok then After(first.executed, Flush(accepts, first.buf + b))
         else Flushed(first.executed, first.buf + b, false)
    decreases |a|
  {
    hide FirstPiece, Flush;
    FlushUnfolds(accepts, a);
    FlushUnfolds(accepts, a + b);
    match FirstPiece(a)
    case None =>
      AfterNothing(Flush(accepts, a + b));
    case Some((p, rest)) =>
      FirstPieceResumes(a, b);
      FlushResumes(accepts, rest, b);
      var first := Flush(accepts, rest);
      AfterAssociates([p.stmt], first.executed, Flush(accepts, first.buf + b));
  }

  lemma AfterNothing(f: Flushed)
    ensures After([], f) == f
  {
    assert [] + f.executed == f.executed;
  }

  lemma AfterAssociates(x: seq<seq<byte>>, y: seq<seq<byte>>, f: Flushed)
    ensures After(x, After(y, f)) == After(x + y, f)
  {
    assert x + (y + f.executed) == (x + y) + f.executed;
  }

  /** A caller that stops at the first write that fails, and how many writes it made. */
  datatype Written = Written(result: Flushed, writes: nat)

  function WriteUntilError(accepts: seq<byte> -> bool, chunks: seq<seq<byte>>): (w: Written)
    ensures w.writes <= |chunks|
    ensures w.result.ok ==> w.writes == |chunks|
  {
    if chunks == [] then Written(Flushed([], [], true), 0)
    else
      var before := WriteUntilError(accepts, chunks[..|chunks| - 1]);
      if !before.result.ok then before
      else
        Written(After(before.result.executed, Flush(accepts, before.result.buf + chunks[|chunks| - 1])), |chunks|)
  }

  /** However the bytes are cut into writes, and whatever statements are refused: the statements executed
      and the outcome are those of the whole dump written at once, and its leftover is that of the writes
      made followed by the chunks not written. */
  lemma {:induction false} ChunkingDoesNotMatter(accepts: seq<byte> -> bool, chunks: seq<seq<byte>>)
    ensures var w := WriteUntilError(accepts, chunks);
      Flush(accepts, Joined(chunks))
      == Flushed(w.result.executed, w.result.buf + Joined(chunks[w.writes..]), w.result.ok)
  {
    hide Flush;
    if chunks == [] {
      FlushUnfolds(accepts, []);
    } else {
      var n := |chunks| - 1;
      var front, chunk := chunks[..n], chunks[n];
      var before := WriteUntilError(accepts, front);
      ChunkingDoesNotMatter(accepts, front);
      FlushResumes(accepts, Joined(front), chunk);
      var left := front[before.writes..];
      assert chunks[before.writes..][..|left|] == left;
      assert before.result.buf + Joined(left) + chunk == before.result.buf + (Joined(left) + chunk);
      if before.result.ok {
        assert left == [] && chunks[|chunks|..] == [];
        assert before.result.buf + Joined(left) == before.result.buf;
        var f := After(before.result.executed, Flush(accepts, before.result.buf + chunk));
        assert f.buf + [] == f.buf;
      }
    }
  }

  /** When every statement executes, nothing stops the writes. */
  lemma {:induction false} AcceptedChunksAreAllWritten(accepts: seq<byte> -> bool, chunks: seq<seq<byte>>)
    requires forall s :: accepts(s)
    ensures WriteUntilError(accepts, chunks) == Written(Flush(accepts, Joined(chunks)), |chunks|)
  {
    hide Flush;
    ChunkingDoesNotMatter(accepts, chunks);
    FlushIsSplit(accepts, Joined(chunks));
    var w := WriteUntilError(accepts, chunks);
    assert chunks[|chunks|..] == [];
    assert w.result.buf + [] == w.result.buf;
  }
}
