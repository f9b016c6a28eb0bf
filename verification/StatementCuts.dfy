/** Where a SQL text may be cut or changed without changing what the statement reader makes of it. */
module StatementCuts {
  import opened StatementReader

  /** The tokenizer, reading `s`, comes to stand after its first `n` characters. */
  predicate Boundary(s: string, n: nat)
    requires n <= |s|
    decreases n
  {
    n == 0 || (FirstPiece(s).len <= n && Boundary(s[FirstPiece(s).len..], n - FirstPiece(s).len))
  }

  // ----- a piece depends on its own characters and at most one more -----

  lemma {:induction false} ThroughPrefix(s: string, n: nat, stop: char)
    requires n <= |s|
    ensures Through(s, stop) <= n ==> Through(s[..n], stop) == Through(s, stop)
    ensures Through(s[..n], stop) < n ==> Through(s, stop) == Through(s[..n], stop)
  {
    if n > 0 && s[0] != stop {
      assert s[..n][1..] == s[1..][..n - 1];
      ThroughPrefix(s[1..], n - 1, stop);
    }
  }

  lemma {:induction false} CommentPrefix(s: string, n: nat, sawStar: bool)
    requires n <= |s|
    ensures ThroughComment(s, sawStar) <= n ==> ThroughComment(s[..n], sawStar) == ThroughComment(s, sawStar)
    ensures ThroughComment(s[..n], sawStar) < n ==> ThroughComment(s, sawStar) == ThroughComment(s[..n], sawStar)
  {
    if n > 0 && !(sawStar && s[0] == '/') {
      assert s[..n][1..] == s[1..][..n - 1];
      CommentPrefix(s[1..], n - 1, s[0] == '*');
    }
  }

  lemma {:induction false} WordPrefix(s: string, n: nat)
    requires n <= |s|
    ensures WordLength(s) <= n ==> WordLength(s[..n]) == WordLength(s)
    ensures WordLength(s[..n]) < n ==> WordLength(s) == WordLength(s[..n])
  {
    if n > 0 && IsWordPart(s[0]) {
      assert s[..n][1..] == s[1..][..n - 1];
      WordPrefix(s[1..], n - 1);
    }
  }

  /** A piece that ends within the first `n` characters is the same in those characters alone, and one that
      ends before the last of them is the same in any text that begins with them. */
  lemma PiecePrefix(s: string, n: nat)
    requires 0 < n <= |s|
    ensures FirstPiece(s).len <= n ==> FirstPiece(s[..n]) == FirstPiece(s)
    ensures FirstPiece(s[..n]).len < n ==> FirstPiece(s) == FirstPiece(s[..n])
  {
    var t := s[..n];
    assert t[1..] == s[1..][..n - 1];
    if IsQuote(s[0]) {
      ThroughPrefix(s[1..], n - 1, Closing(s[0]));
    } else if s[0] == '/' {
      CommentPrefix(s[1..], n - 1, false);
    } else if s[0] == '-' {
      if n >= 2 {
        assert t[1..][1..] == s[1..][1..][..n - 2];
        ThroughPrefix(s[1..][1..], n - 2, '\n');
      }
    } else {
      WordPiecePrefix(s, n);
    }
  }

  lemma WordPiecePrefix(s: string, n: nat)
    requires 0 < n <= |s| && !IsQuote(s[0]) && s[0] != '/' && s[0] != '-'
    ensures FirstPiece(s).len <= n ==> FirstPiece(s[..n]) == FirstPiece(s)
    ensures FirstPiece(s[..n]).len < n ==> FirstPiece(s) == FirstPiece(s[..n])
  {
    var t := s[..n];
    assert t[1..] == s[1..][..n - 1];
    WordPrefix(s[1..], n - 1);
    hide Through, ThroughComment, WordLength, Keyword;
    var w, v := 1 + WordLength(s[1..]), 1 + WordLength(t[1..]);
    assert w <= n ==> t[..w] == s[..w];
    assert t[..v] == s[..v];
  }

  // ----- cutting -----

  /** A text cut at a token boundary makes the tokens of its two parts. */
  lemma {:induction false} CutTokens(a: string, b: string)
    requires Boundary(a + b, |a|)
    ensures Tokens(a + b) == Tokens(a) + Tokens(b)
    decreases |a|
  {
    if a == [] {
      assert a + b == b;
    } else {
      hide FirstPiece;
      assert (a + b)[..|a|] == a;
      PiecePrefix(a + b, |a|);
      var n := FirstPiece(a).len;
      assert (a + b)[n..] == a[n..] + b;
      CutTokens(a[n..], b);
    }
  }

  /** Processing two parts cut at a token boundary, one after the other, is processing the whole. */
  lemma CutProcesses(state: ReadState, a: string, b: string)
    requires Boundary(a + b, |a|)
    ensures Fold(Fold(state, Tokens(a)), Tokens(b)) == Fold(state, Tokens(a + b))
  {
    CutTokens(a, b);
    FoldAppend(state, Tokens(a), Tokens(b));
  }

  // ----- quoted regions -----

  /** What follows a boundary may be replaced, if it begins with the same character. */
  lemma {:induction false} BoundaryStays(a: string, x: string, y: string)
    requires x != [] && y != [] && x[0] == y[0] && Boundary(a + x, |a|)
    ensures Boundary(a + y, |a|)
    decreases |a|
  {
    if a != [] {
      hide FirstPiece;
      var m := FirstPiece(a + x).len;
      SamePiece(a, x, y);
      assert (a + x)[m..] == a[m..] + x && (a + y)[m..] == a[m..] + y;
      BoundaryStays(a[m..], x, y);
    }
  }

  lemma SamePiece(a: string, x: string, y: string)
    requires a != [] && x != [] && y != [] && x[0] == y[0] && FirstPiece(a + x).len <= |a|
    ensures FirstPiece(a + y) == FirstPiece(a + x)
  {
    hide FirstPiece;
    var n := |a| + 1;
    assert (a + x)[..n] == a + [x[0]] == (a + y)[..n];
    PiecePrefix(a + x, n);
    PiecePrefix(a + y, n);
  }

  function Quoted(q: char, body: string): string {
    [q] + body + [Closing(q)]
  }

  lemma {:induction false} ThroughBody(body: string, stop: char, rest: string)
    requires stop !in body
    ensures Through(body + [stop] + rest, stop) == |body| + 1
  {
    if body != [] {
      assert (body + [stop] + rest)[1..] == body[1..] + [stop] + rest;
      ThroughBody(body[1..], stop, rest);
    }
  }

  /** A closed quoted region makes no token, whatever is inside. */
  lemma QuotedMakesNothing(q: char, body: string, rest: string)
    requires IsQuote(q) && Closing(q) !in body
    ensures Tokens(Quoted(q, body) + rest) == Tokens(rest)
  {
    var s := Quoted(q, body) + rest;
    assert s[1..] == body + [Closing(q)] + rest;
    ThroughBody(body, Closing(q), rest);
    assert s[FirstPiece(s).len..] == rest;
  }

  /** The body of a closed quoted region can be replaced without changing the final state. */
  lemma QuotedBodyIsIgnored(state: ReadState, a: string, q: char, body: string, body': string, rest: string)
    requires IsQuote(q) && Closing(q) !in body && Closing(q) !in body'
    requires Boundary(a + (Quoted(q, body) + rest), |a|)
    ensures Fold(state, Tokens(a + (Quoted(q, body') + rest))) == Fold(state, Tokens(a + (Quoted(q, body) + rest)))
  {
    hide Tokens, Boundary, Fold;
    var x, y := Quoted(q, body) + rest, Quoted(q, body') + rest;
    BoundaryStays(a, x, y);
    CutTokens(a, x);
    CutTokens(a, y);
    QuotedMakesNothing(q, body, rest);
    QuotedMakesNothing(q, body', rest);
  }
}
