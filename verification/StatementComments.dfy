/** Block comments: where the statement reader's scan agrees with the comment it means to skip. */
module StatementComments {
  import opened StatementReader

  // The text after the opening slash and star that belongs to the comment: up to and including the first
  // star followed by a slash, or all of it.
  function CommentBody(s: string): (n: nat)
    ensures n <= |s|
  {
    if |s| < 2 then |s|
    else if s[0] == '*' && s[1] == '/' then 2
    else 1 + CommentBody(s[1..])
  }

  predicate OpensComment(s: string) {
    |s| >= 2 && s[0] == '/' && s[1] == '*'
  }

  /** The star of the opening is taken for that of the closing, with text left. */
  predicate ClosesAtOnce(s: string) {
    OpensComment(s) && |s| > 3 && s[2] == '/'
  }

  lemma {:induction false} ScanIsBody(s: string, sawStar: bool)
    requires !(sawStar && s != [] && s[0] == '/')
    ensures ThroughComment(s, sawStar) == CommentBody(s)
  {
    if |s| >= 2 {
      var star := s[0] == '*';
      if star && s[1] == '/' {
        assert ThroughComment(s[1..], true) == 1;
      } else {
        ScanIsBody(s[1..], star);
      }
    }
  }

  lemma {:induction false} BodyAtLeast(s: string)
    ensures CommentBody(s) >= if |s| < 2 then |s| else 2
  {
    if |s| >= 2 && !(s[0] == '*' && s[1] == '/') {
      BodyAtLeast(s[1..]);
    }
  }

  /** The scan skips exactly the comment, unless a slash follows the opening at once with text after it. */
  lemma SkipsCommentExactly(s: string)
    requires OpensComment(s)
    ensures FirstPiece(s).len == 2 + CommentBody(s[2..]) <==> !ClosesAtOnce(s)
  {
    var rest := s[1..];
    assert rest[1..] == s[2..];
    assert FirstPiece(s).len == 2 + ThroughComment(s[2..], true);
    if |s| > 2 && s[2] == '/' {
      assert ThroughComment(s[2..], true) == 1;
      BodyAtLeast(s[2..]);
    } else {
      ScanIsBody(s[2..], true);
    }
  }

  // ----- whole texts -----

  /** The tokens of a text whose comments are skipped as meant. */
  function MeantPiece(s: string): (p: Piece)
    requires s != []
    ensures 1 <= p.len <= |s|
  {
    if OpensComment(s) then Piece(2 + CommentBody(s[2..]), FirstPiece(s).token) else FirstPiece(s)
  }

  function MeantTokens(s: string): seq<Token> {
    if s == [] then [] else Made(MeantPiece(s)) + MeantTokens(s[MeantPiece(s).len..])
  }

  /** A text none of whose suffixes begins so makes the tokens meant. */
  lemma {:induction false} TokensAsMeant(s: string)
    requires forall i | 0 <= i <= |s| :: !ClosesAtOnce(s[i..])
    ensures Tokens(s) == MeantTokens(s)
  {
    if s != [] {
      hide FirstPiece, CommentBody;
      assert s[0..] == s;
      if OpensComment(s) {
        SkipsCommentExactly(s);
      }
      var n := FirstPiece(s).len;
      assert forall i | 0 <= i <= |s| - n :: s[n..][i..] == s[n + i..];
      TokensAsMeant(s[n..]);
    }
  }

  /** And one that does can be called complete though it is all one open comment. */
  lemma OpenCommentCompletes()
    ensures Fold(Invalid, Tokens("/*/;")) == Start && MeantTokens("/*/;") == []
  {
    var s := "/*/;";
    assert s[1..] == "*/;" && "*/;"[1..] == "/;" && "/;"[1..] == ";" && s[2..] == "/;";
    assert ThroughComment("/;", true) == 1;
    assert FirstPiece(s) == Piece(3, FirstPiece(s).token);
    assert s[3..] == ";" && ";"[1..] == "";
    TokensUnfold(s);
    TokensUnfold(";");
    NoTokens();
    FoldNothing(Invalid);
    FoldStep(Invalid, [], TkSemi);
    assert CommentBody("/;") == 2;
    assert s[4..] == "";
  }
}
