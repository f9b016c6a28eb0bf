/** The shell's test for a complete SQL statement, after SQLite's `sqlite3_complete()`. */
module StatementReader {
  import opened Outcome

  datatype ReadState = Invalid | Start | Normal | Explain | Create | Trigger | Semi | End

  datatype Token = TkSemi | TkWhitespace | TkOther | TkExplain | TkCreate | TkTemp | TkTrigger | TkEnd

  // ----- characters -----

  predicate IsWhitespace(c: char) {
    c == ' ' || c == '\t' || c == '\n' || c == '\r' || c as int == 12
  }

  predicate IsLetter(c: char) {
    'a' <= c <= 'z' || 'A' <= c <= 'Z'
  }

  predicate IsWordStart(c: char) {
    IsLetter(c) || c == '_'
  }

  predicate IsWordPart(c: char) {
    IsWordStart(c) || '0' <= c <= '9'
  }

  predicate IsQuote(c: char) {
    c == '\'' || c == '"' || c == '`' || c == '['
  }

  function Closing(quote: char): char {
    if quote == '[' then ']' else quote
  }

  function UpperChar(c: char): char {
    if 'a' <= c <= 'z' then (c as int - 32) as char else c
  }

  function Upper(s: string): string {
    seq(|s|, i requires 0 <= i < |s| => UpperChar(s[i]))
  }

  function Keyword(word: string): Token {
    var w := Upper(word);
    if w == "EXPLAIN" then TkExplain
    else if w == "CREATE" then TkCreate
    else if w == "TEMP" || w == "TEMPORARY" then TkTemp
    else if w == "TRIGGER" then TkTrigger
    else if w == "END" then TkEnd
    else TkOther
  }

  /** The word has these letters, each in either case. */
  predicate Spells(word: string, letters: string) {
    |word| == |letters|
    && forall i | 0 <= i < |word| :: word[i] == letters[i] || word[i] as int == letters[i] as int + 32
  }

  /** Which words give which token. */
  lemma KeywordExactly(word: string)
    ensures Keyword(word) == TkExplain <==> Spells(word, "EXPLAIN")
    ensures Keyword(word) == TkCreate <==> Spells(word, "CREATE")
    ensures Keyword(word) == TkTemp <==> Spells(word, "TEMP") || Spells(word, "TEMPORARY")
    ensures Keyword(word) == TkTrigger <==> Spells(word, "TRIGGER")
    ensures Keyword(word) == TkEnd <==> Spells(word, "END")
    ensures Keyword(word) !in {TkSemi, TkWhitespace}
  {
    hide Spells, Upper;
    UpperSpells(word, "EXPLAIN");
    UpperSpells(word, "CREATE");
    UpperSpells(word, "TEMP");
    UpperSpells(word, "TEMPORARY");
    UpperSpells(word, "TRIGGER");
    UpperSpells(word, "END");
  }

  lemma UpperSpells(word: string, letters: string)
    requires forall i | 0 <= i < |letters| :: 'A' <= letters[i] <= 'Z'
    ensures Upper(word) == letters <==> Spells(word, letters)
  {
    if Upper(word) == letters {
      assert forall i | 0 <= i < |word| :: UpperChar(word[i]) == letters[i];
    }
    if Spells(word, letters) {
      assert forall i | 0 <= i < |word| :: Upper(word)[i] == letters[i];
    }
  }

  // ----- scans: how many characters each consumes -----

  /** Up to and including the first `stop`, or everything. */
  function Through(s: string, stop: char): (n: nat)
    ensures n <= |s|
  {
    if s == [] then 0 else if s[0] == stop then 1 else 1 + Through(s[1..], stop)
  }

  /** Up to and including the first `*` followed by `/`; `sawStar` says whether the character before was a star. */
  function ThroughComment(s: string, sawStar: bool): (n: nat)
    ensures n <= |s|
  {
    if s == [] then 0
    else if sawStar && s[0] == '/' then 1
    else 1 + ThroughComment(s[1..], s[0] == '*')
  }

  function WordLength(s: string): (n: nat)
    ensures n <= |s| && forall i | 0 <= i < n :: IsWordPart(s[i])
    ensures n < |s| ==> !IsWordPart(s[n])
  {
    if s == [] || !IsWordPart(s[0]) then 0 else 1 + WordLength(s[1..])
  }

  /** What the tokenizer consumes in one go, and the token it makes of it, if any. */
  datatype Piece = Piece(len: nat, token: Option<Token>)

  function FirstPiece(s: string): (p: Piece)
    requires s != []
    ensures 1 <= p.len <= |s|
  {
    var c, rest := s[0], s[1..];
    if IsQuote(c) then Piece(1 + Through(rest, Closing(c)), None)
    else if c == '-' && rest != [] && rest[0] == '-' then Piece(2 + Through(rest[1..], '\n'), None)
    else if c == '/' && rest != [] && rest[0] == '*' then Piece(1 + ThroughComment(rest, false), None)
    else if c == ';' then Piece(1, Some(TkSemi))
    else if IsWhitespace(c) then Piece(1, Some(TkWhitespace))
    else if IsWordStart(c) then Piece(1 + WordLength(rest), Some(Keyword(s[..1 + WordLength(rest)])))
    else Piece(1, Some(TkOther))
  }

  predicate WordCode(c: char) {
    48 <= c as int <= 57 || 65 <= c as int <= 90 || c as int == 95 || 97 <= c as int <= 122
  }

  predicate QuoteCode(c: char) {
    c as int in {34, 39, 91, 96}
  }

  /** Two dashes, or a slash and a star. */
  predicate CommentCodes(s: string) {
    |s| >= 2 && ((s[0] as int == 45 && s[1] as int == 45) || (s[0] as int == 47 && s[1] as int == 42))
  }

  /** Which token a text begins with, by the codes of its first characters. */
  lemma TokenByCodes(s: string)
    requires s != []
    ensures var c, t := s[0] as int, FirstPiece(s).token;
      && (t == None <==> QuoteCode(s[0]) || CommentCodes(s))
      && (t == Some(TkWhitespace) <==> c in {9, 10, 12, 13, 32})
      && (t == Some(TkSemi) <==> c == 59)
      && (t != None && !(WordCode(s[0]) && c > 57) ==> t.value in {TkWhitespace, TkSemi, TkOther})
      && (WordCode(s[0]) && c > 57 ==> t == Some(Keyword(s[..FirstPiece(s).len])))
  {
    hide Keyword, Through, ThroughComment, Spells;
    KeywordExactly(s[..FirstPiece(s).len]);
    assert '\n' as int == 10 && '\t' as int == 9 && '\r' as int == 13;
  }

  /** How far its first piece goes: a word to the last character that belongs to it, a quoted region and a
      line comment to the first character that ends them, or else to the end of the text. */
  lemma LengthByCodes(s: string)
    requires s != []
    ensures var c, n := s[0] as int, FirstPiece(s).len;
      && (WordCode(s[0]) && c > 57 ==> (forall i | 0 < i < n :: WordCode(s[i])) && (n < |s| ==> !WordCode(s[n])))
      && (QuoteCode(s[0]) ==> EndsAtFirst(s, 1, n, if c == 91 then ']' else s[0]))
      && (CommentCodes(s) && c == 45 ==> EndsAtFirst(s, 2, n, 10 as char))
      && (!QuoteCode(s[0]) && !CommentCodes(s) && !(WordCode(s[0]) && c > 57) ==> n == 1)
  {
    hide Keyword, Through, ThroughComment, WordLength, EndsAtFirst;
    var rest := s[1..];
    assert '\n' == 10 as char;
    assert forall i | 0 < i < |s| :: s[i] == rest[i - 1];
    ThroughEnds(rest, Closing(s[0]));
    EndsShifted(s, 1, Through(rest, Closing(s[0])), Closing(s[0]));
    if rest != [] {
      assert rest[1..] == s[2..];
      ThroughEnds(s[2..], '\n');
      EndsShifted(s, 2, Through(s[2..], '\n'), '\n');
    }
  }

  lemma EndsShifted(s: string, k: nat, n: nat, stop: char)
    requires k <= |s| && EndsAtFirst(s[k..], 0, n, stop)
    ensures EndsAtFirst(s, k, k + n, stop)
  {
    assert forall i | k <= i < |s| :: s[i] == s[k..][i - k];
  }

  /** `n` is just past the first `stop` at or after `from`, or the length if there is none. */
  predicate EndsAtFirst(s: string, from: nat, n: nat, stop: char) {
    && from <= n <= |s|
    && (forall i | from <= i < n - 1 :: s[i] != stop)
    && (n < |s| ==> n > from && s[n - 1] == stop)
  }

  lemma {:induction false} ThroughEnds(s: string, stop: char)
    ensures EndsAtFirst(s, 0, Through(s, stop), stop)
  {
    if s != [] && s[0] != stop {
      ThroughEnds(s[1..], stop);
      assert forall i | 0 < i < |s| :: s[i] == s[1..][i - 1];
    }
  }

  function Made(p: Piece): seq<Token> {
    if p.token.Some? then [p.token.value] else []
  }

  function Tokens(s: string): seq<Token> {
    if s == [] then [] else Made(FirstPiece(s)) + Tokens(s[FirstPiece(s).len..])
  }

  lemma NoTokens()
    ensures Tokens([]) == []
  {
  }

  lemma TokensUnfold(s: string)
    requires s != []
    ensures Tokens(s) == Made(FirstPiece(s)) + Tokens(s[FirstPiece(s).len..])
  {
  }

  // ----- the automaton -----

  function Transition(s: ReadState, t: Token): ReadState {
    match s
    case Invalid =>
      (match t
       case TkSemi => Start
       case TkWhitespace => Invalid
       case TkExplain => Explain
       case TkCreate => Create
       case _ => Normal)
    case Start =>
      (match t
       case TkSemi | TkWhitespace => Start
       case TkExplain => Explain
       case TkCreate => Create
       case _ => Normal)
    case Normal => if t == TkSemi then Start else Normal
    case Explain =>
      (match t
       case TkSemi => Start
       case TkWhitespace | TkOther => Explain
       case TkCreate => Create
       case _ => Normal)
    case Create =>
      (match t
       case TkSemi => Start
       case TkWhitespace | TkTemp => Create
       case TkTrigger => Trigger
       case _ => Normal)
    case Trigger => if t == TkSemi then Semi else Trigger
    case Semi =>
      (match t
       case TkSemi | TkWhitespace => Semi
       case TkEnd => End
       case _ => Trigger)
    case End =>
      (match t
       case TkSemi => Start
       case TkWhitespace => End
       case _ => Trigger)
  }

  function Fold(s: ReadState, ts: seq<Token>): ReadState {
    if ts == [] then s else Transition(Fold(s, ts[..|ts| - 1]), ts[|ts| - 1])
  }

  // ----- the program -----

  lemma DropTwice(s: string, a: nat, b: nat)
    requires a + b <= |s|
    ensures s[a..][b..] == s[a + b..]
    ensures a == 1 ==> [s[0]] + s[1..][..b] == s[..1 + b]
  {
  }

  class Tokenizer {
    var chars: string

    constructor (sql: string)
      ensures chars == sql
    {
      chars := sql;
    }

    method ReadKeyword(first: char) returns (t: Token)
      modifies this
      ensures var n := WordLength(old(chars)); t == Keyword([first] + old(chars)[..n]) && chars == old(chars)[n..]
    {
      var n := WordLength(chars);
      t := Keyword([first] + chars[..n]);
      chars := chars[n..];
    }

    /** One turn of the loop in `Iterator::next`: consumes a piece, and gives its token if it makes one. */
    method NextPiece() returns (r: Option<Token>)
      requires chars != []
      modifies this
      ensures var p := FirstPiece(old(chars)); r == p.token && chars == old(chars)[p.len..]
    {
      hide Through, ThroughComment, WordLength, Keyword, IsQuote, IsWhitespace, IsWordStart, IsWordPart, Closing;
      ghost var s := chars;
      var c := chars[0];
      chars := chars[1..];
      if IsQuote(c) {
        var n := Through(chars, Closing(c));
        DropTwice(s, 1, n);
        chars, r := chars[n..], None;
      } else if c == '-' && chars != [] && chars[0] == '-' {
        chars := chars[1..];
        var n := Through(chars, '\n');
        DropTwice(s, 1, 1);
        DropTwice(s, 2, n);
        chars, r := chars[n..], None;
      } else if c == '/' && chars != [] && chars[0] == '*' {
        var n := ThroughComment(chars, false);
        DropTwice(s, 1, n);
        chars, r := chars[n..], None;
      } else if c == ';' {
        r := Some(TkSemi);
      } else if IsWhitespace(c) {
        r := Some(TkWhitespace);
      } else if IsWordStart(c) {
        DropTwice(s, 1, WordLength(chars));
        var t := ReadKeyword(c);
        r := Some(t);
      } else {
        r := Some(TkOther);
      }
    }

    /** `Iterator::next`. */
    method Next() returns (r: Option<Token>)
      modifies this
      ensures r.Some? ==> Tokens(old(chars)) == [r.value] + Tokens(chars) && |chars| < |old(chars)|
      ensures r.None? ==> Tokens(old(chars)) == [] && chars == []
    {
      hide Tokens, FirstPiece;
      NoTokens();
      while chars != []
        invariant Tokens(chars) == Tokens(old(chars)) && |chars| <= |old(chars)|
        decreases |chars|
      {
        TokensUnfold(chars);
        r := NextPiece();
        if r.Some? {
          return;
        }
      }
      r := None;
    }
  }

  class Reader {
    var state: ReadState

    constructor ()
      ensures state == Invalid
    {
      state := Invalid;
    }

    /** `process`: folds the tokens of a text into the state. */
    method Process(sql: string)
      modifies this
      ensures state == Fold(old(state), Tokens(sql))
    {
      hide *;
      var tokenizer := new Tokenizer(sql);
      ghost var done: seq<Token> := [];
      FoldNothing(state);
      var t := tokenizer.Next();
      while t.Some?
        invariant t.Some? ==> Tokens(sql) == done + ([t.value] + Tokens(tokenizer.chars))
        invariant t.None? ==> Tokens(sql) == done
        invariant state == Fold(old(state), done)
        invariant fresh(tokenizer)
        decreases t.Some?, |tokenizer.chars|
      {
        FoldStep(old(state), done, t.value);
        state := Transition(state, t.value);
        done := done + [t.value];
        t := tokenizer.Next();
      }
    }
  }

  lemma FoldNothing(s: ReadState)
    ensures Fold(s, []) == s
  {
  }

  lemma FoldStep(s: ReadState, ts: seq<Token>, t: Token)
    ensures Fold(s, ts + [t]) == Transition(Fold(s, ts), t)
  {
    assert (ts + [t])[..|ts|] == ts;
  }

  lemma {:induction false} FoldAppend(s: ReadState, ts: seq<Token>, us: seq<Token>)
    ensures Fold(s, ts + us) == Fold(Fold(s, ts), us)
  {
    hide Transition;
    if us == [] {
      assert ts + us == ts;
    } else {
      assert (ts + us)[..|ts + us| - 1] == ts + us[..|us| - 1];
      FoldAppend(s, ts, us[..|us| - 1]);
    }
  }

  // ----- when a trigger is complete -----

  /** The last token that is not whitespace is a semicolon. */
  predicate EndsInSemi(ts: seq<Token>) {
    exists i | 0 <= i < |ts| :: ts[i] == TkSemi && forall k | i < k < |ts| :: ts[k] == TkWhitespace
  }

  /** `; (ws|;)* END ws*` */
  predicate EndsInEnd(ts: seq<Token>) {
    exists j | 0 <= j < |ts| ::
      ts[j] == TkEnd && EndsInSemi(ts[..j]) && forall k | j < k < |ts| :: ts[k] == TkWhitespace
  }

  /** `; (ws|;)* END ws* ;` */
  predicate EndsInSemiEndSemi(ts: seq<Token>) {
    ts != [] && ts[|ts| - 1] == TkSemi && EndsInEnd(ts[..|ts| - 1])
  }

  lemma SemiByLast(ts: seq<Token>, t: Token)
    ensures EndsInSemi(ts + [t]) <==> t == TkSemi || (t == TkWhitespace && EndsInSemi(ts))
  {
    var us := ts + [t];
    if EndsInSemi(us) {
      var i :| 0 <= i < |us| && us[i] == TkSemi && forall k | i < k < |us| :: us[k] == TkWhitespace;
      assert us[|ts|] == t;
      assert i < |ts| ==> ts[i] == TkSemi && forall k | i < k < |ts| :: us[k] == ts[k];
    }
    if t == TkSemi {
      assert us[|ts|] == TkSemi;
    } else if t == TkWhitespace && EndsInSemi(ts) {
      var i :| 0 <= i < |ts| && ts[i] == TkSemi && forall k | i < k < |ts| :: ts[k] == TkWhitespace;
      assert us[i] == TkSemi;
    }
  }

  lemma EndByLast(ts: seq<Token>, t: Token)
    ensures EndsInEnd(ts + [t]) <==> (t == TkEnd && EndsInSemi(ts)) || (t == TkWhitespace && EndsInEnd(ts))
  {
    hide EndsInSemi;
    var us := ts + [t];
    if EndsInEnd(us) {
      var j :| 0 <= j < |us| && us[j] == TkEnd && EndsInSemi(us[..j])
               && forall k | j < k < |us| :: us[k] == TkWhitespace;
      assert us[|ts|] == t;
      assert us[..j] == ts[..j];
      assert j == |ts| ==> ts[..j] == ts;
      assert j < |ts| ==> ts[j] == TkEnd && forall k | j < k < |ts| :: us[k] == ts[k];
    }
    if t == TkEnd && EndsInSemi(ts) {
      assert us[|ts|] == TkEnd && us[..|ts|] == ts;
    } else if t == TkWhitespace && EndsInEnd(ts) {
      var j :| 0 <= j < |ts| && ts[j] == TkEnd && EndsInSemi(ts[..j])
               && forall k | j < k < |ts| :: ts[k] == TkWhitespace;
      assert us[j] == TkEnd && us[..j] == ts[..j];
    }
  }

  /** No proper prefix of the tokens has completed the trigger. */
  predicate StillInside(ts: seq<Token>) {
    forall k | 0 <= k < |ts| :: Fold(Trigger, ts[..k]) != Start
  }

  /** The state that the end of the tokens of a trigger calls for. */
  function InTrigger(ts: seq<Token>): ReadState {
    if EndsInSemiEndSemi(ts) then Start
    else if EndsInSemi(ts) then Semi
    else if EndsInEnd(ts) then End
    else Trigger
  }

  /** Inside a trigger, the state says which part of the closing pattern the tokens end in. */
  lemma {:induction false} TriggerStates(ts: seq<Token>)
    requires StillInside(ts)
    ensures Fold(Trigger, ts) == InTrigger(ts)
  {
    if ts == [] {
      FoldNothing(Trigger);
    } else {
      hide InTrigger, Fold;
      var front, t := ts[..|ts| - 1], ts[|ts| - 1];
      InsidePrefix(ts, |front|);
      TriggerStates(front);
      assert Fold(Trigger, ts[..|front|]) != Start;
      assert ts == front + [t];
      FoldStep(Trigger, front, t);
      TriggerStep(front, t);
    }
  }

  lemma TriggerStep(front: seq<Token>, t: Token)
    requires InTrigger(front) != Start
    ensures InTrigger(front + [t]) == Transition(InTrigger(front), t)
  {
    hide EndsInSemi, EndsInEnd;
    assert (front + [t])[..|front|] == front;
    SemiByLast(front, t);
    EndByLast(front, t);
    SemiIsNotEnd(front);
  }

  lemma SemiIsNotEnd(ts: seq<Token>)
    ensures !(EndsInSemi(ts) && EndsInEnd(ts))
  {
  }

  /** A trigger is complete for the first time exactly when its tokens end in `; END ;`, with whitespace and
      semicolons before END and whitespace after it, for the first time. */
  lemma TriggerCompletesExactly(ts: seq<Token>)
    ensures Fold(Trigger, ts) == Start && StillInside(ts)
       <==> EndsInSemiEndSemi(ts) && forall k | 0 <= k < |ts| :: !EndsInSemiEndSemi(ts[..k])
  {
    hide EndsInSemiEndSemi, Fold;
    if StillInside(ts) {
      TriggerStates(ts);
      forall k | 0 <= k < |ts|
        ensures !EndsInSemiEndSemi(ts[..k])
      {
        InsidePrefix(ts, k);
        TriggerStates(ts[..k]);
      }
    } else {
      var k := FirstStart(ts, |ts|);
      TriggerStates(ts[..k]);
    }
  }

  lemma InsidePrefix(ts: seq<Token>, k: nat)
    requires StillInside(ts) && k <= |ts|
    ensures StillInside(ts[..k])
  {
    assert forall i | 0 <= i < k :: ts[..k][..i] == ts[..i];
  }

  /** The first proper prefix that reaches the complete state. */
  lemma {:induction false} FirstStart(ts: seq<Token>, n: nat) returns (k: nat)
    requires n <= |ts| && exists i | 0 <= i < n :: Fold(Trigger, ts[..i]) == Start
    ensures k < n && Fold(Trigger, ts[..k]) == Start && StillInside(ts[..k])
  {
    if forall i | 0 <= i < n - 1 :: Fold(Trigger, ts[..i]) != Start {
      k := n - 1;
      assert forall i | 0 <= i < k :: ts[..k][..i] == ts[..i];
    } else {
      k := FirstStart(ts, n - 1);
    }
  }

  // ----- what opens a trigger -----

  predicate AllBlank(ts: seq<Token>) {
    forall k | 0 <= k < |ts| :: ts[k] == TkWhitespace
  }

  /** `ws* EXPLAIN (ws|other)*` */
  predicate BeginsExplain(ts: seq<Token>) {
    exists i | 0 <= i < |ts| ::
      ts[i] == TkExplain && AllBlank(ts[..i]) && forall k | i < k < |ts| :: ts[k] == TkWhitespace || ts[k] == TkOther
  }

  /** `ws* CREATE (ws|TEMP)*`, or the same after `ws* EXPLAIN (ws|other)*` */
  predicate BeginsCreate(ts: seq<Token>) {
    exists i | 0 <= i < |ts| ::
      && ts[i] == TkCreate && (AllBlank(ts[..i]) || BeginsExplain(ts[..i]))
      && forall k | i < k < |ts| :: ts[k] == TkWhitespace || ts[k] == TkTemp
  }

  predicate OpensTrigger(ts: seq<Token>) {
    ts != [] && ts[|ts| - 1] == TkTrigger && BeginsCreate(ts[..|ts| - 1])
  }

  lemma BlankByLast(ts: seq<Token>, t: Token)
    ensures AllBlank(ts + [t]) <==> AllBlank(ts) && t == TkWhitespace
  {
    var us := ts + [t];
    assert us[|ts|] == t;
    assert forall k | 0 <= k < |ts| :: us[k] == ts[k];
  }

  lemma ExplainByLast(ts: seq<Token>, t: Token)
    ensures BeginsExplain(ts + [t])
       <==> (t == TkExplain && AllBlank(ts)) || ((t == TkWhitespace || t == TkOther) && BeginsExplain(ts))
  {
    hide AllBlank;
    var us := ts + [t];
    if BeginsExplain(us) {
      var i :| 0 <= i < |us| && us[i] == TkExplain && AllBlank(us[..i])
               && forall k | i < k < |us| :: us[k] == TkWhitespace || us[k] == TkOther;
      assert us[|ts|] == t && us[..i] == ts[..i];
      assert i == |ts| ==> ts[..i] == ts;
      assert i < |ts| ==> ts[i] == TkExplain && forall k | i < k < |ts| :: us[k] == ts[k];
    }
    if t == TkExplain && AllBlank(ts) {
      assert us[|ts|] == TkExplain && us[..|ts|] == ts;
    } else if (t == TkWhitespace || t == TkOther) && BeginsExplain(ts) {
      var i :| 0 <= i < |ts| && ts[i] == TkExplain && AllBlank(ts[..i])
               && forall k | i < k < |ts| :: ts[k] == TkWhitespace || ts[k] == TkOther;
      assert us[i] == TkExplain && us[..i] == ts[..i];
    }
  }

  lemma CreateByLast(ts: seq<Token>, t: Token)
    ensures BeginsCreate(ts + [t])
       <==> (t == TkCreate && (AllBlank(ts) || BeginsExplain(ts)))
            || ((t == TkWhitespace || t == TkTemp) && BeginsCreate(ts))
  {
    hide AllBlank, BeginsExplain;
    var us := ts + [t];
    if BeginsCreate(us) {
      var i :| 0 <= i < |us| && us[i] == TkCreate && (AllBlank(us[..i]) || BeginsExplain(us[..i]))
               && forall k | i < k < |us| :: us[k] == TkWhitespace || us[k] == TkTemp;
      assert us[|ts|] == t && us[..i] == ts[..i];
      assert i == |ts| ==> ts[..i] == ts;
      assert i < |ts| ==> ts[i] == TkCreate && forall k | i < k < |ts| :: us[k] == ts[k];
    }
    if t == TkCreate && (AllBlank(ts) || BeginsExplain(ts)) {
      assert us[|ts|] == TkCreate && us[..|ts|] == ts;
    } else if (t == TkWhitespace || t == TkTemp) && BeginsCreate(ts) {
      var i :| 0 <= i < |ts| && ts[i] == TkCreate && (AllBlank(ts[..i]) || BeginsExplain(ts[..i]))
               && forall k | i < k < |ts| :: ts[k] == TkWhitespace || ts[k] == TkTemp;
      assert us[i] == TkCreate && us[..i] == ts[..i];
    }
  }

  lemma BeginningsExclude(ts: seq<Token>)
    ensures !(AllBlank(ts) && BeginsExplain(ts)) && !(AllBlank(ts) && BeginsCreate(ts))
    ensures !(BeginsExplain(ts) && BeginsCreate(ts))
  {
    if BeginsExplain(ts) {
      var j :| 0 <= j < |ts| && ts[j] == TkExplain && AllBlank(ts[..j])
               && forall k | j < k < |ts| :: ts[k] == TkWhitespace || ts[k] == TkOther;
      forall k | 0 <= k < |ts|
        ensures ts[k] != TkCreate
      {
        assert k < j ==> ts[..j][k] == ts[k];
      }
    }
  }

  /** The state that the beginning of a statement calls for. */
  function AtBeginning(ts: seq<Token>, start: ReadState): ReadState {
    if AllBlank(ts) then start
    else if BeginsExplain(ts) then Explain
    else if BeginsCreate(ts) then Create
    else if OpensTrigger(ts) then Trigger
    else Normal
  }

  /** The state inside the first statement of a text says how its tokens began; in particular a trigger is
      entered exactly by `CREATE [TEMP] TRIGGER`, possibly explained. */
  lemma {:induction false} OpeningStates(ts: seq<Token>, start: ReadState)
    requires (start == Invalid || start == Start) && TkSemi !in ts
    requires forall k | 0 <= k < |ts| :: !OpensTrigger(ts[..k])
    ensures Fold(start, ts) == AtBeginning(ts, start)
  {
    hide AtBeginning, Fold, OpensTrigger, Transition;
    if ts == [] {
      FoldNothing(start);
      NothingYet(start);
    } else {
      var front, t := ts[..|ts| - 1], ts[|ts| - 1];
      assert forall k | 0 <= k < |front| :: front[..k] == ts[..k];
      OpeningStates(front, start);
      assert ts == front + [t] && t != TkSemi && !OpensTrigger(ts[..|front|]);
      FoldStep(start, front, t);
      BeginningStep(front, t, start);
    }
  }

  lemma NothingYet(start: ReadState)
    ensures AtBeginning([], start) == start
  {
  }

  lemma BeginningStep(front: seq<Token>, t: Token, start: ReadState)
    requires (start == Invalid || start == Start) && t != TkSemi && !OpensTrigger(front)
    ensures AtBeginning(front + [t], start) == Transition(AtBeginning(front, start), t)
  {
    assert (front + [t])[..|front|] == front;
    hide AllBlank, BeginsExplain, BeginsCreate;
    BlankByLast(front, t);
    ExplainByLast(front, t);
    CreateByLast(front, t);
    BeginningsExclude(front);
  }

  // ----- texts without triggers -----

  predicate Ordinary(s: ReadState) {
    s != Trigger && s != Semi && s != End
  }

  /** A statement begins at `i`: at the start or after a semicolon. */
  predicate StatementAt(ts: seq<Token>, i: nat) {
    i <= |ts| && (i == 0 || ts[i - 1] == TkSemi)
  }

  /** No statement of the text begins like a trigger. */
  ghost predicate OpensNoTrigger(ts: seq<Token>) {
    forall i: nat, j: nat | i <= j <= |ts| && StatementAt(ts, i) && TkSemi !in ts[i..j] :: !OpensTrigger(ts[i..j])
  }

  predicate NoSemiFrom(ts: seq<Token>, i: nat) {
    forall j | i <= j < |ts| :: ts[j] != TkSemi
  }

  lemma NoSemiInSlice(ts: seq<Token>, i: nat, j: nat)
    requires i <= j <= |ts|
    ensures NoSemiFrom(ts, i) ==> TkSemi !in ts[i..j] && TkSemi !in ts[i..]
    ensures j == |ts| && TkSemi !in ts[i..j] ==> NoSemiFrom(ts, i)
  {
    assert forall k | i <= k < j :: ts[i..j][k - i] == ts[k];
  }

  /** Where the last statement begins. */
  function LastStart(ts: seq<Token>): (i: nat)
    ensures i <= |ts| && StatementAt(ts, i) && NoSemiFrom(ts, i)
  {
    if ts == [] || ts[|ts| - 1] == TkSemi then |ts| else LastStart(ts[..|ts| - 1])
  }

  /** A prefix of a text without triggers is one, and the whole is one if its last statement so far does
      not open a trigger either. */
  lemma NoTriggerByLast(ts: seq<Token>)
    requires ts != []
    ensures OpensNoTrigger(ts) <==> OpensNoTrigger(ts[..|ts| - 1]) && !OpensTrigger(ts[LastStart(ts)..])
  {
    hide OpensTrigger, LastStart, OpensNoTrigger;
    if OpensNoTrigger(ts) {
      NoTriggerInPrefix(ts, |ts| - 1);
      NoSemiInSlice(ts, LastStart(ts), |ts|);
      NoTriggerHere(ts, LastStart(ts), |ts|);
      assert ts[LastStart(ts)..] == ts[LastStart(ts)..|ts|];
    } else if OpensNoTrigger(ts[..|ts| - 1]) && !OpensTrigger(ts[LastStart(ts)..]) {
      NoTriggerExtended(ts);
    }
  }

  lemma SliceOfPrefix(ts: seq<Token>, n: nat, i: nat, j: nat)
    requires i <= j <= n <= |ts|
    ensures ts[..n][i..j] == ts[i..j]
  {
  }

  lemma NoTriggerHere(ts: seq<Token>, i: nat, j: nat)
    requires OpensNoTrigger(ts) && i <= j <= |ts| && StatementAt(ts, i) && TkSemi !in ts[i..j]
    ensures !OpensTrigger(ts[i..j])
  {
  }

  lemma NoTriggerInPrefix(ts: seq<Token>, n: nat)
    requires OpensNoTrigger(ts) && n <= |ts|
    ensures OpensNoTrigger(ts[..n])
  {
    hide OpensTrigger;
    forall i: nat, j: nat | i <= j <= n && StatementAt(ts[..n], i) && TkSemi !in ts[..n][i..j]
      ensures !OpensTrigger(ts[..n][i..j])
    {
      SliceOfPrefix(ts, n, i, j);
      NoTriggerHere(ts, i, j);
    }
  }

  lemma NoTriggerExtended(ts: seq<Token>)
    requires ts != [] && OpensNoTrigger(ts[..|ts| - 1]) && !OpensTrigger(ts[LastStart(ts)..])
    ensures OpensNoTrigger(ts)
  {
    hide OpensTrigger, LastStart;
    forall i: nat, j: nat | i <= j <= |ts| && StatementAt(ts, i) && TkSemi !in ts[i..j]
      ensures !OpensTrigger(ts[i..j])
    {
      NoTriggerAt(ts, i, j);
    }
  }

  lemma NoTriggerAt(ts: seq<Token>, i: nat, j: nat)
    requires ts != [] && OpensNoTrigger(ts[..|ts| - 1]) && !OpensTrigger(ts[LastStart(ts)..])
    requires i <= j <= |ts| && StatementAt(ts, i) && TkSemi !in ts[i..j]
    ensures !OpensTrigger(ts[i..j])
  {
    hide OpensTrigger, LastStart, OpensNoTrigger;
    if j < |ts| {
      SliceOfPrefix(ts, |ts| - 1, i, j);
      NoTriggerHere(ts[..|ts| - 1], i, j);
    } else {
      NoSemiInSlice(ts, i, j);
      OnlyStart(ts, i);
      assert ts[i..j] == ts[i..];
    }
  }

  lemma OnlyStart(ts: seq<Token>, i: nat)
    requires StatementAt(ts, i) && NoSemiFrom(ts, i)
    ensures i == LastStart(ts)
  {
    hide LastStart;
  }

  /** In a text without triggers a statement begins in the initial or in the complete state. */
  lemma StateAtStart(ts: seq<Token>, i: nat)
    requires StatementAt(ts, i) && (i > 0 ==> Ordinary(Fold(Invalid, ts[..i - 1])))
    ensures Fold(Invalid, ts[..i]) == if i == 0 then Invalid else Start
  {
    if i > 0 {
      assert ts[..i] == ts[..i - 1] + [TkSemi];
      FoldStep(Invalid, ts[..i - 1], TkSemi);
    }
  }

  lemma LastStatementState(ts: seq<Token>)
    requires forall k | 0 <= k < |ts| :: Ordinary(Fold(Invalid, ts[..k]))
    requires forall k | LastStart(ts) <= k < |ts| :: !OpensTrigger(ts[LastStart(ts)..k])
    ensures Ordinary(Fold(Invalid, ts)) <==> !OpensTrigger(ts[LastStart(ts)..])
  {
    hide Fold, AllBlank, BeginsExplain, BeginsCreate, OpensTrigger, LastStart, StatementAt;
    var i := LastStart(ts);
    var last := ts[i..];
    StateAtStart(ts, i);
    assert forall k | 0 <= k < |last| :: last[..k] == ts[i..i + k];
    OpeningStates(last, Fold(Invalid, ts[..i]));
    assert ts == ts[..i] + last;
    FoldAppend(Invalid, ts[..i], last);
    TriggerIsNoBeginning(last);
  }

  lemma TriggerIsNoBeginning(ts: seq<Token>)
    ensures OpensTrigger(ts) ==> !AllBlank(ts) && !BeginsExplain(ts) && !BeginsCreate(ts)
  {
    if ts != [] {
      var front, t := ts[..|ts| - 1], ts[|ts| - 1];
      assert ts == front + [t];
      ExplainByLast(front, t);
      CreateByLast(front, t);
    }
  }

  /** The reader stays out of the trigger states exactly on texts no statement of which opens a trigger. */
  lemma {:induction false} OrdinaryExactly(ts: seq<Token>)
    ensures OpensNoTrigger(ts) <==> forall k | 0 <= k <= |ts| :: Ordinary(Fold(Invalid, ts[..k]))
  {
    if ts == [] {
      assert OpensNoTrigger(ts) by {
        assert forall i: nat, j: nat | i <= j <= |ts| :: !OpensTrigger(ts[i..j]);
      }
      FoldNothing(Invalid);
      assert ts[..0] == [];
    } else {
      hide Fold, OpensTrigger, LastStart, OpensNoTrigger;
      var n := |ts| - 1;
      var front, i := ts[..n], LastStart(ts);
      OrdinaryExactly(front);
      NoTriggerByLast(ts);
      assert forall k | 0 <= k <= n :: front[..k] == ts[..k];
      assert ts[..|ts|] == ts;
      if OpensNoTrigger(front) {
        forall k | i <= k < |ts|
          ensures !OpensTrigger(ts[i..k])
        {
          LastStatementSoFar(ts, k);
        }
        LastStatementState(ts);
      }
    }
  }

  lemma LastStatementSoFar(ts: seq<Token>, k: nat)
    requires ts != [] && OpensNoTrigger(ts[..|ts| - 1]) && LastStart(ts) <= k < |ts|
    ensures !OpensTrigger(ts[LastStart(ts)..k])
  {
    hide OpensTrigger, LastStart, OpensNoTrigger;
    var i, front := LastStart(ts), ts[..|ts| - 1];
    SliceOfPrefix(ts, |front|, i, k);
    assert forall x | x in ts[i..k] :: x in ts[i..];
    NoTriggerHere(front, i, k);
  }

  /** A text no statement of which opens a trigger is complete exactly when its last token apart from
      whitespace is a semicolon. */
  lemma OrdinaryCompletesExactly(ts: seq<Token>)
    requires OpensNoTrigger(ts)
    ensures Fold(Invalid, ts) == Start <==> EndsInSemi(ts)
  {
    hide OpensNoTrigger, Fold, EndsInSemi;
    OrdinaryExactly(ts);
    CompleteWhileOrdinary(ts);
  }

  lemma {:induction false} CompleteWhileOrdinary(ts: seq<Token>)
    requires forall k | 0 <= k <= |ts| :: Ordinary(Fold(Invalid, ts[..k]))
    ensures Fold(Invalid, ts) == Start <==> EndsInSemi(ts)
  {
    assert ts[..|ts|] == ts;
    if ts != [] {
      var front, t := ts[..|ts| - 1], ts[|ts| - 1];
      assert forall k | 0 <= k <= |front| :: front[..k] == ts[..k];
      CompleteWhileOrdinary(front);
      assert ts == front + [t];
      hide EndsInSemi;
      SemiByLast(front, t);
    }
  }
}
