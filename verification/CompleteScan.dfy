/** The loops of sqlite3_complete that scan a text. */
module CompleteScan {
  import opened CompleteStates
  import opened CompleteText
  import opened CompleteLexer

  /** The scanning loops. */

  method ScanTo(zSql: string, i0: nat, c: char) returns (i: nat)
    requires i0 <= |zSql|
    ensures i == Find(zSql, c, i0)
  {
    i := i0;
    while i < |zSql| && zSql[i] != c
      invariant i0 <= i <= |zSql| && Find(zSql, c, i0) == Find(zSql, c, i)
    {
      i := i + 1;
    }
  }

  method ScanComment(zSql: string, i0: nat) returns (i: nat)
    requires i0 <= |zSql|
    ensures i == FindClose(zSql, i0)
  {
    i := i0;
    while i < |zSql| && (zSql[i] != '*' || i + 1 == |zSql| || zSql[i + 1] != '/')
      invariant i0 <= i <= |zSql| && FindClose(zSql, i0) == FindClose(zSql, i)
    {
      i := i + 1;
    }
  }

  method ScanWord(zSql: string, i0: nat) returns (nId: nat)
    requires i0 < |zSql|
    ensures i0 + nId == WordEnd(zSql, i0 + 1)
  {
    nId := 1;
    while i0 + nId < |zSql| && IdChar(zSql[i0 + nId])
      invariant i0 + nId <= |zSql| && WordEnd(zSql, i0 + 1) == WordEnd(zSql, i0 + nId)
      decreases |zSql| - i0 - nId
    {
      nId := nId + 1;
    }
  }

  // One turn of the switch on the next character
  method ReadLexeme(zSql: string, i: nat) returns (l: Lexeme)
    requires i < |zSql|
    ensures l == NextLexeme(zSql, i)
  {
    hide SameIgnoringCase;
    var c := zSql[i];
    if c == ';' {
      l := Lexeme(SEMI, i + 1);
    } else if IsSpace(c) {
      l := Lexeme(WS, i + 1);
    } else if c == '/' && i + 1 < |zSql| && zSql[i + 1] == '*' {
      var j := ScanComment(zSql, i + 2);
      l := if j == |zSql| then Unclosed else Lexeme(WS, j + 2);
    } else if c == '-' && i + 1 < |zSql| && zSql[i + 1] == '-' {
      var j := ScanTo(zSql, i, '\n');
      l := if j == |zSql| then ToEnd else Lexeme(WS, j + 1);
    } else if c == '[' {
      var j := ScanTo(zSql, i + 1, ']');
      l := if j == |zSql| then Unclosed else Lexeme(OTHER, j + 1);
    } else if c == '`' || c == '"' || c == '\'' {
      var j := ScanTo(zSql, i + 1, c);
      l := if j == |zSql| then Unclosed else Lexeme(OTHER, j + 1);
    } else if IdChar(c) {
      var nId := ScanWord(zSql, i);
      l := Lexeme(Keyword(zSql[i..i + nId]), i + nId);
    } else {
      l := Lexeme(OTHER, i + 1);
    }
  }

  /** sqlite3_complete: true exactly when the text can be cut into pieces, every quote, bracket and block comment being
      closed, and the tokens, whitespace and comments left out, are a nonempty sequence of finished statements. */
  method Complete(zSql: string) returns (r: bool)
    ensures r <==> exists ts :: Splits(zSql, ts) && Statements(Strip(ts))
  {
    hide NextLexeme, Trans, Run, Lex, Statements, Strip, Splits;
    LexedPieces(zSql);
    var state: nat, i: nat := INVALID, 0;
    CompleteMeans(zSql);
    while i < |zSql|
      invariant 0 <= i <= |zSql| && state < 8 && Accepts(zSql, i, state) == Accepts(zSql, 0, INVALID)
      decreases |zSql| - i
    {
      var l := ReadLexeme(zSql, i);
      AcceptsEnd(zSql, i, state);
      match l {
        case Unclosed => return false;
        case ToEnd => return state == START;
        case Lexeme(token, next) =>
          AcceptsToken(zSql, i, state);
          state, i := Trans(state, token), next;
      }
    }
    AcceptsEnd(zSql, i, state);
    r := state == START;
  }

  lemma CompleteMeans(s: string)
    ensures Accepts(s, 0, INVALID) <==> Lex(s, 0).Tokens? && Statements(Strip(Lex(s, 0).ts))
  {
    hide Run, Lex, Statements, Strip;
    if Lex(s, 0).Tokens? { MachineDecides(Lex(s, 0).ts); }
  }
}
