/** sqlite3_complete: the tokens of a text, as scanning finds them. */
module CompleteText {
  import opened CompleteStates

  predicate IsSpace(c: char) {
    c == ' ' || c == '\r' || c == '\t' || c == '\n' || c == 12 as char
  }

  // IdChar: a letter, a digit, _ or $, or a byte above 127
  predicate IdChar(c: char) {
    'a' <= c <= 'z' || 'A' <= c <= 'Z' || '0' <= c <= '9' || c == '_' || c == '$' || c >= 128 as char
  }

  function Lower(c: char): char {
    if 'A' <= c <= 'Z' then c + 32 as char else c
  }

  // sqlite3StrNICmp finds no difference.
  predicate SameIgnoringCase(a: string, b: string) {
    |a| == |b| && forall i :: 0 <= i < |a| ==> Lower(a[i]) == Lower(b[i])
  }

  function Keyword(word: string): Token {
    if SameIgnoringCase(word, "create") then CREATE
    else if SameIgnoringCase(word, "trigger") then TRIGGER
    else if SameIgnoringCase(word, "temp") || SameIgnoringCase(word, "temporary") then TEMP
    else if SameIgnoringCase(word, "end") then END
    else if SameIgnoringCase(word, "explain") then EXPLAIN
    else OTHER
  }

  // The first place from i on with character c, or the end.
  function Find(s: string, c: char, i: nat): (j: nat)
    requires i <= |s|
    ensures i <= j <= |s| && (j < |s| ==> s[j] == c) && forall k :: i <= k < j ==> s[k] != c
    decreases |s| - i
  {
    if i == |s| || s[i] == c then i else Find(s, c, i + 1)
  }

  predicate ClosesAt(s: string, j: nat) {
    j + 1 < |s| && s[j] == '*' && s[j + 1] == '/'
  }

  // The first place from i on where a comment closes, or the end.
  function FindClose(s: string, i: nat): (j: nat)
    requires i <= |s|
    ensures i <= j <= |s| && (j < |s| ==> ClosesAt(s, j)) && forall k :: i <= k < j ==> !ClosesAt(s, k)
    decreases |s| - i
  {
    if i == |s| || ClosesAt(s, i) then i else FindClose(s, i + 1)
  }

  // The end of the identifier characters that begin at i.
  function WordEnd(s: string, i: nat): (j: nat)
    requires i <= |s|
    ensures i <= j <= |s| && (j < |s| ==> !IdChar(s[j])) && forall k :: i <= k < j ==> IdChar(s[k])
    decreases |s| - i
  {
    if i == |s| || !IdChar(s[i]) then i else WordEnd(s, i + 1)
  }

  // A token and the place behind it; a comment that runs to the end of the text; or a quote or comment left open.
  datatype Lexeme = Lexeme(token: Token, next: nat) | ToEnd | Unclosed

  // The place behind a closing character, if there is one.
  function Closed(s: string, j: nat, len: nat, token: Token): Lexeme {
    if j < |s| then Lexeme(token, j + len) else Unclosed
  }

  /** The lexeme that begins at place i. */
  function NextLexeme(s: string, i: nat): (l: Lexeme)
    requires i < |s|
    ensures l.Lexeme? ==> i < l.next <= |s|
  {
    var c := s[i];
    var c1 := if i + 1 < |s| then s[i + 1] else 0 as char;
    if c == ';' then Lexeme(SEMI, i + 1)
    else if IsSpace(c) then Lexeme(WS, i + 1)
    else if c == '/' && c1 == '*' then Closed(s, FindClose(s, i + 2), 2, WS)
    else if c == '-' && c1 == '-' then
      var j := Find(s, '\n', i);
      if j < |s| then Lexeme(WS, j + 1) else ToEnd
    else if c == '[' then Closed(s, Find(s, ']', i + 1), 1, OTHER)
    else if c == '`' || c == '"' || c == '\'' then Closed(s, Find(s, c, i + 1), 1, OTHER)
    else if IdChar(c) then
      var j := WordEnd(s, i + 1);
      Lexeme(Keyword(s[i..j]), j)
    else Lexeme(OTHER, i + 1)
  }

  datatype Lexed = Open | Tokens(ts: Tokens)

  /** The tokens of the text from place i on, or Open if a quote, a bracket or a block comment is not closed. */
  function Lex(s: string, i: nat): Lexed
    requires i <= |s|
    decreases |s| - i
  {
    if i == |s| then Tokens([])
    else
      match NextLexeme(s, i)
      case ToEnd => Tokens([])
      case Unclosed => Open
      case Lexeme(token, next) =>
        match Lex(s, next)
        case Open => Open
        case Tokens(ts) => Tokens([token] + ts)
  }

  // What the rest of the text from place i makes of a state.
  ghost predicate Accepts(s: string, i: nat, state: nat)
    requires i <= |s| && state < 8
  {
    var l := Lex(s, i);
    l.Tokens? && Run(state, l.ts) == START
  }

  lemma AcceptsToken(s: string, i: nat, state: nat)
    requires i < |s| && state < 8 && NextLexeme(s, i).Lexeme?
    ensures var l := NextLexeme(s, i); Accepts(s, i, state) <==> Accepts(s, l.next, Trans(state, l.token))
  {
    var l := NextLexeme(s, i);
    hide NextLexeme, Trans;
    if Lex(s, l.next).Tokens? {
      var ts := Lex(s, l.next).ts;
      assert [l.token][..0] == [] && Run(state, [l.token]) == Trans(state, l.token);
      RunSplit(state, [l.token], ts);
    }
  }

  lemma AcceptsEnd(s: string, i: nat, state: nat)
    requires i <= |s| && state < 8
    ensures i == |s| || NextLexeme(s, i) == ToEnd ==> (Accepts(s, i, state) <==> state == START)
    ensures i < |s| && NextLexeme(s, i) == Unclosed ==> !Accepts(s, i, state)
  {
    hide NextLexeme, Trans;
  }
}
