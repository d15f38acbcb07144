/** The tokens of a text, said without scanning: how it can be cut into pieces,
    and what a piece looks like. */
module CompleteLexer {
  import opened CompleteStates
  import opened CompleteText

  function LowerCase(word: string): (r: string)
    ensures |r| == |word|
  {
    seq(|word|, i requires 0 <= i < |word| => Lower(word[i]))
  }

  lemma SameMeans(word: string, small: string)
    requires forall i :: 0 <= i < |small| ==> 'a' <= small[i] <= 'z'
    ensures SameIgnoringCase(word, small) <==> LowerCase(word) == small
  {
    if SameIgnoringCase(word, small) {
      forall i | 0 <= i < |word| ensures LowerCase(word)[i] == small[i] {
        assert Lower(word[i]) == Lower(small[i]);
      }
    }
  }

  /** Which words are keywords, in any mixture of cases. */
  lemma {:induction false} KeywordMeans(word: string)
    ensures var t, w := Keyword(word), LowerCase(word);
            && (t == CREATE <==> w == "create") && (t == TRIGGER <==> w == "trigger")
            && (t == TEMP <==> w == "temp" || w == "temporary") && (t == END <==> w == "end")
            && (t == EXPLAIN <==> w == "explain")
            && (t == OTHER <==> w !in {"create", "trigger", "temp", "temporary", "end", "explain"})
    ensures LowerCase("CrEaTe") == "create" && LowerCase("Temp_1") == "temp_1"
  {
    SameMeans(word, "create");
    SameMeans(word, "trigger");
    SameMeans(word, "temp");
    SameMeans(word, "temporary");
    SameMeans(word, "end");
    SameMeans(word, "explain");
    Distinct(LowerCase(word));
    hide SameIgnoringCase, LowerCase;
    assert LowerCase("CrEaTe") == "create" && LowerCase("Temp_1") == "temp_1" by { Mixed(); }
  }

  lemma Mixed()
    ensures LowerCase("CrEaTe") == "create" && LowerCase("Temp_1") == "temp_1"
  {
  }

  // No word is two of them.
  lemma Distinct(w: string)
    ensures w == "create" ==> w != "explain" && w != "trigger" && |w| == 6
    ensures w == "trigger" ==> w != "explain" && |w| == 7
    ensures (w == "temp" ==> |w| == 4) && (w == "temporary" ==> |w| == 9) && (w == "end" ==> |w| == 3)
    ensures w == "explain" ==> w != "trigger" && |w| == 7
  {
    if w == "explain" { assert w[0] == 'e'; }
  }

  /** Pieces. */

  predicate Lacks(text: string, c: char) {
    forall i :: 0 <= i < |text| ==> text[i] != c
  }

  // A comment from its opening to its first closing pair.
  predicate IsBlockComment(text: string) {
    && |text| >= 4 && text[..2] == "/*" && ClosesAt(text, |text| - 2)
    && forall i :: 2 <= i < |text| - 2 ==> !ClosesAt(text, i)
  }

  predicate IsLineComment(text: string) {
    |text| >= 3 && text[..2] == "--" && text[|text| - 1] == '\n' && Lacks(text[..|text| - 1], '\n')
  }

  // Text between two closing characters.
  predicate IsQuoted(text: string) {
    && |text| >= 2
    && var close := if text[0] == '[' then ']' else text[0];
       && text[0] in {'[', '`', '"', '\''} && text[|text| - 1] == close && Lacks(text[1..|text| - 1], close)
  }

  // By their codes: space, tab, newline, form feed, carriage return.
  predicate Blank(c: char) {
    c as int in {32, 9, 10, 12, 13}
  }

  // By their codes: letters, digits, _ and $, and everything above 127.
  predicate WordChar(c: char) {
    var i := c as int;
    65 <= i <= 90 || 97 <= i <= 122 || 48 <= i <= 57 || i == 95 || i == 36 || i > 127
  }

  predicate IsWord(text: string) {
    |text| > 0 && forall i :: 0 <= i < |text| ==> WordChar(text[i])
  }

  // A character that stands for itself, before the rest of the text.
  predicate IsOperator(c: char, rest: string) {
    && c != ';' && !Blank(c) && !WordChar(c) && c !in {'[', '`', '"', '\''}
    && (c == '/' ==> rest == "" || rest[0] != '*') && (c == '-' ==> rest == "" || rest[0] != '-')
  }

  // The text, followed by rest, is a piece with this token.
  predicate Piece(text: string, rest: string, t: Token) {
    || (text == ";" && t == SEMI)
    || (|text| == 1 && Blank(text[0]) && t == WS)
    || ((IsBlockComment(text) || IsLineComment(text)) && t == WS)
    || (IsQuoted(text) && t == OTHER)
    || (IsWord(text) && (rest == "" || !WordChar(rest[0])) && t == Keyword(text))
    || (|text| == 1 && IsOperator(text[0], rest) && t == OTHER)
  }

  // A comment that the end of the text ends.
  predicate LastComment(s: string) {
    |s| >= 2 && s[..2] == "--" && Lacks(s, '\n')
  }

  /** The text can be cut into pieces with these tokens, up to a comment that its end ends. */
  ghost predicate Splits(s: string, ts: Tokens)
    decreases |ts|
  {
    if ts == [] then s == "" || LastComment(s)
    else exists n :: 0 < n <= |s| && Piece(s[..n], s[n..], ts[0]) && Splits(s[n..], ts[1..])
  }

  // The scans from the beginning of a text find the end of a piece.

  lemma FoundAt(s: string, c: char, i: nat, j: nat)
    requires i <= j < |s| && s[j] == c && Lacks(s[i..j], c)
    ensures Find(s, c, i) == j
  {
    assert forall k :: i <= k < j ==> s[k] == s[i..j][k - i];
  }

  lemma NotFound(s: string, c: char, i: nat)
    requires i <= |s| && Lacks(s[i..], c)
    ensures Find(s, c, i) == |s|
  {
    if Find(s, c, i) < |s| { assert s[Find(s, c, i)] == s[i..][Find(s, c, i) - i]; }
  }

  lemma BetweenLacks(s: string, c: char, i: nat)
    requires i <= |s|
    ensures Lacks(s[i..Find(s, c, i)], c)
  {
  }

  lemma BlockPiece(s: string, n: nat)
    requires |s| >= 2 && s[..2] == "/*" && 4 <= n <= |s|
    ensures IsBlockComment(s[..n]) <==> FindClose(s, 2) == n - 2
  {
    var text, j := s[..n], FindClose(s, 2);
    assert text[..2] == "/*";
    assert forall k :: 0 <= k < n - 1 ==> (ClosesAt(text, k) <==> ClosesAt(s, k));
  }

  lemma LineIs(s: string, n: nat)
    requires |s| >= 2 && s[..2] == "--" && 3 <= n <= |s|
    ensures IsLineComment(s[..n]) <==> s[n - 1] == '\n' && Lacks(s[0..n - 1], '\n')
  {
    hide Lacks;
    assert s[..n][..2] == s[..2] && s[..n][..n - 1] == s[0..n - 1];
  }

  lemma LinePiece(s: string, n: nat)
    requires |s| >= 2 && s[..2] == "--" && 3 <= n <= |s|
    ensures IsLineComment(s[..n]) <==> Find(s, '\n', 0) == n - 1
  {
    hide Find, Lacks, IsLineComment;
    LineIs(s, n);
    BetweenLacks(s, '\n', 0);
    if IsLineComment(s[..n]) { FoundAt(s, '\n', 0, n - 1); }
  }

  lemma QuotedIs(s: string, n: nat, close: char)
    requires s != "" && s[0] in {'[', '`', '"', '\''} && 2 <= n <= |s| && close == if s[0] == '[' then ']' else s[0]
    ensures IsQuoted(s[..n]) <==> s[n - 1] == close && Lacks(s[1..n - 1], close)
  {
    hide Lacks;
    assert s[..n][1..n - 1] == s[1..n - 1];
  }

  lemma QuotedPiece(s: string, n: nat)
    requires s != "" && s[0] in {'[', '`', '"', '\''} && 2 <= n <= |s|
    ensures IsQuoted(s[..n]) <==> Find(s, if s[0] == '[' then ']' else s[0], 1) == n - 1
  {
    hide Find, Lacks, IsQuoted;
    var close := if s[0] == '[' then ']' else s[0];
    QuotedIs(s, n, close);
    BetweenLacks(s, close, 1);
    if IsQuoted(s[..n]) { FoundAt(s, close, 1, n - 1); }
  }

  lemma WordPiece(s: string, n: nat)
    requires s != "" && IdChar(s[0]) && 1 <= n <= |s|
    ensures IsWord(s[..n]) && (s[n..] == "" || !IdChar(s[n..][0])) <==> WordEnd(s, 1) == n
  {
    var text, j := s[..n], WordEnd(s, 1);
    assert forall k :: 0 <= k < n ==> text[k] == s[k];
    if j < n { assert !IdChar(text[j]); }
    if j == n && n < |s| { assert s[n..][0] == s[n]; }
    if n < j { assert s[n..][0] == s[n] && IdChar(s[n]); }
  }

  lemma CommentEnd(s: string)
    requires |s| >= 2 && s[..2] == "--"
    ensures LastComment(s) <==> Find(s, '\n', 0) == |s|
  {
    assert s[0..] == s && s[0..|s|] == s;
    BetweenLacks(s, '\n', 0);
    if LastComment(s) { NotFound(s, '\n', 0); }
  }

  // The first two characters decide what kind of piece there is.
  datatype Sort = Semi | Space | Block | Line | Quoted | Word | Operator

  function SortOf(s: string): Sort
    requires s != ""
  {
    if s[0] == ';' then Semi
    else if IsSpace(s[0]) then Space
    else if |s| >= 2 && s[..2] == "/*" then Block
    else if |s| >= 2 && s[..2] == "--" then Line
    else if s[0] in {'[', '`', '"', '\''} then Quoted
    else if IdChar(s[0]) then Word
    else Operator
  }

  // A piece of this sort, n characters long.
  predicate PieceOf(s: string, n: nat, t: Token)
    requires 0 < n <= |s|
  {
    match SortOf(s)
    case Semi => n == 1 && t == SEMI
    case Space => n == 1 && t == WS
    case Block => IsBlockComment(s[..n]) && t == WS
    case Line => IsLineComment(s[..n]) && t == WS
    case Quoted => IsQuoted(s[..n]) && t == OTHER
    case Word => IsWord(s[..n]) && (s[n..] == "" || !IdChar(s[n..][0])) && t == Keyword(s[..n])
    case Operator => n == 1 && t == OTHER
  }

  lemma PieceSort(s: string, n: nat, t: Token)
    requires 0 < n <= |s|
    ensures Piece(s[..n], s[n..], t) <==> PieceOf(s, n, t)
  {
    hide Keyword;
    var text, rest := s[..n], s[n..];
    assert text[0] == s[0] && (n >= 2 ==> text[..2] == s[..2]) && (n == 1 && |s| >= 2 ==> rest[0] == s[1]);
    assert IsBlockComment(text) ==> text[0] == '/' && SortOf(s) == Block;
    assert IsLineComment(text) ==> text[0] == '-' && SortOf(s) == Line;
    assert IsWord(text) ==> IdChar(text[0]);
    assert n == 1 ==> text == [s[0]];
  }

  lemma NextComment(s: string, n: nat, t: Token)
    requires 0 < n <= |s| && SortOf(s) in {Block, Line}
    ensures PieceOf(s, n, t) <==> NextLexeme(s, 0) == Lexeme(t, n)
  {
    hide Keyword, IsBlockComment, IsLineComment, IdChar;
    if SortOf(s) == Block {
      if n >= 4 { BlockPiece(s, n); } else { ShortBlock(s, n); }
    } else {
      if n >= 3 { LinePiece(s, n); } else { ShortLine(s, n); }
    }
  }

  lemma NextQuoted(s: string, n: nat, t: Token)
    requires 0 < n <= |s| && SortOf(s) == Quoted
    ensures PieceOf(s, n, t) <==> NextLexeme(s, 0) == Lexeme(t, n)
  {
    hide Keyword, IsQuoted, IdChar;
    if n >= 2 { QuotedPiece(s, n); } else { ShortQuoted(s, n); }
  }

  lemma NextWord(s: string, n: nat, t: Token)
    requires 0 < n <= |s| && SortOf(s) == Word
    ensures PieceOf(s, n, t) <==> NextLexeme(s, 0) == Lexeme(t, n)
  {
    hide Keyword, IsWord;
    assert s[0..n] == s[..n];
    WordPiece(s, n);
  }

  lemma NextIs(s: string, n: nat, t: Token)
    requires 0 < n <= |s|
    ensures PieceOf(s, n, t) <==> NextLexeme(s, 0) == Lexeme(t, n)
  {
    match SortOf(s)
    case Block => NextComment(s, n, t);
    case Line => NextComment(s, n, t);
    case Quoted => NextQuoted(s, n, t);
    case Word => NextWord(s, n, t);
    case _ => hide Keyword;
  }

  lemma ShortBlock(s: string, n: nat)
    requires 0 < n <= |s| && n < 4
    ensures !IsBlockComment(s[..n])
  {
  }

  lemma ShortLine(s: string, n: nat)
    requires 0 < n <= |s| && n < 3
    ensures !IsLineComment(s[..n]) && (|s| >= 2 && s[..2] == "--" ==> Find(s, '\n', 0) >= 2)
  {
    hide Find;
    if |s| >= 2 && s[..2] == "--" { assert s[0] == s[..2][0] && s[1] == s[..2][1]; }
  }

  lemma ShortQuoted(s: string, n: nat)
    requires 0 < n <= |s| && n < 2
    ensures !IsQuoted(s[..n])
  {
  }

  lemma EndIs(s: string)
    requires s != ""
    ensures LastComment(s) <==> NextLexeme(s, 0) == ToEnd
  {
    hide Keyword;
    if |s| >= 2 && s[..2] == "--" { CommentEnd(s); }
  }

  // The scans of a part of a text that reaches to its end.

  lemma {:induction false} FindShift(s: string, c: char, i: nat, k: nat)
    requires i + k <= |s|
    ensures Find(s, c, i + k) == i + Find(s[i..], c, k)
    decreases |s| - k
  {
    if i + k < |s| { FindShift(s, c, i, k + 1); }
  }

  lemma {:induction false} FindCloseShift(s: string, i: nat, k: nat)
    requires i + k <= |s|
    ensures FindClose(s, i + k) == i + FindClose(s[i..], k)
    decreases |s| - k
  {
    if i + k < |s| { FindCloseShift(s, i, k + 1); }
  }

  lemma {:induction false} WordEndShift(s: string, i: nat, k: nat)
    requires i + k <= |s|
    ensures WordEnd(s, i + k) == i + WordEnd(s[i..], k)
    decreases |s| - k
  {
    if i + k < |s| { WordEndShift(s, i, k + 1); }
  }

  predicate Shifted(l: Lexeme, l': Lexeme, i: nat) {
    l == if l'.Lexeme? then Lexeme(l'.token, i + l'.next) else l'
  }

  lemma ShiftBlock(s: string, i: nat)
    requires i < |s| && SortOf(s[i..]) == Block
    ensures Shifted(NextLexeme(s, i), NextLexeme(s[i..], 0), i)
  {
    hide Keyword, Find, FindClose, WordEnd;
    assert s[i..][..2][0] == s[i] && s[i..][..2][1] == s[i + 1];
    FindCloseShift(s, i, 2);
  }

  lemma ShiftLine(s: string, i: nat)
    requires i < |s| && SortOf(s[i..]) == Line
    ensures Shifted(NextLexeme(s, i), NextLexeme(s[i..], 0), i)
  {
    hide Keyword, Find, FindClose, WordEnd;
    assert s[i..][..2][0] == s[i] && s[i..][..2][1] == s[i + 1];
    FindShift(s, '\n', i, 0);
  }

  lemma ShiftQuoted(s: string, i: nat)
    requires i < |s| && SortOf(s[i..]) == Quoted
    ensures Shifted(NextLexeme(s, i), NextLexeme(s[i..], 0), i)
  {
    hide Keyword, Find, FindClose, WordEnd;
    FindShift(s, ']', i, 1);
    FindShift(s, s[i], i, 1);
  }

  lemma ShiftWord(s: string, i: nat)
    requires i < |s| && SortOf(s[i..]) == Word
    ensures Shifted(NextLexeme(s, i), NextLexeme(s[i..], 0), i)
  {
    hide Keyword, Find, FindClose, WordEnd;
    WordEndShift(s, i, 1);
    assert s[i..WordEnd(s, i + 1)] == s[i..][0..WordEnd(s[i..], 1)];
  }

  lemma LexemeShift(s: string, i: nat)
    requires i < |s|
    ensures Shifted(NextLexeme(s, i), NextLexeme(s[i..], 0), i)
  {
    match SortOf(s[i..])
    case Block => ShiftBlock(s, i);
    case Line => ShiftLine(s, i);
    case Quoted => ShiftQuoted(s, i);
    case Word => ShiftWord(s, i);
    case _ => hide Keyword, Find, FindClose, WordEnd;
  }

  /** Scanning finds exactly the pieces: a text is left open exactly if it cannot be cut into pieces. */
  lemma {:induction false} LexSplits(s: string, i: nat, ts: Tokens)
    requires i <= |s|
    ensures Lex(s, i) == Tokens(ts) <==> Splits(s[i..], ts)
    decreases |s| - i
  {
    hide NextLexeme, Piece, LastComment, PieceOf;
    var u := s[i..];
    if i == |s| {
      NoPieces(ts);
    } else {
      LexemeShift(s, i);
      EndIs(u);
      forall n: nat, t | 0 < n <= |u| ensures Piece(u[..n], u[n..], t) <==> NextLexeme(u, 0) == Lexeme(t, n) {
        PieceSort(u, n, t);
        NextIs(u, n, t);
      }
      var l := NextLexeme(u, 0);
      if l.Lexeme? {
        assert u[l.next..] == s[i + l.next..];
        if ts != [] { LexSplits(s, i + l.next, ts[1..]); }
        LexCons(s, i, l.token, i + l.next, ts);
      }
    }
  }

  lemma NoPieces(ts: Tokens)
    ensures Splits("", ts) <==> ts == []
  {
  }

  lemma LexCons(s: string, i: nat, t: Token, next: nat, ts: Tokens)
    requires i < |s| && NextLexeme(s, i) == Lexeme(t, next)
    ensures Lex(s, i) == Tokens(ts) <==> ts != [] && ts[0] == t && Lex(s, next) == Tokens(ts[1..])
  {
    hide NextLexeme;
    if ts != [] { assert ts == [ts[0]] + ts[1..]; }
  }

  // The tokens that scanning finds, if the text is closed, are those of its pieces.
  lemma LexedPieces(s: string)
    ensures Lex(s, 0).Tokens? && Statements(Strip(Lex(s, 0).ts)) <==>
            exists ts :: Splits(s, ts) && Statements(Strip(ts))
  {
    hide Lex, Splits, Statements, Strip;
    assert s[0..] == s;
    forall ts ensures Lex(s, 0) == Tokens(ts) <==> Splits(s, ts) { LexSplits(s, 0, ts); }
    if Lex(s, 0).Tokens? { assert Lex(s, 0) == Tokens(Lex(s, 0).ts); }
  }
}
