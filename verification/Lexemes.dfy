/** What the lexemes are, told by positions in the text, and how the tokens of a text cover it. */
module Lexemes {
  import opened Scan

  // ----- quoted strings -----

  /** How many backslashes stand right before a place. */
  function Backslashes(s: string, i: nat): nat
    requires i <= |s|
  {
    if i > 0 && s[i - 1] == '\\' then 1 + Backslashes(s, i - 1) else 0
  }

  /** A quote that no backslash takes: an even number of them stands right before it. */
  ghost predicate Closes(s: string, quote: char, i: nat) {
    i < |s| && s[i] == quote && Backslashes(s, i) % 2 == 0
  }

  /** How many characters go on at once inside a string: two from a backslash on. */
  function Taken(s: string, i: nat): nat
    requires i < |s|
  {
    if s[i] == '\\' && i + 1 < |s| then 2 else 1
  }

  lemma QuotedNext(s: string, quote: char, i: nat)
    requires i <= |s|
    ensures i == |s| ==> QuotedLength(s[i..], quote) == (0, false)
    ensures i < |s| && s[i] == quote ==> QuotedLength(s[i..], quote) == (1, true)
    ensures i < |s| && s[i] != quote ==>
              var r := QuotedLength(s[i + Taken(s, i)..], quote);
              QuotedLength(s[i..], quote) == (Taken(s, i) + r.0, r.1)
  {
    if i < |s| { assert s[i..][Taken(s, i)..] == s[i + Taken(s, i)..]; }
  }

  /** None of these places closes the string. */
  ghost predicate Goes(s: string, quote: char, from: nat, to: nat) {
    forall i :: from <= i < to ==> !Closes(s, quote, i)
  }

  /** From a place that no backslash takes to the next one: what lies between closes nothing. */
  lemma NoneTaken(s: string, quote: char, i: nat)
    requires i < |s| && s[i] != quote && quote != '\\' && Backslashes(s, i) % 2 == 0
    ensures i + Taken(s, i) < |s| ==> Backslashes(s, i + Taken(s, i)) % 2 == 0
    ensures Goes(s, quote, i, i + Taken(s, i))
  {
    if Taken(s, i) == 2 { assert Backslashes(s, i + 1) == 1 + Backslashes(s, i); }
  }

  lemma GoesOn(s: string, quote: char, a: nat, b: nat, c: nat)
    requires Goes(s, quote, a, b) && Goes(s, quote, b, c)
    ensures Goes(s, quote, a, c)
  {
    hide Closes;
  }

  /** The string ends `n` characters on, behind the first quote that closes it, or there is none. */
  ghost predicate EndsBehind(s: string, quote: char, from: nat, n: nat, closed: bool) {
    if closed then n > 0 && Closes(s, quote, from + n - 1) && Goes(s, quote, from, from + n - 1)
    else from + n == |s| && Goes(s, quote, from, |s|)
  }

  lemma EndsLater(s: string, quote: char, from: nat, k: nat, n: nat, closed: bool)
    requires Goes(s, quote, from, from + k) && EndsBehind(s, quote, from + k, n, closed)
    ensures EndsBehind(s, quote, from, k + n, closed)
  {
    hide Closes, Goes;
    GoesOn(s, quote, from, from + k, if closed then from + k + n - 1 else |s|);
  }

  lemma EndsNow(s: string, quote: char, from: nat)
    ensures from == |s| ==> EndsBehind(s, quote, from, 0, false)
    ensures from < |s| && s[from] == quote && Backslashes(s, from) % 2 == 0 ==> EndsBehind(s, quote, from, 1, true)
  {
  }

  /** Behind an opening part of `from` characters the string ends at the first such quote, or nowhere. */
  lemma {:induction false} QuotedEnds(s: string, quote: char, from: nat)
    requires from <= |s| && quote != '\\' && (from < |s| ==> Backslashes(s, from) % 2 == 0)
    ensures var (n, closed) := QuotedLength(s[from..], quote); EndsBehind(s, quote, from, n, closed)
    decreases |s| - from
  {
    QuotedNext(s, quote, from);
    EndsNow(s, quote, from);
    if from < |s| && s[from] != quote {
      var k := Taken(s, from);
      NoneTaken(s, quote, from);
      hide *;
      QuotedEnds(s, quote, from + k);
      var (n, closed) := QuotedLength(s[from + k..], quote);
      EndsLater(s, quote, from, k, n, closed);
    }
  }

  lemma FirstClose(s: string, quote: char, from: nat, k: nat)
    requires from <= k && from <= |s| && quote != '\\' && (from < |s| ==> Backslashes(s, from) % 2 == 0)
    requires Closes(s, quote, k) && Goes(s, quote, from, k)
    ensures QuotedLength(s[from..], quote) == (k + 1 - from, true) && k < |s|
  {
    QuotedEnds(s, quote, from);
    var (n, closed) := QuotedLength(s[from..], quote);
    assert closed ==> from + n - 1 == k;
    hide QuotedLength, Backslashes;
  }

  lemma NoClose(s: string, quote: char, from: nat)
    requires from <= |s| && quote != '\\' && (from < |s| ==> Backslashes(s, from) % 2 == 0)
    requires Goes(s, quote, from, |s|)
    ensures QuotedLength(s[from..], quote) == (|s| - from, false)
  {
    hide QuotedLength, Backslashes;
    QuotedEnds(s, quote, from);
  }

  /** `"` or `'`: the string ends at the first such quote behind it that no backslash takes. */
  lemma QuotedLexeme(s: string, k: nat)
    requires s != [] && (s[0] == '"' || s[0] == '\'') && 1 <= k && Closes(s, s[0], k) && Goes(s, s[0], 1, k)
    ensures k < |s| && Lexeme(s) == (k + 1, String(s[..k + 1]))
  {
    assert Backslashes(s, 1) == 0;
    hide Lexeme, QuotedLength, Backslashes, Closes, Goes;
    StringIs(s);
    FirstClose(s, s[0], 1, k);
  }

  /** It fails, at the end of the text, if there is no such quote. */
  lemma QuotedFailure(s: string)
    requires s != [] && (s[0] == '"' || s[0] == '\'') && Goes(s, s[0], 1, |s|)
    ensures Lexeme(s) == (|s|, Failure)
  {
    assert Backslashes(s, 1) == 0;
    hide Lexeme, QuotedLength, Backslashes, Closes, Goes;
    StringIs(s);
    NoClose(s, s[0], 1);
  }

  /** The same behind an `f`. */
  lemma QuotedFString(s: string, k: nat)
    requires |s| > 1 && s[0] == 'f' && (s[1] == '"' || s[1] == '\'')
    requires 2 <= k && Closes(s, s[1], k) && Goes(s, s[1], 2, k)
    ensures k < |s| && Lexeme(s) == (k + 1, FString(s[..k + 1]))
  {
    assert Backslashes(s, 2) == 0;
    hide Lexeme, QuotedLength, Backslashes, Closes, Goes;
    FStringIs(s);
    FirstClose(s, s[1], 2, k);
  }

  lemma QuotedFFailure(s: string)
    requires |s| > 1 && s[0] == 'f' && (s[1] == '"' || s[1] == '\'') && Goes(s, s[1], 2, |s|)
    ensures Lexeme(s) == (|s|, Failure)
  {
    assert Backslashes(s, 2) == 0;
    hide Lexeme, QuotedLength, Backslashes, Closes, Goes;
    FStringIs(s);
    NoClose(s, s[1], 2);
  }

  // ----- bracketed strings -----

  ghost predicate BracketsAt(s: string, i: nat) {
    i + 1 < |s| && s[i] == ']' && s[i + 1] == ']'
  }

  lemma {:induction false} BracketedEnds(s: string, from: nat)
    requires from <= |s|
    ensures var (n, closed) := BracketedLength(s[from..]);
            && (closed ==> n > 1 && BracketsAt(s, from + n - 2))
            && (forall i :: from <= i < from + n - (if closed then 2 else 0) ==> !BracketsAt(s, i))
            && (!closed ==> from + n == |s|)
    decreases |s| - from
  {
    if from < |s| && !BracketsAt(s, from) {
      assert s[from..][1..] == s[from + 1..];
      BracketedEnds(s, from + 1);
    }
  }

  /** `[[`: up to the first `]]` behind it, over any line ends. */
  lemma BracketedLexeme(s: string)
    requires |s| > 1 && s[0] == '[' && s[1] == '['
    ensures forall k :: 2 <= k && BracketsAt(s, k) && (forall i :: 2 <= i < k ==> !BracketsAt(s, i)) ==>
              Lexeme(s) == (k + 2, String(s[..k + 2]))
    ensures (forall i :: 2 <= i < |s| ==> !BracketsAt(s, i)) ==> Lexeme(s) == (|s|, Failure)
  {
    hide Lexeme;
    StringIs(s);
    BracketedEnds(s, 2);
  }

  lemma BracketedFString(s: string)
    requires |s| > 2 && s[0] == 'f' && s[1] == '[' && s[2] == '['
    ensures forall k :: 3 <= k && BracketsAt(s, k) && (forall i :: 3 <= i < k ==> !BracketsAt(s, i)) ==>
              Lexeme(s) == (k + 2, FString(s[..k + 2]))
    ensures (forall i :: 3 <= i < |s| ==> !BracketsAt(s, i)) ==> Lexeme(s) == (|s|, Failure)
  {
    hide Lexeme;
    FStringIs(s);
    BracketedEnds(s, 3);
  }

  /** An `f` before a quote or two brackets is no word. */
  ghost predicate OpensFString(s: string) {
    |s| > 1 && s[0] == 'f' && (s[1] == '"' || s[1] == '\'' || (|s| > 2 && s[1] == '[' && s[2] == '['))
  }

  // ----- words and numbers -----

  ghost predicate Letter(c: char) {
    'a' <= c <= 'z' || 'A' <= c <= 'Z' || c == '_'
  }

  ghost predicate Digit(c: char) {
    '0' <= c <= '9'
  }

  lemma {:induction false} WordRuns(s: string, from: nat)
    requires from <= |s|
    ensures var n := from + WordLength(s[from..]);
            && (forall i :: from <= i < n ==> Letter(s[i]) || Digit(s[i]))
            && (n < |s| ==> !Letter(s[n]) && !Digit(s[n]))
    decreases |s| - from
  {
    if from < |s| && InWord(s[from]) {
      assert s[from..][1..] == s[from + 1..];
      WordRuns(s, from + 1);
    }
  }

  /** A word is a maximal run of letters, digits and underscores that begins with no digit. */
  lemma WordLexeme(s: string, n: nat)
    requires 0 < n <= |s| && Letter(s[0]) && !OpensFString(s)
    requires (forall i :: 0 <= i < n ==> Letter(s[i]) || Digit(s[i])) && (n < |s| ==> !Letter(s[n]) && !Digit(s[n]))
    ensures Lexeme(s) == (n, Word(s[..n]))
  {
    hide Lexeme, WordLength;
    LexemeIs(s);
    WordRuns(s, 1);
  }

  /** A digit, or an underscore between two of them. */
  ghost predicate InDigits(s: string, i: nat) {
    i < |s| && (Digit(s[i]) || (s[i] == '_' && 0 < i && Digit(s[i - 1]) && i + 1 < |s| && Digit(s[i + 1])))
  }

  lemma {:induction false} DigitsRun(s: string, from: nat)
    requires 0 < from <= |s|
    ensures var n := from + DigitsLength(s[from..], Digit(s[from - 1]));
            (forall i :: from <= i < n ==> InDigits(s, i)) && !InDigits(s, n)
    decreases |s| - from
  {
    var u := s[from..];
    if InDigits(s, from) {
      assert u[1..] == s[from + 1..];
      assert |u| > 1 ==> u[1] == s[from + 1];
      DigitsRun(s, from + 1);
    }
  }

  /**
   * A number is a maximal run of digits with single underscores between them; if a point and a digit follow, such a run
   * behind the point belongs to it.
   */
  lemma NumberLexeme(s: string, a: nat, n: nat)
    requires 0 < a <= |s| && Digit(s[0]) && (forall i :: 1 <= i < a ==> InDigits(s, i)) && !InDigits(s, a)
    requires if a + 1 < |s| && s[a] == '.' && Digit(s[a + 1])
             then a + 1 < n <= |s| && (forall i :: a + 1 <= i < n ==> InDigits(s, i)) && !InDigits(s, n)
             else n == a
    ensures Lexeme(s) == (n, Number(s[..n]))
  {
    hide Lexeme, DigitsLength, NumberLength, InDigits;
    DigitsRun(s, 1);
    RunsEnd(s, 1, a, 1 + DigitsLength(s[1..], true));
    NumberParts(s, a);
    if a + 1 < |s| && s[a] == '.' && Digit(s[a + 1]) {
      DigitsRun(s, a + 1);
      RunsEnd(s, a + 1, n, a + 1 + DigitsLength(s[a + 1..], false));
    }
    NumberAtFront(s, n);
  }

  lemma NumberAtFront(s: string, n: nat)
    requires s != [] && Digit(s[0]) && n == 1 + NumberLength(s[1..])
    ensures n <= |s| && Lexeme(s) == (n, Number(s[..n]))
  {
    hide Lexeme, NumberLength, DigitsLength, WordLength, QuotedLength, BracketedLength, SymbolAt;
    LexemeIs(s);
  }

  /** The whole part, and what follows a point. */
  lemma NumberParts(s: string, a: nat)
    requires s != [] && a == 1 + DigitsLength(s[1..], true)
    ensures 1 + NumberLength(s[1..]) ==
            if a + 1 < |s| && s[a] == '.' && Digit(s[a + 1]) then a + 1 + DigitsLength(s[a + 1..], false) else a
  {
    hide DigitsLength;
    var u := s[1..][a - 1..];
    assert u == s[a..];
    assert |u| > 1 ==> u[1..] == s[a + 1..];
  }

  /** A maximal run ends at one place. */
  lemma RunsEnd(s: string, from: nat, n: nat, k: nat)
    requires from <= n && (forall i :: from <= i < n ==> InDigits(s, i)) && !InDigits(s, n)
    requires from <= k && (forall i :: from <= i < k ==> InDigits(s, i)) && !InDigits(s, k)
    ensures n == k
  {
  }

  // ----- punctuation -----

  /** The pairs that are one symbol. */
  const PAIRS: set<string> :=
    {"..", "-=", "+=", "//", "/=", "**", "*=", "%=", "::", ":=", "==", "!=", "<+", "<=", ">="}

  /** The characters that are a symbol by themselves. */
  const ONES: set<char> :=
    {'(', ')', '{', '}', '[', ']', ';', ',', '.', '-', '+', '/', '*', '%', '#', '?', ':', '@', '=', '<', '>'}

  /** Everything else: a pair that joins, or one character, or a failure that takes one character. */
  lemma SymbolLexeme(s: string)
    requires s != [] && !Letter(s[0]) && !Digit(s[0]) && s[0] != '"' && s[0] != '\''
    requires !(|s| > 1 && s[0] == '[' && s[1] == '[')
    ensures Lexeme(s) == if |s| > 1 && [s[0], s[1]] in PAIRS then (2, Symbol([s[0], s[1]]))
                         else if s[0] in ONES then (1, Symbol([s[0]]))
                         else (1, Failure)
  {
    LexemeIs(s);
    Singles(s[0]);
    if |s| > 1 {
      assert s[1..][0] == s[1];
      Pairs(s[0], s[1]);
    }
    hide Lexeme, PAIRS, ONES, SINGLES, SecondChars;
  }

  lemma Singles(c: char)
    ensures c in SINGLES <==> c in ONES
  {
  }

  lemma Pairs(c: char, d: char)
    ensures d in SecondChars(c) <==> [c, d] in PAIRS
  {
  }

  // ----- columns -----

  /** A space counts one, a tab four, up to the first other character. */
  lemma {:induction false} ColumnCounts(blanks: string, rest: string)
    requires forall i :: 0 <= i < |blanks| ==> blanks[i] == ' ' || blanks[i] == '\t'
    requires rest == [] || (rest[0] != ' ' && rest[0] != '\t')
    ensures Column(blanks + rest) == multiset(blanks)[' '] + 4 * multiset(blanks)['\t']
    decreases |blanks|
  {
    if blanks == [] {
      assert blanks + rest == rest;
    } else {
      assert (blanks + rest)[1..] == blanks[1..] + rest;
      assert blanks == [blanks[0]] + blanks[1..];
      ColumnCounts(blanks[1..], rest);
    }
  }

  // ----- how the tokens cover the text -----

  predicate IsBlank(c: char) {
    c == ' ' || c == '\t' || c == '\r' || c == '\n'
  }

  /** A comment, from two minus signs up to the end of its line. */
  ghost predicate IsComment(s: string, k: nat) {
    2 <= k <= |s| && s[0] == '-' && s[1] == '-' && '\n' !in s[..k] && (k < |s| ==> s[k] == '\n')
  }

  /** One blank, one line end or one comment. */
  ghost predicate IsFiller(s: string, k: nat) {
    (k == 1 && s != [] && IsBlank(s[0])) || IsComment(s, k)
  }

  /** Nothing but blanks, line ends and comments. */
  ghost predicate IsGap(s: string, n: nat)
    decreases n
  {
    n == 0 || exists k: nat :: 0 < k <= n && k <= |s| && IsFiller(s, k) && IsGap(s[k..], n - k)
  }

  /**
   * The token takes up the first `m` characters: layout none, any other token is the lexeme there and has its text; a
   * failure is a lexeme or layout.
   */
  ghost predicate Spans(t: Token, u: string, m: nat) {
    && m <= |u|
    && match t
       case Indent => m == 0
       case Dedent => m == 0
       case Eof => u == []
       case Failure => m == 0 || (u != [] && Lexeme(u) == (m, t))
       case Word(text) => u != [] && Lexeme(u) == (m, t) && text == u[..m]
       case Number(text) => u != [] && Lexeme(u) == (m, t) && text == u[..m]
       case String(text) => u != [] && Lexeme(u) == (m, t) && text == u[..m]
       case FString(text) => u != [] && Lexeme(u) == (m, t) && text == u[..m]
       case Symbol(text) => u != [] && Lexeme(u) == (m, t) && text == u[..m]
  }

  /** Behind a gap of `n` characters the token takes the next `m`. */
  ghost predicate Piece(s: string, t: Token, n: nat, m: nat) {
    n <= |s| && IsGap(s, n) && Spans(t, s[n..], m)
  }

  /** The tokens in order make up the text, with nothing but gaps between them; the last one is at its end. */
  ghost predicate Tiles(s: string, tokens: seq<Token>)
    decreases |tokens|
  {
    tokens != [] &&
    exists n: nat, m: nat :: Piece(s, tokens[0], n, m) && n + m <= |s|
      && if tokens[0] == Eof then |tokens| == 1 else Tiles(s[n + m..], tokens[1..])
  }

  lemma GapFirst(s: string, n: nat) returns (k: nat)
    requires n > 0 && IsGap(s, n)
    ensures 0 < k <= n && k <= |s| && IsFiller(s, k) && IsGap(s[k..], n - k)
  {
    k :| 0 < k <= n && k <= |s| && IsFiller(s, k) && IsGap(s[k..], n - k);
  }

  lemma GapMore(s: string, k: nat, n: nat)
    requires 0 < k <= n && k <= |s| && IsFiller(s, k) && IsGap(s[k..], n - k)
    ensures IsGap(s, n)
  {
  }

  lemma {:induction false} GapAdds(s: string, a: nat, b: nat)
    requires a <= |s| && IsGap(s, a) && IsGap(s[a..], b)
    ensures IsGap(s, a + b)
    decreases a
  {
    hide *;
    if a == 0 {
      assert s[0..] == s;
    } else {
      var k := GapFirst(s, a);
      RestOfRest(s, k, a - k);
      GapAdds(s[k..], a - k, b);
      GapMore(s, k, a + b);
    }
  }

  lemma OneBlank(s: string)
    requires s != [] && IsBlank(s[0])
    ensures IsGap(s, 1)
  {
    NoGap(s[1..]);
    hide IsGap;
    GapMore(s, 1, 1);
  }

  lemma NoGap(s: string)
    ensures IsGap(s, 0)
  {
  }

  lemma {:induction false} IndentIsGap(s: string)
    ensures IsGap(s, IndentLength(s))
    decreases |s|
  {
    NoGap(s);
    hide IsGap;
    if s != [] && (s[0] == ' ' || s[0] == '\t') {
      IndentIsGap(s[1..]);
      GapMore(s, 1, IndentLength(s));
    }
  }

  lemma {:induction false} LineIs(s: string)
    ensures '\n' !in s[..LineLength(s)]
    decreases |s|
  {
    if s != [] && s[0] != '\n' {
      LineIs(s[1..]);
      var n := LineLength(s);
      assert s[..n] == [s[0]] + s[1..][..n - 1];
    }
  }

  lemma CommentIsGap(s: string)
    requires StartsComment(s)
    ensures IsGap(s, LineLength(s)) && LineLength(s) >= 2
  {
    LineIs(s);
    var n := LineLength(s);
    assert n == 1 + LineLength(s[1..]) && LineLength(s[1..]) == 1 + LineLength(s[1..][1..]);
    NoGap(s[n..]);
    hide IsGap;
    GapMore(s, n, n);
  }

  lemma {:induction false} BlanksAreGap(s: string)
    ensures IsGap(s, BlanksLength(s))
    decreases |s|
  {
    NoGap(s);
    hide IsGap, LineLength;
    if s != [] && (s[0] == ' ' || s[0] == '\t' || s[0] == '\r') {
      BlanksAreGap(s[1..]);
      GapMore(s, 1, BlanksLength(s));
    } else if StartsComment(s) {
      CommentIsGap(s);
    }
  }

  /** A lexeme takes up what its token says. */
  lemma LexemeSpans(s: string)
    requires s != []
    ensures Spans(Lexeme(s).1, s, Lexeme(s).0)
  {
    LexemeIs(s);
    PlainSymbol(s);
    hide Lexeme, WordLength, NumberLength, QuotedLength, BracketedLength, SymbolAt;
  }

  lemma PlainSymbol(s: string)
    requires s != []
    ensures var (n, t) := SymbolAt(s[0], s[1..]); t != Failure ==> t == Symbol(s[..1 + n])
  {
    assert s[..1] == [s[0]];
    assert |s| > 1 ==> s[..2] == [s[0], s[1]];
  }

  /** Behind a gap the token takes what lies before the rest. */
  ghost predicate Takes(s: string, t: Token, rest: string) {
    exists n: nat, m: nat :: Piece(s, t, n, m) && n + m <= |s| && rest == s[n + m..]
  }

  lemma TakesNow(s: string, t: Token, n: nat, m: nat)
    requires Piece(s, t, n, m) && n + m <= |s|
    ensures Takes(s, t, s[n + m..])
  {
  }

  lemma RestOfRest(s: string, k: nat, p: nat)
    requires k + p <= |s|
    ensures s[k..][p..] == s[k + p..]
  {
  }

  lemma PieceBehind(s: string, k: nat, t: Token, n: nat, m: nat)
    requires k <= |s| && IsGap(s, k) && Piece(s[k..], t, n, m)
    ensures k + n <= |s| && Piece(s, t, k + n, m)
  {
    hide IsGap, Spans;
    GapAdds(s, k, n);
    RestOfRest(s, k, n);
  }

  lemma TakesMore(s: string, k: nat, t: Token, n: nat, m: nat, rest: string)
    requires k <= |s| && IsGap(s, k) && Piece(s[k..], t, n, m) && n + m <= |s| - k && rest == s[k..][n + m..]
    ensures Takes(s, t, rest)
  {
    hide *;
    PieceBehind(s, k, t, n, m);
    RestOfRest(s, k, n + m);
    TakesNow(s, t, k + n, m);
  }

  /** More of a gap in front. */
  lemma TakesBehind(s: string, k: nat, t: Token, rest: string)
    requires k <= |s| && IsGap(s, k) && Takes(s[k..], t, rest)
    ensures Takes(s, t, rest)
  {
    hide IsGap, Piece;
    var u := s[k..];
    var n: nat, m: nat :| Piece(u, t, n, m) && n + m <= |u| && rest == u[n + m..];
    hide Takes;
    TakesMore(s, k, t, n, m, rest);
  }

  lemma {:induction false} NextTakes(st: Spot)
    requires IsStack(st.stack)
    ensures Takes(st.rest, Next(st).1, Next(st).0.rest)
    decreases |st.rest|, 1
  {
    assert st.stack != [] && Dedent.IsLayout();
    hide *;
    NextIs(st);
    assert st.rest[0..] == st.rest;
    if st.pending > 0 {
      NoGap(st.rest);
      LayoutTakes(st.rest, Dedent, 0);
    } else if !(st.atStart && st.table == 0) {
      InLineTakes(Spot(st.rest, st.stack, 0, false, st.table));
    } else {
      var k := IndentLength(st.rest);
      var u := st.rest[k..];
      IndentIsGap(st.rest);
      if StartsBlank(u) {
        var p := PastBlankGap(u);
        NextTakes(Spot(PastBlank(u), st.stack, 0, true, 0));
        TakesBehind(u, p, Next(st).1, Next(st).0.rest);
        TakesBehind(st.rest, k, Next(st).1, Next(st).0.rest);
      } else {
        PlaceIs(st.stack, if u == [] then 0 else Column(st.rest));
        var (now, tokens) := Place(st.stack, if u == [] then 0 else Column(st.rest));
        if tokens == [] {
          InLineTakes(Spot(u, now, 0, false, 0));
          TakesBehind(st.rest, k, Next(st).1, Next(st).0.rest);
        } else {
          LayoutTakes(st.rest, tokens[0], k);
        }
      }
    }
  }

  lemma LayoutTakes(s: string, t: Token, k: nat)
    requires k <= |s| && IsGap(s, k) && t.IsLayout()
    ensures Takes(s, t, s[k..])
  {
    hide IsGap;
    assert Piece(s, t, k, 0);
    TakesNow(s, t, k, 0);
  }

  lemma PastBlankGap(u: string) returns (p: nat)
    requires StartsBlank(u)
    ensures 0 < p <= |u| && IsGap(u, p) && PastBlank(u) == u[p..]
  {
    if u[0] == '\n' {
      OneBlank(u);
      p := 1;
    } else {
      CommentIsGap(u);
      p := LineLength(u);
    }
  }

  lemma {:induction false} InLineTakes(st: Spot)
    requires IsStack(st.stack)
    ensures Takes(st.rest, InLine(st).1, InLine(st).0.rest)
    decreases |st.rest|, 0
  {
    hide *;
    InLineIs(st);
    var k := BlanksLength(st.rest);
    var u := st.rest[k..];
    BlanksAreGap(st.rest);
    if u == [] {
      EndTakes(st.rest, InLine(st).1, k, InLine(st).0.rest);
    } else if u[0] == '\n' {
      OneNewline(u);
      NextTakes(Spot(u[1..], st.stack, 0, true, st.table));
      TakesBehind(u, 1, InLine(st).1, InLine(st).0.rest);
      TakesBehind(st.rest, k, InLine(st).1, InLine(st).0.rest);
    } else {
      LexemeTakes(u);
      TakesBehind(st.rest, k, InLine(st).1, InLine(st).0.rest);
    }
  }

  lemma OneNewline(u: string)
    requires u != [] && u[0] == '\n'
    ensures IsGap(u, 1)
  {
    OneBlank(u);
  }

  lemma EndTakes(s: string, t: Token, k: nat, rest: string)
    requires k <= |s| && IsGap(s, k) && s[k..] == [] == rest && (t == Dedent || t == Eof)
    ensures Takes(s, t, rest)
  {
    hide IsGap;
    assert Piece(s, t, k, 0);
    TakesNow(s, t, k, 0);
  }

  lemma LexemeTakes(u: string)
    requires u != []
    ensures var (n, t) := Lexeme(u); n <= |u| && Takes(u, t, u[n..])
  {
    LexemeSpans(u);
    NoGap(u);
    hide Lexeme, Takes, Spans;
    var (n, t) := Lexeme(u);
    LexemeFits(u);
    assert u[0..] == u && Piece(u, t, 0, n);
    TakesNow(u, t, 0, n);
  }

  lemma LexemeFits(u: string)
    requires u != []
    ensures Lexeme(u).0 <= |u|
  {
  }

  lemma {:induction false} TokensTile(st: Spot)
    requires IsStack(st.stack)
    ensures Tiles(st.rest, Tokens(st))
    decreases |st.rest|, Depth(st)
  {
    hide Next, Piece;
    NextAdvances(st);
    var (next, t) := Next(st);
    NextTakes(st);
    var n: nat, m: nat :| Piece(st.rest, t, n, m) && n + m <= |st.rest| && next.rest == st.rest[n + m..];
    assert Piece(st.rest, Tokens(st)[0], n, m);
    if t == Eof {
      assert Tokens(st) == [Eof];
    } else {
      assert Tokens(st) == [t] + Tokens(next);
      TokensTile(next);
      assert Tokens(st)[1..] == Tokens(next);
    }
  }

  /** The tokens of a text make it up, each at its place, with nothing but blanks, line ends and comments between. */
  lemma ScannedTiles(s: string)
    ensures Tiles(s, Scanned(s))
  {
    hide Tiles, Tokens;
    TokensTile(Spot(s, [0], 0, true, 0));
  }

  // ----- tables -----

  /** How many braces are open behind the tokens; a closing one too many does not count. */
  function Braces(tokens: seq<Token>, open: nat): nat {
    if tokens == [] then open
    else if tokens[0] == Symbol("{") then Braces(tokens[1..], open + 1)
    else if tokens[0] == Symbol("}") then Braces(tokens[1..], if open == 0 then 0 else open - 1)
    else Braces(tokens[1..], open)
  }

  /** The table nesting follows the braces, and inside a table no block is opened. */
  lemma {:induction false} NextInTable(st: Spot)
    requires IsStack(st.stack)
    ensures var (next, t) := Next(st); next.table == Braces([t], st.table) && (st.table > 0 ==> t != Indent)
    decreases |st.rest|, 1
  {
    LayoutBraces(st.table);
    hide Lexeme, BlanksLength, Place, InLine, Next, IsStack, Braces, IndentLength, Column, StartsBlank;
    NextIs(st);
    if st.pending == 0 {
      if st.atStart && st.table == 0 {
        var u := st.rest[IndentLength(st.rest)..];
        if StartsBlank(u) {
          NextInTable(Spot(PastBlank(u), st.stack, 0, true, 0));
        } else {
          LayoutOnly(st.stack, if u == [] then 0 else Column(st.rest));
          var (now, tokens) := Place(st.stack, if u == [] then 0 else Column(st.rest));
          if tokens == [] { InLineInTable(Spot(u, now, 0, false, 0)); }
        }
      } else {
        InLineInTable(Spot(st.rest, st.stack, 0, false, st.table));
      }
    }
  }

  lemma LayoutBraces(open: nat)
    ensures Braces([Indent], open) == open && Braces([Dedent], open) == open && Braces([Failure], open) == open
    ensures Braces([Eof], open) == open
  {
  }

  lemma LayoutOnly(stack: seq<nat>, c: nat)
    requires IsStack(stack)
    ensures stack != [] && IsStack(Place(stack, c).0)
    ensures Place(stack, c).1 != [] ==> Place(stack, c).1[0] in {Indent, Dedent, Failure}
  {
    hide Place;
    PlaceIs(stack, c);
  }

  lemma NestedIs(open: nat, t: Token)
    ensures Nested(open, t) == Braces([t], open)
  {
    assert [t][1..] == [];
  }

  lemma {:induction false} InLineInTable(st: Spot)
    requires IsStack(st.stack) && st.pending == 0
    ensures var (next, t) := InLine(st); next.table == Braces([t], st.table) && (st.table > 0 ==> t != Indent)
    decreases |st.rest|, 0
  {
    LayoutBraces(st.table);
    hide BlanksLength, Next, InLine, IsStack, Braces, Nested;
    InLineIs(st);
    var u := st.rest[BlanksLength(st.rest)..];
    if u != [] {
      if u[0] == '\n' {
        NextInTable(Spot(u[1..], st.stack, 0, true, st.table));
      } else {
        NestedIs(st.table, Lexeme(u).1);
        NoIndent(u);
      }
    }
  }

  lemma NoIndent(u: string)
    requires u != []
    ensures Lexeme(u).1 != Indent
  {
  }

  lemma {:induction false} NoneInTables(st: Spot, i: nat)
    requires IsStack(st.stack) && i < |Tokens(st)|
    requires Braces(Tokens(st)[..i], st.table) > 0
    ensures Tokens(st)[i] != Indent
    decreases |st.rest|, Depth(st)
  {
    hide Next, Braces, IsStack;
    NextAdvances(st);
    NextInTable(st);
    var (next, t) := Next(st);
    if i == 0 {
      NoBraces(st.table);
      assert Tokens(st)[..0] == [];
    } else {
      assert t != Eof;
      var rest := Tokens(next);
      assert Tokens(st) == [t] + rest && Tokens(st)[..i] == [t] + rest[..i - 1];
      BracesAdd([t], rest[..i - 1], st.table);
      NoneInTables(next, i - 1);
    }
  }

  lemma NoBraces(open: nat)
    ensures Braces([], open) == open
  {
  }

  lemma {:induction false} BracesAdd(a: seq<Token>, b: seq<Token>, open: nat)
    ensures Braces(a + b, open) == Braces(b, Braces(a, open))
    decreases |a|
  {
    if a == [] {
      assert a + b == b;
    } else {
      assert (a + b)[1..] == a[1..] + b;
      BracesAdd(a[1..], b, if a[0] == Symbol("{") then open + 1 else if a[0] == Symbol("}") && open > 0 then open - 1 else open);
    }
  }

  /** Between an opening brace and its closing one the tokens of a text open no block. */
  lemma NoIndentInTables(s: string, i: nat)
    requires i < |Scanned(s)| && Braces(Scanned(s)[..i], 0) > 0
    ensures Scanned(s)[i] != Indent
  {
    hide Tokens, Braces;
    NoneInTables(Spot(s, [0], 0, true, 0), i);
  }
}
