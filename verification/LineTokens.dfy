/**
 * The tokens of a text line by line. A line may hold line ends inside its bracketed strings, but no lexeme or table runs
 * over its own end.
 */
module LineTokens {
  import opened Scan

  // ----- a lexeme does not look past the end of its line -----

  /** The text ends here, or the line does. */
  predicate Boundary(tail: string) {
    tail == [] || tail[0] == '\n'
  }

  lemma Front(s: string, tail: string)
    requires s != []
    ensures (s + tail)[0] == s[0] && (s + tail)[1..] == s[1..] + tail
  {
  }

  lemma {:induction false} WordLocal(s: string, tail: string)
    requires Boundary(tail)
    ensures WordLength(s + tail) == WordLength(s)
    decreases |s|
  {
    if s != [] {
      Front(s, tail);
      WordLocal(s[1..], tail);
    } else {
      assert s + tail == tail;
    }
  }

  lemma {:induction false} DigitsLocal(s: string, last: bool, tail: string)
    requires Boundary(tail)
    ensures DigitsLength(s + tail, last) == DigitsLength(s, last)
    decreases |s|
  {
    if s != [] {
      Front(s, tail);
      assert |s| > 1 ==> (s + tail)[1] == s[1];
      DigitsLocal(s[1..], true, tail);
      DigitsLocal(s[1..], false, tail);
    } else {
      assert s + tail == tail;
    }
  }

  lemma NumberLocal(s: string, tail: string)
    requires Boundary(tail)
    ensures NumberLength(s + tail) == NumberLength(s)
  {
    hide DigitsLength;
    DigitsLocal(s, true, tail);
    var a := DigitsLength(s, true);
    var u := s[a..];
    assert (s + tail)[a..] == u + tail;
    if u != [] {
      Front(u, tail);
      assert |u| > 1 ==> (u + tail)[1] == u[1];
      DigitsLocal(u[1..], false, tail);
    } else {
      assert u + tail == tail;
    }
  }

  /** A body that closes within the line is the same before any end of the line. */
  lemma {:induction false} QuotedLocal(s: string, quote: char, tail: string)
    requires QuotedLength(s + "\n", quote).0 <= |s|
    ensures QuotedLength(s + tail, quote) == QuotedLength(s + "\n", quote)
    ensures QuotedLength(s + "\n", quote).1
    decreases |s|
  {
    if s != [] {
      Front(s, tail);
      Front(s, "\n");
      if s[0] != quote {
        var k := if s[0] == '\\' then 2 else 1;
        if k <= |s| {
          assert (s + tail)[k..] == s[k..] + tail && (s + "\n")[k..] == s[k..] + "\n";
          QuotedLocal(s[k..], quote, tail);
        }
      }
    }
  }

  lemma {:induction false} BracketedLocal(s: string, tail: string)
    requires Boundary(tail) && BracketedLength(s + "\n").0 <= |s|
    ensures BracketedLength(s + tail) == BracketedLength(s + "\n")
    ensures BracketedLength(s + "\n").1
    decreases |s|
  {
    if s != [] {
      Front(s, tail);
      Front(s, "\n");
      if |s| > 1 {
        assert (s + tail)[1] == s[1] && (s + "\n")[1] == s[1];
        if !(s[0] == ']' && s[1] == ']') { BracketedLocal(s[1..], tail); }
      }
    }
  }

  lemma SymbolLocal(c: char, u: string, tail: string)
    requires Boundary(tail)
    ensures SymbolAt(c, u + tail) == SymbolAt(c, u)
  {
    if u != [] { Front(u, tail); } else { assert u + tail == tail; }
  }

  lemma Slices(v: string, tail: string, k: nat)
    requires k <= |v|
    ensures (v + tail)[k..] == v[k..] + tail && (v + tail)[..k] == v[..k]
    ensures k < |v| ==> (v + tail)[k] == v[k]
  {
  }

  lemma FStringLocal(v: string, tail: string)
    requires |v| > 1 && v[0] == 'f' && (IsQuote(v[1]) || (|v| > 2 && v[1] == '[' && v[2] == '['))
    requires Boundary(tail) && Lexeme(v + "\n").0 <= |v|
    ensures Lexeme(v + tail) == Lexeme(v + "\n")
  {
    hide QuotedLength, BracketedLength, Lexeme, Boundary;
    Slices(v, tail, 0);
    Slices(v, "\n", 0);
    Slices(v, tail, 1);
    Slices(v, "\n", 1);
    Slices(v, tail, 2);
    Slices(v, "\n", 2);
    FStringIs(v + tail);
    FStringIs(v + "\n");
    if IsQuote(v[1]) {
      QuotedLocal(v[2..], v[1], tail);
      Slices(v, tail, 2 + QuotedLength(v[2..] + "\n", v[1]).0);
      Slices(v, "\n", 2 + QuotedLength(v[2..] + "\n", v[1]).0);
    } else {
      Slices(v, tail, 3);
      Slices(v, "\n", 3);
      BracketedLocal(v[3..], tail);
      Slices(v, tail, 3 + BracketedLength(v[3..] + "\n").0);
      Slices(v, "\n", 3 + BracketedLength(v[3..] + "\n").0);
    }
  }

  lemma QuoteLocal(v: string, tail: string)
    requires v != [] && IsQuote(v[0]) && Boundary(tail) && Lexeme(v + "\n").0 <= |v|
    ensures Lexeme(v + tail) == Lexeme(v + "\n")
  {
    hide QuotedLength, BracketedLength, Lexeme, Boundary;
    Slices(v, tail, 1);
    Slices(v, "\n", 1);
    StringIs(v + tail);
    StringIs(v + "\n");
    QuotedLocal(v[1..], v[0], tail);
    Slices(v, tail, 1 + QuotedLength(v[1..] + "\n", v[0]).0);
    Slices(v, "\n", 1 + QuotedLength(v[1..] + "\n", v[0]).0);
  }

  lemma BracketsLocal(v: string, tail: string)
    requires |v| > 1 && v[0] == '[' && v[1] == '[' && Boundary(tail) && Lexeme(v + "\n").0 <= |v|
    ensures Lexeme(v + tail) == Lexeme(v + "\n")
  {
    hide QuotedLength, BracketedLength, Lexeme, Boundary;
    Slices(v, tail, 1);
    Slices(v, "\n", 1);
    Slices(v, tail, 2);
    Slices(v, "\n", 2);
    StringIs(v + tail);
    StringIs(v + "\n");
    BracketedLocal(v[2..], tail);
    Slices(v, tail, 2 + BracketedLength(v[2..] + "\n").0);
    Slices(v, "\n", 2 + BracketedLength(v[2..] + "\n").0);
  }

  /** Strings begin with a quote or two brackets, with an `f` before them or not. */
  predicate StartsString(v: string) {
    v != [] && (IsQuote(v[0]) || (|v| > 1 && v[0] == '[' && v[1] == '['))
  }

  /** Words, numbers and punctuation end where their characters do. */
  lemma PlainIs(v: string, tail: string)
    requires v != [] && Boundary(tail) && !StartsString(v) && !(v[0] == 'f' && StartsString(v[1..]))
    ensures Lexeme(v + tail) ==
            if IsAlpha(v[0]) || v[0] == '_' then (1 + WordLength(v[1..]), Word(v[..1 + WordLength(v[1..])]))
            else if IsDigit(v[0]) then (1 + NumberLength(v[1..]), Number(v[..1 + NumberLength(v[1..])]))
            else (1 + SymbolAt(v[0], v[1..]).0, SymbolAt(v[0], v[1..]).1)
  {
    hide WordLength, NumberLength, SymbolAt, Lexeme, QuotedLength, BracketedLength;
    LexemeIs(v + tail);
    Slices(v, tail, 0);
    Slices(v, tail, 1);
    var u := v[1..];
    WordLocal(u, tail);
    NumberLocal(u, tail);
    SymbolLocal(v[0], u, tail);
    if u != [] { Slices(u, tail, 0); Slices(u, tail, 1); } else { assert u + tail == tail; }
    Slices(v, tail, 1 + WordLength(u));
    Slices(v, tail, 1 + NumberLength(u));
  }

  /** A lexeme that ends within the line is the same before any end of the line. */
  lemma LexemeLocal(v: string, tail: string)
    requires v != [] && Boundary(tail) && Lexeme(v + "\n").0 <= |v|
    ensures Lexeme(v + tail) == Lexeme(v + "\n")
  {
    hide Lexeme, Boundary;
    assert Boundary("\n") by { BoundaryIs(); }
    if StartsString(v) {
      if IsQuote(v[0]) { QuoteLocal(v, tail); } else { BracketsLocal(v, tail); }
    } else if v[0] == 'f' && StartsString(v[1..]) {
      FStringLocal(v, tail);
    } else {
      PlainIs(v, tail);
      PlainIs(v, "\n");
    }
  }

  lemma BoundaryIs()
    ensures Boundary("\n") && Boundary("") && forall more: string :: Boundary("\n" + more)
  {
  }

  // ----- what lies between lexemes stays within the line, too -----

  lemma {:induction false} LineLocal(u: string, tail: string)
    requires Boundary(tail)
    ensures LineLength(u + tail) == LineLength(u)
    decreases |u|
  {
    if u != [] {
      Front(u, tail);
      LineLocal(u[1..], tail);
    } else {
      assert u + tail == tail;
    }
  }

  lemma {:induction false} BlanksLocal(u: string, tail: string)
    requires Boundary(tail)
    ensures BlanksLength(u + tail) == BlanksLength(u)
    decreases |u|
  {
    if u != [] {
      Front(u, tail);
      assert |u| > 1 ==> (u + tail)[1] == u[1];
      LineLocal(u, tail);
      BlanksLocal(u[1..], tail);
    } else {
      assert u + tail == tail;
    }
  }

  lemma {:induction false} IndentLocal(line: string, tail: string)
    requires Boundary(tail)
    ensures IndentLength(line + tail) == IndentLength(line) && Column(line + tail) == Column(line)
    decreases |line|
  {
    if line != [] {
      Front(line, tail);
      IndentLocal(line[1..], tail);
    } else {
      assert line + tail == tail;
    }
  }

  // ----- one line -----

  /** A line behind its indent. */
  function Body(line: string): string {
    line[IndentLength(line)..]
  }

  /** Behind the blanks. */
  function Ahead(u: string): string {
    u[BlanksLength(u)..]
  }

  lemma AheadShorter(u: string)
    ensures |Ahead(u)| <= |u|
  {
  }

  /**
   * From here to the end of the line all lexemes are good and end within it, every table that is open or opened is
   * closed, and there are no line ends but in lexemes.
   */
  predicate Contained(u: string, table: nat)
    decreases |u|
  {
    AheadShorter(u);
    var v := Ahead(u);
    if v == [] then table == 0
    else
      var (n, t) := Lexeme(v + "\n");
      v[0] != '\n' && n <= |v| && t != Failure && Contained(v[n..], Nested(table, t))
  }

  /** The tokens of such a line. */
  function Inner(u: string, table: nat): seq<Token>
    requires Contained(u, table)
    decreases |u|
  {
    AheadShorter(u);
    var v := Ahead(u);
    if v == [] then []
    else
      var (n, t) := Lexeme(v + "\n");
      [t] + Inner(v[n..], Nested(table, t))
  }

  lemma {:induction false} InnerPlain(u: string, table: nat)
    requires Contained(u, table)
    ensures forall t :: t in Inner(u, table) ==> !t.IsLayout() && t != Eof
    decreases |u|
  {
    hide Lexeme, Ahead;
    AheadShorter(u);
    var v := Ahead(u);
    if v != [] {
      var (n, t) := Lexeme(v + "\n");
      LexemeKind(v + "\n");
      InnerPlain(v[n..], Nested(table, t));
    }
  }

  lemma LexemeKind(s: string)
    requires s != []
    ensures 0 < Lexeme(s).0 <= |s| && Lexeme(s).1 != Indent && Lexeme(s).1 != Dedent && Lexeme(s).1 != Eof
  {
  }

  lemma TokensIs(st: Spot)
    requires IsStack(st.stack)
    ensures IsStack(Next(st).0.stack)
    ensures Tokens(st) == if Next(st).1 == Eof then [Eof] else [Next(st).1] + Tokens(Next(st).0)
  {
    hide Next;
    NextAdvances(st);
  }

  /** Two spots with the same next token go on the same. */
  lemma SameTokens(a: Spot, b: Spot)
    requires IsStack(a.stack) && IsStack(b.stack) && Next(a) == Next(b)
    ensures Tokens(a) == Tokens(b)
  {
    TokensIs(a);
    TokensIs(b);
  }

  lemma Behind(u: string, tail: string)
    requires Boundary(tail)
    ensures (u + tail)[BlanksLength(u + tail)..] == Ahead(u) + tail
  {
    BlanksLocal(u, tail);
  }

  /** Scanning such a line gives its tokens and comes to its end. */
  lemma {:induction false} LineInside(u: string, tail: string, stack: seq<nat>, table: nat)
    requires Boundary(tail) && IsStack(stack) && Contained(u, table)
    ensures Tokens(Spot(u + tail, stack, 0, false, table)) == Inner(u, table) + Tokens(Spot(tail, stack, 0, false, 0))
    decreases |u|
  {
    hide Tokens, Lexeme, Next, InLine, Ahead, IsStack, BlanksLength, Boundary, Nested;
    AheadShorter(u);
    var v := Ahead(u);
    var st, end := Spot(u + tail, stack, 0, false, table), Spot(tail, stack, 0, false, 0);
    Behind(u, tail);
    NextIs(st);
    InLineIs(st);
    if v == [] {
      assert v + tail == tail;
      NextIs(end);
      InLineIs(end);
      NoBlanks(tail);
      SameTokens(st, end);
    } else {
      var (n, t) := Lexeme(v + "\n");
      LexemeKind(v + "\n");
      LexemeLocal(v, tail);
      Slices(v, tail, n);
      Front(v, tail);
      TokensIs(st);
      LineInside(v[n..], tail, stack, Nested(table, t));
    }
  }

  lemma NoBlanks(tail: string)
    requires Boundary(tail)
    ensures BlanksLength(tail) == 0 && tail[0..] == tail
  {
  }

  // ----- from line to line -----

  /** A blank line, or a comment. */
  predicate Skipped(line: string) {
    Body(line) == [] || StartsComment(Body(line))
  }

  /** What a line without lexemes past its end is to the scan: nothing, or layout tokens and lexemes. */
  predicate Good(line: string) {
    if Skipped(line) then '\n' !in line else Contained(Body(line), 0)
  }

  function Layout(stack: seq<nat>, line: string): (seq<nat>, seq<Token>)
    requires stack != []
  {
    if Skipped(line) then (stack, []) else Place(stack, Column(line))
  }

  function Lexemes(line: string): seq<Token>
    requires Good(line)
  {
    if Skipped(line) then [] else Inner(Body(line), 0)
  }

  /** What is left to close, and the end token. */
  function Closing(stack: seq<nat>): seq<Token>
    requires stack != []
  {
    Dedents(|stack| - 1) + [Eof]
  }

  lemma {:induction false} PendingTokens(st: Spot)
    requires IsStack(st.stack)
    ensures Tokens(st) == Dedents(st.pending) + Tokens(st.(pending := 0))
    decreases st.pending
  {
    hide Tokens, Next, IsStack;
    if st.pending > 0 {
      NextIs(st);
      TokensIs(st);
      PendingTokens(st.(pending := st.pending - 1));
      assert [Dedent] + Dedents(st.pending - 1) == Dedents(st.pending);
    } else {
      assert Dedents(0) == [] && st.(pending := 0) == st;
    }
  }

  lemma EndInside(stack: seq<nat>)
    requires IsStack(stack)
    ensures Tokens(Spot([], stack, 0, false, 0)) == Closing(stack)
  {
    hide Tokens, Next, InLine, Dedents, IsStack, Lexeme;
    var st := Spot([], stack, 0, false, 0);
    OuterIs(stack);
    NextIs(st);
    InLineIs(st);
    TokensIs(st);
    if |stack| > 1 {
      var due := Spot([], [0], |stack| - 2, false, 0);
      PendingTokens(due);
      LastToken();
      OneDedent(|stack| - 2);
    } else {
      OneDedent(0);
    }
  }

  lemma OuterIs(stack: seq<nat>)
    requires IsStack(stack)
    ensures IsStack([0]) && stack != [] && (|stack| == 1 ==> stack == [0])
  {
  }

  lemma OneDedent(n: nat)
    ensures [Dedent] + (Dedents(n) + [Eof]) == Dedents(n + 1) + [Eof] && Dedents(0) + [Eof] == [Eof]
  {
  }

  lemma LastToken()
    ensures Tokens(Spot([], [0], 0, false, 0)) == [Eof]
  {
    hide Tokens, Next, InLine;
    var st := Spot([], [0], 0, false, 0);
    NextIs(st);
    InLineIs(st);
    TokensIs(st);
  }

  /** At the end of the text, whether a line was begun or not. */
  lemma EndOfText(blanks: string, stack: seq<nat>)
    requires IsStack(stack) && Body(blanks) == []
    ensures Tokens(Spot(blanks, stack, 0, true, 0)) == Closing(stack)
  {
    hide Tokens, Next, InLine;
    var st := Spot(blanks, stack, 0, true, 0);
    NextIs(st);
    PoppedIsDeeper(stack, 0);
    if |stack| > 1 {
      assert stack[0] < stack[|stack| - 1];
      var kept := Popped(stack, 0);
      assert kept == [0];
      var n := |stack| - 1;
      assert Place(stack, 0) == ([0], [] + Dedents(n));
      assert [] + Dedents(n) == Dedents(n);
      TokensIs(st);
      PendingTokens(Spot([], [0], n - 1, false, 0));
      LastToken();
      assert [Dedent] + Dedents(n - 1) == Dedents(n);
    } else {
      EndInside(stack);
      NextIs(Spot([], stack, 0, false, 0));
      SameTokens(st, Spot([], stack, 0, false, 0));
    }
  }

  /** One line of a text: its layout tokens and its lexemes, and the scan goes on at its end. */
  lemma LineStart(line: string, tail: string, stack: seq<nat>)
    requires Good(line) && Boundary(tail) && IsStack(stack)
    ensures var (now, tokens) := Layout(stack, line);
            && IsStack(now)
            && (tail != [] ==>
                  Tokens(Spot(line + tail, stack, 0, true, 0)) == tokens + Lexemes(line) + Tokens(Spot(tail[1..], now, 0, true, 0)))
            && (tail == [] ==>
                  Tokens(Spot(line + tail, stack, 0, true, 0)) == tokens + Lexemes(line) + Closing(now))
  {
    hide Tokens, Next, InLine, IsStack, Place, Contained, Inner;
    if Skipped(line) {
      SkippedStart(line, tail, stack);
    } else {
      CodeStart(line, tail, stack);
    }
  }

  lemma BodyOf(line: string, tail: string)
    requires Boundary(tail) && (Body(line) == [] || Body(line)[0] != '\n')
    ensures (line + tail)[IndentLength(line + tail)..] == Body(line) + tail && Column(line + tail) == Column(line)
    ensures Body(line) != [] ==> Body(line)[0] != ' ' && Body(line)[0] != '\t'
    ensures StartsBlank(Body(line) + tail) <==> (Body(line) == [] && tail != []) || StartsComment(Body(line))
  {
    IndentLocal(line, tail);
    NotBlank(line);
    var u := Body(line);
    if u != [] {
      Front(u, tail);
      assert |u| > 1 ==> (u + tail)[1] == u[1];
    } else {
      assert u + tail == tail;
    }
  }

  lemma {:induction false} NotBlank(line: string)
    ensures Body(line) != [] ==> Body(line)[0] != ' ' && Body(line)[0] != '\t'
    decreases |line|
  {
    if line != [] && (line[0] == ' ' || line[0] == '\t') {
      NotBlank(line[1..]);
      assert Body(line) == Body(line[1..]);
    }
  }

  lemma SkippedStart(line: string, tail: string, stack: seq<nat>)
    requires Skipped(line) && '\n' !in line && Boundary(tail) && IsStack(stack)
    ensures Tokens(Spot(line + tail, stack, 0, true, 0)) ==
            if tail == [] then Closing(stack) else Tokens(Spot(tail[1..], stack, 0, true, 0))
  {
    hide Tokens, Next, InLine, IsStack, Place, Dedents, StartsBlank;
    var u := Body(line);
    var st, end := Spot(line + tail, stack, 0, true, 0), Spot(tail, stack, 0, true, 0);
    assert forall c :: c in u ==> c in line;
    assert u != [] ==> u[0] in u;
    BodyOf(line, tail);
    NextIs(st);
    if u == [] && tail == [] {
      assert line + tail == line;
      EndOfText(line, stack);
    } else if u == [] {
      assert u + tail == tail;
      PastNewline(tail);
      SameTokens(st, Spot(tail[1..], stack, 0, true, 0));
    } else {
      PastComment(u, tail);
      SameTokens(st, end);
      if tail == [] {
        EndOfText([], stack);
      } else {
        NextIs(end);
        NewlineStarts(tail);
        PastNewline(tail);
        SameTokens(end, Spot(tail[1..], stack, 0, true, 0));
      }
    }
  }

  lemma PastNewline(tail: string)
    requires Boundary(tail) && tail != []
    ensures StartsBlank(tail) && PastBlank(tail) == tail[1..]
  {
  }

  lemma NewlineStarts(tail: string)
    requires Boundary(tail)
    ensures IndentLength(tail) == 0 && tail[0..] == tail
  {
  }

  lemma PastComment(u: string, tail: string)
    requires StartsComment(u) && '\n' !in u && Boundary(tail)
    ensures StartsBlank(u + tail) && PastBlank(u + tail) == tail
  {
    LineLocal(u, tail);
    assert (u + tail)[0] == u[0] && (u + tail)[1] == u[1];
  }

  lemma CodeStart(line: string, tail: string, stack: seq<nat>)
    requires Good(line) && !Skipped(line) && Boundary(tail) && IsStack(stack)
    ensures var (now, tokens) := Place(stack, Column(line));
            && IsStack(now)
            && (tail != [] ==>
                  Tokens(Spot(line + tail, stack, 0, true, 0)) == tokens + Inner(Body(line), 0) + Tokens(Spot(tail[1..], now, 0, true, 0)))
            && (tail == [] ==>
                  Tokens(Spot(line + tail, stack, 0, true, 0)) == tokens + Inner(Body(line), 0) + Closing(now))
  {
    hide *;
    OuterIs(stack);
    var u := Body(line);
    var (now, tokens) := Place(stack, Column(line));
    GoodIs(line);
    BodyOf(line, tail);
    PlaceIs(stack, Column(line));
    CodePlaced(line, u, tail, stack);
    LineInside(u, tail, now, 0);
    if tail == [] {
      EndInside(now);
    } else {
      NewlineInside(tail, now);
    }
  }

  lemma AheadAtNewline(u: string)
    ensures u != [] && u[0] == '\n' ==> Ahead(u) == u
  {
  }

  lemma GoodIs(line: string)
    requires Good(line) && !Skipped(line)
    ensures Body(line) != [] && Body(line)[0] != '\n' && !StartsComment(Body(line)) && Contained(Body(line), 0)
  {
    AheadAtNewline(Body(line));
    hide Body, Ahead;
  }

  /** The layout tokens of a line of code come first. */
  lemma CodePlaced(line: string, u: string, tail: string, stack: seq<nat>)
    requires IsStack(stack) && u != [] && !StartsBlank(u + tail)
    requires (line + tail)[IndentLength(line + tail)..] == u + tail && Column(line + tail) == Column(line)
    ensures var (now, tokens) := Place(stack, Column(line));
            && IsStack(now)
            && Tokens(Spot(line + tail, stack, 0, true, 0)) == tokens + Tokens(Spot(u + tail, now, 0, false, 0))
  {
    hide *;
    OuterIs(stack);
    var (now, tokens) := Place(stack, Column(line));
    var st, inside := Spot(line + tail, stack, 0, true, 0), Spot(u + tail, now, 0, false, 0);
    PlaceIs(stack, Column(line));
    NextIs(st);
    assert u + tail != [];
    if tokens == [] {
      NextIs(inside);
      SameTokens(st, inside);
    } else {
      TokensIs(st);
      LayoutIsNoEnd(tokens[0]);
      PendingTokens(Spot(u + tail, now, |tokens| - 1, false, 0));
      FirstAndDedents(tokens);
    }
  }

  lemma LayoutIsNoEnd(t: Token)
    requires t.IsLayout()
    ensures t != Eof
  {
  }

  lemma FirstAndDedents(tokens: seq<Token>)
    requires tokens != [] && forall i :: 1 <= i < |tokens| ==> tokens[i] == Dedent
    ensures [tokens[0]] + Dedents(|tokens| - 1) == tokens
  {
  }

  lemma NewlineInside(tail: string, stack: seq<nat>)
    requires Boundary(tail) && tail != [] && IsStack(stack)
    ensures Tokens(Spot(tail, stack, 0, false, 0)) == Tokens(Spot(tail[1..], stack, 0, true, 0))
  {
    hide Tokens, Next, InLine, IsStack;
    var st, next := Spot(tail, stack, 0, false, 0), Spot(tail[1..], stack, 0, true, 0);
    NoBlanks(tail);
    NextIs(st);
    InLineIs(st);
    SameTokens(st, next);
  }

  // ----- whole texts -----

  /** The tokens of the lines one after the other. */
  function LinesTokens(stack: seq<nat>, lines: seq<string>): seq<Token>
    requires stack != [] && forall i :: 0 <= i < |lines| ==> Good(lines[i])
    decreases |lines|
  {
    if lines == [] then Closing(stack)
    else
      LayoutNotEmpty(stack, lines[0]);
      var (now, tokens) := Layout(stack, lines[0]);
      tokens + Lexemes(lines[0]) + LinesTokens(now, lines[1..])
  }

  lemma LayoutNotEmpty(stack: seq<nat>, line: string)
    requires stack != []
    ensures Layout(stack, line).0 != []
  {
  }

  /** The lines with a newline after each, or after each but the last. */
  function JoinedLines(lines: seq<string>, ended: bool): string {
    if lines == [] then []
    else if |lines| == 1 && !ended then lines[0]
    else lines[0] + "\n" + JoinedLines(lines[1..], ended)
  }

  /** Scanning a text of such lines gives the tokens of the lines, whether its last line ends in a newline or not. */
  lemma {:induction false} TextTokens(stack: seq<nat>, lines: seq<string>, ended: bool)
    requires IsStack(stack) && forall i :: 0 <= i < |lines| ==> Good(lines[i])
    ensures Tokens(Spot(JoinedLines(lines, ended), stack, 0, true, 0)) == LinesTokens(stack, lines)
    decreases |lines|
  {
    hide Tokens, Good, Layout, Lexemes, IsStack, Closing;
    if lines == [] {
      EndOfText([], stack);
      OuterIs(stack);
    } else {
      var rest := JoinedLines(lines[1..], ended);
      OuterIs(stack);
      BoundaryIs();
      if |lines| == 1 && !ended {
        LineStart(lines[0], "", stack);
        assert lines[0] + "" == lines[0];
        OuterIs(Layout(stack, lines[0]).0);
        assert LinesTokens(Layout(stack, lines[0]).0, lines[1..]) == Closing(Layout(stack, lines[0]).0);
      } else {
        LineStart(lines[0], "\n" + rest, stack);
        assert lines[0] + "\n" + rest == lines[0] + ("\n" + rest) && ("\n" + rest)[1..] == rest;
        TextTokens(Layout(stack, lines[0]).0, lines[1..], ended);
      }
    }
  }
}
