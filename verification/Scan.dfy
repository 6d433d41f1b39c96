/** What the lexer reads: its tokens as a function of the text and of where the scan stands. */
module Scan {
  datatype Token =
    | Indent | Dedent | Eof | Failure
    | Word(text: string) | Number(text: string) | String(text: string) | FString(text: string) | Symbol(text: string)
  {
    predicate IsLayout() { Indent? || Dedent? || Failure? }
  }

  const NUL := 0 as char

  // ----- the indent stack -----

  /** The columns of the open blocks: the outermost is 0, each inner one is deeper. */
  ghost predicate IsStack(stack: seq<nat>) {
    && stack != [] && stack[0] == 0
    && forall i, j :: 0 <= i < j < |stack| ==> stack[i] < stack[j]
  }

  /** The blocks at most as deep as the column. */
  function Popped(stack: seq<nat>, indent: nat): (kept: seq<nat>)
    requires stack != []
    ensures kept != [] && kept <= stack
    decreases |stack|
  {
    if |stack| > 1 && stack[|stack| - 1] > indent then Popped(stack[..|stack| - 1], indent) else stack
  }

  /** What is popped is exactly what is deeper than the column. */
  lemma {:induction false} PoppedIsDeeper(stack: seq<nat>, indent: nat)
    requires IsStack(stack)
    ensures var kept := Popped(stack, indent);
            && IsStack(kept)
            && (forall i :: 0 <= i < |kept| ==> stack[i] <= indent)
            && (forall i :: |kept| <= i < |stack| ==> stack[i] > indent)
    decreases |stack|
  {
    if |stack| > 1 && stack[|stack| - 1] > indent {
      PoppedIsDeeper(stack[..|stack| - 1], indent);
    }
  }

  /** A stack is never deeper than its last column, so narrow indents keep it small. */
  lemma {:induction false} DepthBounded(stack: seq<nat>)
    requires IsStack(stack)
    ensures |stack| - 1 <= stack[|stack| - 1]
    decreases |stack|
  {
    if |stack| > 1 { DepthBounded(stack[..|stack| - 1]); }
  }

  function Dedents(n: nat): seq<Token> {
    seq(n, _ => Dedent)
  }

  /** The open blocks after a line of this column, and the layout tokens before its text. */
  function Place(stack: seq<nat>, indent: nat): (seq<nat>, seq<Token>)
    requires stack != []
  {
    var kept := Popped(stack, indent);
    if indent > stack[|stack| - 1] then (stack + [indent], [Indent])
    else if indent == stack[|stack| - 1] then (stack, [])
    else (kept, (if kept[|kept| - 1] != indent then [Failure] else []) + Dedents(|stack| - |kept|))
  }

  /** A line placed on a stack leaves a stack; a line at column 0 is never inconsistent. */
  lemma PlaceIs(stack: seq<nat>, indent: nat)
    requires IsStack(stack)
    ensures var (now, tokens) := Place(stack, indent);
            && IsStack(now) && (forall c :: c in now ==> c in stack || c == indent)
            && (forall i :: 1 <= i < |tokens| ==> tokens[i] == Dedent)
            && (if tokens == [] then now == stack else tokens[0].IsLayout())
            && (tokens != [] && tokens[0] == Indent ==> |tokens| == 1 && |now| == |stack| + 1)
            && (tokens != [] && tokens[0] != Indent ==>
                  |now| - 1 + |tokens| == |stack| - 1 + (if tokens[0] == Failure then 1 else 0))
            && (indent == 0 && tokens != [] ==> tokens[0] == Dedent)
  {
    PoppedIsDeeper(stack, indent);
    assert |stack| > 1 ==> stack[0] < stack[|stack| - 1];
  }

  // ----- characters -----

  predicate IsDigit(c: char) {
    '0' <= c <= '9'
  }

  predicate IsAlpha(c: char) {
    'a' <= c <= 'z' || 'A' <= c <= 'Z'
  }

  predicate InWord(c: char) {
    IsAlpha(c) || IsDigit(c) || c == '_'
  }

  /** The symbols of two characters, by their first one. */
  function SecondChars(c: char): string {
    match c
    case '.' => "."
    case '-' => "="
    case '+' => "="
    case '/' => "/="
    case '*' => "*="
    case '%' => "="
    case ':' => ":="
    case '=' => "="
    case '!' => "="
    case '<' => "+="
    case '>' => "="
    case _ => []
  }

  const SINGLES := "(){}[];,.-+/*%#?:@=<>"

  predicate IsQuote(c: char) {
    c == '"' || c == '\''
  }

  // ----- lexemes, by their length -----

  function WordLength(s: string): (n: nat)
    ensures n <= |s|
  {
    if s != [] && InWord(s[0]) then 1 + WordLength(s[1..]) else 0
  }

  /** Digits, with single underscores between them. */
  function DigitsLength(s: string, last: bool): (n: nat)
    ensures n <= |s|
  {
    if s != [] && IsDigit(s[0]) then 1 + DigitsLength(s[1..], true)
    else if |s| > 1 && s[0] == '_' && last && IsDigit(s[1]) then 1 + DigitsLength(s[1..], false)
    else 0
  }

  /** What follows the first digit of a number. */
  function NumberLength(s: string): (n: nat)
    ensures n <= |s|
  {
    var a := DigitsLength(s, true);
    var u := s[a..];
    if |u| > 1 && u[0] == '.' && IsDigit(u[1]) then a + 1 + DigitsLength(u[1..], false) else a
  }

  /**
   * Up to and with the closing quote, a backslash taking the next character with it; all of the text if there is none.
   */
  function QuotedLength(s: string, quote: char): (r: (nat, bool))
    ensures r.0 <= |s|
  {
    if s == [] then (0, false)
    else if s[0] == quote then (1, true)
    else
      var k := if s[0] == '\\' && |s| > 1 then 2 else 1;
      var (n, closed) := QuotedLength(s[k..], quote);
      (k + n, closed)
  }

  /** Up to and with the closing brackets. */
  function BracketedLength(s: string): (r: (nat, bool))
    ensures r.0 <= |s|
  {
    if s == [] then (0, false)
    else if |s| > 1 && s[0] == ']' && s[1] == ']' then (2, true)
    else
      var (n, closed) := BracketedLength(s[1..]);
      (1 + n, closed)
  }

  /** Punctuation, by its first character and what follows. */
  function SymbolAt(c: char, u: string): (r: (nat, Token))
    ensures r.0 <= |u| && (r.1.Symbol? || r.1 == Failure)
  {
    if u != [] && u[0] in SecondChars(c) then (1, Symbol([c, u[0]]))
    else if c in SINGLES then (0, Symbol([c]))
    else (0, Failure)
  }

  /** The lexeme at the front of the text: its length and its token. */
  function Lexeme(s: string): (r: (nat, Token))
    requires s != []
    ensures 0 < r.0 <= |s| && r.1 != Indent && r.1 != Dedent && r.1 != Eof
  {
    var c, u := s[0], s[1..];
    if c == 'f' && u != [] && IsQuote(u[0]) then
      var (n, closed) := QuotedLength(u[1..], u[0]);
      (2 + n, if closed then FString(s[..2 + n]) else Failure)
    else if c == 'f' && |u| > 1 && u[0] == '[' && u[1] == '[' then
      var (n, closed) := BracketedLength(u[2..]);
      (3 + n, if closed then FString(s[..3 + n]) else Failure)
    else if IsAlpha(c) || c == '_' then
      var n := 1 + WordLength(u);
      (n, Word(s[..n]))
    else if IsDigit(c) then
      var n := 1 + NumberLength(u);
      (n, Number(s[..n]))
    else if IsQuote(c) then
      var (n, closed) := QuotedLength(u, c);
      (1 + n, if closed then String(s[..1 + n]) else Failure)
    else if c == '[' && u != [] && u[0] == '[' then
      var (n, closed) := BracketedLength(u[1..]);
      (2 + n, if closed then String(s[..2 + n]) else Failure)
    else
      var (n, t) := SymbolAt(c, u);
      (1 + n, t)
  }

  /** The lexeme at the front, case by case. */
  lemma LexemeIs(s: string)
    requires s != []
    ensures 0 < Lexeme(s).0 <= |s|
    ensures var c, u := s[0], s[1..];
            Lexeme(s) ==
              if c == 'f' && u != [] && (u[0] == '"' || u[0] == '\'') then
                var (n, closed) := QuotedLength(u[1..], u[0]);
                (2 + n, if closed then FString(s[..2 + n]) else Failure)
              else if c == 'f' && |u| > 1 && u[0] == '[' && u[1] == '[' then
                var (n, closed) := BracketedLength(u[2..]);
                (3 + n, if closed then FString(s[..3 + n]) else Failure)
              else if IsAlpha(c) || c == '_' then (1 + WordLength(u), Word(s[..1 + WordLength(u)]))
              else if IsDigit(c) then (1 + NumberLength(u), Number(s[..1 + NumberLength(u)]))
              else if c == '"' || c == '\'' then
                var (n, closed) := QuotedLength(u, c);
                (1 + n, if closed then String(s[..1 + n]) else Failure)
              else if c == '[' && u != [] && u[0] == '[' then
                var (n, closed) := BracketedLength(u[1..]);
                (2 + n, if closed then String(s[..2 + n]) else Failure)
              else (1 + SymbolAt(c, u).0, SymbolAt(c, u).1)
    ensures s[0] == '"' || s[0] == '\'' ==> !IsAlpha(s[0]) && !IsDigit(s[0])
    ensures s[0] == '[' ==> !IsAlpha(s[0]) && !IsDigit(s[0])
    ensures s[0] == 'f' ==> IsAlpha(s[0])
  {
    hide WordLength, NumberLength, QuotedLength, BracketedLength, SymbolAt;
  }

  lemma FStringIs(s: string)
    requires |s| > 1 && s[0] == 'f'
    ensures s[1] == '"' || s[1] == '\'' ==>
              var (n, closed) := QuotedLength(s[2..], s[1]);
              2 + n <= |s| && Lexeme(s) == (2 + n, if closed then FString(s[..2 + n]) else Failure)
    ensures |s| > 2 && s[1] == '[' && s[2] == '[' ==>
              var (n, closed) := BracketedLength(s[3..]);
              3 + n <= |s| && Lexeme(s) == (3 + n, if closed then FString(s[..3 + n]) else Failure)
  {
    hide QuotedLength, BracketedLength, WordLength, NumberLength, SymbolAt;
    var u := s[1..];
    assert u[0] == s[1] && u[1..] == s[2..];
    if |s| > 2 { assert u[1] == s[2] && u[2..] == s[3..]; }
  }

  lemma StringIs(s: string)
    requires s != []
    ensures s[0] == '"' || s[0] == '\'' ==>
              var (n, closed) := QuotedLength(s[1..], s[0]);
              1 + n <= |s| && Lexeme(s) == (1 + n, if closed then String(s[..1 + n]) else Failure)
    ensures |s| > 1 && s[0] == '[' && s[1] == '[' ==>
              var (n, closed) := BracketedLength(s[2..]);
              2 + n <= |s| && Lexeme(s) == (2 + n, if closed then String(s[..2 + n]) else Failure)
  {
    hide QuotedLength, BracketedLength, WordLength, NumberLength, SymbolAt;
    var u := s[1..];
    if |s| > 1 { assert u[0] == s[1] && u[1..] == s[2..]; }
  }

  // ----- what lies between lexemes -----

  /** Up to the newline. */
  function LineLength(s: string): (n: nat)
    ensures n <= |s| && (n < |s| ==> s[n] == '\n')
  {
    if s == [] || s[0] == '\n' then 0 else 1 + LineLength(s[1..])
  }

  predicate StartsComment(s: string) {
    |s| > 1 && s[0] == '-' && s[1] == '-'
  }

  /** Spaces, tabs, carriage returns and a comment. */
  function BlanksLength(s: string): (n: nat)
    ensures n <= |s|
  {
    if s != [] && (s[0] == ' ' || s[0] == '\t' || s[0] == '\r') then 1 + BlanksLength(s[1..])
    else if StartsComment(s) then LineLength(s)
    else 0
  }

  function IndentLength(s: string): (n: nat)
    ensures n <= |s|
  {
    if s != [] && (s[0] == ' ' || s[0] == '\t') then 1 + IndentLength(s[1..]) else 0
  }

  /** The column of the first character that is no space or tab; a tab counts four. */
  function Column(s: string): nat {
    if s != [] && s[0] == ' ' then 1 + Column(s[1..])
    else if s != [] && s[0] == '\t' then 4 + Column(s[1..])
    else 0
  }

  /** A blank or a comment line, behind its indent. */
  predicate StartsBlank(u: string) {
    u != [] && (u[0] == '\n' || StartsComment(u))
  }

  // ----- the scan -----

  /** Where the scan stands: the text ahead, the open blocks, the dedents still due, and the nesting of tables. */
  datatype Spot = Spot(rest: string, stack: seq<nat>, pending: nat, atStart: bool, table: nat)

  function Nested(table: nat, t: Token): nat {
    if t == Symbol("{") then table + 1 else if t == Symbol("}") && table > 0 then table - 1 else table
  }

  /** Behind a blank or comment line, at its newline in the second case. */
  function PastBlank(u: string): string
    requires StartsBlank(u)
  {
    if u[0] == '\n' then u[1..] else u[LineLength(u)..]
  }

  lemma PastBlankShorter(u: string)
    requires StartsBlank(u)
    ensures |PastBlank(u)| < |u|
  {
    if u[0] != '\n' { assert LineLength(u) == 1 + LineLength(u[1..]); }
  }

  /** The next token, at the start of a line or inside one. */
  function Next(st: Spot): (Spot, Token)
    requires IsStack(st.stack)
    decreases |st.rest|, 1
  {
    if st.pending > 0 then (st.(pending := st.pending - 1), Dedent)
    else if st.atStart && st.table == 0 then
      var u := st.rest[IndentLength(st.rest)..];
      if StartsBlank(u) then
        PastBlankShorter(u);
        Next(st.(rest := PastBlank(u)))
      else
        var (now, tokens) := Place(st.stack, if u == [] then 0 else Column(st.rest));
        PlaceIs(st.stack, if u == [] then 0 else Column(st.rest));
        if tokens == [] then InLine(Spot(u, now, 0, false, 0))
        else (Spot(u, now, |tokens| - 1, false, 0), tokens[0])
    else InLine(st)
  }

  /** The next token behind blanks. */
  function InLine(st: Spot): (Spot, Token)
    requires IsStack(st.stack)
    decreases |st.rest|, 0
  {
    var u := st.rest[BlanksLength(st.rest)..];
    if u == [] then
      if |st.stack| > 1 then (Spot([], [0], |st.stack| - 2, false, st.table), Dedent)
      else (Spot([], st.stack, 0, false, st.table), Eof)
    else if u[0] == '\n' then Next(Spot(u[1..], st.stack, 0, true, st.table))
    else
      var (n, t) := Lexeme(u);
      (Spot(u[n..], st.stack, 0, false, Nested(st.table, t)), t)
  }

  /** The next token, case by case. */
  lemma NextIs(st: Spot)
    requires IsStack(st.stack)
    ensures st.pending > 0 ==> Next(st) == (st.(pending := st.pending - 1), Dedent)
    ensures st.pending == 0 && !(st.atStart && st.table == 0) ==>
              Next(st) == InLine(st) == InLine(Spot(st.rest, st.stack, 0, false, st.table))
    ensures st.pending == 0 && st.atStart && st.table == 0 ==>
              var u := st.rest[IndentLength(st.rest)..];
              if StartsBlank(u) then Next(st) == Next(Spot(PastBlank(u), st.stack, 0, true, 0))
                 && |PastBlank(u)| < |st.rest|
              else
                var (now, tokens) := Place(st.stack, if u == [] then 0 else Column(st.rest));
                && IsStack(now)
                && Next(st) == if tokens == [] then InLine(Spot(u, now, 0, false, 0))
                   else (Spot(u, now, |tokens| - 1, false, 0), tokens[0])
  {
    hide IndentLength, Column, LineLength, Place, BlanksLength, Lexeme;
    if st.pending == 0 && st.atStart && st.table == 0 {
      var u := st.rest[IndentLength(st.rest)..];
      if StartsBlank(u) { PastBlankShorter(u); } else { PlaceIs(st.stack, if u == [] then 0 else Column(st.rest)); }
    }
  }

  lemma InLineIs(st: Spot)
    requires IsStack(st.stack)
    ensures var u := st.rest[BlanksLength(st.rest)..];
            InLine(st) ==
              if u == [] then
                if |st.stack| > 1 then (Spot([], [0], |st.stack| - 2, false, st.table), Dedent)
                else (Spot([], st.stack, 0, false, st.table), Eof)
              else if u[0] == '\n' then Next(Spot(u[1..], st.stack, 0, true, st.table))
              else
                var (n, t) := Lexeme(u);
                (Spot(u[n..], st.stack, 0, false, Nested(st.table, t)), t)
  {
    hide BlanksLength, Lexeme, Next;
  }

  function Depth(st: Spot): int {
    |st.stack| - 1 + st.pending
  }

  /** A token uses up text, or closes a block, or is the last. */
  ghost predicate Advances(st: Spot, next: Spot, t: Token) {
    && IsStack(next.stack)
    && (t == Eof || |next.rest| < |st.rest| || (|next.rest| == |st.rest| && Depth(next) < Depth(st)))
  }

  lemma {:induction false} NextAdvances(st: Spot)
    requires IsStack(st.stack)
    ensures Advances(st, Next(st).0, Next(st).1)
    decreases |st.rest|, 1
  {
    hide Lexeme, BlanksLength, Place, InLine;
    if st.pending == 0 {
      if st.atStart && st.table == 0 {
        var k := IndentLength(st.rest);
        var u := st.rest[k..];
        if StartsBlank(u) {
          PastBlankShorter(u);
          NextAdvances(st.(rest := PastBlank(u)));
        } else {
          NoColumn(st.rest);
          var indent := if u == [] then 0 else Column(st.rest);
          PlaceIs(st.stack, indent);
          var (now, tokens) := Place(st.stack, indent);
          if tokens == [] { InLineAdvances(Spot(u, now, 0, false, 0)); }
        }
      } else {
        InLineAdvances(st);
      }
    }
  }

  lemma NoColumn(s: string)
    ensures IndentLength(s) == 0 ==> Column(s) == 0
  {
  }

  lemma {:induction false} InLineAdvances(st: Spot)
    requires IsStack(st.stack)
    ensures Advances(st, InLine(st).0, InLine(st).1)
    decreases |st.rest|, 0
  {
    hide Lexeme, BlanksLength, Next;
    var u := st.rest[BlanksLength(st.rest)..];
    if u != [] && u[0] == '\n' {
      NextAdvances(Spot(u[1..], st.stack, 0, true, st.table));
    }
  }

  /** All tokens from here on, up to the end token. */
  ghost function Tokens(st: Spot): seq<Token>
    requires IsStack(st.stack)
    decreases |st.rest|, Depth(st)
  {
    NextAdvances(st);
    var (next, t) := Next(st);
    if t == Eof then [Eof] else [t] + Tokens(next)
  }

  /** The tokens of a text. */
  ghost function Scanned(source: string): seq<Token> {
    Tokens(Spot(source, [0], 0, true, 0))
  }

  // ----- how deep the stack gets -----

  /** What the source's indent array holds. */
  const STACK_SIZE := 256

  /** Lines begin at columns below the size of the array; with `atStart` the text begins with a line. */
  ghost predicate Narrow(s: string, atStart: bool) {
    && (atStart ==> Column(s) < STACK_SIZE)
    && forall k :: 0 <= k < |s| && s[k] == '\n' ==> Column(s[k + 1..]) < STACK_SIZE
  }

  ghost predicate Low(stack: seq<nat>) {
    forall c :: c in stack ==> c < STACK_SIZE
  }

  lemma NarrowEnd(s: string, n: nat, atStart: bool)
    requires Narrow(s, atStart) && n <= |s|
    ensures Narrow(s[n..], false)
    ensures (n > 0 && s[n - 1] == '\n') || n == |s| || s[n] == '\n' ==> Narrow(s[n..], true)
  {
    var u := s[n..];
    forall k | 0 <= k < |u| && u[k] == '\n'
      ensures Column(u[k + 1..]) < STACK_SIZE
    {
      assert s[n + k] == '\n' && u[k + 1..] == s[n + k + 1..];
    }
    if n > 0 && s[n - 1] == '\n' { assert s[n - 1 + 1..] == u; }
  }

  /** One token of such a text keeps the columns low. */
  lemma {:induction false} NextLow(st: Spot)
    requires IsStack(st.stack) && Low(st.stack) && Narrow(st.rest, st.atStart)
    ensures var (next, _) := Next(st); Low(next.stack) && Narrow(next.rest, next.atStart)
    decreases |st.rest|, 1
  {
    hide Lexeme, BlanksLength, Place, InLine, Narrow, Column;
    if st.pending == 0 {
      NextIs(st);
      if st.atStart && st.table == 0 {
        var k := IndentLength(st.rest);
        var u := st.rest[k..];
        NarrowEnd(st.rest, k, true);
        NarrowStart(st.rest);
        if StartsBlank(u) {
          PastBlankNarrow(u);
          NextLow(Spot(PastBlank(u), st.stack, 0, true, 0));
        } else {
          var indent := if u == [] then 0 else Column(st.rest);
          PlaceIs(st.stack, indent);
          var (now, tokens) := Place(st.stack, indent);
          if tokens == [] { InLineLow(Spot(u, now, 0, false, 0)); }
        }
      } else {
        NarrowEnd(st.rest, 0, st.atStart);
        assert st.rest[0..] == st.rest;
        InLineLow(Spot(st.rest, st.stack, 0, false, st.table));
      }
    }
  }

  lemma NarrowStart(s: string)
    requires Narrow(s, true)
    ensures Column(s) < STACK_SIZE
  {
  }

  lemma PastBlankNarrow(u: string)
    requires StartsBlank(u) && Narrow(u, false)
    ensures Narrow(PastBlank(u), true)
  {
    hide Narrow, Column;
    NarrowEnd(u, if u[0] == '\n' then 1 else LineLength(u), false);
  }

  lemma {:induction false} InLineLow(st: Spot)
    requires IsStack(st.stack) && Low(st.stack) && Narrow(st.rest, false)
    ensures var (next, _) := InLine(st); Low(next.stack) && Narrow(next.rest, next.atStart)
    decreases |st.rest|, 0
  {
    hide Lexeme, BlanksLength, Narrow, Next, IsStack;
    InLineIs(st);
    var n := BlanksLength(st.rest);
    var u := st.rest[n..];
    NarrowEnd(st.rest, n, false);
    if u == [] {
      NarrowEnd(u, 0, false);
      assert u[0..] == [];
    } else if u[0] == '\n' {
      NarrowEnd(u, 1, false);
      NextLow(Spot(u[1..], st.stack, 0, true, st.table));
    } else {
      NarrowEnd(u, Lexeme(u).0, false);
    }
  }

  /** At every token from here on at most so many blocks are open. */
  ghost predicate Within(st: Spot, max: nat)
    requires IsStack(st.stack)
    decreases |st.rest|, Depth(st)
  {
    NextAdvances(st);
    |st.stack| <= max && (Next(st).1 != Eof ==> Within(Next(st).0, max))
  }

  lemma {:induction false} LowWithin(st: Spot)
    requires IsStack(st.stack) && Low(st.stack) && Narrow(st.rest, st.atStart)
    ensures Within(st, STACK_SIZE)
    decreases |st.rest|, Depth(st)
  {
    hide Next, Narrow;
    DepthBounded(st.stack);
    assert st.stack[|st.stack| - 1] in st.stack;
    NextAdvances(st);
    NextLow(st);
    if Next(st).1 != Eof { LowWithin(Next(st).0); }
  }

  /** The indent array is large enough for every text whose lines begin below column 256. */
  lemma StackFits(source: string)
    requires Narrow(source, true)
    ensures Within(Spot(source, [0], 0, true, 0), STACK_SIZE)
  {
    hide Narrow, Within;
    LowWithin(Spot(source, [0], 0, true, 0));
  }
}
