/** The layout-sensitive lexer: it gives out the tokens of the text, and its blocks always balance. */
module Lexer {
  import opened Scan

  // ----- newlines -----

  /** No backslash stands right before a newline. */
  ghost predicate PlainNewlines(s: string) {
    forall i :: 0 < i < |s| && s[i] == '\n' ==> s[i - 1] != '\\'
  }

  function Newlines(s: string): nat {
    if s == [] then 0 else Newlines(s[..|s| - 1]) + (if s[|s| - 1] == '\n' then 1 else 0)
  }

  lemma NewlinesNext(s: string, i: nat)
    requires i < |s|
    ensures Newlines(s[..i + 1]) == Newlines(s[..i]) + (if s[i] == '\n' then 1 else 0)
  {
    assert s[..i + 1][..i] == s[..i];
  }

  /** What a token does to the nesting. */
  function Change(t: Token): int {
    if t == Indent then 1 else if t == Dedent then -1 else 0
  }

  class Lexer {
    const source: string
    var current: nat
    var line: nat
    var indentStack: seq<nat>
    var pendingDedents: nat
    var atStartOfLine: bool
    var insideTable: nat

    /** Newlines that went by uncounted. */
    ghost var missed: nat

    /** `init_lexer` */
    constructor (source: string)
      requires NUL !in source
      ensures Valid() && this.source == source && Here() == Spot(source, [0], 0, true, 0)
    {
      this.source := source;
      current, line := 0, 1;
      indentStack := [0];
      pendingDedents := 0;
      atStartOfLine := true;
      insideTable := 0;
      missed := 0;
      new;
      assert source[0..] == source;
    }

    ghost predicate Valid()
      reads `current, `line, `indentStack, `missed
    {
      && current <= |source| && NUL !in source && IsStack(indentStack)
      && line + missed == 1 + Newlines(source[..current])
      && (PlainNewlines(source) ==> missed == 0)
    }

    ghost function Rest(): string
      requires current <= |source|
      reads `current
    {
      source[current..]
    }

    /** Where the scan stands. */
    ghost function Here(): Spot
      requires current <= |source|
      reads this
    {
      Spot(Rest(), indentStack, pendingDedents, atStartOfLine, insideTable)
    }

    predicate AtEnd()
      reads `current
    {
      current >= |source|
    }

    function Peek(): char
      reads `current
    {
      if current < |source| then source[current] else NUL
    }

    function PeekNext(): char
      reads `current
    {
      if current + 1 < |source| then source[current + 1] else NUL
    }

    /** The characters looked at are those at the front of the rest; NUL stands for the end only. */
    lemma Look()
      requires Valid()
      ensures (AtEnd() <==> Rest() == []) && NUL == 0 as char
      ensures if Rest() == [] then Peek() == NUL else Peek() == Rest()[0] != NUL
      ensures if |Rest()| <= 1 then PeekNext() == NUL else PeekNext() == Rest()[1] != NUL
    {
      assert |Rest()| > 1 ==> Rest()[1] == source[current + 1];
    }

    /** `advance`, counting the line when the caller does. */
    method Advance(counted: bool)
      requires Valid() && !AtEnd()
      requires !counted && source[current] == '\n' ==> !PlainNewlines(source)
      modifies `current, `line, `missed
      ensures Valid() && current == old(current) + 1 && Rest() == old(Rest())[1..]
    {
      NewlinesNext(source, current);
      if source[current] == '\n' {
        if counted {
          line := line + 1;
        } else {
          missed := missed + 1;
        }
      }
      current := current + 1;
    }

    lemma InBounds()
      requires Valid()
      ensures current <= |source|
    {
    }

    /** Spaces and tabs at the start of a line; a tab counts four columns. */
    method MeasureIndent() returns (indent: nat)
      requires Valid()
      modifies `current, `line, `missed
      ensures Valid()
      ensures Rest() == old(Rest())[IndentLength(old(Rest()))..] && indent == Column(old(Rest()))
    {
      InBounds();
      hide Valid;
      indent := 0;
      ghost var s, k := Rest(), 0;
      while Peek() == ' ' || Peek() == '\t'
        invariant Valid() && current <= |source| && k <= |s| && Rest() == s[k..]
        invariant k + IndentLength(Rest()) == IndentLength(s) && indent + Column(Rest()) == Column(s)
        decreases |source| - current
      {
        Look();
        indent := indent + if Peek() == ' ' then 1 else 4;
        Advance(true);
        InBounds();
        k := k + 1;
      }
      Look();
    }

    /** To the end of the line, for comments. */
    method SkipLine()
      requires Valid()
      modifies `current, `line, `missed
      ensures Valid() && Rest() == old(Rest())[LineLength(old(Rest()))..]
    {
      InBounds();
      hide Valid;
      ghost var s, k := Rest(), 0;
      while Peek() != '\n' && !AtEnd()
        invariant Valid() && current <= |source| && k <= |s| && Rest() == s[k..]
        invariant k + LineLength(Rest()) == LineLength(s)
        decreases |source| - current
      {
        Look();
        Advance(true);
        InBounds();
        k := k + 1;
      }
      Look();
    }

    /** Spaces, tabs, carriage returns and comments inside a line. */
    method SkipBlanks()
      requires Valid()
      modifies `current, `line, `missed
      ensures Valid() && Rest() == old(Rest())[BlanksLength(old(Rest()))..]
    {
      InBounds();
      hide *;
      ghost var s, k := Rest(), 0;
      assert s[0..] == s;
      while true
        invariant Valid() && current <= |source| && 0 <= k <= |s| && Rest() == s[k..]
        invariant k + BlanksLength(Rest()) == BlanksLength(s)
        decreases |Rest()|
      {
        Look();
        ghost var u := Rest();
        BlanksIs(u);
        var c := Peek();
        if c == ' ' || c == '\t' || c == '\r' {
          Advance(true);
          assert s[k..][1..] == s[k + 1..];
          k := k + 1;
        } else if c == '-' && PeekNext() == '-' {
          SkipLine();
          assert s[k..][LineLength(u)..] == s[k + LineLength(u)..];
          k := k + LineLength(u);
        } else {
          break;
        }
        InBounds();
      }
    }

    /** Opens a block, closes blocks, or neither; a line between two open blocks is an error. */
    method PlaceLine(indent: nat) returns (emits: bool, t: Token)
      requires Valid() && pendingDedents == 0
      modifies `indentStack, `pendingDedents
      ensures Valid()
      ensures var (now, tokens) := Place(old(indentStack), indent);
              && indentStack == now && emits == (tokens != [])
              && pendingDedents == (if emits then |tokens| - 1 else 0) && (emits ==> t == tokens[0])
    {
      ghost var was := indentStack;
      PlaceIs(was, indent);
      PoppedIsDeeper(was, indent);
      var currentIndent := indentStack[|indentStack| - 1];
      if indent > currentIndent {
        indentStack := indentStack + [indent];
        return true, Indent;
      }
      if indent < currentIndent {
        while |indentStack| > 1 && indentStack[|indentStack| - 1] > indent
          invariant indentStack != [] && indentStack <= was && Popped(indentStack, indent) == Popped(was, indent)
          invariant pendingDedents == |was| - |indentStack|
          decreases |indentStack|
        {
          indentStack := indentStack[..|indentStack| - 1];
          pendingDedents := pendingDedents + 1;
        }
        if indentStack[|indentStack| - 1] != indent {
          return true, Failure;
        }
        if pendingDedents > 0 {
          pendingDedents := pendingDedents - 1;
          return true, Dedent;
        }
      }
      return false, Eof;
    }

    // ----- tokens inside a line -----

    /** `identifier` */
    method ScanWord()
      requires Valid()
      modifies `current, `line, `missed
      ensures Valid() && Rest() == old(Rest())[WordLength(old(Rest()))..]
    {
      InBounds();
      hide Valid;
      ghost var s, k := Rest(), 0;
      while IsAlpha(Peek()) || IsDigit(Peek()) || Peek() == '_'
        invariant Valid() && current <= |source| && k <= |s| && Rest() == s[k..]
        invariant k + WordLength(Rest()) == WordLength(s)
        decreases |source| - current
      {
        Look();
        Advance(true);
        InBounds();
        k := k + 1;
      }
      Look();
    }

    /** Digits, with single underscores between them. */
    method ScanDigits(lastWasDigit: bool)
      requires Valid()
      modifies `current, `line, `missed
      ensures Valid() && Rest() == old(Rest())[DigitsLength(old(Rest()), lastWasDigit)..]
    {
      InBounds();
      hide Valid;
      var last := lastWasDigit;
      ghost var s, k := Rest(), 0;
      while true
        invariant Valid() && current <= |source| && k <= |s| && Rest() == s[k..]
        invariant k + DigitsLength(Rest(), last) == DigitsLength(s, lastWasDigit)
        decreases |source| - current
      {
        Look();
        var c := Peek();
        if IsDigit(c) {
          last := true;
          Advance(true);
        } else if c == '_' && last && IsDigit(PeekNext()) {
          last := false;
          Advance(true);
        } else {
          break;
        }
        InBounds();
        k := k + 1;
      }
    }

    /** `number` */
    method ScanNumber()
      requires Valid()
      modifies `current, `line, `missed
      ensures Valid() && Rest() == old(Rest())[NumberLength(old(Rest()))..]
    {
      InBounds();
      hide Valid, DigitsLength;
      ScanDigits(true);
      Look();
      InBounds();
      if Peek() == '.' && IsDigit(PeekNext()) {
        Advance(true);
        ScanDigits(false);
      }
    }

    /**
     * `string` and `fstring_quoted`: up to the closing quote, a backslash taking the next character with it. In
     * an f-string a newline behind a backslash is not counted.
     */
    method ScanQuoted(quote: char, isFString: bool) returns (closed: bool)
      requires Valid() && quote != NUL
      modifies `current, `line, `missed
      ensures Valid() && Rest() == old(Rest())[QuotedLength(old(Rest()), quote).0..]
      ensures closed == QuotedLength(old(Rest()), quote).1
    {
      InBounds();
      ghost var s, k := Rest(), 0;
      while Peek() != quote && !AtEnd()
        invariant Valid() && current <= |source| && k <= |s| && Rest() == s[k..]
        invariant k + QuotedLength(Rest(), quote).0 == QuotedLength(s, quote).0
        invariant QuotedLength(Rest(), quote).1 == QuotedLength(s, quote).1
        decreases |source| - current
      {
        Look();
        if Peek() == '\\' && PeekNext() != NUL {
          Advance(true);
          Advance(!isFString);
          k := k + 2;
        } else {
          Advance(true);
          k := k + 1;
        }
      }
      Look();
      if AtEnd() {
        return false;
      }
      Advance(true);
      return true;
    }

    /** `multiline_string` and `fstring_multiline`, behind the opening brackets. */
    method ScanBracketed() returns (closed: bool)
      requires Valid()
      modifies `current, `line, `missed
      ensures Valid() && Rest() == old(Rest())[BracketedLength(old(Rest())).0..]
      ensures closed == BracketedLength(old(Rest())).1
    {
      InBounds();
      hide Valid;
      ghost var s, k := Rest(), 0;
      while !AtEnd()
        invariant Valid() && current <= |source| && k <= |s| && Rest() == s[k..]
        invariant k + BracketedLength(Rest()).0 == BracketedLength(s).0
        invariant BracketedLength(Rest()).1 == BracketedLength(s).1
        decreases |source| - current
      {
        Look();
        if Peek() == ']' && PeekNext() == ']' {
          Advance(true);
          Advance(true);
          return true;
        }
        Advance(true);
        InBounds();
        k := k + 1;
      }
      Look();
      return false;
    }

    lemma StartsHere()
      requires current <= |source|
      ensures Rest() == source[current..]
    {
    }

    /** What lies between two places is the front of the text from the first one on. */
    lemma Taken(start: nat, s: string, n: nat)
      requires start <= |source| && current <= |source| && s == source[start..] && n <= |s| && Rest() == s[n..]
      ensures current == start + n && source[start..current] == s[..n]
    {
      assert |Rest()| == |source| - current;
    }

    /** The token at the current character; braces count the nesting of tables. */
    method ScanLexeme() returns (t: Token)
      requires Valid() && !AtEnd()
      modifies `current, `line, `missed, `insideTable
      ensures Valid()
      ensures old(Rest()) != [] && Rest() == old(Rest())[Lexeme(old(Rest())).0..] && t == Lexeme(old(Rest())).1
      ensures insideTable == Nested(old(insideTable), t)
    {
      hide *;
      InBounds();
      Look();
      ghost var s := Rest();
      StartsHere();
      LexemeIs(s);
      var c := Peek();
      var start := current;
      Advance(true);
      InBounds();
      Look();
      OnlySymbolsNest(insideTable);
      if c == 'f' && (Peek() == '"' || Peek() == '\'' || (Peek() == '[' && PeekNext() == '[')) {
        t := ScanFString(start, s);
      } else if IsAlpha(c) || c == '_' {
        t := WordFrom(start, s);
      } else if IsDigit(c) {
        t := NumberFrom(start, s);
      } else if c == '"' || c == '\'' || (c == '[' && Peek() == '[') {
        t := ScanString(start, s, c);
      } else {
        t := ScanSymbol(c);
        SymbolEnds(s, c);
      }
    }

    method WordFrom(start: nat, ghost s: string) returns (t: Token)
      requires Valid() && start < current && s == source[start..] && s != [] && Rest() == s[1..]
      modifies `current, `line, `missed
      ensures Valid() && 1 + WordLength(s[1..]) <= |s| && Rest() == s[1 + WordLength(s[1..])..]
      ensures t == Word(s[..1 + WordLength(s[1..])])
    {
      hide *;
      InBounds();
      ghost var n := WordLength(s[1..]);
      ScanWord();
      InBounds();
      assert n <= |s[1..]| && s[1..][n..] == s[1 + n..];
      Taken(start, s, 1 + n);
      t := Word(source[start..current]);
    }

    method NumberFrom(start: nat, ghost s: string) returns (t: Token)
      requires Valid() && start < current && s == source[start..] && s != [] && Rest() == s[1..]
      modifies `current, `line, `missed
      ensures Valid() && 1 + NumberLength(s[1..]) <= |s| && Rest() == s[1 + NumberLength(s[1..])..]
      ensures t == Number(s[..1 + NumberLength(s[1..])])
    {
      hide *;
      InBounds();
      ghost var n := NumberLength(s[1..]);
      ScanNumber();
      InBounds();
      assert n <= |s[1..]| && s[1..][n..] == s[1 + n..];
      Taken(start, s, 1 + n);
      t := Number(source[start..current]);
    }

    /** A quoted body behind the first `k` characters of the lexeme. */
    method QuotedFrom(start: nat, ghost s: string, ghost k: nat, quote: char, isFString: bool)
      returns (closed: bool, text: string)
      requires Valid() && start <= |source| && s == source[start..] && k <= |s| && Rest() == s[k..] && quote != NUL
      modifies `current, `line, `missed
      ensures var (n, found) := QuotedLength(s[k..], quote);
              Valid() && k + n <= |s| && Rest() == s[k + n..] && text == s[..k + n] && closed == found
    {
      hide *;
      InBounds();
      ghost var n := QuotedLength(s[k..], quote).0;
      SliceTwice(s, k, n);
      closed := ScanQuoted(quote, isFString);
      InBounds();
      Taken(start, s, k + n);
      text := source[start..current];
    }

    /** A bracketed body behind the first `k` characters of the lexeme. */
    method BracketedFrom(start: nat, ghost s: string, ghost k: nat) returns (closed: bool, text: string)
      requires Valid() && start <= |source| && s == source[start..] && k <= |s| && Rest() == s[k..]
      modifies `current, `line, `missed
      ensures var (n, found) := BracketedLength(s[k..]);
              Valid() && k + n <= |s| && Rest() == s[k + n..] && text == s[..k + n] && closed == found
    {
      hide *;
      InBounds();
      ghost var n := BracketedLength(s[k..]).0;
      SliceTwice(s, k, n);
      closed := ScanBracketed();
      InBounds();
      Taken(start, s, k + n);
      text := source[start..current];
    }

    /** `fstring_quoted` and `fstring_multiline` behind the `f`. */
    method ScanFString(start: nat, ghost s: string) returns (t: Token)
      requires Valid() && start <= |source| && s == source[start..] && s != [] && s[0] == 'f' && Rest() == s[1..]
      requires Peek() == '"' || Peek() == '\'' || (Peek() == '[' && PeekNext() == '[')
      modifies `current, `line, `missed
      ensures Valid() && Rest() == s[Lexeme(s).0..] && t == Lexeme(s).1
    {
      hide *;
      InBounds();
      Look();
      FStringIs(s);
      SliceTwice(s, 1, 1);
      var closed, text;
      if Peek() == '"' || Peek() == '\'' {
        var quote := Peek();
        Advance(true);
        closed, text := QuotedFrom(start, s, 2, quote, true);
      } else {
        Advance(true);
        SliceTwice(s, 2, 1);
        Ahead(s, 2);
        Advance(true);
        closed, text := BracketedFrom(start, s, 3);
      }
      t := if closed then FString(text) else Failure;
    }

    /** `string` and `multiline_string` behind their first character. */
    method ScanString(start: nat, ghost s: string, c: char) returns (t: Token)
      requires Valid() && start <= |source| && s == source[start..] && s != [] && s[0] == c && Rest() == s[1..]
      requires c == '"' || c == '\'' || (c == '[' && Peek() == '[')
      modifies `current, `line, `missed
      ensures Valid() && Rest() == s[Lexeme(s).0..] && t == Lexeme(s).1
    {
      hide *;
      InBounds();
      Look();
      StringIs(s);
      var closed, text;
      if c == '[' {
        SliceTwice(s, 1, 1);
        Advance(true);
        closed, text := BracketedFrom(start, s, 2);
      } else {
        closed, text := QuotedFrom(start, s, 1, c, false);
      }
      t := if closed then String(text) else Failure;
    }

    lemma Ahead(s: string, k: nat)
      requires Valid() && k < |s| && Rest() == s[k..]
      ensures !AtEnd()
    {
    }

    /** Punctuation behind its first character. */
    method ScanSymbol(c: char) returns (t: Token)
      requires Valid()
      modifies `current, `line, `missed, `insideTable
      ensures Valid() && Rest() == old(Rest())[SymbolAt(c, old(Rest())).0..] && t == SymbolAt(c, old(Rest())).1
      ensures insideTable == Nested(old(insideTable), t)
    {
      hide *;
      InBounds();
      Look();
      SymbolIs(c, Rest(), insideTable);
      assert Rest()[0..] == Rest();
      if c == '{' {
        insideTable := insideTable + 1;
        return Symbol([c]);
      }
      if c == '}' {
        if insideTable > 0 { insideTable := insideTable - 1; }
        return Symbol([c]);
      }
      if Peek() in SecondChars(c) {
        t := Symbol([c, Peek()]);
        Advance(true);
        return;
      }
      if c in SINGLES {
        return Symbol([c]);
      }
      return Failure;
    }

    // ----- scanning -----

    /**
     * The start of a line: exactly blank and comment lines are skipped; any other line is placed by its width up to
     * the first character, and what is left at the end of the text as if it had none.
     */
    method StartLine() returns (again: bool, emits: bool, t: Token)
      requires Valid() && pendingDedents == 0 && atStartOfLine && insideTable == 0
      modifies this
      ensures Valid() && insideTable == 0 && (!again && !emits ==> indentStack == old(indentStack))
      ensures var s := old(Rest()); var u := s[IndentLength(s)..]; var stack := old(indentStack);
              && (again <==> StartsBlank(u))
              && (if again then !emits && Here() == Spot(PastBlank(u), stack, 0, true, 0)
                  else
                    var (now, tokens) := Place(stack, if u == [] then 0 else Column(s));
                    && emits == (tokens != []) && (emits ==> t == tokens[0])
                    && Here() == Spot(u, now, if emits then |tokens| - 1 else 0, false, 0))
    {
      hide *;
      InBounds();
      ghost var s := Rest();
      StartIs(s[IndentLength(s)..]);
      HereIs();
      t := Eof;
      atStartOfLine := false;
      var indent := MeasureIndent();
      InBounds();
      Look();
      if Peek() == '\n' || (Peek() == '-' && PeekNext() == '-') {
        atStartOfLine := true;
          if Peek() == '\n' {
          Advance(true);
        } else {
          SkipLine();
        }
        InBounds();
        HereIs();
        return true, false, Eof;
      }
      if AtEnd() {
        indent := 0;
      }
      SamePlace(indentStack, indent);
      emits, t := PlaceLine(indent);
      InBounds();
      HereIs();
      again := false;
    }

    /** At the end of the text every open block is due to be closed. */
    method CloseAll()
      requires Valid() && |indentStack| > 1
      modifies `indentStack, `pendingDedents
      ensures Valid() && indentStack == [0] && pendingDedents == old(|indentStack|) - 1
    {
      pendingDedents := |indentStack| - 1;
      indentStack := [0];
    }

    /** The part of `scan_token` inside a line; `again` says that it starts over. */
    method ScanInside() returns (again: bool, t: Token)
      requires Valid() && pendingDedents == 0 && !atStartOfLine
      modifies this
      ensures Valid() && (!again ==> (Here(), t) == InLine(old(Here())))
      ensures again ==> Next(Here()) == InLine(old(Here()))
      ensures again ==> |Rest()| < old(|Rest()|) || (|Rest()| == old(|Rest()|) && |indentStack| < old(|indentStack|))
    {
      hide Valid, Next, InLine, BlanksLength, Lexeme, Nested, IsStack;
      InBounds();
      Stack();
      InLineIs(Here());
      t := Eof;
      SkipBlanks();
      InBounds();
      Look();
      if Peek() == '\n' {
        Advance(true);
        InBounds();
        atStartOfLine := true;
        return true, t;
      }
      if AtEnd() {
        if |indentStack| > 1 {
          CloseAll();
          Stack();
          NextIs(Here());
          return true, t;
        }
        return false, Eof;
      }
      t := ScanLexeme();
      InBounds();
      again := false;
    }

    /** `scan_token` */
    method ScanToken() returns (t: Token)
      requires Valid()
      modifies this
      ensures Valid() && (Here(), t) == Next(old(Here()))
    {
      hide Valid, Next, InLine, Place, IndentLength, Column, PastBlank, StartsBlank, BlanksLength, Lexeme, Nested,
        IsStack;
      InBounds();
      Stack();
      ghost var st := Here();
      var again := true;
      t := Eof;
      while again
        invariant Valid() && current <= |source| && IsStack(indentStack)
        invariant if again then Next(Here()) == Next(st) else (Here(), t) == Next(st)
        decreases again, |Rest()|, |indentStack|
      {
        NextIs(Here());
        if pendingDedents > 0 {
          pendingDedents := pendingDedents - 1;
          return Dedent;
        }
        if atStartOfLine && insideTable == 0 {
          var skipped, emits;
          skipped, emits, t := StartLine();
          InBounds();
          Stack();
          if skipped {
            continue;
          }
          if emits {
            return;
          }
        } else if atStartOfLine {
          atStartOfLine := false;
        }
        again, t := ScanInside();
        InBounds();
        Stack();
      }
    }

    lemma SamePlace(stack: seq<nat>, indent: nat)
      requires Valid() && stack == indentStack
      ensures Place(stack, indent).1 == [] ==> Place(stack, indent).0 == stack
    {
      PlaceIs(stack, indent);
    }

    lemma HereIs()
      requires current <= |source|
      ensures Here() == Spot(Rest(), indentStack, pendingDedents, atStartOfLine, insideTable)
    {
    }

    lemma Standing()
      requires Valid()
      ensures current <= |source| && IsStack(Here().stack)
    {
    }

    lemma Stack()
      requires Valid()
      ensures IsStack(indentStack) && IsStack([0])
    {
    }
  }

  lemma SliceTwice(s: string, k: nat, n: nat)
    requires k + n <= |s|
    ensures s[k..][n..] == s[k + n..]
  {
  }

  lemma OnlySymbolsNest(table: nat)
    ensures forall t: Token :: !t.Symbol? ==> Nested(table, t) == table
  {
  }

  /** Punctuation, case by case, and what it does to the nesting. */
  lemma SymbolIs(c: char, u: string, table: nat)
    ensures SymbolAt(c, u) ==
            if u != [] && u[0] in SecondChars(c) then (1, Symbol([c, u[0]]))
            else if c in SINGLES then (0, Symbol([c]))
            else (0, Failure)
    ensures NUL !in SecondChars(c) && (c == '{' || c == '}' ==> SecondChars(c) == [] && c in SINGLES)
    ensures Nested(table, Failure) == table && forall d :: Nested(table, Symbol([c, d])) == table
    ensures Nested(table, Symbol([c])) == if c == '{' then table + 1 else if c == '}'
            && table > 0 then table - 1 else table
  {
    SecondsAre(c);
    forall d: char
      ensures Nested(table, Symbol([c, d])) == table
    {
      LongSymbol(table, [c, d]);
    }
    ShortSymbol(table, c);
    hide SecondChars, Nested;
    assert SINGLES[2] == '{' && SINGLES[3] == '}';
  }

  lemma SecondsAre(c: char)
    ensures NUL !in SecondChars(c) && (c == '{' || c == '}' ==> SecondChars(c) == [])
  {
  }

  lemma LongSymbol(table: nat, text: string)
    requires |text| == 2
    ensures Nested(table, Symbol(text)) == table
  {
    assert text != "{" && text != "}";
  }

  lemma ShortSymbol(table: nat, c: char)
    ensures Nested(table, Symbol([c])) == if c == '{' then table + 1 else if c == '}'
            && table > 0 then table - 1 else table
  {
    assert [c] == "{" <==> c == '{' by { assert [c][0] == c; }
    assert [c] == "}" <==> c == '}' by { assert [c][0] == c; }
  }

  /** A symbol at the front ends where its punctuation does. */
  lemma SymbolEnds(s: string, c: char)
    requires s != [] && s[0] == c
    ensures SymbolAt(c, s[1..]).0 <= |s| - 1 && s[1..][SymbolAt(c, s[1..]).0..] == s[1 + SymbolAt(c, s[1..]).0..]
  {
    hide SymbolAt;
  }

  lemma StartIs(u: string)
    ensures StartsBlank(u) <==> u != [] && (u[0] == '\n' || (|u| > 1 && u[0] == '-' && u[1] == '-'))
    ensures StartsBlank(u) ==> PastBlank(u) == if u[0] == '\n' then u[1..] else u[LineLength(u)..]
  {
    hide LineLength;
  }

  /** Blanks at the front, step by step. */
  lemma BlanksIs(u: string)
    ensures BlanksLength(u) <= |u| && LineLength(u) <= |u|
    ensures BlanksLength(u) ==
            if u != [] && (u[0] == ' ' || u[0] == '\t' || u[0] == '\r') then 1 + BlanksLength(u[1..])
            else if |u| > 1 && u[0] == '-' && u[1] == '-' then LineLength(u)
            else 0
    ensures |u| > 1 && u[0] == '-' && u[1] == '-' ==> 0 < LineLength(u) && BlanksLength(u[LineLength(u)..]) == 0
  {
    if StartsComment(u) {
      assert LineLength(u) == 1 + LineLength(u[1..]);
    }
  }

  // ----- whole inputs -----

  /** Blocks opened minus blocks closed. */
  function Balance(tokens: seq<Token>): int {
    if tokens == [] then 0 else Balance(tokens[..|tokens| - 1]) + Change(tokens[|tokens| - 1])
  }

  /** A token says how many blocks are open now. */
  lemma {:induction false} NextBalances(st: Spot)
    requires IsStack(st.stack)
    ensures var (next, t) := Next(st);
            IsStack(next.stack) && Depth(next) == Depth(st) + Change(t) && (t == Eof ==> next.stack == [0] && next.pending == 0)
    decreases |st.rest|, 1
  {
    hide Next, InLine, Place, IndentLength, Column, BlanksLength, Lexeme;
    NextIs(st);
    if st.pending == 0 {
      if st.atStart && st.table == 0 {
        var u := st.rest[IndentLength(st.rest)..];
        if StartsBlank(u) {
          NextBalances(Spot(PastBlank(u), st.stack, 0, true, 0));
        } else {
          var indent := if u == [] then 0 else Column(st.rest);
          PlaceIs(st.stack, indent);
          var (now, tokens) := Place(st.stack, indent);
          if tokens == [] { InLineBalances(Spot(u, now, 0, false, 0)); }
        }
      } else {
        InLineBalances(Spot(st.rest, st.stack, 0, false, st.table));
      }
    }
  }

  lemma {:induction false} InLineBalances(st: Spot)
    requires IsStack(st.stack) && st.pending == 0
    ensures var (next, t) := InLine(st);
            IsStack(next.stack) && Depth(next) == Depth(st) + Change(t) && (t == Eof ==> next.stack == [0] && next.pending == 0)
    decreases |st.rest|, 0
  {
    hide Next, InLine, BlanksLength;
    InLineIs(st);
    var u := st.rest[BlanksLength(st.rest)..];
    if u != [] && u[0] == '\n' { NextBalances(Spot(u[1..], st.stack, 0, true, st.table)); }
  }

  /**
   * Scanning any text gives its tokens: one end token, after as many dedents as indents, and never more dedents than
   * indents on the way, whatever errors came up.
   */
  method ScanAll(source: string) returns (tokens: seq<Token>)
    requires NUL !in source
    ensures tokens == Scanned(source)
    ensures tokens != [] && tokens[|tokens| - 1] == Eof && Balance(tokens) == 0
    ensures forall i :: 0 <= i < |tokens| - 1 ==> tokens[i] != Eof
    ensures forall i :: 0 <= i <= |tokens| ==> Balance(tokens[..i]) >= 0
  {
    hide *;
    var lexer := new Lexer(source);
    tokens := [];
    NothingScanned(source);
    var t := Indent;
    lexer.Standing();
    while t != Eof
      invariant lexer.Valid() && fresh(lexer) && lexer.current <= |lexer.source| && IsStack(lexer.Here().stack)
      invariant t != Eof ==> tokens + Tokens(lexer.Here()) == Scanned(source)
      invariant Balance(tokens) == Depth(lexer.Here()) && NeverNegative(tokens)
      invariant if t == Eof then |tokens| > 0 && tokens[|tokens| - 1] == Eof && tokens == Scanned(source)
                && Balance(tokens) == 0
                else Eof !in tokens
      invariant forall i :: 0 <= i < |tokens| - 1 ==> tokens[i] != Eof
      decreases t != Eof, |lexer.Here().rest|, Depth(lexer.Here())
    {
      ghost var here := lexer.Here();
      NextAdvances(here);
      NextBalances(here);
      AdvancesIs(here, Next(here).0, Next(here).1);
      TokensNext(here);
      t := lexer.ScanToken();
      lexer.Standing();
      OneMore(tokens, t);
      tokens := tokens + [t];
    }
    NeverNegativeIs(tokens);
  }

  lemma AdvancesIs(st: Spot, next: Spot, t: Token)
    requires Advances(st, next, t)
    ensures IsStack(next.stack) && Depth(next) >= 0 && (next.stack == [0] && next.pending == 0 ==> Depth(next) == 0)
    ensures t == Eof || |next.rest| < |st.rest| || (|next.rest| == |st.rest| && Depth(next) < Depth(st))
  {
  }

  lemma TokensNext(st: Spot)
    requires IsStack(st.stack)
    ensures IsStack(Next(st).0.stack)
    ensures Tokens(st) == if Next(st).1 == Eof then [Eof] else [Next(st).1] + Tokens(Next(st).0)
  {
    hide Next;
    NextAdvances(st);
  }

  /** No beginning of the tokens has more dedents than indents. */
  ghost predicate NeverNegative(tokens: seq<Token>) {
    forall i :: 0 <= i <= |tokens| ==> Balance(tokens[..i]) >= 0
  }

  lemma NeverNegativeIs(tokens: seq<Token>)
    requires NeverNegative(tokens)
    ensures forall i :: 0 <= i <= |tokens| ==> Balance(tokens[..i]) >= 0
  {
  }

  lemma NothingScanned(source: string)
    ensures Balance([]) == 0 && NeverNegative([]) && Depth(Spot(source, [0], 0, true, 0)) == 0
    ensures IsStack([0]) && [] + Tokens(Spot(source, [0], 0, true, 0)) == Scanned(source)
  {
    hide Tokens;
  }

  lemma OneMore(tokens: seq<Token>, t: Token)
    ensures Balance(tokens + [t]) == Balance(tokens) + Change(t)
    ensures Change(Eof) == 0
    ensures NeverNegative(tokens) && Balance(tokens + [t]) >= 0 ==> NeverNegative(tokens + [t])
  {
    var all := tokens + [t];
    assert all[..|tokens|] == tokens && all[..|all|] == all;
    assert forall i :: 0 <= i <= |tokens| ==> all[..i] == tokens[..i];
  }
}
