/**
 * What formatting does to the tokens of a program: for sources whose lexemes and tables end within their lines, strings
 * in `[[` and `]]` aside, the lexer reads the formatted text as it read the source exactly when every line of code is put
 * at a level that stands to the open blocks as its column did. A line here reaches up to the end of such a string.
 */
module FormatLayout {
  import opened Formatter
  import S = Scan
  import opened LineTokens
  import opened LongStrings
  import L = Lexemes

  // ----- the two views of a line -----

  /**
   * A line that means the same to lexer and formatter: no carriage return, no lexeme or table past its end, no open
   * `[[`.
   */
  predicate Plain(line: string) {
    Good(line) && Ended(line)
  }

  /** The lines of a source, up to the ends of their strings. */
  function Units(s: string): seq<string> {
    Logical(Lines(s))
  }

  /** A source of such lines. */
  ghost predicate Clean(s: string) {
    forall i :: 0 <= i < |Units(s)| ==> Plain(Units(s)[i])
  }

  /** The lexer measures the formatter's column, and finds the text the formatter keeps. */
  lemma {:induction false} SameColumn(line: string)
    ensures S.Column(line) == Columns(line) && Body(line) == TrimIndent(line)
    decreases |line|
  {
    if line != [] && IsIndent(line[0]) {
      SameColumn(line[1..]);
      assert Body(line) == Body(line[1..]);
    } else {
      assert line[0..] == line;
    }
  }

  lemma NoReturn(line: string)
    requires '\r' !in line
    ensures TrimReturns(line) == line
  {
    assert line != [] ==> line[|line| - 1] in line;
  }

  /** A formatted line has the lexemes of the line, at its level. */
  lemma PlainFormatted(st: State, line: string)
    requires IsState(st) && !st.inString && Plain(line)
    ensures var (next, out) := FormatLine(st, line);
            && IsState(next) && !next.inString && Good(out)
            && Skipped(out) == Skipped(line) && Lexemes(out) == Lexemes(line)
            && (!Skipped(line) ==>
                 next.stack == Adjusted(st.stack, Columns(line)) && S.Column(out) == 2 * (|next.stack| - 1))
            && (TrimIndent(line) == [] ==> next == st)
            && (TrimIndent(line) != [] ==> next.stack == Adjusted(st.stack, Columns(line)))
  {
    hide Contained, Inner, TrimIndent, TrimReturns, Columns, Adjusted, OpenAfter, Indent, Body;
    StateStays(st, line);
    NoReturn(line);
    FormatLineIs(st, line);
    SameColumn(line);
    var text := TrimIndent(line);
    if text == [] {
      SameColumn("");
      EmptyBody();
    } else {
      TrimIndentTwice(line);
      var level := |Adjusted(st.stack, Columns(line))| - 1;
      var out := Indent(level) + text;
      IndentIs(level, text);
      SameColumn(out);
      if '\n' !in line { OutHasNoNewline(level, text, line); }
    }
  }

  lemma EmptyBody()
    ensures Body("") == []
  {
  }

  lemma OutHasNoNewline(level: nat, text: string, line: string)
    requires text == TrimIndent(line) && '\n' !in line
    ensures '\n' !in Indent(level) + text
  {
    TrimIndentKeepsEnd(line);
    IndentSpaces(level);
    assert forall i :: 0 <= i < |text| ==> text[i] == line[|line| - |text| + i];
    assert forall c :: c in Indent(level) ==> c == ' ';
  }

  /** A line of code has a lexeme. */
  lemma SomeLexeme(line: string)
    requires Plain(line) && !Skipped(line)
    ensures Lexemes(line) != [] && !Lexemes(line)[0].IsLayout()
  {
    var u := Body(line);
    NotBlank(line);
    assert u[0] in line;
    assert S.BlanksLength(u) == 0 && Ahead(u) == u;
    InnerPlain(u, 0);
    assert Lexemes(line)[0] in Lexemes(line);
  }

  // ----- when a line keeps its layout -----

  /** The column stands to the open blocks as the other column to the other blocks. */
  predicate KeepsOrder(was: seq<nat>, c: nat, now: seq<nat>, d: nat) {
    && |was| == |now|
    && forall j :: 0 <= j < |was| ==> (c < was[j] <==> d < now[j]) && (c == was[j] <==> d == now[j])
  }

  /** The layout tokens of a line that closes `n` blocks, deeper than the innermost one left or not. */
  function Marks(n: nat, deeper: bool): seq<S.Token> {
    if n == 0 then (if deeper then [S.Indent] else [])
    else (if deeper then [S.Failure] else []) + S.Dedents(n)
  }

  /** How many blocks stay, and whether the line stands at the innermost of them. */
  lemma PlaceParts(stack: seq<nat>, c: nat)
    requires S.IsStack(stack)
    ensures var kept, top := S.Popped(stack, c), |S.Popped(stack, c)| - 1;
            var (next, tokens) := S.Place(stack, c);
            && 0 <= top < |stack| && stack[top] <= c && (forall i :: top < i < |stack| ==> stack[i] > c)
            && (forall i :: 0 <= i < top ==> stack[i] < c)
            && (next == if top == |stack| - 1 && stack[top] < c then stack + [c] else kept)
            && tokens == Marks(|stack| - 1 - top, stack[top] < c)
  {
    S.PoppedIsDeeper(stack, c);
    var kept := S.Popped(stack, c);
    assert forall i :: 0 <= i < |kept| ==> kept[i] == stack[i];
    if |kept| == |stack| { assert kept == stack; }
  }

  /** Two lines give the same layout tokens exactly when they stand alike to the open blocks. */
  lemma SamePlace(was: seq<nat>, c: nat, now: seq<nat>, d: nat)
    requires S.IsStack(was) && S.IsStack(now) && |was| == |now|
    ensures S.Place(was, c).1 == S.Place(now, d).1 <==> KeepsOrder(was, c, now, d)
    ensures KeepsOrder(was, c, now, d) ==> |S.Place(was, c).0| == |S.Place(now, d).0|
    ensures S.IsStack(S.Place(was, c).0) && S.IsStack(S.Place(now, d).0)
  {
    hide S.Popped, S.Place, KeepsOrder, S.IsStack, Marks;
    S.PlaceIs(was, c);
    S.PlaceIs(now, d);
    PlaceParts(was, c);
    PlaceParts(now, d);
    var a, b := |S.Popped(was, c)| - 1, |S.Popped(now, d)| - 1;
    MarksTell(|was| - 1 - a, was[a] < c, |now| - 1 - b, now[b] < d);
    OrderTells(was, c, a, now, d, b);
  }

  /** The innermost block at most as deep, and whether the line stands deeper, say how it stands to all blocks. */
  lemma OrderTells(was: seq<nat>, c: nat, a: nat, now: seq<nat>, d: nat, b: nat)
    requires a < |was| == |now| && b < |now| && was[a] <= c && now[b] <= d
    requires (forall i :: a < i < |was| ==> was[i] > c) && (forall i :: 0 <= i < a ==> was[i] < c)
    requires (forall i :: b < i < |now| ==> now[i] > d) && (forall i :: 0 <= i < b ==> now[i] < d)
    ensures KeepsOrder(was, c, now, d) <==> a == b && (was[a] < c <==> now[b] < d)
  {
    if KeepsOrder(was, c, now, d) {
      assert !(c < was[a]) && !(d < now[b]);
      assert a == b;
    }
  }

  /** The tokens tell how many blocks closed, and whether the line stands deeper than the one left. */
  lemma MarksTell(n: nat, deeper: bool, m: nat, deeper': bool)
    ensures Marks(n, deeper) == Marks(m, deeper') <==> n == m && deeper == deeper'
  {
    assert n > 0 ==> ([S.Failure] + S.Dedents(n))[0] == S.Failure && ([] + S.Dedents(n))[0] == S.Dedent;
    assert m > 0 ==> ([S.Failure] + S.Dedents(m))[0] == S.Failure && ([] + S.Dedents(m))[0] == S.Dedent;
  }

  // ----- whole sources -----

  /**
   * Every line of code stands to the blocks the lexer has open in the formatted text, at its new level, as its column
   * stood to the blocks open in the source. `was` and `now` are the open blocks of the two texts.
   */
  ghost predicate SameBlocks(st: State, was: seq<nat>, now: seq<nat>, lines: seq<string>)
    requires IsState(st) && was != [] && now != []
    decreases |lines|
  {
    lines != [] ==>
      var line, next := lines[0], FormatLine(st, lines[0]).0;
      StateStays(st, line);
      if Skipped(line) then SameBlocks(next, was, now, lines[1..])
      else
        var c, d := Columns(line), 2 * (|next.stack| - 1);
        LayoutNotEmpty(was, line);
        && KeepsOrder(was, c, now, d)
        && S.Place(was, c).0 != [] && S.Place(now, d).0 != []
        && SameBlocks(next, S.Place(was, c).0, S.Place(now, d).0, lines[1..])
  }

  lemma SplitTokens(a: seq<S.Token>, x: seq<S.Token>, r: seq<S.Token>, b: seq<S.Token>, r': seq<S.Token>)
    requires x != [] && !x[0].IsLayout()
    requires (forall i :: 0 <= i < |a| ==> a[i].IsLayout()) && (forall i :: 0 <= i < |b| ==> b[i].IsLayout())
    ensures a + x + r == b + x + r' <==> a == b && r == r'
  {
    var s, t := a + x + r, b + x + r';
    if s == t {
      assert s[|a|] == x[0] && t[|b|] == x[0];
      assert s[..|a|] == a && t[..|b|] == b;
      assert s[|a| + |x|..] == r && t[|b| + |x|..] == r';
    }
  }

  lemma AllLayout(stack: seq<nat>, c: nat)
    requires S.IsStack(stack)
    ensures forall i :: 0 <= i < |S.Place(stack, c).1| ==> S.Place(stack, c).1[i].IsLayout()
  {
    hide S.Place;
    S.PlaceIs(stack, c);
  }

  /** All lines formatted are good ones again. */
  lemma {:induction false} PlainLines(st: State, lines: seq<string>)
    requires IsState(st) && !st.inString && forall i :: 0 <= i < |lines| ==> Plain(lines[i])
    ensures |FormatLines(st, lines)| == |lines| && forall i :: 0 <= i < |lines| ==> Good(FormatLines(st, lines)[i])
    decreases |lines|
  {
    hide Plain, Good, FormatLine;
    if lines != [] {
      StateStays(st, lines[0]);
      PlainFormatted(st, lines[0]);
      PlainLines(FormatLine(st, lines[0]).0, lines[1..]);
    }
  }

  lemma PlainIsGood(lines: seq<string>)
    requires forall i :: 0 <= i < |lines| ==> Plain(lines[i])
    ensures forall i :: 0 <= i < |lines| ==> Good(lines[i])
  {
    hide Good;
  }

  lemma SameBlocksNext(st: State, was: seq<nat>, now: seq<nat>, lines: seq<string>)
    requires IsState(st) && was != [] && now != []
    ensures lines == [] ==> SameBlocks(st, was, now, lines)
    ensures lines != [] ==>
              var line, next := lines[0], FormatLine(st, lines[0]).0;
              && IsState(next)
              && (Skipped(line) ==> SameBlocks(st, was, now, lines) == SameBlocks(next, was, now, lines[1..]))
              && (!Skipped(line) ==>
                    var c, d := Columns(line), 2 * (|next.stack| - 1);
                    SameBlocks(st, was, now, lines) ==
                    (&& KeepsOrder(was, c, now, d) && S.Place(was, c).0 != [] && S.Place(now, d).0 != []
                     && SameBlocks(next, S.Place(was, c).0, S.Place(now, d).0, lines[1..])))
  {
    hide FormatLine, Skipped, S.Place, Columns, KeepsOrder;
    if lines != [] { StateStays(st, lines[0]); }
  }

  /** The tokens of a first line, and of those behind it. */
  lemma LinesNext(stack: seq<nat>, lines: seq<string>)
    requires stack != [] && lines != [] && forall i :: 0 <= i < |lines| ==> Good(lines[i])
    ensures Skipped(lines[0]) ==> LinesTokens(stack, lines) == LinesTokens(stack, lines[1..])
    ensures !Skipped(lines[0]) ==>
              var (now, tokens) := S.Place(stack, S.Column(lines[0]));
              now != [] && LinesTokens(stack, lines) == tokens + Lexemes(lines[0]) + LinesTokens(now, lines[1..])
  {
    hide Good, Skipped, Lexemes, S.Place, S.Column;
    LayoutOf(stack, lines[0]);
    LayoutNotEmpty(stack, lines[0]);
    if Skipped(lines[0]) {
      NoLexemes(lines[0]);
      assert forall r: seq<S.Token> :: [] + [] + r == r;
    }
  }

  /**
   * Two lines of code with the same lexemes give the same tokens exactly when they stand alike and the rest is the
   * same.
   */
  lemma CodeTells(was: seq<nat>, c: nat, now: seq<nat>, d: nat, x: seq<S.Token>, r: seq<S.Token>, r': seq<S.Token>)
    requires S.IsStack(was) && S.IsStack(now) && |was| == |now| && x != [] && !x[0].IsLayout()
    ensures S.Place(was, c).1 + x + r == S.Place(now, d).1 + x + r' <==> KeepsOrder(was, c, now, d) && r == r'
  {
    hide S.Place, KeepsOrder, S.IsStack;
    OuterIs(was);
    OuterIs(now);
    SamePlace(was, c, now, d);
    AllLayout(was, c);
    AllLayout(now, d);
    SplitTokens(S.Place(was, c).1, x, r, S.Place(now, d).1, r');
  }

  lemma FormatLinesNext(st: State, lines: seq<string>)
    requires IsState(st) && lines != []
    ensures IsState(FormatLine(st, lines[0]).0) && FormatLines(st, lines) != []
    ensures FormatLines(st, lines)[0] == FormatLine(st, lines[0]).1
    ensures FormatLines(st, lines)[1..] == FormatLines(FormatLine(st, lines[0]).0, lines[1..])
  {
    hide FormatLine;
    StateStays(st, lines[0]);
  }

  /** The tokens stay the same exactly when the blocks do. */
  lemma {:induction false} TokensKept(st: State, was: seq<nat>, now: seq<nat>, lines: seq<string>)
    requires IsState(st) && !st.inString && S.IsStack(was) && S.IsStack(now) && |was| == |now|
    requires forall i :: 0 <= i < |lines| ==> Plain(lines[i])
    ensures forall i :: 0 <= i < |lines| ==> Good(lines[i]) && Good(FormatLines(st, lines)[i])
    ensures LinesTokens(was, lines) == LinesTokens(now, FormatLines(st, lines)) <==> SameBlocks(st, was, now, lines)
    decreases |lines|
  {
    hide Plain, Good, FormatLine, Skipped, Lexemes, S.Place, S.IsStack, KeepsOrder, S.Column, Columns, Closing,
      SameBlocks,
      LinesTokens, FormatLines;
    PlainIsGood(lines);
    PlainLines(st, lines);
    OuterIs(was);
    OuterIs(now);
    SameBlocksNext(st, was, now, lines);
    if lines == [] {
      NoTokensLeft(st, was, now);
    } else {
      PlainFormatted(st, lines[0]);
      FormatLinesNext(st, lines);
      LinesNext(was, lines);
      LinesNext(now, FormatLines(st, lines));
      var next, rest := FormatLine(st, lines[0]).0, lines[1..];
      if Skipped(lines[0]) {
        TokensKept(next, was, now, rest);
      } else {
        var c, d := Columns(lines[0]), 2 * (|next.stack| - 1);
        SameColumn(lines[0]);
        SamePlace(was, c, now, d);
        SomeLexeme(lines[0]);
        OuterIs(S.Place(was, c).0);
        OuterIs(S.Place(now, d).0);
        PlainIsGood(rest);
        PlainLines(next, rest);
        CodeTells(was, c, now, d, Lexemes(lines[0]), LinesTokens(S.Place(was, c).0, rest),
                  LinesTokens(S.Place(now, d).0, FormatLines(next, rest)));
        if KeepsOrder(was, c, now, d) {
          TokensKept(next, S.Place(was, c).0, S.Place(now, d).0, rest);
        }
      }
    }
  }

  lemma NoTokensLeft(st: State, was: seq<nat>, now: seq<nat>)
    requires IsState(st) && was != [] && |was| == |now|
    ensures LinesTokens(was, []) == LinesTokens(now, FormatLines(st, []))
  {
    SameClosing(was, now);
    hide Closing;
  }

  lemma SameClosing(was: seq<nat>, now: seq<nat>)
    requires was != [] && |was| == |now|
    ensures Closing(was) == Closing(now)
  {
  }

  lemma LayoutOf(stack: seq<nat>, line: string)
    requires stack != []
    ensures Layout(stack, line) == if Skipped(line) then (stack, []) else S.Place(stack, S.Column(line))
  {
    hide Skipped, S.Place, S.Column;
  }

  lemma NoLexemes(line: string)
    requires Good(line) && Skipped(line)
    ensures Lexemes(line) == []
  {
    hide Skipped;
  }

  // ----- texts -----

  lemma {:induction false} TextJoined(lines: seq<string>)
    ensures Text(lines) == JoinedLines(lines, true)
    ensures lines != [] ==> |Text(lines)| > 0 && Text(lines)[..|Text(lines)| - 1] == JoinedLines(lines, false)
    decreases |lines|
  {
    if lines != [] {
      TextJoined(lines[1..]);
      var line, rest := lines[0], Text(lines[1..]);
      var text := line + "\n" + rest;
      if |lines| == 1 {
        assert text[..|text| - 1] == line;
      } else {
        assert text[..|text| - 1] == line + "\n" + rest[..|rest| - 1];
      }
    }
  }

  /** A text is its lines put together, the last one ended or not. */
  lemma {:induction false} SourceJoined(s: string)
    ensures s == JoinedLines(Lines(s), EndsInNewline(s))
    decreases |s|
  {
    hide EndsInNewline, LineEnd, Lines, JoinedLines;
    var k := LineEnd(s);
    LinesAre(s);
    if k == |s| {
      NotEnded(s);
      OpenLine(s);
    } else if k + 1 == |s| {
      EndedLine(s, k);
    } else {
      SourceJoined(s[k + 1..]);
      LineAndRest(s[..k], Lines(s[k + 1..]), EndsInNewline(s));
      SplitAtNewline(s, k);
    }
  }

  lemma LinesAre(s: string)
    ensures var k := LineEnd(s);
            Lines(s) == if k == |s| then [s] else if k + 1 == |s| then [s[..k]] else [s[..k]] + Lines(s[k + 1..])
  {
    hide LineEnd;
  }

  lemma NotEnded(s: string)
    requires LineEnd(s) == |s|
    ensures !EndsInNewline(s)
  {
    assert s[..|s|] == s;
    assert s != [] ==> s[|s| - 1] in s;
  }

  lemma OpenLine(s: string)
    ensures JoinedLines([s], false) == s
  {
  }

  lemma EndedLine(s: string, k: nat)
    requires k + 1 == |s| && s[k] == '\n'
    ensures EndsInNewline(s) && JoinedLines([s[..k]], true) == s
  {
    assert [s[..k]][1..] == [];
    assert s == s[..k] + "\n" + [];
  }

  lemma LineAndRest(line: string, rest: seq<string>, ended: bool)
    requires rest != []
    ensures JoinedLines([line] + rest, ended) == line + "\n" + JoinedLines(rest, ended)
  {
    assert ([line] + rest)[1..] == rest;
  }

  lemma SplitAtNewline(s: string, k: nat)
    requires k + 1 < |s| && s[k] == '\n'
    ensures s == s[..k] + "\n" + s[k + 1..] && EndsInNewline(s) == EndsInNewline(s[k + 1..])
  {
  }

  lemma FormatJoined(s: string)
    ensures Format(s) == JoinedLines(FormatLines(START, Lines(s)), EndsInNewline(s))
  {
    hide Lines, FormatLines;
    TextJoined(FormatLines(START, Lines(s)));
  }

  lemma PlainIsEnded(lines: seq<string>)
    requires forall i :: 0 <= i < |lines| ==> Plain(lines[i])
    ensures forall i :: 0 <= i < |lines| ==> Ended(lines[i])
  {
    hide Good, Ended;
  }

  /** What the lexer reads in a clean source, line by line, and in the formatted one. */
  lemma TokensByLine(s: string)
    requires Clean(s)
    ensures var out := FormatLines(START, Units(s));
            && (forall i :: 0 <= i < |Units(s)| ==> Good(Units(s)[i]))
            && (forall i :: 0 <= i < |out| ==> Good(out[i]))
            && S.Scanned(s) == LinesTokens([0], Units(s))
            && S.Scanned(Format(s)) == LinesTokens([0], out)
  {
    hide Plain, Good, Ended, Lines, Logical, FormatLines, Format, LinesTokens, S.Tokens, JoinedLines, EndsInNewline;
    var lines, ended := Units(s), EndsInNewline(s);
    PlainIsGood(lines);
    PlainIsEnded(lines);
    PlainLines(START, lines);
    SourceJoined(s);
    LogicalJoined(Lines(s), ended);
    FormatJoined(s);
    LogicalFormatted(START, Lines(s), ended);
    TextTokens([0], lines, ended);
    TextTokens([0], FormatLines(START, lines), ended);
  }

  /**
   * Formatting a clean source changes no token the lexer gives, with its text and the blocks around it, exactly when
   * every line of code is put at a level that stands to the open blocks as its column did.
   */
  lemma FormatKeepsTokens(s: string)
    requires Clean(s)
    ensures S.Scanned(Format(s)) == S.Scanned(s) <==> SameBlocks(START, [0], [0], Units(s))
  {
    hide Plain, Good, Units, FormatLines, Format, LinesTokens, S.Tokens, S.Scanned, SameBlocks;
    TokensByLine(s);
    TokensKept(START, [0], [0], Units(s));
  }

  // ----- the tokens that are no layout -----

  /** The tokens less indents, dedents and failures of layout. */
  function NoLayout(tokens: seq<S.Token>): seq<S.Token> {
    if tokens == [] then []
    else (if tokens[0].IsLayout() then [] else [tokens[0]]) + NoLayout(tokens[1..])
  }

  lemma {:induction false} NoLayoutAdds(a: seq<S.Token>, b: seq<S.Token>)
    ensures NoLayout(a + b) == NoLayout(a) + NoLayout(b)
    decreases |a|
  {
    if a == [] {
      assert a + b == b;
    } else {
      assert (a + b)[1..] == a[1..] + b;
      NoLayoutAdds(a[1..], b);
    }
  }

  lemma {:induction false} AllGone(a: seq<S.Token>)
    requires forall i :: 0 <= i < |a| ==> a[i].IsLayout()
    ensures NoLayout(a) == []
    decreases |a|
  {
    if a != [] { AllGone(a[1..]); }
  }

  lemma ClosingGone(stack: seq<nat>)
    requires stack != []
    ensures NoLayout(Closing(stack)) == [S.Eof]
  {
    var dedents := S.Dedents(|stack| - 1);
    NoLayoutAdds(dedents, [S.Eof]);
    AllGone(dedents);
    assert NoLayout([S.Eof]) == [S.Eof] + NoLayout([]);
  }

  /** What is left of a line's tokens are its lexemes, wherever the line is put. */
  lemma LineLeft(stack: seq<nat>, c: nat, lexemes: seq<S.Token>, rest: seq<S.Token>)
    requires S.IsStack(stack)
    ensures NoLayout(S.Place(stack, c).1 + lexemes + rest) == NoLayout(lexemes) + NoLayout(rest)
  {
    hide S.Place;
    AllLayout(stack, c);
    AllGone(S.Place(stack, c).1);
    NoLayoutAdds(S.Place(stack, c).1 + lexemes, rest);
    NoLayoutAdds(S.Place(stack, c).1, lexemes);
  }

  lemma {:induction false} TextsByLine(st: State, was: seq<nat>, now: seq<nat>, lines: seq<string>)
    requires IsState(st) && !st.inString && S.IsStack(was) && S.IsStack(now)
    requires forall i :: 0 <= i < |lines| ==> Plain(lines[i])
    ensures forall i :: 0 <= i < |lines| ==> Good(lines[i]) && Good(FormatLines(st, lines)[i])
    ensures NoLayout(LinesTokens(was, lines)) == NoLayout(LinesTokens(now, FormatLines(st, lines)))
    decreases |lines|
  {
    hide Plain, Good, FormatLine, Skipped, Lexemes, S.Place, S.IsStack, S.Column, Columns, Closing, LinesTokens,
      FormatLines,
      NoLayout;
    PlainIsGood(lines);
    PlainLines(st, lines);
    OuterIs(was);
    OuterIs(now);
    if lines == [] {
      NoneLeft(st, was, now);
    } else {
      PlainFormatted(st, lines[0]);
      FormatLinesNext(st, lines);
      var out := FormatLines(st, lines);
      LinesNext(was, lines);
      LinesNext(now, out);
      var next, rest := FormatLine(st, lines[0]).0, lines[1..];
      if Skipped(lines[0]) {
        TextsByLine(next, was, now, rest);
      } else {
        var c, d := S.Column(lines[0]), S.Column(out[0]);
        S.PlaceIs(was, c);
        S.PlaceIs(now, d);
        PlainIsGood(rest);
        PlainLines(next, rest);
        TextsByLine(next, S.Place(was, c).0, S.Place(now, d).0, rest);
        LineLeft(was, c, Lexemes(lines[0]), LinesTokens(S.Place(was, c).0, rest));
        LineLeft(now, d, Lexemes(out[0]), LinesTokens(S.Place(now, d).0, out[1..]));
      }
    }
  }

  lemma NoneLeft(st: State, was: seq<nat>, now: seq<nat>)
    requires IsState(st) && was != [] && now != []
    ensures NoLayout(LinesTokens(was, [])) == NoLayout(LinesTokens(now, FormatLines(st, [])))
  {
    ClosingGone(was);
    ClosingGone(now);
    hide Closing;
  }

  /** Whatever becomes of the blocks: words, numbers, strings and symbols keep their order and their texts. */
  lemma TextsKept(s: string)
    requires Clean(s)
    ensures NoLayout(S.Scanned(Format(s))) == NoLayout(S.Scanned(s))
  {
    hide Plain, Good, Units, FormatLines, Format, LinesTokens, S.Tokens, S.Scanned, NoLayout;
    TokensByLine(s);
    TextsByLine(START, [0], [0], Units(s));
  }

  // ----- comments -----

  /** At every line of code the formatter has the lexer's blocks open. */
  ghost predicate Aligned(st: State, was: seq<nat>, lines: seq<string>)
    requires IsState(st) && was != []
    decreases |lines|
  {
    lines != [] ==>
      var line, next := lines[0], FormatLine(st, lines[0]).0;
      StateStays(st, line);
      if Skipped(line) then Aligned(next, was, lines[1..])
      else next.stack == S.Place(was, Columns(line)).0 && Aligned(next, next.stack, lines[1..])
  }

  /** The lexer reports no inconsistent indentation. */
  ghost predicate Consistent(was: seq<nat>, lines: seq<string>)
    requires was != []
    decreases |lines|
  {
    lines != [] ==>
      if Skipped(lines[0]) then Consistent(was, lines[1..])
      else
        var (next, tokens) := S.Place(was, Columns(lines[0]));
        S.Failure !in tokens && next != [] && Consistent(next, lines[1..])
  }

  /** In the columns of formatted text a line stands to the blocks as before, unless it stood between two of them. */
  lemma LevelsKeep(was: seq<nat>, c: nat)
    requires S.IsStack(was)
    ensures var (next, tokens) := S.Place(was, c);
            var now, d := Levels(|was|), 2 * (|next| - 1);
            && S.IsStack(now) && S.IsStack(next) && now != []
            && (KeepsOrder(was, c, now, d) <==> S.Failure !in tokens)
            && (S.Failure !in tokens ==> S.Place(now, d).0 == Levels(|next|))
  {
    hide S.Popped, S.Place;
    var (next, tokens) := S.Place(was, c);
    var now, d := Levels(|was|), 2 * (|next| - 1);
    PlaceParts(was, c);
    S.PlaceIs(was, c);
    var top := |S.Popped(was, c)| - 1;
    assert S.Failure !in S.Dedents(|was| - 1 - top);
    if top < |was| - 1 && was[top] < c {
      assert tokens[0] == S.Failure;
      assert d == now[top];
    } else {
      SameLevel(was, c, next, top);
    }
  }

  lemma SameLevel(was: seq<nat>, c: nat, next: seq<nat>, top: nat)
    requires S.IsStack(was) && top < |was| && (top == |was| - 1 || was[top] == c)
    requires was[top] <= c && (forall i :: top < i < |was| ==> was[i] > c) && forall i :: 0 <= i < top ==> was[i] < c
    requires |next| == if top == |was| - 1 && was[top] < c then |was| + 1 else top + 1
    ensures var now, d := Levels(|was|), 2 * (|next| - 1);
            S.IsStack(now) && KeepsOrder(was, c, now, d) && S.Place(now, d).0 == Levels(|next|)
  {
    hide S.Popped, S.Place;
    var now, d := Levels(|was|), 2 * (|next| - 1);
    PlaceParts(now, d);
    var kept := |S.Popped(now, d)| - 1;
    assert kept == if top == |was| - 1 && was[top] < c then |was| - 1 else top by {
      if top < |was| - 1 || was[top] == c { assert now[top] == d; }
    }
    if top == |was| - 1 && was[top] < c {
      assert now + [d] == Levels(|next|);
    } else {
      assert S.Popped(now, d) == now[..top + 1];
      assert now[..top + 1] == Levels(|next|);
    }
  }

  /** Where formatter and lexer have the same blocks open, formatting keeps them exactly in consistent sources. */
  lemma {:induction false} AlignedKeeps(st: State, was: seq<nat>, lines: seq<string>)
    requires IsState(st) && !st.inString && S.IsStack(was) && Aligned(st, was, lines)
    requires forall i :: 0 <= i < |lines| ==> Plain(lines[i])
    ensures Levels(|was|) != []
    ensures SameBlocks(st, was, Levels(|was|), lines) <==> Consistent(was, lines)
    decreases |lines|
  {
    hide Plain, FormatLine, Skipped, S.Place, S.IsStack, KeepsOrder, Columns, Levels, SameBlocks, Consistent, Aligned;
    OuterIs(was);
    LevelsSize(|was|);
    AlignedNext(st, was, lines);
    SameBlocksNext(st, was, Levels(|was|), lines);
    ConsistentNext(was, lines);
    if lines != [] {
      var next := FormatLine(st, lines[0]).0;
      PlainFormatted(st, lines[0]);
      if Skipped(lines[0]) {
        AlignedKeeps(next, was, lines[1..]);
      } else {
        LevelsKeep(was, Columns(lines[0]));
        AlignedKeeps(next, next.stack, lines[1..]);
      }
    }
  }

  lemma AlignedNext(st: State, was: seq<nat>, lines: seq<string>)
    requires IsState(st) && was != [] && Aligned(st, was, lines)
    ensures lines != [] ==>
              var line, next := lines[0], FormatLine(st, lines[0]).0;
              && IsState(next)
              && (if Skipped(line) then Aligned(next, was, lines[1..])
                  else next.stack == S.Place(was, Columns(line)).0 && Aligned(next, next.stack, lines[1..]))
  {
    hide FormatLine, Skipped, S.Place, Columns;
    if lines != [] { StateStays(st, lines[0]); }
  }

  lemma ConsistentNext(was: seq<nat>, lines: seq<string>)
    requires was != []
    ensures lines == [] ==> Consistent(was, lines)
    ensures lines != [] && Skipped(lines[0]) ==> Consistent(was, lines) == Consistent(was, lines[1..])
    ensures lines != [] && !Skipped(lines[0]) ==>
              var (next, tokens) := S.Place(was, Columns(lines[0]));
              Consistent(was, lines) == (S.Failure !in tokens && next != [] && Consistent(next, lines[1..]))
  {
    hide Skipped, S.Place, Columns;
  }

  lemma LevelsSize(n: nat)
    ensures |Levels(n)| == n
  {
  }

  /**
   * For sources whose comments do not come between formatter and lexer: the tokens are kept iff the indentation is
   * consistent.
   */
  lemma AlignedTokens(s: string)
    requires Clean(s) && Aligned(START, [0], Units(s))
    ensures S.Scanned(Format(s)) == S.Scanned(s) <==> Consistent([0], Units(s))
  {
    hide Plain, Units, FormatLine, Format, S.Scanned, SameBlocks, Consistent, Aligned;
    FormatKeepsTokens(s);
    AlignedKeeps(START, [0], Units(s));
    assert Levels(1) == [0];
  }

  /** The column of the next line of code, if one follows. */
  function NextColumn(lines: seq<string>): (c: int)
    ensures c >= -1
  {
    if lines == [] then -1 else if Skipped(lines[0]) then NextColumn(lines[1..]) else Columns(lines[0])
  }

  /** Every comment stands at the column of the line of code behind it, if one follows. */
  ghost predicate CommentsFit(lines: seq<string>) {
    lines != [] ==>
      && (Skipped(lines[0]) && TrimIndent(lines[0]) != [] && NextColumn(lines) >= 0 ==>
           Columns(lines[0]) == NextColumn(lines))
      && CommentsFit(lines[1..])
  }

  /** The formatter has room for every block. */
  ghost predicate Shallow(was: seq<nat>, lines: seq<string>)
    requires was != []
    decreases |lines|
  {
    lines != [] ==>
      if Skipped(lines[0]) then Shallow(was, lines[1..])
      else
        var next := S.Place(was, Columns(lines[0])).0;
        next != [] && |next| <= MAX_STACK && Shallow(next, lines[1..])
  }

  lemma {:induction false} CloseIsPopped(stack: seq<nat>, col: nat)
    requires stack != []
    ensures Close(stack, col) == S.Popped(stack, col)
    decreases |stack|
  {
    if |stack| > 1 && col < stack[|stack| - 1] { CloseIsPopped(stack[..|stack| - 1], col); }
  }

  /** The formatter opens and closes as the lexer does, and a second line at the column changes nothing. */
  lemma AdjustedIsPlaced(was: seq<nat>, c: nat)
    requires S.IsStack(was) && S.Failure !in S.Place(was, c).1 && |S.Place(was, c).0| <= MAX_STACK
    ensures Adjusted(was, c) == S.Place(was, c).0
    ensures Adjusted(Adjusted(was, c), c) == Adjusted(was, c)
  {
    hide Close;
    CloseIsPopped(was, c);
    PlaceParts(was, c);
  }

  /** With nothing but blank lines and comments ahead nothing is left to align. */
  lemma {:induction false} NothingAhead(st: State, was: seq<nat>, lines: seq<string>)
    requires IsState(st) && was != [] && NextColumn(lines) == -1
    ensures Aligned(st, was, lines)
    decreases |lines|
  {
    if lines != [] {
      StateStays(st, lines[0]);
      NothingAhead(FormatLine(st, lines[0]).0, was, lines[1..]);
    }
  }

  /**
   * Comments at the column of the code behind them do not come between formatter and lexer. Ahead of that code the
   * formatter has the lexer's blocks open, or already those of the code.
   */
  lemma {:induction false} CommentsAlign(st: State, was: seq<nat>, lines: seq<string>)
    requires IsState(st) && !st.inString && S.IsStack(was) && forall i :: 0 <= i < |lines| ==> Plain(lines[i])
    requires CommentsFit(lines) && Consistent(was, lines) && Shallow(was, lines)
    requires st.stack == was || (NextColumn(lines) >= 0 && st.stack == Adjusted(was, NextColumn(lines)))
    ensures Aligned(st, was, lines)
    decreases |lines|
  {
    hide Plain, FormatLine, Skipped, S.Place, S.IsStack, Columns, Adjusted, TrimIndent;
    OuterIs(was);
    if lines != [] {
      var line, rest := lines[0], lines[1..];
      var c := NextColumn(lines);
      StateStays(st, line);
      PlainFormatted(st, line);
      var next := FormatLine(st, line).0;
      if c == -1 {
        NothingAhead(st, was, lines);
      } else {
        NextPlaced(was, lines);
        AdjustedIsPlaced(was, c);
        if Skipped(line) {
          CommentsAlign(next, was, rest);
        } else {
          S.PlaceIs(was, c);
          CommentsAlign(next, next.stack, rest);
        }
      }
    }
  }

  lemma {:induction false} NextPlaced(was: seq<nat>, lines: seq<string>)
    requires was != [] && NextColumn(lines) >= 0 && Consistent(was, lines) && Shallow(was, lines)
    ensures S.Failure !in S.Place(was, NextColumn(lines)).1 && |S.Place(was, NextColumn(lines)).0| <= MAX_STACK
    decreases |lines|
  {
    hide S.Place, Skipped, Columns;
    if Skipped(lines[0]) { NextPlaced(was, lines[1..]); }
  }

  /**
   * A clean, consistently indented source whose comments stand at the column of the code behind them keeps its tokens.
   */
  lemma FittingComments(s: string)
    requires Clean(s) && CommentsFit(Units(s)) && Consistent([0], Units(s)) && Shallow([0], Units(s))
    ensures S.Scanned(Format(s)) == S.Scanned(s)
  {
    hide Plain, Units, FormatLine, Format, S.Scanned, Consistent, Shallow, CommentsFit, Aligned;
    CommentsAlign(START, [0], Units(s));
    AlignedTokens(s);
  }

  // ----- two sources that lose a block -----

  lemma {:induction false} WordEnds(w: string, rest: string)
    requires (forall i :: 0 <= i < |w| ==> S.InWord(w[i])) && (rest == [] || !S.InWord(rest[0]))
    ensures S.WordLength(w + rest) == |w|
    decreases |w|
  {
    if w == [] {
      assert w + rest == rest;
    } else {
      assert (w + rest)[1..] == w[1..] + rest;
      WordEnds(w[1..], rest);
    }
  }

  lemma InnerNext(v: string, n: nat, t: S.Token, table: nat)
    requires v != [] && v[0] != '\n' && Ahead(v) == v && n <= |v| && S.Lexeme(v + "\n") == (n, t) && t != S.Failure
    requires Contained(v[n..], S.Nested(table, t))
    ensures Contained(v, table) && Inner(v, table) == [t] + Inner(v[n..], S.Nested(table, t))
  {
    hide S.Lexeme, Ahead;
  }

  /** A word at the front. */
  lemma WordNext(w: string, rest: string, table: nat)
    requires w != [] && S.IsAlpha(w[0]) && w[0] != 'f' && (forall i :: 0 <= i < |w| ==> S.InWord(w[i]))
    requires (rest == [] || !S.InWord(rest[0])) && Contained(rest, table)
    ensures Contained(w + rest, table) && Inner(w + rest, table) == [S.Word(w)] + Inner(rest, table)
  {
    hide Contained, Inner;
    var v := w + rest;
    WordAtFront(w, rest);
    InnerNext(v, |w|, S.Word(w), table);
    assert S.Nested(table, S.Word(w)) == table && v[|w|..] == rest;
  }

  lemma WordAtFront(w: string, rest: string)
    requires w != [] && S.IsAlpha(w[0]) && w[0] != 'f' && (forall i :: 0 <= i < |w| ==> S.InWord(w[i]))
    requires rest == [] || !S.InWord(rest[0])
    ensures var v := w + rest; S.Lexeme(v + "\n") == (|w|, S.Word(w)) && Ahead(v) == v
  {
    hide S.Lexeme, S.WordLength;
    var v := w + rest;
    assert v[1..] == w[1..] + rest && v[..|w|] == w;
    WordEnds(w[1..], rest);
    BoundaryIs();
    PlainIs(v, "\n");
  }

  lemma NothingInside()
    ensures Contained("", 0) && Inner("", 0) == []
  {
    assert Ahead("") == "";
  }

  lemma ColonAtFront()
    ensures S.Lexeme(":" + "\n") == (1, S.Symbol(":")) && Ahead(":") == ":"
  {
    hide S.Lexeme;
    assert ":"[1..] == "" && S.SINGLES[16] == ':';
    assert Ahead(":") == ":";
    BoundaryIs();
    PlainIs(":", "\n");
  }

  lemma Colon()
    ensures Contained(":", 0) && Inner(":", 0) == [S.Symbol(":")]
  {
    ColonAtFront();
    NothingInside();
    hide Contained, Inner, Ahead, S.Lexeme;
    assert ":"[1..] == "" && S.Nested(0, S.Symbol(":")) == 0;
    InnerNext(":", 1, S.Symbol(":"), 0);
    assert [S.Symbol(":")] + [] == [S.Symbol(":")];
  }

  lemma BlankNext(u: string, table: nat)
    requires Contained(u, table)
    ensures Contained(" " + u, table) && Inner(" " + u, table) == Inner(u, table)
  {
    assert (" " + u)[1..] == u;
    assert Ahead(" " + u) == Ahead(u);
    hide Ahead, S.Lexeme;
  }

  lemma LetterLine(c: char)
    requires S.IsAlpha(c) && c != 'f'
    ensures Contained([c], 0) && Inner([c], 0) == [S.Word([c])]
  {
    NothingInside();
    WordNext([c], "", 0);
    assert [c] + "" == [c] && [S.Word([c])] + [] == [S.Word([c])];
  }

  lemma IfLine(c: char)
    requires S.IsAlpha(c) && c != 'f'
    ensures var u := "if " + [c] + ":";
            Contained(u, 0) && Inner(u, 0) == [S.Word("if"), S.Word([c]), S.Symbol(":")]
  {
    Colon();
    hide Contained, Inner;
    WordNext([c], ":", 0);
    BlankNext([c] + ":", 0);
    WordNext("if", " " + ([c] + ":"), 0);
    assert "if" + (" " + ([c] + ":")) == "if " + [c] + ":";
    assert [S.Word("if")] + ([S.Word([c])] + [S.Symbol(":")]) == [S.Word("if"), S.Word([c]), S.Symbol(":")];
  }

  /** A line of simple text at `k` levels, and how the lexer reads it. */
  lemma SimpleView(k: nat, text: string)
    requires text != [] && !IsIndent(text[0]) && '\n' !in text && '\r' !in text && '[' !in text
    requires S.StartsComment(text) || Contained(text, 0)
    ensures var line := Indent(k) + text;
            && Plain(line) && (Skipped(line) <==> S.StartsComment(text)) && S.Column(line) == 2 * k
            && Lexemes(line) == if S.StartsComment(text) then [] else Inner(text, 0)
  {
    var line := Indent(k) + text;
    IndentIs(k, text);
    IndentSpaces(k);
    SameColumn(line);
    NothingOpens(text, 0);
    hide Indent, Contained, Inner, S.Column, Columns, TrimIndent, OpenAfter;
    assert forall c :: c in line ==> c in Indent(k) || c in text;
  }

  lemma {:induction false} NothingOpens(s: string, i: nat)
    requires '[' !in s
    ensures !OpenAfter(s, i, false)
    decreases |s| - i
  {
    if i + 1 < |s| { NothingOpens(s, i + 1); }
  }

  /** A line of simple text at `k` levels, and what formatting makes of it. */
  lemma SimpleLine(stack: seq<nat>, k: nat, text: string)
    requires stack != [] && Simple(text)
    ensures var now := Adjusted(stack, 2 * k);
            FormatLine(State(stack, false), Indent(k) + text) == (State(now, false), Indent(|now| - 1) + text)
  {
    var line := Indent(k) + text;
    IndentIs(k, text);
    assert line[|line| - 1] == text[|text| - 1];
    assert text[|text| - 1] in text;
    TrimReturnsTwice(line);
    NothingOpens(text, 0);
    FormatLineIs(State(stack, false), line);
  }

  /** One more line formatted. */
  lemma FormatNext(st: State, line: string, rest: seq<string>)
    requires IsState(st)
    ensures var (next, out) := FormatLine(st, line);
            IsState(next) && FormatLines(st, [line] + rest) == [out] + FormatLines(next, rest)
  {
    hide FormatLine;
    StateStays(st, line);
    assert ([line] + rest)[1..] == rest;
  }

  lemma NoLinesLeft()
    ensures START == State([0], false) && IsState(START)
    ensures forall st: State :: IsState(st) ==> FormatLines(st, []) == []
  {
  }

  /** A plain line of code at this column, with these lexemes. */
  ghost predicate Code(line: string, c: nat, lexemes: seq<S.Token>) {
    Plain(line) && !Skipped(line) && S.Column(line) == c && Lexemes(line) == lexemes
  }

  ghost predicate Remark(line: string) {
    Plain(line) && Skipped(line)
  }

  /** Plain lines the lexer reads as these tokens with these blocks open. */
  ghost predicate Reads(stack: seq<nat>, lines: seq<string>, tokens: seq<S.Token>) {
    && stack != [] && (forall i :: 0 <= i < |lines| ==> Plain(lines[i]) && Good(lines[i]))
    && LinesTokens(stack, lines) == tokens
  }

  lemma NoneFirst(stack: seq<nat>)
    requires stack != []
    ensures Reads(stack, [], Closing(stack))
  {
  }

  /** A line of code in front. */
  lemma CodeFirst(stack: seq<nat>, line: string, c: nat, lexemes: seq<S.Token>, rest: seq<string>, tokens: seq<S.Token>)
    requires stack != [] && Code(line, c, lexemes) && Reads(S.Place(stack, c).0, rest, tokens)
    ensures Reads(stack, [line] + rest, S.Place(stack, c).1 + lexemes + tokens)
  {
    hide Good, Skipped, Lexemes, S.Place, S.Column;
    PlainIsGood([line]);
    assert Good([line][0]);
    LayoutOf(stack, line);
    assert ([line] + rest)[1..] == rest;
  }

  lemma RemarkFirst(stack: seq<nat>, line: string, rest: seq<string>, tokens: seq<S.Token>)
    requires Remark(line) && Reads(stack, rest, tokens)
    ensures Reads(stack, [line] + rest, tokens)
  {
    hide Good, Skipped, Lexemes, S.Place, S.Column;
    PlainIsGood([line]);
    assert Good([line][0]);
    LayoutOf(stack, line);
    NoLexemes(line);
    assert ([line] + rest)[1..] == rest;
    assert [] + [] + tokens == tokens;
  }

  /** What both texts of an example are read as, once their lines are known. */
  lemma Example(lines: seq<string>, x: seq<S.Token>, out: seq<string>, y: seq<S.Token>)
    requires lines != [] && FormatLines(START, lines) == out && Reads([0], lines, x) && Reads([0], out, y)
    requires forall i :: 0 <= i < |lines| ==> '\n' !in lines[i]
    ensures Clean(Text(lines)) && Format(Text(lines)) == Text(out)
    ensures S.Scanned(Text(lines)) == x && S.Scanned(Text(out)) == y
  {
    hide Plain, Text, FormatLines, Lines, Logical, Good, Ended, S.Scanned, LinesTokens;
    LinesBack(lines);
    PlainIsEnded(lines);
    LogicalSame(lines);
    TokensByLine(Text(lines));
    FormatJoined(Text(lines));
    TextJoined(out);
  }

  const IF_A := [S.Word("if"), S.Word("a"), S.Symbol(":")]
  const IF_B := [S.Word("if"), S.Word("b"), S.Symbol(":")]

  /** Simple text: no blank in front, no brackets, no line end in it. */
  predicate Simple(text: string) {
    text != [] && !IsIndent(text[0]) && '\n' !in text && '\r' !in text && '[' !in text
  }

  lemma CodeView(k: nat, text: string, lexemes: seq<S.Token>)
    requires Simple(text) && !S.StartsComment(text) && Contained(text, 0) && Inner(text, 0) == lexemes
    ensures Code(Indent(k) + text, 2 * k, lexemes)
  {
    hide Plain, Contained, Inner, Skipped, S.Column, Indent, Lexemes;
    SimpleView(k, text);
  }

  lemma LetterView(k: nat, c: char)
    requires S.IsAlpha(c) && c != 'f'
    ensures Code(Indent(k) + [c], 2 * k, [S.Word([c])])
  {
    hide Code, Contained, Inner, Indent;
    LetterLine(c);
    CodeView(k, [c], [S.Word([c])]);
  }

  lemma IfView(k: nat, c: char)
    requires S.IsAlpha(c) && c != 'f'
    ensures Code(Indent(k) + ("if " + [c] + ":"), 2 * k, [S.Word("if"), S.Word([c]), S.Symbol(":")])
  {
    hide Code, Contained, Inner, Indent;
    IfLine(c);
    CodeView(k, "if " + [c] + ":", [S.Word("if"), S.Word([c]), S.Symbol(":")]);
  }

  lemma RemarkView(k: nat)
    ensures Remark(Indent(k) + "-- c")
  {
    assert Simple("-- c") && S.StartsComment("-- c");
    hide Plain, Contained, Inner, Skipped, S.Column, Indent, Lexemes;
    SimpleView(k, "-- c");
  }

  lemma Spelled()
    ensures S.IsAlpha('a') && S.IsAlpha('b') && S.IsAlpha('x') && S.IsAlpha('y')
    ensures Indent(0) + "-- c" == "-- c" && Indent(1) + "-- c" == "  -- c" && Indent(2) + "-- c" == "    -- c"
    ensures Indent(0) + ['b'] == "b" && Indent(1) + ['b'] == "  b" && Indent(2) + ['x'] == "    x"
    ensures Indent(1) + ['y'] == "  y" && Indent(2) + ['y'] == "    y"
    ensures IF_A == [S.Word("if"), S.Word(['a']), S.Symbol(":")] && IF_B == [S.Word("if"), S.Word(['b']), S.Symbol(":")]
    ensures ['b'] == "b" && ['x'] == "x" && ['y'] == "y"
  {
  }

  lemma SpelledIf()
    ensures Indent(0) + ("if " + ['a'] + ":") == "if a:" && Indent(1) + ("if " + ['b'] + ":") == "  if b:"
    ensures Simple("if " + ['a'] + ":") && Simple("if " + ['b'] + ":")
    ensures Simple(['b']) && Simple(['x']) && Simple(['y']) && Simple("-- c")
  {
  }

  /** The lines of the examples, as the lexer sees them. */
  lemma Views()
    ensures Code("if a:", 0, IF_A) && Code("  if b:", 2, IF_B) && Remark("-- c") && Remark("  -- c")
            && Remark("    -- c")
    ensures Code("b", 0, [S.Word("b")]) && Code("  b", 2, [S.Word("b")]) && Code("    x", 4, [S.Word("x")])
    ensures Code("  y", 2, [S.Word("y")]) && Code("    y", 4, [S.Word("y")])
  {
    hide *;
    Spelled();
    SpelledIf();
    IfView(0, 'a');
    IfView(1, 'b');
    LetterView(0, 'b');
    LetterView(1, 'b');
    LetterView(2, 'x');
    LetterView(1, 'y');
    LetterView(2, 'y');
    RemarkView(0);
    RemarkView(1);
    RemarkView(2);
  }

  /** The stacks of the examples. */
  lemma Stacks()
    ensures Adjusted([0], 0) == [0] && Adjusted([0], 2) == [0, 2] && Adjusted([0], 4) == [0, 4]
            && Adjusted([0, 4], 2) == [0]
    ensures Adjusted([0, 2], 4) == [0, 2, 4] && Adjusted([0, 2, 4], 0) == [0]
    ensures S.Place([0], 0) == ([0], []) && S.Place([0], 2) == ([0, 2], [S.Indent])
            && S.Place([0, 2], 4) == ([0, 2, 4], [S.Indent])
    ensures S.Place([0, 2, 4], 4) == ([0, 2, 4], []) && S.Place([0, 2, 4], 2) == ([0, 2], [S.Dedent])
    ensures Closing([0]) == [S.Eof] && Closing([0, 2]) == [S.Dedent, S.Eof]
            && Closing([0, 2, 4]) == [S.Dedent, S.Dedent, S.Eof]
  {
    assert [0] + [2] == [0, 2] && [0] + [4] == [0, 4] && [0, 2] + [4] == [0, 2, 4];
    assert [0, 4][..1] == [0] && Close([0, 4][..1], 2) == [0] && Close([0, 4], 2) == [0];
    assert [0, 2, 4][..2] == [0, 2] && [0, 2][..1] == [0];
    assert Close([0, 2], 0) == [0] && Close([0, 2, 4], 0) == [0];
    assert S.Popped([0, 2], 2) == [0, 2] && S.Popped([0, 2, 4], 2) == [0, 2];
    assert S.Dedents(1) == [S.Dedent] && S.Dedents(0) == [] && S.Dedents(2) == [S.Dedent, S.Dedent];
    assert [] + S.Dedents(1) == [S.Dedent];
    assert [S.Dedent] + [S.Eof] == [S.Dedent, S.Eof] && [] + [S.Eof] == [S.Eof];
    assert [S.Dedent, S.Dedent] + [S.Eof] == [S.Dedent, S.Dedent, S.Eof];
  }

  /** A line at column 0, a comment, and a line at some column. */
  lemma DeepRead(a: string, x: seq<S.Token>, r: string, b: string, col: nat, y: seq<S.Token>)
    requires Code(a, 0, x) && Remark(r) && Code(b, col, y)
    ensures S.Place([0], col).0 != [] ==>
              Reads([0], [a, r, b], x + (S.Place([0], col).1 + y + Closing(S.Place([0], col).0)))
  {
    Stacks();
    hide *;
    var (now, tokens) := S.Place([0], col);
    if now != [] {
      var last := tokens + y + Closing(now);
      NoneFirst(now);
      CodeFirst([0], b, col, y, [], Closing(now));
      RemarkFirst([0], r, [b] + [], last);
      CodeFirst([0], a, 0, x, [r] + ([b] + []), last);
      assert [] + x == x && [a] + ([r] + ([b] + [])) == [a, r, b];
    }
  }

  lemma DeepFormatted()
    ensures FormatLines(START, ["if a:", "    -- c", "  b"]) == ["if a:", "  -- c", "b"]
  {
    hide *;
    Stacks();
    Spelled();
    SpelledIf();
    SimpleLine([0], 0, "if " + ['a'] + ":");
    SimpleLine([0], 2, "-- c");
    SimpleLine([0, 4], 1, ['b']);
    NoLinesLeft();
    FormatNext(START, "if a:", ["    -- c"] + (["  b"] + []));
    FormatNext(START, "    -- c", ["  b"] + []);
    FormatNext(State([0, 4], false), "  b", []);
    assert ["if a:"] + (["    -- c"] + (["  b"] + [])) == ["if a:", "    -- c", "  b"];
    assert ["if a:"] + (["  -- c"] + (["b"] + [])) == ["if a:", "  -- c", "b"];
  }

  /**
   * A comment deeper than the code behind it: the source is consistent, and formatting takes the code out of its block.
   */
  lemma DeepComment()
    ensures var s := Text(["if a:", "    -- c", "  b"]);
            && Clean(s) && Format(s) == Text(["if a:", "  -- c", "b"])
            && S.Scanned(s) == IF_A + ([S.Indent] + [S.Word("b")] + [S.Dedent, S.Eof])
            && S.Scanned(Format(s)) == IF_A + ([] + [S.Word("b")] + [S.Eof])
  {
    hide *;
    Views();
    Stacks();
    DeepFormatted();
    DeepRead("if a:", IF_A, "    -- c", "  b", 2, [S.Word("b")]);
    DeepRead("if a:", IF_A, "  -- c", "b", 0, [S.Word("b")]);
    Example(["if a:", "    -- c", "  b"], IF_A + ([S.Indent] + [S.Word("b")] + [S.Dedent, S.Eof]),
            ["if a:", "  -- c", "b"], IF_A + ([] + [S.Word("b")] + [S.Eof]));
  }

  /** What a line inside two blocks, a comment and one more line at some column are read as. */
  function Nested(x: seq<S.Token>, y: seq<S.Token>, z: seq<S.Token>, w: seq<S.Token>, col: nat): seq<S.Token> {
    var (now, tokens) := S.Place([0, 2, 4], col);
    x + ([S.Indent] + y + ([S.Indent] + z + (tokens + w + if now == [] then [] else Closing(now))))
  }

  lemma RemarkThenCode(r: string, d: string, col: nat, w: seq<S.Token>)
    requires Remark(r) && Code(d, col, w)
    ensures var (now, tokens) := S.Place([0, 2, 4], col);
            now != [] ==> Reads([0, 2, 4], [r] + ([d] + []), tokens + w + Closing(now))
  {
    hide *;
    var (now, tokens) := S.Place([0, 2, 4], col);
    if now != [] {
      NoneFirst(now);
      CodeFirst([0, 2, 4], d, col, w, [], Closing(now));
      RemarkFirst([0, 2, 4], r, [d] + [], tokens + w + Closing(now));
    }
  }

  /** Three nested lines in front. */
  lemma NestedFirst(a: string, x: seq<S.Token>, b: string, y: seq<S.Token>, c: string, z: seq<S.Token>,
                    rest: seq<string>,
                    last: seq<S.Token>)
    requires Code(a, 0, x) && Code(b, 2, y) && Code(c, 4, z) && Reads([0, 2, 4], rest, last)
    ensures Reads([0], [a] + ([b] + ([c] + rest)), x + ([S.Indent] + y + ([S.Indent] + z + last)))
  {
    Stacks();
    hide *;
    CodeFirst([0, 2], c, 4, z, rest, last);
    CodeFirst([0], b, 2, y, [c] + rest, [S.Indent] + z + last);
    CodeFirst([0], a, 0, x, [b] + ([c] + rest), [S.Indent] + y + ([S.Indent] + z + last));
    assert [] + x == x;
  }

  lemma ShallowRead(a: string, x: seq<S.Token>, b: string, y: seq<S.Token>, c: string, z: seq<S.Token>, r: string,
                    d: string, col: nat, w: seq<S.Token>)
    requires Code(a, 0, x) && Code(b, 2, y) && Code(c, 4, z) && Remark(r) && Code(d, col, w)
    ensures S.Place([0, 2, 4], col).0 != [] ==> Reads([0], [a, b, c, r, d], Nested(x, y, z, w, col))
  {
    hide Reads, Code, Remark, S.Place, Closing;
    if S.Place([0, 2, 4], col).0 != [] {
      RemarkThenCode(r, d, col, w);
      NestedFirst(a, x, b, y, c, z, [r] + ([d] + []), S.Place([0, 2, 4], col).1 + w + Closing(S.Place([0, 2, 4], col).0));
      assert [a] + ([b] + ([c] + ([r] + ([d] + [])))) == [a, b, c, r, d];
    }
  }

  /** Five lines formatted one after the other. */
  lemma FormatFive(a: string, b: string, c: string, d: string, e: string, one: State, two: State, out: string)
    requires IsState(START) && IsState(one) && IsState(two)
    requires FormatLine(START, a) == (START, a) && FormatLine(START, b) == (one, b) && FormatLine(one, c) == (two, c)
    requires FormatLine(two, d) == (START, d) && FormatLine(START, e).1 == out
    ensures FormatLines(START, [a, b, c, d, e]) == [a, b, c, d, out]
  {
    hide *;
    NoLinesLeft();
    FormatNext(START, a, [b] + ([c] + ([d] + ([e] + []))));
    FormatNext(START, b, [c] + ([d] + ([e] + [])));
    FormatNext(one, c, [d] + ([e] + []));
    FormatNext(two, d, [e] + []);
    FormatNext(START, e, []);
    assert [a] + ([b] + ([c] + ([d] + ([e] + [])))) == [a, b, c, d, e];
    assert [a] + ([b] + ([c] + ([d] + ([out] + [])))) == [a, b, c, d, out];
  }

  lemma ShallowFormatted()
    ensures FormatLines(START, ["if a:", "  if b:", "    x", "-- c", "    y"]) ==
            ["if a:", "  if b:", "    x", "-- c", "  y"]
  {
    hide *;
    ShallowSteps();
    Spelled();
    SpelledIf();
    NoLinesLeft();
    FormatFive("if a:", "  if b:", "    x", "-- c", "    y", State([0, 2], false), State([0, 2, 4], false), "  y");
  }

  lemma ShallowSteps()
    ensures FormatLine(State([0], false), Indent(0) + ("if " + ['a'] + ":")) ==
            (State([0], false), Indent(0) + ("if " + ['a'] + ":"))
    ensures FormatLine(State([0], false), Indent(1) + ("if " + ['b'] + ":")) ==
            (State([0, 2], false), Indent(1) + ("if " + ['b'] + ":"))
    ensures FormatLine(State([0, 2], false), Indent(2) + ['x']) == (State([0, 2, 4], false), Indent(2) + ['x'])
    ensures FormatLine(State([0, 2, 4], false), Indent(0) + "-- c") == (State([0], false), Indent(0) + "-- c")
    ensures FormatLine(State([0], false), Indent(2) + ['y']).1 == Indent(1) + ['y']
    ensures IsState(State([0, 2], false)) && IsState(State([0, 2, 4], false))
  {
    Stacks();
    SpelledIf();
    hide FormatLine, Adjusted, Indent, Simple;
    SimpleLine([0], 0, "if " + ['a'] + ":");
    SimpleLine([0], 1, "if " + ['b'] + ":");
    SimpleLine([0, 2], 2, ['x']);
    SimpleLine([0, 2, 4], 0, "-- c");
    SimpleLine([0], 2, ['y']);
  }

  lemma NestedSums()
    ensures Nested(IF_A, IF_B, [S.Word("x")], [S.Word("y")], 4) ==
            IF_A + [S.Indent] + IF_B + [S.Indent, S.Word("x"), S.Word("y"), S.Dedent, S.Dedent, S.Eof]
    ensures Nested(IF_A, IF_B, [S.Word("x")], [S.Word("y")], 2) ==
            IF_A + [S.Indent] + IF_B + [S.Indent, S.Word("x"), S.Dedent, S.Word("y"), S.Dedent, S.Eof]
  {
    Stacks();
    hide S.Place, Closing;
  }

  /** A comment shallower than the open blocks: the next line of the inner block leaves it. */
  lemma ShallowComment()
    ensures var s := Text(["if a:", "  if b:", "    x", "-- c", "    y"]);
            && Clean(s) && Format(s) == Text(["if a:", "  if b:", "    x", "-- c", "  y"])
            && S.Scanned(s) ==
               IF_A + [S.Indent] + IF_B + [S.Indent, S.Word("x"), S.Word("y"), S.Dedent, S.Dedent, S.Eof]
            && S.Scanned(Format(s)) ==
               IF_A + [S.Indent] + IF_B + [S.Indent, S.Word("x"), S.Dedent, S.Word("y"), S.Dedent, S.Eof]
  {
    hide *;
    NestedSums();
    Views();
    Stacks();
    ShallowFormatted();
    ShallowRead("if a:", IF_A, "  if b:", IF_B, "    x", [S.Word("x")], "-- c", "    y", 4, [S.Word("y")]);
    ShallowRead("if a:", IF_A, "  if b:", IF_B, "    x", [S.Word("x")], "-- c", "  y", 2, [S.Word("y")]);
    Example(["if a:", "  if b:", "    x", "-- c", "    y"], Nested(IF_A, IF_B, [S.Word("x")], [S.Word("y")], 4),
            ["if a:", "  if b:", "    x", "-- c", "  y"], Nested(IF_A, IF_B, [S.Word("x")], [S.Word("y")], 2));
  }

  // ----- a string over several lines -----

  /** A lexeme at the end of a line. */
  lemma LastLexeme(v: string, t: S.Token)
    requires v != [] && v[0] != '\n' && Ahead(v) == v && S.Lexeme(v + "\n") == (|v|, t)
    requires t != S.Failure && S.Nested(0, t) == 0
    ensures Contained(v, 0) && Inner(v, 0) == [t]
  {
    hide *;
    NothingInside();
    assert v[|v|..] == "";
    InnerNext(v, |v|, t, 0);
    assert [t] + [] == [t];
  }

  /** A bracketed string at the end of a line, whatever lines it holds. */
  lemma StringNext(u: string)
    requires !Doubled(u + "]", ']')
    ensures var v := "[[" + u + "]]"; Contained(v, 0) && Inner(v, 0) == [S.String(v)]
  {
    var v := "[[" + u + "]]";
    BracketFirst(u);
    hide *;
    StringLexeme(u);
    NoBlankAhead(v);
    LastLexeme(v, S.String(v));
  }

  lemma BracketFirst(u: string)
    ensures var v := "[[" + u + "]]"; v != [] && v[0] == '[' && S.Nested(0, S.String(v)) == 0
  {
  }

  lemma NoBlankAhead(v: string)
    requires v != [] && (v[0] == '[' || v[0] == '=')
    ensures Ahead(v) == v
  {
  }

  lemma StringLexeme(u: string)
    requires !Doubled(u + "]", ']')
    ensures var v := "[[" + u + "]]"; S.Lexeme(v + "\n") == (|v|, S.String(v))
  {
    var v := "[[" + u + "]]";
    var s, t := v + "\n", u + "]";
    forall i | 2 <= i < |u| + 2
      ensures !L.BracketsAt(s, i)
    {
      assert s[i] == t[i - 2] && s[i + 1] == t[i - 1];
    }
    assert L.BracketsAt(s, |u| + 2) && s[..|v|] == v;
    hide S.Lexeme;
    L.BracketedLexeme(s);
  }

  lemma EqualsNext(u: string, table: nat)
    requires Contained(u, table) && u != [] && u[0] == ' '
    ensures Contained("=" + u, table) && Inner("=" + u, table) == [S.Symbol("=")] + Inner(u, table)
  {
    var v := "=" + u;
    EqualsAtFront(u);
    assert v[1..] == u && S.Nested(table, S.Symbol("=")) == table;
    hide Contained, Inner, Ahead, S.Lexeme;
    InnerNext(v, 1, S.Symbol("="), table);
  }

  lemma EqualsAtFront(u: string)
    requires u != [] && u[0] == ' '
    ensures var v := "=" + u; S.Lexeme(v + "\n") == (1, S.Symbol("=")) && Ahead(v) == v
  {
    var s := "=" + u + "\n";
    assert s[0] == '=' && s[1] == ' ' && ['=', ' '] !in L.PAIRS;
    hide S.Lexeme;
    L.SymbolLexeme(s);
    assert [s[0]] == "=";
  }

  const LONG := "[[\n    a\n]]"

  lemma LongUnit()
    ensures var unit := "x = " + LONG;
            && Contained(unit, 0) && Inner(unit, 0) == [S.Word("x"), S.Symbol("="), S.String(LONG)]
            && Ended(unit) && TrimIndent(unit) == unit && Columns(unit) == 0 && unit != [] && !Skipped(unit)
  {
    LongText();
    NotDoubled();
    hide *;
    LongEnded();
    StringNext("\n    a\n");
    LongInner(LONG, S.String(LONG));
  }

  /** `x = ` in front. */
  lemma LongInner(u: string, t: S.Token)
    requires Contained(u, 0) && Inner(u, 0) == [t]
    ensures Contained("x = " + u, 0) && Inner("x = " + u, 0) == [S.Word("x"), S.Symbol("="), t]
  {
    var w, e, r := AssignTexts(u);
    hide *;
    BlankNext(u, 0);
    EqualsNext(w, 0);
    BlankNext(e, 0);
    WordNext("x", r, 0);
    assert [S.Word("x")] + ([S.Symbol("=")] + [t]) == [S.Word("x"), S.Symbol("="), t];
  }

  lemma AssignTexts(u: string) returns (w: string, e: string, r: string)
    ensures w == " " + u && e == "=" + w && r == " " + e && "x" + r == "x = " + u
    ensures w != [] && w[0] == ' ' && r != [] && !S.InWord(r[0])
    ensures S.IsAlpha("x"[0]) && forall i :: 0 <= i < |"x"| ==> S.InWord("x"[i])
  {
    w := " " + u;
    e := "=" + w;
    r := " " + e;
  }

  lemma LongText()
    ensures "[[" + "\n    a\n" + "]]" == LONG && LONG != [] && LONG[0] == '[' && LONG == "[[\n    a\n]]"
  {
  }

  lemma NotDoubled()
    ensures !Doubled("\n    a\n" + "]", ']') && !Doubled("x = " + "[", '[') && !Doubled("\n    a", ']')
            && !Doubled("", ']')
  {
  }

  lemma LongEnded()
    ensures var unit := "x = " + LONG;
            && Ended(unit) && TrimIndent(unit) == unit && Columns(unit) == 0 && unit != [] && !Skipped(unit)
    ensures OpenAfter(TrimIndent("x = [["), 0, false) && OpenAfter(TrimIndent("x = [[" + "\n" + "    a"), 0, false)
  {
    var unit := "x = " + LONG;
    NotDoubled();
    FirstOpens("x = ", "\n    a\n" + "]]");
    FirstCloses("\n    a\n", "");
    FirstOpens("x = ", "");
    FirstOpens("x = ", "\n    a");
    NoDelimiter("", true);
    NoDelimiter("", false);
    NoDelimiter("\n    a", true);
    assert "x = " + "[[" + ("\n    a\n" + "]]") == unit && "\n    a\n" + "]]" + "" == "\n    a\n" + "]]";
    assert "x = " + "[[" + "" == "x = [[" && "x = " + "[[" + "\n    a" == "x = [[" + "\n" + "    a";
    hide OpenAfter, Doubled;
    assert Body(unit) == unit;
  }

  lemma LongLines()
    ensures Logical(["x = [[", "    a", "]]"]) == ["x = " + LONG]
    ensures Text(["x = [[", "    a", "]]"]) == "x = " + LONG + "\n"
  {
    LongEnded();
    var one, two := "x = [[" + "\n" + "    a", "x = " + LONG;
    assert one + "\n" + "]]" == two;
    LogicalNext(["x = [[", "    a", "]]"]);
    LogicalNext([one, "]]"]);
    LogicalNext([two]);
    NoLogical();
    assert [one] + ["x = [[", "    a", "]]"][2..] == [one, "]]"] && [two] + [one, "]]"][2..] == [two]
           && [two][1..] == [];
    assert [two] + [] == [two];
    hide Logical, OpenAfter, TrimIndent;
    TextThree("x = [[", "    a", "]]");
  }

  lemma TextThree(a: string, b: string, c: string)
    ensures Text([a, b, c]) == a + "\n" + b + "\n" + c + "\n"
  {
    assert [a, b, c][1..] == [b, c] && [b, c][1..] == [c] && [c][1..] == [];
    assert Text([c]) == c + "\n" + [] && Text([b, c]) == b + "\n" + Text([c]);
  }

  lemma LongCode()
    ensures Code("x = " + LONG, 0, [S.Word("x"), S.Symbol("="), S.String(LONG)])
    ensures Reads([0], ["x = " + LONG], [S.Word("x"), S.Symbol("="), S.String(LONG), S.Eof])
  {
    var unit, lexemes := "x = " + LONG, [S.Word("x"), S.Symbol("="), S.String(LONG)];
    LongUnit();
    SameColumn(unit);
    GoodCode(unit);
    Stacks();
    hide *;
    NoneFirst([0]);
    CodeFirst([0], unit, 0, lexemes, [], [S.Eof]);
    assert [unit] + [] == [unit] && [] + lexemes + [S.Eof] == [S.Word("x"), S.Symbol("="), S.String(LONG), S.Eof];
  }

  lemma GoodCode(line: string)
    requires !Skipped(line) && Contained(TrimIndent(line), 0)
    ensures Good(line) && Lexemes(line) == Inner(TrimIndent(line), 0)
  {
    SameColumn(line);
    hide Contained, Inner, Skipped, TrimIndent, Body;
  }

  lemma LongFormatted()
    ensures FormatLines(START, ["x = " + LONG]) == ["x = " + LONG]
  {
    var unit := "x = " + LONG;
    LongUnit();
    NoReturn(unit);
    FormatLineIs(START, unit);
    Stacks();
    assert Indent(0) + unit == unit;
    hide Contained, Inner, TrimIndent, TrimReturns, Columns, Adjusted, OpenAfter, Indent, FormatLine;
    FormatNext(START, unit, []);
    NoLinesLeft();
    assert [unit] + [] == [unit];
  }

  /** A clean source with a string over three lines: formatting keeps it, and the lexer reads one string. */
  lemma LongString()
    ensures var s := Text(["x = [[", "    a", "]]"]);
            && Clean(s) && Format(s) == s
            && S.Scanned(s) == [S.Word("x"), S.Symbol("="), S.String("[[\n    a\n]]"), S.Eof]
  {
    var lines, unit := ["x = [[", "    a", "]]"], "x = " + LONG;
    hide *;
    LongText();
    LongLines();
    LongCode();
    LongFormatted();
    LongLinesBack();
    EndsHere(unit);
    LongSource(Text(lines), lines, unit, [S.Word("x"), S.Symbol("="), S.String(LONG), S.Eof]);
  }

  lemma LongLinesBack()
    ensures Lines(Text(["x = [[", "    a", "]]"])) == ["x = [[", "    a", "]]"]
  {
    hide Lines, Text;
    LinesBack(["x = [[", "    a", "]]"]);
  }

  lemma EndsHere(unit: string)
    ensures EndsInNewline(unit + "\n")
  {
  }

  /** A source of one line, up to the end of its string, that formatting keeps. */
  lemma LongSource(s: string, lines: seq<string>, unit: string, tokens: seq<S.Token>)
    requires Lines(s) == lines && Logical(lines) == [unit] && s == unit + "\n" && EndsInNewline(s)
    requires Reads([0], [unit], tokens) && FormatLines(START, [unit]) == [unit]
    ensures Clean(s) && Format(s) == s && S.Scanned(s) == tokens
  {
    hide Plain, Text, FormatLines, Lines, Logical, Good, Ended, S.Scanned, LinesTokens, EndsInNewline;
    assert Units(s) == [unit];
    TokensByLine(s);
    FormatJoined(s);
    PlainIsEnded([unit]);
    LogicalFormatted(START, lines, true);
    assert JoinedLines([unit], true) == unit + "\n" + [];
  }
}
