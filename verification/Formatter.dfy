/** The source formatter: canonical indentation line by line, and formatting twice changes nothing more. */
module Formatter {
  const MAX_STACK := 512

  /** Where the formatter stands between two lines: the columns of the open indents, and whether a `[[` is open. */
  datatype State = State(stack: seq<nat>, inString: bool)

  const START := State([0], false)

  // ----- one line -----

  predicate IsIndent(c: char) {
    c == ' ' || c == '\t'
  }

  function Width(c: char): nat {
    if c == '\t' then 4 else 1
  }

  /** The column at which the text of a line starts; a tab counts four. */
  function Columns(s: string): nat {
    if s == [] || !IsIndent(s[0]) then 0 else Width(s[0]) + Columns(s[1..])
  }

  function TrimIndent(s: string): string
  {
    if s == [] || !IsIndent(s[0]) then s else TrimIndent(s[1..])
  }

  function TrimReturns(s: string): string
  {
    if s == [] || s[|s| - 1] != '\r' then s else TrimReturns(s[..|s| - 1])
  }

  lemma {:induction false} TrimIndentKeepsEnd(s: string)
    ensures var t := TrimIndent(s); |t| <= |s| && t == s[|s| - |t|..]
  {
    if s != [] && IsIndent(s[0]) { TrimIndentKeepsEnd(s[1..]); }
  }

  lemma {:induction false} TrimReturnsKeepsStart(s: string)
    ensures var t := TrimReturns(s); t <= s && (t == [] || t[|t| - 1] != '\r')
  {
    if s != [] && s[|s| - 1] == '\r' { TrimReturnsKeepsStart(s[..|s| - 1]); }
  }

  /** What is cut off are exactly the blanks and tabs in front, and the carriage returns at the end. */
  lemma {:induction false} CutOff(s: string)
    ensures var t := TrimIndent(s);
            && |t| <= |s| && (forall i :: 0 <= i < |s| - |t| ==> s[i] == ' ' || s[i] == '\t')
            && t == s[|s| - |t|..] && (t != [] ==> t[0] != ' ' && t[0] != '\t')
    ensures var r := TrimReturns(s);
            && r <= s && (forall i :: |r| <= i < |s| ==> s[i] == '\r') && (r != [] ==> r[|r| - 1] != '\r')
  {
    IndentCut(s);
    ReturnsCut(s);
  }

  lemma {:induction false} IndentCut(s: string)
    ensures var t := TrimIndent(s);
            && |t| <= |s| && (forall i :: 0 <= i < |s| - |t| ==> s[i] == ' ' || s[i] == '\t')
            && t == s[|s| - |t|..] && (t != [] ==> t[0] != ' ' && t[0] != '\t')
  {
    if s != [] && IsIndent(s[0]) { IndentCut(s[1..]); }
  }

  lemma {:induction false} ReturnsCut(s: string)
    ensures var r := TrimReturns(s);
            && r <= s && (forall i :: |r| <= i < |s| ==> s[i] == '\r') && (r != [] ==> r[|r| - 1] != '\r')
  {
    if s != [] && s[|s| - 1] == '\r' { ReturnsCut(s[..|s| - 1]); }
  }

  /** Whether a `[[` is open after the line `s`, read from `i` on. */
  function OpenAfter(s: string, i: nat, open: bool): bool
    decreases |s| - i
  {
    if i + 1 >= |s| then open
    else if !open && s[i] == '[' && s[i + 1] == '[' then OpenAfter(s, i + 2, true)
    else if open && s[i] == ']' && s[i + 1] == ']' then OpenAfter(s, i + 2, false)
    else OpenAfter(s, i + 1, open)
  }

  /** Indents deeper than the column are closed, but never the outermost. */
  function Close(stack: seq<nat>, col: nat): (t: seq<nat>)
    requires stack != []
    ensures t != [] && t <= stack
    decreases |stack|
  {
    if |stack| > 1 && col < stack[|stack| - 1] then Close(stack[..|stack| - 1], col) else stack
  }

  function Adjusted(stack: seq<nat>, col: nat): (t: seq<nat>)
    requires stack != []
    ensures t != []
  {
    if col > stack[|stack| - 1] then (if |stack| < MAX_STACK then stack + [col] else stack)
    else if col < stack[|stack| - 1] then Close(stack, col)
    else stack
  }

  function Indent(levels: nat): (s: string)
    ensures |s| == 2 * levels
  {
    seq(2 * levels, _ => ' ')
  }

  /** A line inside a string keeps its text; a blank line is emptied; any other line gets its level's indent. */
  function FormatLine(st: State, line: string): (State, string)
    requires st.stack != []
  {
    var raw := TrimReturns(line);
    if st.inString then (State(st.stack, OpenAfter(raw, 0, true)), raw)
    else
      var text := TrimIndent(raw);
      if text == [] then (st, [])
      else
        var stack := Adjusted(st.stack, Columns(raw));
        (State(stack, OpenAfter(text, 0, false)), Indent(|stack| - 1) + text)
  }

  // ----- all lines -----

  predicate IsState(st: State) {
    0 < |st.stack| <= MAX_STACK
  }

  lemma StateStays(st: State, line: string)
    requires IsState(st)
    ensures IsState(FormatLine(st, line).0)
  {
  }

  function FormatLines(st: State, lines: seq<string>): (out: seq<string>)
    requires IsState(st)
    ensures |out| == |lines|
    decreases |lines|
  {
    if lines == [] then []
    else
      StateStays(st, lines[0]);
      var (next, text) := FormatLine(st, lines[0]);
      [text] + FormatLines(next, lines[1..])
  }

  /** The lines of a text; nothing follows a final newline. */
  function Lines(s: string): (lines: seq<string>)
    ensures lines != []
  {
    var k := LineEnd(s);
    if k == |s| then [s]
    else if k + 1 == |s| then [s[..k]]
    else [s[..k]] + Lines(s[k + 1..])
  }

  /** The index of the first newline, or the length. */
  function LineEnd(s: string): (k: nat)
    ensures k <= |s| && (k < |s| ==> s[k] == '\n') && '\n' !in s[..k]
  {
    if s == [] || s[0] == '\n' then 0
    else
      var k := LineEnd(s[1..]);
      assert s[..k + 1] == [s[0]] + s[1..][..k];
      k + 1
  }

  /** Lines put together again, a newline after each. */
  function Text(lines: seq<string>): string {
    if lines == [] then [] else lines[0] + "\n" + Text(lines[1..])
  }

  predicate EndsInNewline(s: string) {
    s != [] && s[|s| - 1] == '\n'
  }

  /** The formatted text; it ends in a newline only if the source did, or if its last line was blank. */
  function Format(s: string): string {
    var out := Text(FormatLines(START, Lines(s)));
    if EndsInNewline(s) then out else out[..|out| - 1]
  }

  // ----- idempotence -----

  /** The columns of `n` open indents in formatted text: each is two wide. */
  function Levels(n: nat): (s: seq<nat>)
    ensures |s| == n
  {
    seq(n, j => 2 * j)
  }

  /** The state in which formatted lines are read again: each open indent is two columns wide. */
  function Canonical(st: State): State {
    State(Levels(|st.stack|), st.inString)
  }

  lemma {:induction false} IndentIs(levels: nat, text: string)
    requires text != [] && !IsIndent(text[0])
    ensures TrimIndent(Indent(levels) + text) == text && Columns(Indent(levels) + text) == 2 * levels
  {
    if levels == 0 {
      assert Indent(0) + text == text;
    } else {
      var s := Indent(levels) + text;
      assert s[0] == ' ' && s[1..][0] == ' ';
      assert s[1..][1..] == Indent(levels - 1) + text;
      IndentIs(levels - 1, text);
    }
  }

  lemma IndentSpaces(levels: nat)
    ensures forall i :: 0 <= i < |Indent(levels)| ==> Indent(levels)[i] == ' '
  {
  }

  /** Closing on the canonical stack gets to the level asked for. */
  lemma {:induction false} CloseCanonical(n: nat, level: nat)
    requires level < n
    ensures Close(Levels(n), 2 * level) == Levels(level + 1)
    decreases n
  {
    var stack := Levels(n);
    if level + 1 < n {
      assert stack[..n - 1] == Levels(n - 1);
      CloseCanonical(n - 1, level);
    }
  }

  /** Whatever level a line got, its formatted form gets the same level. */
  lemma AdjustCanonical(stack: seq<nat>, col: nat)
    requires 0 < |stack| <= MAX_STACK
    ensures var n := |Adjusted(stack, col)|;
            Adjusted(Levels(|stack|), 2 * (n - 1)) == Levels(n)
  {
    var n := |Adjusted(stack, col)|;
    var canon := Levels(|stack|);
    if n > |stack| {
      assert canon + [2 * (n - 1)] == Levels(n);
    } else if n < |stack| {
      CloseCanonical(|stack|, n - 1);
    }
  }

  lemma {:induction false} TrimIndentTwice(s: string)
    ensures var t := TrimIndent(s); t == [] || !IsIndent(t[0])
    ensures TrimIndent(TrimIndent(s)) == TrimIndent(s)
  {
    if s != [] && IsIndent(s[0]) { TrimIndentTwice(s[1..]); }
  }

  lemma TrimReturnsTwice(s: string)
    requires s == [] || s[|s| - 1] != '\r'
    ensures TrimReturns(s) == s
  {
  }

  lemma FormatLineIs(st: State, line: string)
    requires st.stack != []
    ensures var raw := TrimReturns(line);
            var text := TrimIndent(raw);
            var stack := Adjusted(st.stack, Columns(raw));
            FormatLine(st, line) ==
              if st.inString then (State(st.stack, OpenAfter(raw, 0, true)), raw)
              else if text == [] then (st, [])
              else (State(stack, OpenAfter(text, 0, false)), Indent(|stack| - 1) + text)
  {
    hide TrimReturns, TrimIndent, Adjusted, Columns, OpenAfter, Indent;
  }

  lemma CanonicalIs(st: State)
    requires st.stack != []
    ensures Canonical(st) == State(Levels(|st.stack|), st.inString) && Canonical(st).stack != []
  {
    hide Levels;
  }

  /** Formatting a formatted line, in the canonical state, changes neither the line nor the state after it. */
  lemma LineTwice(st: State, line: string)
    requires IsState(st) && '\n' !in line
    ensures var (next, text) := FormatLine(st, line);
            && st.stack != [] && next.stack != []
            && FormatLine(Canonical(st), text) == (Canonical(next), text) && '\n' !in text
  {
    hide *;
    StateIs(st);
    var raw := TrimReturns(line);
    TrimReturnsKeepsStart(line);
    TrimReturnsTwice(raw);
    NoNewlineIn(line, raw);
    var text := TrimIndent(raw);
    FormatLineIs(st, line);
    var (next, out) := FormatLine(st, line);
    CanonicalIs(st);
    FormatLineIs(Canonical(st), out);
    if st.inString {
      CanonicalIs(next);
    } else if text == [] {
      TrimReturnsTwice([]);
      TrimIndentTwice(raw);
      CanonicalIs(next);
    } else {
      TrimIndentKeepsEnd(raw);
      IndentedTwice(st.stack, raw);
      CanonicalIs(next);
    }
  }

  lemma StateIs(st: State)
    requires IsState(st)
    ensures 0 < |st.stack| <= MAX_STACK
  {
  }

  lemma NoNewlineIn(line: string, raw: string)
    requires raw <= line && '\n' !in line
    ensures '\n' !in raw
  {
    assert forall i :: 0 <= i < |raw| ==> raw[i] == line[i];
  }

  lemma IndentedTwice(stack: seq<nat>, raw: string)
    requires 0 < |stack| <= MAX_STACK && TrimIndent(raw) != [] && raw[|raw| - 1] != '\r' && '\n' !in raw
    ensures var n := |Adjusted(stack, Columns(raw))|;
            var out := Indent(n - 1) + TrimIndent(raw);
            && TrimReturns(out) == out && TrimIndent(out) == TrimIndent(raw) && '\n' !in out
            && Adjusted(Levels(|stack|), Columns(out)) == Levels(n)
  {
    hide *;
    TrimIndentTwice(raw);
    TrimIndentKeepsEnd(raw);
    var n, text := |Adjusted(stack, Columns(raw))|, TrimIndent(raw);
    AdjustCanonical(stack, Columns(raw));
    IndentIs(n - 1, text);
    IndentSpaces(n - 1);
    EndOfText(Indent(n - 1), text, raw);
    TrimReturnsTwice(Indent(n - 1) + text);
  }

  lemma EndOfText(indent: string, text: string, raw: string)
    requires text != [] && |text| <= |raw| && text == raw[|raw| - |text|..] && '\n' !in raw
    requires forall i :: 0 <= i < |indent| ==> indent[i] == ' '
    ensures var out := indent + text;
            out != [] && out[|out| - 1] == raw[|raw| - 1] && '\n' !in out
  {
    forall i | 0 <= i < |text|
      ensures text[i] != '\n'
    {
      assert text[i] == raw[|raw| - |text| + i];
    }
  }

  lemma {:induction false} LinesTwice(st: State, lines: seq<string>)
    requires IsState(st) && forall i :: 0 <= i < |lines| ==> '\n' !in lines[i]
    ensures var out := FormatLines(st, lines);
            FormatLines(Canonical(st), out) == out && forall i :: 0 <= i < |out| ==> '\n' !in out[i]
    decreases |lines|
  {
    if lines != [] {
      StateStays(st, lines[0]);
      LineTwice(st, lines[0]);
      LinesTwice(FormatLine(st, lines[0]).0, lines[1..]);
    }
  }

  /** The first lines are formatted whatever follows. */
  lemma {:induction false} FormatPrefix(st: State, lines: seq<string>, n: nat)
    requires IsState(st) && n <= |lines|
    ensures FormatLines(st, lines[..n]) == FormatLines(st, lines)[..n]
    decreases n
  {
    if n > 0 {
      StateStays(st, lines[0]);
      assert lines[..n][1..] == lines[1..][..n - 1];
      FormatPrefix(FormatLine(st, lines[0]).0, lines[1..], n - 1);
    }
  }

  lemma {:induction false} LinesHaveNoNewline(s: string)
    ensures forall i :: 0 <= i < |Lines(s)| ==> '\n' !in Lines(s)[i]
  {
    var k := LineEnd(s);
    if k + 1 < |s| { LinesHaveNoNewline(s[k + 1..]); }
  }

  lemma {:induction false} LineEndIs(s: string, k: nat)
    requires k <= |s| && (k < |s| ==> s[k] == '\n') && '\n' !in s[..k]
    ensures LineEnd(s) == k
  {
    if k > 0 {
      assert s[0] == s[..k][0];
      assert s[1..][..k - 1] == s[..k][1..];
      LineEndIs(s[1..], k - 1);
    }
  }

  lemma LineEndAt(line: string, rest: string)
    requires '\n' !in line
    ensures LineEnd(line) == |line| && LineEnd(line + "\n" + rest) == |line|
  {
    assert (line + "\n" + rest)[..|line|] == line == line[..|line|];
    LineEndIs(line, |line|);
    LineEndIs(line + "\n" + rest, |line|);
  }

  /** The first line of a text, and the rest of it. */
  lemma LinesCons(line: string, rest: string)
    requires '\n' !in line
    ensures Lines(line + "\n" + rest) == if rest == [] then [line] else [line] + Lines(rest)
  {
    var s := line + "\n" + rest;
    LineEndAt(line, rest);
    assert s[|line| + 1..] == rest && s[..|line|] == line;
  }

  lemma EndsLater(a: string, b: string)
    requires b != []
    ensures EndsInNewline(a + b) <==> EndsInNewline(b)
  {
  }

  /** Reading lines back from a text that ends in a newline. */
  lemma {:induction false} LinesBack(lines: seq<string>)
    requires lines != [] && forall i :: 0 <= i < |lines| ==> '\n' !in lines[i]
    ensures Lines(Text(lines)) == lines && EndsInNewline(Text(lines))
    decreases |lines|
  {
    hide *;
    TextIs(lines);
    var rest := Text(lines[1..]);
    LinesCons(lines[0], rest);
    if |lines| == 1 {
      TextOne(lines);
    } else {
      LinesBack(lines[1..]);
      NewlineNotEmpty(rest);
      EndsLater(lines[0] + "\n", rest);
    }
  }

  lemma TextIs(lines: seq<string>)
    ensures Text(lines) == if lines == [] then [] else lines[0] + "\n" + Text(lines[1..])
  {
  }

  lemma TextOne(lines: seq<string>)
    requires |lines| == 1
    ensures Text(lines) == lines[0] + "\n" && EndsInNewline(Text(lines)) && Text(lines[1..]) == []
  {
    assert lines[0] + "\n" + [] == lines[0] + "\n";
  }

  lemma NewlineNotEmpty(s: string)
    requires EndsInNewline(s)
    ensures s != []
  {
  }

  lemma Joined(a: string, b: string, c: string)
    ensures a + "\n" + b + c == a + "\n" + (b + c)
  {
  }

  lemma FirstAndRest(lines: seq<string>, last: string)
    requires lines != []
    ensures [lines[0]] + (lines[1..] + [last]) == lines + [last]
  {
  }

  /** Reading lines back from a text with an unfinished last line. */
  lemma {:induction false} OpenLinesBack(lines: seq<string>, last: string)
    requires forall i :: 0 <= i < |lines| ==> '\n' !in lines[i]
    requires '\n' !in last && (last != [] || lines == [])
    ensures Lines(Text(lines) + last) == lines + [last] && !EndsInNewline(Text(lines) + last)
    decreases |lines|
  {
    hide *;
    TextIs(lines);
    if lines == [] {
      assert Text(lines) + last == last;
      OneLine(last);
    } else {
      var rest := Text(lines[1..]) + last;
      Joined(lines[0], Text(lines[1..]), last);
      LinesCons(lines[0], rest);
      EndsLater(lines[0] + "\n", rest);
      FirstAndRest(lines, last);
      if |lines| == 1 {
        OnlyLast(lines, last);
        OneLine(last);
      } else {
        OpenLinesBack(lines[1..], last);
      }
    }
  }

  lemma OnlyLast(lines: seq<string>, last: string)
    requires |lines| == 1
    ensures lines[1..] == [] && Text(lines[1..]) + last == last && [lines[0]] + [last] == lines + [last]
  {
  }

  lemma OneLine(s: string)
    requires '\n' !in s
    ensures Lines(s) == [s] && !EndsInNewline(s)
  {
    LineEndAt(s, []);
  }

  // ----- formatting twice -----

  /** The text of all lines but the last, and the last one without a newline. */
  lemma {:induction false} TextLast(lines: seq<string>)
    requires lines != []
    ensures var n := |lines| - 1;
            var s := Text(lines);
            s != [] && s[..|s| - 1] == Text(lines[..n]) + lines[n]
    decreases |lines|
  {
    var n := |lines| - 1;
    if n == 0 {
      TextOne(lines);
      assert lines[..0] == [];
    } else {
      TextLast(lines[1..]);
      assert lines[1..][..n - 1] == lines[..n][1..];
      var t := Text(lines[1..]);
      var s := lines[0] + "\n" + t;
      assert s[..|s| - 1] == lines[0] + "\n" + t[..|t| - 1];
      assert Text(lines[..n]) == lines[0] + "\n" + Text(lines[..n][1..]);
      assert lines[0] + "\n" + (Text(lines[1..][..n - 1]) + lines[n]) == Text(lines[..n]) + lines[n];
    }
  }

  /** Formatted lines are formatted to themselves, and so are the first ones of them. */
  lemma FormattedLines(s: string, n: nat)
    requires n <= |Lines(s)|
    ensures var out := FormatLines(START, Lines(s));
            && FormatLines(START, out[..n]) == out[..n]
            && forall i :: 0 <= i < |out| ==> '\n' !in out[i]
  {
    hide FormatLines, Lines;
    var lines := Lines(s);
    LinesHaveNoNewline(s);
    LinesTwice(START, lines);
    assert Canonical(START) == START by { assert Levels(1) == [0]; }
    var out := FormatLines(START, lines);
    FormatPrefix(START, out, n);
  }

  /** Formatting is idempotent: a formatted source passes the check, whatever it was made from. */
  lemma FormatIdempotent(s: string)
    ensures Format(Format(s)) == Format(s)
  {
    hide FormatLines, Lines, Text, EndsInNewline;
    var out := FormatLines(START, Lines(s));
    var n := |out| - 1;
    FormattedLines(s, |out|);
    FormattedLines(s, n);
    assert out[..|out|] == out;
    LinesBack(out);
    if !EndsInNewline(s) {
      TextLast(out);
      var f := Text(out[..n]) + out[n];
      assert f == Format(s);
      assert out == out[..n] + [out[n]];
      if out[n] != [] || n == 0 {
        OpenLinesBack(out[..n], out[n]);
      } else {
        LinesBack(out[..n]);
        assert f == Text(out[..n]);
      }
    }
  }

  /** The state in which line `i` is formatted. */
  ghost function StateAt(st: State, lines: seq<string>, i: nat): (r: State)
    requires IsState(st) && i <= |lines|
    ensures IsState(r)
    decreases |lines|
  {
    if i == 0 then st
    else
      StateStays(st, lines[0]);
      StateAt(FormatLine(st, lines[0]).0, lines[1..], i - 1)
  }

  /**
   * A line that begins inside a string loses only its carriage returns at the end, any other line its indentation too.
   */
  ghost predicate Keeps(inString: bool, line: string, text: string) {
    if inString then text == TrimReturns(line) else TrimIndent(text) == TrimIndent(TrimReturns(line))
  }

  /** Formatting changes only carriage returns at line ends, and the indentation outside strings. */
  lemma {:induction false} TextKept(st: State, lines: seq<string>)
    requires IsState(st)
    ensures |FormatLines(st, lines)| == |lines|
    ensures forall i :: 0 <= i < |lines| ==> Keeps(StateAt(st, lines, i).inString, lines[i], FormatLines(st, lines)[i])
    decreases |lines|
  {
    hide Keeps, FormatLine;
    if lines != [] {
      StateStays(st, lines[0]);
      LineKept(st, lines[0]);
      TextKept(FormatLine(st, lines[0]).0, lines[1..]);
    }
  }

  lemma LineKept(st: State, line: string)
    requires IsState(st)
    ensures Keeps(st.inString, line, FormatLine(st, line).1)
  {
    hide TrimIndent, TrimReturns, Adjusted, Columns, OpenAfter, Indent, FormatLine;
    FormatLineIs(st, line);
    var raw := TrimReturns(line);
    TrimIndentTwice(raw);
    if !st.inString && TrimIndent(raw) != [] {
      IndentIs(|Adjusted(st.stack, Columns(raw))| - 1, TrimIndent(raw));
    }
  }

  /**
   * The shape of a line outside strings: nothing for a blank one; else two spaces for each open indent but the outermost,
   * and the text of the line.
   */
  lemma LineShape(st: State, line: string)
    requires IsState(st) && !st.inString
    ensures var (next, out) := FormatLine(st, line);
            && ((forall i :: 0 <= i < |TrimReturns(line)| ==>
                 TrimReturns(line)[i] == ' ' || TrimReturns(line)[i] == '\t') ==>
                  out == [] && next == st)
            && (out != [] ==>
                  && next.stack != [] && |out| >= 2 * (|next.stack| - 1)
                  && (forall i :: 0 <= i < 2 * (|next.stack| - 1) ==> out[i] == ' ')
                  && out[2 * (|next.stack| - 1)..] == TrimIndent(TrimReturns(line)))
  {
    var raw := TrimReturns(line);
    IndentCut(raw);
    FormatLineIs(st, line);
    assert forall n: nat, i :: 0 <= i < |Indent(n)| ==> Indent(n)[i] == ' ';
    hide TrimReturns, TrimIndent, Adjusted, Columns, OpenAfter, FormatLine, Indent;
    var text := TrimIndent(raw);
    assert text != [] ==> raw[|raw| - |text|] == text[0];
    var k := 2 * (|Adjusted(st.stack, Columns(raw))| - 1);
    assert (Indent(k / 2) + text)[k..] == text;
  }

  // ----- the loops of the source -----

  /** `leading_indent_columns` */
  method LeadingIndentColumns(s: string) returns (col: nat)
    ensures col == Columns(s)
  {
    col := 0;
    var i := 0;
    while i < |s|
      invariant 0 <= i <= |s| && col + Columns(s[i..]) == Columns(s)
    {
      if s[i] == ' ' {
        col := col + 1;
      } else if s[i] == '\t' {
        col := col + 4;
      } else {
        return;
      }
      assert s[i..][1..] == s[i + 1..];
      i := i + 1;
    }
  }

  /** `update_multiline_string_state` */
  method UpdateMultilineStringState(s: string, open: bool) returns (inString: bool)
    ensures inString == OpenAfter(s, 0, open)
  {
    inString := open;
    var i := 0;
    while i + 1 < |s|
      invariant 0 <= i && OpenAfter(s, i, inString) == OpenAfter(s, 0, open)
    {
      if !inString && s[i] == '[' && s[i + 1] == '[' {
        inString := true;
        i := i + 2;
      } else {
        if inString && s[i] == ']' && s[i + 1] == ']' {
          inString := false;
          i := i + 1;
        }
        i := i + 1;
      }
    }
  }

  /** `append_indent` */
  method AppendIndent(out: string, levels: nat) returns (longer: string)
    ensures longer == out + Indent(levels)
  {
    longer := out;
    for i := 0 to levels
      invariant longer == out + Indent(i)
    {
      longer := longer + "  ";
      assert Indent(i + 1) == Indent(i) + "  ";
    }
  }

  /** `strchr` for the newline. */
  method FindLineEnd(source: string, start: nat) returns (end: nat)
    requires start <= |source|
    ensures start <= end <= |source| && end - start == LineEnd(source[start..])
  {
    end := start;
    while end < |source| && source[end] != '\n'
      invariant start <= end <= |source|
      invariant LineEnd(source[start..]) == end - start + LineEnd(source[end..])
    {
      assert source[end..][1..] == source[end + 1..];
      end := end + 1;
    }
  }

  /** The trailing carriage returns go. */
  method StripReturns(line: string) returns (raw: string)
    ensures raw == TrimReturns(line)
  {
    var n := |line|;
    assert line[..n] == line;
    while n > 0 && line[n - 1] == '\r'
      invariant n <= |line| && TrimReturns(line[..n]) == TrimReturns(line)
    {
      assert line[..n][..n - 1] == line[..n - 1];
      n := n - 1;
    }
    raw := line[..n];
  }

  /** The leading blanks and tabs go. */
  method StripIndent(raw: string) returns (text: string)
    ensures text == TrimIndent(raw)
  {
    var n := 0;
    while n < |raw| && (raw[n] == ' ' || raw[n] == '\t')
      invariant n <= |raw| && TrimIndent(raw[n..]) == TrimIndent(raw)
    {
      assert raw[n..][1..] == raw[n + 1..];
      n := n + 1;
    }
    text := raw[n..];
  }

  /** The open indents of the formatter: the columns in an array of fixed size, and how many lie above the first. */
  class IndentStack {
    var columns: array<nat>
    var top: nat

    constructor ()
      ensures Valid() && Open() == [0] && fresh(columns)
    {
      columns := new nat[MAX_STACK](_ => 0);
      top := 0;
      new;
      assert columns[..1] == [0];
    }

    ghost predicate Valid()
      reads this, columns
    {
      columns.Length == MAX_STACK && top < MAX_STACK
    }

    ghost function Open(): seq<nat>
      requires Valid()
      reads this, columns
    {
      columns[..top + 1]
    }

    /** Opens an indent for a deeper column, as long as there is room; closes indents for a lower one. */
    method Adjust(col: nat)
      requires Valid()
      modifies `top, columns
      ensures Valid() && Open() == Adjusted(old(Open()), col)
    {
      ghost var before := Open();
      if col > columns[top] {
        if top < MAX_STACK - 1 {
          top := top + 1;
          columns[top] := col;
        }
      } else if col < columns[top] {
        while top > 0 && col < columns[top]
          invariant Valid() && columns == old(columns) && top <= |before| - 1 && Open() == before[..top + 1]
          invariant Close(Open(), col) == Close(before, col)
        {
          assert Open()[..top] == before[..top];
          top := top - 1;
        }
      }
    }
  }

  /** One turn of the loop of `format_source`: the line goes to the output, the state to the next line. */
  method FormatNextLine(out: string, line: string, stack: IndentStack, open: bool)
    returns (longer: string, inString: bool)
    requires stack.Valid()
    modifies stack`top, stack.columns
    ensures stack.Valid()
    ensures var (next, text) := FormatLine(State(old(stack.Open()), open), line);
            next == State(stack.Open(), inString) && longer == out + text + "\n"
  {
    hide TrimReturns, TrimIndent, Columns, OpenAfter, Adjusted, FormatLine, Indent;
    FormatLineIs(State(stack.Open(), open), line);
    var raw := StripReturns(line);
    if open {
      longer := out + raw + "\n";
      inString := UpdateMultilineStringState(raw, true);
      return;
    }
    var col := LeadingIndentColumns(raw);
    var stripped := StripIndent(raw);
    if |stripped| == 0 {
      assert out + [] + "\n" == out + "\n";
      return out + "\n", false;
    }
    stack.Adjust(col);
    longer := AppendIndent(out, stack.top);
    assert longer + stripped == out + (Indent(stack.top) + stripped);
    longer := longer + stripped + "\n";
    inString := UpdateMultilineStringState(stripped, false);
  }

  /** The line at `start`, and what follows it. */
  lemma NextLine(source: string, start: nat, end: nat)
    requires start <= end <= |source| && end - start == LineEnd(source[start..])
    ensures Lines(source[start..]) ==
            if end + 1 >= |source| then [source[start..end]] else [source[start..end]] + Lines(source[end + 1..])
  {
    var rest := source[start..];
    assert rest[..end - start] == source[start..end];
    if end < |source| {
      assert rest[end - start + 1..] == source[end + 1..];
    } else {
      assert rest == source[start..end];
    }
  }

  lemma FormatLinesIs(st: State, line: string, rest: seq<string>)
    requires IsState(st)
    ensures IsState(FormatLine(st, line).0)
    ensures FormatLines(st, [line] + rest) == [FormatLine(st, line).1] + FormatLines(FormatLine(st, line).0, rest)
  {
    hide FormatLine;
    StateStays(st, line);
    assert ([line] + rest)[1..] == rest;
  }

  lemma TextStep(out: string, text: string, rest: seq<string>)
    ensures out + Text([text] + rest) == out + text + "\n" + Text(rest)
  {
    assert ([text] + rest)[1..] == rest;
  }

  lemma StartOpen(columns: seq<nat>)
    requires columns == [0]
    ensures State(columns, false) == START && IsState(START)
  {
  }

  lemma NoLines(st: State, out: string)
    requires IsState(st)
    ensures FormatLines(st, []) == [] && out + Text([]) == out
  {
  }

  lemma OneMore(line: string)
    ensures [line] + [] == [line]
  {
  }

  lemma FormatIs(source: string)
    ensures var out := Text(FormatLines(START, Lines(source)));
            out != [] && Format(source) == if source != [] && source[|source| - 1] == '\n' then out else out[..|out| - 1]
  {
    hide Lines, FormatLines;
  }

  /** `format_source` */
  method FormatSource(source: string) returns (out: string)
    ensures out == Format(source)
  {
    hide *;
    out := [];
    var stack := new IndentStack();
    var inString := false;
    StartOpen(stack.Open());
    ghost var st := State(stack.Open(), inString);
    ghost var full := Text(FormatLines(START, Lines(source)));
    var start := 0;
    assert source[0..] == source;
    assert out + full == full;
    while true
      invariant start <= |source| && stack.Valid() && IsState(st) && fresh(stack) && fresh(stack.columns)
      invariant st == State(stack.Open(), inString)
      invariant out + Text(FormatLines(st, Lines(source[start..]))) == full
      decreases |source| - start
    {
      var end := FindLineEnd(source, start);
      ghost var line := source[start..end];
      ghost var rest := if end + 1 >= |source| then [] else Lines(source[end + 1..]);
      StateIs(st);
      NextLine(source, start, end);
      OneMore(line);
      FormatLinesIs(st, line, rest);
      TextStep(out, FormatLine(st, line).1, FormatLines(FormatLine(st, line).0, rest));
      out, inString := FormatNextLine(out, source[start..end], stack, inString);
      st := FormatLine(st, line).0;
      if end == |source| || end + 1 == |source| {
        NoLines(st, out);
        break;
      }
      start := end + 1;
    }
    FormatIs(source);
    if !(|source| > 0 && source[|source| - 1] == '\n') && |out| > 0 && out[|out| - 1] == '\n' {
      out := out[..|out| - 1];
    }
  }
}
