/** Strings in `[[` and `]]` over several lines: when one is open, and what formatting does to its lines. */
module LongStrings {
  import opened Formatter
  import opened LineTokens

  // ----- when a string is open -----

  /** The character stands twice in a row somewhere. */
  ghost predicate Doubled(s: string, c: char) {
    exists i :: 0 <= i < |s| - 1 && s[i] == c && s[i + 1] == c
  }

  lemma {:induction false} OpenFrom(s: string, i: nat, open: bool)
    requires i <= |s|
    ensures OpenAfter(s, i, open) == OpenAfter(s[i..], 0, open)
  {
    OpenShift(s, s[i..], i, 0, open);
  }

  lemma {:induction false} OpenShift(s: string, u: string, i: nat, j: nat, open: bool)
    requires i <= |s| && j <= |u| && s[i..] == u[j..]
    ensures OpenAfter(s, i, open) == OpenAfter(u, j, open)
    decreases |s| - i
  {
    assert |s| - i == |u| - j;
    if i + 1 < |s| {
      assert s[i] == s[i..][0] == u[j..][0] == u[j] && s[i + 1] == s[i..][1] == u[j..][1] == u[j + 1];
      assert s[i + 1..] == s[i..][1..] == u[j..][1..] == u[j + 1..];
      assert s[i + 2..] == s[i..][2..] == u[j..][2..] == u[j + 2..];
      OpenShift(s, u, i + 1, j + 1, open);
      OpenShift(s, u, i + 2, j + 2, !open);
    }
  }

  /** Nothing changes before a place up to which the delimiter does not stand. */
  lemma {:induction false} OpenSkips(s: string, i: nat, k: nat, open: bool)
    requires i <= k <= |s|
    requires var c := if open then ']' else '['; forall j :: i <= j < k && j + 1 < |s| ==> !(s[j] == c && s[j + 1] == c)
    ensures OpenAfter(s, i, open) == OpenAfter(s, k, open)
    decreases k - i
  {
    if i < k { OpenSkips(s, i + 1, k, open); }
  }

  /** A text without the delimiter leaves things as they are: no string opens outside, none closes inside. */
  lemma NoDelimiter(s: string, open: bool)
    requires !Doubled(s, if open then ']' else '[')
    ensures OpenAfter(s, 0, open) == open
  {
    OpenSkips(s, 0, |s|, open);
  }

  /** The first `[[` opens a string: what follows it is read inside. */
  lemma FirstOpens(a: string, b: string)
    requires !Doubled(a + "[", '[')
    ensures OpenAfter(a + "[[" + b, 0, false) == OpenAfter(b, 0, true)
  {
    var s := a + "[[" + b;
    Delimited(a, '[', b);
    OpenSkips(s, 0, |a|, false);
    assert s[|a|] == '[' && s[|a| + 1] == '[';
    assert s[|a| + 2..] == b;
    OpenFrom(s, |a| + 2, true);
  }

  /** The first `]]` closes it: what follows is read outside. */
  lemma FirstCloses(a: string, b: string)
    requires !Doubled(a + "]", ']')
    ensures OpenAfter(a + "]]" + b, 0, true) == OpenAfter(b, 0, false)
  {
    var s := a + "]]" + b;
    Delimited(a, ']', b);
    OpenSkips(s, 0, |a|, true);
    assert s[|a|] == ']' && s[|a| + 1] == ']';
    assert s[|a| + 2..] == b;
    OpenFrom(s, |a| + 2, false);
  }

  lemma Delimited(a: string, c: char, b: string)
    requires !Doubled(a + [c], c)
    ensures var s := a + [c, c] + b; forall j :: 0 <= j < |a| && j + 1 < |s| ==> !(s[j] == c && s[j + 1] == c)
  {
    var s, t := a + [c, c] + b, a + [c];
    forall j | 0 <= j < |a| && j + 1 < |s|
      ensures !(s[j] == c && s[j + 1] == c)
    {
      assert s[j] == t[j] && s[j + 1] == t[j + 1];
    }
  }

  /** Line by line is the same as all at once: the delimiters do not run over line ends. */
  lemma OpenByLine(a: string, b: string, open: bool)
    ensures OpenAfter(a + "\n" + b, 0, open) == OpenAfter(b, 0, OpenAfter(a, 0, open))
  {
    OpenPast(a, b, 0, open);
  }

  lemma {:induction false} OpenPast(a: string, b: string, i: nat, open: bool)
    requires i <= |a|
    ensures OpenAfter(a + "\n" + b, i, open) == OpenAfter(b, 0, OpenAfter(a, i, open))
    decreases |a| - i
  {
    var s := a + "\n" + b;
    if i + 1 < |a| {
      assert s[i] == a[i] && s[i + 1] == a[i + 1];
      OpenPast(a, b, i + 1, open);
      OpenPast(a, b, i + 2, !open);
    } else {
      assert forall j :: i <= j <= |a| && j + 1 < |s| ==>
               (j == |a| && s[j] == '\n') || (j + 1 == |a| && s[j + 1] == '\n');
      OpenSkips(s, i, |a| + 1, open);
      assert s[|a| + 1..] == b;
      OpenFrom(s, |a| + 1, open);
    }
  }

  // ----- the lines of a string are kept -----

  /** Every line but the one in which a string opens is kept, up to and with the one in which it closes. */
  lemma {:induction false} InsideKept(st: State, lines: seq<string>)
    requires IsState(st) && st.inString
    requires forall i :: 0 <= i < |lines| - 1 ==> !Doubled(TrimReturns(lines[i]), ']')
    ensures forall i :: 0 <= i < |lines| ==> FormatLines(st, lines)[i] == TrimReturns(lines[i])
    decreases |lines|
  {
    hide TrimReturns, TrimIndent, Adjusted, Columns, OpenAfter, Doubled;
    if lines != [] {
      StateStays(st, lines[0]);
      FormatLineIs(st, lines[0]);
      if |lines| > 1 {
        NoDelimiter(TrimReturns(lines[0]), true);
        InsideKept(FormatLine(st, lines[0]).0, lines[1..]);
      }
    }
  }

  /** A line outside whose text holds `[[`, and no `]]` behind it, opens a string. */
  lemma OpensString(st: State, line: string, a: string, b: string)
    requires IsState(st) && !st.inString && TrimIndent(TrimReturns(line)) == a + "[[" + b
    requires !Doubled(a + "[", '[') && !Doubled(b, ']')
    ensures IsState(FormatLine(st, line).0) && FormatLine(st, line).0.inString
  {
    StateStays(st, line);
    FormatLineIs(st, line);
    FirstOpens(a, b);
    NoDelimiter(b, true);
    hide TrimReturns, TrimIndent, Adjusted, Columns, OpenAfter, Doubled;
  }

  /**
   * A string over several lines: behind the line that opens it, the lines up to the one that closes it lose nothing but
   * carriage returns at their ends.
   */
  lemma LongStringKept(st: State, line: string, a: string, b: string, lines: seq<string>)
    requires IsState(st) && !st.inString && TrimIndent(TrimReturns(line)) == a + "[[" + b
    requires !Doubled(a + "[", '[') && !Doubled(b, ']')
    requires forall i :: 0 <= i < |lines| - 1 ==> !Doubled(TrimReturns(lines[i]), ']')
    ensures forall i :: 0 <= i < |lines| ==> FormatLines(st, [line] + lines)[i + 1] == TrimReturns(lines[i])
  {
    hide *;
    StateIs(st);
    OpensString(st, line, a, b);
    InsideKept(FormatLine(st, line).0, lines);
    FormatCons(st, line, lines);
  }

  lemma FormatCons(st: State, line: string, rest: seq<string>)
    requires IsState(st)
    ensures IsState(FormatLine(st, line).0)
    ensures FormatLines(st, [line] + rest) == [FormatLine(st, line).1] + FormatLines(FormatLine(st, line).0, rest)
  {
    hide FormatLine;
    StateStays(st, line);
    assert ([line] + rest)[1..] == rest;
  }

  // ----- lines put together while a string is open -----

  /** No string is open behind the line, and it holds no carriage return. */
  predicate Ended(line: string) {
    '\r' !in line && !OpenAfter(TrimIndent(line), 0, false)
  }

  /** The lines, each with those behind it up to the end of the string that it opens. */
  function Logical(lines: seq<string>): seq<string>
    decreases |lines|
  {
    if lines == [] then []
    else if |lines| == 1 || !OpenAfter(TrimIndent(lines[0]), 0, false) then [lines[0]] + Logical(lines[1..])
    else Logical([lines[0] + "\n" + lines[1]] + lines[2..])
  }

  lemma {:induction false} LogicalFirst(lines: seq<string>)
    requires lines != []
    ensures Logical(lines) != [] && lines[0] <= Logical(lines)[0]
    decreases |lines|
  {
    hide OpenAfter, TrimIndent;
    if |lines| > 1 && OpenAfter(TrimIndent(lines[0]), 0, false) {
      var merged := [lines[0] + "\n" + lines[1]] + lines[2..];
      LogicalFirst(merged);
      assert lines[0] <= merged[0];
    }
  }

  /** Lines without open strings stay apart. */
  lemma {:induction false} LogicalSame(lines: seq<string>)
    requires forall i :: 0 <= i < |lines| ==> Ended(lines[i])
    ensures Logical(lines) == lines
    decreases |lines|
  {
    hide OpenAfter, TrimIndent;
    if lines != [] { LogicalSame(lines[1..]); }
  }

  /** The text is the same. */
  lemma {:induction false} LogicalJoined(lines: seq<string>, ended: bool)
    ensures JoinedLines(Logical(lines), ended) == JoinedLines(lines, ended)
    decreases |lines|
  {
    hide OpenAfter, TrimIndent, JoinedLines;
    JoinedIs([], ended);
    if lines != [] {
      JoinedIs(lines, ended);
      if |lines| == 1 || !OpenAfter(TrimIndent(lines[0]), 0, false) {
        LogicalJoined(lines[1..], ended);
        if |lines| > 1 { LogicalFirst(lines[1..]); }
        JoinedIs([lines[0]] + Logical(lines[1..]), ended);
        assert ([lines[0]] + Logical(lines[1..]))[1..] == Logical(lines[1..]);
      } else {
        LogicalJoined([lines[0] + "\n" + lines[1]] + lines[2..], ended);
        MergedJoined(lines[0], lines[1], lines[2..], ended);
        assert [lines[0], lines[1]] + lines[2..] == lines;
      }
    }
  }

  lemma JoinedIs(lines: seq<string>, ended: bool)
    ensures lines == [] ==> JoinedLines(lines, ended) == []
    ensures lines != [] ==>
              JoinedLines(lines, ended) ==
              if |lines| == 1 && !ended then lines[0] else lines[0] + "\n" + JoinedLines(lines[1..], ended)
  {
  }

  lemma MergedJoined(a: string, b: string, rest: seq<string>, ended: bool)
    ensures JoinedLines([a + "\n" + b] + rest, ended) == JoinedLines([a, b] + rest, ended)
  {
    hide JoinedLines;
    JoinedIs([a + "\n" + b] + rest, ended);
    JoinedIs([a, b] + rest, ended);
    JoinedIs([b] + rest, ended);
    Tails(a, b, rest);
    Tails(a + "\n" + b, b, rest);
    Grouped(a, b, JoinedLines(rest, ended));
  }

  lemma Tails(a: string, b: string, rest: seq<string>)
    ensures ([a, b] + rest)[1..] == [b] + rest && ([b] + rest)[1..] == rest && ([a] + rest)[1..] == rest
  {
  }

  lemma Grouped(a: string, b: string, tail: string)
    ensures a + "\n" + b + "\n" + tail == a + "\n" + (b + "\n" + tail)
  {
  }

  /** How a line and one inside the string it opens are formatted, apart or put together. */
  lemma MergedFormat(st: State, a: string, b: string)
    requires IsState(st) && !st.inString && '\r' !in a + "\n" + b && OpenAfter(TrimIndent(a), 0, false)
    ensures var (one, x) := FormatLine(st, a);
            && IsState(one) && FormatLine(one, b).1 == b
            && FormatLine(st, a + "\n" + b) == (FormatLine(one, b).0, x + "\n" + b)
  {
    StateStays(st, a);
    NoReturns(a, b);
    FormatLineIs(st, a);
    FormatLineIs(FormatLine(st, a).0, b);
    FormatLineIs(st, a + "\n" + b);
    IndentInFront(a, b);
    OpenByLine(TrimIndent(a), b, false);
    assert OpenAfter("", 0, false) == false;
    hide TrimReturns, TrimIndent, Adjusted, Columns, OpenAfter, FormatLine, Indent;
    var level := |Adjusted(st.stack, Columns(a))| - 1;
    assert Indent(level) + (TrimIndent(a) + "\n" + b) == Indent(level) + TrimIndent(a) + "\n" + b;
  }

  lemma NoReturns(a: string, b: string)
    requires '\r' !in a + "\n" + b
    ensures TrimReturns(a) == a && TrimReturns(b) == b && TrimReturns(a + "\n" + b) == a + "\n" + b
  {
    var s := a + "\n" + b;
    assert a != [] ==> a[|a| - 1] in s;
    assert b != [] ==> b[|b| - 1] in s;
    assert s[|s| - 1] in s;
  }

  lemma {:induction false} IndentInFront(a: string, b: string)
    requires TrimIndent(a) != []
    ensures TrimIndent(a + "\n" + b) == TrimIndent(a) + "\n" + b && Columns(a + "\n" + b) == Columns(a)
    decreases |a|
  {
    var s := a + "\n" + b;
    if IsIndent(a[0]) {
      assert s[1..] == a[1..] + "\n" + b;
      IndentInFront(a[1..], b);
    }
  }

  /** Formatting line by line gives the text that formatting the lines put together gives. */
  lemma {:induction false} LogicalFormatted(st: State, lines: seq<string>, ended: bool)
    requires IsState(st) && !st.inString && forall i :: 0 <= i < |Logical(lines)| ==> Ended(Logical(lines)[i])
    ensures JoinedLines(FormatLines(st, lines), ended) == JoinedLines(FormatLines(st, Logical(lines)), ended)
    decreases |lines|
  {
    hide *;
    NoLogical();
    StateIs(st);
    if lines != [] {
      LogicalFirst(lines);
      LogicalNext(lines);
      var line, rest := lines[0], lines[1..];
      if |lines| == 1 || !OpenAfter(TrimIndent(line), 0, false) {
        StateStays(st, line);
        assert Ended(Logical(lines)[0]);
        EndedStays(st, line);
        TailEnded(line, Logical(rest));
        LogicalFormatted(FormatLine(st, line).0, rest, ended);
        assert [line] + rest == lines;
        FormatCons(st, line, rest);
        FormatCons(st, line, Logical(rest));
        LogicalSize(rest);
        StateIs(FormatLine(st, line).0);
        FormatSize(FormatLine(st, line).0, rest);
        FormatSize(FormatLine(st, line).0, Logical(rest));
        SameJoined(FormatLine(st, line).1, FormatLines(FormatLine(st, line).0, rest),
                   FormatLines(FormatLine(st, line).0, Logical(rest)), ended);
      } else {
        MergedFormatted(st, lines, ended);
        LogicalFormatted(st, [lines[0] + "\n" + lines[1]] + lines[2..], ended);
      }
    }
  }

  lemma FormatSize(st: State, lines: seq<string>)
    requires IsState(st)
    ensures |FormatLines(st, lines)| == |lines|
  {
  }

  lemma NoLogical()
    ensures Logical([]) == []
  {
  }

  lemma LogicalNext(lines: seq<string>)
    requires lines != []
    ensures |lines| == 1 || !OpenAfter(TrimIndent(lines[0]), 0, false) ==>
              Logical(lines) == [lines[0]] + Logical(lines[1..])
    ensures |lines| > 1 && OpenAfter(TrimIndent(lines[0]), 0, false) ==>
              Logical(lines) == Logical([lines[0] + "\n" + lines[1]] + lines[2..])
  {
  }

  lemma LogicalSize(lines: seq<string>)
    ensures Logical(lines) == [] <==> lines == []
  {
    if lines != [] { LogicalFirst(lines); }
  }

  lemma EndedStays(st: State, line: string)
    requires IsState(st) && !st.inString && Ended(line)
    ensures IsState(FormatLine(st, line).0) && !FormatLine(st, line).0.inString
  {
    StateStays(st, line);
    assert line != [] ==> line[|line| - 1] in line;
    TrimReturnsTwice(line);
    FormatLineIs(st, line);
    hide TrimReturns, TrimIndent, Adjusted, Columns, OpenAfter, FormatLine;
  }

  lemma TailEnded(line: string, rest: seq<string>)
    requires forall i :: 0 <= i < |[line] + rest| ==> Ended(([line] + rest)[i])
    ensures forall i :: 0 <= i < |rest| ==> Ended(rest[i])
  {
    hide Ended;
    assert forall i :: 0 <= i < |rest| ==> ([line] + rest)[i + 1] == rest[i];
  }

  lemma SameJoined(line: string, a: seq<string>, b: seq<string>, ended: bool)
    requires JoinedLines(a, ended) == JoinedLines(b, ended) && (a == [] <==> b == [])
    ensures JoinedLines([line] + a, ended) == JoinedLines([line] + b, ended)
  {
    hide JoinedLines;
    JoinedIs([line] + a, ended);
    JoinedIs([line] + b, ended);
    assert ([line] + a)[1..] == a && ([line] + b)[1..] == b;
  }

  lemma MergedFormatted(st: State, lines: seq<string>, ended: bool)
    requires IsState(st) && !st.inString && |lines| > 1 && OpenAfter(TrimIndent(lines[0]), 0, false)
    requires forall i :: 0 <= i < |Logical(lines)| ==> Ended(Logical(lines)[i])
    ensures var merged := [lines[0] + "\n" + lines[1]] + lines[2..];
            JoinedLines(FormatLines(st, lines), ended) == JoinedLines(FormatLines(st, merged), ended)
  {
    hide *;
    var a, b, rest := lines[0], lines[1], lines[2..];
    StateIs(st);
    LogicalNext(lines);
    LogicalFirst([a + "\n" + b] + rest);
    assert Ended(Logical(lines)[0]);
    PartOfEnded(a + "\n" + b, Logical(lines)[0]);
    MergedFormat(st, a, b);
    var (one, x) := FormatLine(st, a);
    StateIs(one);
    StateStays(one, b);
    FormatCons(st, a, [b] + rest);
    FormatCons(one, b, rest);
    FormatCons(st, a + "\n" + b, rest);
    var out := FormatLines(FormatLine(one, b).0, rest);
    MergedJoined(x, b, out, ended);
    assert [a] + ([b] + rest) == lines && [x] + ([b] + out) == [x, b] + out;
  }

  lemma PartOfEnded(part: string, line: string)
    requires Ended(line) && part <= line
    ensures '\r' !in part
  {
    hide OpenAfter;
    assert forall i :: 0 <= i < |part| ==> part[i] == line[i];
  }
}
