/** Comma-separated text: writing rows, the parser's state machine, and when parsing gives the rows back. */
module Csv {
  const NUL := 0 as char

  /** A cell of a row; what is no string, number, boolean or nil cannot be written. */
  datatype Cell = Nil | Str(s: string) | Num(n: real) | Bool(b: bool) | Other

  /** An entry of the rows table: a row, or something that is no table. */
  datatype Row = Row(cells: seq<Cell>) | NoRow

  // ----- writing -----

  /** The text of a cell; numbers as the C library prints them. */
  function CellText(c: Cell, print17: real -> string): string {
    match c
    case Str(s) => s
    case Num(n) => print17(n)
    case Bool(b) => if b then "true" else "false"
    case _ => []
  }

  predicate NeedsQuotes(s: string, d: char) {
    exists i :: 0 <= i < |s| && (s[i] == d || s[i] == '"' || s[i] == '\n' || s[i] == '\r')
  }

  function Doubled(s: string): string {
    if s == [] then [] else (if s[0] == '"' then "\"\"" else [s[0]]) + Doubled(s[1..])
  }

  /** `csv_append_escaped_field` */
  function Escaped(s: string, d: char): string {
    if NeedsQuotes(s, d) then "\"" + Doubled(s) + "\"" else s
  }

  function FieldsText(fields: seq<string>, d: char): string {
    if fields == [] then []
    else if |fields| == 1 then Escaped(fields[0], d)
    else Escaped(fields[0], d) + [d] + FieldsText(fields[1..], d)
  }

  function RowsText(rows: seq<seq<string>>, d: char): string {
    if rows == [] then []
    else if |rows| == 1 then FieldsText(rows[0], d)
    else FieldsText(rows[0], d) + "\n" + RowsText(rows[1..], d)
  }

  /** The texts of the cells; a missing cell is empty. */
  function Texts(cells: seq<Cell>, print17: real -> string): (t: seq<string>)
    ensures |t| == |cells|
  {
    seq(|cells|, i requires 0 <= i < |cells| => CellText(cells[i], print17))
  }

  function AllTexts(rows: seq<Row>, print17: real -> string): (t: seq<seq<string>>)
    requires forall i :: 0 <= i < |rows| ==> rows[i].Row?
    ensures |t| == |rows|
  {
    seq(|rows|, i requires 0 <= i < |rows| => Texts(rows[i].cells, print17))
  }

  predicate Writable(row: Row) {
    row.Row? && forall i :: 0 <= i < |row.cells| ==> !row.cells[i].Other?
  }

  // ----- parsing -----

  datatype State = Start | Unquoted | Quoted | AfterQuote

  datatype Parsed = Rows(rows: seq<seq<string>>) | Error

  /** At the end of a row: it joins the rows, and the next one starts behind the line break if there is more text. */
  function EndRow(s: string, row: seq<string>, rows: seq<seq<string>>, d: char): Parsed
    decreases |s|, 0
  {
    var done := rows + [row];
    if s == [] || s[0] == NUL then Rows(done)
    else
      var rest := if s[0] == '\r' && |s| > 1 && s[1] == '\n' then s[2..] else s[1..];
      Run(rest, Start, [], [], rest != [], done, d)
  }

  predicate EndsRow(c: char) {
    c == '\n' || c == '\r' || c == NUL
  }

  /**
   * The state machine on the rest of the input, NUL standing for its end. `open` says whether there is a row to
   * put fields in.
   */
  function Run(s: string, st: State, field: string, row: seq<string>, open: bool, rows: seq<seq<string>>,
               d: char): Parsed
    decreases |s|, 1
  {
    var c := if s == [] then NUL else s[0];
    if st == Quoted then
      if c == NUL then Error
      else if c == '"' then
        if |s| > 1 && s[1] == '"' then Run(s[2..], Quoted, field + "\"", row, open, rows, d)
        else Run(s[1..], AfterQuote, field, row, open, rows, d)
      else Run(s[1..], Quoted, field + [c], row, open, rows, d)
    else if c == '"' && st == Start then Run(s[1..], Quoted, field, row, open, rows, d)
    else if c == '"' && st == Unquoted then Error
    else if c == d then
      if !open then Error
      else if s == [] then Rows(rows)
      else Run(s[1..], Start, [], row + [field], open, rows, d)
    else if EndsRow(c) then (if open then EndRow(s, row + [field], rows, d) else Error)
    else if st == AfterQuote then Error
    else Run(s[1..], Unquoted, field + [c], row, open, rows, d)
  }

  /** `csv_parse` */
  function Parse(s: string, d: char): Parsed {
    if s == [] then Rows([]) else Run(s, Start, [], [], true, [], d)
  }

  // ----- one field -----

  predicate NulFree(s: string) {
    NUL !in s
  }

  predicate GoodDelimiter(d: char) {
    d != '"' && d != '\r' && d != '\n' && d != NUL
  }

  /** What may follow a field: the delimiter, a line break, or the end. */
  predicate AfterField(rest: string, d: char) {
    rest == [] || rest[0] == d || rest[0] == '\n' || rest[0] == '\r'
  }

  /** After a field, whatever state its text left the machine in, the same happens. */
  function FieldDone(rest: string, field: string, row: seq<string>, rows: seq<seq<string>>, d: char): Parsed {
    if rest != [] && rest[0] == d then Run(rest[1..], Start, [], row + [field], true, rows, d)
    else EndRow(rest, row + [field], rows, d)
  }

  lemma RunIs(s: string, st: State, field: string, row: seq<string>, open: bool, rows: seq<seq<string>>, d: char)
    ensures Run(s, st, field, row, open, rows, d) ==
      var c := if s == [] then NUL else s[0];
      if st == Quoted then
        if c == NUL then Error
        else if c == '"' then
          if |s| > 1 && s[1] == '"' then Run(s[2..], Quoted, field + "\"", row, open, rows, d)
          else Run(s[1..], AfterQuote, field, row, open, rows, d)
        else Run(s[1..], Quoted, field + [c], row, open, rows, d)
      else if c == '"' && st == Start then Run(s[1..], Quoted, field, row, open, rows, d)
      else if c == '"' && st == Unquoted then Error
      else if c == d then
        if !open then Error
        else if s == [] then Rows(rows)
        else Run(s[1..], Start, [], row + [field], open, rows, d)
      else if EndsRow(c) then (if open then EndRow(s, row + [field], rows, d) else Error)
      else if st == AfterQuote then Error
      else Run(s[1..], Unquoted, field + [c], row, open, rows, d)
  {
    hide EndRow;
  }

  lemma DoneFrom(st: State, rest: string, field: string, row: seq<string>, rows: seq<seq<string>>, d: char)
    requires AfterField(rest, d) && GoodDelimiter(d) && st != Quoted
    ensures Run(rest, st, field, row, true, rows, d) == FieldDone(rest, field, row, rows, d)
  {
  }

  lemma {:induction false} PlainBack(s: string, sofar: string, rest: string, row: seq<string>, rows: seq<seq<string>>,
                                     d: char)
    requires AfterField(rest, d) && GoodDelimiter(d) && NulFree(s) && !NeedsQuotes(s, d)
    ensures Run(s + rest, Unquoted, sofar, row, true, rows, d) == FieldDone(rest, sofar + s, row, rows, d)
    decreases |s|
  {
    hide FieldDone, EndRow;
    if s == [] {
      assert s + rest == rest && sofar + s == sofar;
      DoneFrom(Unquoted, rest, sofar, row, rows, d);
    } else {
      assert (s + rest)[1..] == s[1..] + rest;
      assert sofar + [s[0]] + s[1..] == sofar + s;
      TailPlain(s, d);
      PlainBack(s[1..], sofar + [s[0]], rest, row, rows, d);
    }
  }

  lemma TailPlain(s: string, d: char)
    requires s != []
    ensures !NeedsQuotes(s, d) ==> !NeedsQuotes(s[1..], d) && s[0] != d && s[0] != '"' && s[0] != '\n' && s[0] != '\r'
    ensures NulFree(s) ==> NulFree(s[1..]) && s[0] != NUL
  {
    if !NeedsQuotes(s, d) {
      forall i | 0 <= i < |s[1..]|
        ensures s[1..][i] != d && s[1..][i] != '"' && s[1..][i] != '\n' && s[1..][i] != '\r'
      {
        assert s[1..][i] == s[i + 1];
      }
    }
  }

  lemma {:induction false} QuotedBack(s: string, sofar: string, rest: string, row: seq<string>, rows: seq<seq<string>>,
                                      d: char)
    requires AfterField(rest, d) && GoodDelimiter(d) && NulFree(s)
    ensures Run(Doubled(s) + "\"" + rest, Quoted, sofar, row, true, rows, d) == FieldDone(rest, sofar + s, row, rows, d)
    decreases |s|
  {
    hide FieldDone, EndRow;
    var t := Doubled(s) + "\"" + rest;
    if s == [] {
      assert t == "\"" + rest && t[1..] == rest && sofar + s == sofar;
      assert rest != [] ==> rest[0] != '"';
      DoneFrom(AfterQuote, rest, sofar, row, rows, d);
    } else {
      TailPlain(s, d);
      var u := Doubled(s[1..]) + "\"" + rest;
      assert sofar + [s[0]] + s[1..] == sofar + s;
      QuotedBack(s[1..], sofar + [s[0]], rest, row, rows, d);
      if s[0] == '"' {
        assert t == "\"\"" + u && t[2..] == u;
      } else {
        assert t == [s[0]] + u && t[1..] == u;
      }
    }
  }

  lemma QuotedField(s: string, rest: string, row: seq<string>, rows: seq<seq<string>>, d: char)
    requires AfterField(rest, d) && GoodDelimiter(d) && NulFree(s)
    ensures Run("\"" + Doubled(s) + "\"" + rest, Start, [], row, true, rows, d) == FieldDone(rest, s, row, rows, d)
  {
    hide FieldDone, EndRow, Doubled, Run, AfterField, NulFree;
    var t, u := "\"" + Doubled(s) + "\"" + rest, Doubled(s) + "\"" + rest;
    assert t == "\"" + u && t[1..] == u && t[0] == '"';
    RunIs(t, Start, [], row, true, rows, d);
    QuotedBack(s, [], rest, row, rows, d);
    assert [] + s == s;
  }

  lemma PlainField(s: string, rest: string, row: seq<string>, rows: seq<seq<string>>, d: char)
    requires AfterField(rest, d) && GoodDelimiter(d) && NulFree(s) && !NeedsQuotes(s, d) && s != []
    ensures Run(s + rest, Start, [], row, true, rows, d) == FieldDone(rest, s, row, rows, d)
  {
    hide FieldDone, EndRow, Run, AfterField, NulFree, NeedsQuotes;
    TailPlain(s, d);
    var t := s + rest;
    assert t[1..] == s[1..] + rest && t[0] == s[0];
    assert [] + [s[0]] + s[1..] == s;
    RunIs(t, Start, [], row, true, rows, d);
    PlainBack(s[1..], [] + [s[0]], rest, row, rows, d);
  }

  /** Any written field is read back, whatever follows it. */
  lemma FieldBack(s: string, rest: string, row: seq<string>, rows: seq<seq<string>>, d: char)
    requires AfterField(rest, d) && GoodDelimiter(d) && NulFree(s)
    ensures Run(Escaped(s, d) + rest, Start, [], row, true, rows, d) == FieldDone(rest, s, row, rows, d)
  {
    hide FieldDone, EndRow, Run, AfterField, NulFree, NeedsQuotes, Doubled;
    if NeedsQuotes(s, d) {
      QuotedField(s, rest, row, rows, d);
    } else if s == [] {
      assert s + rest == rest;
      DoneFrom(Start, rest, [], row, rows, d);
    } else {
      PlainField(s, rest, row, rows, d);
    }
  }

  // ----- rows -----

  predicate NulFreeRow(fields: seq<string>) {
    fields != [] && forall i :: 0 <= i < |fields| ==> NulFree(fields[i])
  }

  lemma {:induction false} RowBack(fields: seq<string>, rest: string, row: seq<string>, rows: seq<seq<string>>, d: char)
    requires (rest == [] || rest[0] == '\n' || rest[0] == '\r') && GoodDelimiter(d) && NulFreeRow(fields)
    ensures Run(FieldsText(fields, d) + rest, Start, [], row, true, rows, d) == EndRow(rest, row + fields, rows, d)
    decreases |fields|
  {
    hide Run, EndRow, Escaped;
    if |fields| == 1 {
      FieldBack(fields[0], rest, row, rows, d);
      assert row + [fields[0]] == row + fields;
    } else {
      var more := [d] + (FieldsText(fields[1..], d) + rest);
      assert FieldsText(fields, d) + rest == Escaped(fields[0], d) + more;
      FieldBack(fields[0], more, row, rows, d);
      assert more[1..] == FieldsText(fields[1..], d) + rest;
      RowBack(fields[1..], rest, row + [fields[0]], rows, d);
      assert row + [fields[0]] + fields[1..] == row + fields;
    }
  }

  /** A row writes nothing exactly when it is a single empty field. */
  lemma EmptyText(fields: seq<string>, d: char)
    requires fields != []
    ensures FieldsText(fields, d) == [] <==> fields == [""]
  {
  }

  lemma RowsTextEmpty(rows: seq<seq<string>>, d: char)
    requires rows != [] && forall i :: 0 <= i < |rows| ==> rows[i] != []
    ensures RowsText(rows, d) == [] <==> rows == [[""]]
  {
    EmptyText(rows[0], d);
  }

  /** Reading all rows back, unless the last one writes nothing: then the text ends in a newline, which is an error. */
  lemma {:induction false} RowsBack(rows: seq<seq<string>>, done: seq<seq<string>>, d: char)
    requires GoodDelimiter(d) && rows != [] && forall i :: 0 <= i < |rows| ==> NulFreeRow(rows[i])
    requires rows != [[""]]
    ensures Run(RowsText(rows, d), Start, [], [], true, done, d)
            == if rows[|rows| - 1] == [""] then Error else Rows(done + rows)
    decreases |rows|
  {
    hide Run, FieldsText;
    if |rows| == 1 {
      RowBack(rows[0], [], [], done, d);
      assert FieldsText(rows[0], d) + [] == FieldsText(rows[0], d);
      assert [] + rows[0] == rows[0] && done + [rows[0]] == done + rows;
    } else {
      var more := RowsText(rows[1..], d);
      RowBack(rows[0], "\n" + more, [], done, d);
      assert FieldsText(rows[0], d) + "\n" + more == FieldsText(rows[0], d) + ("\n" + more);
      assert ("\n" + more)[1..] == more && [] + rows[0] == rows[0];
      assert rows[1..][|rows| - 2] == rows[|rows| - 1];
      RowsTextEmpty(rows[1..], d);
      assert EndRow("\n" + more, rows[0], done, d) == Run(more, Start, [], [], more != [], done + [rows[0]], d);
      if rows[1..] == [[""]] {
        NoRow(done + [rows[0]], d);
      } else {
        RowsBack(rows[1..], done + [rows[0]], d);
        assert done + [rows[0]] + rows[1..] == done + rows;
      }
    }
  }

  lemma NoRow(rows: seq<seq<string>>, d: char)
    requires GoodDelimiter(d)
    ensures Run([], Start, [], [], false, rows, d) == Error
  {
  }

  /**
   * For rows of texts without NUL, each row non-empty, and any delimiter but quote, line break or NUL: parsing the
   * written rows gives them back exactly when the last row is not a single empty field.
   */
  lemma ParseText(rows: seq<seq<string>>, d: char)
    requires GoodDelimiter(d) && rows != [] && forall i :: 0 <= i < |rows| ==> NulFreeRow(rows[i])
    ensures Parse(RowsText(rows, d), d) == Rows(rows) <==> rows[|rows| - 1] != [""]
  {
    hide Run, FieldsText;
    RowsTextEmpty(rows, d);
    if rows != [[""]] {
      RowsBack(rows, [], d);
      assert [] + rows == rows;
    }
  }

  // ----- other line breaks -----

  /** The rows with a line break of this kind between them. */
  function JoinedRows(rows: seq<seq<string>>, br: string, d: char): string {
    if rows == [] then []
    else if |rows| == 1 then FieldsText(rows[0], d)
    else FieldsText(rows[0], d) + br + JoinedRows(rows[1..], br, d)
  }

  /** Line breaks of one character, or a carriage return and a newline. */
  predicate IsBreak(br: string) {
    br == "\n" || br == "\r" || br == "\r\n"
  }

  /** No row begins with a newline of its own. */
  lemma NoNewlineFirst(fields: seq<string>, d: char)
    requires GoodDelimiter(d) && fields != []
    ensures FieldsText(fields, d) != [] ==> FieldsText(fields, d)[0] != '\n'
  {
    if fields[0] != [] && !NeedsQuotes(fields[0], d) { assert fields[0][0] != '\n'; }
  }

  lemma JoinedFirst(rows: seq<seq<string>>, br: string, d: char)
    requires GoodDelimiter(d) && IsBreak(br) && rows != [] && forall i :: 0 <= i < |rows| ==> rows[i] != []
    ensures var t := JoinedRows(rows, br, d);
            && (br == "\r" && t != [] ==> t[0] != '\n')
            && (t == [] <==> rows == [[""]])
  {
    NoNewlineFirst(rows[0], d);
    EmptyText(rows[0], d);
    hide FieldsText;
  }

  /** Behind a line break the next row begins. */
  lemma BreakEnds(br: string, more: string, row: seq<string>, done: seq<seq<string>>, d: char)
    requires IsBreak(br) && (br == "\r" && more != [] ==> more[0] != '\n')
    ensures EndRow(br + more, row, done, d) == Run(more, Start, [], [], more != [], done + [row], d)
  {
    hide Run;
    var s := br + more;
    if br == "\r\n" {
      assert s[0] == '\r' && s[1] == '\n' && s[2..] == more;
    } else {
      assert s[1..] == more && (|s| > 1 ==> s[1] == more[0]);
    }
  }

  lemma {:induction false} JoinedRowsBack(rows: seq<seq<string>>, br: string, done: seq<seq<string>>, d: char)
    requires GoodDelimiter(d) && IsBreak(br) && rows != [] && forall i :: 0 <= i < |rows| ==> NulFreeRow(rows[i])
    requires rows != [[""]]
    ensures Run(JoinedRows(rows, br, d), Start, [], [], true, done, d)
            == if rows[|rows| - 1] == [""] then Error else Rows(done + rows)
    decreases |rows|
  {
    hide Run, FieldsText, EndRow;
    if |rows| == 1 {
      RowBack(rows[0], [], [], done, d);
      assert FieldsText(rows[0], d) + [] == FieldsText(rows[0], d);
      assert [] + rows[0] == rows[0] && done + [rows[0]] == done + rows;
      AtTheEnd(rows[0], done, d);
    } else {
      var more := JoinedRows(rows[1..], br, d);
      RowBack(rows[0], br + more, [], done, d);
      assert FieldsText(rows[0], d) + br + more == FieldsText(rows[0], d) + (br + more);
      assert [] + rows[0] == rows[0];
      assert rows[1..][|rows| - 2] == rows[|rows| - 1];
      JoinedFirst(rows[1..], br, d);
      BreakEnds(br, more, rows[0], done, d);
      if rows[1..] == [[""]] {
        NoRow(done + [rows[0]], d);
      } else {
        JoinedRowsBack(rows[1..], br, done + [rows[0]], d);
        assert done + [rows[0]] + rows[1..] == done + rows;
      }
    }
  }

  lemma AtTheEnd(row: seq<string>, done: seq<seq<string>>, d: char)
    ensures EndRow([], row, done, d) == Rows(done + [row])
  {
  }

  /** Written rows are read back whichever line breaks stand between them, under the same condition. */
  lemma ParseBreaks(rows: seq<seq<string>>, br: string, d: char)
    requires GoodDelimiter(d) && IsBreak(br) && rows != [] && forall i :: 0 <= i < |rows| ==> NulFreeRow(rows[i])
    ensures Parse(JoinedRows(rows, br, d), d) == Rows(rows) <==> rows[|rows| - 1] != [""]
    ensures Parse(JoinedRows(rows, br, d), d) == Parse(RowsText(rows, d), d)
  {
    hide Run, FieldsText;
    RowsTextEmpty(rows, d);
    JoinedFirst(rows, br, d);
    if rows != [[""]] {
      RowsBack(rows, [], d);
      JoinedRowsBack(rows, br, [], d);
      assert [] + rows == rows;
    }
  }

  // ----- the loops of the source -----

  /** `csv_append_escaped_field` */
  method AppendEscapedField(out: string, s: string, d: char) returns (longer: string)
    ensures longer == out + Escaped(s, d)
  {
    var needsQuotes := false;
    for i := 0 to |s|
      invariant needsQuotes <==> NeedsQuotes(s[..i], d)
    {
      QuotesNext(s, i, d);
      if s[i] == d || s[i] == '"' || s[i] == '\n' || s[i] == '\r' {
        needsQuotes := true;
        QuotesAll(s, i + 1, d);
        break;
      }
    }
    assert s[..|s|] == s;
    if !needsQuotes {
      return out + s;
    }
    longer := out + "\"";
    ghost var full := longer + Doubled(s);
    DoubledIs(s, 0);
    for i := 0 to |s|
      invariant longer + Doubled(s[i..]) == full
    {
      DoubledIs(s, i);
      Joined(longer, if s[i] == '"' then "\"\"" else [s[i]], Doubled(s[i + 1..]));
      if s[i] == '"' {
        longer := longer + "\"\"";
      } else {
        longer := longer + [s[i]];
      }
    }
    DoubledIs(s, |s|);
    assert longer + [] == longer;
    longer := longer + "\"";
    assert out + "\"" + Doubled(s) + "\"" == out + ("\"" + Doubled(s) + "\"");
  }

  lemma QuotesNext(s: string, i: nat, d: char)
    requires i < |s|
    ensures NeedsQuotes(s[..i + 1], d) <==>
              NeedsQuotes(s[..i], d) || s[i] == d || s[i] == '"' || s[i] == '\n' || s[i] == '\r'
  {
    var a, b := s[..i], s[..i + 1];
    assert b == a + [s[i]];
    if NeedsQuotes(a, d) {
      var k :| 0 <= k < |a| && (a[k] == d || a[k] == '"' || a[k] == '\n' || a[k] == '\r');
      assert b[k] == a[k];
    }
    assert b[i] == s[i];
  }

  lemma QuotesAll(s: string, n: nat, d: char)
    requires n <= |s| && NeedsQuotes(s[..n], d)
    ensures NeedsQuotes(s, d)
  {
    var k :| 0 <= k < n && (s[..n][k] == d || s[..n][k] == '"' || s[..n][k] == '\n' || s[..n][k] == '\r');
    assert s[k] == s[..n][k];
  }

  lemma DoubledIs(s: string, i: nat)
    requires i <= |s|
    ensures s[0..] == s
    ensures Doubled(s[i..]) == if i == |s| then [] else (if s[i] == '"' then "\"\"" else [s[i]]) + Doubled(s[i + 1..])
  {
    if i < |s| {
      assert s[i..][1..] == s[i + 1..];
    }
  }

  lemma Joined(a: string, b: string, c: string)
    ensures a + (b + c) == a + b + c
  {
  }

  /** The loop of `csv_stringify` over the cells of a row. */
  method StringifyRow(out: string, cells: seq<Cell>, d: char, print17: real -> string)
    returns (ok: bool, longer: string)
    ensures ok <==> Writable(Row(cells))
    ensures ok ==> longer == out + FieldsText(Texts(cells, print17), d)
  {
    hide Escaped, CellText;
    longer := out;
    ghost var texts := Texts(cells, print17);
    ghost var full := out + FieldsText(texts, d);
    assert texts[0..] == texts;
    for i := 0 to |cells|
      invariant forall j :: 0 <= j < i ==> !cells[j].Other?
      invariant longer + (if 0 < i < |cells| then [d] else []) + FieldsText(texts[i..], d) == full
    {
      FieldsNext(texts, i, d);
      if i > 0 {
        longer := longer + [d];
      }
      if cells[i].Other? {
        return false, longer;
      }
      CellAppended(longer, Escaped(texts[i], d), d, FieldsText(texts[i + 1..], d));
      longer := AppendEscapedField(longer, CellText(cells[i], print17), d);
    }
    ok := true;
    assert texts[|cells|..] == [] && longer + [] + [] == longer;
  }

  lemma FieldsNext(texts: seq<string>, i: nat, d: char)
    requires i < |texts|
    ensures FieldsText(texts[i..], d) ==
            Escaped(texts[i], d) + (if i + 1 < |texts| then [d] else []) + FieldsText(texts[i + 1..], d)
  {
    hide Escaped;
    assert texts[i..][1..] == texts[i + 1..];
    if i + 1 == |texts| {
      assert Escaped(texts[i], d) + [] + [] == Escaped(texts[i], d);
    }
  }

  lemma CellAppended(out: string, e: string, d: char, rest: string)
    ensures out + (e + [d] + rest) == out + e + [d] + rest
    ensures out + (e + [] + rest) == out + e + [] + rest
    ensures out + [] + (e + [d] + rest) == out + e + [d] + rest
    ensures out + [] + (e + [] + rest) == out + e + [] + rest
  {
  }

  /** `csv_stringify` */
  method Stringify(rows: seq<Row>, d: char, print17: real -> string) returns (ok: bool, out: string)
    ensures ok <==> forall i :: 0 <= i < |rows| ==> Writable(rows[i])
    ensures ok ==> out == RowsText(AllTexts(rows, print17), d)
  {
    hide FieldsText, CellText;
    out := [];
    ghost var valid := forall i :: 0 <= i < |rows| ==> Writable(rows[i]);
    for i := 0 to |rows|
      invariant forall j :: 0 <= j < i ==> Writable(rows[j])
      invariant valid ==>
                  out + (if 0 < i < |rows| then "\n" else []) + RowsText(AllTexts(rows, print17)[i..], d) == RowsText(AllTexts(rows, print17), d)
    {
      if valid {
        RowsNext(AllTexts(rows, print17), i, d);
      }
      if rows[i].NoRow? {
        return false, out;
      }
      if i > 0 {
        out := out + "\n";
      }
      ghost var before := out;
      var fine;
      fine, out := StringifyRow(out, rows[i].cells, d, print17);
      if !fine {
        return false, out;
      }
      if valid {
        ghost var texts := AllTexts(rows, print17);
        assert texts[i] == Texts(rows[i].cells, print17);
        RowAppended(before, FieldsText(texts[i], d), RowsText(texts[i + 1..], d));
      }
    }
    ok := true;
    assert AllTexts(rows, print17)[|rows|..] == [] && out + [] + [] == out;
  }

  lemma RowsNext(texts: seq<seq<string>>, i: nat, d: char)
    requires i < |texts|
    ensures RowsText(texts[i..], d) ==
            FieldsText(texts[i], d) + (if i + 1 < |texts| then "\n" else []) + RowsText(texts[i + 1..], d)
    ensures texts[0..] == texts
  {
    hide FieldsText;
    assert texts[i..][1..] == texts[i + 1..];
    if i + 1 == |texts| {
      assert FieldsText(texts[i], d) + [] + [] == FieldsText(texts[i], d);
    }
  }

  lemma RowAppended(out: string, e: string, rest: string)
    ensures out + (e + "\n" + rest) == out + e + "\n" + rest
    ensures out + (e + [] + rest) == out + e + [] + rest
    ensures out + [] + (e + "\n" + rest) == out + e + "\n" + rest
    ensures out + [] + (e + [] + rest) == out + e + [] + rest
  {
  }

  /** `csv_parse`: one loop over the characters, the state, the field and the row kept in variables. */
  method ParseRows(input: string, d: char) returns (r: Parsed)
    ensures r == Parse(input, d)
  {
    hide Run, EndRow;
    if |input| == 0 {
      return Rows([]);
    }
    var rows: seq<seq<string>>, row: seq<string>, open := [], [], true;
    var field, st := "", Start;
    var i := 0;
    assert input[0..] == input;
    while i <= |input|
      invariant 0 <= i <= |input| && Parse(input, d) == Run(input[i..], st, field, row, open, rows, d)
      decreases |input| - i
    {
      RunIs(input[i..], st, field, row, open, rows, d);
      assert i < |input| ==> input[i..][1..] == input[i + 1..];
      assert i + 1 < |input| ==> input[i..][1] == input[i + 1] && input[i..][2..] == input[i + 2..];
      var c := if i < |input| then input[i] else NUL;
      if st == Quoted {
        if c == NUL {
          return Error;
        }
        if c == '"' {
          if i + 1 < |input| && input[i + 1] == '"' {
            field := field + "\"";
            i := i + 1;
          } else {
            st := AfterQuote;
          }
        } else {
          field := field + [c];
        }
      } else if c == '"' && st == Start {
        st := Quoted;
      } else if c == '"' && st == Unquoted {
        return Error;
      } else if c == d {
        if !open {
          return Error;
        }
        if i == |input| {
          return Rows(rows);
        }
        row, field, st := row + [field], "", Start;
      } else if EndsRow(c) {
        if !open {
          return Error;
        }
        EndRowIs(input[i..], row + [field], rows, d);
        rows := rows + [row + [field]];
        row, field, open, st := [], "", false, Start;
        if c == '\r' && i + 1 < |input| && input[i + 1] == '\n' {
          i := i + 1;
        }
        if c == NUL {
          return Rows(rows);
        }
        if i + 1 < |input| {
          open := true;
        }
      } else if st == AfterQuote {
        return Error;
      } else {
        field := field + [c];
        st := Unquoted;
      }
      i := i + 1;
    }
    assert false;
  }

  lemma EndRowIs(s: string, row: seq<string>, rows: seq<seq<string>>, d: char)
    ensures EndRow(s, row, rows, d) ==
      var done := rows + [row];
      if s == [] || s[0] == NUL then Rows(done)
      else
        var rest := if s[0] == '\r' && |s| > 1 && s[1] == '\n' then s[2..] else s[1..];
        Run(rest, Start, [], [], rest != [], done, d)
  {
    hide Run;
  }

  /**
   * Parsing what `csv_stringify` wrote gives the texts of all cells, exactly when the last row is not one empty text.
   */
  lemma ParseStringify(rows: seq<Row>, d: char, print17: real -> string)
    requires GoodDelimiter(d) && rows != []
    requires forall i :: 0 <= i < |rows| ==>
               rows[i].Row? && Writable(rows[i]) && NulFreeRow(Texts(rows[i].cells, print17))
    ensures var texts := AllTexts(rows, print17);
            Parse(RowsText(texts, d), d) == Rows(texts) <==> texts[|texts| - 1] != [""]
    ensures var texts := AllTexts(rows, print17);
            forall i, j :: 0 <= i < |rows| && 0 <= j < |rows[i].cells| ==>
              |texts[i]| == |rows[i].cells| && IsTextOf(texts[i][j], rows[i].cells[j], print17)
  {
    ParseText(AllTexts(rows, print17), d);
  }

  /** A string stands for itself, the words for booleans, and nothing for nil. */
  predicate IsTextOf(text: string, c: Cell, print17: real -> string) {
    && (c.Str? ==> text == c.s)
    && (c.Num? ==> text == print17(c.n))
    && (c == Bool(true) ==> text == ['t', 'r', 'u', 'e'])
    && (c == Bool(false) ==> text == ['f', 'a', 'l', 's', 'e'])
    && (c.Nil? ==> text == [])
  }

  lemma {:induction false} WithEmptyRow(rows: seq<seq<string>>, d: char)
    requires rows != []
    ensures RowsText(rows + [[""]], d) == RowsText(rows, d) + "\n"
    decreases |rows|
  {
    hide FieldsText;
    var all := rows + [[""]];
    assert all[1..] == rows[1..] + [[""]] && all[0] == rows[0];
    EmptyText([""], d);
    if |rows| == 1 {
      assert RowsText(all[1..], d) == [];
      assert FieldsText(rows[0], d) + "\n" + [] == FieldsText(rows[0], d) + "\n";
    } else {
      WithEmptyRow(rows[1..], d);
      assert FieldsText(rows[0], d) + "\n" + (RowsText(rows[1..], d) + "\n") ==
             FieldsText(rows[0], d) + "\n" + RowsText(rows[1..], d) + "\n";
    }
  }

  /** A written text followed by a newline is rejected. */
  lemma TrailingNewline(rows: seq<seq<string>>, d: char)
    requires GoodDelimiter(d) && rows != [] && forall i :: 0 <= i < |rows| ==> NulFreeRow(rows[i])
    ensures Parse(RowsText(rows, d) + "\n", d) == Error
  {
    hide Run, FieldsText;
    var all := rows + [[""]];
    WithEmptyRow(rows, d);
    assert NulFreeRow([""]);
    RowsBack(all, [], d);
  }
}
