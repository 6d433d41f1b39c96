/**
 * JSON texts as the grammar has them, white space, fractions, exponents and escapes included, and what they decode to.
 */
module JsonTexts {
  import opened Json
  import opened JsonRoundTrip
  import opened TableArray

  // ----- texts -----

  /** One character of a string: itself, a short escape, or four hexadecimal digits. */
  datatype Piece = Itself(c: char) | Short(e: char) | Unicode(h: string)

  /** A text: what stands in it, with the white space around items and fields (section 2 of RFC 8259). */
  datatype Doc =
    | Null
    | Truth(b: bool)
    | Number(minus: bool, whole: string, fraction: string, exponent: string)
    | Chars(pieces: seq<Piece>)
    | NoItems(space: string)
    | List(items: Items)
    | NoFields(space: string)
    | Object(fields: Fields)

  datatype Items = One(before: string, doc: Doc, after: string) | More(before: string, doc: Doc, after: string, rest: Items)

  datatype Fields =
    | OneField(name: Name, doc: Doc, after: string)
    | MoreFields(name: Name, doc: Doc, after: string, rest: Fields)

  /** The key of a field, with white space before it and around the colon. */
  datatype Name = Name(before: string, key: seq<Piece>, behind: string, beforeValue: string)

  predicate Blank(s: string) {
    forall i :: 0 <= i < |s| ==> s[i] == ' ' || s[i] == '\t' || s[i] == '\n' || s[i] == '\r'
  }

  predicate AllDigits(s: string) {
    forall i :: 0 <= i < |s| ==> '0' <= s[i] <= '9'
  }

  predicate IsFraction(s: string) {
    s == [] || (s[0] == '.' && AllDigits(s[1..]))
  }

  predicate IsExponent(s: string) {
    || s == []
    || ((s[0] == 'e' || s[0] == 'E')
        && (AllDigits(s[1..]) || (|s| > 1 && (s[1] == '+' || s[1] == '-') && AllDigits(s[2..]))))
  }

  predicate GoodPiece(p: Piece) {
    match p
    case Itself(c) => c != '"' && c != '\\'
    case Short(e) => e in {'"', '\\', '/', 'b', 'f', 'n', 'r', 't'}
    case Unicode(h) => |h| == 4 && forall i :: 0 <= i < 4 ==> IsHex(h[i])
  }

  predicate GoodPieces(pieces: seq<Piece>) {
    forall i :: 0 <= i < |pieces| ==> GoodPiece(pieces[i])
  }

  predicate GoodName(n: Name) {
    Blank(n.before) && GoodPieces(n.key) && Blank(n.behind) && Blank(n.beforeValue)
  }

  predicate Good(d: Doc) {
    match d
    case Number(_, whole, fraction, exponent) =>
      whole != [] && AllDigits(whole) && IsFraction(fraction) && IsExponent(exponent)
    case Chars(pieces) => GoodPieces(pieces)
    case NoItems(space) => Blank(space)
    case List(items) => GoodItems(items)
    case NoFields(space) => Blank(space)
    case Object(fields) => GoodFields(fields)
    case _ => true
  }

  predicate GoodItems(x: Items) {
    Blank(x.before) && Good(x.doc) && Blank(x.after) && (x.More? ==> GoodItems(x.rest))
  }

  predicate GoodFields(x: Fields) {
    GoodName(x.name) && Good(x.doc) && Blank(x.after) && (x.MoreFields? ==> GoodFields(x.rest))
  }

  // ----- as written -----

  function PieceText(p: Piece): string {
    match p
    case Itself(c) => [c]
    case Short(e) => ['\\', e]
    case Unicode(h) => ['\\', 'u'] + h
  }

  function PiecesText(pieces: seq<Piece>): string {
    if pieces == [] then [] else PieceText(pieces[0]) + PiecesText(pieces[1..])
  }

  function Quoted(pieces: seq<Piece>): string {
    "\"" + PiecesText(pieces) + "\""
  }

  function DocText(d: Doc): string {
    match d
    case Null => "null"
    case Truth(b) => if b then "true" else "false"
    case Number(minus, whole, fraction, exponent) => (if minus then "-" else []) + whole + fraction + exponent
    case Chars(pieces) => Quoted(pieces)
    case NoItems(space) => "[" + space + "]"
    case List(items) => "[" + ItemsText(items) + "]"
    case NoFields(space) => "{" + space + "}"
    case Object(fields) => "{" + FieldsText(fields) + "}"
  }

  function ItemsText(x: Items): string {
    x.before + DocText(x.doc) + x.after + (if x.More? then "," + ItemsText(x.rest) else [])
  }

  function NameText(n: Name): string {
    n.before + Quoted(n.key) + n.behind + ":" + n.beforeValue
  }

  function FieldsText(x: Fields): string {
    NameText(x.name) + DocText(x.doc) + x.after + (if x.MoreFields? then "," + FieldsText(x.rest) else [])
  }

  // ----- as meant -----

  /** What an escape stands for (section 7 of RFC 8259); a code point is given in UTF-8. */
  function PieceValue(p: Piece): string
    requires GoodPiece(p)
  {
    match p
    case Itself(c) => [c]
    case Short(e) =>
      if e == 'b' then [8 as char] else if e == 'f' then [12 as char] else if e == 'n' then ['\n']
      else if e == 'r' then ['\r'] else if e == 't' then ['\t'] else [e]
    case Unicode(h) => Utf8(HexValue(h))
  }

  function PiecesValue(pieces: seq<Piece>): string
    requires GoodPieces(pieces)
  {
    if pieces == [] then [] else PieceValue(pieces[0]) + PiecesValue(pieces[1..])
  }

  /** Items are stored one behind the other, fields set one after the other; the C library reads the numbers. */
  function Meaning(d: Doc, lib: Lib): Value
    requires Good(d)
    decreases d
  {
    match d
    case Null => Nil
    case Truth(b) => Bool(b)
    case Number(_, _, _, _) => Num(lib.strtod(DocText(d)))
    case Chars(pieces) => Str(PiecesValue(pieces))
    case NoItems(_) => Table([], [])
    case List(items) => Table(Stored(items, ArrayPart([], 0), 1, lib).values, [])
    case NoFields(_) => Table([], [])
    case Object(fields) => Table([], SetFields(fields, [], lib))
  }

  function Stored(x: Items, a: ArrayPart<Value>, index: nat, lib: Lib): ArrayPart<Value>
    requires GoodItems(x) && index > |a.values|
    decreases x
  {
    var b := Store(a, index, Meaning(x.doc, lib), Nil);
    if x.More? then Stored(x.rest, b, index + 1, lib) else b
  }

  function SetFields(x: Fields, slots: seq<Slot>, lib: Lib): seq<Slot>
    requires GoodFields(x)
    decreases x
  {
    var put := Put(slots, PiecesValue(x.name.key), Meaning(x.doc, lib));
    if x.MoreFields? then SetFields(x.rest, put, lib) else put
  }

  /**
   * The bytes of a code point below 2^16 (section 3 of RFC 3629): their leading bits tell how many there are, the other
   * bits in order make up the number.
   */
  lemma Utf8Bytes(cp: nat)
    requires cp < 0x1_0000
    ensures var u := Utf8(cp);
            && |u| == (if cp < 0x80 then 1 else if cp < 0x800 then 2 else 3)
            && (|u| == 1 ==> u[0] as int == cp)
            && (|u| == 2 ==>
                 && 0xC0 <= u[0] as int < 0xE0 && 0x80 <= u[1] as int < 0xC0
                 && cp == (u[0] as int - 0xC0) * 0x40 + (u[1] as int - 0x80))
            && (|u| == 3 ==>
                 && 0xE0 <= u[0] as int < 0xF0 && 0x80 <= u[1] as int < 0xC0 && 0x80 <= u[2] as int < 0xC0
                 && cp == (u[0] as int - 0xE0) * 0x1000 + (u[1] as int - 0x80) * 0x40 + (u[2] as int - 0x80))
  {
    if cp < 0x80 {
      assert cp % 256 == cp;
    } else if cp < 0x800 {
      TwoParts(cp);
    } else {
      ThreeParts(cp);
    }
  }

  lemma TwoParts(cp: nat)
    requires cp < 0x800
    ensures cp / 64 % 32 == cp / 64 < 32 && cp == cp / 64 * 0x40 + cp % 64
  {
  }

  lemma ThreeParts(cp: nat)
    requires cp < 0x1_0000
    ensures cp / 4096 % 16 == cp / 4096 < 16
    ensures cp == cp / 4096 * 0x1000 + cp / 64 % 64 * 0x40 + cp % 64
  {
    var q := cp / 64;
    assert cp == q * 64 + cp % 64 && q == q / 64 * 64 + q % 64 && q / 64 == cp / 4096;
  }

  // ----- white space -----

  lemma {:induction false} SkipsBlank(space: string, s: string)
    requires Blank(space)
    ensures Skip(space + s) == Skip(s)
    decreases |space|
  {
    if space == [] {
      assert space + s == s;
    } else {
      assert (space + s)[1..] == space[1..] + s;
      SkipsBlank(space[1..], s);
    }
  }

  lemma Unspaced(s: string)
    requires s != [] && !IsSpace(s[0])
    ensures Skip(s) == s
  {
  }

  lemma SameValue(s: string, t: string, lib: Lib)
    requires Skip(s) == Skip(t)
    ensures ParseValue(s, lib) == ParseValue(t, lib)
  {
    hide ParseItems, ParseFields, ParseString, Json.NumberLength, Skip;
  }

  /** White space in front of a value, or of a character that is expected. */
  lemma BlankBefore(space: string, s: string, c: char, lib: Lib)
    requires Blank(space)
    ensures ParseValue(space + s, lib) == ParseValue(s, lib)
    ensures Expect(space + s, c) == Expect(s, c)
    ensures ParseString(space + s, lib) == ParseString(s, lib)
  {
    SkipsBlank(space, s);
    SameValue(space + s, s, lib);
  }

  // ----- strings -----

  lemma PieceBack(p: Piece, rest: string, lib: Lib)
    requires Reads(lib) && GoodPiece(p)
    ensures ParseChars(PieceText(p) + rest, lib) == Prefixed(PieceValue(p), ParseChars(rest, lib))
  {
    match p
    case Itself(c) => ParsePlainChar(c, rest, lib);
    case Short(e) => ParseEscaped(e, rest, lib);
    case Unicode(h) => ParseHexEscape(h, rest, lib);
  }

  lemma {:induction false} PiecesBack(pieces: seq<Piece>, rest: string, lib: Lib)
    requires Reads(lib) && GoodPieces(pieces)
    ensures ParseChars(PiecesText(pieces) + "\"" + rest, lib) == Ok(PiecesValue(pieces), "\"" + rest)
    decreases |pieces|
  {
    hide ParseChars, PieceText, PieceValue, GoodPiece;
    if pieces == [] {
      QuoteEnds(rest, lib);
      assert [] + "\"" + rest == "\"" + rest;
    } else {
      PiecesBack(pieces[1..], rest, lib);
      PieceBack(pieces[0], PiecesText(pieces[1..]) + "\"" + rest, lib);
      Assoc4(PieceText(pieces[0]), PiecesText(pieces[1..]), "\"", rest);
    }
  }

  lemma Assoc4(a: string, b: string, c: string, d: string)
    ensures a + b + c + d == a + (b + c + d)
  {
  }

  lemma QuoteEnds(rest: string, lib: Lib)
    ensures ParseChars("\"" + rest, lib) == Ok([], "\"" + rest)
  {
  }

  lemma QuotedBack(pieces: seq<Piece>, rest: string, lib: Lib)
    requires Reads(lib) && GoodPieces(pieces)
    ensures ParseString(Quoted(pieces) + rest, lib) == Ok(PiecesValue(pieces), rest)
  {
    hide ParseChars, PiecesText, GoodPieces;
    var s, t := Quoted(pieces) + rest, PiecesText(pieces) + "\"" + rest;
    assert s == "\"" + t && s[1..] == t;
    PiecesBack(pieces, rest, lib);
    assert ("\"" + rest)[1..] == rest;
  }

  // ----- numbers -----

  /** What may follow a value: the end, white space, a comma or a closing bracket. */
  predicate Stops(post: string) {
    post == [] || post[0] in {' ', '\t', '\n', '\r', ',', ']', '}'}
  }

  lemma FractionIs(fraction: string, rest: string)
    requires IsFraction(fraction) && (rest == [] || (!IsDigit(rest[0]) && rest[0] != '.'))
    ensures FractionLength(fraction + rest) == |fraction|
  {
    if fraction == [] {
      assert fraction + rest == rest;
    } else {
      assert (fraction + rest)[1..] == fraction[1..] + rest;
      DigitRunIs(fraction[1..], rest);
    }
  }

  lemma ExponentIs(exponent: string, post: string)
    requires IsExponent(exponent) && Stops(post)
    ensures ExponentLength(exponent + post) == |exponent|
  {
    StopsNumber(post);
    if exponent == [] {
      assert exponent + post == post;
    } else {
      var d := if |exponent| > 1 && (exponent[1] == '+' || exponent[1] == '-') then 2 else 1;
      ExponentDigits(exponent, d);
      DigitRunIs(exponent[d..], post);
      hide IsExponent, Stops, DigitRun;
      ExponentSplit(exponent, post, d);
    }
  }

  lemma StopsNumber(post: string)
    requires Stops(post)
    ensures post == [] || (!IsDigit(post[0]) && post[0] !in {'e', 'E', '+', '-', '.'})
  {
  }

  lemma ExponentDigits(exponent: string, d: nat)
    requires IsExponent(exponent) && exponent != []
    requires d == if |exponent| > 1 && (exponent[1] == '+' || exponent[1] == '-') then 2 else 1
    ensures exponent[0] == 'e' || exponent[0] == 'E'
    ensures d <= |exponent| && forall i :: 0 <= i < |exponent[d..]| ==> IsDigit(exponent[d..][i])
  {
    assert |exponent| > 1 ==> exponent[1..][0] == exponent[1];
  }

  lemma ExponentSplit(exponent: string, post: string, d: nat)
    requires exponent != [] && (exponent[0] == 'e' || exponent[0] == 'E')
    requires d == if |exponent| > 1 && (exponent[1] == '+' || exponent[1] == '-') then 2 else 1
    requires post == [] || post[0] !in {'e', 'E', '+', '-', '.'}
    requires DigitRun(exponent[d..] + post) == |exponent| - d
    ensures ExponentLength(exponent + post) == |exponent|
  {
    hide DigitRun;
    var s := exponent + post;
    assert s[d..] == exponent[d..] + post;
    if |exponent| > 1 { assert s[1] == exponent[1]; } else if |s| > 1 { assert s[1] == post[0]; }
  }

  lemma NumberIs(minus: bool, whole: string, fraction: string, exponent: string, post: string)
    requires whole != [] && AllDigits(whole) && IsFraction(fraction) && IsExponent(exponent) && Stops(post)
    ensures var t := (if minus then "-" else []) + whole + fraction + exponent;
            t != [] && (t[0] == '-' || IsDigit(t[0])) && Json.NumberLength(t + post) == |t|
  {
    var sign: string := if minus then "-" else [];
    var tail := exponent + post;
    TailStarts(exponent, post);
    if fraction == [] { assert fraction + tail == tail; } else { assert (fraction + tail)[0] == '.'; }
    DigitRunIs(whole, fraction + tail);
    FractionIs(fraction, tail);
    ExponentIs(exponent, post);
    assert whole[0] != '-';
    hide FractionLength, ExponentLength, DigitRun, AllDigits, IsFraction, IsExponent, Stops;
    PartsLength(sign, whole, fraction, exponent, post);
  }

  lemma PartsLength(sign: string, whole: string, fraction: string, exponent: string, post: string)
    requires (sign == "-" || sign == []) && whole != [] && whole[0] != '-'
    requires DigitRun(whole + (fraction + (exponent + post))) == |whole|
    requires FractionLength(fraction + (exponent + post)) == |fraction| && ExponentLength(exponent + post) == |exponent|
    ensures var t := sign + whole + fraction + exponent;
            t != [] && t[0] == (if sign == "-" then '-' else whole[0]) && Json.NumberLength(t + post) == |t|
  {
    hide *;
    SignIs(sign, whole, fraction + (exponent + post));
    CutAt(sign, whole + (fraction + (exponent + post)));
    CutAt(sign + whole, fraction + (exponent + post));
    CutAt(sign + whole + fraction, exponent + post);
    Regrouped(sign, whole, fraction, exponent, post);
    LengthAdds(sign + whole + fraction + exponent + post, |sign|, |whole|, |fraction|, |exponent|);
    assert (sign + whole + fraction + exponent)[0] == if sign == "-" then '-' else whole[0];
  }

  lemma SignIs(sign: string, whole: string, rest: string)
    requires (sign == "-" || sign == []) && whole != [] && whole[0] != '-'
    ensures SignLength(sign + (whole + rest)) == |sign|
  {
    if sign == [] { assert sign + (whole + rest) == whole + rest; }
  }

  lemma Regrouped(a: string, b: string, c: string, d: string, e: string)
    ensures a + b + c + d + e == a + (b + (c + (d + e)))
    ensures (a + b) + (c + (d + e)) == a + (b + (c + (d + e)))
    ensures (a + b + c) + (d + e) == a + (b + (c + (d + e)))
  {
  }

  lemma LengthAdds(s: string, a: nat, m: nat, f: nat, e: nat)
    requires a + m + f <= |s| && SignLength(s) == a && DigitRun(s[a..]) == m
    requires FractionLength(s[a + m..]) == f && ExponentLength(s[a + m + f..]) == e
    ensures Json.NumberLength(s) == a + m + f + e
  {
    hide SignLength, DigitRun, FractionLength, ExponentLength;
  }

  lemma CutAt(a: string, b: string)
    ensures (a + b)[|a|..] == b
  {
  }

  lemma TailStarts(exponent: string, post: string)
    requires IsExponent(exponent) && Stops(post)
    ensures exponent + post == [] || (!IsDigit((exponent + post)[0]) && (exponent + post)[0] != '.')
  {
    if exponent == [] { assert exponent + post == post; }
  }

  lemma NumberDecoded(t: string, post: string, lib: Lib)
    requires t != [] && (t[0] == '-' || IsDigit(t[0])) && Json.NumberLength(t + post) == |t|
    ensures ParseValue(t + post, lib) == Ok(Num(lib.strtod(t)), post)
  {
    hide Json.NumberLength;
    ParseNumberIs(t + post, lib);
    assert (t + post)[..|t|] == t && (t + post)[|t|..] == post;
  }

  // ----- values -----

  /** A text begins with neither white space nor a closing bracket. */
  lemma DocStarts(d: Doc)
    requires Good(d)
    ensures var t := DocText(d); t != [] && !IsSpace(t[0]) && t[0] != ']' && t[0] != '}'
  {
    hide ItemsText, FieldsText, PiecesText;
    if d.Number? {
      var t := DocText(d);
      assert t[0] == if d.minus then '-' else d.whole[0];
    }
  }

  lemma StopsAfter(after: string, post: string)
    requires Blank(after) && Stops(post)
    ensures Stops(after + post)
  {
    if after == [] { assert after + post == post; }
  }

  /** Every text of the grammar is read as what it means, whatever follows it. */
  lemma {:induction false} DocBack(d: Doc, post: string, lib: Lib)
    requires Reads(lib) && Good(d) && Stops(post)
    ensures ParseValue(DocText(d) + post, lib) == Ok(Meaning(d, lib), post)
    decreases d, 1
  {
    hide *;
    match d
    case Null => WordsBack(post, lib);
    case Truth(b) => WordsBack(post, lib);
    case Number(minus, whole, fraction, exponent) =>
      GoodNumber(d, lib);
      NumberIs(minus, whole, fraction, exponent, post);
      NumberDecoded(DocText(d), post, lib);
    case Chars(pieces) =>
      GoodChars(d, lib);
      QuotedBack(pieces, post, lib);
      StringDecoded(pieces, post, lib);
    case NoItems(space) =>
      GoodEmpty(d, lib);
      EmptyBack(space, post, lib);
    case NoFields(space) =>
      GoodEmpty(d, lib);
      EmptyBack(space, post, lib);
    case List(items) =>
      GoodList(d, lib);
      ItemsRead(items, ArrayPart([], 0), 1, post, lib);
      ListDecoded(items, post, lib);
    case Object(fields) =>
      GoodObject(d, lib);
      FieldsRead(fields, [], post, lib);
      ObjectDecoded(fields, post, lib);
  }

  lemma WordsBack(post: string, lib: Lib)
    ensures Good(Null) && DocText(Null) == "null" && Meaning(Null, lib) == Nil
    ensures forall b ::
              Good(Truth(b)) && DocText(Truth(b)) == (if b then "true" else "false") && Meaning(Truth(b), lib) == Bool(b)
    ensures ParseValue("null" + post, lib) == Ok(Nil, post)
    ensures ParseValue("true" + post, lib) == Ok(Bool(true), post)
            && ParseValue("false" + post, lib) == Ok(Bool(false), post)
  {
    hide ParseValue;
    WordStarts("null", post);
    WordStarts("true", post);
    WordStarts("false", post);
    WordRead("null" + post, lib);
    WordRead("true" + post, lib);
    WordRead("false" + post, lib);
  }

  lemma WordStarts(w: string, post: string)
    requires w == "null" || w == "true" || w == "false"
    ensures var s := w + post; w <= s && s[|w|..] == post && s[0] == w[0] && Skip(s) == s
  {
  }

  lemma WordRead(s: string, lib: Lib)
    requires s != [] && Skip(s) == s
    ensures "null" <= s ==> ParseValue(s, lib) == Ok(Nil, s[4..])
    ensures "true" <= s ==> ParseValue(s, lib) == Ok(Bool(true), s[4..])
    ensures "false" <= s ==> ParseValue(s, lib) == Ok(Bool(false), s[5..])
  {
    hide ParseItems, ParseFields, ParseString, Skip, Json.NumberLength;
    assert "null" <= s ==> s[0] == "null"[0];
    assert "true" <= s ==> s[0] == "true"[0];
    assert "false" <= s ==> s[0] == "false"[0];
  }

  lemma GoodNumber(d: Doc, lib: Lib)
    requires d.Number? && Good(d)
    ensures d.whole != [] && AllDigits(d.whole) && IsFraction(d.fraction) && IsExponent(d.exponent)
    ensures DocText(d) == (if d.minus then "-" else []) + d.whole + d.fraction + d.exponent
    ensures Meaning(d, lib) == Num(lib.strtod(DocText(d)))
  {
  }

  lemma GoodChars(d: Doc, lib: Lib)
    requires d.Chars? && Good(d)
    ensures GoodPieces(d.pieces) && DocText(d) == Quoted(d.pieces) && Meaning(d, lib) == Str(PiecesValue(d.pieces))
  {
  }

  lemma GoodEmpty(d: Doc, lib: Lib)
    requires (d.NoItems? || d.NoFields?) && Good(d)
    ensures Blank(d.space) && Meaning(d, lib) == Table([], [])
    ensures DocText(d) == if d.NoItems? then "[" + d.space + "]" else "{" + d.space + "}"
  {
  }

  lemma GoodList(d: Doc, lib: Lib)
    requires d.List? && Good(d)
    ensures GoodItems(d.items) && DocText(d) == "[" + ItemsText(d.items) + "]"
    ensures Meaning(d, lib) == Table(Stored(d.items, ArrayPart([], 0), 1, lib).values, [])
  {
  }

  lemma GoodObject(d: Doc, lib: Lib)
    requires d.Object? && Good(d)
    ensures GoodFields(d.fields) && DocText(d) == "{" + FieldsText(d.fields) + "}"
    ensures Meaning(d, lib) == Table([], SetFields(d.fields, [], lib))
  {
  }

  lemma StringDecoded(pieces: seq<Piece>, post: string, lib: Lib)
    requires ParseString(Quoted(pieces) + post, lib).Ok?
    ensures var r := ParseString(Quoted(pieces) + post, lib);
            ParseValue(Quoted(pieces) + post, lib) == Ok(Str(r.value), r.rest)
  {
    hide ParseItems, ParseFields, ParseString, PiecesText;
    var t := Quoted(pieces) + post;
    assert t[0] == '"' && Skip(t) == t;
  }

  lemma EmptyBack(space: string, post: string, lib: Lib)
    requires Blank(space)
    ensures ParseValue("[" + space + "]" + post, lib) == Ok(Table([], []), post)
    ensures ParseValue("{" + space + "}" + post, lib) == Ok(Table([], []), post)
  {
    hide ParseItems, ParseFields, ParseString;
    var a, b := "[" + space + "]" + post, "{" + space + "}" + post;
    assert a[1..] == space + ("]" + post) && b[1..] == space + ("}" + post);
    SkipsBlank(space, "]" + post);
    SkipsBlank(space, "}" + post);
    assert ("]" + post)[1..] == post && ("}" + post)[1..] == post;
    assert Skip(a) == a && Skip(b) == b;
  }

  // ----- arrays -----

  lemma ItemParts(x: Items, index: nat, a: ArrayPart<Value>, lib: Lib)
    requires GoodItems(x) && index > |a.values|
    ensures Blank(x.before) && Good(x.doc) && Blank(x.after) && (x.More? ==> GoodItems(x.rest) && x.rest < x)
    ensures ItemsText(x) == x.before + DocText(x.doc) + x.after + (if x.More? then "," + ItemsText(x.rest) else [])
    ensures var b := Store(a, index, Meaning(x.doc, lib), Nil);
            && |b.values| < index + 1
            && Stored(x, a, index, lib) == if x.More? then Stored(x.rest, b, index + 1, lib) else b
  {
    StoreFits(a, index, Meaning(x.doc, lib));
    hide Meaning, DocText, Store;
  }

  lemma StoreFits(a: ArrayPart<Value>, index: nat, v: Value)
    requires index > |a.values|
    ensures |Store(a, index, v, Nil).values| <= index
  {
  }

  /** What follows the first item: the next ones, or the closing bracket. */
  ghost function ItemsBehind(x: Items, post: string): string {
    if x.More? then "," + (ItemsText(x.rest) + "]" + post) else "]" + post
  }

  lemma ItemsSplit(x: Items, post: string)
    ensures ItemsText(x) + "]" + post == x.before + (DocText(x.doc) + (x.after + ItemsBehind(x, post)))
    ensures Stops(ItemsBehind(x, post)) && Skip(ItemsBehind(x, post)) == ItemsBehind(x, post)
    ensures Expect(ItemsBehind(x, post), ',') == if x.More? then Ok((), ItemsText(x.rest) + "]" + post) else Error
  {
    var a, b, c := x.before, DocText(x.doc), x.after;
    ItemsTextIs(x);
    hide ItemsText, DocText;
    if x.More? {
      Bracketed(a, b, c, "," + ItemsText(x.rest), "]" + post);
      assert ItemsBehind(x, post) == "," + ItemsText(x.rest) + ("]" + post);
      assert ItemsBehind(x, post)[1..] == ItemsText(x.rest) + "]" + post;
    } else {
      Bracketed(a, b, c, [], "]" + post);
      assert ItemsBehind(x, post) == [] + ("]" + post);
    }
    assert ItemsText(x) + "]" + post == ItemsText(x) + ("]" + post);
  }

  lemma ItemsTextIs(x: Items)
    ensures ItemsText(x) == x.before + DocText(x.doc) + x.after + (if x.More? then "," + ItemsText(x.rest) else [])
  {
    hide DocText;
  }

  lemma {:induction false} ItemsRead(x: Items, a: ArrayPart<Value>, index: nat, post: string, lib: Lib)
    requires Reads(lib) && GoodItems(x) && index > |a.values|
    ensures ParseItems(ItemsText(x) + "]" + post, a, index, lib) == Ok(Stored(x, a, index, lib), "]" + post)
    decreases x
  {
    hide *;
    var s := ItemsText(x) + "]" + post;
    var behind := ItemsBehind(x, post);
    ItemParts(x, index, a, lib);
    ItemsSplit(x, post);
    StopsAfter(x.after, behind);
    DocBack(x.doc, x.after + behind, lib);
    BlankBefore(x.before, DocText(x.doc) + (x.after + behind), ',', lib);
    BlankBefore(x.after, behind, ',', lib);
    SkipsBlank(x.after, behind);
    ParseItemsIs(s, a, index, lib);
    if x.More? {
      ItemsRead(x.rest, Store(a, index, Meaning(x.doc, lib), Nil), index + 1, post, lib);
    } else {
      BehindLast(x, post);
    }
  }

  lemma BehindLast(x: Items, post: string)
    requires !x.More?
    ensures ItemsBehind(x, post) == "]" + post
  {
  }

  lemma ListDecoded(x: Items, post: string, lib: Lib)
    requires GoodItems(x)
    requires ParseItems(ItemsText(x) + "]" + post, ArrayPart([], 0), 1, lib) ==
             Ok(Stored(x, ArrayPart([], 0), 1, lib), "]" + post)
    ensures ParseValue("[" + ItemsText(x) + "]" + post, lib) ==
            Ok(Table(Stored(x, ArrayPart([], 0), 1, lib).values, []), post)
  {
    var s := ItemsText(x) + "]" + post;
    var u := DocText(x.doc) + (x.after + ItemsBehind(x, post));
    ItemsSplit(x, post);
    DocStarts(x.doc);
    hide *;
    assert "[" + ItemsText(x) + "]" + post == "[" + s;
    BlankBefore(x.before, u, ',', lib);
    SkipsBlank(x.before, u);
    Unspaced(u);
    SameItems(s, u, lib);
    ClosesWith(']', post);
    ArrayIs(s, u, lib);
  }

  lemma SameItems(s: string, u: string, lib: Lib)
    requires ParseValue(s, lib) == ParseValue(u, lib)
    ensures ParseItems(s, ArrayPart([], 0), 1, lib) == ParseItems(u, ArrayPart([], 0), 1, lib)
  {
    hide ParseValue;
  }

  lemma ArrayIs(s: string, u: string, lib: Lib)
    requires Skip(s) == u && u != [] && u[0] != ']'
    requires var items := ParseItems(u, ArrayPart([], 0), 1, lib);
             items.Ok? && Expect(items.rest, ']').Ok?
    ensures var items := ParseItems(u, ArrayPart([], 0), 1, lib);
            ParseValue("[" + s, lib) == Ok(Table(items.value.values, []), Expect(items.rest, ']').rest)
  {
    hide ParseItems, Expect;
    var t := "[" + s;
    assert t[1..] == s;
    assert Skip(t) == t;
  }

  // ----- objects -----

  lemma FieldParts(x: Fields, slots: seq<Slot>, lib: Lib)
    requires GoodFields(x)
    ensures GoodName(x.name) && Good(x.doc) && Blank(x.after) && (x.MoreFields? ==> GoodFields(x.rest) && x.rest < x)
    ensures GoodPieces(x.name.key)
    ensures var put := Put(slots, PiecesValue(x.name.key), Meaning(x.doc, lib));
            SetFields(x, slots, lib) == if x.MoreFields? then SetFields(x.rest, put, lib) else put
  {
    hide Meaning, PiecesValue, Put;
  }

  ghost function FieldsBehind(x: Fields, post: string): string {
    if x.MoreFields? then "," + (FieldsText(x.rest) + "}" + post) else "}" + post
  }

  lemma FieldsSplit(x: Fields, post: string)
    ensures FieldsText(x) + "}" + post == NameText(x.name) + (DocText(x.doc) + (x.after + FieldsBehind(x, post)))
    ensures Stops(FieldsBehind(x, post)) && Skip(FieldsBehind(x, post)) == FieldsBehind(x, post)
    ensures Expect(FieldsBehind(x, post), ',') == if x.MoreFields? then Ok((), FieldsText(x.rest) + "}" + post)
            else Error
  {
    var a, b, c := NameText(x.name), DocText(x.doc), x.after;
    FieldsTextIs(x);
    hide FieldsText, DocText, NameText;
    if x.MoreFields? {
      Bracketed(a, b, c, "," + FieldsText(x.rest), "}" + post);
      assert FieldsBehind(x, post) == "," + FieldsText(x.rest) + ("}" + post);
      assert FieldsBehind(x, post)[1..] == FieldsText(x.rest) + "}" + post;
    } else {
      Bracketed(a, b, c, [], "}" + post);
      assert FieldsBehind(x, post) == [] + ("}" + post);
    }
    assert FieldsText(x) + "}" + post == FieldsText(x) + ("}" + post);
  }

  lemma FieldsTextIs(x: Fields)
    ensures FieldsText(x) ==
            NameText(x.name) + DocText(x.doc) + x.after + (if x.MoreFields? then "," + FieldsText(x.rest) else [])
  {
    hide NameText, DocText;
  }

  lemma Bracketed(a: string, b: string, c: string, d: string, e: string)
    ensures a + b + c + d + e == a + (b + (c + (d + e)))
  {
  }

  /** The key and the colon, and the value comes next. */
  lemma NameRead(n: Name, rest: string, lib: Lib)
    requires Reads(lib) && GoodName(n)
    ensures var key := ParseString(NameText(n) + rest, lib);
            && key.Ok? && GoodPieces(n.key) && key.value == PiecesValue(n.key)
            && Expect(key.rest, ':') == Ok((), n.beforeValue + rest)
    ensures NameText(n) + rest == n.before + (Quoted(n.key) + (n.behind + (":" + (n.beforeValue + rest))))
  {
    var key, tail := Quoted(n.key), ":" + (n.beforeValue + rest);
    assert NameText(n) + rest == n.before + (key + (n.behind + tail));
    assert Blank(n.before) && GoodPieces(n.key) && Blank(n.behind);
    hide *;
    BlankBefore(n.before, key + (n.behind + tail), ':', lib);
    QuotedBack(n.key, n.behind + tail, lib);
    BlankBefore(n.behind, tail, ':', lib);
    ColonBack(n.beforeValue + rest);
  }

  lemma {:induction false} FieldsRead(x: Fields, slots: seq<Slot>, post: string, lib: Lib)
    requires Reads(lib) && GoodFields(x)
    ensures ParseFields(FieldsText(x) + "}" + post, slots, lib) == Ok(SetFields(x, slots, lib), "}" + post)
    decreases x
  {
    hide *;
    var s := FieldsText(x) + "}" + post;
    var behind := FieldsBehind(x, post);
    var u := DocText(x.doc) + (x.after + behind);
    FieldParts(x, slots, lib);
    FieldsSplit(x, post);
    StopsAfter(x.after, behind);
    DocBack(x.doc, x.after + behind, lib);
    NameRead(x.name, u, lib);
    NameBlank(x.name);
    BlankBefore(x.name.beforeValue, u, ',', lib);
    BlankBefore(x.after, behind, ',', lib);
    SkipsBlank(x.after, behind);
    ParseFieldsIs(s, slots, lib);
    if x.MoreFields? {
      FieldsRead(x.rest, Put(slots, PiecesValue(x.name.key), Meaning(x.doc, lib)), post, lib);
    } else {
      BehindLastField(x, post);
    }
  }

  lemma NameBlank(n: Name)
    requires GoodName(n)
    ensures Blank(n.before) && Blank(n.beforeValue)
  {
  }

  lemma BehindLastField(x: Fields, post: string)
    requires !x.MoreFields?
    ensures FieldsBehind(x, post) == "}" + post
  {
  }

  lemma ObjectDecoded(x: Fields, post: string, lib: Lib)
    requires Reads(lib) && GoodFields(x)
    requires ParseFields(FieldsText(x) + "}" + post, [], lib) == Ok(SetFields(x, [], lib), "}" + post)
    ensures ParseValue("{" + FieldsText(x) + "}" + post, lib) == Ok(Table([], SetFields(x, [], lib)), post)
  {
    hide *;
    var s := FieldsText(x) + "}" + post;
    var v := DocText(x.doc) + (x.after + FieldsBehind(x, post));
    var u := Quoted(x.name.key) + (x.name.behind + (":" + (x.name.beforeValue + v)));
    FieldParts(x, [], lib);
    FieldsSplit(x, post);
    NameBlank(x.name);
    NameRead(x.name, v, lib);
    assert "{" + FieldsText(x) + "}" + post == "{" + s;
    QuotedFirst(x.name.key, x.name.behind + (":" + (x.name.beforeValue + v)));
    BlankBefore(x.name.before, u, ',', lib);
    SkipsBlank(x.name.before, u);
    SameFields(s, u, lib);
    ClosesWith('}', post);
    ObjectIs(s, u, lib);
  }

  lemma QuotedFirst(pieces: seq<Piece>, rest: string)
    ensures var u := Quoted(pieces) + rest; u != [] && u[0] == '"' && Skip(u) == u
  {
    hide PiecesText;
  }

  lemma SameFields(s: string, u: string, lib: Lib)
    requires ParseString(s, lib) == ParseString(u, lib)
    ensures ParseFields(s, [], lib) == ParseFields(u, [], lib)
  {
    hide ParseValue, ParseString;
  }

  lemma ObjectIs(s: string, u: string, lib: Lib)
    requires Skip(s) == u && u != [] && u[0] != '}'
    requires var fields := ParseFields(u, [], lib);
             fields.Ok? && Expect(fields.rest, '}').Ok?
    ensures var fields := ParseFields(u, [], lib);
            ParseValue("{" + s, lib) == Ok(Table([], fields.value), Expect(fields.rest, '}').rest)
  {
    hide ParseFields, Expect;
    var t := "{" + s;
    assert t[1..] == s;
    assert Skip(t) == t;
  }

  // ----- whole texts -----

  /** Decoding any text of the grammar, white space around it included, succeeds with what it means. */
  lemma TextDecoded(before: string, d: Doc, after: string, lib: Lib)
    requires Reads(lib) && Blank(before) && Good(d) && Blank(after)
    ensures Decode(before + DocText(d) + after, lib) == Ok(Meaning(d, lib), [])
  {
    hide *;
    var t := DocText(d) + after;
    assert before + DocText(d) + after == before + t;
    BlankBefore(before, t, ',', lib);
    AtEnd(after);
    DocBack(d, after, lib);
    DecodeEnds(before + t, lib);
  }

  lemma AtEnd(after: string)
    requires Blank(after)
    ensures Stops(after) && Skip(after) == []
  {
    SkipsBlank(after, []);
    assert after + [] == after;
  }

  lemma DecodeEnds(s: string, lib: Lib)
    requires ParseValue(s, lib).Ok? && Skip(ParseValue(s, lib).rest) == []
    ensures Decode(s, lib) == Ok(ParseValue(s, lib).value, [])
  {
    hide ParseValue, Skip;
  }

  // ----- tables with an array part and keys -----

  /** The items up to the first nil under their indices, behind the keyed slots. */
  function AsObject(v: Value): Value
    requires v.Table?
  {
    var n := FirstNil(v.array_, Nil);
    Table([], v.slots + seq(n, i requires 0 <= i < n => Slot(Decimal(i + 1), v.array_[i])))
  }

  lemma {:induction false} DigitsUnescaped(s: string)
    requires AllDigits(s)
    ensures EncodeChars(s) == s
    decreases |s|
  {
    if s != [] {
      DigitsUnescaped(s[1..]);
      assert EncodeChar(s[0]) == [s[0]] && [s[0]] + s[1..] == s;
    }
  }

  lemma IndexKey(n: nat)
    ensures EncodeString(Decimal(n)) == "\"" + Decimal(n) + "\""
  {
    DigitsBack(n);
    DigitsUnescaped(Decimal(n));
  }

  lemma {:induction false} SlotsSame(v: Value, w: Value, n: nat, depth: nat, lib: Lib)
    requires v.Table? && w.Table? && n <= |v.slots| <= |w.slots| && w.slots[..|v.slots|] == v.slots
    ensures EncodeSlots(w, n, depth, lib) == EncodeSlots(v, n, depth, lib)
    decreases n
  {
    hide Encode, EncodeString;
    if n > 0 {
      SlotsSame(v, w, n - 1, depth, lib);
      assert w.slots[n - 1] == w.slots[..|v.slots|][n - 1];
    }
  }

  lemma SlotAdded(w: Value, m: nat, depth: nat, lib: Lib)
    requires w.Table? && m < |w.slots| && !w.slots[m].value.Nil?
    ensures var before := EncodeSlots(w, m, depth, lib);
            EncodeSlots(w, m + 1, depth, lib)
            == before + (if before != [] then "," else []) + EncodeString(w.slots[m].key) + ":"
               + Encode(w.slots[m].value, depth + 1, lib)
  {
    hide Encode, EncodeString;
  }

  lemma IndexAdded(v: Value, n: nat, first: bool, depth: nat, lib: Lib)
    requires v.Table? && n < |v.array_|
    ensures EncodeIndexed(v, n + 1, first, depth, lib)
            == EncodeIndexed(v, n, first, depth, lib) + (if n > 0 || !first then "," else [])
               + "\"" + Decimal(n + 1) + "\":" + Encode(v.array_[n], depth + 1, lib)
    ensures EncodeIndexed(v, 0, first, depth, lib) == []
    ensures n > 0 ==> EncodeIndexed(v, n, first, depth, lib) != []
  {
    hide Encode, Decimal;
  }

  lemma {:induction false} BeforeNil(a: seq<Value>, i: nat)
    requires i < FirstNil(a, Nil)
    ensures !a[i].Nil?
  {
    if i > 0 { BeforeNil(a[1..], i - 1); }
  }

  /** The indexed items are written as the slots they would be. */
  lemma {:induction false} IndexedAsSlots(v: Value, n: nat, depth: nat, lib: Lib)
    requires v.Table? && n <= FirstNil(v.array_, Nil)
    ensures var fields, w, m := EncodeSlots(v, |v.slots|, depth, lib), AsObject(v), |v.slots|;
            fields + EncodeIndexed(v, n, fields == [], depth, lib) == EncodeSlots(w, m + n, depth, lib)
    decreases n
  {
    hide Encode, EncodeString, EncodeSlots, EncodeIndexed, Decimal;
    var fields, w, m := EncodeSlots(v, |v.slots|, depth, lib), AsObject(v), |v.slots|;
    if n == 0 {
      SlotsSame(v, w, m, depth, lib);
      NoneIndexed(v, fields == [], depth, lib);
      assert fields + [] == fields;
    } else {
      IndexedAsSlots(v, n - 1, depth, lib);
      BeforeNil(v.array_, n - 1);
      SlotAdded(w, m + n - 1, depth, lib);
      IndexAdded(v, n - 1, fields == [], depth, lib);
      IndexKey(n);
      var before := EncodeIndexed(v, n - 1, fields == [], depth, lib);
      var comma: string := if n > 1 || fields != [] then "," else [];
      NoneIndexed(v, fields == [], depth, lib);
      assert fields + before != [] <==> n > 1 || fields != [];
      Regroup6(fields, before, comma, Decimal(n), Encode(v.array_[n - 1], depth + 1, lib));
    }
  }

  lemma NoneIndexed(v: Value, first: bool, depth: nat, lib: Lib)
    requires v.Table?
    ensures EncodeIndexed(v, 0, first, depth, lib) == []
  {
  }

  lemma Regroup6(a: string, b: string, c: string, d: string, e: string)
    ensures a + (b + c + "\"" + d + "\":" + e) == a + b + c + ("\"" + d + "\"") + ":" + e
  {
    assert a + (b + c + "\"" + d + "\":" + e) == a + b + c + "\"" + d + ("\":" + e);
    assert "\":" + e == "\"" + (":" + e);
    assert a + b + c + ("\"" + d + "\"") + ":" + e == a + b + c + "\"" + d + ("\"" + (":" + e));
  }

  /** A table with items and keys is written as an object that has the items under their indices. */
  lemma MixedEncoded(v: Value, depth: nat, lib: Lib)
    requires v.Table? && HasKeys(v.slots)
    ensures Encode(v, depth, lib) == Encode(AsObject(v), depth, lib)
  {
    hide EncodeSlots, EncodeIndexed, EncodeItems;
    var n, w := FirstNil(v.array_, Nil), AsObject(v);
    if depth <= MAX_DEPTH {
      IndexedAsSlots(v, n, depth, lib);
      NoneIndexed(w, EncodeSlots(w, |w.slots|, depth, lib) == [], depth, lib);
      var fields := EncodeSlots(v, |v.slots|, depth, lib);
      assert "{" + fields + EncodeIndexed(v, n, fields == [], depth, lib) + "}" ==
             "{" + (fields + EncodeIndexed(v, n, fields == [], depth, lib)) + [] + "}";
    }
  }

  /** So it comes back as that object. */
  lemma MixedBack(v: Value, lib: Lib)
    requires Reads(lib) && v.Table? && HasKeys(v.slots) && JsonRoundTrip.Plain(AsObject(v), 0)
    ensures Decode(Encode(v, 0, lib), lib) == Ok(AsObject(v), [])
  {
    hide *;
    MixedEncoded(v, 0, lib);
    DecodeEncode(AsObject(v), lib);
  }
}
