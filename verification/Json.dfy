/** JSON text: what the encoder writes, what the decoder reads, and that reading gives back what was written. */
module Json {
  import opened TableArray

  /** Values as the library sees them. A table lists its array part up to the last value, and its keyed slots. */
  datatype Value =
    | Nil
    | Bool(b: bool)
    | Num(n: real)
    | Str(s: string)
    | Table(array_: seq<Value>, slots: seq<Slot>)
    | Opaque

  datatype Slot = Slot(key: string, value: Value)

  /** The C library: `strtod`, printing with 17 digits, and `strtol` to base 16. */
  datatype Lib = Lib(strtod: string -> real, print17: real -> string, strtol16: string -> int)

  const MAX_DEPTH := 100
  const LIMIT := 1_000_000_000_000_000

  // ----- numbers -----

  predicate IsDigit(c: char) {
    '0' <= c <= '9'
  }

  function DigitChar(d: nat): (c: char)
    requires d < 10
    ensures IsDigit(c)
  {
    '0' + d as char
  }

  function Digits(n: nat): string {
    if n < 10 then [DigitChar(n)] else Digits(n / 10) + [DigitChar(n % 10)]
  }

  /** A whole number printed without fraction. */
  function Decimal(n: int): string {
    if n < 0 then "-" + Digits(-n) else Digits(n)
  }

  function DigitsValue(s: string): nat
    requires forall i :: 0 <= i < |s| ==> IsDigit(s[i])
  {
    if s == [] then 0 else 10 * DigitsValue(s[..|s| - 1]) + HexDigit(s[|s| - 1])
  }

  predicate IsDigits(s: string) {
    s != [] && forall i :: 0 <= i < |s| ==> IsDigit(s[i])
  }

  /** `strtod` reads whole numbers below the limit exactly, `strtol` four hexadecimal digits. */
  ghost predicate Reads(lib: Lib) {
    && (forall s: string :: IsDigits(s) && DigitsValue(s) < LIMIT ==> lib.strtod(s) == DigitsValue(s) as real)
    && (forall s: string :: IsDigits(s) && DigitsValue(s) < LIMIT ==> lib.strtod("-" + s) == -(DigitsValue(s) as real))
    && (forall s: string :: |s| == 4 && (forall i :: 0 <= i < 4 ==> IsHex(s[i])) ==> lib.strtol16(s) == HexValue(s))
  }

  predicate IsHex(c: char) {
    IsDigit(c) || 'a' <= c <= 'f' || 'A' <= c <= 'F'
  }

  function HexDigit(c: char): (d: nat)
    requires IsHex(c)
    ensures d < 16
  {
    if IsDigit(c) then (c - '0') as nat else if 'a' <= c <= 'f' then (c - 'a') as nat + 10 else (c - 'A') as nat + 10
  }

  function HexValue(s: string): nat
    requires forall i :: 0 <= i < |s| ==> IsHex(s[i])
  {
    if s == [] then 0 else 16 * HexValue(s[..|s| - 1]) + HexDigit(s[|s| - 1])
  }

  lemma {:induction false} DigitsBack(n: nat)
    ensures IsDigits(Digits(n)) && DigitsValue(Digits(n)) == n
  {
    if n < 10 {
      assert Digits(n)[..0] == [];
    } else {
      DigitsBack(n / 10);
      assert Digits(n)[..|Digits(n)| - 1] == Digits(n / 10);
    }
  }

  // ----- encoding -----

  function HexChar(d: nat): (c: char)
    requires d < 16
    ensures IsHex(c) && HexDigit(c) == d
  {
    if d < 10 then '0' + d as char else 'a' + (d - 10) as char
  }

  /** One character of a string; control characters are escaped. */
  function EncodeChar(c: char): (e: string)
    ensures e != []
  {
    if c == '"' then "\\\""
    else if c == '\\' then "\\\\"
    else if c == 8 as char then "\\b"
    else if c == 12 as char then "\\f"
    else if c == '\n' then "\\n"
    else if c == '\r' then "\\r"
    else if c == '\t' then "\\t"
    else if c < ' ' then "\\u00" + [HexChar(c as nat / 16), HexChar(c as nat % 16)]
    else [c]
  }

  function EncodeChars(s: string): string {
    if s == [] then [] else EncodeChar(s[0]) + EncodeChars(s[1..])
  }

  function EncodeString(s: string): string {
    "\"" + EncodeChars(s) + "\""
  }

  function EncodeNumber(n: real, lib: Lib): string {
    if n.Floor as real == n && -(LIMIT as real) < n < LIMIT as real then Decimal(n.Floor) else lib.print17(n)
  }

  predicate HasKeys(slots: seq<Slot>) {
    exists i :: 0 <= i < |slots| && !slots[i].value.Nil?
  }

  function Encode(v: Value, depth: nat, lib: Lib): string
    decreases v, 1
  {
    match v
    case Nil => "null"
    case Bool(b) => if b then "true" else "false"
    case Num(n) => EncodeNumber(n, lib)
    case Str(s) => EncodeString(s)
    case Opaque => "null"
    case Table(a, slots) =>
      if depth > MAX_DEPTH then "null"
      else if FirstNil(a, Nil) > 0 && !HasKeys(slots) then "[" + EncodeItems(v, FirstNil(a, Nil), depth, lib) + "]"
      else
        var fields := EncodeSlots(v, |slots|, depth, lib);
        "{" + fields + EncodeIndexed(v, FirstNil(a, Nil), fields == [], depth, lib) + "}"
  }

  /** The first `n` items, with commas between them. */
  function EncodeItems(v: Value, n: nat, depth: nat, lib: Lib): string
    requires v.Table? && n <= |v.array_|
    decreases v, 0, n
  {
    if n == 0 then []
    else EncodeItems(v, n - 1, depth, lib) + (if n > 1 then "," else []) + Encode(v.array_[n - 1], depth + 1, lib)
  }

  /** The fields of the first `n` slots, nil values left out, with commas between them. */
  function EncodeSlots(v: Value, n: nat, depth: nat, lib: Lib): string
    requires v.Table? && n <= |v.slots|
    decreases v, 0, n
  {
    if n == 0 then []
    else
      var before := EncodeSlots(v, n - 1, depth, lib);
      var slot := v.slots[n - 1];
      if slot.value.Nil? then before
      else
        assert slot < v;
        before + (if before != [] then "," else []) + EncodeString(slot.key) + ":" + Encode(slot.value, depth + 1, lib)
  }

  /** The array part of a mixed table, under its indices. */
  function EncodeIndexed(v: Value, n: nat, first: bool, depth: nat, lib: Lib): string
    requires v.Table? && n <= |v.array_|
    decreases v, 0, n
  {
    if n == 0 then []
    else
      EncodeIndexed(v, n - 1, first, depth, lib) + (if n > 1 || !first then "," else [])
      + "\"" + Decimal(n) + "\":" + Encode(v.array_[n - 1], depth + 1, lib)
  }

  // ----- decoding -----

  /** A result and the rest of the text, or an error. */
  datatype Parsed<T> = Ok(value: T, rest: string) | Error

  predicate IsSpace(c: char) {
    c == ' ' || c == '\t' || c == '\n' || c == '\r'
  }

  function Skip(s: string): (r: string)
    ensures |r| <= |s|
  {
    if s != [] && IsSpace(s[0]) then Skip(s[1..]) else s
  }

  /** `parse_char`: past white space and the expected character, or nothing. */
  function Expect(s: string, c: char): (r: Parsed<()>)
    ensures r.Ok? ==> |r.rest| < |s|
  {
    var t := Skip(s);
    if t != [] && t[0] == c then Ok((), t[1..]) else Error
  }

  /** A code point in UTF-8, by the three shortest forms. */
  function Utf8(cp: int): string {
    if cp < 128 then [(cp % 256) as char]
    else if cp < 2048 then [(0xC0 + cp / 64 % 32) as char, (0x80 + cp % 64) as char]
    else [(0xE0 + cp / 4096 % 16) as char, (0x80 + cp / 64 % 64) as char, (0x80 + cp % 64) as char]
  }

  /** The characters up to the closing quote. */
  function ParseChars(s: string, lib: Lib): (r: Parsed<string>)
    ensures r.Ok? ==> |r.rest| <= |s|
    decreases |s|
  {
    if s == [] || s[0] == '"' then Ok([], s)
    else if s[0] == '\\' && |s| > 1 then
      if s[1] == 'u' then
        if |s| < 6 then Error
        else
          var tail := ParseChars(s[6..], lib);
          if tail.Error? then Error else Ok(Utf8(lib.strtol16(s[2..6])) + tail.value, tail.rest)
      else
        var tail := ParseChars(s[2..], lib);
        if tail.Error? then Error else Ok([Unescape(s[1])] + tail.value, tail.rest)
    else
      var tail := ParseChars(s[1..], lib);
      if tail.Error? then Error else Ok([s[0]] + tail.value, tail.rest)
  }

  function Unescape(c: char): char {
    if c == 'b' then 8 as char
    else if c == 'f' then 12 as char
    else if c == 'n' then '\n'
    else if c == 'r' then '\r'
    else if c == 't' then '\t'
    else c
  }

  function ParseString(s: string, lib: Lib): (r: Parsed<string>)
    ensures r.Ok? ==> |r.rest| < |s|
  {
    var open := Expect(s, '"');
    if open.Error? then Error
    else
      var body := ParseChars(open.rest, lib);
      if body.Error? then Error
      else
        var close := Expect(body.rest, '"');
        if close.Error? then Error else Ok(body.value, close.rest)
  }

  function DigitRun(s: string): (n: nat)
    ensures n <= |s|
  {
    if s != [] && IsDigit(s[0]) then 1 + DigitRun(s[1..]) else 0
  }

  function SignLength(s: string): (n: nat)
    ensures n <= |s|
  {
    if s != [] && s[0] == '-' then 1 else 0
  }

  function FractionLength(s: string): (n: nat)
    ensures n <= |s|
  {
    if s != [] && s[0] == '.' then 1 + DigitRun(s[1..]) else 0
  }

  function ExponentLength(s: string): (n: nat)
    ensures n <= |s|
  {
    if s != [] && (s[0] == 'e' || s[0] == 'E') then
      var d := if |s| > 1 && (s[1] == '+' || s[1] == '-') then 2 else 1;
      d + DigitRun(s[d..])
    else 0
  }

  /** The length of the number at the start: sign, digits, fraction, exponent. */
  function NumberLength(s: string): (n: nat)
    ensures n <= |s|
  {
    var a := SignLength(s);
    var b := a + DigitRun(s[a..]);
    var c := b + FractionLength(s[b..]);
    c + ExponentLength(s[c..])
  }

  /** `table_set` on the keyed slots. */
  function Put(slots: seq<Slot>, key: string, v: Value): seq<Slot> {
    if slots == [] then [Slot(key, v)]
    else if slots[0].key == key then [Slot(key, v)] + slots[1..]
    else [slots[0]] + Put(slots[1..], key, v)
  }

  function ParseValue(s: string, lib: Lib): (r: Parsed<Value>)
    ensures r.Ok? ==> |r.rest| < |s|
    decreases |s|, 2
  {
    var t := Skip(s);
    if t == [] then Error
    else if t[0] == '"' then
      var r := ParseString(t, lib);
      if r.Error? then Error else Ok(Str(r.value), r.rest)
    else if t[0] == '{' then
      var u := Skip(t[1..]);
      var fields := if u != [] && u[0] != '}' then ParseFields(u, [], lib) else Ok([], u);
      if fields.Error? then Error
      else
        var close := Expect(fields.rest, '}');
        if close.Error? then Error else Ok(Table([], fields.value), close.rest)
    else if t[0] == '[' then
      var u := Skip(t[1..]);
      var items := if u != [] && u[0] != ']' then ParseItems(u, ArrayPart([], 0), 1, lib) else Ok(ArrayPart([], 0), u);
      if items.Error? then Error
      else
        var close := Expect(items.rest, ']');
        if close.Error? then Error else Ok(Table(items.value.values, []), close.rest)
    else if t[0] == '-' || IsDigit(t[0]) then
      var n := NumberLength(t);
      NumberStarts(t);
      Ok(Num(lib.strtod(t[..n])), t[n..])
    else if "true" <= t then Ok(Bool(true), t[4..])
    else if "false" <= t then Ok(Bool(false), t[5..])
    else if "null" <= t then Ok(Nil, t[4..])
    else Error
  }

  lemma NumberStarts(t: string)
    requires t != [] && (t[0] == '-' || IsDigit(t[0]))
    ensures NumberLength(t) > 0
  {
  }

  /** Items separated by commas; the next one has the given index. */
  function ParseItems(s: string, a: ArrayPart<Value>, index: nat, lib: Lib): (r: Parsed<ArrayPart<Value>>)
    requires index > |a.values|
    ensures r.Ok? ==> |r.rest| < |s|
    decreases |s|, 3
  {
    var item := ParseValue(s, lib);
    if item.Error? then Error
    else
      var b := Store(a, index, item.value, Nil);
      var comma := Expect(item.rest, ',');
      if comma.Ok? then ParseItems(comma.rest, b, index + 1, lib) else Ok(b, Skip(item.rest))
  }

  /** Fields separated by commas, set one after the other. */
  function ParseFields(s: string, slots: seq<Slot>, lib: Lib): (r: Parsed<seq<Slot>>)
    ensures r.Ok? ==> |r.rest| < |s|
    decreases |s|, 3
  {
    var key := ParseString(s, lib);
    if key.Error? then Error
    else
      var colon := Expect(key.rest, ':');
      if colon.Error? then Error
      else
        var v := ParseValue(colon.rest, lib);
        if v.Error? then Error
        else
          var set_ := Put(slots, key.value, v.value);
          var comma := Expect(v.rest, ',');
          if comma.Ok? then ParseFields(comma.rest, set_, lib) else Ok(set_, Skip(v.rest))
  }

  /** `json_decode`: one value, and nothing behind it. */
  function Decode(s: string, lib: Lib): Parsed<Value> {
    var r := ParseValue(s, lib);
    if r.Error? || Skip(r.rest) != [] then Error else Ok(r.value, [])
  }
}
