/** Decoding what was encoded gives it back. */
module JsonRoundTrip {
  import opened Json
  import opened TableArray

  /**
   * Values JSON can carry: whole numbers below the limit, strings, and tables that are either a non-empty array
   * without gaps or an object with string keys; nil only on its own.
   */
  predicate Plain(v: Value, depth: nat)
    decreases v
  {
    match v
    case Nil => false
    case Bool(_) => true
    case Num(n) => n.Floor as real == n && -(LIMIT as real) < n < LIMIT as real
    case Str(_) => true
    case Opaque => false
    case Table(a, slots) =>
      && depth <= MAX_DEPTH
      && (a == [] || slots == [])
      && (forall i :: 0 <= i < |a| ==> Plain(a[i], depth + 1))
      && (forall i :: 0 <= i < |slots| ==> SlotPlain(v, i, depth))
      && (forall i, j :: 0 <= i < j < |slots| ==> slots[i].key != slots[j].key)
  }

  predicate SlotPlain(v: Value, i: nat, depth: nat)
    requires v.Table? && i < |v.slots|
    decreases v, 0
  {
    assert v.slots[i] < v;
    Plain(v.slots[i].value, depth + 1)
  }

  // ----- strings -----

  function Prefixed(c: string, tail: Parsed<string>): Parsed<string> {
    if tail.Error? then Error else Ok(c + tail.value, tail.rest)
  }

  lemma ParsePlainChar(c: char, rest: string, lib: Lib)
    requires c != '"' && c != '\\'
    ensures ParseChars([c] + rest, lib) == Prefixed([c], ParseChars(rest, lib))
  {
    var s := [c] + rest;
    assert s[1..] == rest && s[0] == c;
  }

  lemma ParseEscaped(e: char, rest: string, lib: Lib)
    requires e != 'u'
    ensures ParseChars(['\\', e] + rest, lib) == Prefixed([Unescape(e)], ParseChars(rest, lib))
  {
    var s := ['\\', e] + rest;
    assert s[2..] == rest && s[0] == '\\' && s[1] == e;
  }

  lemma ParseHexEscape(h: string, rest: string, lib: Lib)
    requires |h| == 4
    ensures ParseChars(['\\', 'u'] + h + rest, lib) == Prefixed(Utf8(lib.strtol16(h)), ParseChars(rest, lib))
  {
    hide Utf8;
    var s := ['\\', 'u'] + h + rest;
    assert s[6..] == rest && s[0] == '\\' && s[1] == 'u' && s[2..6] == h;
  }

  /** Reading back one escaped or plain character. */
  lemma CharBack(c: char, rest: string, lib: Lib)
    requires Reads(lib)
    ensures ParseChars(EncodeChar(c) + rest, lib) == Prefixed([c], ParseChars(rest, lib))
  {
    hide ParseChars, Prefixed, Reads, Utf8, Unescape;
    if c == '"' || c == '\\' || c == 8 as char || c == 12 as char || c == '\n' || c == '\r' || c == '\t' {
      var e := EncodeChar(c);
      ShortEscape(c);
      ParseEscaped(e[1], rest, lib);
    } else if c < ' ' {
      HexEscape(c, lib);
      ParseHexEscape(HexDigits(c), rest, lib);
    } else {
      ParsePlainChar(c, rest, lib);
    }
  }

  lemma ShortEscape(c: char)
    requires c == '"' || c == '\\' || c == 8 as char || c == 12 as char || c == '\n' || c == '\r' || c == '\t'
    ensures var e := EncodeChar(c);
            |e| == 2 && e == ['\\', e[1]] && e[1] != 'u' && Unescape(e[1]) == c
  {
  }

  ghost function HexDigits(c: char): string
    requires c < ' '
  {
    ['0', '0', HexChar(c as nat / 16), HexChar(c as nat % 16)]
  }

  lemma HexEscape(c: char, lib: Lib)
    requires c < ' ' && Reads(lib)
    requires c != 8 as char && c != 12 as char && c != '\n' && c != '\r' && c != '\t'
    ensures EncodeChar(c) == ['\\', 'u'] + HexDigits(c) && Utf8(lib.strtol16(HexDigits(c))) == [c]
  {
    HexBack(c as nat);
    assert Utf8(c as int) == [c];
  }

  lemma HexBack(n: nat)
    requires n < 32
    ensures HexValue(['0', '0', HexChar(n / 16), HexChar(n % 16)]) == n
  {
    var s := ['0', '0', HexChar(n / 16), HexChar(n % 16)];
    assert s[..3] == ['0', '0', HexChar(n / 16)];
    assert s[..3][..2] == ['0', '0'];
    assert s[..3][..2][..1] == ['0'];
    assert s[..3][..2][..1][..0] == [];
    assert HexValue([]) == 0;
    assert HexValue(['0']) == 0;
    assert HexValue(['0', '0']) == 0;
    assert HexValue(['0', '0', HexChar(n / 16)]) == n / 16;
  }

  lemma {:induction false} CharsBack(s: string, rest: string, lib: Lib)
    requires Reads(lib)
    ensures ParseChars(EncodeChars(s) + "\"" + rest, lib) == Ok(s, "\"" + rest)
    decreases |s|
  {
    hide EncodeChar, Reads, ParseChars;
    if s == [] {
      ParseEnd(rest, lib);
      assert EncodeChars(s) + "\"" + rest == "\"" + rest;
    } else {
      var tail := EncodeChars(s[1..]) + "\"" + rest;
      assert EncodeChars(s) + "\"" + rest == EncodeChar(s[0]) + tail;
      CharBack(s[0], tail, lib);
      CharsBack(s[1..], rest, lib);
      assert [s[0]] + s[1..] == s;
    }
  }

  lemma ParseEnd(rest: string, lib: Lib)
    ensures ParseChars("\"" + rest, lib) == Ok([], "\"" + rest)
  {
  }

  lemma StringBack(s: string, rest: string, lib: Lib)
    requires Reads(lib)
    ensures ParseString(EncodeString(s) + rest, lib) == Ok(s, rest)
  {
    hide ParseChars, EncodeChars, Reads;
    var all := EncodeString(s) + rest;
    var body := EncodeChars(s) + "\"" + rest;
    assert all == "\"" + body;
    assert all[1..] == body;
    CharsBack(s, rest, lib);
    assert ("\"" + rest)[1..] == rest;
  }

  // ----- numbers -----

  /** What may follow a value inside a text: nothing that would continue a number. */
  predicate Follows(rest: string) {
    rest == [] || rest[0] == ',' || rest[0] == ']' || rest[0] == '}'
  }

  lemma {:induction false} DigitRunIs(s: string, rest: string)
    requires (forall i :: 0 <= i < |s| ==> IsDigit(s[i])) && (rest == [] || !IsDigit(rest[0]))
    ensures DigitRun(s + rest) == |s|
    decreases |s|
  {
    if s == [] {
      assert s + rest == rest;
    } else {
      assert (s + rest)[1..] == s[1..] + rest;
      DigitRunIs(s[1..], rest);
    }
  }

  /** A run of digits, signed or not, is a number of its own when nothing continues it. */
  lemma NumberLengthIs(minus: bool, digits: string, rest: string)
    requires IsDigits(digits) && Follows(rest)
    ensures var t := (if minus then "-" else []) + digits;
            NumberLength(t + rest) == |t|
  {
    hide DigitRun;
    var sign: string := if minus then "-" else [];
    var s := sign + digits + rest;
    assert s[|sign|..] == digits + rest;
    DigitRunIs(digits, rest);
    assert s[0] == if minus then '-' else digits[0];
  }

  lemma ParseNumberIs(t: string, lib: Lib)
    requires t != [] && (t[0] == '-' || IsDigit(t[0]))
    ensures ParseValue(t, lib) == Ok(Num(lib.strtod(t[..NumberLength(t)])), t[NumberLength(t)..])
  {
    hide ParseItems, ParseFields, ParseString, NumberLength;
  }

  lemma NumberBack(n: int, rest: string, lib: Lib)
    requires Reads(lib) && -LIMIT < n < LIMIT && Follows(rest)
    ensures ParseValue(Decimal(n) + rest, lib) == Ok(Num(n as real), rest)
  {
    hide ParseValue, NumberLength, Digits;
    var m := if n < 0 then -n else n;
    DigitsBack(m);
    var t := Decimal(n) + rest;
    NumberLengthIs(n < 0, Digits(m), rest);
    assert Decimal(n) == (if n < 0 then "-" else []) + Digits(m);
    ParseNumberIs(t, lib);
    assert t[..|Decimal(n)|] == Decimal(n) && t[|Decimal(n)|..] == rest;
  }

  // ----- values -----

  /** Every encoding starts with a character that is neither white space nor a closing bracket. */
  lemma EncodeStarts(v: Value, depth: nat, lib: Lib)
    requires Plain(v, depth) || v.Nil?
    ensures var e := Encode(v, depth, lib);
            e != [] && !IsSpace(e[0]) && e[0] != ']' && e[0] != '}'
  {
    hide Plain, EncodeItems, EncodeSlots, EncodeIndexed, EncodeChars;
    if v.Num? {
      NumStarts(v, depth, lib);
    } else if v.Opaque? {
      PlainIs(v, depth);
    }
  }

  lemma PlainIs(v: Value, depth: nat)
    requires Plain(v, depth)
    ensures !v.Opaque? && !v.Nil?
  {
  }

  lemma NumStarts(v: Value, depth: nat, lib: Lib)
    requires v.Num? && Plain(v, depth)
    ensures var e := Encode(v, depth, lib);
            e == Decimal(v.n.Floor) && e != [] && (e[0] == '-' || IsDigit(e[0]))
  {
    DigitsBack(if v.n.Floor < 0 then -v.n.Floor else v.n.Floor);
  }

  // ----- arrays -----

  /** The items from `i` on, each after a comma. */
  ghost function ItemsFrom(v: Value, i: nat, depth: nat, lib: Lib): string
    requires v.Table? && i <= |v.array_|
    decreases |v.array_| - i
  {
    if i == |v.array_| then [] else "," + Encode(v.array_[i], depth + 1, lib) + ItemsFrom(v, i + 1, depth, lib)
  }

  lemma {:induction false} ItemsSplit(v: Value, i: nat, depth: nat, lib: Lib)
    requires v.Table? && 0 < i <= |v.array_|
    ensures EncodeItems(v, |v.array_|, depth, lib) == EncodeItems(v, i, depth, lib) + ItemsFrom(v, i, depth, lib)
    decreases |v.array_| - i
  {
    hide Encode;
    if i == |v.array_| {
      assert EncodeItems(v, i, depth, lib) + [] == EncodeItems(v, i, depth, lib);
    } else {
      ItemsSplit(v, i + 1, depth, lib);
      Joined(EncodeItems(v, i, depth, lib), Encode(v.array_[i], depth + 1, lib), ItemsFrom(v, i + 1, depth, lib));
    }
  }

  lemma Joined(a: string, b: string, c: string)
    ensures a + "," + b + c == a + ("," + b + c)
  {
  }

  lemma FirstItem(v: Value, depth: nat, lib: Lib)
    requires v.Table? && v.array_ != []
    ensures EncodeItems(v, |v.array_|, depth, lib) == Encode(v.array_[0], depth + 1, lib) + ItemsFrom(v, 1, depth, lib)
  {
    hide Encode;
    ItemsSplit(v, 1, depth, lib);
    assert EncodeItems(v, 0, depth, lib) == [];
    var e := Encode(v.array_[0], depth + 1, lib);
    assert EncodeItems(v, 1, depth, lib) == [] + [] + e == e;
  }

  /** What follows an item: a comma and the next one, or the closing bracket. */
  lemma ItemFollows(v: Value, i: nat, depth: nat, post: string, lib: Lib)
    requires v.Table? && i <= |v.array_|
    ensures var rest := ItemsFrom(v, i, depth, lib) + "]" + post;
            Follows(rest) && rest != [] && Skip(rest) == rest
    ensures var rest := ItemsFrom(v, i, depth, lib) + "]" + post;
            if i == |v.array_| then rest == "]" + post && rest[0] == ']'
            else rest[0] == ',' && rest[1..] == Encode(v.array_[i], depth + 1, lib) + (ItemsFrom(v, i + 1, depth, lib) + "]" + post)
  {
    hide Encode;
    var rest := ItemsFrom(v, i, depth, lib) + "]" + post;
    if i < |v.array_| {
      var e, f := Encode(v.array_[i], depth + 1, lib), ItemsFrom(v, i + 1, depth, lib);
      assert "," + e + f + "]" + post == "," + (e + (f + "]" + post));
      assert rest[1..] == e + (f + "]" + post);
    } else {
      assert rest == "]" + post;
    }
  }

  lemma PlainItem(v: Value, i: nat, depth: nat)
    requires v.Table? && Plain(v, depth) && i < |v.array_|
    ensures Plain(v.array_[i], depth + 1) && !v.array_[i].Nil? && v.array_[i] < v
  {
    PlainIs(v.array_[i], depth + 1);
  }

  lemma ParseItemsIs(s: string, a: ArrayPart<Value>, index: nat, lib: Lib)
    requires index > |a.values| && ParseValue(s, lib).Ok?
    ensures var item := ParseValue(s, lib);
            var b := Store(a, index, item.value, Nil);
            var comma := Expect(item.rest, ',');
            ParseItems(s, a, index, lib) == if comma.Ok? then ParseItems(comma.rest, b, index + 1, lib) else Ok(b, Skip(item.rest))
  {
    hide ParseValue, Store, Expect, Skip;
  }

  lemma {:induction false} ItemsBack(v: Value, i: nat, a: ArrayPart<Value>, depth: nat, post: string, lib: Lib)
    requires Reads(lib) && v.Table? && Plain(v, depth) && i < |v.array_| && a.values == v.array_[..i]
    ensures var r := ParseItems(Encode(v.array_[i], depth + 1, lib) + (ItemsFrom(v, i + 1, depth, lib) + "]" + post), a, i + 1, lib);
            r.Ok? && r.value.values == v.array_ && r.rest == "]" + post
    decreases v, 0, |v.array_| - i
  {
    hide *;
    var rest := ItemsFrom(v, i + 1, depth, lib) + "]" + post;
    var s := Encode(v.array_[i], depth + 1, lib) + rest;
    ItemFollows(v, i + 1, depth, post, lib);
    PlainItem(v, i, depth);
    RoundTrip(v.array_[i], depth + 1, rest, lib);
    ParseItemsIs(s, a, i + 1, lib);
    StoreNext(a, v.array_[i], Nil);
    var b := Store(a, i + 1, v.array_[i], Nil);
    assert b.values == v.array_[..i + 1];
    ExpectIs(rest, ',');
    if i + 1 < |v.array_| {
      ItemsBack(v, i + 1, b, depth, post, lib);
    } else {
      assert v.array_[..i + 1] == v.array_;
    }
  }

  lemma ExpectIs(s: string, c: char)
    requires s != [] && Skip(s) == s
    ensures Expect(s, c) == if s[0] == c then Ok((), s[1..]) else Error
  {
  }

  // ----- objects -----

  ghost function Field(v: Value, i: nat, depth: nat, lib: Lib): string
    requires v.Table? && i < |v.slots|
  {
    EncodeString(v.slots[i].key) + ":" + Encode(v.slots[i].value, depth + 1, lib)
  }

  /** The fields from `i` on, each after a comma. */
  ghost function FieldsFrom(v: Value, i: nat, depth: nat, lib: Lib): string
    requires v.Table? && i <= |v.slots|
    decreases |v.slots| - i
  {
    if i == |v.slots| then [] else "," + Field(v, i, depth, lib) + FieldsFrom(v, i + 1, depth, lib)
  }

  lemma SlotsNext(v: Value, n: nat, depth: nat, lib: Lib)
    requires v.Table? && n < |v.slots| && !v.slots[n].value.Nil?
    ensures var before := EncodeSlots(v, n, depth, lib);
            EncodeSlots(v, n + 1, depth, lib) == before + (if before != [] then "," else []) + Field(v, n, depth, lib)
  {
    hide Encode, EncodeString;
    var before := EncodeSlots(v, n, depth, lib);
    var k, e := EncodeString(v.slots[n].key), Encode(v.slots[n].value, depth + 1, lib);
    var comma := if before != [] then "," else [];
    assert before + comma + k + ":" + e == before + comma + (k + ":" + e);
  }

  lemma FieldNotEmpty(v: Value, i: nat, depth: nat, lib: Lib)
    requires v.Table? && i < |v.slots|
    ensures Field(v, i, depth, lib) != [] && Field(v, i, depth, lib)[0] == '"'
  {
    hide Encode, EncodeChars;
  }

  lemma {:induction false} SlotsSplit(v: Value, i: nat, depth: nat, lib: Lib)
    requires v.Table? && 0 < i <= |v.slots| && forall j :: 0 <= j < |v.slots| ==> !v.slots[j].value.Nil?
    ensures EncodeSlots(v, |v.slots|, depth, lib) == EncodeSlots(v, i, depth, lib) + FieldsFrom(v, i, depth, lib)
    decreases |v.slots| - i
  {
    hide Encode, Field, EncodeSlots;
    SlotsNext(v, i - 1, depth, lib);
    FieldNotEmpty(v, i - 1, depth, lib);
    if i == |v.slots| {
      assert EncodeSlots(v, i, depth, lib) + [] == EncodeSlots(v, i, depth, lib);
    } else {
      SlotsSplit(v, i + 1, depth, lib);
      SlotsNext(v, i, depth, lib);
      Joined(EncodeSlots(v, i, depth, lib), Field(v, i, depth, lib), FieldsFrom(v, i + 1, depth, lib));
    }
  }

  lemma FirstField(v: Value, depth: nat, lib: Lib)
    requires v.Table? && v.slots != [] && forall j :: 0 <= j < |v.slots| ==> !v.slots[j].value.Nil?
    ensures EncodeSlots(v, |v.slots|, depth, lib) == Field(v, 0, depth, lib) + FieldsFrom(v, 1, depth, lib)
  {
    hide Encode, Field;
    SlotsSplit(v, 1, depth, lib);
    SlotsNext(v, 0, depth, lib);
    assert EncodeSlots(v, 0, depth, lib) == [];
    var f := Field(v, 0, depth, lib);
    assert [] + [] + f == f;
  }

  lemma FieldFollows(v: Value, i: nat, depth: nat, post: string, lib: Lib)
    requires v.Table? && i <= |v.slots|
    ensures var rest := FieldsFrom(v, i, depth, lib) + "}" + post;
            Follows(rest) && rest != [] && Skip(rest) == rest
    ensures var rest := FieldsFrom(v, i, depth, lib) + "}" + post;
            if i == |v.slots| then rest == "}" + post && rest[0] == '}'
            else rest[0] == ',' && rest[1..] == Field(v, i, depth, lib) + (FieldsFrom(v, i + 1, depth, lib) + "}" + post)
  {
    hide Encode, Field;
    var rest := FieldsFrom(v, i, depth, lib) + "}" + post;
    if i < |v.slots| {
      var e, f := Field(v, i, depth, lib), FieldsFrom(v, i + 1, depth, lib);
      assert "," + e + f + "}" + post == "," + (e + (f + "}" + post));
      assert rest[1..] == e + (f + "}" + post);
    } else {
      assert rest == "}" + post;
    }
  }

  lemma {:induction false} PutNew(slots: seq<Slot>, key: string, v: Value)
    requires forall i :: 0 <= i < |slots| ==> slots[i].key != key
    ensures Put(slots, key, v) == slots + [Slot(key, v)]
    decreases |slots|
  {
    if slots != [] {
      PutNew(slots[1..], key, v);
    }
  }

  lemma PlainSlot(v: Value, i: nat, depth: nat)
    requires v.Table? && Plain(v, depth) && i < |v.slots|
    ensures Plain(v.slots[i].value, depth + 1) && !v.slots[i].value.Nil? && v.slots[i].value < v
    ensures forall j :: 0 <= j < i ==> v.slots[j].key != v.slots[i].key
  {
    assert SlotPlain(v, i, depth);
    PlainIs(v.slots[i].value, depth + 1);
    assert v.slots[i] < v;
  }

  lemma ParseFieldsIs(s: string, slots: seq<Slot>, lib: Lib)
    requires ParseString(s, lib).Ok?
    requires Expect(ParseString(s, lib).rest, ':').Ok?
    requires ParseValue(Expect(ParseString(s, lib).rest, ':').rest, lib).Ok?
    ensures var key := ParseString(s, lib);
            var v := ParseValue(Expect(key.rest, ':').rest, lib);
            var set_ := Put(slots, key.value, v.value);
            var comma := Expect(v.rest, ',');
            ParseFields(s, slots, lib) == if comma.Ok? then ParseFields(comma.rest, set_, lib) else Ok(set_, Skip(v.rest))
  {
    hide ParseValue, ParseString, Put, Expect, Skip;
  }

  lemma ColonBack(e: string)
    ensures Expect(":" + e, ':') == Ok((), e)
  {
    assert (":" + e)[1..] == e;
  }

  lemma {:induction false} FieldsBack(v: Value, i: nat, depth: nat, post: string, lib: Lib)
    requires Reads(lib) && v.Table? && Plain(v, depth) && i < |v.slots|
    ensures ParseFields(Field(v, i, depth, lib) + (FieldsFrom(v, i + 1, depth, lib) + "}" + post), v.slots[..i], lib)
            == Ok(v.slots, "}" + post)
    decreases v, 0, |v.slots| - i
  {
    hide *;
    var rest := FieldsFrom(v, i + 1, depth, lib) + "}" + post;
    var s := Field(v, i, depth, lib) + rest;
    var slot := v.slots[i];
    var e := Encode(slot.value, depth + 1, lib) + rest;
    FieldFollows(v, i + 1, depth, post, lib);
    PlainSlot(v, i, depth);
    FieldIs(v, i, depth, rest, lib);
    StringBack(slot.key, ":" + e, lib);
    ColonBack(e);
    RoundTrip(slot.value, depth + 1, rest, lib);
    ParseFieldsIs(s, v.slots[..i], lib);
    PutNew(v.slots[..i], slot.key, slot.value);
    assert v.slots[..i] + [slot] == v.slots[..i + 1];
    assert slot == Slot(slot.key, slot.value);
    ExpectIs(rest, ',');
    if i + 1 < |v.slots| {
      FieldsBack(v, i + 1, depth, post, lib);
    } else {
      assert v.slots[..i + 1] == v.slots;
    }
  }

  lemma FieldIs(v: Value, i: nat, depth: nat, rest: string, lib: Lib)
    requires v.Table? && i < |v.slots|
    ensures Field(v, i, depth, lib) + rest ==
            EncodeString(v.slots[i].key) + (":" + (Encode(v.slots[i].value, depth + 1, lib) + rest))
  {
    hide EncodeString, Encode;
    var k, e := EncodeString(v.slots[i].key), Encode(v.slots[i].value, depth + 1, lib);
    assert k + ":" + e + rest == k + (":" + (e + rest));
  }

  // ----- any value -----

  lemma {:induction false} AllItems(a: seq<Value>)
    requires forall i :: 0 <= i < |a| ==> !a[i].Nil?
    ensures FirstNil(a, Nil) == |a|
    decreases |a|
  {
    if a != [] { AllItems(a[1..]); }
  }

  lemma ParseArrayIs(u: string, lib: Lib)
    requires u != [] && Skip(u) == u && u[0] != ']'
    requires var items := ParseItems(u, ArrayPart([], 0), 1, lib);
             items.Ok? && Expect(items.rest, ']').Ok?
    ensures var items := ParseItems(u, ArrayPart([], 0), 1, lib);
            ParseValue("[" + u, lib) == Ok(Table(items.value.values, []), Expect(items.rest, ']').rest)
  {
    hide ParseItems, Expect;
    var t := "[" + u;
    assert t[1..] == u;
    assert Skip(t) == t;
  }

  lemma ParseObjectIs(u: string, lib: Lib)
    requires u != [] && Skip(u) == u && u[0] != '}'
    requires var fields := ParseFields(u, [], lib);
             fields.Ok? && Expect(fields.rest, '}').Ok?
    ensures var fields := ParseFields(u, [], lib);
            ParseValue("{" + u, lib) == Ok(Table([], fields.value), Expect(fields.rest, '}').rest)
  {
    hide ParseFields, Expect;
    var t := "{" + u;
    assert t[1..] == u;
    assert Skip(t) == t;
  }

  lemma ParseEmptyObject(post: string, lib: Lib)
    ensures ParseValue("{}" + post, lib) == Ok(Table([], []), post)
  {
    hide ParseFields;
    var t := "{}" + post;
    assert t[1..] == "}" + post;
    assert Skip(t) == t;
    assert Skip(t[1..]) == t[1..];
    assert t[1..][1..] == post;
  }

  lemma ArrayBack(v: Value, depth: nat, post: string, lib: Lib)
    requires Reads(lib) && v.Table? && Plain(v, depth) && v.array_ != []
    ensures ParseValue(Encode(v, depth, lib) + post, lib) == Ok(v, post)
    decreases v, 1, 0
  {
    hide *;
    EncodeArray(v, depth, lib);
    FirstItem(v, depth, lib);
    var rest := ItemsFrom(v, 1, depth, lib) + "]" + post;
    var e := Encode(v.array_[0], depth + 1, lib);
    var u := e + rest;
    assert Encode(v, depth, lib) + post == "[" + u by {
      assert "[" + (e + ItemsFrom(v, 1, depth, lib)) + "]" + post ==
             "[" + (e + (ItemsFrom(v, 1, depth, lib) + "]" + post));
    }
    PlainItem(v, 0, depth);
    EncodeStarts(v.array_[0], depth + 1, lib);
    NotSkipped(u);
    assert v.array_[..0] == [];
    ItemsBack(v, 0, ArrayPart([], 0), depth, post, lib);
    ClosesWith(']', post);
    ParseArrayIs(u, lib);
  }

  lemma EncodeArray(v: Value, depth: nat, lib: Lib)
    requires v.Table? && Plain(v, depth) && v.array_ != []
    ensures Encode(v, depth, lib) == "[" + EncodeItems(v, |v.array_|, depth, lib) + "]" && v.slots == []
  {
    hide EncodeItems, EncodeSlots, EncodeIndexed;
    forall i | 0 <= i < |v.array_|
      ensures !v.array_[i].Nil?
    {
      PlainItem(v, i, depth);
    }
    AllItems(v.array_);
  }

  lemma EncodeObject(v: Value, depth: nat, lib: Lib)
    requires v.Table? && Plain(v, depth) && v.array_ == []
    ensures Encode(v, depth, lib) == "{" + EncodeSlots(v, |v.slots|, depth, lib) + "}"
    ensures forall j :: 0 <= j < |v.slots| ==> !v.slots[j].value.Nil?
  {
    hide EncodeItems, EncodeSlots;
    forall j | 0 <= j < |v.slots|
      ensures !v.slots[j].value.Nil?
    {
      PlainSlot(v, j, depth);
    }
    var fields := EncodeSlots(v, |v.slots|, depth, lib);
    assert "{" + fields + [] + "}" == "{" + fields + "}";
  }

  lemma NotSkipped(u: string)
    requires u != [] && !IsSpace(u[0])
    ensures Skip(u) == u
  {
  }

  lemma ClosesWith(c: char, post: string)
    requires c == ']' || c == '}'
    ensures Expect([c] + post, c) == Ok((), post)
  {
    assert ([c] + post)[1..] == post;
  }

  lemma ObjectBack(v: Value, depth: nat, post: string, lib: Lib)
    requires Reads(lib) && v.Table? && Plain(v, depth) && v.array_ == []
    ensures ParseValue(Encode(v, depth, lib) + post, lib) == Ok(v, post)
    decreases v, 1, 0
  {
    hide *;
    EncodeObject(v, depth, lib);
    if v.slots == [] {
      NoSlots(v, depth, lib);
      ParseEmptyObject(post, lib);
    } else {
      FirstField(v, depth, lib);
      var f := Field(v, 0, depth, lib);
      var rest := FieldsFrom(v, 1, depth, lib) + "}" + post;
      var u := f + rest;
      assert Encode(v, depth, lib) + post == "{" + u by {
        assert "{" + (f + FieldsFrom(v, 1, depth, lib)) + "}" + post ==
               "{" + (f + (FieldsFrom(v, 1, depth, lib) + "}" + post));
      }
      FieldNotEmpty(v, 0, depth, lib);
      QuoteNotSkipped(u);
      assert v.slots[..0] == [];
      FieldsBack(v, 0, depth, post, lib);
      ClosesWith('}', post);
      ParseObjectIs(u, lib);
    }
  }

  lemma QuoteNotSkipped(u: string)
    requires u != [] && u[0] == '"'
    ensures Skip(u) == u
  {
  }

  lemma NoSlots(v: Value, depth: nat, lib: Lib)
    requires v.Table? && v.slots == []
    ensures "{" + EncodeSlots(v, 0, depth, lib) + "}" == "{}"
  {
  }

  /** Inside any text: parsing an encoded value gives the value and stops right behind it. */
  lemma {:induction false} RoundTrip(v: Value, depth: nat, post: string, lib: Lib)
    requires Reads(lib) && Plain(v, depth) && Follows(post)
    ensures ParseValue(Encode(v, depth, lib) + post, lib) == Ok(v, post)
    decreases v, 2, 0
  {
    hide *;
    match v
    case Bool(b) => BoolBack(b, depth, post, lib);
    case Num(n) =>
      NumStarts(v, depth, lib);
      PlainNumber(n, depth);
      NumberBack(n.Floor, post, lib);
    case Str(s) => StrBack(s, depth, post, lib);
    case Table(a, _) => if a == [] { ObjectBack(v, depth, post, lib); } else { ArrayBack(v, depth, post, lib); }
    case Nil => PlainIs(v, depth);
    case Opaque => PlainIs(v, depth);
  }

  lemma PlainNumber(n: real, depth: nat)
    requires Plain(Num(n), depth)
    ensures n.Floor as real == n && -LIMIT < n.Floor < LIMIT
  {
  }

  lemma BoolBack(b: bool, depth: nat, post: string, lib: Lib)
    ensures ParseValue(Encode(Bool(b), depth, lib) + post, lib) == Ok(Bool(b), post)
  {
    hide ParseItems, ParseFields, ParseString;
    var t := (if b then "true" else "false") + post;
    assert Skip(t) == t && (if b then t[4..] else t[5..]) == post;
    assert b ==> "true" <= t;
    assert !b ==> "false" <= t;
  }

  lemma StrBack(s: string, depth: nat, post: string, lib: Lib)
    requires Reads(lib)
    ensures ParseValue(Encode(Str(s), depth, lib) + post, lib) == Ok(Str(s), post)
  {
    hide ParseItems, ParseFields, ParseString, EncodeChars;
    StringBack(s, post, lib);
    var t := EncodeString(s) + post;
    assert t[0] == '"' && Skip(t) == t;
  }

  /** `json.decode(json.encode(v))` is `v`, with nothing left over. */
  lemma DecodeEncode(v: Value, lib: Lib)
    requires Reads(lib) && (Plain(v, 0) || v.Nil?)
    ensures Decode(Encode(v, 0, lib), lib) == Ok(v, [])
  {
    hide *;
    var e := Encode(v, 0, lib);
    assert e + [] == e;
    if v.Nil? {
      NullBack(lib);
    } else {
      FollowsNothing();
      RoundTrip(v, 0, [], lib);
    }
    DecodeIs(e, lib);
  }

  lemma FollowsNothing()
    ensures Follows([])
  {
  }

  lemma NullBack(lib: Lib)
    ensures ParseValue(Encode(Nil, 0, lib), lib) == Ok(Nil, [])
  {
    hide ParseItems, ParseFields, ParseString;
    var t: string := "null";
    assert Skip(t) == t && "null" <= t && t[4..] == [];
  }

  lemma DecodeIs(s: string, lib: Lib)
    requires ParseValue(s, lib).Ok? && ParseValue(s, lib).rest == []
    ensures Decode(s, lib) == Ok(ParseValue(s, lib).value, [])
  {
  }
}
