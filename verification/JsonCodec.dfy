/** The encoder on its string builder and the decoder on its moving position. */
module JsonCodec {
  import opened Json
  import opened TableArray

  // ----- encoder -----

  class StringBuilder {
    var buffer: string

    constructor ()
      ensures buffer == []
    {
      buffer := [];
    }

    /** `sb_append`, `sb_append_char` */
    method Append(s: string)
      modifies this
      ensures buffer == old(buffer) + s
    {
      buffer := buffer + s;
    }
  }

  lemma EncodeCharsIs(s: string, i: nat)
    requires i <= |s|
    ensures EncodeChars(s[i..]) == if i == |s| then [] else EncodeChar(s[i]) + EncodeChars(s[i + 1..])
    ensures s[0..] == s
  {
    if i < |s| {
      assert s[i..][1..] == s[i + 1..];
    }
  }

  lemma Joined(a: string, b: string, c: string)
    ensures a + (b + c) == a + b + c
  {
  }

  /** `encode_string` */
  method WriteString(sb: StringBuilder, s: string)
    modifies sb
    ensures sb.buffer == old(sb.buffer) + EncodeString(s)
  {
    hide EncodeChar, EncodeChars;
    ghost var before := sb.buffer;
    sb.Append("\"");
    ghost var full := sb.buffer + EncodeChars(s);
    EncodeCharsIs(s, 0);
    for i := 0 to |s|
      invariant sb.buffer + EncodeChars(s[i..]) == full
    {
      EncodeCharsIs(s, i);
      Joined(sb.buffer, EncodeChar(s[i]), EncodeChars(s[i + 1..]));
      sb.Append(EncodeChar(s[i]));
    }
    EncodeCharsIs(s, |s|);
    assert sb.buffer + [] == sb.buffer;
    sb.Append("\"");
    Joined(before, "\"", EncodeChars(s));
    Joined(before, "\"" + EncodeChars(s), "\"");
  }

  /** How many values the array part has before its first nil: the counting loop of `encode_table`. */
  method CountItems(a: seq<Value>) returns (n: nat)
    ensures n == FirstNil(a, Nil)
  {
    n := 0;
    assert a[0..] == a;
    while n < |a| && !a[n].Nil?
      invariant n <= |a| && n + FirstNil(a[n..], Nil) == FirstNil(a, Nil)
    {
      assert a[n..][1..] == a[n + 1..];
      n := n + 1;
    }
  }

  method FindKeys(slots: seq<Slot>) returns (has: bool)
    ensures has == HasKeys(slots)
  {
    for i := 0 to |slots|
      invariant forall j :: 0 <= j < i ==> slots[j].value.Nil?
    {
      if !slots[i].value.Nil? {
        return true;
      }
    }
    return false;
  }

  /** `encode_value` */
  method WriteValue(sb: StringBuilder, v: Value, depth: nat, lib: Lib)
    modifies sb
    ensures sb.buffer == old(sb.buffer) + Encode(v, depth, lib)
    decreases v, 2
  {
    hide EncodeString, EncodeNumber, EncodeItems, EncodeSlots, EncodeIndexed;
    match v
    case Nil => sb.Append("null");
    case Bool(b) => sb.Append(if b then "true" else "false");
    case Num(n) => sb.Append(EncodeNumber(n, lib));
    case Str(s) => WriteString(sb, s);
    case Table(_, _) => WriteTable(sb, v, depth, lib);
    case Opaque => sb.Append("null");
  }

  /** `encode_table` */
  method WriteTable(sb: StringBuilder, v: Value, depth: nat, lib: Lib)
    requires v.Table?
    modifies sb
    ensures sb.buffer == old(sb.buffer) + Encode(v, depth, lib)
    decreases v, 1
  {
    hide EncodeItems, EncodeSlots, EncodeIndexed, FirstNil, HasKeys;
    ghost var before := sb.buffer;
    if depth > MAX_DEPTH {
      sb.Append("null");
      return;
    }
    var arrayLen := CountItems(v.array_);
    var hasStringKeys := FindKeys(v.slots);
    if arrayLen > 0 && !hasStringKeys {
      sb.Append("[");
      WriteItems(sb, v, arrayLen, depth, lib);
      sb.Append("]");
      assert before + "[" + EncodeItems(v, arrayLen, depth, lib) + "]" ==
             before + ("[" + EncodeItems(v, arrayLen, depth, lib) + "]");
    } else {
      sb.Append("{");
      var first := WriteSlots(sb, v, depth, lib);
      WriteIndexed(sb, v, arrayLen, first, depth, lib);
      sb.Append("}");
      ghost var a, b := EncodeSlots(v, |v.slots|, depth, lib), EncodeIndexed(v, arrayLen, first, depth, lib);
      assert before + "{" + a + b + "}" == before + ("{" + a + b + "}");
    }
  }

  method WriteItems(sb: StringBuilder, v: Value, n: nat, depth: nat, lib: Lib)
    requires v.Table? && n <= |v.array_|
    modifies sb
    ensures sb.buffer == old(sb.buffer) + EncodeItems(v, n, depth, lib)
    decreases v, 0
  {
    hide Encode;
    ghost var before := sb.buffer;
    for i := 1 to n + 1
      invariant sb.buffer == before + EncodeItems(v, i - 1, depth, lib)
    {
      ghost var items := EncodeItems(v, i - 1, depth, lib);
      if i > 1 {
        sb.Append(",");
      }
      WriteValue(sb, v.array_[i - 1], depth + 1, lib);
      ghost var e := Encode(v.array_[i - 1], depth + 1, lib);
      assert before + items + "," + e == before + (items + "," + e);
      assert before + items + e == before + (items + [] + e);
    }
  }

  /** Writes the keyed fields; `first` says whether there were none. */
  method WriteSlots(sb: StringBuilder, v: Value, depth: nat, lib: Lib) returns (first: bool)
    requires v.Table?
    modifies sb
    ensures sb.buffer == old(sb.buffer) + EncodeSlots(v, |v.slots|, depth, lib)
    ensures first <==> EncodeSlots(v, |v.slots|, depth, lib) == []
    decreases v, 0
  {
    hide Encode, EncodeString;
    ghost var before := sb.buffer;
    first := true;
    for i := 0 to |v.slots|
      invariant sb.buffer == before + EncodeSlots(v, i, depth, lib)
      invariant first <==> EncodeSlots(v, i, depth, lib) == []
    {
      ghost var fields := EncodeSlots(v, i, depth, lib);
      var slot := v.slots[i];
      if !slot.value.Nil? {
        if !first {
          sb.Append(",");
        }
        ghost var comma := if fields != [] then "," else [];
        first := false;
        WriteString(sb, slot.key);
        sb.Append(":");
        assert slot < v;
        WriteValue(sb, slot.value, depth + 1, lib);
        FieldAppended(before, fields, comma, EncodeString(slot.key), Encode(slot.value, depth + 1, lib));
      }
    }
  }

  lemma FieldAppended(before: string, fields: string, comma: string, k: string, e: string)
    ensures before + fields + comma + k + ":" + e == before + (fields + comma + k + ":" + e)
    ensures fields + comma + k + ":" + e != []
  {
  }

  method WriteIndexed(sb: StringBuilder, v: Value, n: nat, none: bool, depth: nat, lib: Lib)
    requires v.Table? && n <= |v.array_|
    modifies sb
    ensures sb.buffer == old(sb.buffer) + EncodeIndexed(v, n, none, depth, lib)
    decreases v, 0
  {
    hide Encode, Decimal;
    ghost var before := sb.buffer;
    var first := none;
    for i := 1 to n + 1
      invariant sb.buffer == before + EncodeIndexed(v, i - 1, none, depth, lib)
      invariant first <==> none && i == 1
    {
      ghost var items := EncodeIndexed(v, i - 1, none, depth, lib);
      ghost var comma := if first then [] else ",";
      if !first {
        sb.Append(",");
      }
      first := false;
      sb.Append("\"" + Decimal(i) + "\"");
      sb.Append(":");
      WriteValue(sb, v.array_[i - 1], depth + 1, lib);
      IndexAppended(before, items, comma, Decimal(i), Encode(v.array_[i - 1], depth + 1, lib));
    }
  }

  lemma IndexAppended(before: string, items: string, comma: string, n: string, e: string)
    ensures before + items + comma + ("\"" + n + "\"") + ":" + e == before + (items + comma + "\"" + n + "\":" + e)
    ensures before + items + ("\"" + n + "\"") + ":" + e == before + (items + [] + "\"" + n + "\":" + e)
  {
    assert "\":" == "\"" + ":";
  }

  /** `json_encode` */
  method EncodeText(v: Value, lib: Lib) returns (text: string)
    ensures text == Encode(v, 0, lib)
  {
    var sb := new StringBuilder();
    WriteValue(sb, v, 0, lib);
    text := sb.buffer;
    assert [] + Encode(v, 0, lib) == Encode(v, 0, lib);
  }

  // ----- decoder -----

  class Parser {
    const json: string
    const lib: Lib
    var pos: nat
    var failed: bool

    constructor (json: string, lib: Lib)
      ensures this.json == json && this.lib == lib && pos == 0 && !failed && Valid()
    {
      this.json := json;
      this.lib := lib;
      pos := 0;
      failed := false;
    }

    ghost predicate Valid()
      reads `pos
    {
      pos <= |json|
    }

    /** The text still to be read. */
    ghost function Rest(): string
      requires Valid()
      reads `pos
    {
      json[pos..]
    }

    /** `skip_whitespace` */
    method SkipWhitespace()
      requires Valid()
      modifies `pos
      ensures Valid() && Rest() == Skip(old(Rest())) && pos >= old(pos)
    {
      while pos < |json| && IsSpace(json[pos])
        invariant Valid() && Skip(Rest()) == Skip(old(Rest())) && pos >= old(pos)
      {
        assert Rest()[1..] == json[pos + 1..];
        pos := pos + 1;
      }
    }

    /** `parse_char` */
    method ReadChar(expected: char) returns (ok: bool)
      requires Valid()
      modifies `pos
      ensures Valid() && pos >= old(pos)
      ensures var r := Expect(old(Rest()), expected);
              ok == r.Ok? && Rest() == if ok then r.rest else Skip(old(Rest()))
      ensures ok ==> pos > old(pos)
    {
      hide Skip;
      SkipWhitespace();
      if pos < |json| && json[pos] == expected {
        assert Rest()[1..] == json[pos + 1..];
        pos := pos + 1;
        return true;
      }
      return false;
    }

    /** `parse_string`: the characters between the quotes, escapes resolved. */
    method ReadString() returns (s: string)
      requires Valid() && !failed
      modifies `pos, `failed
      ensures Valid() && pos >= old(pos)
      ensures var r := ParseString(old(Rest()), lib);
              failed == r.Error? && (r.Ok? ==> s == r.value && Rest() == r.rest && pos > old(pos))
    {
      hide Expect, ParseChars;
      s := [];
      var open := ReadChar('"');
      if !open {
        failed := true;
        return;
      }
      s := ReadChars();
      if failed {
        return;
      }
      var close := ReadChar('"');
      if !close {
        failed := true;
      }
    }

    /** The loop over the characters of a string. */
    method ReadChars() returns (s: string)
      requires Valid() && !failed
      modifies `pos, `failed
      ensures Valid() && pos >= old(pos)
      ensures var r := ParseChars(old(Rest()), lib);
              failed == r.Error? && (r.Ok? ==> s == r.value && Rest() == r.rest)
    {
      hide ParseChars, Utf8, Unescape, After;
      s := [];
      ghost var all := ParseChars(Rest(), lib);
      AfterNothing(all);
      while pos < |json| && json[pos] != '"'
        invariant Valid() && pos >= old(pos) && !failed
        invariant all == After(s, ParseChars(Rest(), lib))
        decreases |json| - pos
      {
        CharsStep(Rest(), lib);
        ghost var rest := Rest();
        var c := json[pos];
        pos := pos + 1;
        if c == '\\' && pos < |json| {
          var esc := json[pos];
          pos := pos + 1;
          if esc == 'u' {
            if pos + 4 > |json| {
              failed := true;
              AfterError(s);
              return;
            }
            var hex := json[pos..pos + 4];
            pos := pos + 4;
            assert rest[2..6] == hex && rest[6..] == Rest();
            AfterOn(s, Utf8(lib.strtol16(hex)), ParseChars(Rest(), lib));
            s := s + Utf8(lib.strtol16(hex));
          } else {
            assert rest[2..] == Rest();
            AfterOn(s, [Unescape(esc)], ParseChars(Rest(), lib));
            s := s + [Unescape(esc)];
          }
        } else {
          assert rest[1..] == Rest();
          AfterOn(s, [c], ParseChars(Rest(), lib));
          s := s + [c];
        }
      }
      CharsEnd(Rest(), lib);
      AfterAll(s, Rest());
    }

    /** `parse_number` */
    method ReadNumber() returns (n: real)
      requires Valid() && Rest() != [] && (Rest()[0] == '-' || IsDigit(Rest()[0]))
      modifies `pos
      ensures Valid() && pos > old(pos)
      ensures var t := old(Rest());
              n == lib.strtod(t[..NumberLength(t)]) && Rest() == t[NumberLength(t)..]
    {
      hide DigitRun, FractionLength, ExponentLength;
      var start := pos;
      ghost var t := Rest();
      NumberStarts(t);
      if json[pos] == '-' {
        pos := pos + 1;
      }
      RestAfter(start, SignLength(t));
      ReadDigits();
      RestAfter(start, pos - start);
      ReadFraction();
      RestAfter(start, pos - start);
      ReadExponent();
      RestAfter(start, NumberLength(t));
      n := lib.strtod(json[start..pos]);
    }

    lemma RestAfter(start: nat, k: nat)
      requires start + k <= |json|
      ensures json[start..][k..] == json[start + k..] && json[start..start + k] == json[start..][..k]
    {
    }

    /** `strncmp` at a position says whether the rest begins with the word. */
    lemma WordAt(start: nat, word: string)
      requires start <= |json|
      ensures word <= json[start..] <==> start + |word| <= |json| && json[start..start + |word|] == word
    {
      if start + |word| <= |json| {
        assert json[start..][..|word|] == json[start..start + |word|];
      }
    }

    method ReadFraction()
      requires Valid()
      modifies `pos
      ensures Valid() && pos == old(pos) + FractionLength(old(Rest()))
    {
      hide DigitRun;
      if pos < |json| && json[pos] == '.' {
        RestAfter(pos, 1);
        pos := pos + 1;
        ReadDigits();
      }
    }

    method ReadExponent()
      requires Valid()
      modifies `pos
      ensures Valid() && pos == old(pos) + ExponentLength(old(Rest()))
    {
      hide DigitRun;
      var start := pos;
      if pos < |json| && (json[pos] == 'e' || json[pos] == 'E') {
        pos := pos + 1;
        if pos < |json| && (json[pos] == '+' || json[pos] == '-') {
          pos := pos + 1;
        }
        RestAfter(start, pos - start);
        ReadDigits();
      }
    }

    method ReadDigits()
      requires Valid()
      modifies `pos
      ensures Valid() && pos == old(pos) + DigitRun(old(Rest()))
    {
      while pos < |json| && IsDigit(json[pos])
        invariant Valid() && pos + DigitRun(Rest()) == old(pos) + DigitRun(old(Rest()))
      {
        assert Rest()[1..] == json[pos + 1..];
        pos := pos + 1;
      }
    }

    /** `parse_array`, at its opening bracket. */
    method ReadArray() returns (v: Value)
      requires Valid() && !failed && Rest() != [] && Rest()[0] == '['
      modifies `pos, `failed
      ensures Valid() && pos >= old(pos)
      ensures var r := ParseValue(old(Rest()), lib);
              failed == r.Error? && (r.Ok? ==> v == r.value && Rest() == r.rest && pos > old(pos))
      decreases |json| - pos, 1
    {
      hide ParseValue, ParseItems, Expect, Skip;
      ghost var t := Rest();
      ExpectNow(t);
      ParseArrayCases(t, lib);
      v := Nil;
      var open := ReadChar('[');
      SkipWhitespace();
      var items := ArrayPart([], 0);
      if pos < |json| && json[pos] != ']' {
        items := ReadItems();
        if failed {
          return;
        }
      }
      var close := ReadChar(']');
      if !close {
        failed := true;
        return;
      }
      v := Table(items.values, []);
    }

    /** The loop over the items of an array. */
    method ReadItems() returns (items: ArrayPart<Value>)
      requires Valid() && !failed
      modifies `pos, `failed
      ensures Valid() && pos >= old(pos)
      ensures var r := ParseItems(old(Rest()), ArrayPart([], 0), 1, lib);
              failed == r.Error? && (r.Ok? ==> items == r.value && Rest() == r.rest)
      decreases |json| - pos, 3
    {
      hide ParseValue, ParseItems, Expect, Skip, Store;
      items := ArrayPart([], 0);
      var index := 1;
      ghost var all := ParseItems(Rest(), items, 1, lib);
      while true
        invariant Valid() && pos >= old(pos) && !failed && index > |items.values|
        invariant all == ParseItems(Rest(), items, index, lib)
        decreases |json| - pos
      {
        ParseItemsCases(Rest(), items, index, lib);
        var val := ReadValue();
        if failed {
          return;
        }
        StoreShort(items, index, val);
        items := Store(items, index, val, Nil);
        index := index + 1;
        var comma := ReadChar(',');
        if !comma {
          break;
        }
      }
    }

    /** `parse_object`, at its opening brace. */
    method ReadObject() returns (v: Value)
      requires Valid() && !failed && Rest() != [] && Rest()[0] == '{'
      modifies `pos, `failed
      ensures Valid() && pos >= old(pos)
      ensures var r := ParseValue(old(Rest()), lib);
              failed == r.Error? && (r.Ok? ==> v == r.value && Rest() == r.rest && pos > old(pos))
      decreases |json| - pos, 1
    {
      hide ParseValue, ParseFields, Expect, Skip;
      ghost var t := Rest();
      ExpectNow(t);
      ParseObjectCases(t, lib);
      v := Nil;
      var open := ReadChar('{');
      SkipWhitespace();
      var fields: seq<Slot> := [];
      if pos < |json| && json[pos] != '}' {
        fields := ReadFields();
        if failed {
          return;
        }
      }
      var close := ReadChar('}');
      if !close {
        failed := true;
        return;
      }
      v := Table([], fields);
    }

    /** The loop over the fields of an object. */
    method ReadFields() returns (slots: seq<Slot>)
      requires Valid() && !failed
      modifies `pos, `failed
      ensures Valid() && pos >= old(pos)
      ensures var r := ParseFields(old(Rest()), [], lib);
              failed == r.Error? && (r.Ok? ==> slots == r.value && Rest() == r.rest)
      decreases |json| - pos, 3
    {
      hide ParseValue, ParseFields, ParseString, Expect, Skip, Put;
      slots := [];
      ghost var all := ParseFields(Rest(), slots, lib);
      while true
        invariant Valid() && pos >= old(pos) && !failed
        invariant all == ParseFields(Rest(), slots, lib)
        decreases |json| - pos
      {
        ParseFieldsCases(Rest(), slots, lib);
        var key := ReadString();
        if failed {
          return;
        }
        var colon := ReadChar(':');
        if !colon {
          failed := true;
          return;
        }
        var val := ReadValue();
        if failed {
          return;
        }
        slots := Put(slots, key, val);
        var comma := ReadChar(',');
        if !comma {
          break;
        }
      }
    }

    /** `parse_value` */
    method ReadValue() returns (v: Value)
      requires Valid() && !failed
      modifies `pos, `failed
      ensures Valid() && pos >= old(pos)
      ensures var r := ParseValue(old(Rest()), lib);
              failed == r.Error? && (r.Ok? ==> v == r.value && Rest() == r.rest && pos > old(pos))
      decreases |json| - pos, 2
    {
      hide ParseItems, ParseFields, ParseString, Expect, Skip, NumberLength, ParseValue;
      v := Nil;
      ParseSkipped(Rest(), lib);
      SkipWhitespace();
      ghost var t := Rest();
      if pos >= |json| {
        failed := true;
        return;
      }
      var c := json[pos];
      if c == '{' {
        v := ReadObject();
        return;
      }
      if c == '[' {
        v := ReadArray();
        return;
      }
      v := ReadScalar();
    }

    /** The part of `parse_value` for strings, numbers and words. */
    method ReadScalar() returns (v: Value)
      requires Valid() && !failed && pos < |json| && json[pos] != '{' && json[pos] != '[' && Skip(Rest()) == Rest()
      modifies `pos, `failed
      ensures Valid() && pos >= old(pos)
      ensures var r := ParseValue(old(Rest()), lib);
              failed == r.Error? && (r.Ok? ==> v == r.value && Rest() == r.rest && pos > old(pos))
    {
      hide ParseItems, ParseFields, ParseString, Expect, Skip, NumberLength, ParseValue;
      v := Nil;
      ghost var t := Rest();
      var c := json[pos];
      ParseScalarCases(t, lib);
      WordAt(pos, "true");
      WordAt(pos, "false");
      WordAt(pos, "null");
      if c == '"' {
        var s := ReadString();
        v := Str(s);
      } else if c == '-' || IsDigit(c) {
        var n := ReadNumber();
        v := Num(n);
      } else if pos + 4 <= |json| && json[pos..pos + 4] == "true" {
        RestAfter(pos, 4);
        pos := pos + 4;
        v := Bool(true);
      } else if pos + 5 <= |json| && json[pos..pos + 5] == "false" {
        RestAfter(pos, 5);
        pos := pos + 5;
        v := Bool(false);
      } else if pos + 4 <= |json| && json[pos..pos + 4] == "null" {
        RestAfter(pos, 4);
        pos := pos + 4;
        v := Nil;
      } else {
        failed := true;
      }
    }
  }

  /** `json_decode` */
  method DecodeText(text: string, lib: Lib) returns (ok: bool, v: Value)
    ensures var r := Decode(text, lib);
            ok == r.Ok? && (ok ==> v == r.value)
  {
    hide ParseValue, Skip;
    var p := new Parser(text, lib);
    assert text[0..] == text;
    v := p.ReadValue();
    if p.failed {
      return false, Nil;
    }
    p.SkipWhitespace();
    if p.pos < |text| {
      return false, Nil;
    }
    return true, v;
  }

  lemma ExpectNow(t: string)
    requires t != [] && !IsSpace(t[0])
    ensures Expect(t, t[0]) == Ok((), t[1..])
  {
  }

  lemma ParseSkipped(s: string, lib: Lib)
    ensures ParseValue(Skip(s), lib) == ParseValue(s, lib)
    ensures Skip(Skip(s)) == Skip(s) && (Skip(s) != [] ==> !IsSpace(Skip(s)[0]))
    ensures Skip(s) == [] ==> ParseValue(s, lib).Error?
  {
    hide ParseItems, ParseFields, ParseString, Expect, NumberLength;
    SkipTwice(s);
  }

  lemma {:induction false} SkipTwice(s: string)
    ensures Skip(Skip(s)) == Skip(s) && (Skip(s) != [] ==> !IsSpace(Skip(s)[0]))
  {
    if s != [] && IsSpace(s[0]) {
      SkipTwice(s[1..]);
    }
  }

  lemma ParseArrayCases(t: string, lib: Lib)
    requires t != [] && t[0] == '['
    ensures var u := Skip(t[1..]);
            var items := if u != []
                         && u[0] != ']' then ParseItems(u, ArrayPart([], 0), 1, lib) else Ok(ArrayPart([], 0), u);
            ParseValue(t, lib) ==
              if items.Error? then Error
              else
                var close := Expect(items.rest, ']');
                if close.Error? then Error else Ok(Table(items.value.values, []), close.rest)
  {
    hide ParseItems, ParseFields, ParseString, Expect, NumberLength;
  }

  lemma ParseObjectCases(t: string, lib: Lib)
    requires t != [] && t[0] == '{'
    ensures var u := Skip(t[1..]);
            var fields := if u != [] && u[0] != '}' then ParseFields(u, [], lib) else Ok([], u);
            ParseValue(t, lib) ==
              if fields.Error? then Error
              else
                var close := Expect(fields.rest, '}');
                if close.Error? then Error else Ok(Table([], fields.value), close.rest)
  {
    hide ParseItems, ParseFields, ParseString, Expect, NumberLength;
  }

  lemma ParseScalarCases(t: string, lib: Lib)
    requires t != [] && Skip(t) == t && t[0] != '[' && t[0] != '{'
    ensures ParseValue(t, lib) ==
      if t[0] == '"' then
        var r := ParseString(t, lib);
        if r.Error? then Error else Ok(Str(r.value), r.rest)
      else if t[0] == '-' || IsDigit(t[0]) then Ok(Num(lib.strtod(t[..NumberLength(t)])), t[NumberLength(t)..])
      else if "true" <= t then Ok(Bool(true), t[4..])
      else if "false" <= t then Ok(Bool(false), t[5..])
      else if "null" <= t then Ok(Nil, t[4..])
      else Error
  {
    hide ParseItems, ParseFields, ParseString, Expect, NumberLength;
  }

  lemma StoreShort(a: ArrayPart<Value>, index: nat, v: Value)
    requires index > |a.values|
    ensures |Store(a, index, v, Nil).values| <= index
  {
  }

  lemma ParseItemsCases(s: string, a: ArrayPart<Value>, index: nat, lib: Lib)
    requires index > |a.values|
    ensures var item := ParseValue(s, lib);
            if item.Error? then ParseItems(s, a, index, lib) == Error
            else
              var b := Store(a, index, item.value, Nil);
              var comma := Expect(item.rest, ',');
              |b.values| <= index &&
              ParseItems(s, a, index, lib) == if comma.Ok? then ParseItems(comma.rest, b, index + 1, lib) else Ok(b, Skip(item.rest))
  {
    hide ParseValue, Expect, Skip;
  }

  lemma ParseFieldsCases(s: string, slots: seq<Slot>, lib: Lib)
    ensures var key := ParseString(s, lib);
            ParseFields(s, slots, lib) ==
              if key.Error? then Error
              else
                var colon := Expect(key.rest, ':');
                if colon.Error? then Error
                else
                  var v := ParseValue(colon.rest, lib);
                  if v.Error? then Error
                  else
                    var set_ := Put(slots, key.value, v.value);
                    var comma := Expect(v.rest, ',');
                    if comma.Ok? then ParseFields(comma.rest, set_, lib) else Ok(set_, Skip(v.rest))
  {
    hide ParseValue, ParseString, Put, Expect, Skip;
  }

  /** What was read so far, followed by the result for the rest. */
  ghost function After(s: string, r: Parsed<string>): Parsed<string> {
    if r.Error? then Error else Ok(s + r.value, r.rest)
  }

  lemma AfterNothing(r: Parsed<string>)
    ensures After([], r) == r
  {
    if r.Ok? {
      assert [] + r.value == r.value;
    }
  }

  lemma AfterError(s: string)
    ensures After(s, Error) == Error
  {
  }

  lemma AfterOn(s: string, c: string, r: Parsed<string>)
    ensures After(s, After(c, r)) == After(s + c, r)
  {
    if r.Ok? {
      assert s + (c + r.value) == s + c + r.value;
    }
  }

  lemma AfterAll(s: string, rest: string)
    ensures After(s, Ok([], rest)) == Ok(s, rest)
  {
    assert s + [] == s;
  }

  lemma CharsStep(s: string, lib: Lib)
    requires s != [] && s[0] != '"'
    ensures ParseChars(s, lib) ==
      if s[0] == '\\' && |s| > 1 then
        if s[1] == 'u' then
          if |s| < 6 then Error else After(Utf8(lib.strtol16(s[2..6])), ParseChars(s[6..], lib))
        else After([Unescape(s[1])], ParseChars(s[2..], lib))
      else After([s[0]], ParseChars(s[1..], lib))
  {
  }

  lemma CharsEnd(s: string, lib: Lib)
    requires s == [] || s[0] == '"'
    ensures ParseChars(s, lib) == Ok([], s)
  {
  }
}
