/** Unpacking what was packed gives it back, and uses up every byte. */
module BinaryRoundTrip {
  import opened Bytes
  import opened TableArray
  import opened BinaryFormat
  import opened Options

  /** The bytes of a value that can be packed. */
  ghost function Packed(v: Value, depth: nat, lib: Lib): seq<Byte> {
    match Pack(v, depth, true, lib)
    case Some(bytes) => bytes
    case None => []
  }

  /** The value a key is packed as: a number, or the key itself. */
  ghost function Keyed(k: Key, lib: Lib): Value {
    match KeyValue(k, lib)
    case Some(v) => v
    case None => Nil
  }

  /** The items from `i` on, each after its index. */
  ghost function ItemsFrom(v: Value, i: nat, depth: nat, lib: Lib): seq<Byte>
    requires v.Table? && i <= |v.array_|
    decreases |v.array_| - i
  {
    if i == |v.array_| then []
    else Le32((i + 1) % 0x1_0000_0000) + Packed(v.array_[i], depth + 1, lib) + ItemsFrom(v, i + 1, depth, lib)
  }

  /** The slots from `i` on, key and value. */
  ghost function SlotsFrom(v: Value, i: nat, depth: nat, lib: Lib): seq<Byte>
    requires v.Table? && i <= |v.slots|
    decreases |v.slots| - i
  {
    if i == |v.slots| then []
    else PackScalar(Keyed(v.slots[i].key, lib)) + Packed(v.slots[i].value, depth + 1, lib) + SlotsFrom(v, i + 1, depth, lib)
  }

  lemma PlainItem(v: Value, i: nat, depth: nat, lib: Lib)
    requires v.Table? && Plain(v, depth, lib) && i < |v.array_|
    ensures Plain(v.array_[i], depth + 1, lib) && !v.array_[i].Nil? && !v.array_[i].Opaque? && v.array_[i] < v
    ensures |v.array_| < 0x8000_0000 && depth <= MAX_DEPTH
  {
    PlainIs(v.array_[i], depth + 1, lib);
  }

  lemma PlainSlot(v: Value, i: nat, depth: nat, lib: Lib)
    requires v.Table? && Plain(v, depth, lib) && i < |v.slots|
    ensures var slot := v.slots[i];
            && Plain(slot.value, depth + 1, lib) && !slot.value.Nil? && !slot.value.Opaque? && slot.value < v
            && KeyPlain(slot.key, |v.array_|, lib) && KeyValue(slot.key, lib) == Some(Keyed(slot.key, lib))
    ensures forall j :: 0 <= j < i ==> v.slots[j].key != v.slots[i].key
    ensures depth + 1 <= MAX_DEPTH
  {
    assert SlotPlain(v, i, depth, lib);
    assert v.slots[i] < v;
    PlainIs(v.slots[i].value, depth + 1, lib);
  }

  lemma PlainIs(v: Value, depth: nat, lib: Lib)
    requires Plain(v, depth, lib)
    ensures depth <= MAX_DEPTH && !v.Opaque?
    ensures v.Table? ==> |v.array_| < 0x8000_0000 && |v.slots| < 0x8000_0000
  {
  }

  lemma Join3(a: seq<Byte>, b: seq<Byte>, c: seq<Byte>, d: seq<Byte>)
    ensures a + (b + c + d) == a + b + c + d
  {
  }

  // ----- packing succeeds, and writes items and slots in order -----

  lemma PackItemsIs(v: Value, n: nat, depth: nat, lib: Lib)
    requires v.Table? && 0 < n <= |v.array_| && !v.array_[n - 1].Opaque?
    requires PackItems(v, n - 1, depth, lib).Some? && Pack(v.array_[n - 1], depth + 1, true, lib).Some?
    ensures var before := PackItems(v, n - 1, depth, lib).value;
            PackItems(v, n, depth, lib)
            == Some(Counted(before.count + 1, before.bytes + Le32(n % 0x1_0000_0000) + Packed(v.array_[n - 1], depth + 1, lib)))
  {
    hide Pack;
  }

  lemma {:induction false} ItemsPacked(v: Value, n: nat, depth: nat, lib: Lib)
    requires v.Table? && Plain(v, depth, lib) && n <= |v.array_|
    ensures var r := PackItems(v, n, depth, lib);
            r.Some? && r.value.count == n && r.value.bytes + ItemsFrom(v, n, depth, lib) == ItemsFrom(v, 0, depth, lib)
    decreases v, 0, n
  {
    hide Pack, Plain, Packed;
    if n == 0 {
      assert [] + ItemsFrom(v, 0, depth, lib) == ItemsFrom(v, 0, depth, lib);
    } else {
      ItemsPacked(v, n - 1, depth, lib);
      PlainItem(v, n - 1, depth, lib);
      PackSucceeds(v.array_[n - 1], depth + 1, lib);
      PackItemsIs(v, n, depth, lib);
      Join3(PackItems(v, n - 1, depth, lib).value.bytes, Le32(n % 0x1_0000_0000), Packed(v.array_[n - 1], depth + 1, lib),
            ItemsFrom(v, n, depth, lib));
    }
  }

  lemma PackSlotsIs(v: Value, n: nat, depth: nat, lib: Lib)
    requires v.Table? && 0 < n <= |v.slots| && depth + 1 <= MAX_DEPTH
    requires var slot := v.slots[n - 1];
             && !slot.value.Nil? && !slot.value.Opaque? && KeyValue(slot.key, lib) == Some(Keyed(slot.key, lib))
             && Pack(slot.value, depth + 1, true, lib).Some?
    requires PackSlots(v, n - 1, depth, lib).Some?
    ensures var before := PackSlots(v, n - 1, depth, lib).value;
            PackSlots(v, n, depth, lib)
            == Some(Counted(before.count + 1, before.bytes + PackScalar(Keyed(v.slots[n - 1].key, lib)) + Packed(v.slots[n - 1].value, depth + 1, lib)))
  {
    hide Pack, PackScalar;
  }

  lemma {:induction false} SlotsPacked(v: Value, n: nat, depth: nat, lib: Lib)
    requires v.Table? && Plain(v, depth, lib) && n <= |v.slots|
    ensures var r := PackSlots(v, n, depth, lib);
            r.Some? && r.value.count == n && r.value.bytes + SlotsFrom(v, n, depth, lib) == SlotsFrom(v, 0, depth, lib)
    decreases v, 0, n
  {
    hide Pack, Plain, Packed, PackScalar;
    if n == 0 {
      assert [] + SlotsFrom(v, 0, depth, lib) == SlotsFrom(v, 0, depth, lib);
    } else {
      SlotsPacked(v, n - 1, depth, lib);
      PlainSlot(v, n - 1, depth, lib);
      PackSucceeds(v.slots[n - 1].value, depth + 1, lib);
      PackSlotsIs(v, n, depth, lib);
      Join3(PackSlots(v, n - 1, depth, lib).value.bytes, PackScalar(Keyed(v.slots[n - 1].key, lib)), Packed(v.slots[n - 1].value, depth + 1, lib),
            SlotsFrom(v, n, depth, lib));
    }
  }

  lemma {:induction false} NoHoles(a: seq<Value>)
    requires forall i :: 0 <= i < |a| ==> !a[i].Nil?
    ensures FirstNil(a, Nil) == |a|
    decreases |a|
  {
    if a != [] { NoHoles(a[1..]); }
  }

  /** The whole table: tag, count, items, count, slots. */
  lemma TablePacked(v: Value, depth: nat, lib: Lib)
    requires v.Table? && Plain(v, depth, lib)
    ensures Pack(v, depth, true, lib)
            == Some([TAG_TABLE] + Le32(|v.array_| % 0x1_0000_0000) + ItemsFrom(v, 0, depth, lib)
                    + Le32(|v.slots| % 0x1_0000_0000) + SlotsFrom(v, 0, depth, lib))
    decreases v, 1, 0
  {
    hide Plain, PackItems, PackSlots, ItemsFrom, SlotsFrom;
    PlainIs(v, depth, lib);
    forall i | 0 <= i < |v.array_|
      ensures !v.array_[i].Nil?
    {
      PlainItem(v, i, depth, lib);
    }
    NoHoles(v.array_);
    ItemsPacked(v, |v.array_|, depth, lib);
    SlotsPacked(v, |v.slots|, depth, lib);
    FromEnd(v, depth, lib);
    var items := PackItems(v, |v.array_|, depth, lib).value.bytes;
    var fields := PackSlots(v, |v.slots|, depth, lib).value.bytes;
    assert items + [] == items && fields + [] == fields;
  }

  lemma FromEnd(v: Value, depth: nat, lib: Lib)
    requires v.Table?
    ensures ItemsFrom(v, |v.array_|, depth, lib) == [] && SlotsFrom(v, |v.slots|, depth, lib) == []
  {
  }

  lemma {:induction false} PackSucceeds(v: Value, depth: nat, lib: Lib)
    requires Plain(v, depth, lib)
    ensures Pack(v, depth, true, lib) == Some(Packed(v, depth, lib))
    decreases v, 2, 0
  {
    hide Plain, PackTable;
    PlainIs(v, depth, lib);
    if v.Table? {
      TablePacked(v, depth, lib);
    }
  }

  // ----- reading back -----

  lemma Le32Back(n: nat, rest: seq<Byte>)
    requires n < 0x1_0000_0000
    ensures ReadLe32(Le32(n % 0x1_0000_0000) + rest) == Ok(n, rest)
  {
    hide Le32, ReadU32;
    var s := Le32(n % 0x1_0000_0000) + rest;
    assert s[0..4] == Le32(n % 0x1_0000_0000) && s[4..] == rest;
    Read32Back(s, 0, n);
  }

  lemma StrBack(k: seq<Byte>, rest: seq<Byte>, depth: nat, lib: Lib)
    requires |k| < 0x8000_0000
    ensures Unpack(PackScalar(Str(k)) + rest, depth, lib) == Ok(Str(k), rest)
  {
    hide Le32, ReadLe32, UnpackTable;
    var s := PackScalar(Str(k)) + rest;
    assert s == [TAG_STRING] + (Le32(|k| % 0x1_0000_0000) + (k + rest));
    assert s[1..] == Le32(|k| % 0x1_0000_0000) + (k + rest);
    Le32Back(|k|, k + rest);
    assert (k + rest)[..|k|] == k && (k + rest)[|k|..] == rest;
  }

  lemma NumBack(bits: U64, rest: seq<Byte>, depth: nat, lib: Lib)
    ensures Unpack([TAG_NUMBER] + Le64(bits) + rest, depth, lib) == Ok(Num(bits), rest)
  {
    hide Le64, ReadU64, UnpackTable;
    var s := [TAG_NUMBER] + Le64(bits) + rest;
    var t := s[1..];
    assert t == Le64(bits) + rest;
    assert t[0..8] == Le64(bits) && t[8..] == rest;
    Read64Back(t, 0, bits);
  }

  lemma TagBack(tag: Byte, rest: seq<Byte>, depth: nat, lib: Lib)
    requires tag == TAG_NIL || tag == TAG_FALSE || tag == TAG_TRUE
    ensures Unpack([tag] + rest, depth, lib)
            == Ok(if tag == TAG_NIL then Nil else Bool(tag == TAG_TRUE), rest)
  {
    hide UnpackTable;
    assert ([tag] + rest)[1..] == rest;
  }

  lemma UnpackItemsIs(s: seq<Byte>, count: nat, part: ArrayPart<Value>, depth: nat, lib: Lib)
    requires count > 0 && ReadLe32(s).Ok? && Unpack(ReadLe32(s).rest, depth + 1, lib).Ok?
    ensures var idx := ReadLe32(s);
            var val := Unpack(idx.rest, depth + 1, lib);
            UnpackItems(s, count, part, depth, lib)
            == UnpackItems(val.rest, count - 1, if idx.value > 0 then Store(part, Signed(idx.value), val.value, Nil) else part, depth, lib)
  {
    hide Unpack, ReadLe32, Store;
  }

  lemma {:induction false} ItemsBack(v: Value, i: nat, part: ArrayPart<Value>, post: seq<Byte>, depth: nat, lib: Lib)
    requires v.Table? && Plain(v, depth, lib) && i <= |v.array_|
    requires part.values == v.array_[..i] && part.capacity == CapacityFor(i)
    ensures var r := UnpackItems(ItemsFrom(v, i, depth, lib) + post, |v.array_| - i, part, depth, lib);
            r.Ok? && r.value.values == v.array_ && r.value.capacity == CapacityFor(|v.array_|) && r.rest == post
    decreases v, 0, |v.array_| - i
  {
    hide *;
    if i == |v.array_| {
      FromEnd(v, depth, lib);
      assert [] + post == post;
      assert v.array_[..i] == v.array_;
      NoItems(post, part, depth, lib);
    } else {
      var item, rest := v.array_[i], ItemsFrom(v, i + 1, depth, lib) + post;
      var s := ItemsFrom(v, i, depth, lib) + post;
      ItemsFromIs(v, i, post, depth, lib);
      PlainItem(v, i, depth, lib);
      Le32Back(i + 1, Packed(item, depth + 1, lib) + rest);
      RoundTrip(item, depth + 1, rest, lib);
      UnpackItemsIs(s, |v.array_| - i, part, depth, lib);
      SignedSmall(i + 1);
      StoreNext(part, item, Nil);
      CapacityNext(part, item, i);
      var next := Store(part, i + 1, item, Nil);
      assert next.values == v.array_[..i + 1];
      ItemsBack(v, i + 1, next, post, depth, lib);
    }
  }

  lemma CapacityNext(part: ArrayPart<Value>, item: Value, i: nat)
    requires |part.values| == i && part.capacity == CapacityFor(i) && item != Nil
    ensures Store(part, i + 1, item, Nil).capacity == CapacityFor(i + 1) && CapacityFor(0) == 0
  {
  }

  lemma SignedSmall(n: nat)
    requires n < 0x8000_0000
    ensures Signed(n) == n
  {
  }

  lemma NoItems(post: seq<Byte>, part: ArrayPart<Value>, depth: nat, lib: Lib)
    ensures UnpackItems(post, 0, part, depth, lib) == Ok(part, post)
  {
  }

  lemma ItemsFromIs(v: Value, i: nat, post: seq<Byte>, depth: nat, lib: Lib)
    requires v.Table? && i < |v.array_|
    ensures ItemsFrom(v, i, depth, lib) + post
            == Le32((i + 1) % 0x1_0000_0000) + (Packed(v.array_[i], depth + 1, lib) + (ItemsFrom(v, i + 1, depth, lib) + post))
  {
    hide Le32, Packed;
    var a, b, c := Le32((i + 1) % 0x1_0000_0000), Packed(v.array_[i], depth + 1, lib), ItemsFrom(v, i + 1, depth, lib);
    assert a + b + c + post == a + (b + (c + post));
  }

  lemma SlotsFromIs(v: Value, i: nat, post: seq<Byte>, depth: nat, lib: Lib)
    requires v.Table? && i < |v.slots|
    ensures SlotsFrom(v, i, depth, lib) + post
            == PackScalar(Keyed(v.slots[i].key, lib)) + (Packed(v.slots[i].value, depth + 1, lib) + (SlotsFrom(v, i + 1, depth, lib) + post))
  {
    hide PackScalar, Packed;
    var a, b, c := PackScalar(Keyed(v.slots[i].key, lib)), Packed(v.slots[i].value, depth + 1, lib), SlotsFrom(v, i + 1, depth, lib);
    assert a + b + c + post == a + (b + (c + post));
  }

  lemma {:induction false} PutNew(slots: seq<Slot>, key: Key, v: Value)
    requires forall i :: 0 <= i < |slots| ==> slots[i].key != key
    ensures Put(slots, key, v) == slots + [Slot(key, v)]
    decreases |slots|
  {
    if slots != [] { PutNew(slots[1..], key, v); }
  }

  lemma UnpackSlotsIs(s: seq<Byte>, count: nat, t: Value, capacity: nat, depth: nat, lib: Lib)
    requires t.Table? && count > 0 && Unpack(s, depth + 1, lib).Ok?
    requires Unpack(Unpack(s, depth + 1, lib).rest, depth + 1, lib).Ok?
    ensures var key := Unpack(s, depth + 1, lib);
            var val := Unpack(key.rest, depth + 1, lib);
            var (next, c) := SetKey(t, capacity, key.value, val.value, lib);
            UnpackSlots(s, count, t, capacity, depth, lib) == UnpackSlots(val.rest, count - 1, next, c, depth, lib)
  {
    hide Unpack, SetKey;
  }

  /** A packed key is read back, and sets the slot it came from. */
  lemma KeyBack(k: Key, a: seq<Value>, slots: seq<Slot>, v: Value, rest: seq<Byte>, depth: nat, lib: Lib)
    requires KeyPlain(k, |a|, lib)
    ensures Unpack(PackScalar(Keyed(k, lib)) + rest, depth, lib) == Ok(Keyed(k, lib), rest)
    ensures SetKey(Table(a, slots), CapacityFor(|a|), Keyed(k, lib), v, lib)
            == (Table(a, Put(slots, k, v)), CapacityFor(|a|))
  {
    hide Unpack, Le64, Le32, Put, CapacityFor;
    if IsNumberKey(k) {
      NumBack(Keyed(k, lib).bits, rest, depth, lib);
    } else {
      StrBack(k, rest, depth, lib);
    }
  }

  lemma {:induction false} SlotsBack(v: Value, i: nat, post: seq<Byte>, depth: nat, lib: Lib)
    requires v.Table? && Plain(v, depth, lib) && i <= |v.slots|
    ensures UnpackSlots(SlotsFrom(v, i, depth, lib) + post, |v.slots| - i, Table(v.array_, v.slots[..i]),
                        CapacityFor(|v.array_|), depth, lib) == Ok(v, post)
    decreases v, 0, |v.slots| - i
  {
    hide *;
    var capacity := CapacityFor(|v.array_|);
    if i == |v.slots| {
      FromEnd(v, depth, lib);
      assert [] + post == post;
      assert v.slots[..i] == v.slots;
      assert v == Table(v.array_, v.slots);
      NoMoreSlots(post, v, capacity, depth, lib);
    } else {
      var slot, rest := v.slots[i], SlotsFrom(v, i + 1, depth, lib) + post;
      var s := SlotsFrom(v, i, depth, lib) + post;
      SlotsFromIs(v, i, post, depth, lib);
      PlainSlot(v, i, depth, lib);
      KeyBack(slot.key, v.array_, v.slots[..i], slot.value, Packed(slot.value, depth + 1, lib) + rest, depth + 1, lib);
      RoundTrip(slot.value, depth + 1, rest, lib);
      UnpackSlotsIs(s, |v.slots| - i, Table(v.array_, v.slots[..i]), capacity, depth, lib);
      PutNew(v.slots[..i], slot.key, slot.value);
      assert slot == Slot(slot.key, slot.value);
      assert v.slots[..i] + [slot] == v.slots[..i + 1];
      SlotsBack(v, i + 1, post, depth, lib);
    }
  }

  lemma NoMoreSlots(post: seq<Byte>, t: Value, capacity: nat, depth: nat, lib: Lib)
    requires t.Table?
    ensures UnpackSlots(post, 0, t, capacity, depth, lib) == Ok(t, post)
  {
  }

  lemma UnpackTableIs(s: seq<Byte>, depth: nat, lib: Lib)
    requires depth <= MAX_DEPTH && ReadLe32(s).Ok?
    requires var items := UnpackItems(ReadLe32(s).rest, ReadLe32(s).value, ArrayPart([], 0), depth, lib);
             items.Ok? && ReadLe32(items.rest).Ok?
    ensures var items := UnpackItems(ReadLe32(s).rest, ReadLe32(s).value, ArrayPart([], 0), depth, lib);
            var count := ReadLe32(items.rest);
            Unpack([TAG_TABLE] + s, depth, lib)
            == UnpackSlots(count.rest, count.value, Table(items.value.values, []), items.value.capacity, depth, lib)
  {
    hide UnpackItems, UnpackSlots, ReadLe32;
    assert ([TAG_TABLE] + s)[1..] == s;
  }

  lemma TableBack(v: Value, depth: nat, post: seq<Byte>, lib: Lib)
    requires v.Table? && Plain(v, depth, lib)
    ensures Unpack(Packed(v, depth, lib) + post, depth, lib) == Ok(v, post)
    decreases v, 1, 0
  {
    hide *;
    PlainIs(v, depth, lib);
    PackSucceeds(v, depth, lib);
    TablePacked(v, depth, lib);
    var a, b := ItemsFrom(v, 0, depth, lib), SlotsFrom(v, 0, depth, lib);
    var tail := Le32(|v.slots| % 0x1_0000_0000) + (b + post);
    var s := Le32(|v.array_| % 0x1_0000_0000) + (a + tail);
    Regroup(Le32(|v.array_| % 0x1_0000_0000), a, Le32(|v.slots| % 0x1_0000_0000), b, post);
    Le32Back(|v.array_|, a + tail);
    assert v.array_[..0] == [];
    NoCapacity();
    ItemsBack(v, 0, ArrayPart([], 0), tail, depth, lib);
    Le32Back(|v.slots|, b + post);
    UnpackTableIs(s, depth, lib);
    assert v.slots[..0] == [];
    SlotsBack(v, 0, post, depth, lib);
  }

  lemma NoCapacity()
    ensures CapacityFor(0) == 0
  {
  }

  lemma Regroup(a: seq<Byte>, b: seq<Byte>, c: seq<Byte>, d: seq<Byte>, post: seq<Byte>)
    ensures [TAG_TABLE] + a + b + c + d + post == [TAG_TABLE] + (a + (b + (c + (d + post))))
  {
  }

  /** Inside any bytes: unpacking a packed value gives the value and stops right behind it. */
  lemma {:induction false} RoundTrip(v: Value, depth: nat, post: seq<Byte>, lib: Lib)
    requires Plain(v, depth, lib)
    ensures Pack(v, depth, true, lib) == Some(Packed(v, depth, lib))
    ensures Unpack(Packed(v, depth, lib) + post, depth, lib) == Ok(v, post)
    decreases v, 2, 0
  {
    hide *;
    PackSucceeds(v, depth, lib);
    if v.Table? {
      TableBack(v, depth, post, lib);
    } else {
      ScalarBack(v, depth, post, lib);
    }
  }

  lemma ScalarBack(v: Value, depth: nat, post: seq<Byte>, lib: Lib)
    requires Plain(v, depth, lib) && !v.Table?
    ensures Unpack(Packed(v, depth, lib) + post, depth, lib) == Ok(v, post)
  {
    hide Unpack, Le64, Le32, PackTable;
    match v
    case Nil => TagBack(TAG_NIL, post, depth, lib);
    case Bool(b) => TagBack(if b then TAG_TRUE else TAG_FALSE, post, depth, lib);
    case Num(bits) => NumBack(bits, post, depth, lib);
    case Str(s) => StrBack(s, post, depth, lib);
  }

  /** `binary.unpack(binary.pack(v))` is `v`, with no byte left over. */
  lemma UnpackPack(v: Value, lib: Lib)
    requires Plain(v, 0, lib)
    ensures var bytes := Pack(v, 0, false, lib);
            bytes.Some? && UnpackAll(bytes.value, lib) == Some(v)
  {
    hide Unpack, Pack, Plain;
    RoundTrip(v, 0, [], lib);
    assert Packed(v, 0, lib) + [] == Packed(v, 0, lib);
    StrictOrNot(v, lib);
  }

  /** The bytes of values without parts: a tag, then a number's eight bytes, or a string's length and its bytes. */
  lemma ScalarBytes(v: Value, strict: bool, lib: Lib)
    ensures v.Nil? ==> Pack(v, 0, strict, lib) == Some([0])
    ensures v.Bool? ==> Pack(v, 0, strict, lib) == Some([if v.b then 2 else 1])
    ensures v.Num? ==>
              Pack(v, 0, strict, lib) == Some([3] + Le32(v.bits % 0x1_0000_0000) + Le32(v.bits / 0x1_0000_0000))
    ensures v.Str? && |v.s| < 0x1_0000_0000 ==>
              Pack(v, 0, strict, lib)
              == Some([4] + [|v.s| % 0x100, |v.s| / 0x100 % 0x100, |v.s| / 0x1_0000 % 0x100, |v.s| / 0x100_0000] + v.s)
  {
    hide Le32, PackTable;
    if v.Num? {
      LowHalfFirst(v.bits);
      assert [3] + (Le32(v.bits % 0x1_0000_0000) + Le32(v.bits / 0x1_0000_0000))
             == [3] + Le32(v.bits % 0x1_0000_0000) + Le32(v.bits / 0x1_0000_0000);
    }
    if v.Str? && |v.s| < 0x1_0000_0000 { LowestFirst(|v.s|); }
  }

  lemma StrictOrNot(v: Value, lib: Lib)
    requires Plain(v, 0, lib)
    ensures Pack(v, 0, false, lib) == Pack(v, 0, true, lib)
  {
    hide PackTable;
  }
}
