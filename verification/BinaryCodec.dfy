/** The writer, which patches its counts in afterwards, and the reader with its moving position. */
module BinaryCodec {
  import opened Bytes
  import opened TableArray
  import opened BinaryFormat
  import opened Options

  // ----- writer -----

  class BinWriter {
    var data: seq<Byte>

    constructor ()
      ensures data == []
    {
      data := [];
    }

    method WriteByte(b: Byte)
      modifies this
      ensures data == old(data) + [b]
    {
      data := data + [b];
    }

    method WriteU32(v: U32)
      modifies this
      ensures data == old(data) + Le32(v)
    {
      data := data + [v % 0x100, v / 0x100 % 0x100, v / 0x1_0000 % 0x100, v / 0x100_0000 % 0x100];
      Le32Bytes(v);
    }

    method WriteBytes(bytes: seq<Byte>)
      modifies this
      ensures data == old(data) + bytes
    {
      data := data + bytes;
    }

    /** `bw_patch_u32`: overwrites four bytes written before, and refuses any other offset. */
    method PatchU32(off: nat, v: U32) returns (ok: bool)
      modifies this
      ensures ok <==> off + 4 <= old(|data|)
      ensures data == if ok then old(data)[..off] + Le32(v) + old(data)[off + 4..] else old(data)
    {
      if off + 4 > |data| {
        return false;
      }
      ghost var before := data;
      data := data[off := v % 0x100][off + 1 := v / 0x100 % 0x100][off + 2 := v / 0x1_0000 % 0x100][off + 3 := v / 0x100_0000 % 0x100];
      Le32Bytes(v);
      assert data[..off] == before[..off] && data[off + 4..] == before[off + 4..];
      assert data[off..off + 4] == Le32(v);
      assert data == data[..off] + data[off..off + 4] + data[off + 4..];
      return true;
    }

    /** `serialize_value`; on failure what was written is of no use. */
    method SerializeValue(v: Value, depth: nat, strict: bool, lib: Lib) returns (ok: bool)
      modifies this
      ensures var r := Pack(v, depth, strict, lib);
              ok == r.Some? && (ok ==> data == old(data) + r.value)
      decreases v, 2
    {
      hide PackTable, Le32, Le64;
      ghost var before := data;
      if depth > MAX_DEPTH {
        if strict { return false; }
        WriteByte(TAG_NIL);
        return true;
      }
      ok := true;
      match v
      case Nil => WriteByte(TAG_NIL);
      case Bool(b) => WriteByte(if b then TAG_TRUE else TAG_FALSE);
      case Num(bits) =>
        WriteByte(TAG_NUMBER);
        WriteBytes(Le64(bits));
        assert before + [TAG_NUMBER] + Le64(bits) == before + ([TAG_NUMBER] + Le64(bits));
      case Str(s) =>
        WriteByte(TAG_STRING);
        WriteU32(|s| % 0x1_0000_0000);
        WriteBytes(s);
        assert before + [TAG_STRING] + Le32(|s| % 0x1_0000_0000) + s ==
               before + ([TAG_STRING] + Le32(|s| % 0x1_0000_0000) + s);
      case Opaque =>
        if strict { return false; }
        WriteByte(TAG_NIL);
      case Table(_, _) =>
        ok := SerializeTable(v, depth, lib);
    }

    /** `serialize_table`: both counts are written as zero and patched when the entries are out. */
    method SerializeTable(v: Value, depth: nat, lib: Lib) returns (ok: bool)
      requires v.Table?
      modifies this
      ensures var r := PackTable(v, depth, lib);
              ok == r.Some? && (ok ==> data == old(data) + r.value)
      decreases v, 1
    {
      hide PackItems, PackSlots, FirstNil, Le32;
      ghost var before := data;
      WriteByte(TAG_TABLE);
      var arrCountPos := |data|;
      WriteU32(0);
      var arrCount: nat;
      ok, arrCount := SerializeItems(v, depth, lib);
      if !ok { return; }
      ghost var items := PackItems(v, FirstNil(v.array_, Nil), depth, lib).value;
      Patched(before + [TAG_TABLE], Le32(0), items.bytes);
      ok := PatchU32(arrCountPos, arrCount % 0x1_0000_0000);
      if !ok { return; }
      ghost var half := before + [TAG_TABLE] + Le32(arrCount % 0x1_0000_0000) + items.bytes;
      var hashCountPos := |data|;
      WriteU32(0);
      var hashCount: nat;
      ok, hashCount := SerializeSlots(v, depth, lib);
      if !ok { return; }
      ghost var fields := PackSlots(v, |v.slots|, depth, lib).value;
      Patched(half, Le32(0), fields.bytes);
      ok := PatchU32(hashCountPos, hashCount % 0x1_0000_0000);
      if !ok { return; }
      TableAppended(before, Le32(arrCount % 0x1_0000_0000), items.bytes, Le32(hashCount % 0x1_0000_0000), fields.bytes);
    }

    /** The loop over the array part, up to its first nil. */
    method SerializeItems(v: Value, depth: nat, lib: Lib) returns (ok: bool, count: nat)
      requires v.Table?
      modifies this
      ensures var r := PackItems(v, FirstNil(v.array_, Nil), depth, lib);
              ok == r.Some? && (ok ==> count == r.value.count && data == old(data) + r.value.bytes)
      decreases v, 0
    {
      hide Pack, Le32, PackItems;
      ghost var before := data;
      ghost var n := FirstNil(v.array_, Nil);
      count := 0;
      var i := 0;
      ItemsStart(v, depth, lib);
      assert before + [] == before && v.array_[0..] == v.array_;
      while i < |v.array_| && !v.array_[i].Nil?
        invariant 0 <= i <= |v.array_| && i + FirstNil(v.array_[i..], Nil) == n
        invariant var r := PackItems(v, i, depth, lib);
                  r.Some? && count == r.value.count && data == before + r.value.bytes
      {
        assert v.array_[i..][1..] == v.array_[i + 1..];
        ItemsNext(v, i, depth, lib);
        ghost var sofar := PackItems(v, i, depth, lib).value.bytes;
        if !v.array_[i].Opaque? {
          WriteU32((i + 1) % 0x1_0000_0000);
          var packed := SerializeValue(v.array_[i], depth + 1, true, lib);
          if !packed {
            ItemsFail(v, i + 1, n, depth, lib);
            return false, 0;
          }
          count := count + 1;
          Appended(before, sofar, Le32((i + 1) % 0x1_0000_0000), Pack(v.array_[i], depth + 1, true, lib).value);
        }
        i := i + 1;
      }
      ok := true;
    }

    /** The loop over the slots of the hash part. */
    method SerializeSlots(v: Value, depth: nat, lib: Lib) returns (ok: bool, count: nat)
      requires v.Table?
      modifies this
      ensures var r := PackSlots(v, |v.slots|, depth, lib);
              ok == r.Some? && (ok ==> count == r.value.count && data == old(data) + r.value.bytes)
      decreases v, 0
    {
      hide Pack, Le32, PackSlots, KeyValue, PackScalar;
      ghost var before := data;
      count := 0;
      SlotsStart(v, depth, lib);
      assert before + [] == before;
      for i := 0 to |v.slots|
        invariant var r := PackSlots(v, i, depth, lib);
                  r.Some? && count == r.value.count && data == before + r.value.bytes
      {
        SlotsNext(v, i, depth, lib);
        ghost var sofar := PackSlots(v, i, depth, lib).value.bytes;
        var slot := v.slots[i];
        var key := KeyValue(slot.key, lib);
        if !slot.value.Nil? && key.Some? && !slot.value.Opaque? {
          assert slot < v;
          var keyPacked := SerializeKey(key.value, depth + 1);
          if !keyPacked {
            SlotsFail(v, i + 1, |v.slots|, depth, lib);
            return false, 0;
          }
          var packed := SerializeValue(slot.value, depth + 1, true, lib);
          if !packed {
            SlotsFail(v, i + 1, |v.slots|, depth, lib);
            return false, 0;
          }
          count := count + 1;
          Appended(before, sofar, PackScalar(key.value), Pack(slot.value, depth + 1, true, lib).value);
        }
      }
      ok := true;
    }

    /** `serialize_value` on a key, which is a string or a number. */
    method SerializeKey(key: Value, depth: nat) returns (ok: bool)
      requires key.Str? || key.Num?
      modifies this
      ensures ok <==> depth <= MAX_DEPTH
      ensures ok ==> data == old(data) + PackScalar(key)
    {
      hide Le32, Le64;
      ghost var before := data;
      if depth > MAX_DEPTH { return false; }
      if key.Num? {
        WriteByte(TAG_NUMBER);
        WriteBytes(Le64(key.bits));
        assert before + [TAG_NUMBER] + Le64(key.bits) == before + ([TAG_NUMBER] + Le64(key.bits));
      } else {
        WriteByte(TAG_STRING);
        WriteU32(|key.s| % 0x1_0000_0000);
        WriteBytes(key.s);
        assert before + [TAG_STRING] + Le32(|key.s| % 0x1_0000_0000) + key.s
            == before + ([TAG_STRING] + Le32(|key.s| % 0x1_0000_0000) + key.s);
      }
      return true;
    }
  }

  lemma LowByte(q: nat, r: nat)
    requires r < 0x100
    ensures (0x100 * q + r) / 0x100 == q && (0x100 * q + r) % 0x100 == r
  {
  }

  lemma HighByte(q: nat, r: nat)
    requires r < 0x100_0000
    ensures (0x100_0000 * q + r) / 0x100_0000 == q
  {
  }

  lemma Le32Bytes(v: U32)
    ensures Le32(v) == [v % 0x100, v / 0x100 % 0x100, v / 0x1_0000 % 0x100, v / 0x100_0000 % 0x100]
  {
    var lo, hi := v % 0x1_0000, v / 0x1_0000;
    var a, b, c, d := lo % 0x100, lo / 0x100, hi % 0x100, hi / 0x100;
    LowByte(0x100 * hi + b, a);
    LowByte(hi, b);
    HighByte(d, 0x1_0000 * c + lo);
    assert v == 0x100 * (0x100 * hi + b) + a == 0x100_0000 * d + (0x1_0000 * c + lo);
  }

  /** Where a patch goes when only appending happened since. */
  lemma Patched(front: seq<Byte>, zero: seq<Byte>, tail: seq<Byte>)
    requires |zero| == 4
    ensures var s := front + zero + tail;
            |front| + 4 <= |s| && s[..|front|] == front && s[|front| + 4..] == tail
  {
  }

  lemma TableAppended(before: seq<Byte>, a: seq<Byte>, b: seq<Byte>, c: seq<Byte>, d: seq<Byte>)
    ensures before + [TAG_TABLE] + a + b + c + d == before + ([TAG_TABLE] + a + b + c + d)
  {
  }

  lemma Appended(before: seq<Byte>, sofar: seq<Byte>, a: seq<Byte>, b: seq<Byte>)
    ensures before + sofar + a + b == before + (sofar + a + b)
  {
  }

  lemma ItemsStart(v: Value, depth: nat, lib: Lib)
    requires v.Table?
    ensures PackItems(v, 0, depth, lib) == Some(Counted(0, []))
  {
  }

  lemma ItemsNext(v: Value, i: nat, depth: nat, lib: Lib)
    requires v.Table? && i < |v.array_| && PackItems(v, i, depth, lib).Some?
    ensures var before := PackItems(v, i, depth, lib).value;
            PackItems(v, i + 1, depth, lib) ==
              if v.array_[i].Opaque? then Some(before)
              else match Pack(v.array_[i], depth + 1, true, lib)
                   case None => None
                   case Some(bytes) => Some(Counted(before.count + 1, before.bytes + Le32((i + 1) % 0x1_0000_0000) + bytes))
  {
    hide Pack, Le32;
  }

  lemma {:induction false} ItemsFail(v: Value, i: nat, n: nat, depth: nat, lib: Lib)
    requires v.Table? && i <= n <= |v.array_| && PackItems(v, i, depth, lib).None?
    ensures PackItems(v, n, depth, lib).None?
    decreases n
  {
    hide Pack;
    if i < n { ItemsFail(v, i, n - 1, depth, lib); }
  }

  lemma SlotsStart(v: Value, depth: nat, lib: Lib)
    requires v.Table?
    ensures PackSlots(v, 0, depth, lib) == Some(Counted(0, []))
  {
  }

  lemma SlotsNext(v: Value, i: nat, depth: nat, lib: Lib)
    requires v.Table? && i < |v.slots| && PackSlots(v, i, depth, lib).Some?
    ensures var before := PackSlots(v, i, depth, lib).value;
            var slot := v.slots[i];
            var key := KeyValue(slot.key, lib);
            (key.Some? ==> key.value.Str? || key.value.Num?) &&
            PackSlots(v, i + 1, depth, lib) ==
              if slot.value.Nil? || slot.value.Opaque? || key.None? then Some(before)
              else if depth + 1 > MAX_DEPTH then None
              else match Pack(slot.value, depth + 1, true, lib)
                   case None => None
                   case Some(bytes) => Some(Counted(before.count + 1, before.bytes + PackScalar(key.value) + bytes))
  {
    hide Pack, PackScalar;
  }

  lemma {:induction false} SlotsFail(v: Value, i: nat, n: nat, depth: nat, lib: Lib)
    requires v.Table? && i <= n <= |v.slots| && PackSlots(v, i, depth, lib).None?
    ensures PackSlots(v, n, depth, lib).None?
    decreases n
  {
    hide Pack;
    if i < n { SlotsFail(v, i, n - 1, depth, lib); }
  }

  // ----- reader -----

  class BinReader {
    const data: seq<Byte>
    const lib: Lib
    var pos: nat

    constructor (data: seq<Byte>, lib: Lib)
      ensures this.data == data && this.lib == lib && pos == 0 && Valid()
    {
      this.data := data;
      this.lib := lib;
      pos := 0;
    }

    ghost predicate Valid()
      reads `pos
    {
      pos <= |data|
    }

    /** The bytes still to be read. */
    ghost function Rest(): seq<Byte>
      requires Valid()
      reads `pos
    {
      data[pos..]
    }

    lemma RestAfter(k: nat)
      requires Valid() && pos + k <= |data|
      ensures Rest()[k..] == data[pos + k..] && Rest()[..k] == data[pos..pos + k]
    {
    }

    /** `br_read_u32` */
    method ReadCount() returns (ok: bool, v: U32)
      requires Valid()
      modifies `pos
      ensures Valid() && pos >= old(pos)
      ensures var r := ReadLe32(old(Rest()));
              ok == r.Ok? && (ok ==> v == r.value && Rest() == r.rest && pos == old(pos) + 4)
    {
      if pos + 4 > |data| {
        return false, 0;
      }
      RestAfter(4);
      var b0: int, b1: int, b2: int, b3: int := data[pos], data[pos + 1], data[pos + 2], data[pos + 3];
      pos := pos + 4;
      return true, b0 + 0x100 * b1 + 0x1_0000 * b2 + 0x100_0000 * b3;
    }

    /** `deserialize_value` */
    method DeserializeValue(depth: nat) returns (ok: bool, v: Value)
      requires Valid()
      modifies `pos
      ensures Valid() && pos >= old(pos)
      ensures var r := Unpack(old(Rest()), depth, lib);
              ok == r.Ok? && (ok ==> v == r.value && Rest() == r.rest && pos > old(pos))
      decreases |data| - pos, 2
    {
      hide ReadLe32, UnpackTable, ReadU64;
      if pos + 1 > |data| {
        return false, Nil;
      }
      RestAfter(1);
      var tag := data[pos];
      pos := pos + 1;
      if tag == TAG_NIL {
        return true, Nil;
      }
      if tag == TAG_FALSE {
        return true, Bool(false);
      }
      if tag == TAG_TRUE {
        return true, Bool(true);
      }
      if tag == TAG_NUMBER {
        if pos + 8 > |data| {
          return false, Nil;
        }
        RestAfter(8);
        v := Num(ReadU64(data[pos..], 0));
        pos := pos + 8;
        return true, v;
      }
      if tag == TAG_STRING {
        var len;
        ok, len := ReadCount();
        if !ok || pos + len > |data| {
          return false, Nil;
        }
        RestAfter(len);
        v := Str(data[pos..pos + len]);
        pos := pos + len;
        return true, v;
      }
      if tag == TAG_TABLE {
        ok, v := DeserializeTable(depth);
        return;
      }
      return false, Nil;
    }

    /** `deserialize_table` */
    method DeserializeTable(depth: nat) returns (ok: bool, v: Value)
      requires Valid()
      modifies `pos
      ensures Valid() && pos >= old(pos)
      ensures var r := UnpackTable(old(Rest()), depth, lib);
              ok == r.Ok? && (ok ==> v == r.value && Rest() == r.rest)
      decreases |data| - pos, 4
    {
      hide ReadLe32, UnpackItems, UnpackSlots;
      if depth > MAX_DEPTH {
        return false, Nil;
      }
      var arrCount, hashCount;
      ok, arrCount := ReadCount();
      if !ok {
        return false, Nil;
      }
      var part;
      ok, part := DeserializeItems(arrCount, depth);
      if !ok {
        return false, Nil;
      }
      ok, hashCount := ReadCount();
      if !ok {
        return false, Nil;
      }
      ok, v := DeserializeSlots(hashCount, Table(part.values, []), part.capacity, depth);
    }

    method DeserializeItems(count: nat, depth: nat) returns (ok: bool, part: ArrayPart<Value>)
      requires Valid()
      modifies `pos
      ensures Valid() && pos >= old(pos)
      ensures var r := UnpackItems(old(Rest()), count, ArrayPart([], 0), depth, lib);
              ok == r.Ok? && (ok ==> part == r.value && Rest() == r.rest)
      decreases |data| - pos, 3
    {
      hide ReadLe32, UnpackItems, Unpack, Store;
      part := ArrayPart([], 0);
      ghost var all := UnpackItems(Rest(), count, part, depth, lib);
      for i := 0 to count
        invariant Valid() && pos >= old(pos)
        invariant all == UnpackItems(Rest(), count - i, part, depth, lib)
      {
        ItemsStep(Rest(), count - i, part, depth, lib);
        var idx, val;
        ok, idx := ReadCount();
        if !ok {
          return false, part;
        }
        ok, val := DeserializeValue(depth + 1);
        if !ok {
          return false, part;
        }
        if idx > 0 {
          part := Store(part, Signed(idx), val, Nil);
        }
      }
      ItemsDone(Rest(), part, depth, lib);
      ok := true;
    }

    method DeserializeSlots(count: nat, table: Value, room: nat, depth: nat) returns (ok: bool, v: Value)
      requires Valid() && table.Table?
      modifies `pos
      ensures Valid() && pos >= old(pos)
      ensures var r := UnpackSlots(old(Rest()), count, table, room, depth, lib);
              ok == r.Ok? && (ok ==> v == r.value && Rest() == r.rest)
      decreases |data| - pos, 3
    {
      hide UnpackSlots, Unpack, SetKey;
      v := table;
      var capacity := room;
      ghost var all := UnpackSlots(Rest(), count, v, capacity, depth, lib);
      for i := 0 to count
        invariant Valid() && pos >= old(pos) && v.Table?
        invariant all == UnpackSlots(Rest(), count - i, v, capacity, depth, lib)
      {
        SlotsStep(Rest(), count - i, v, capacity, depth, lib);
        var key, val;
        ok, key := DeserializeValue(depth + 1);
        if !ok {
          return false, v;
        }
        ok, val := DeserializeValue(depth + 1);
        if !ok {
          return false, v;
        }
        var next := SetKey(v, capacity, key, val, lib);
        v, capacity := next.0, next.1;
      }
      SlotsDone(Rest(), v, capacity, depth, lib);
      ok := true;
    }
  }

  lemma ItemsStep(s: seq<Byte>, count: nat, part: ArrayPart<Value>, depth: nat, lib: Lib)
    requires count > 0
    ensures UnpackItems(s, count, part, depth, lib) ==
      match ReadLe32(s)
      case Error => Error
      case Ok(idx, t) =>
        match Unpack(t, depth + 1, lib)
        case Error => Error
        case Ok(val, u) => UnpackItems(u, count - 1, if idx > 0 then Store(part, Signed(idx), val, Nil) else part, depth, lib)
  {
    hide Unpack, ReadLe32, Store;
  }

  lemma ItemsDone(s: seq<Byte>, part: ArrayPart<Value>, depth: nat, lib: Lib)
    ensures UnpackItems(s, 0, part, depth, lib) == Ok(part, s)
  {
  }

  lemma SlotsStep(s: seq<Byte>, count: nat, t: Value, capacity: nat, depth: nat, lib: Lib)
    requires t.Table? && count > 0
    ensures UnpackSlots(s, count, t, capacity, depth, lib) ==
      match Unpack(s, depth + 1, lib)
      case Error => Error
      case Ok(key, u) =>
        match Unpack(u, depth + 1, lib)
        case Error => Error
        case Ok(val, w) =>
          var next := SetKey(t, capacity, key, val, lib);
          UnpackSlots(w, count - 1, next.0, next.1, depth, lib)
  {
    hide Unpack, SetKey;
  }

  lemma SlotsDone(s: seq<Byte>, t: Value, capacity: nat, depth: nat, lib: Lib)
    requires t.Table?
    ensures UnpackSlots(s, 0, t, capacity, depth, lib) == Ok(t, s)
  {
  }

  // ----- the native functions -----

  /** `binary_pack` */
  method PackText(v: Value, lib: Lib) returns (ok: bool, bytes: seq<Byte>)
    ensures var r := Pack(v, 0, false, lib);
            ok == r.Some? && (ok ==> bytes == r.value)
  {
    var w := new BinWriter();
    ok := w.SerializeValue(v, 0, false, lib);
    bytes := w.data;
    assert ok ==> [] + Pack(v, 0, false, lib).value == Pack(v, 0, false, lib).value;
  }

  /** `binary_unpack` */
  method UnpackText(bytes: seq<Byte>, lib: Lib) returns (r: Option<Value>)
    ensures r == UnpackAll(bytes, lib)
  {
    hide Unpack;
    var reader := new BinReader(bytes, lib);
    assert bytes[0..] == bytes;
    var ok, v := reader.DeserializeValue(0);
    if !ok || reader.pos != |bytes| {
      return None;
    }
    return Some(v);
  }
}
