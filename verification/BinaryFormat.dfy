/** The binary format: what packing writes, what unpacking reads, and that unpacking gives back what was packed. */
module BinaryFormat {
  import opened Bytes
  import opened Options
  import opened TableArray

  const TAG_NIL: Byte := 0
  const TAG_FALSE: Byte := 1
  const TAG_TRUE: Byte := 2
  const TAG_NUMBER: Byte := 3
  const TAG_STRING: Byte := 4
  const TAG_TABLE: Byte := 5

  const MAX_DEPTH := 64

  type Key = seq<Byte>

  /** Numbers are their eight bytes; a table lists its array part up to the last value, and its keyed slots. */
  datatype Value =
    | Nil
    | Bool(b: bool)
    | Num(bits: U64)
    | Str(s: seq<Byte>)
    | Table(array_: seq<Value>, slots: seq<Slot>)
    | Opaque

  datatype Slot = Slot(key: Key, value: Value)

  /**
   * The C library on number keys: the number a key text stands for (if all of it is one), the key text of a
   * number, and the array index a number is equal to.
   */
  datatype Lib = Lib(keyNumber: seq<Byte> -> Option<U64>, numberKey: U64 -> Key, index: U64 -> Option<int>)

  /** Keys that stand for numbers begin like this. */
  predicate IsNumberKey(k: Key) {
    |k| >= 2 && k[0] == 0x1F && k[1] == 0x6E
  }

  // ----- packing -----

  /** `key_from_entry` */
  function KeyValue(k: Key, lib: Lib): Option<Value> {
    if IsNumberKey(k) then
      match lib.keyNumber(k[2..])
      case Some(bits) => Some(Num(bits))
      case None => None
    else Some(Str(k))
  }

  /** The bytes of a value, or nothing where packing fails: nested too deeply. */
  function Pack(v: Value, depth: nat, strict: bool, lib: Lib): Option<seq<Byte>>
    decreases v, 2
  {
    if depth > MAX_DEPTH then (if strict then None else Some([TAG_NIL]))
    else
      match v
      case Nil => Some([TAG_NIL])
      case Bool(b) => Some([if b then TAG_TRUE else TAG_FALSE])
      case Num(bits) => Some([TAG_NUMBER] + Le64(bits))
      case Str(s) => Some([TAG_STRING] + Le32(|s| % 0x1_0000_0000) + s)
      case Opaque => if strict then None else Some([TAG_NIL])
      case Table(_, _) => PackTable(v, depth, lib)
  }

  datatype Counted = Counted(count: nat, bytes: seq<Byte>)

  function PackTable(v: Value, depth: nat, lib: Lib): Option<seq<Byte>>
    requires v.Table?
    decreases v, 1
  {
    match PackItems(v, FirstNil(v.array_, Nil), depth, lib)
    case None => None
    case Some(items) =>
      match PackSlots(v, |v.slots|, depth, lib)
      case None => None
      case Some(fields) =>
        Some([TAG_TABLE] + Le32(items.count % 0x1_0000_0000) + items.bytes + Le32(fields.count % 0x1_0000_0000) + fields.bytes)
  }

  /** The first `n` array values, each after its index; what cannot be packed is left out. */
  function PackItems(v: Value, n: nat, depth: nat, lib: Lib): Option<Counted>
    requires v.Table? && n <= |v.array_|
    decreases v, 0, n
  {
    if n == 0 then Some(Counted(0, []))
    else
      match PackItems(v, n - 1, depth, lib)
      case None => None
      case Some(before) =>
        var item := v.array_[n - 1];
        if item.Opaque? then Some(before)
        else
          match Pack(item, depth + 1, true, lib)
          case None => None
          case Some(bytes) => Some(Counted(before.count + 1, before.bytes + Le32(n % 0x1_0000_0000) + bytes))
  }

  /** The first `n` slots, key and value; nil and unpackable values and odd number keys are left out. */
  function PackSlots(v: Value, n: nat, depth: nat, lib: Lib): Option<Counted>
    requires v.Table? && n <= |v.slots|
    decreases v, 0, n
  {
    if n == 0 then Some(Counted(0, []))
    else
      match PackSlots(v, n - 1, depth, lib)
      case None => None
      case Some(before) =>
        var slot := v.slots[n - 1];
        var key := KeyValue(slot.key, lib);
        if slot.value.Nil? || slot.value.Opaque? || key.None? then Some(before)
        else if depth + 1 > MAX_DEPTH then None
        else
          assert slot < v;
          match Pack(slot.value, depth + 1, true, lib)
          case None => None
          case Some(bytes) => Some(Counted(before.count + 1, before.bytes + PackScalar(key.value) + bytes))
  }

  /** The bytes of a key: a string or a number. */
  function PackScalar(v: Value): seq<Byte> {
    match v
    case Num(bits) => [TAG_NUMBER] + Le64(bits)
    case Str(s) => [TAG_STRING] + Le32(|s| % 0x1_0000_0000) + s
    case _ => [TAG_NIL]
  }

  // ----- unpacking -----

  datatype Parsed<T> = Ok(value: T, rest: seq<Byte>) | Error

  function ReadLe32(s: seq<Byte>): Parsed<U32> {
    if |s| < 4 then Error else Ok(ReadU32(s, 0), s[4..])
  }

  function Unpack(s: seq<Byte>, depth: nat, lib: Lib): (r: Parsed<Value>)
    ensures r.Ok? ==> |r.rest| < |s|
    decreases |s|, 2
  {
    if s == [] then Error
    else
      var t := s[1..];
      if s[0] == TAG_NIL then Ok(Nil, t)
      else if s[0] == TAG_FALSE then Ok(Bool(false), t)
      else if s[0] == TAG_TRUE then Ok(Bool(true), t)
      else if s[0] == TAG_NUMBER then (if |t| < 8 then Error else Ok(Num(ReadU64(t, 0)), t[8..]))
      else if s[0] == TAG_STRING then
        match ReadLe32(t)
        case Error => Error
        case Ok(len, u) => if |u| < len then Error else Ok(Str(u[..len]), u[len..])
      else if s[0] == TAG_TABLE then UnpackTable(t, depth, lib)
      else Error
  }

  function UnpackTable(s: seq<Byte>, depth: nat, lib: Lib): (r: Parsed<Value>)
    ensures r.Ok? ==> |r.rest| <= |s|
    decreases |s|, 4
  {
    if depth > MAX_DEPTH then Error
    else
      match ReadLe32(s)
      case Error => Error
      case Ok(arrCount, t) =>
        match UnpackItems(t, arrCount, ArrayPart([], 0), depth, lib)
        case Error => Error
        case Ok(part, u) =>
          match ReadLe32(u)
          case Error => Error
          case Ok(hashCount, w) => UnpackSlots(w, hashCount, Table(part.values, []), part.capacity, depth, lib)
  }

  /** The index as the table code takes it: a 32-bit signed integer. */
  function Signed(i: U32): int {
    if i < 0x8000_0000 then i else i - 0x1_0000_0000
  }

  function UnpackItems(s: seq<Byte>, count: nat, part: ArrayPart<Value>, depth: nat,
                       lib: Lib): (r: Parsed<ArrayPart<Value>>)
    ensures r.Ok? ==> |r.rest| <= |s|
    decreases |s|, 3
  {
    if count == 0 then Ok(part, s)
    else
      match ReadLe32(s)
      case Error => Error
      case Ok(idx, t) =>
        match Unpack(t, depth + 1, lib)
        case Error => Error
        case Ok(val, u) =>
          UnpackItems(u, count - 1, if idx > 0 then Store(part, Signed(idx), val, Nil) else part, depth, lib)
  }

  /** `table_set` on the keyed slots. */
  function Put(slots: seq<Slot>, key: Key, v: Value): seq<Slot> {
    if slots == [] then [Slot(key, v)]
    else if slots[0].key == key then [Slot(key, v)] + slots[1..]
    else [slots[0]] + Put(slots[1..], key, v)
  }

  /** Setting an unpacked key: strings and booleans by their text, numbers in the array part if it takes them. */
  function SetKey(t: Value, capacity: nat, key: Value, v: Value, lib: Lib): (r: (Value, nat))
    requires t.Table?
    ensures r.0.Table?
  {
    match key
    case Str(s) => (Table(t.array_, Put(t.slots, s, v)), capacity)
    case Bool(b) => (Table(t.array_, Put(t.slots, if b then [0x74, 0x72, 0x75, 0x65] else [0x66, 0x61, 0x6C, 0x73, 0x65], v)), capacity)
    case Num(bits) =>
      var idx := lib.index(bits);
      if idx.Some? && 1 <= idx.value && (idx.value <= |t.array_| + 1 || idx.value <= capacity) then
        var part := Store(ArrayPart(t.array_, capacity), idx.value, v, Nil);
        (Table(part.values, t.slots), part.capacity)
      else (Table(t.array_, Put(t.slots, lib.numberKey(bits), v)), capacity)
    case _ => (t, capacity)
  }

  function UnpackSlots(s: seq<Byte>, count: nat, t: Value, capacity: nat, depth: nat, lib: Lib): (r: Parsed<Value>)
    requires t.Table?
    ensures r.Ok? ==> |r.rest| <= |s|
    decreases |s|, 3
  {
    if count == 0 then Ok(t, s)
    else
      match Unpack(s, depth + 1, lib)
      case Error => Error
      case Ok(key, u) =>
        match Unpack(u, depth + 1, lib)
        case Error => Error
        case Ok(val, w) =>
          var (next, c) := SetKey(t, capacity, key, val, lib);
          UnpackSlots(w, count - 1, next, c, depth, lib)
  }

  /** `binary.unpack`: one value, and no trailing data. */
  function UnpackAll(s: seq<Byte>, lib: Lib): Option<Value> {
    match Unpack(s, 0, lib)
    case Ok(v, rest) => if rest == [] then Some(v) else None
    case Error => None
  }

  // ----- values that survive -----

  /** The capacity of the array part after storing the first `n` indices in order. */
  function CapacityFor(n: nat): nat {
    if n == 0 then 0 else Grown(CapacityFor(n - 1), n)
  }

  /**
   * A key that stands for a number, and is that number's key again; among `n` items its index is out of reach of the
   * array part.
   */
  predicate NumberKeyStays(k: Key, n: nat, lib: Lib) {
    IsNumberKey(k) &&
    match lib.keyNumber(k[2..])
    case None => false
    case Some(bits) =>
      && lib.numberKey(bits) == k
      && match lib.index(bits)
         case None => true
         case Some(idx) => idx < 1 || (idx > n + 1 && idx > CapacityFor(n))
  }

  /**
   * Values that come back: nested at most 64 deep, arrays without holes, string keys, number keys out of reach of the
   * array part, and no more bytes or entries than the counts can say.
   */
  predicate Plain(v: Value, depth: nat, lib: Lib)
    decreases v
  {
    && depth <= MAX_DEPTH
    && match v
       case Nil => true
       case Bool(_) => true
       case Num(_) => true
       case Str(s) => |s| < 0x8000_0000
       case Opaque => false
       case Table(a, slots) =>
         && |a| < 0x8000_0000 && |slots| < 0x8000_0000
         && (forall i :: 0 <= i < |a| ==> !a[i].Nil? && Plain(a[i], depth + 1, lib))
         && (forall i :: 0 <= i < |slots| ==> SlotPlain(v, i, depth, lib))
         && (forall i, j :: 0 <= i < j < |slots| ==> slots[i].key != slots[j].key)
  }

  predicate SlotPlain(v: Value, i: nat, depth: nat, lib: Lib)
    requires v.Table? && i < |v.slots|
    decreases v, 0
  {
    var slot := v.slots[i];
    assert slot < v;
    && !slot.value.Nil? && Plain(slot.value, depth + 1, lib)
    && KeyPlain(slot.key, |v.array_|, lib)
  }

  predicate KeyPlain(k: Key, n: nat, lib: Lib) {
    if IsNumberKey(k) then NumberKeyStays(k, n, lib) else |k| < 0x8000_0000
  }
}
