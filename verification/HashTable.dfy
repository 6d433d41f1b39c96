/** The string-keyed part of a table: open addressing with linear probing and tombstones. */
module HashTable {
  import opened HeapGraph
  import opened Bytes
  import opened TableArray

  /** A string key: its characters; the hash is a function of them. */
  type Key = seq<Byte>

  /** A slot: without a key it is empty when its value is nil, and a tombstone otherwise. */
  datatype Slot = Slot(hasKey: bool, key: Key, value: Value)
  {
    predicate IsEmpty() { !hasKey && value.Nil? }
    predicate IsUsed() { hasKey }
  }

  const EMPTY := Slot(false, [], Nil)
  const TOMBSTONE := Slot(false, [], Bool(true))

  // ----- probe sequences -----

  /** The slot `n` steps after the home slot, going round at the end. */
  function Probe(home: nat, n: nat, capacity: nat): (i: nat)
    requires home < capacity && n <= capacity
    ensures i < capacity
  {
    if home + n < capacity then home + n else home + n - capacity
  }

  /** How many steps the probing from `home` takes to `i`. */
  function Steps(home: nat, i: nat, capacity: nat): (n: nat)
    requires home < capacity && i < capacity
    ensures n < capacity && Probe(home, n, capacity) == i
  {
    if i >= home then i - home else i + capacity - home
  }

  lemma StepsUnique(home: nat, n: nat, capacity: nat)
    requires home < capacity && n < capacity
    ensures Steps(home, Probe(home, n, capacity), capacity) == n
  {
  }

  lemma ProbeNext(home: nat, n: nat, capacity: nat)
    requires home < capacity && n < capacity
    ensures (Probe(home, n, capacity) + 1) % capacity == Probe(home, n + 1, capacity)
  {
    var i := Probe(home, n, capacity) + 1;
    if i == capacity {
      assert i % capacity == 0;
    } else {
      assert i % capacity == i;
    }
  }

  /** The home slot of a key. */
  function Home(hash: Key -> nat, k: Key, capacity: nat): (h: nat)
    requires capacity > 0
    ensures h < capacity
  {
    hash(k) % capacity
  }

  /** No slot on the way from `home`, `n` steps long, is empty. */
  ghost predicate Crowded(s: seq<Slot>, home: nat, n: nat)
    requires home < |s| && n <= |s|
  {
    forall j: nat {:trigger Probe(home, j, |s|)} :: j < n ==> !s[Probe(home, j, |s|)].IsEmpty()
  }

  /** Every key is in at most one slot, and the way from its home to it has no empty slot. */
  ghost predicate Probeable(s: seq<Slot>, hash: Key -> nat) {
    && (forall i, j :: 0 <= i < j < |s| && s[i].IsUsed() && s[j].IsUsed() ==> s[i].key != s[j].key)
    && (forall i: nat :: i < |s| && s[i].IsUsed() ==>
          Crowded(s, Home(hash, s[i].key, |s|), Steps(Home(hash, s[i].key, |s|), i, |s|)))
  }

  /** What the slots say about a key. */
  ghost predicate Holds(s: seq<Slot>, contents: map<Key, Value>) {
    && (forall i :: 0 <= i < |s| && s[i].IsUsed() ==> s[i].key in contents && contents[s[i].key] == s[i].value)
    && (forall k :: k in contents ==> Present(s, k))
  }

  ghost predicate Present(s: seq<Slot>, k: Key) {
    exists i :: 0 <= i < |s| && s[i].IsUsed() && s[i].key == k
  }

  // ----- counting -----

  /** Live entries and tombstones. */
  ghost function Taken(s: seq<Slot>): (n: nat)
    ensures n <= |s|
    decreases |s|
  {
    if s == [] then 0 else Taken(s[..|s| - 1]) + (if s[|s| - 1].IsEmpty() then 0 else 1)
  }

  lemma {:induction false} TakenUpdate(s: seq<Slot>, i: nat, e: Slot)
    requires i < |s|
    ensures Taken(s[i := e]) == Taken(s) - (if s[i].IsEmpty() then 0 else 1) + (if e.IsEmpty() then 0 else 1)
    decreases |s|
  {
    var t := s[i := e];
    if i == |s| - 1 {
      assert t[..|s| - 1] == s[..|s| - 1];
    } else {
      assert t[..|s| - 1] == s[..|s| - 1][i := e];
      TakenUpdate(s[..|s| - 1], i, e);
    }
  }

  /** A slot is left empty as long as not all are taken. */
  lemma {:induction false} SomeEmpty(s: seq<Slot>) returns (e: nat)
    requires Taken(s) < |s|
    ensures e < |s| && s[e].IsEmpty()
    decreases |s|
  {
    if s[|s| - 1].IsEmpty() {
      e := |s| - 1;
    } else {
      e := SomeEmpty(s[..|s| - 1]);
    }
  }

  lemma {:induction false} NoneTaken(s: seq<Slot>)
    requires forall i :: 0 <= i < |s| ==> s[i].IsEmpty()
    ensures Taken(s) == 0
    decreases |s|
  {
    if s != [] { NoneTaken(s[..|s| - 1]); }
  }

  lemma {:induction false} ZeroTaken(s: seq<Slot>)
    requires Taken(s) == 0
    ensures forall i :: 0 <= i < |s| ==> s[i].IsEmpty()
    decreases |s|
  {
    if s != [] { ZeroTaken(s[..|s| - 1]); }
  }

  // ----- finding -----

  /** Where a search may end: at the key, or for an absent key at a free slot its probing reaches over no empty one. */
  ghost predicate Found(s: seq<Slot>, hash: Key -> nat, k: Key, i: nat) {
    && i < |s|
    && (if s[i].IsUsed() then s[i].key == k
        else !Present(s, k) && Crowded(s, Home(hash, k, |s|), Steps(Home(hash, k, |s|), i, |s|)))
  }

  /** No slot that a search passes before this one is free. */
  ghost predicate FirstFree(s: seq<Slot>, home: nat, n: nat)
    requires home < |s| && n <= |s|
  {
    forall j: nat {:trigger Probe(home, j, |s|)} :: j < n ==> s[Probe(home, j, |s|)].IsUsed()
  }

  /** A key is found before the first empty slot of its probing. */
  lemma UsedBefore(s: seq<Slot>, hash: Key -> nat, i: nat, n: nat)
    requires Probeable(s, hash) && i < |s| && s[i].IsUsed() && n < |s|
    ensures var home := Home(hash, s[i].key, |s|);
            s[Probe(home, n, |s|)].IsEmpty() ==> Steps(home, i, |s|) < n
  {
    hide Home, Probe, Steps;
    var home := Home(hash, s[i].key, |s|);
    assert Crowded(s, home, Steps(home, i, |s|));
    StepsUnique(home, n, |s|);
  }

  /** An empty slot on the way ends the search: the key would have been before it. */
  lemma AbsentAtEmpty(s: seq<Slot>, hash: Key -> nat, k: Key, n: nat)
    requires Probeable(s, hash) && n < |s|
    requires s[Probe(Home(hash, k, |s|), n, |s|)].IsEmpty()
    requires forall j: nat {:trigger Probe(Home(hash, k, |s|), j, |s|)} :: j < n ==>
               var e := s[Probe(Home(hash, k, |s|), j, |s|)]; !(e.IsUsed() && e.key == k)
    ensures !Present(s, k)
  {
    hide Probeable, Home, Probe, Steps;
    forall i: nat | i < |s| && s[i].IsUsed()
      ensures s[i].key != k
    {
      UsedBefore(s, hash, i, n);
    }
  }

  /** Probing cannot go round all slots when one is empty. */
  lemma NotAllCrowded(s: seq<Slot>, home: nat)
    requires Taken(s) < |s| && home < |s|
    ensures !Crowded(s, home, |s|)
  {
    var e := SomeEmpty(s);
    var n := Steps(home, e, |s|);
    assert s[Probe(home, n, |s|)].IsEmpty();
  }

  /** `find_entry`: the slot of the key, or else the first tombstone or the empty slot where it belongs. */
  method FindEntry(entries: array<Slot>, hash: Key -> nat, key: Key) returns (index: nat)
    requires Probeable(entries[..], hash) && Taken(entries[..]) < entries.Length
    ensures Found(entries[..], hash, key, index)
    ensures var s := entries[..]; var home := Home(hash, key, |s|);
            !s[index].IsUsed() ==> FirstFree(s, home, Steps(home, index, |s|))
  {
    hide Probeable, Present, Taken, Probe, Home, Steps;
    var capacity := entries.Length;
    ghost var s := entries[..];
    ghost var home := Home(hash, key, capacity);
    ghost var n := 0;
    var tombstone := -1;
    index := hash(key) % capacity;
    HomeIs(hash, key, capacity);
    while true
      invariant n < capacity && index == Probe(home, n, capacity)
      invariant Crowded(s, home, n)
      invariant forall j: nat {:trigger Probe(home, j, capacity)} :: j < n ==>
                  !(s[Probe(home, j, capacity)].IsUsed() && s[Probe(home, j, capacity)].key == key)
      invariant tombstone != -1 ==> 0 <= tombstone < capacity && !s[tombstone].IsUsed()
                                    && Steps(home, tombstone, capacity) <= n
                                       && FirstFree(s, home, Steps(home, tombstone, capacity))
      invariant tombstone == -1 ==> FirstFree(s, home, n)
      decreases capacity - n
    {
      StepsUnique(home, n, capacity);
      if !entries[index].hasKey {
        if entries[index].value.Nil? {
          AbsentAtEmpty(s, hash, key, n);
          return if tombstone != -1 then tombstone else index;
        }
        if tombstone == -1 {
          tombstone := index;
        }
      } else if entries[index].key == key {
        return;
      }
      ProbeNext(home, n, capacity);
      index := (index + 1) % capacity;
      n := n + 1;
      if n == capacity {
        NotAllCrowded(s, home);
      }
    }
  }

  lemma HomeIs(hash: Key -> nat, key: Key, capacity: nat)
    requires capacity > 0
    ensures Home(hash, key, capacity) == hash(key) % capacity
    ensures Probe(Home(hash, key, capacity), 0, capacity) == Home(hash, key, capacity)
  {
  }

  // ----- changing a slot -----

  lemma CrowdedStays(s: seq<Slot>, i: nat, e: Slot, home: nat, n: nat)
    requires i < |s| && home < |s| && n <= |s| && !e.IsEmpty() && Crowded(s, home, n)
    ensures Crowded(s[i := e], home, n)
  {
    hide Probe;
    forall j: nat | j < n
      ensures !s[i := e][Probe(home, j, |s|)].IsEmpty()
    {
      assert !s[Probe(home, j, |s|)].IsEmpty();
    }
  }

  /** Writing a key where its search ended. */
  lemma SetSlot(s: seq<Slot>, hash: Key -> nat, contents: map<Key, Value>, k: Key, v: Value, i: nat)
    requires Probeable(s, hash) && Holds(s, contents) && Found(s, hash, k, i)
    ensures var t := s[i := Slot(true, k, v)];
            Probeable(t, hash) && Holds(t, contents[k := v])
  {
    hide Crowded, Home, Steps;
    var t := s[i := Slot(true, k, v)];
    forall j: nat | j < |t| && t[j].IsUsed()
      ensures Crowded(t, Home(hash, t[j].key, |t|), Steps(Home(hash, t[j].key, |t|), j, |t|))
    {
      assert Crowded(s, Home(hash, t[j].key, |t|), Steps(Home(hash, t[j].key, |t|), j, |t|));
      CrowdedStays(s, i, Slot(true, k, v), Home(hash, t[j].key, |t|), Steps(Home(hash, t[j].key, |t|), j, |t|));
    }
    forall x | x in contents[k := v]
      ensures Present(t, x)
    {
      if x == k {
        assert t[i].key == k;
      } else {
        assert Present(s, x);
        var j :| 0 <= j < |s| && s[j].IsUsed() && s[j].key == x;
        assert t[j] == s[j];
      }
    }
  }

  /** A tombstone in place of a key. */
  lemma DeleteSlot(s: seq<Slot>, hash: Key -> nat, contents: map<Key, Value>, k: Key, i: nat)
    requires Probeable(s, hash) && Holds(s, contents) && i < |s| && s[i].IsUsed() && s[i].key == k
    ensures var t := s[i := TOMBSTONE];
            Probeable(t, hash) && Holds(t, contents - {k})
  {
    hide Crowded, Home, Steps;
    var t := s[i := TOMBSTONE];
    forall j: nat | j < |t| && t[j].IsUsed()
      ensures Crowded(t, Home(hash, t[j].key, |t|), Steps(Home(hash, t[j].key, |t|), j, |t|))
    {
      assert Crowded(s, Home(hash, t[j].key, |t|), Steps(Home(hash, t[j].key, |t|), j, |t|));
      CrowdedStays(s, i, TOMBSTONE, Home(hash, t[j].key, |t|), Steps(Home(hash, t[j].key, |t|), j, |t|));
    }
    forall x | x in contents - {k}
      ensures Present(t, x)
    {
      assert Present(s, x);
      var j :| 0 <= j < |s| && s[j].IsUsed() && s[j].key == x;
      assert t[j] == s[j];
    }
  }

  /** A search found the key exactly when the contents have it. */
  lemma FoundIs(s: seq<Slot>, hash: Key -> nat, contents: map<Key, Value>, k: Key, i: nat)
    requires Holds(s, contents) && Found(s, hash, k, i)
    ensures s[i].IsUsed() <==> k in contents
    ensures s[i].IsUsed() ==> s[i].key == k && contents[k] == s[i].value
  {
  }

  lemma HoldsUnique(s: seq<Slot>, a: map<Key, Value>, b: map<Key, Value>)
    requires Holds(s, a) && Holds(s, b)
    ensures a == b
  {
    forall k | k in a
      ensures k in b && b[k] == a[k]
    {
      assert Present(s, k);
    }
    forall k | k in b
      ensures k in a
    {
      assert Present(s, k);
    }
  }

  /** One more slot of the old table is accounted for. */
  lemma HoldsOn(s: seq<Slot>, i: nat, m: map<Key, Value>)
    requires i < |s| && Holds(s[..i], m)
    requires forall j :: 0 <= j < i && s[j].IsUsed() && s[i].IsUsed() ==> s[j].key != s[i].key
    ensures Holds(s[..i + 1], if s[i].IsUsed() then m[s[i].key := s[i].value] else m)
    ensures s[i].IsUsed() ==> s[i].key !in m
  {
    var t, u := s[..i], s[..i + 1];
    var m' := if s[i].IsUsed() then m[s[i].key := s[i].value] else m;
    if s[i].IsUsed() {
      assert !Present(t, s[i].key);
    }
    forall k | k in m'
      ensures Present(u, k)
    {
      if k in m {
        assert Present(t, k);
        var j :| 0 <= j < |t| && t[j].IsUsed() && t[j].key == k;
        assert u[j] == t[j];
      } else {
        assert u[i] == s[i];
      }
    }
    forall j | 0 <= j < |u| && u[j].IsUsed()
      ensures u[j].key in m' && m'[u[j].key] == u[j].value
    {
      if j < i { assert t[j] == u[j]; }
    }
  }

  lemma {:induction false} TakenPrefix(s: seq<Slot>, i: nat)
    requires i < |s|
    ensures Taken(s[..i + 1]) == Taken(s[..i]) + (if s[i].IsEmpty() then 0 else 1)
    ensures Taken(s[..i]) <= Taken(s)
    decreases |s|
  {
    assert s[..i + 1][..i] == s[..i];
    if i < |s| - 1 {
      TakenPrefix(s[..|s| - 1], i);
      assert s[..|s| - 1][..i] == s[..i];
    }
  }

  class Table {
    const hash: Key -> nat
    var entries: array<Slot>
    var count: nat
    var version: nat
    ghost var contents: map<Key, Value>

    /** The array part: its slots, and the highest index that holds a value. */
    var arrayPart: array<Value>
    var arrayMax: nat

    /** A fresh table has no slots at all. */
    constructor (hash: Key -> nat)
      ensures Valid() && contents == map[] && fresh(entries) && this.hash == hash
      ensures ArrayValid() && arrayMax == 0 && fresh(arrayPart)
    {
      this.hash := hash;
      entries := new Slot[0];
      count, version, contents := 0, 0, map[];
      arrayPart, arrayMax := new Value[0], 0;
    }

    /** The slots hold the contents; taken slots are counted and at most three quarters of all. */
    ghost predicate Valid()
      reads `entries, `count, `contents, entries
    {
      && count == Taken(entries[..]) && 4 * count <= 3 * entries.Length
      && (entries.Length == 0 || entries.Length >= 8)
      && (entries.Length > 0 ==> Probeable(entries[..], hash))
      && Holds(entries[..], contents)
    }

    /** `adjust_capacity`: the live entries move to a new array, the tombstones go. */
    method AdjustCapacity(capacity: nat)
      requires Valid() && capacity >= 8 && count < capacity
      modifies `entries, `count
      ensures fresh(entries) && entries.Length == capacity
      ensures count == Taken(entries[..]) <= old(count)
      ensures Probeable(entries[..], hash) && Holds(entries[..], contents)
      ensures forall j :: 0 <= j < capacity ==> entries[j].IsUsed() || entries[j].IsEmpty()
    {
      hide Probeable, Holds, Taken, Crowded;
      var moved := new Slot[capacity](_ => EMPTY);
      NewSlots(moved[..], hash);
      ghost var s, m := entries[..], map[];
      count := 0;
      NoSlots(s);
      DistinctKeys(s, hash);
      for i := 0 to entries.Length
        invariant entries == old(entries) && entries[..] == s
        invariant Probeable(moved[..], hash) && Holds(moved[..], m) && Holds(s[..i], m)
        invariant count == Taken(moved[..]) <= Taken(s[..i])
        invariant forall j :: 0 <= j < capacity ==> moved[j].IsUsed() || moved[j].IsEmpty()
      {
        TakenPrefix(s, i);
        HoldsOn(s, i, m);
        if entries[i].hasKey {
          var e := entries[i];
          var dest := FindEntry(moved, hash, e.key);
          ghost var t := moved[..];
          FoundIs(t, hash, m, e.key, dest);
          SetSlot(t, hash, m, e.key, e.value, dest);
          TakenUpdate(t, dest, Slot(true, e.key, e.value));
          moved[dest] := Slot(true, e.key, e.value);
          assert moved[..] == t[dest := Slot(true, e.key, e.value)];
          m := m[e.key := e.value];
          count := count + 1;
        }
      }
      assert s[..entries.Length] == s;
      HoldsUnique(s, m, contents);
      entries := moved;
    }

    /** `table_get` */
    method Get(key: Key) returns (found: bool, value: Value)
      requires Valid()
      ensures found <==> key in contents
      ensures found ==> value == contents[key]
    {
      hide Probeable, Holds, Taken, Found;
      value := Nil;
      if count == 0 {
        NothingHeld(entries[..], contents);
        return false, Nil;
      }
      LessThanAll(entries[..]);
      var index := FindEntry(entries, hash, key);
      FoundInside(entries[..], hash, key, index);
      FoundIs(entries[..], hash, contents, key, index);
      if !entries[index].hasKey {
        return false, Nil;
      }
      return true, entries[index].value;
    }

    /** `table_set` */
    method Set(key: Key, value: Value) returns (isNewKey: bool)
      requires Valid()
      modifies `entries, `count, `version, `contents, entries
      ensures Valid() && (entries == old(entries) || fresh(entries))
      ensures contents == old(contents)[key := value]
      ensures isNewKey <==> key !in old(contents)
      ensures 4 * (old(count) + 1) <= 3 * old(entries.Length) ==> entries == old(entries)
      ensures !isNewKey ==> 4 * (count + 1) <= 3 * entries.Length
      ensures version == (old(version) + 1) % 0x1_0000_0000
    {
      hide Probeable, Holds, Taken, Found;
      if 4 * (count + 1) > 3 * entries.Length {
        AdjustCapacity(if entries.Length < 8 then 8 else entries.Length * 2);
      }
      ghost var s := entries[..];
      var index := FindEntry(entries, hash, key);
      FoundInside(s, hash, key, index);
      FoundIs(s, hash, contents, key, index);
      isNewKey := !entries[index].hasKey;
      SetSlot(s, hash, contents, key, value, index);
      TakenUpdate(s, index, Slot(true, key, value));
      if isNewKey && entries[index].value.Nil? {
        count := count + 1;
      }
      entries[index] := Slot(true, key, value);
      assert entries[..] == s[index := Slot(true, key, value)];
      contents := contents[key := value];
      version := (version + 1) % 0x1_0000_0000;
    }

    /** `table_delete`: leaves a tombstone, which stays counted. */
    method Delete(key: Key) returns (deleted: bool)
      requires Valid()
      modifies `entries, `count, `version, `contents, entries
      ensures Valid() && entries == old(entries)
      ensures contents == old(contents) - {key}
      ensures deleted <==> key in old(contents)
      ensures version == if deleted then (old(version) + 1) % 0x1_0000_0000 else old(version)
    {
      hide Probeable, Holds, Taken, Found;
      if count == 0 {
        NothingHeld(entries[..], contents);
        return false;
      }
      ghost var s := entries[..];
      LessThanAll(s);
      var index := FindEntry(entries, hash, key);
      FoundInside(s, hash, key, index);
      FoundIs(s, hash, contents, key, index);
      if !entries[index].hasKey {
        return false;
      }
      DeleteSlot(s, hash, contents, key, index);
      TakenUpdate(s, index, TOMBSTONE);
      entries[index] := TOMBSTONE;
      assert entries[..] == s[index := TOMBSTONE];
      contents := contents - {key};
      version := (version + 1) % 0x1_0000_0000;
      return true;
    }

    /** `table_add_all`: the entries of `from` are set one by one; `from` may be this very table. */
    method AddAll(from: Table)
      requires Valid() && from.Valid() && (from == this || from.entries != entries)
      modifies `entries, `count, `version, `contents, entries
      ensures Valid() && (entries == old(entries) || fresh(entries))
      ensures contents == old(contents) + old(from.contents)
    {
      hide *;
      ghost var source := from.entries[..];
      ghost var m := map[];
      NoSlots(source);
      ValidSlots(from);
      var i := 0;
      while i < from.entries.Length
        invariant 0 <= i && Valid() && (entries == old(entries) || fresh(entries))
        invariant from == this ==> contents == old(contents)
        invariant from != this ==>
                    && from.entries == old(from.entries) != entries && from.entries[..] == source && i <= |source|
                    && Holds(source[..i], m) && contents == old(contents) + m
        decreases if from == this && 4 * (count + 1) > 3 * entries.Length then 1 else 0, from.entries.Length - i
      {
        if from != this {
          HoldsOn(source, i, m);
        }
        UsedIs(from.entries[i]);
        if from.entries[i].hasKey {
          var e := from.entries[i];
          SlotInContents(from, i);
          if from != this {
            m := m[e.key := e.value];
          }
          var isNewKey := Set(e.key, e.value);
        }
        i := i + 1;
      }
      if from != this {
        assert source[..i] == source;
        HoldsUnique(source, m, from.contents);
      }
    }

    // ----- array part -----

    /** The value at a 1-based index. */
    ghost function At(index: int): Value
      reads `arrayPart, arrayPart
    {
      ValueAt(arrayPart[..], index)
    }

    ghost predicate ArrayValid()
      reads `arrayPart, `arrayMax, arrayPart
    {
      IsHighest(arrayPart[..], arrayMax)
    }

    /** The array part as its values up to the last one, and its capacity. */
    ghost function Part(): ArrayPart<Value>
      requires ArrayValid()
      reads `arrayPart, `arrayMax, arrayPart
    {
      ArrayPart(arrayPart[..arrayMax], arrayPart.Length)
    }

    /** `table_get_array` */
    method GetArray(index: int) returns (found: bool, value: Value)
      ensures found <==> At(index) != Nil
      ensures found ==> value == At(index)
    {
      var rawIndex := index - 1;
      if 0 <= rawIndex < arrayPart.Length {
        if !arrayPart[rawIndex].Nil? {
          return true, arrayPart[rawIndex];
        }
      }
      return false, Nil;
    }

    /** `table_set_array`: refuses what would leave a gap beyond the capacity, and nothing else. */
    method SetArray(index: int, value: Value) returns (stored: bool)
      requires ArrayValid()
      modifies `arrayPart, `arrayMax, arrayPart
      ensures ArrayValid() && (arrayPart == old(arrayPart) || fresh(arrayPart))
      ensures stored <==> 1 <= index && (index <= old(arrayMax) + 1 || index <= old(arrayPart.Length))
      ensures forall i :: At(i) == if stored && i == index then value else old(At(i))
      ensures Part() == Store(old(Part()), index, value, Nil)
    {
      var rawIndex := index - 1;
      if rawIndex < 0 {
        return false;
      }
      if index > arrayMax + 1 && index > arrayPart.Length {
        return false;
      }
      ghost var before := arrayPart[..];
      if rawIndex >= arrayPart.Length {
        GrowArray(rawIndex);
        SameHighest(before, arrayPart[..], arrayMax);
      }
      ghost var s := arrayPart[..];
      arrayPart[rawIndex] := value;
      assert arrayPart[..] == s[rawIndex := value];
      HighestAfter(s, arrayMax, index, value);
      if !value.Nil? {
        if index > arrayMax { arrayMax := index; }
      } else if index == arrayMax {
        var newMax := arrayMax - 1;
        while newMax >= 1 && newMax <= arrayPart.Length && arrayPart[newMax - 1].Nil?
          invariant 0 <= newMax < index && arrayPart[..] == s[rawIndex := value]
          invariant NothingAbove(arrayPart[..], newMax)
        {
          newMax := newMax - 1;
        }
        arrayMax := newMax;
      }
      PartAfter(before, old(arrayMax), s, index, value, arrayPart[..], arrayMax);
      stored := true;
    }

    /** The array doubles until the index fits; the new slots hold nothing. */
    method GrowArray(rawIndex: nat)
      requires rawIndex >= arrayPart.Length
      modifies `arrayPart
      ensures fresh(arrayPart) && rawIndex < arrayPart.Length && old(arrayPart.Length) <= arrayPart.Length
      ensures rawIndex == old(arrayPart.Length) ==> arrayPart.Length == Grown(old(arrayPart.Length), rawIndex + 1)
      ensures old(arrayPart[..]) <= arrayPart[..]
      ensures forall j :: old(arrayPart.Length) <= j < arrayPart.Length ==> arrayPart[j] == Nil
    {
      var newCapacity := if arrayPart.Length == 0 then 8 else arrayPart.Length * 2;
      while rawIndex >= newCapacity
        invariant newCapacity > 0 && newCapacity >= arrayPart.Length
        invariant rawIndex == arrayPart.Length ==> newCapacity == Grown(arrayPart.Length, rawIndex + 1)
      {
        newCapacity := newCapacity * 2;
      }
      var grown := new Value[newCapacity](_ => Nil);
      for i := 0 to arrayPart.Length
        invariant arrayPart == old(arrayPart)
        invariant forall j :: 0 <= j < i ==> grown[j] == arrayPart[j]
        invariant forall j :: i <= j < newCapacity ==> grown[j] == Nil
      {
        grown[i] := arrayPart[i];
      }
      arrayPart := grown;
    }
  }

  // ----- the array part as a sequence -----

  /** The value at a 1-based index of the array part. */
  ghost function ValueAt(s: seq<Value>, index: int): Value {
    if 1 <= index <= |s| then s[index - 1] else Nil
  }

  ghost predicate NothingAbove(s: seq<Value>, max: int) {
    forall j :: 0 <= j < |s| && max <= j ==> s[j] == Nil
  }

  /** The highest index with a value, 0 if there is none. */
  ghost predicate IsHighest(s: seq<Value>, max: int) {
    0 <= max <= |s| && (max > 0 ==> s[max - 1] != Nil) && NothingAbove(s, max)
  }

  lemma SameHighest(s: seq<Value>, t: seq<Value>, max: int)
    requires s <= t && NothingAbove(t[|s|..], 0) && IsHighest(s, max)
    ensures IsHighest(t, max) && forall i :: ValueAt(t, i) == ValueAt(s, i)
  {
    assert forall j :: |s| <= j < |t| ==> t[|s|..][j - |s|] == t[j];
  }

  /** Highest indices and their values determine the part. */
  lemma PartAfter(before: seq<Value>, max: int, s: seq<Value>, index: int, value: Value, t: seq<Value>, newMax: int)
    requires IsHighest(before, max) && before <= s && NothingAbove(s[|before|..], 0)
    requires 1 <= index <= |s| && (index <= max + 1 || index <= |before|) && |s| == Grown(|before|, index)
    requires t == s[index - 1 := value] && IsHighest(t, newMax)
    requires newMax == (if value != Nil then (if index > max then index else max) else if index == max then newMax
               else max)
    ensures ArrayPart(t[..newMax], |t|) == Store(ArrayPart(before[..max], |before|), index, value, Nil)
  {
    var values := before[..max];
    forall j | max <= j < |s|
      ensures s[j] == Nil
    {
      if j >= |before| {
        assert s[j] == s[|before|..][j - |before|];
      }
    }
    if value != Nil {
      if index <= max {
        assert t[..newMax] == values[index - 1 := value];
      } else {
        assert t[..newMax] == values + Nils(index - 1 - max, Nil) + [value];
      }
    } else if index == max {
      var init := values[..max - 1];
      assert newMax < max;
      forall j | 0 <= j < max - 1
        ensures init[j] == t[j] && (j >= newMax ==> init[j] == Nil)
      {
        assert init[j] == before[j] == s[j] == t[j];
        assert j >= newMax ==> t[j] == Nil;
      }
      TrimmedIs(init, newMax);
      assert t[..newMax] == init[..newMax];
    } else {
      assert t[..newMax] == if index < max then values[index - 1 := value] else values;
    }
  }

  /** Trimming stops at the highest value. */
  lemma {:induction false} TrimmedIs(s: seq<Value>, n: int)
    requires 0 <= n <= |s| && (n > 0 ==> s[n - 1] != Nil) && forall j :: n <= j < |s| ==> s[j] == Nil
    ensures Trimmed(s, Nil) == s[..n]
    decreases |s|
  {
    if |s| > n {
      TrimmedIs(s[..|s| - 1], n);
      assert s[..|s| - 1][..n] == s[..n];
    } else {
      assert s[..n] == s;
    }
  }

  lemma HighestAfter(s: seq<Value>, max: int, index: int, value: Value)
    requires IsHighest(s, max) && 1 <= index <= |s|
    ensures var t := s[index - 1 := value];
            && (forall i :: ValueAt(t, i) == if i == index then value else ValueAt(s, i))
            && (if value != Nil then IsHighest(t, if index > max then index else max)
                else if index == max then NothingAbove(t, max - 1) else IsHighest(t, max))
  {
  }

  lemma NewSlots(s: seq<Slot>, hash: Key -> nat)
    requires forall i :: 0 <= i < |s| ==> s[i].IsEmpty()
    ensures Taken(s) == 0 && Holds(s, map[]) && (|s| > 0 ==> Probeable(s, hash))
  {
    NoneTaken(s);
  }

  lemma SlotInContents(t: Table, i: nat)
    requires t.Valid() && i < t.entries.Length && t.entries[i].IsUsed()
    ensures t.entries[i].key in t.contents && t.contents[t.entries[i].key] == t.entries[i].value
  {
  }

  lemma UsedIs(e: Slot)
    ensures e.IsUsed() == e.hasKey
  {
  }

  lemma ValidSlots(t: Table)
    requires t.Valid()
    ensures Holds(t.entries[..], t.contents)
    ensures var s := t.entries[..];
            forall i, j :: 0 <= i < j < |s| && s[i].IsUsed() && s[j].IsUsed() ==> s[i].key != s[j].key
  {
    DistinctKeys(t.entries[..], t.hash);
  }

  lemma NoSlots(s: seq<Slot>)
    ensures Taken(s[..0]) == 0 && Holds(s[..0], map[])
  {
  }

  lemma DistinctKeys(s: seq<Slot>, hash: Key -> nat)
    requires |s| > 0 ==> Probeable(s, hash)
    ensures forall i, j :: 0 <= i < j < |s| && s[i].IsUsed() && s[j].IsUsed() ==> s[i].key != s[j].key
  {
  }

  lemma NothingHeld(s: seq<Slot>, contents: map<Key, Value>)
    requires Taken(s) == 0 && Holds(s, contents)
    ensures contents == map[]
  {
    ZeroTaken(s);
    assert forall k :: k in contents ==> Present(s, k);
  }

  lemma LessThanAll(s: seq<Slot>)
    ensures Taken(s) > 0 && 4 * Taken(s) <= 3 * |s| ==> Taken(s) < |s|
  {
  }

  lemma FoundInside(s: seq<Slot>, hash: Key -> nat, k: Key, i: nat)
    requires Found(s, hash, k, i)
    ensures i < |s|
  {
  }
}
