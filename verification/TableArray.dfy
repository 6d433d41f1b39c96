/** The array part of a table, as its values up to the last one and its capacity (`table_set_array`). */
module TableArray {
  datatype ArrayPart<V> = ArrayPart(values: seq<V>, capacity: nat)

  function Nils<V>(n: nat, nil: V): seq<V> {
    seq(n, _ => nil)
  }

  /** How many values come before the first nil. */
  function FirstNil<V(==)>(a: seq<V>, nil: V): (n: nat)
    ensures n <= |a|
  {
    if a == [] || a[0] == nil then 0 else 1 + FirstNil(a[1..], nil)
  }

  /** Without trailing nils. */
  function Trimmed<V(==)>(s: seq<V>, nil: V): seq<V> {
    if s != [] && s[|s| - 1] == nil then Trimmed(s[..|s| - 1], nil) else s
  }

  /** The capacity doubles when the index does not fit; a stored index is at most one past the last value. */
  function Grown(capacity: nat, index: nat): nat {
    if index <= capacity then capacity else if capacity == 0 then 8 else 2 * capacity
  }

  /** Storing at a 1-based index; what would leave a gap beyond the capacity is not stored. */
  function Store<V(==)>(a: ArrayPart<V>, index: int, v: V, nil: V): ArrayPart<V> {
    if index < 1 || (index > |a.values| + 1 && index > a.capacity) then a
    else
      var capacity := Grown(a.capacity, index);
      if v != nil then
        if index <= |a.values| then ArrayPart(a.values[index - 1 := v], capacity)
        else ArrayPart(a.values + Nils(index - 1 - |a.values|, nil) + [v], capacity)
      else if index < |a.values| then ArrayPart(a.values[index - 1 := v], capacity)
      else if index == |a.values| then ArrayPart(Trimmed(a.values[..index - 1], nil), capacity)
      else ArrayPart(a.values, capacity)
  }

  /** Storing right behind the last value appends. */
  lemma StoreNext<V>(a: ArrayPart<V>, v: V, nil: V)
    requires v != nil
    ensures Store(a, |a.values| + 1, v, nil).values == a.values + [v]
  {
  }
}
