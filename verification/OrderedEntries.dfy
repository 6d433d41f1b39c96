/** The store's contents as a strictly sorted list of entries, and as the ordered map it stands for. */
module OrderedEntries {
  import opened Atoms
  import opened Options
  import opened Nodes

  ghost predicate Sorted(s: seq<LeafEntry>) {
    forall i, j :: 0 <= i < j < |s| ==> Compare(s[i].key, s[j].key) < 0
  }

  ghost predicate AllBelow(s: seq<LeafEntry>, k: Atom) {
    forall i :: 0 <= i < |s| ==> Compare(s[i].key, k) < 0
  }

  ghost predicate AllAbove(s: seq<LeafEntry>, k: Atom) {
    forall i :: 0 <= i < |s| ==> Compare(k, s[i].key) < 0
  }

  /** How many entries at the front have smaller keys. */
  ghost function LowerBound(s: seq<LeafEntry>, k: Atom): (p: nat)
    ensures p <= |s|
  {
    if s == [] || Compare(s[0].key, k) >= 0 then 0 else 1 + LowerBound(s[1..], k)
  }

  ghost predicate Has(s: seq<LeafEntry>, k: Atom) {
    LowerBound(s, k) < |s| && Compare(k, s[LowerBound(s, k)].key) == 0
  }

  /** Storing under a key already present keeps the key as first written and replaces the value. */
  ghost function Put(s: seq<LeafEntry>, k: Atom, v: Atom): seq<LeafEntry> {
    var p := LowerBound(s, k);
    if Has(s, k) then s[p := LeafEntry(s[p].key, v)]
    else s[..p] + [LeafEntry(k, v)] + s[p..]
  }

  ghost function Remove(s: seq<LeafEntry>, k: Atom): seq<LeafEntry> {
    var p := LowerBound(s, k);
    if Has(s, k) then s[..p] + s[p + 1..] else s
  }

  ghost function Get(s: seq<LeafEntry>, k: Atom): Option<Atom> {
    if Has(s, k) then Some(s[LowerBound(s, k)].value) else None
  }

  /** Nothing before position p is at or above k, nothing from p on is below k. */
  ghost predicate Splits(s: seq<LeafEntry>, k: Atom, p: nat) {
    && p <= |s|
    && (forall i :: 0 <= i < p ==> Compare(s[i].key, k) < 0)
    && (p < |s| ==> Compare(s[p].key, k) >= 0)
  }

  lemma {:induction false} SplitsAtBound(s: seq<LeafEntry>, k: Atom)
    ensures Splits(s, k, LowerBound(s, k))
  {
    if s != [] && Compare(s[0].key, k) < 0 {
      SplitsAtBound(s[1..], k);
      forall i | 0 <= i < LowerBound(s, k)
        ensures Compare(s[i].key, k) < 0
      {
        if i > 0 { assert s[i] == s[1..][i - 1]; }
      }
    }
  }

  lemma {:induction false} BoundIsUnique(s: seq<LeafEntry>, k: Atom, p: nat)
    requires Splits(s, k, p)
    ensures LowerBound(s, k) == p
  {
    if p > 0 {
      assert Splits(s[1..], k, p - 1);
      BoundIsUnique(s[1..], k, p - 1);
    }
  }

  lemma SortedParts(a: seq<LeafEntry>, b: seq<LeafEntry>)
    requires Sorted(a + b)
    ensures Sorted(a) && Sorted(b)
    ensures forall i, j :: 0 <= i < |a| && 0 <= j < |b| ==> Compare(a[i].key, b[j].key) < 0
  {
    var s := a + b;
    forall i, j | 0 <= i < j < |a| ensures Compare(a[i].key, a[j].key) < 0 { assert a[i] == s[i] && a[j] == s[j]; }
    forall i, j | 0 <= i < j < |b| ensures Compare(b[i].key, b[j].key) < 0 { assert b[i] == s[|a| + i] && b[j] == s[|a| + j]; }
    forall i, j | 0 <= i < |a| && 0 <= j < |b| ensures Compare(a[i].key, b[j].key) < 0 { assert a[i] == s[i] && b[j] == s[|a| + j]; }
  }

  lemma SortedJoin(a: seq<LeafEntry>, b: seq<LeafEntry>)
    requires Sorted(a) && Sorted(b)
    requires forall i, j :: 0 <= i < |a| && 0 <= j < |b| ==> Compare(a[i].key, b[j].key) < 0
    ensures Sorted(a + b)
  {
    var s := a + b;
    forall i, j | 0 <= i < j < |s|
      ensures Compare(s[i].key, s[j].key) < 0
    {
      if j < |a| {
        assert s[i] == a[i] && s[j] == a[j];
      } else if i < |a| {
        assert s[i] == a[i] && s[j] == b[j - |a|];
      } else {
        assert s[i] == b[i - |a|] && s[j] == b[j - |a|];
      }
    }
  }

  lemma SortedSlices(s: seq<LeafEntry>, p: nat)
    requires Sorted(s) && p <= |s|
    ensures Sorted(s[..p]) && Sorted(s[p..])
  {
    assert s == s[..p] + s[p..];
    SortedParts(s[..p], s[p..]);
  }

  // ----- a list around a key -----

  /** The list is what lies below the key, the entry with the key if there is one, and what lies above. */
  ghost predicate Around(s: seq<LeafEntry>, k: Atom, a: seq<LeafEntry>, m: seq<LeafEntry>, c: seq<LeafEntry>) {
    && s == a + m + c
    && AllBelow(a, k) && AllAbove(c, k)
    && |m| <= 1 && (m != [] ==> Compare(k, m[0].key) == 0)
  }

  lemma ThreeParts<T>(a: seq<T>, m: seq<T>, c: seq<T>, e: T)
    requires |m| <= 1
    ensures (a + m + c)[..|a|] == a
    ensures (a + m + c)[|a| + |m|..] == c
    ensures m != [] ==> (a + m + c)[|a|] == m[0] && (a + m + c)[|a| := e] == a + [e] + c
    ensures m == [] && c != [] ==> (a + m + c)[|a|] == c[0]
    ensures m == [] ==> a + m + c == a + c
  {
  }

  lemma AroundBound(s: seq<LeafEntry>, k: Atom, a: seq<LeafEntry>, m: seq<LeafEntry>, c: seq<LeafEntry>)
    requires Around(s, k, a, m, c)
    ensures LowerBound(s, k) == |a|
    ensures Has(s, k) <==> m != []
  {
    var p := |a|;
    if m != [] {
      assert s[p] == m[0];
      CompareFlips(k, m[0].key);
    } else if c != [] {
      assert s[p] == c[0];
      CompareFlips(k, c[0].key);
    }
    assert forall i :: 0 <= i < p ==> s[i] == a[i];
    BoundIsUnique(s, k, p);
  }

  /** The three parts determine what every operation does. */
  lemma AroundGives(s: seq<LeafEntry>, k: Atom, a: seq<LeafEntry>, m: seq<LeafEntry>, c: seq<LeafEntry>, v: Atom)
    requires Around(s, k, a, m, c)
    ensures LowerBound(s, k) == |a|
    ensures Has(s, k) <==> m != []
    ensures Get(s, k) == if m == [] then None else Some(m[0].value)
    ensures Put(s, k, v) == a + [LeafEntry(if m == [] then k else m[0].key, v)] + c
    ensures Remove(s, k) == a + c
  {
    AroundBound(s, k, a, m, c);
    ThreeParts(a, m, c, LeafEntry(if m == [] then k else m[0].key, v));
  }

  lemma AboveFrom(s: seq<LeafEntry>, k: Atom, q: nat)
    requires Sorted(s) && q <= |s|
    requires q < |s| ==> Compare(k, s[q].key) < 0
    ensures AllAbove(s[q..], k)
  {
    forall i | 0 <= i < |s[q..]|
      ensures Compare(k, s[q..][i].key) < 0
    {
      if i > 0 { CompareTransitive(k, s[q].key, s[q + i].key); }
    }
  }

  /** A sorted list always splits that way, and its parts are sorted. */
  lemma FindAround(s: seq<LeafEntry>, k: Atom) returns (a: seq<LeafEntry>, m: seq<LeafEntry>, c: seq<LeafEntry>)
    requires Sorted(s)
    ensures Around(s, k, a, m, c)
    ensures Sorted(a) && Sorted(c)
  {
    var p := LowerBound(s, k);
    SplitsAtBound(s, k);
    if p < |s| { CompareFlips(k, s[p].key); }
    var q := if p < |s| && Compare(k, s[p].key) == 0 then p + 1 else p;
    a, m, c := s[..p], s[p..q], s[q..];
    SortedSlices(s, p);
    SortedSlices(s, q);
    if p < q < |s| { CompareTransitive(k, s[p].key, s[q].key); }
    AboveFrom(s, k, q);
  }

  lemma Apart(a: seq<LeafEntry>, c: seq<LeafEntry>, k: Atom)
    requires AllBelow(a, k) && AllAbove(c, k)
    ensures forall i, j :: 0 <= i < |a| && 0 <= j < |c| ==> Compare(a[i].key, c[j].key) < 0
  {
    forall i, j | 0 <= i < |a| && 0 <= j < |c|
      ensures Compare(a[i].key, c[j].key) < 0
    {
      CompareTransitive(a[i].key, k, c[j].key);
    }
  }

  // ----- working on a middle part -----

  lemma WiderAround(x: seq<LeafEntry>, y: seq<LeafEntry>, k: Atom, a: seq<LeafEntry>, m: seq<LeafEntry>,
                    c: seq<LeafEntry>)
    requires AllBelow(x, k) && AllAbove(y, k)
    requires Around(a + m + c, k, a, m, c)
    ensures Around(x + (a + m + c) + y, k, x + a, m, c + y)
  {
    assert x + (a + m + c) + y == (x + a) + m + (c + y);
  }

  lemma Regroup<T>(x: seq<T>, a: seq<T>, m: seq<T>, c: seq<T>, y: seq<T>)
    ensures (x + a) + m + (c + y) == x + (a + m + c) + y
    ensures (x + a) + (c + y) == x + (a + c) + y
  {
  }

  /** A point operation on the whole list is that operation on the part where the key belongs. */
  lemma InMiddle(x: seq<LeafEntry>, s: seq<LeafEntry>, y: seq<LeafEntry>, k: Atom, v: Atom)
    requires AllBelow(x, k) && AllAbove(y, k) && Sorted(s)
    ensures Put(x + s + y, k, v) == x + Put(s, k, v) + y
    ensures Remove(x + s + y, k) == x + Remove(s, k) + y
    ensures Get(x + s + y, k) == Get(s, k)
    ensures Has(x + s + y, k) <==> Has(s, k)
  {
    var a, m, c := FindAround(s, k);
    AroundGives(s, k, a, m, c, v);
    WiderAround(x, y, k, a, m, c);
    AroundGives(x + s + y, k, x + a, m, c + y, v);
    Regroup(x, a, [LeafEntry(if m == [] then k else m[0].key, v)], c, y);
  }

  // ----- order is kept -----

  /** The entry put at a key is above the part before it and below the part behind it. */
  lemma AroundOrder(s: seq<LeafEntry>, k: Atom, a: seq<LeafEntry>, m: seq<LeafEntry>, c: seq<LeafEntry>, e: LeafEntry)
    requires Around(s, k, a, m, c) && e.key == (if m == [] then k else m[0].key)
    ensures AllBelow(a, k) && AllAbove(c, k) && Sorted([e])
    ensures forall i :: 0 <= i < |a| ==> Compare(a[i].key, e.key) < 0
    ensures forall i :: 0 <= i < |c| ==> Compare(e.key, c[i].key) < 0
  {
    hide Compare;
    forall i | 0 <= i < |a| ensures Compare(a[i].key, e.key) < 0 {
      if m != [] { CompareTransitive(a[i].key, k, e.key); }
    }
    forall i | 0 <= i < |c| ensures Compare(e.key, c[i].key) < 0 {
      if m != [] { CompareFlips(k, e.key); CompareTransitive(e.key, k, c[i].key); }
    }
  }

  lemma EntryJoin(a: seq<LeafEntry>, e: LeafEntry, c: seq<LeafEntry>)
    requires forall i, j :: 0 <= i < |a| && 0 <= j < |c| ==> Compare(a[i].key, c[j].key) < 0
    requires forall j :: 0 <= j < |c| ==> Compare(e.key, c[j].key) < 0
    ensures forall i, j :: 0 <= i < |a + [e]| && 0 <= j < |c| ==> Compare((a + [e])[i].key, c[j].key) < 0
  {
    hide Compare;
  }

  lemma PutSorted(s: seq<LeafEntry>, k: Atom, v: Atom)
    requires Sorted(s)
    ensures Sorted(Put(s, k, v))
  {
    hide *;
    var a, m, c := FindAround(s, k);
    AroundGives(s, k, a, m, c, v);
    var e := LeafEntry(if m == [] then k else m[0].key, v);
    AroundOrder(s, k, a, m, c, e);
    SortedJoin(a, [e]);
    Apart(a, c, k);
    EntryJoin(a, e, c);
    SortedJoin(a + [e], c);
  }

  lemma RemoveSorted(s: seq<LeafEntry>, k: Atom)
    requires Sorted(s)
    ensures Sorted(Remove(s, k))
  {
    var a, m, c := FindAround(s, k);
    AroundGives(s, k, a, m, c, k);
    Apart(a, c, k);
    SortedJoin(a, c);
  }

  /** A key at or above the first one does not displace it. */
  lemma PutKeepsFirst(s: seq<LeafEntry>, k: Atom, v: Atom)
    requires s != [] && Compare(s[0].key, k) <= 0
    ensures Put(s, k, v) != [] && Put(s, k, v)[0].key == s[0].key
  {
    CompareFlips(s[0].key, k);
  }

  // ----- the ordered map -----

  ghost function AsMap(s: seq<LeafEntry>): map<Key, Atom> {
    if s == [] then map[] else AsMap(s[1..])[KeyOf(s[0].key) := s[0].value]
  }

  lemma {:induction false} AsMapSplit(a: seq<LeafEntry>, b: seq<LeafEntry>)
    ensures AsMap(a + b) == AsMap(b) + AsMap(a)
  {
    if a == [] {
      assert a + b == b;
    } else {
      assert (a + b)[1..] == a[1..] + b;
      AsMapSplit(a[1..], b);
    }
  }

  lemma {:induction false} MapKeysApart(s: seq<LeafEntry>, k: Atom)
    requires AllBelow(s, k) || AllAbove(s, k)
    ensures KeyOf(k) !in AsMap(s)
  {
    if s != [] {
      CompareZero(s[0].key, k);
      CompareFlips(s[0].key, k);
      MapKeysApart(s[1..], k);
    }
  }

  /** The map of a list around a key: everything else, plus the entry with the key if there is one. */
  lemma MapAround(k: Atom, a: seq<LeafEntry>, m: seq<LeafEntry>, c: seq<LeafEntry>)
    requires AllBelow(a, k) && AllAbove(c, k)
    requires |m| <= 1 && (m != [] ==> KeyOf(k) == KeyOf(m[0].key))
    ensures KeyOf(k) !in AsMap(c) + AsMap(a)
    ensures AsMap(a + m + c) == if m == [] then AsMap(c) + AsMap(a) else (AsMap(c) + AsMap(a))[KeyOf(k) := m[0].value]
  {
    MapKeysApart(a, k);
    MapKeysApart(c, k);
    AsMapSplit(a + m, c);
    AsMapSplit(a, m);
    if m == [] {
      assert a + m == a;
    } else {
      assert m[1..] == [];
      assert AsMap(m) == map[KeyOf(k) := m[0].value];
    }
  }

  lemma EraseKey<K, V>(rest: map<K, V>, k: K, m: map<K, V>)
    requires k !in rest
    requires m == rest || (k in m && m == rest[k := m[k]])
    ensures m - {k} == rest
  {
  }

  lemma SetTwice<K, V>(rest: map<K, V>, k: K, u: V, v: V)
    ensures rest[k := u][k := v] == rest[k := v]
  {
  }

  /** Storing an entry is a map update. */
  lemma PutIsUpdate(s: seq<LeafEntry>, k: Atom, v: Atom)
    requires Sorted(s)
    ensures AsMap(Put(s, k, v)) == AsMap(s)[KeyOf(k) := v]
  {
    var a, m, c := FindAround(s, k);
    AroundGives(s, k, a, m, c, v);
    if m != [] { CompareZero(k, m[0].key); }
    var e := LeafEntry(if m == [] then k else m[0].key, v);
    assert KeyOf(e.key) == KeyOf(k);
    hide Put, Compare, KeyOf, AsMap, Sorted, Around, AllBelow, AllAbove;
    MapAround(k, a, m, c);
    MapAround(k, a, [e], c);
    if m != [] { SetTwice(AsMap(c) + AsMap(a), KeyOf(k), m[0].value, v); }
  }

  /** Deleting an entry removes exactly its key from the map. */
  lemma RemoveIsErase(s: seq<LeafEntry>, k: Atom)
    requires Sorted(s)
    ensures AsMap(Remove(s, k)) == AsMap(s) - {KeyOf(k)}
  {
    var a, m, c := FindAround(s, k);
    AroundGives(s, k, a, m, c, k);
    if m != [] { CompareZero(k, m[0].key); }
    MapAround(k, a, m, c);
    AsMapSplit(a, c);
    EraseKey(AsMap(a + c), KeyOf(k), AsMap(s));
  }

  /** Searching the list is a map lookup. */
  lemma GetIsLookup(s: seq<LeafEntry>, k: Atom)
    requires Sorted(s)
    ensures Get(s, k) == if KeyOf(k) in AsMap(s) then Some(AsMap(s)[KeyOf(k)]) else None
  {
    var a, m, c := FindAround(s, k);
    AroundGives(s, k, a, m, c, k);
    if m != [] { CompareZero(k, m[0].key); }
    MapAround(k, a, m, c);
  }

  datatype Op = PutOp(key: Atom, value: Atom) | DeleteOp(key: Atom)

  ghost function Applied(s: seq<LeafEntry>, op: Op): seq<LeafEntry> {
    match op
    case PutOp(k, v) => Put(s, k, v)
    case DeleteOp(k) => Remove(s, k)
  }

  ghost function RunEntries(ops: seq<Op>): seq<LeafEntry> {
    if ops == [] then [] else Applied(RunEntries(ops[..|ops| - 1]), ops[|ops| - 1])
  }

  ghost function RunMap(ops: seq<Op>): map<Key, Atom> {
    if ops == [] then map[]
    else
      var m := RunMap(ops[..|ops| - 1]);
      match ops[|ops| - 1]
      case PutOp(k, v) => m[KeyOf(k) := v]
      case DeleteOp(k) => m - {KeyOf(k)}
  }

  /** After any run the list is sorted and looks up every key as the map does. */
  lemma {:induction false} RunRefinesMap(ops: seq<Op>)
    ensures Sorted(RunEntries(ops))
    ensures AsMap(RunEntries(ops)) == RunMap(ops)
    ensures forall k :: Get(RunEntries(ops), k) == if KeyOf(k) in RunMap(ops) then Some(RunMap(ops)[KeyOf(k)]) else None
  {
    if ops != [] {
      var s := RunEntries(ops[..|ops| - 1]);
      RunRefinesMap(ops[..|ops| - 1]);
      match ops[|ops| - 1] {
        case PutOp(k, v) => PutSorted(s, k, v); PutIsUpdate(s, k, v);
        case DeleteOp(k) => RemoveSorted(s, k); RemoveIsErase(s, k);
      }
    }
    forall k
      ensures Get(RunEntries(ops), k) == if KeyOf(k) in RunMap(ops) then Some(RunMap(ops)[KeyOf(k)]) else None
    {
      GetIsLookup(RunEntries(ops), k);
    }
  }

  /** One more operation of a run. */
  lemma RunNext(ops: seq<Op>, n: nat)
    requires n < |ops|
    ensures RunEntries(ops[..n + 1]) == Applied(RunEntries(ops[..n]), ops[n])
  {
    assert ops[..n + 1][..n] == ops[..n];
  }

  /** A run stores no other keys than it was given. */
  lemma {:induction false} RunKeys(ops: seq<Op>, e: LeafEntry)
    requires e in RunEntries(ops)
    ensures exists i :: 0 <= i < |ops| && ops[i].key == e.key
  {
    var init := ops[..|ops| - 1];
    if e in RunEntries(init) {
      RunKeys(init, e);
      var i :| 0 <= i < |init| && init[i].key == e.key;
      assert ops[i].key == e.key;
    } else {
      var s := RunEntries(init);
      match ops[|ops| - 1]
      case PutOp(k, v) =>
        if Has(s, k) {
          var held := s[LowerBound(s, k)];
          assert held in s && e.key == held.key;
          RunKeys(init, held);
          var i :| 0 <= i < |init| && init[i].key == held.key;
          assert ops[i].key == e.key;
        } else {
          assert ops[|ops| - 1].key == e.key;
        }
      case DeleteOp(k) =>
    }
  }

  // ----- searching a leaf -----

  /** `leaf_find_slot`: binary search. */
  method FindSlot(s: seq<LeafEntry>, k: Atom) returns (found: bool, pos: nat)
    requires Sorted(s)
    ensures found <==> Has(s, k)
    ensures pos == LowerBound(s, k)
  {
    var lo, hi := 0, |s|;
    while lo < hi
      invariant 0 <= lo <= hi <= |s|
      invariant forall i :: 0 <= i < lo ==> Compare(s[i].key, k) < 0
      invariant forall i :: hi <= i < |s| ==> Compare(k, s[i].key) < 0
    {
      var mid := lo + (hi - lo) / 2;
      var cmp := Compare(k, s[mid].key);
      CompareFlips(s[mid].key, k);
      forall i | 0 <= i < |s| && i != mid
        ensures i < mid && cmp >= 0 ==> Compare(s[i].key, k) < 0
        ensures i > mid && cmp <= 0 ==> Compare(k, s[i].key) < 0
      {
        if i < mid && cmp >= 0 { CompareTransitive(s[i].key, s[mid].key, k); }
        if i > mid && cmp <= 0 { CompareTransitive(k, s[mid].key, s[i].key); }
      }
      if cmp == 0 {
        BoundIsUnique(s, k, mid);
        return true, mid;
      }
      if cmp < 0 { hi := mid; } else { lo := mid + 1; }
    }
    if lo < |s| { CompareFlips(k, s[lo].key); }
    BoundIsUnique(s, k, lo);
    return false, lo;
  }

  // ----- ranges -----

  predicate InRange(e: LeafEntry, min: Option<Atom>, max: Option<Atom>) {
    && (min.Some? ==> Compare(e.key, min.value) >= 0)
    && (max.Some? ==> Compare(e.key, max.value) <= 0)
  }

  ghost function Between(s: seq<LeafEntry>, min: Option<Atom>, max: Option<Atom>): seq<LeafEntry> {
    if s == [] then []
    else (if InRange(s[0], min, max) then [s[0]] else []) + Between(s[1..], min, max)
  }

  /** The first `limit` entries; a negative limit means all of them. */
  ghost function Limited(s: seq<LeafEntry>, limit: int): seq<LeafEntry> {
    if 0 <= limit < |s| then s[..limit] else s
  }

  lemma {:induction false} BetweenSplit(a: seq<LeafEntry>, b: seq<LeafEntry>, min: Option<Atom>, max: Option<Atom>)
    ensures Between(a + b, min, max) == Between(a, min, max) + Between(b, min, max)
  {
    if a == [] {
      assert a + b == b;
    } else {
      assert (a + b)[1..] == a[1..] + b && (a + b)[0] == a[0];
      BetweenSplit(a[1..], b, min, max);
      var first := if InRange(a[0], min, max) then [a[0]] else [];
      assert first + (Between(a[1..], min, max) + Between(b, min, max)) ==
             (first + Between(a[1..], min, max)) + Between(b, min, max);
    }
  }

  /** A range of a sorted list is sorted and holds exactly the entries within the bounds. */
  lemma {:induction false} BetweenIsExact(s: seq<LeafEntry>, min: Option<Atom>, max: Option<Atom>)
    requires Sorted(s)
    ensures Sorted(Between(s, min, max))
    ensures forall e :: e in Between(s, min, max) <==> e in s && InRange(e, min, max)
  {
    hide Compare, InRange;
    if s != [] {
      assert s == s[..1] + s[1..];
      SortedParts(s[..1], s[1..]);
      BetweenIsExact(s[1..], min, max);
      var r := Between(s[1..], min, max);
      forall j | 0 <= j < |r|
        ensures Compare(s[0].key, r[j].key) < 0
      {
        assert r[j] in s[1..];
        var i :| 0 <= i < |s[1..]| && s[1..][i] == r[j];
        assert s[..1][0] == s[0];
      }
      forall e
        ensures e in s <==> e == s[0] || e in s[1..]
      {
      }
    }
  }

  /** Cutting at the limit after every part gives the same as cutting once at the end. */
  lemma LimitedTwice(a: seq<LeafEntry>, b: seq<LeafEntry>, c: seq<LeafEntry>, limit: int)
    requires limit >= 0 ==> |a| <= limit
    ensures Limited(Limited(a + b, limit) + c, limit) == Limited(a + (b + c), limit)
    ensures limit >= 0 ==> |Limited(a + b, limit)| <= limit
  {
    assert a + b + c == a + (b + c);
    if 0 <= limit < |a + b| {
      assert (a + (b + c))[..limit] == (a + b)[..limit];
    }
  }

  /** A full result takes nothing more. */
  lemma LimitedFull(a: seq<LeafEntry>, b: seq<LeafEntry>, limit: int)
    requires 0 <= limit == |a|
    ensures Limited(a + b, limit) == a
  {
  }

  /** With crossed bounds nothing is in range. */
  lemma {:induction false} CrossedBounds(s: seq<LeafEntry>, min: Atom, max: Atom)
    requires Compare(min, max) > 0
    ensures Between(s, Some(min), Some(max)) == []
  {
    if s != [] {
      CrossedBounds(s[1..], min, max);
      if InRange(s[0], Some(min), Some(max)) {
        CompareFlips(s[0].key, min);
        CompareTransitive(min, s[0].key, max);
      }
    }
  }

  /** In a sorted list nothing from an entry above the maximum on is in range. */
  lemma {:induction false} PastMaximum(s: seq<LeafEntry>, min: Option<Atom>, max: Atom)
    requires Sorted(s) && (s != [] ==> Compare(s[0].key, max) > 0)
    ensures Between(s, min, Some(max)) == []
  {
    if s != [] {
      var rest := s[1..];
      if rest != [] {
        CompareFlips(s[0].key, max);
        assert rest[0] == s[1];
        CompareTransitive(max, s[0].key, rest[0].key);
        CompareFlips(max, rest[0].key);
      }
      SortedSlices(s, 1);
      PastMaximum(rest, min, max);
    }
  }

  lemma LimitedSorted(s: seq<LeafEntry>, limit: int)
    requires Sorted(s)
    ensures Sorted(Limited(s, limit))
  {
  }

  /** Scanning one entry further. */
  lemma BetweenStep(s: seq<LeafEntry>, i: nat, min: Option<Atom>, max: Option<Atom>)
    requires i < |s|
    ensures Between(s[..i + 1], min, max) ==
            Between(s[..i], min, max) + (if InRange(s[i], min, max) then [s[i]] else [])
    ensures Between(s, min, max) == Between(s[..i], min, max) + Between(s[i..], min, max)
  {
    assert s == s[..i] + s[i..];
    BetweenSplit(s[..i], s[i..], min, max);
    assert s[..i + 1] == s[..i] + [s[i]];
    BetweenSplit(s[..i], [s[i]], min, max);
    assert [s[i]][1..] == [];
    assert Between([s[i]], min, max) == (if InRange(s[i], min, max) then [s[i]] else []) + Between([], min, max);
  }

  /** The scan is done when the limit is reached. */
  lemma BetweenFull(s: seq<LeafEntry>, i: nat, min: Option<Atom>, max: Option<Atom>, found: seq<LeafEntry>, limit: int)
    requires i < |s| && limit == |found + Between(s[..i], min, max)|
    ensures Limited(found + Between(s, min, max), limit) == found + Between(s[..i], min, max)
  {
    BetweenStep(s, i, min, max);
    var a, b := Between(s[..i], min, max), Between(s[i..], min, max);
    assert found + (a + b) == (found + a) + b;
    LimitedFull(found + a, b, limit);
  }
}
