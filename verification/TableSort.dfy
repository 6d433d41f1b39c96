/** `table.sort` with a comparator: an insertion sort of the array part, up to its first nil. */
module TableSort {
  import opened HeapGraph
  import HashTable
  import opened TableArray
  import opened Options

  /** What a call of the comparator says of its arguments; None is a runtime error. */
  type Comparator = (Value, Value) -> Option<bool>

  function Less(cmp: Comparator, a: Value, b: Value): bool {
    cmp(a, b) == Some(true)
  }

  /** On these values the comparator is a strict weak order: asymmetric, and not-less is transitive. */
  ghost predicate WeaklyOrders(cmp: Comparator, s: seq<Value>) {
    && (forall i, j :: 0 <= i < |s| && 0 <= j < |s| && Less(cmp, s[i], s[j]) ==> !Less(cmp, s[j], s[i]))
    && (forall i, j, k :: 0 <= i < |s| && 0 <= j < |s| && 0 <= k < |s| && Less(cmp, s[i], s[k]) ==>
         Less(cmp, s[i], s[j]) || Less(cmp, s[j], s[k]))
  }

  /** The order of a stable sort: by value, and among equivalent values by position. */
  ghost predicate Before(cmp: Comparator, s: seq<Value>, a: nat, b: nat)
    requires a < |s| && b < |s|
  {
    Less(cmp, s[a], s[b]) || (!Less(cmp, s[b], s[a]) && a < b)
  }

  /** Every position of a sequence of this length, once. */
  ghost predicate Arrangement(order: seq<nat>, n: nat) {
    && |order| == n
    && (forall i :: 0 <= i < n ==> order[i] < n)
    && (forall i, j :: 0 <= i < j < n ==> order[i] != order[j])
  }

  ghost predicate Arranged(r: seq<Value>, s: seq<Value>, order: seq<nat>) {
    Arrangement(order, |s|) && |r| == |s| && forall i :: 0 <= i < |r| ==> r[i] == s[order[i]]
  }

  /** The first n places come in stable order. */
  ghost predicate InOrder(cmp: Comparator, s: seq<Value>, order: seq<nat>, n: nat)
    requires Arrangement(order, |s|) && n <= |s|
  {
    forall i, j :: 0 <= i < j < n ==> Before(cmp, s, order[i], order[j])
  }

  ghost predicate StablySorted(cmp: Comparator, s: seq<Value>, r: seq<Value>) {
    exists order :: Arranged(r, s, order) && InOrder(cmp, s, order, |s|)
  }

  lemma BeforeChain(cmp: Comparator, s: seq<Value>, a: nat, b: nat, c: nat)
    requires WeaklyOrders(cmp, s) && a < |s| && b < |s| && c < |s|
    requires Before(cmp, s, a, b) && Before(cmp, s, b, c)
    ensures Before(cmp, s, a, c)
  {
  }

  lemma BeforeOneWay(cmp: Comparator, s: seq<Value>, a: nat, b: nat)
    requires WeaklyOrders(cmp, s) && a < |s| && b < |s| && Before(cmp, s, a, b)
    ensures !Before(cmp, s, b, a)
  {
  }

  function Positions(n: nat): (r: set<nat>)
    ensures |r| == n && forall k: nat :: k in r <==> k < n
  {
    if n == 0 then {} else Positions(n - 1) + {n - 1}
  }

  lemma {:induction false} FewDistinct(order: seq<nat>, from: set<nat>)
    requires forall i :: 0 <= i < |order| ==> order[i] in from
    requires forall i, j :: 0 <= i < j < |order| ==> order[i] != order[j]
    ensures |order| <= |from|
  {
    if order != [] {
      FewDistinct(order[1..], from - {order[0]});
    }
  }

  /** Every position is somewhere in an arrangement. */
  lemma {:induction false} Covers(order: seq<nat>, n: nat, p: nat) returns (i: nat)
    requires Arrangement(order, n) && p < n
    ensures i < n && order[i] == p
  {
    if p !in order {
      FewDistinct(order, Positions(n) - {p});
      assert false;
    }
    i :| 0 <= i < n && order[i] == p;
  }

  /** A stable sort is determined by the values and the order alone. */
  lemma {:induction false} SameArrangement(cmp: Comparator, s: seq<Value>, o: seq<nat>, q: seq<nat>, n: nat)
    requires WeaklyOrders(cmp, s) && Arrangement(o, |s|) && Arrangement(q, |s|) && n <= |s|
    requires InOrder(cmp, s, o, |s|) && InOrder(cmp, s, q, |s|)
    ensures o[..n] == q[..n]
  {
    hide Before, WeaklyOrders;
    if n > 0 {
      SameArrangement(cmp, s, o, q, n - 1);
      var m := n - 1;
      assert forall k :: 0 <= k < m ==> o[k] == o[..m][k] == q[..m][k] == q[k];
      if o[m] != q[m] {
        var i := Covers(o, |s|, q[m]);
        var j := Covers(q, |s|, o[m]);
        assert i > m && j > m;
        BeforeOneWay(cmp, s, o[m], q[m]);
        assert false;
      }
      assert o[..n] == o[..m] + [o[m]] && q[..n] == q[..m] + [q[m]];
    }
  }

  /** There is one stably sorted arrangement of any values. */
  lemma SortedUnique(cmp: Comparator, s: seq<Value>, r: seq<Value>, t: seq<Value>)
    requires WeaklyOrders(cmp, s) && StablySorted(cmp, s, r) && StablySorted(cmp, s, t)
    ensures r == t
  {
    var o :| Arranged(r, s, o) && InOrder(cmp, s, o, |s|);
    var q :| Arranged(t, s, q) && InOrder(cmp, s, q, |s|);
    SameArrangement(cmp, s, o, q, |s|);
    assert o[..|s|] == o && q[..|s|] == q;
  }

  /** The arrangement without its last place, of the values without the one that stood there. */
  lemma WithoutLast(r: seq<Value>, s: seq<Value>, order: seq<nat>) returns (order': seq<nat>)
    requires Arranged(r, s, order) && r != []
    ensures var n := |s| - 1; Arranged(r[..n], s[..order[n]] + s[order[n] + 1..], order')
  {
    var n := |s| - 1;
    var at := order[n];
    order' := seq(n, i requires 0 <= i < n => if order[i] < at then order[i] else (order[i] - 1) as nat);
    assert forall i :: 0 <= i < n ==> order[i] != at;
  }

  /** Nothing is lost, added or doubled by an arrangement. */
  lemma {:induction false} SameValues(r: seq<Value>, s: seq<Value>, order: seq<nat>)
    requires Arranged(r, s, order)
    ensures multiset(r) == multiset(s)
  {
    if r != [] {
      var n := |s| - 1;
      var at := order[n];
      var order' := WithoutLast(r, s, order);
      assert r == r[..n] + [s[at]];
      assert s == s[..at] + [s[at]] + s[at + 1..];
      hide *;
      SameValues(r[..n], s[..at] + s[at + 1..], order');
    }
  }

  /** The value at place i moved down to place p, those between one up. */
  function Inserted<T>(s: seq<T>, i: nat, p: nat): (r: seq<T>)
    requires p <= i < |s|
    ensures |r| == |s|
  {
    s[..p] + [s[i]] + s[p..i] + s[i + 1..]
  }

  lemma InsertedAt<T>(s: seq<T>, i: nat, p: nat, k: nat)
    requires p <= i < |s| && k < |s|
    ensures Inserted(s, i, p)[k] == s[Source(i, p, k)]
  {
  }

  /** Where the value at a place of the new sequence was before. */
  function Source(i: nat, p: nat, k: nat): nat
    requires p <= i
  {
    if k < p || k > i then k else if k == p then i else k - 1
  }

  /** One round of the insertion keeps an arrangement. */
  lemma InsertRound(s: seq<Value>, r: seq<Value>, order: seq<nat>, i: nat, p: nat)
    requires Arranged(r, s, order) && p <= i < |s|
    requires forall k :: i <= k < |s| ==> order[k] == k
    requires forall k :: 0 <= k < i ==> order[k] < i
    ensures Arranged(Inserted(r, i, p), s, Inserted(order, i, p))
    ensures forall k :: i < k < |s| ==> Inserted(order, i, p)[k] == k
    ensures forall k :: 0 <= k <= i ==> Inserted(order, i, p)[k] <= i
  {
    var o, t := Inserted(order, i, p), Inserted(r, i, p);
    forall k | 0 <= k < |s|
      ensures o[k] == order[Source(i, p, k)] && t[k] == r[Source(i, p, k)]
    {
      InsertedAt(order, i, p, k);
      InsertedAt(r, i, p, k);
    }
    hide Inserted;
  }

  lemma InsertOrdered(cmp: Comparator, s: seq<Value>, order: seq<nat>, i: nat, p: nat)
    requires Arrangement(order, |s|) && p <= i < |s| && WeaklyOrders(cmp, s)
    requires InOrder(cmp, s, order, i)
    requires forall k :: 0 <= k < i ==> order[k] < i
    requires order[i] == i
    requires forall k :: p <= k < i ==> Less(cmp, s[i], s[order[k]])
    requires p > 0 ==> !Less(cmp, s[i], s[order[p - 1]])
    requires Arrangement(Inserted(order, i, p), |s|)
    ensures InOrder(cmp, s, Inserted(order, i, p), i + 1)
  {
    var o := Inserted(order, i, p);
    forall k: nat | k < p
      ensures Before(cmp, s, order[k], i)
    {
      assert Before(cmp, s, order[p - 1], i);
      if k < p - 1 { BeforeChain(cmp, s, order[k], order[p - 1], i); }
    }
    forall a: nat, b: nat | a < b < i + 1
      ensures Before(cmp, s, o[a], o[b])
    {
      InsertedAt(order, i, p, a);
      InsertedAt(order, i, p, b);
    }
  }

  lemma Moved<T>(b: seq<T>, c: seq<T>, i: nat, p: nat)
    requires p <= i < |b| == |c|
    requires forall k :: 0 <= k < p || i < k < |b| ==> c[k] == b[k]
    requires c[p] == b[i] && forall k :: p <= k < i ==> c[k + 1] == b[k]
    ensures c == Inserted(b, i, p)
  {
    forall k | 0 <= k < |b|
      ensures c[k] == Inserted(b, i, p)[k]
    {
      if p < k <= i { assert c[k - 1 + 1] == b[k - 1]; }
      InsertedAt(b, i, p, k);
    }
  }

  function Identity(n: nat): seq<nat> {
    seq(n, i => i)
  }

  lemma FirstInOrder(cmp: Comparator, s: seq<Value>, order: seq<nat>)
    requires order == Identity(|s|)
    ensures Arranged(s, s, order) && InOrder(cmp, s, order, if |s| == 0 then 0 else 1)
  {
  }

  /** The values of a table's array part up to the first nil, which `table.sort` works on. */
  ghost function Listed(s: seq<Value>): seq<Value> {
    s[..FirstNil(s, Nil)]
  }

  lemma {:induction false} FirstNilIs(s: seq<Value>, n: nat)
    requires n <= |s| && (n < |s| ==> s[n] == Nil) && Nil !in s[..n]
    ensures FirstNil(s, Nil) == n
  {
    if n > 0 {
      assert s[0] == s[..n][0];
      assert s[1..][..n - 1] == s[..n][1..];
      FirstNilIs(s[1..], n - 1);
    }
  }

  /** Where the key goes, searched for from the back; None when a comparison on the way fails. */
  function Place(cmp: Comparator, front: seq<Value>, key: Value): (p: Option<nat>)
    ensures p.Some? ==> p.value <= |front| && forall k :: p.value <= k < |front| ==> Less(cmp, key, front[k])
    ensures p.Some? && p.value > 0 ==> cmp(key, front[p.value - 1]) == Some(false)
    ensures p.None? ==> exists k :: 0 <= k < |front| && cmp(key, front[k]) == None
  {
    if front == [] then Some(0)
    else
      match cmp(key, front[|front| - 1])
      case None => None
      case Some(less) => if less then Place(cmp, front[..|front| - 1], key) else Some(|front|)
  }

  lemma PlaceStep(cmp: Comparator, b: seq<Value>, n: nat, key: Value)
    requires n <= |b|
    ensures Place(cmp, b[..n], key) ==
            if n == 0 then Some(0)
            else match cmp(key, b[n - 1]) case None => None case Some(less) => if less then Place(cmp, b[..n - 1], key) else Some(n)
  {
    if n > 0 { assert b[..n][..n - 1] == b[..n - 1]; }
  }

  /** The rounds from place i on; None when one of them fails. */
  function Rounds(cmp: Comparator, r: seq<Value>, i: nat): Option<seq<Value>>
    decreases |r| - i
  {
    if i >= |r| then Some(r)
    else
      match Place(cmp, r[..i], r[i])
      case None => None
      case Some(p) => Rounds(cmp, Inserted(r, i, p), i + 1)
  }

  /** One round of the insertion sort: the value at place i goes right below the values it is less than. */
  method InsertOne(arr: array<Value>, i: nat, cmp: Comparator) returns (ok: bool)
    requires i < arr.Length
    modifies arr
    ensures var p := Place(cmp, old(arr[..i]), old(arr[i]));
            ok == p.Some? && (ok ==> arr[..] == Inserted(old(arr[..]), i, p.value))
  {
    var key, j := arr[i], i - 1;
    ghost var b := arr[..];
    assert b[..i] == arr[..i];
    PlaceStep(cmp, b, 0, key);
    hide Place, Inserted;
    while j >= 0
      invariant -1 <= j < i
      invariant forall k :: 0 <= k <= j + 1 || i < k < |b| ==> arr[k] == b[k]
      invariant forall k :: j + 1 <= k < i ==> arr[k + 1] == b[k]
      invariant Place(cmp, b[..i], key) == Place(cmp, b[..j + 1], key)
    {
      assert arr[j] == b[j];
      PlaceStep(cmp, b, j + 1, key);
      var less := cmp(key, arr[j]);
      if less.None? {
        return false;
      }
      if !less.value {
        break;
      }
      arr[j + 1] := arr[j];
      j := j - 1;
    }
    arr[j + 1] := key;
    if j < 0 { PlaceStep(cmp, b, 0, key); }
    hide *;
    Moved(b, arr[..], i, j + 1);
    return true;
  }

  /** What holds when the first n places are sorted. */
  ghost predicate Progress(cmp: Comparator, s: seq<Value>, r: seq<Value>, order: seq<nat>, n: nat) {
    && n <= |s| && Arranged(r, s, order)
    && (forall k :: 0 <= k < n ==> order[k] < n)
    && (forall k :: n <= k < |s| ==> order[k] == k)
    && (WeaklyOrders(cmp, s) ==> InOrder(cmp, s, order, n))
  }

  lemma NextRound(cmp: Comparator, s: seq<Value>, r: seq<Value>, order: seq<nat>, i: nat)
    requires Progress(cmp, s, r, order, i) && i < |s| && Place(cmp, r[..i], r[i]).Some?
    ensures var p := Place(cmp, r[..i], r[i]).value;
            Progress(cmp, s, Inserted(r, i, p), Inserted(order, i, p), i + 1)
  {
    hide WeaklyOrders, InOrder, Place;
    var front, p := r[..i], Place(cmp, r[..i], r[i]).value;
    InsertRound(s, r, order, i, p);
    assert forall k :: 0 <= k < i ==> front[k] == s[order[k]];
    if WeaklyOrders(cmp, s) {
      InsertOrdered(cmp, s, order, i, p);
    }
    hide *;
  }

  /** The comparator fails on two of the values. */
  ghost predicate SomeFails(cmp: Comparator, s: seq<Value>) {
    exists i, j :: 0 <= i < |s| && 0 <= j < |s| && cmp(s[i], s[j]) == None
  }

  /** Whatever remains of the sort keeps the values and ends stably sorted, or the comparator fails. */
  lemma {:induction false} RoundsSort(cmp: Comparator, s: seq<Value>, r: seq<Value>, order: seq<nat>, i: nat)
    requires Progress(cmp, s, r, order, i)
    ensures match Rounds(cmp, r, i)
            case None => SomeFails(cmp, s)
            case Some(t) => |t| == |s| && multiset(t) == multiset(s)
                            && (WeaklyOrders(cmp, s) ==> StablySorted(cmp, s, t))
    decreases |s| - i
  {
    hide WeaklyOrders, InOrder, Place;
    if i == |s| {
      SameValues(r, s, order);
    } else {
      match Place(cmp, r[..i], r[i])
      case None =>
        var k :| 0 <= k < i && cmp(r[i], r[..i][k]) == None;
        assert cmp(s[order[i]], s[order[k]]) == None;
      case Some(p) =>
        NextRound(cmp, s, r, order, i);
        RoundsSort(cmp, s, Inserted(r, i, p), Inserted(order, i, p), i + 1);
    }
  }

  /**
   * The insertion sort of any values: a permutation, stably sorted for a strict weak order, or a failing comparison.
   */
  lemma SortIsStable(cmp: Comparator, s: seq<Value>)
    ensures match Rounds(cmp, s, 1)
            case None => SomeFails(cmp, s)
            case Some(t) => |t| == |s| && multiset(t) == multiset(s)
                            && (WeaklyOrders(cmp, s) ==> StablySorted(cmp, s, t))
  {
    FirstInOrder(cmp, s, Identity(|s|));
    if s == [] {
      assert StablySorted(cmp, s, s);
    } else {
      RoundsSort(cmp, s, s, Identity(|s|), 1);
    }
  }

  /** The insertion sort over the temporary array; it fails exactly when one of its comparisons does. */
  method SortValues(arr: array<Value>, cmp: Comparator) returns (ok: bool)
    modifies arr
    ensures ok <==> Rounds(cmp, old(arr[..]), 1).Some?
    ensures ok ==> arr[..] == Rounds(cmp, old(arr[..]), 1).value
  {
    hide Inserted, Place;
    var i := 1;
    while i < arr.Length
      invariant 1 <= i && Rounds(cmp, arr[..], i) == Rounds(cmp, old(arr[..]), 1)
      decreases arr.Length - i
    {
      assert arr[..][..i] == arr[..i];
      ok := InsertOne(arr, i, cmp);
      if !ok {
        return;
      }
      i := i + 1;
    }
    return true;
  }

  lemma PartAt(t: HashTable.Table, i: int)
    requires t.ArrayValid()
    ensures t.At(i) == HashTable.ValueAt(t.Part().values, i)
  {
  }

  /** The scan for the first nil. */
  method ListedLength(t: HashTable.Table) returns (len: nat)
    requires t.ArrayValid()
    ensures len <= |t.Part().values| && Listed(t.Part().values) == t.Part().values[..len]
    ensures Nil !in t.Part().values[..len]
  {
    ghost var was := t.Part().values;
    var i := 1;
    PartAt(t, i);
    var found, val := t.GetArray(i);
    while found
      invariant 1 <= i <= |was| + 1 && Nil !in was[..i - 1]
      invariant found <==> HashTable.ValueAt(was, i) != Nil
      decreases |was| - i
    {
      assert was[..i] == was[..i - 1] + [was[i - 1]];
      i := i + 1;
      PartAt(t, i);
      found, val := t.GetArray(i);
    }
    len := i - 1;
    FirstNilIs(was, len);
  }

  /**
   * `table.sort` with a comparator. The values before the first nil end up in the one stable order; everything
   * else in the table stays. It fails exactly when a comparison of the sort does, and leaves the table as it was.
   */
  method Sort(t: HashTable.Table, cmp: Comparator) returns (ok: bool)
    requires t.ArrayValid()
    modifies t`arrayPart, t`arrayMax, t.arrayPart
    ensures t.ArrayValid()
    ensures var was := old(t.Part()); var s := Listed(was.values); var r := Rounds(cmp, s, 1);
            && (ok <==> r.Some?)
            && t.Part() == if ok then ArrayPart(r.value + was.values[|s|..], was.capacity) else was
    ensures var s := Listed(old(t.Part()).values);
            if ok then
              var r := Rounds(cmp, s, 1).value;
              multiset(r) == multiset(s) && (WeaklyOrders(cmp, s) ==> StablySorted(cmp, s, r))
            else SomeFails(cmp, s)
  {
    ghost var was := t.Part().values;
    hide *;
    var len := ListedLength(t);
    assert was == was[..len] + was[len..];
    SortIsStable(cmp, was[..len]);
    if len <= 1 {
      FewSorted(cmp, was[..len]);
      return true;
    }
    var arr := CopyOut(t, len);
    ok := SortValues(arr, cmp);
    if ok {
      NoNil(arr[..], was[..len]);
      CopyBack(t, arr);
    }
  }

  lemma NoNil(r: seq<Value>, s: seq<Value>)
    requires multiset(r) == multiset(s) && Nil !in s
    ensures Nil !in r
  {
    assert Nil !in multiset(r);
  }

  lemma FewSorted(cmp: Comparator, s: seq<Value>)
    requires |s| <= 1
    ensures Rounds(cmp, s, 1) == Some(s)
  {
  }

  method CopyOut(t: HashTable.Table, len: nat) returns (arr: array<Value>)
    requires t.ArrayValid() && len <= |t.Part().values| && Nil !in t.Part().values[..len]
    ensures fresh(arr) && arr[..] == t.Part().values[..len]
  {
    ghost var s := t.Part().values;
    arr := new Value[len](_ => Nil);
    for i := 0 to len
      invariant arr[..i] == s[..i]
    {
      PartAt(t, i + 1);
      assert s[..len][i] == s[i];
      var found, val := t.GetArray(i + 1);
      arr[i] := val;
      assert s[..i + 1] == s[..i] + [s[i]];
    }
  }

  lemma PartFits(t: HashTable.Table)
    requires t.ArrayValid()
    ensures |t.Part().values| <= t.Part().capacity
  {
  }

  lemma AllGiven(given: seq<Value>)
    requires Nil !in given
    ensures forall i :: 0 <= i < |given| ==> given[i] != Nil
  {
  }

  lemma OneMore<T>(given: seq<T>, s: seq<T>, i: nat)
    requires i < |given| <= |s|
    ensures (given[..i] + s[i..])[i := given[i]] == given[..i + 1] + s[i + 1..]
  {
  }

  lemma StoreInside(values: seq<Value>, capacity: nat, i: nat, v: Value)
    requires i < |values| <= capacity && v != Nil
    ensures Store(ArrayPart(values, capacity), i + 1, v, Nil) == ArrayPart(values[i := v], capacity)
  {
  }

  method CopyBack(t: HashTable.Table, arr: array<Value>)
    requires t.ArrayValid() && arr.Length <= |t.Part().values| && Nil !in arr[..] && arr != t.arrayPart
    modifies t`arrayPart, t`arrayMax, t.arrayPart
    ensures t.ArrayValid() && t.Part().capacity == old(t.Part().capacity)
    ensures t.Part().values == arr[..] + old(t.Part().values)[arr.Length..]
  {
    ghost var s, given := t.Part().values, arr[..];
    ghost var capacity := t.Part().capacity;
    PartFits(t);
    AllGiven(given);
    assert given[..0] + s[0..] == s;
    hide *;
    for i := 0 to arr.Length
      invariant t.ArrayValid() && t.Part() == ArrayPart(given[..i] + s[i..], capacity)
      invariant t.arrayPart == old(t.arrayPart) || fresh(t.arrayPart)
      invariant arr[..] == given && arr != t.arrayPart
    {
      StoreInside(given[..i] + s[i..], capacity, i, given[i]);
      var stored := t.SetArray(i + 1, arr[i]);
      OneMore(given, s, i);
    }
    assert given[..arr.Length] == given;
  }
}
