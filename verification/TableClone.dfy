/** `table.clone`: copying a graph of tables, cycles and sharing included. */
module TableClone {
  import opened Bytes
  import opened Reachability

  type Key = seq<Byte>

  /** A value: of the heap objects only tables matter here, the others are told apart by a number. */
  datatype Value = Nil | Bool(b: bool) | Num(n: real) | Other(id: nat) | Ref(table: Table)

  class Table {
    var arrayPart: seq<Value>
    var arrayMax: nat
    /** The hash part, as the map it stands for. */
    var fields: map<Key, Value>
    var metatable: Table?
    var isModule: bool

    /** `new_table` */
    constructor ()
      ensures arrayPart == [] && arrayMax == 0 && fields == map[] && metatable == null && !isModule
    {
      arrayPart, arrayMax, fields, metatable, isModule := [], 0, map[], null, false;
    }
  }

  datatype Pair = Pair(src: Table, dst: Table)

  // ----- the graph of tables -----

  /** The tables a table refers to through its array and its fields; the metatable is not followed. */
  ghost function TablesIn(t: Table): set<Table>
    reads t
  {
    (set v | v in t.arrayPart && v.Ref? :: v.table) + (set k | k in t.fields && t.fields[k].Ref? :: t.fields[k].table)
  }

  ghost predicate Snapshot(heap: set<Table>, g: Graph<Table>)
    reads heap
  {
    g.Keys == heap && forall t :: t in heap ==> g[t] == TablesIn(t) && g[t] <= heap
  }

  // ----- the table of clones -----

  ghost function Srcs(seen: seq<Pair>): set<Table> {
    set p | p in seen :: p.src
  }

  /** Each original has one clone and each clone one original; originals are in the heap, clones are not. */
  ghost predicate OneToOne(seen: seq<Pair>, heap: set<Table>) {
    && (forall i, j :: 0 <= i < j < |seen| ==> seen[i].src != seen[j].src && seen[i].dst != seen[j].dst)
    && (forall i :: 0 <= i < |seen| ==> seen[i].src in heap && seen[i].dst !in heap)
  }

  /** A copied value: the same, or the clone of the same table. */
  ghost predicate Matches(seen: seq<Pair>, v: Value, w: Value) {
    if v.Ref? then w.Ref? && Pair(v.table, w.table) in seen else w == v
  }

  ghost predicate ArrayMatches(seen: seq<Pair>, a: seq<Value>, b: seq<Value>) {
    |a| == |b| && forall i :: 0 <= i < |a| ==> Matches(seen, a[i], b[i])
  }

  /** The non-nil fields, with matching values. */
  ghost predicate FieldsMatch(seen: seq<Pair>, a: map<Key, Value>, b: map<Key, Value>) {
    && (forall k :: k in b <==> k in a && a[k] != Nil)
    && (forall k :: k in b ==> Matches(seen, a[k], b[k]))
  }

  /** `dst` is the finished clone of `src`. */
  ghost predicate Copied(seen: seq<Pair>, src: Table, dst: Table)
    reads src, dst
  {
    && ArrayMatches(seen, src.arrayPart, dst.arrayPart) && FieldsMatch(seen, src.fields, dst.fields)
    && dst.arrayMax == (if src.arrayPart == [] then 0 else src.arrayMax)
    && dst.metatable == src.metatable && dst.isModule == src.isModule
  }

  lemma CopiedOn(seen: seq<Pair>, more: seq<Pair>, src: Table, dst: Table)
    requires Copied(seen, src, dst) && seen <= more
    ensures Copied(more, src, dst)
  {
    assert forall p :: p in seen ==> p in more;
  }

  lemma SrcsOn(seen: seq<Pair>, p: Pair)
    ensures Srcs(seen + [p]) == Srcs(seen) + {p.src}
  {
  }

  lemma SrcsGrow(a: seq<Pair>, b: seq<Pair>)
    requires a <= b
    ensures Srcs(a) <= Srcs(b)
  {
  }

  class Cloner {
    var seen: seq<Pair>

    constructor ()
      ensures seen == []
    {
      seen := [];
    }

    /** A deep copy follows table values. */
    method CloneValue(v: Value, deep: bool, ghost heap: set<Table>, ghost g: Graph<Table>, ghost r: set<Table>)
      returns (w: Value)
      requires Snapshot(heap, g) && r <= heap && ClosedUnder(g, r) && OneToOne(seen, heap) && InValue(v) <= r
      modifies `seen
      ensures old(seen) <= seen && OneToOne(seen, heap) && Grows(g, r, Srcs(old(seen)), Srcs(seen))
      ensures forall i :: |old(seen)| <= i < |seen| ==> fresh(seen[i].dst) && Copied(seen, seen[i].src, seen[i].dst)
      ensures if deep then Matches(seen, v, w) else w == v && seen == old(seen)
      decreases |heap - Srcs(seen)|, 1
    {
      hide Snapshot, ClosedUnder, OneToOne, Copied;
      w := v;
      if deep && v.Ref? {
        var child := CloneRecursive(v.table, true, heap, g, r);
        w := Ref(child);
      }
    }

    /** The array part, slot by slot. */
    method CloneArray(source: Table, clone: Table, deep: bool, ghost heap: set<Table>, ghost g: Graph<Table>,
                      ghost r: set<Table>)
      requires Snapshot(heap, g) && r <= heap && ClosedUnder(g, r) && OneToOne(seen, heap)
      requires source in r && TablesIn(source) <= r && clone !in heap
      modifies `seen, clone`arrayPart, clone`arrayMax
      ensures old(seen) <= seen && OneToOne(seen, heap) && Grows(g, r, Srcs(old(seen)), Srcs(seen))
      ensures forall i :: |old(seen)| <= i < |seen| ==> fresh(seen[i].dst) && Copied(seen, seen[i].src, seen[i].dst)
      ensures if deep then ArrayMatches(seen, source.arrayPart, clone.arrayPart)
              else clone.arrayPart == source.arrayPart && seen == old(seen)
      ensures clone.arrayMax == source.arrayMax
      decreases |heap - Srcs(seen)|, 2
    {
      hide Snapshot, ClosedUnder, OneToOne, Copied, Grows, Matches, Srcs, TablesIn;
      ghost var first, before := |seen|, seen;
      clone.arrayPart := seq(|source.arrayPart|, _ => Nil);
      clone.arrayMax := source.arrayMax;
      GrowsNot(g, r, Srcs(seen));
      for i := 0 to |source.arrayPart|
        invariant before <= seen && OneToOne(seen, heap) && Grows(g, r, Srcs(before), Srcs(seen))
        invariant forall j :: first <= j < |seen| ==> fresh(seen[j].dst) && Copied(seen, seen[j].src, seen[j].dst)
        invariant |clone.arrayPart| == |source.arrayPart| && clone.arrayMax == source.arrayMax
                  && (deep || seen == before)
        invariant forall j :: 0 <= j < i ==>
                    if deep then Matches(seen, source.arrayPart[j], clone.arrayPart[j])
                       else clone.arrayPart[j] == source.arrayPart[j]
      {
        ghost var sofar := seen;
        SrcsGrow(before, seen);
        FewerLeft(heap, Srcs(before), Srcs(seen));
        InArray(source, i);
        var v := CloneValue(source.arrayPart[i], deep, heap, g, r);
        AllCopiedOn(sofar, seen, first, heap);
        GrowsOn(g, r, Srcs(before), Srcs(sofar), Srcs(seen));
        MatchOn(sofar, seen, source.arrayPart, clone.arrayPart, i);
        InHeap(seen, heap);
        clone.arrayPart := clone.arrayPart[i := v];
      }
    }

    /** The hash part, entry by entry, in whatever order the slots have; nil values are skipped. */
    method CloneFields(source: Table, clone: Table, deep: bool, ghost heap: set<Table>, ghost g: Graph<Table>,
                       ghost r: set<Table>)
      requires Snapshot(heap, g) && r <= heap && ClosedUnder(g, r) && OneToOne(seen, heap)
      requires source in r && TablesIn(source) <= r && clone !in heap && clone.fields == map[]
      modifies `seen, clone`fields
      ensures old(seen) <= seen && OneToOne(seen, heap) && Grows(g, r, Srcs(old(seen)), Srcs(seen))
      ensures forall i :: |old(seen)| <= i < |seen| ==> fresh(seen[i].dst) && Copied(seen, seen[i].src, seen[i].dst)
      ensures deep ==> FieldsMatch(seen, source.fields, clone.fields)
      ensures !deep ==> seen == old(seen) && clone.fields == NonNil(source.fields)
      decreases |heap - Srcs(seen)|, 2
    {
      hide Snapshot, ClosedUnder, OneToOne, Copied, Grows, Matches, Srcs, TablesIn, FieldsMatch, NonNil;
      ghost var first, before := |seen|, seen;
      GrowsNot(g, r, Srcs(seen));
      ghost var done: set<Key> := {};
      var left := source.fields.Keys;
      NoFields(seen, source.fields, clone.fields);
      while left != {}
        invariant before <= seen && OneToOne(seen, heap) && Grows(g, r, Srcs(before), Srcs(seen))
        invariant forall j :: first <= j < |seen| ==> fresh(seen[j].dst) && Copied(seen, seen[j].src, seen[j].dst)
        invariant left <= source.fields.Keys && done == source.fields.Keys - left && (deep || seen == before)
        invariant if deep then FieldsMatch(seen, Only(source.fields, done), clone.fields)
                  else clone.fields == NonNil(Only(source.fields, done))
        decreases left
      {
        var k :| k in left;
        left := left - {k};
        ghost var sofar := seen;
        var value := source.fields[k];
        if !value.Nil? {
          SrcsGrow(before, seen);
          FewerLeft(heap, Srcs(before), Srcs(seen));
          InField(source, k);
          var v := CloneValue(value, deep, heap, g, r);
          AllCopiedOn(sofar, seen, first, heap);
          GrowsOn(g, r, Srcs(before), Srcs(sofar), Srcs(seen));
          InHeap(seen, heap);
          FieldMatches(sofar, seen, source.fields, done, clone.fields, k, v, deep);
          clone.fields := clone.fields[k := v];
        } else {
          FieldSkipped(seen, source.fields, done, clone.fields, k, deep);
        }
        done := done + {k};
      }
      OnlyAll(source.fields, done);
    }

    /** The search for a clone made before. */
    method FindClone(source: Table) returns (found: bool, dst: Table?)
      ensures found ==> dst != null && Pair(source, dst) in seen
      ensures !found ==> forall i :: 0 <= i < |seen| ==> seen[i].src != source
    {
      for i := 0 to |seen|
        invariant forall j :: 0 <= j < i ==> seen[j].src != source
      {
        if seen[i].src == source {
          return true, seen[i].dst;
        }
      }
      return false, null;
    }

    /** Both parts of the new clone. */
    method Fill(source: Table, clone: Table, deep: bool, ghost heap: set<Table>, ghost g: Graph<Table>,
                ghost r: set<Table>)
      requires Snapshot(heap, g) && r <= heap && ClosedUnder(g, r) && OneToOne(seen, heap)
      requires source in r && TablesIn(source) <= r
      requires clone !in heap && clone.arrayPart == [] && clone.arrayMax == 0 && clone.fields == map[]
      requires deep ==> seen != [] && seen[|seen| - 1].dst == clone
      modifies `seen, clone`arrayPart, clone`arrayMax, clone`fields
      ensures old(seen) <= seen && OneToOne(seen, heap) && Grows(g, r, Srcs(old(seen)), Srcs(seen))
      ensures forall i :: |old(seen)| <= i < |seen| ==> fresh(seen[i].dst) && Copied(seen, seen[i].src, seen[i].dst)
      ensures deep ==> ArrayMatches(seen, source.arrayPart, clone.arrayPart)
                       && FieldsMatch(seen, source.fields, clone.fields)
      ensures deep ==> TablesIn(source) <= Srcs(seen)
      ensures !deep ==> seen == old(seen) && clone.arrayPart == source.arrayPart
                        && clone.fields == NonNil(source.fields)
      ensures clone.arrayMax == (if source.arrayPart == [] then 0 else source.arrayMax)
      decreases |heap - Srcs(seen)|, 3
    {
      hide *;
      ghost var own := seen;
      if |source.arrayPart| > 0 {
        CloneArray(source, clone, deep, heap, g, r);
      } else {
        EmptyArrays(seen, source, clone);
        GrowsNot(g, r, Srcs(seen));
      }
      ghost var half := seen;
      SrcsGrow(own, half);
      FewerLeft(heap, Srcs(own), Srcs(half));
      if deep {
        OwnApart(own, half, clone, heap);
      }
      InHeap(half, heap);
      CloneFields(source, clone, deep, heap, g, r);
      GrowsOn(g, r, Srcs(own), Srcs(half), Srcs(seen));
      AllCopiedOn(half, seen, |own|, heap);
      if deep {
        ArrayOn(half, seen, source.arrayPart, clone.arrayPart);
        ChildrenSeen(seen, source, clone);
      }
    }

    /**
     * `table_clone_recursive`: the clone of a table. In depth: every table reached first gets a fresh clone of
     * its own, and all clones added by the call are finished when it returns.
     */
    method CloneRecursive(source: Table, deep: bool, ghost heap: set<Table>, ghost g: Graph<Table>, ghost r: set<Table>)
      returns (out: Table)
      requires Snapshot(heap, g) && r <= heap && ClosedUnder(g, r) && OneToOne(seen, heap) && source in r
      modifies `seen
      ensures old(seen) <= seen && OneToOne(seen, heap) && Grows(g, r, Srcs(old(seen)), Srcs(seen))
      ensures forall i :: |old(seen)| <= i < |seen| ==> fresh(seen[i].dst) && Copied(seen, seen[i].src, seen[i].dst)
      ensures deep ==> Pair(source, out) in seen
      ensures !deep ==> seen == old(seen) && fresh(out)
      ensures !deep ==> out.arrayPart == source.arrayPart && out.metatable == source.metatable
                        && out.isModule == source.isModule
      ensures !deep ==> out.fields == NonNil(source.fields)
                        && out.arrayMax == (if source.arrayPart == [] then 0 else source.arrayMax)
      decreases |heap - Srcs(seen)|, if deep then 0 else 4
    {
      hide *;
      if deep {
        var found, dst := FindClone(source);
        if found {
          GrowsNot(g, r, Srcs(seen));
          return dst;
        }
      }
      ghost var before := seen;
      var clone := new Table();
      clone.metatable := source.metatable;
      clone.isModule := source.isModule;
      NotInSnapshot(heap, g, r, source);
      if deep {
        seen := seen + [Pair(source, clone)];
        Added(before, Pair(source, clone), heap, g, r);
        SrcsOn(before, Pair(source, clone));
        OneLessLeft(heap, Srcs(before), source);
      }
      Fill(source, clone, deep, heap, g, r);
      if deep {
        IsCopied(seen, source, clone);
        GrowsAround(g, r, Srcs(before), source, Srcs(seen));
      }
      out := clone;
    }
  }

  lemma InHeap(seen: seq<Pair>, heap: set<Table>)
    requires OneToOne(seen, heap)
    ensures forall i :: 0 <= i < |seen| ==> seen[i].src in heap && seen[i].dst !in heap
  {
  }

  ghost function NonNil(fields: map<Key, Value>): map<Key, Value> {
    map k | k in fields && fields[k] != Nil :: fields[k]
  }

  ghost function Only(fields: map<Key, Value>, keys: set<Key>): map<Key, Value> {
    map k | k in fields && k in keys :: fields[k]
  }

  lemma OnlyAll(fields: map<Key, Value>, keys: set<Key>)
    requires fields.Keys <= keys
    ensures Only(fields, keys) == fields
  {
  }

  lemma NoFields(seen: seq<Pair>, a: map<Key, Value>, b: map<Key, Value>)
    requires b == map[]
    ensures FieldsMatch(seen, Only(a, {}), b) && b == NonNil(Only(a, {}))
  {
  }

  lemma FieldMatches(before: seq<Pair>, after: seq<Pair>, a: map<Key, Value>, done: set<Key>, b: map<Key, Value>,
                     k: Key, v: Value, deep: bool)
    requires before <= after && k in a && k !in done && a[k] != Nil
    requires if deep then FieldsMatch(before, Only(a, done), b)
             && Matches(after, a[k], v) else b == NonNil(Only(a, done)) && v == a[k]
    ensures if deep then FieldsMatch(after, Only(a, done + {k}), b[k := v])
            else b[k := v] == NonNil(Only(a, done + {k}))
  {
    assert forall p :: p in before ==> p in after;
  }

  lemma FieldSkipped(seen: seq<Pair>, a: map<Key, Value>, done: set<Key>, b: map<Key, Value>, k: Key, deep: bool)
    requires k in a && a[k] == Nil
    requires if deep then FieldsMatch(seen, Only(a, done), b) else b == NonNil(Only(a, done))
    ensures if deep then FieldsMatch(seen, Only(a, done + {k}), b) else b == NonNil(Only(a, done + {k}))
  {
  }

  lemma EmptyArrays(seen: seq<Pair>, source: Table, clone: Table)
    requires source.arrayPart == [] && clone.arrayPart == []
    ensures ArrayMatches(seen, source.arrayPart, clone.arrayPart)
  {
  }

  lemma ArrayOn(a: seq<Pair>, b: seq<Pair>, vs: seq<Value>, ws: seq<Value>)
    requires a <= b && ArrayMatches(a, vs, ws)
    ensures ArrayMatches(b, vs, ws)
  {
    MatchOn(a, b, vs, ws, |vs|);
  }

  lemma NotInSnapshot(heap: set<Table>, g: Graph<Table>, r: set<Table>, t: Table)
    requires Snapshot(heap, g) && r <= heap && ClosedUnder(g, r) && t in r
    ensures t in g && g[t] == TablesIn(t) && TablesIn(t) <= r
  {
  }

  lemma Added(seen: seq<Pair>, p: Pair, heap: set<Table>, g: Graph<Table>, r: set<Table>)
    requires OneToOne(seen, heap) && p.src in heap && p.dst !in heap
    requires forall i :: 0 <= i < |seen| ==> seen[i].src != p.src && seen[i].dst != p.dst
    ensures OneToOne(seen + [p], heap) && p.src !in Srcs(seen)
  {
  }

  /** The clone of the pair added last is the clone of no other pair. */
  lemma OwnApart(own: seq<Pair>, half: seq<Pair>, clone: Table, heap: set<Table>)
    requires OneToOne(half, heap) && own <= half && own != [] && own[|own| - 1].dst == clone
    ensures forall i :: |own| <= i < |half| ==> half[i].dst != clone
  {
    assert half[|own| - 1].dst == clone;
  }

  lemma ChildrenSeen(seen: seq<Pair>, source: Table, clone: Table)
    requires ArrayMatches(seen, source.arrayPart, clone.arrayPart) && FieldsMatch(seen, source.fields, clone.fields)
    ensures TablesIn(source) <= Srcs(seen)
  {
    forall t | t in TablesIn(source)
      ensures t in Srcs(seen)
    {
      if v :| v in source.arrayPart && v.Ref? && v.table == t {
        var i :| 0 <= i < |source.arrayPart| && source.arrayPart[i] == v;
        assert Matches(seen, source.arrayPart[i], clone.arrayPart[i]);
        assert Pair(t, clone.arrayPart[i].table) in seen;
      } else {
        var k :| k in source.fields && source.fields[k].Ref? && source.fields[k].table == t;
        assert Matches(seen, source.fields[k], clone.fields[k]);
        assert Pair(t, clone.fields[k].table) in seen;
      }
    }
  }

  lemma IsCopied(seen: seq<Pair>, source: Table, clone: Table)
    requires ArrayMatches(seen, source.arrayPart, clone.arrayPart) && FieldsMatch(seen, source.fields, clone.fields)
    requires clone.arrayMax == (if source.arrayPart == [] then 0 else source.arrayMax)
    requires clone.metatable == source.metatable && clone.isModule == source.isModule
    ensures Copied(seen, source, clone)
  {
  }

  ghost function InValue(v: Value): set<Table> {
    if v.Ref? then {v.table} else {}
  }

  lemma InArray(t: Table, i: nat)
    requires i < |t.arrayPart|
    ensures InValue(t.arrayPart[i]) <= TablesIn(t)
  {
  }

  lemma InField(t: Table, k: Key)
    requires k in t.fields
    ensures InValue(t.fields[k]) <= TablesIn(t)
  {
  }

  lemma GrowsNot<T>(g: Graph<T>, r: set<T>, a: set<T>)
    ensures Grows(g, r, a, a)
  {
  }

  lemma MatchOn(a: seq<Pair>, b: seq<Pair>, vs: seq<Value>, ws: seq<Value>, n: nat)
    requires a <= b && n <= |vs| == |ws|
    ensures forall j :: 0 <= j < n && Matches(a, vs[j], ws[j]) ==> Matches(b, vs[j], ws[j])
  {
    assert forall p :: p in a ==> p in b;
  }

  /** What was finished stays finished when more clones are added. */
  lemma AllCopiedOn(a: seq<Pair>, b: seq<Pair>, from: nat, heap: set<Table>)
    requires a <= b
    requires forall j :: from <= j < |a| ==> Copied(a, a[j].src, a[j].dst)
    ensures forall j :: from <= j < |a| ==> Copied(b, b[j].src, b[j].dst)
  {
    hide Copied;
    forall j | from <= j < |a|
      ensures Copied(b, b[j].src, b[j].dst)
    {
      CopiedOn(a, b, a[j].src, a[j].dst);
    }
  }

  // ----- the native function -----

  ghost function GraphOf(heap: set<Table>): Graph<Table>
    reads heap
  {
    map t | t in heap :: TablesIn(t)
  }

  ghost function ReachableIn(heap: set<Table>, source: Table): set<Table>
    reads heap
  {
    set t | t in heap && Reachable(GraphOf(heap), {source}, t)
  }

  lemma ReachableClosed(heap: set<Table>, source: Table)
    requires source in heap && forall t :: t in heap ==> TablesIn(t) <= heap
    ensures Snapshot(heap, GraphOf(heap)) && ClosedUnder(GraphOf(heap), ReachableIn(heap, source))
            && source in ReachableIn(heap, source)
  {
    var g := GraphOf(heap);
    forall x, y | x in ReachableIn(heap, source) && x in g && y in g[x]
      ensures y in ReachableIn(heap, source)
    {
      ReachableNext(g, {source}, x, y);
    }
    assert source in Within(g, {source}, 0);
  }

  lemma SeenIsReachable(heap: set<Table>, source: Table, srcs: set<Table>)
    requires source in heap && Grows(GraphOf(heap), ReachableIn(heap, source), {}, srcs) && source in srcs
    ensures srcs == ReachableIn(heap, source)
  {
    MarkedIsReachable(GraphOf(heap), {source}, ReachableIn(heap, source), srcs);
    assert forall t :: t in srcs ==> t in ReachableIn(heap, source);
  }

  /**
   * `table_clone`: in depth, exactly the tables reachable from the source over array and field values are cloned,
   * each once, and each clone is its original with every table replaced by its clone.
   */
  method CloneTable(source: Table, deep: bool, ghost heap: set<Table>) returns (out: Table, ghost seen: seq<Pair>)
    requires source in heap && forall t :: t in heap ==> TablesIn(t) <= heap
    ensures fresh(out)
    ensures deep ==> OneToOne(seen, heap) && Pair(source, out) in seen && Srcs(seen) == ReachableIn(heap, source)
    ensures deep ==> forall i :: 0 <= i < |seen| ==> fresh(seen[i].dst) && Copied(seen, seen[i].src, seen[i].dst)
    ensures !deep ==> out.arrayPart == source.arrayPart && out.metatable == source.metatable
                      && out.isModule == source.isModule
    ensures !deep ==> out.fields == NonNil(source.fields)
                      && out.arrayMax == (if source.arrayPart == [] then 0 else source.arrayMax)
  {
    hide TablesIn, Copied, Grows, Reachable, ClosedUnder, ReachableIn, GraphOf;
    var cloner := new Cloner();
    ReachableClosed(heap, source);
    InReach(heap, source);
    out := cloner.CloneRecursive(source, deep, heap, GraphOf(heap), ReachableIn(heap, source));
    seen := cloner.seen;
    if deep {
      SrcsOf(seen, Pair(source, out));
      SeenIsReachable(heap, source, Srcs(seen));
    }
  }

  lemma InReach(heap: set<Table>, source: Table)
    ensures ReachableIn(heap, source) <= heap
  {
  }

  lemma SrcsOf(seen: seq<Pair>, p: Pair)
    ensures p in seen ==> p.src in Srcs(seen) && exists i :: 0 <= i < |seen| && seen[i].dst == p.dst
    ensures Srcs([]) == {}
  {
  }

  /** Sharing is kept both ways: two values are the same table exactly when their copies are. */
  lemma SharingKept(seen: seq<Pair>, heap: set<Table>, v: Value, w: Value, x: Value, y: Value)
    requires OneToOne(seen, heap) && Matches(seen, v, w) && Matches(seen, x, y)
    ensures v == x <==> w == y
  {
    if v.Ref? && x.Ref? {
      var i :| 0 <= i < |seen| && seen[i] == Pair(v.table, w.table);
      var j :| 0 <= j < |seen| && seen[j] == Pair(x.table, y.table);
      assert i < j || i == j || j < i;
    }
  }
}
