/** Mark and sweep over the linked list of all objects. */
module Collector {
  import opened HeapGraph
  import opened Reachability

  /** The graph is a snapshot of the children of every object of the heap, all of which are in the heap. */
  ghost predicate Snapshot(heap: set<Obj>, g: Graph<Obj>)
    reads heap`payload
  {
    && g.Keys == heap
    && forall o :: o in heap ==> g[o] == Children(o.payload) && g[o] <= heap
  }

  ghost function Marks(heap: set<Obj>): set<Obj>
    reads heap`isMarked
  {
    set o | o in heap && o.isMarked
  }

  /** How many objects are still unmarked; what marking recurses on. */
  ghost function Left(heap: set<Obj>): nat
    reads heap`isMarked
  {
    |heap - Marks(heap)|
  }

  /**
   * `mark_object`: marks the object and everything reachable from it over unmarked objects. `r` is any set of
   * heap objects closed under the edges: marking stays inside it.
   */
  method MarkObject(o: Obj?, ghost heap: set<Obj>, ghost g: Graph<Obj>, ghost r: set<Obj>)
    requires Snapshot(heap, g) && r <= heap && ClosedUnder(g, r) && One(o) <= r
    modifies heap`isMarked
    ensures Grows(g, r, old(Marks(heap)), Marks(heap)) && One(o) <= Marks(heap)
    decreases Left(heap), 0
  {
    hide ClosedUnder, Children;
    ghost var before := Marks(heap);
    if o == null {
      return;
    }
    if o.isMarked {
      return;
    }
    o.isMarked := true;
    assert Marks(heap) == before + {o};
    OneLessLeft(heap, before, o);
    ChildrenInside(heap, g, r, o);
    MarkChildren(o.payload, heap, g, r);
    GrowsAround(g, r, before, o, Marks(heap));
  }

  lemma ChildrenInside(heap: set<Obj>, g: Graph<Obj>, r: set<Obj>, o: Obj)
    requires Snapshot(heap, g) && r <= heap && ClosedUnder(g, r) && o in r
    ensures o in g && g[o] == Children(o.payload) && Children(o.payload) <= r
  {
  }

  /** The children of an object, kind by kind, in the order of the source. */
  method MarkChildren(p: Payload, ghost heap: set<Obj>, ghost g: Graph<Obj>, ghost r: set<Obj>)
    requires Snapshot(heap, g) && r <= heap && ClosedUnder(g, r) && Children(p) <= r
    modifies heap`isMarked
    ensures Grows(g, r, old(Marks(heap)), Marks(heap)) && Children(p) <= Marks(heap)
    decreases Left(heap), 5
  {
    hide Snapshot, ClosedUnder, InEntries, InValues, InObjects, InFrames, InValue;
    match p
    case String =>
    case Table(entries, arrayPart, metatable) => MarkTable(entries, arrayPart, metatable, heap, g, r);
    case Function(_, _, _, _, _, _) => MarkFunction(p, heap, g, r);
    case Native(name) => MarkObject(name, heap, g, r);
    case Upvalue(closed) => MarkValue(closed, heap, g, r);
    case Closure(code, upvalues) =>
      ghost var a := Marks(heap);
      MarkObject(code, heap, g, r);
      ghost var b := Marks(heap);
      FewerLeft(heap, a, b);
      MarkObjects(upvalues, heap, g, r);
      GrowsOn(g, r, a, b, Marks(heap));
    case Thread(_, _, _, _, _, _, _) => MarkThread(p, heap, g, r);
    case Userdata(metatable) => MarkObject(metatable, heap, g, r);
    case BoundMethod(receiver, callee) =>
      ghost var a := Marks(heap);
      MarkValue(receiver, heap, g, r);
      ghost var b := Marks(heap);
      FewerLeft(heap, a, b);
      MarkObject(callee, heap, g, r);
      GrowsOn(g, r, a, b, Marks(heap));
  }

  method MarkValue(v: Value, ghost heap: set<Obj>, ghost g: Graph<Obj>, ghost r: set<Obj>)
    requires Snapshot(heap, g) && r <= heap && ClosedUnder(g, r) && InValue(v) <= r
    modifies heap`isMarked
    ensures Grows(g, r, old(Marks(heap)), Marks(heap)) && InValue(v) <= Marks(heap)
    decreases Left(heap), 1
  {
    hide Snapshot, ClosedUnder;
    if v.Ref? {
      MarkObject(v.obj, heap, g, r);
    }
  }

  method MarkValues(vs: seq<Value>, ghost heap: set<Obj>, ghost g: Graph<Obj>, ghost r: set<Obj>)
    requires Snapshot(heap, g) && r <= heap && ClosedUnder(g, r) && InValues(vs) <= r
    modifies heap`isMarked
    ensures Grows(g, r, old(Marks(heap)), Marks(heap)) && InValues(vs) <= Marks(heap)
    decreases Left(heap), 2
  {
    hide Snapshot, ClosedUnder;
    ghost var a := Marks(heap);
    for i := 0 to |vs|
      invariant Grows(g, r, a, Marks(heap)) && InValues(vs[..i]) <= Marks(heap)
    {
      ghost var b := Marks(heap);
      FewerLeft(heap, a, b);
      ValuesNext(vs, i);
      MarkValue(vs[i], heap, g, r);
      GrowsOn(g, r, a, b, Marks(heap));
    }
    assert vs[..|vs|] == vs;
  }

  lemma ValuesNext(vs: seq<Value>, i: nat)
    requires i < |vs|
    ensures InValues(vs[..i + 1]) == InValues(vs[..i]) + InValue(vs[i])
    ensures InValue(vs[i]) <= InValues(vs)
  {
    assert vs[..i + 1] == vs[..i] + [vs[i]];
  }

  method MarkObjects(os: seq<Obj?>, ghost heap: set<Obj>, ghost g: Graph<Obj>, ghost r: set<Obj>)
    requires Snapshot(heap, g) && r <= heap && ClosedUnder(g, r) && InObjects(os) <= r
    modifies heap`isMarked
    ensures Grows(g, r, old(Marks(heap)), Marks(heap)) && InObjects(os) <= Marks(heap)
    decreases Left(heap), 2
  {
    hide Snapshot, ClosedUnder;
    ghost var a := Marks(heap);
    for i := 0 to |os|
      invariant Grows(g, r, a, Marks(heap)) && InObjects(os[..i]) <= Marks(heap)
    {
      ghost var b := Marks(heap);
      FewerLeft(heap, a, b);
      ObjectsNext(os, i);
      MarkObject(os[i], heap, g, r);
      GrowsOn(g, r, a, b, Marks(heap));
    }
    assert os[..|os|] == os;
  }

  lemma ObjectsNext(os: seq<Obj?>, i: nat)
    requires i < |os|
    ensures InObjects(os[..i + 1]) == InObjects(os[..i]) + One(os[i])
    ensures One(os[i]) <= InObjects(os)
  {
    assert os[..i + 1] == os[..i] + [os[i]];
  }

  /** The hash part: keys and values of the slots that have a key. */
  method MarkEntries(entries: seq<Entry>, ghost heap: set<Obj>, ghost g: Graph<Obj>, ghost r: set<Obj>)
    requires Snapshot(heap, g) && r <= heap && ClosedUnder(g, r) && InEntries(entries) <= r
    modifies heap`isMarked
    ensures Grows(g, r, old(Marks(heap)), Marks(heap)) && InEntries(entries) <= Marks(heap)
    decreases Left(heap), 2
  {
    hide Snapshot, ClosedUnder;
    ghost var a := Marks(heap);
    for i := 0 to |entries|
      invariant Grows(g, r, a, Marks(heap)) && InEntries(entries[..i]) <= Marks(heap)
    {
      ghost var b := Marks(heap);
      FewerLeft(heap, a, b);
      EntriesNext(entries, i);
      if entries[i].key != null {
        MarkObject(entries[i].key, heap, g, r);
        ghost var c := Marks(heap);
        GrowsOn(g, r, a, b, c);
        FewerLeft(heap, a, c);
        MarkValue(entries[i].value, heap, g, r);
        GrowsOn(g, r, a, c, Marks(heap));
      }
    }
    assert entries[..|entries|] == entries;
  }

  lemma {:induction false} EntriesNext(entries: seq<Entry>, i: nat)
    requires i < |entries|
    ensures InEntries(entries[..i + 1]) == InEntries(entries[..i]) + InEntry(entries[i])
    ensures InEntry(entries[i]) <= InEntries(entries)
    decreases |entries|
  {
    assert entries[..i + 1][..i] == entries[..i];
    if i + 1 < |entries| {
      EntriesNext(entries[..|entries| - 1], i);
      assert entries[..|entries| - 1][..i + 1] == entries[..i + 1];
      assert entries[..|entries| - 1][..i] == entries[..i];
    } else {
      assert entries[..i + 1] == entries;
    }
  }

  /** `mark_table`: the hash part, then the array part; the metatable after it. */
  method MarkTable(entries: seq<Entry>, arrayPart: seq<Value>, metatable: Obj?, ghost heap: set<Obj>,
                   ghost g: Graph<Obj>, ghost r: set<Obj>)
    requires Snapshot(heap, g) && r <= heap && ClosedUnder(g, r)
    requires InEntries(entries) <= r && InValues(arrayPart) <= r && One(metatable) <= r
    modifies heap`isMarked
    ensures Grows(g, r, old(Marks(heap)), Marks(heap))
    ensures InEntries(entries) <= Marks(heap) && InValues(arrayPart) <= Marks(heap) && One(metatable) <= Marks(heap)
    decreases Left(heap), 3
  {
    hide Snapshot, ClosedUnder, InEntries, InValues;
    ghost var a := Marks(heap);
    MarkEntries(entries, heap, g, r);
    ghost var b := Marks(heap);
    FewerLeft(heap, a, b);
    MarkValues(arrayPart, heap, g, r);
    ghost var c := Marks(heap);
    GrowsOn(g, r, a, b, c);
    FewerLeft(heap, a, c);
    MarkObject(metatable, heap, g, r);
    GrowsOn(g, r, a, c, Marks(heap));
  }

  method MarkCache(cache: Cache, ghost heap: set<Obj>, ghost g: Graph<Obj>, ghost r: set<Obj>)
    requires Snapshot(heap, g) && r <= heap && ClosedUnder(g, r) && InCache(cache) <= r
    modifies heap`isMarked
    ensures Grows(g, r, old(Marks(heap)), Marks(heap)) && InCache(cache) <= Marks(heap)
    decreases Left(heap), 2
  {
    hide Snapshot, ClosedUnder, One, InValue;
    ghost var a := Marks(heap);
    MarkObject(cache.globalName, heap, g, r);
    ghost var b := Marks(heap);
    FewerLeft(heap, a, b);
    MarkValue(cache.globalValue, heap, g, r);
    ghost var c := Marks(heap);
    GrowsOn(g, r, a, b, c);
    FewerLeft(heap, a, c);
    MarkObject(cache.getTable, heap, g, r);
    ghost var d := Marks(heap);
    GrowsOn(g, r, a, c, d);
    FewerLeft(heap, a, d);
    MarkObject(cache.getKey, heap, g, r);
    ghost var e := Marks(heap);
    GrowsOn(g, r, a, d, e);
    FewerLeft(heap, a, e);
    MarkValue(cache.getValue, heap, g, r);
    GrowsOn(g, r, a, e, Marks(heap));
  }

  lemma {:induction false} CachesNext(xs: seq<Cache>, i: nat)
    requires i < |xs|
    ensures InCaches(xs[..i + 1]) == InCaches(xs[..i]) + InCache(xs[i])
    ensures InCache(xs[i]) <= InCaches(xs)
    decreases |xs|
  {
    hide InCache;
    assert xs[..i + 1][..i] == xs[..i];
    if i + 1 < |xs| {
      CachesNext(xs[..|xs| - 1], i);
      assert xs[..|xs| - 1][..i + 1] == xs[..i + 1];
      assert xs[..|xs| - 1][..i] == xs[..i];
    } else {
      assert xs[..i + 1] == xs;
    }
  }

  method MarkCaches(xs: seq<Cache>, ghost heap: set<Obj>, ghost g: Graph<Obj>, ghost r: set<Obj>)
    requires Snapshot(heap, g) && r <= heap && ClosedUnder(g, r) && InCaches(xs) <= r
    modifies heap`isMarked
    ensures Grows(g, r, old(Marks(heap)), Marks(heap)) && InCaches(xs) <= Marks(heap)
    decreases Left(heap), 3
  {
    hide Snapshot, ClosedUnder, InCache, One, InValue;
    ghost var a := Marks(heap);
    for i := 0 to |xs|
      invariant Grows(g, r, a, Marks(heap)) && InCaches(xs[..i]) <= Marks(heap)
    {
      ghost var b := Marks(heap);
      FewerLeft(heap, a, b);
      CachesNext(xs, i);
      MarkCache(xs[i], heap, g, r);
      GrowsOn(g, r, a, b, Marks(heap));
    }
    assert xs[..|xs|] == xs;
  }

  method MarkFrame(frame: Frame, ghost heap: set<Obj>, ghost g: Graph<Obj>, ghost r: set<Obj>)
    requires Snapshot(heap, g) && r <= heap && ClosedUnder(g, r) && InFrame(frame) <= r
    modifies heap`isMarked
    ensures Grows(g, r, old(Marks(heap)), Marks(heap)) && InFrame(frame) <= Marks(heap)
    decreases Left(heap), 2
  {
    hide Snapshot, ClosedUnder, One, InValue;
    ghost var a := Marks(heap);
    MarkObject(frame.closure, heap, g, r);
    ghost var b := Marks(heap);
    FewerLeft(heap, a, b);
    MarkValue(frame.moduleCacheName, heap, g, r);
    ghost var c := Marks(heap);
    GrowsOn(g, r, a, b, c);
    FewerLeft(heap, a, c);
    MarkValue(frame.prevModuleName, heap, g, r);
    ghost var d := Marks(heap);
    GrowsOn(g, r, a, c, d);
    FewerLeft(heap, a, d);
    MarkValue(frame.prevModuleFile, heap, g, r);
    ghost var e := Marks(heap);
    GrowsOn(g, r, a, d, e);
    FewerLeft(heap, a, e);
    MarkValue(frame.prevModuleMain, heap, g, r);
    GrowsOn(g, r, a, e, Marks(heap));
  }

  lemma {:induction false} FramesNext(xs: seq<Frame>, i: nat)
    requires i < |xs|
    ensures InFrames(xs[..i + 1]) == InFrames(xs[..i]) + InFrame(xs[i])
    ensures InFrame(xs[i]) <= InFrames(xs)
    decreases |xs|
  {
    hide InFrame;
    assert xs[..i + 1][..i] == xs[..i];
    if i + 1 < |xs| {
      FramesNext(xs[..|xs| - 1], i);
      assert xs[..|xs| - 1][..i + 1] == xs[..i + 1];
      assert xs[..|xs| - 1][..i] == xs[..i];
    } else {
      assert xs[..i + 1] == xs;
    }
  }

  method MarkFrames(xs: seq<Frame>, ghost heap: set<Obj>, ghost g: Graph<Obj>, ghost r: set<Obj>)
    requires Snapshot(heap, g) && r <= heap && ClosedUnder(g, r) && InFrames(xs) <= r
    modifies heap`isMarked
    ensures Grows(g, r, old(Marks(heap)), Marks(heap)) && InFrames(xs) <= Marks(heap)
    decreases Left(heap), 3
  {
    hide Snapshot, ClosedUnder, InFrame, One, InValue;
    ghost var a := Marks(heap);
    for i := 0 to |xs|
      invariant Grows(g, r, a, Marks(heap)) && InFrames(xs[..i]) <= Marks(heap)
    {
      ghost var b := Marks(heap);
      FewerLeft(heap, a, b);
      FramesNext(xs, i);
      MarkFrame(xs[i], heap, g, r);
      GrowsOn(g, r, a, b, Marks(heap));
    }
    assert xs[..|xs|] == xs;
  }

  method MarkFunction(p: Payload, ghost heap: set<Obj>, ghost g: Graph<Obj>, ghost r: set<Obj>)
    requires Snapshot(heap, g) && r <= heap && ClosedUnder(g, r) && p.Function? && Children(p) <= r
    modifies heap`isMarked
    ensures Grows(g, r, old(Marks(heap)), Marks(heap)) && Children(p) <= Marks(heap)
    decreases Left(heap), 4
  {
    hide Snapshot, ClosedUnder, One, InValues, InCaches, InObjects;
    ghost var a := Marks(heap);
    MarkObject(p.name, heap, g, r);
    ghost var b := Marks(heap);
    FewerLeft(heap, a, b);
    MarkObject(p.doc, heap, g, r);
    ghost var c := Marks(heap);
    GrowsOn(g, r, a, b, c);
    FewerLeft(heap, a, c);
    MarkValues(p.constants, heap, g, r);
    ghost var d := Marks(heap);
    GrowsOn(g, r, a, c, d);
    FewerLeft(heap, a, d);
    MarkCaches(p.caches, heap, g, r);
    ghost var e := Marks(heap);
    GrowsOn(g, r, a, d, e);
    FewerLeft(heap, a, e);
    MarkValues(p.defaults, heap, g, r);
    ghost var f := Marks(heap);
    GrowsOn(g, r, a, e, f);
    FewerLeft(heap, a, f);
    MarkObjects(p.paramNames, heap, g, r);
    GrowsOn(g, r, a, f, Marks(heap));
  }

  method MarkThread(p: Payload, ghost heap: set<Obj>, ghost g: Graph<Obj>, ghost r: set<Obj>)
    requires Snapshot(heap, g) && r <= heap && ClosedUnder(g, r) && p.Thread? && Children(p) <= r
    modifies heap`isMarked
    ensures Grows(g, r, old(Marks(heap)), Marks(heap)) && Children(p) <= Marks(heap)
    decreases Left(heap), 4
  {
    hide Snapshot, ClosedUnder, One, InValue, InValues, InFrames, InObjects;
    ghost var a := Marks(heap);
    MarkValues(p.stack, heap, g, r);
    ghost var b := Marks(heap);
    FewerLeft(heap, a, b);
    if p.hasException { MarkValue(p.exception, heap, g, r); }
    ghost var c := Marks(heap);
    GrowsOn(g, r, a, b, c);
    FewerLeft(heap, a, c);
    MarkValue(p.lastError, heap, g, r);
    ghost var d := Marks(heap);
    GrowsOn(g, r, a, c, d);
    FewerLeft(heap, a, d);
    MarkFrames(p.frames, heap, g, r);
    ghost var e := Marks(heap);
    GrowsOn(g, r, a, d, e);
    FewerLeft(heap, a, e);
    MarkObjects(p.openUpvalues, heap, g, r);
    ghost var f := Marks(heap);
    GrowsOn(g, r, a, e, f);
    FewerLeft(heap, a, f);
    MarkObject(p.caller, heap, g, r);
    GrowsOn(g, r, a, f, Marks(heap));
  }

  // ----- the list of all objects -----

  ghost function Head(list: seq<Obj>, tail: Obj?): Obj? {
    if list == [] then tail else list[0]
  }

  ghost function After(list: seq<Obj>, k: nat, tail: Obj?): Obj?
    requires k < |list|
  {
    if k + 1 < |list| then list[k + 1] else tail
  }

  /** The objects are linked in order, the last one to `tail`. */
  ghost predicate Chain(list: seq<Obj>, tail: Obj?)
    reads list`next
  {
    forall k: nat {:trigger After(list, k, tail)} :: k < |list| ==> list[k].next == After(list, k, tail)
  }

  ghost function GraphOf(heap: set<Obj>): Graph<Obj>
    reads heap`payload
  {
    map o | o in heap :: Children(o.payload)
  }

  lemma FilterNext(seen: seq<Obj>, keep: set<Obj>, o: Obj)
    ensures Filter(seen + [o], keep) == Filter(seen, keep) + (if o in keep then [o] else [])
  {
    assert (seen + [o])[..|seen|] == seen;
  }

  /** The first of a chain points to the head of the rest, which is a chain as well. */
  lemma ChainTail(rest: seq<Obj>, tail: Obj?)
    requires rest != [] && Chain(rest, tail)
    ensures rest[0].next == Head(rest[1..], tail) && Chain(rest[1..], tail)
  {
    assert rest[0].next == After(rest, 0, tail);
    forall k: nat | k < |rest| - 1
      ensures rest[1..][k].next == After(rest[1..], k, tail)
    {
      assert rest[k + 1].next == After(rest, k + 1, tail);
    }
  }

  /** A chain that ends at an object is continued by that object. */
  lemma ChainGrows(kept: seq<Obj>, o: Obj, tail: Obj?)
    requires Chain(kept, o) && o.next == tail
    ensures Chain(kept + [o], tail)
  {
    forall k: nat | k < |kept| + 1
      ensures (kept + [o])[k].next == After(kept + [o], k, tail)
    {
      if k < |kept| {
        assert kept[k].next == After(kept, k, o);
      }
    }
  }

  /** All but the last of a chain are linked to the last. */
  lemma ChainInit(kept: seq<Obj>, last: Obj, tail: Obj?)
    requires kept != [] && kept[|kept| - 1] == last && Chain(kept, tail) && Distinct(kept)
    ensures var init := kept[..|kept| - 1];
            Chain(init, last) && last !in init && init + [last] == kept && forall o :: o in init ==> o in kept
  {
    var init := kept[..|kept| - 1];
    forall k: nat | k < |init|
      ensures init[k].next == After(init, k, last)
    {
      assert kept[k].next == After(kept, k, tail);
    }
  }

  lemma HeadIs(rest: seq<Obj>, o: Obj)
    requires o == Head(rest, null)
    ensures rest != [] && rest[0] == o
  {
  }

  lemma HeadGrows(kept: seq<Obj>, o: Obj, next: Obj?)
    ensures Head(kept + [o], next) == Head(kept, o)
  {
  }

  lemma HeadSame(kept: seq<Obj>, a: Obj?, b: Obj?)
    requires kept != []
    ensures Head(kept, a) == Head(kept, b)
  {
  }

  lemma ChainEmpty(tail: Obj?)
    ensures Chain([], tail) && Head([], tail) == tail
  {
  }

  lemma StartsSweep(vm: Vm, marks: set<Obj>)
    requires marks == Marks(vm.Heap()) && Distinct(vm.list)
    ensures Filter([], marks) == [] && Distinct([] + vm.list)
    ensures forall o :: o in vm.list ==> (o.isMarked <==> o in marks)
    ensures Chain([], vm.objects) && Head([], vm.objects) == vm.objects
  {
    assert [] + vm.list == vm.list;
  }

  lemma ListInHeap(vm: Vm)
    ensures forall o :: o in vm.list <==> o in vm.Heap()
  {
  }

  lemma HeadNull(rest: seq<Obj>)
    requires Head(rest, null) == null
    ensures rest == []
  {
  }

  lemma DistinctMoves(kept: seq<Obj>, rest: seq<Obj>)
    requires rest != [] && Distinct(kept + rest)
    ensures Distinct(kept) && Distinct(kept + [rest[0]] + rest[1..]) && Distinct(kept + rest[1..])
    ensures rest[0] !in kept && rest[0] !in rest[1..]
    ensures forall o :: o in kept ==> o !in rest && o !in rest[1..]
  {
    var all := kept + rest;
    assert kept + [rest[0]] + rest[1..] == all;
    forall i, j | 0 <= i < j < |kept + rest[1..]|
      ensures (kept + rest[1..])[i] != (kept + rest[1..])[j]
    {
      var i', j' := if i < |kept| then i else i + 1, if j < |kept| then j else j + 1;
      assert all[i'] != all[j'];
    }
    assert forall i :: 0 <= i < |kept| ==> all[i] == kept[i];
    assert Distinct(kept);
    assert forall i :: 0 <= i < |rest| ==> all[|kept| + i] == rest[i];
  }

  /** The virtual machine, as far as the collector looks at it. */
  class Vm {
    var currentThread: Obj?
    var parkedThreads: seq<Obj?>
    var rootedStrings: seq<Obj?>
    var rootedValues: seq<Value>
    var globals: seq<Entry>
    var modules: seq<Entry>

    /** Head of the list of all objects, and that list. */
    var objects: Obj?
    ghost var list: seq<Obj>

    ghost function Heap(): set<Obj>
      reads `list
    {
      set o | o in list
    }

    ghost function Roots(): set<Obj>
      reads `currentThread, `parkedThreads, `rootedStrings, `rootedValues, `globals, `modules
    {
      One(currentThread) + InObjects(parkedThreads) + InObjects(rootedStrings) + InValues(rootedValues)
      + InEntries(globals) + InEntries(modules)
    }

    /** Every object a root field names is in the heap. */
    ghost predicate RootsInside(heap: set<Obj>)
      reads `currentThread, `parkedThreads, `rootedStrings, `rootedValues, `globals, `modules
    {
      && There(currentThread, heap)
      && (forall i :: 0 <= i < |parkedThreads| ==> There(parkedThreads[i], heap))
      && (forall i :: 0 <= i < |rootedStrings| ==> There(rootedStrings[i], heap))
      && (forall i :: 0 <= i < |rootedValues| ==> Known(rootedValues[i], heap))
      && SlotsInside(globals, heap) && SlotsInside(modules, heap)
    }

    /** The roots are exactly what the root fields name. */
    lemma RootsAreFields(heap: set<Obj>)
      ensures Roots() <= heap <==> RootsInside(heap)
    {
      hide InEntries, InValues, InObjects;
      ObjectsInside(parkedThreads, heap);
      ObjectsInside(rootedStrings, heap);
      ValuesInside(rootedValues, heap);
      EntriesInside(globals, heap);
      EntriesInside(modules, heap);
    }

    /** Between collections no field of an object and no root names an object outside the list. */
    lemma FieldsStayInside()
      requires Valid()
      ensures RootsInside(Heap()) && forall o :: o in list ==> FieldsInside(o.payload, Heap())
    {
      hide Children, Roots, FieldsInside;
      RootsAreFields(Heap());
      forall o | o in list
        ensures FieldsInside(o.payload, Heap())
      {
        ChildrenAreFields(o.payload, Heap());
      }
    }

    /** Between collections: nothing is marked, and no reference of a root or of an object leaves the list. */
    ghost predicate Valid()
      reads this, list
    {
      && objects == Head(list, null) && Chain(list, null) && Distinct(list)
      && (forall o :: o in list ==> !o.isMarked)
      && (forall o :: o in list ==> Children(o.payload) <= Heap())
      && Roots() <= Heap()
    }

    /** `allocate_object`: a new unmarked object at the head of the list. */
    method AllocateObject(payload: Payload) returns (o: Obj)
      requires Valid() && Children(payload) <= Heap()
      modifies `objects, `list
      ensures Valid() && fresh(o) && o.payload == payload && list == [o] + old(list)
    {
      hide Children, Roots, Marks;
      o := new Obj(payload, objects);
      ChainHead(list, o);
      objects := o;
      list := [o] + list;
    }

    /** `mark_roots`: on a heap without marks, exactly the objects reachable from the roots get one. */
    method MarkRoots(ghost g: Graph<Obj>, ghost r: set<Obj>)
      requires Snapshot(Heap(), g) && r <= Heap() && ClosedUnder(g, r) && Roots() <= r
      requires Marks(Heap()) == {} && forall o :: o in r ==> Reachable(g, Roots(), o)
      modifies Heap()`isMarked
      ensures Grows(g, r, {}, Marks(Heap())) && Roots() <= Marks(Heap())
      ensures forall o :: o in Marks(Heap()) <==> Reachable(g, Roots(), o)
    {
      MarkAllRoots(g, r);
      MarkedIsReachable(g, Roots(), r, Marks(Heap()));
    }

    method MarkAllRoots(ghost g: Graph<Obj>, ghost r: set<Obj>)
      requires Snapshot(Heap(), g) && r <= Heap() && ClosedUnder(g, r) && Roots() <= r
      modifies Heap()`isMarked
      ensures Grows(g, r, old(Marks(Heap())), Marks(Heap())) && Roots() <= Marks(Heap())
    {
      hide Snapshot, ClosedUnder, One, InObjects, InValues, InEntries, Heap;
      ghost var heap := Heap();
      ghost var a := Marks(heap);
      MarkObject(currentThread, heap, g, r);
      ghost var b := Marks(heap);
      MarkObjects(parkedThreads, heap, g, r);
      ghost var c := Marks(heap);
      GrowsOn(g, r, a, b, c);
      MarkObjects(rootedStrings, heap, g, r);
      ghost var d := Marks(heap);
      GrowsOn(g, r, a, c, d);
      MarkValues(rootedValues, heap, g, r);
      ghost var e := Marks(heap);
      GrowsOn(g, r, a, d, e);
      MarkEntries(globals, heap, g, r);
      ghost var f := Marks(heap);
      GrowsOn(g, r, a, e, f);
      MarkEntries(modules, heap, g, r);
      GrowsOn(g, r, a, f, Marks(heap));
    }

    /** `sweep_objects`: unlinks the unmarked objects, unmarks the others. */
    method SweepObjects()
      requires objects == Head(list, null) && Chain(list, null) && Distinct(list)
      modifies `objects, `list, Heap()`isMarked, Heap()`next
      ensures list == Filter(old(list), old(Marks(Heap())))
      ensures objects == Head(list, null) && Chain(list, null) && Distinct(list)
      ensures forall o :: o in list ==> !o.isMarked
    {
      hide *;
      ghost var marks, heap := Marks(Heap()), Heap();
      ListInHeap(this);
      ghost var seen: seq<Obj>, kept: seq<Obj>, rest := [], [], list;
      var previous: Obj? := null;
      var object_ := objects;
      StartsSweep(this, marks);
      while object_ != null
        invariant list == old(list) == seen + rest && (forall o :: o in kept ==> o in heap)
                  && (forall o :: o in rest ==> o in heap)
        invariant kept == Filter(seen, marks) && Distinct(kept + rest)
        invariant object_ == Head(rest, null) && Chain(rest, null) && Chain(kept, object_)
        invariant previous == (if kept == [] then null else kept[|kept| - 1])
        invariant objects == Head(kept, object_)
        invariant forall o :: o in kept ==> !o.isMarked
        invariant forall o :: o in rest ==> (o.isMarked <==> o in marks)
        decreases |rest|
      {
        HeadIs(rest, object_);
        FilterNext(seen, marks, object_);
        DistinctMoves(kept, rest);
        ChainTail(rest, null);
        ghost var after := rest[1..];
        if object_.isMarked {
          object_.isMarked := false;
          ChainGrows(kept, object_, Head(rest[1..], null));
          HeadGrows(kept, object_, object_.next);
          kept := kept + [object_];
          previous := object_;
          object_ := object_.next;
        } else {
          object_ := object_.next;
          if previous != null {
            ghost var init := kept[..|kept| - 1];
            ChainInit(kept, previous, rest[0]);
            assert previous in kept && previous !in after;
            previous.next := object_;
            assert Chain(after, null);
            ChainGrows(init, previous, object_);
            HeadSame(kept, rest[0], object_);
          } else {
            objects := object_;
            ChainEmpty(object_);
          }
        }
        seen := seen + [rest[0]];
        rest := after;
      }
      HeadNull(rest);
      assert seen + rest == seen;
      assert kept + rest == kept;
      list := kept;
    }

    /**
     * `collect_garbage`: exactly the objects reachable from the roots stay, in their order and with their
     * contents, and the next collection starts clean. So every object that a field of a survivor or a root names is
     * still in the list.
     */
    method CollectGarbage()
      requires Valid()
      modifies `objects, `list, Heap()`isMarked, Heap()`next
      ensures Valid()
      ensures list == Filter(old(list), Heap())
      ensures forall o :: o in list <==> o in old(list) && Reachable(old(GraphOf(Heap())), Roots(), o)
      ensures forall o :: o in list ==> Reachable(GraphOf(Heap()), Roots(), o)
      ensures RootsInside(Heap()) && forall o :: o in list ==> FieldsInside(o.payload, Heap())
    {
      hide Children, Roots, Chain, Distinct, Head, GraphOf, Reachable, Marks, Grows, ClosedUnder, RootsInside,
        FieldsInside;
      ghost var heap, g := Heap(), GraphOf(Heap());
      ghost var r := ReachableIn(heap, g, Roots());
      StartsClean(this, g, r);
      MarkRoots(g, r);
      ghost var marks := Marks(heap);
      MarkedIsClosed(heap, g, r, marks);
      SweepObjects();
      FilterElements(old(list), marks);
      FilterSame(old(list), marks, Heap());
      assert forall o :: o in list ==> o in heap && o in marks && Children(o.payload) <= marks;
      StillReachable(this, heap, g);
      FieldsStayInside();
    }
  }

  lemma ChainHead(list: seq<Obj>, o: Obj)
    requires Chain(list, null) && o.next == Head(list, null) && o !in list && Distinct(list)
    ensures Chain([o] + list, null) && Distinct([o] + list) && Head([o] + list, null) == o
  {
    var all := [o] + list;
    forall k: nat | k < |all|
      ensures all[k].next == After(all, k, null)
    {
      if k > 0 {
        assert list[k - 1].next == After(list, k - 1, null);
      }
    }
  }

  lemma StillReachable(vm: Vm, heap: set<Obj>, g: Graph<Obj>)
    requires g.Keys == heap && forall o :: o in heap ==> g[o] == Children(o.payload)
    requires forall o :: o in vm.list <==> o in heap && Reachable(g, vm.Roots(), o)
    ensures forall o :: o in vm.list ==> Reachable(GraphOf(vm.Heap()), vm.Roots(), o)
  {
    hide Children, Reachable;
    forall o | o in vm.list
      ensures Reachable(GraphOf(vm.Heap()), vm.Roots(), o)
    {
      ReachableRestricted(g, GraphOf(vm.Heap()), vm.Roots(), o);
    }
  }

  lemma MarkedIsClosed(heap: set<Obj>, g: Graph<Obj>, r: set<Obj>, marks: set<Obj>)
    requires Snapshot(heap, g) && r <= heap && Grows(g, r, {}, marks)
    ensures marks <= heap && forall o :: o in marks ==> Children(o.payload) <= marks
  {
    hide Children;
    forall o, c | o in marks && c in Children(o.payload)
      ensures c in marks
    {
      assert o in g && c in g[o];
    }
  }

  ghost function ReachableIn(heap: set<Obj>, g: Graph<Obj>, roots: set<Obj>): set<Obj> {
    set o | o in heap && Reachable(g, roots, o)
  }

  /** Before a collection no object is marked, and the reachable ones are a closed part of the heap around the roots. */
  lemma StartsClean(vm: Vm, g: Graph<Obj>, r: set<Obj>)
    requires vm.Valid() && g == GraphOf(vm.Heap()) && r == ReachableIn(vm.Heap(), g, vm.Roots())
    ensures Snapshot(vm.Heap(), g) && r <= vm.Heap() && ClosedUnder(g, r) && vm.Roots() <= r
    ensures Marks(vm.Heap()) == {} && forall o :: o in r ==> Reachable(g, vm.Roots(), o)
  {
    hide Children, vm.Roots;
    forall x, y | x in r && x in g && y in g[x]
      ensures y in r
    {
      ReachableNext(g, vm.Roots(), x, y);
    }
    forall o | o in vm.Roots()
      ensures o in r
    {
      assert o in Within(g, vm.Roots(), 0);
    }
  }
}
