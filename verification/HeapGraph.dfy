/** The object graph of the heap: the coded child edges, and the list of all objects. */
module HeapGraph {
  datatype Value = Nil | Bool(b: bool) | Num(n: real) | Ref(obj: Obj)

  /** A slot of a hash part; tombstones and empty slots have no key. */
  datatype Entry = Entry(key: Obj?, value: Value)

  datatype Frame = Frame(closure: Obj?, moduleCacheName: Value, prevModuleName: Value, prevModuleFile: Value, prevModuleMain: Value)

  /** The inline caches of one code byte: of global reads and of table reads. */
  datatype Cache = Cache(globalName: Obj?, globalValue: Value, getTable: Obj?, getKey: Obj?, getValue: Value)

  /** What an object holds, as far as the collector looks at it. */
  datatype Payload =
    | String
    | Table(entries: seq<Entry>, arrayPart: seq<Value>, metatable: Obj?)
    | Function(name: Obj?, doc: Obj?, constants: seq<Value>, caches: seq<Cache>, defaults: seq<Value>, paramNames: seq<Obj?>)
    | Native(name: Obj?)
    | Upvalue(closed: Value)
    | Closure(code: Obj?, upvalues: seq<Obj?>)
    | Thread(stack: seq<Value>, hasException: bool, exception: Value, lastError: Value, frames: seq<Frame>,
             openUpvalues: seq<Obj?>, caller: Obj?)
    | Userdata(metatable: Obj?)
    | BoundMethod(receiver: Value, callee: Obj?)

  /** The header of a heap object: its mark, the link of the list of all objects, and its contents. */
  class Obj {
    var isMarked: bool
    var next: Obj?
    var payload: Payload

    constructor (payload: Payload, next: Obj?)
      ensures !isMarked && this.next == next && this.payload == payload
    {
      isMarked := false;
      this.next := next;
      this.payload := payload;
    }
  }

  // ----- child edges -----

  ghost function One(o: Obj?): set<Obj> {
    if o == null then {} else {o}
  }

  ghost function InValue(v: Value): set<Obj> {
    if v.Ref? then {v.obj} else {}
  }

  ghost function InValues(vs: seq<Value>): set<Obj> {
    set v | v in vs && v.Ref? :: v.obj
  }

  ghost function InObjects(os: seq<Obj?>): set<Obj> {
    set o: Obj | o in os
  }

  ghost function InEntry(e: Entry): set<Obj> {
    if e.key == null then {} else {e.key} + InValue(e.value)
  }

  ghost function InEntries(es: seq<Entry>): set<Obj>
    decreases |es|
  {
    if es == [] then {} else InEntries(es[..|es| - 1]) + InEntry(es[|es| - 1])
  }

  ghost function InFrame(f: Frame): set<Obj> {
    One(f.closure) + InValue(f.moduleCacheName) + InValue(f.prevModuleName) + InValue(f.prevModuleFile) + InValue(f.prevModuleMain)
  }

  ghost function InFrames(fs: seq<Frame>): set<Obj>
    decreases |fs|
  {
    if fs == [] then {} else InFrames(fs[..|fs| - 1]) + InFrame(fs[|fs| - 1])
  }

  ghost function InCache(c: Cache): set<Obj> {
    One(c.globalName) + InValue(c.globalValue) + One(c.getTable) + One(c.getKey) + InValue(c.getValue)
  }

  ghost function InCaches(cs: seq<Cache>): set<Obj>
    decreases |cs|
  {
    if cs == [] then {} else InCaches(cs[..|cs| - 1]) + InCache(cs[|cs| - 1])
  }

  /** Everything an object refers to directly. */
  ghost function Children(p: Payload): set<Obj> {
    match p
    case String => {}
    case Table(entries, arrayPart, metatable) => InEntries(entries) + InValues(arrayPart) + One(metatable)
    case Function(name, doc, constants, caches, defaults, paramNames) =>
      One(name) + One(doc) + InValues(constants) + InCaches(caches) + InValues(defaults) + InObjects(paramNames)
    case Native(name) => One(name)
    case Upvalue(closed) => InValue(closed)
    case Closure(code, upvalues) => One(code) + InObjects(upvalues)
    case Thread(stack, hasException, exception, lastError, frames, openUpvalues, caller) =>
      InValues(stack) + (if hasException then InValue(exception) else {}) + InValue(lastError)
      + InFrames(frames) + InObjects(openUpvalues) + One(caller)
    case Userdata(metatable) => One(metatable)
    case BoundMethod(receiver, callee) => InValue(receiver) + One(callee)
  }

  // ----- the same edges, field by field -----

  /** The object the value refers to, if it does, is there. */
  ghost predicate Known(v: Value, heap: set<Obj>) {
    v.Ref? ==> v.obj in heap
  }

  ghost predicate There(o: Obj?, heap: set<Obj>) {
    o != null ==> o in heap
  }

  /** Keys and values of the slots that have a key. */
  ghost predicate SlotsInside(entries: seq<Entry>, heap: set<Obj>) {
    forall i :: 0 <= i < |entries| && entries[i].key != null ==> entries[i].key in heap && Known(entries[i].value, heap)
  }

  /** Every object a field names is in the heap. */
  ghost predicate FieldsInside(p: Payload, heap: set<Obj>) {
    match p
    case String => true
    case Table(entries, arrayPart, metatable) =>
      && SlotsInside(entries, heap)
      && (forall i :: 0 <= i < |arrayPart| ==> Known(arrayPart[i], heap))
      && There(metatable, heap)
    case Function(name, doc, constants, caches, defaults, paramNames) =>
      && There(name, heap) && There(doc, heap)
      && (forall i :: 0 <= i < |constants| ==> Known(constants[i], heap))
      && (forall i :: 0 <= i < |caches| ==>
            && There(caches[i].globalName, heap) && Known(caches[i].globalValue, heap)
            && There(caches[i].getTable, heap) && There(caches[i].getKey, heap) && Known(caches[i].getValue, heap))
      && (forall i :: 0 <= i < |defaults| ==> Known(defaults[i], heap))
      && (forall i :: 0 <= i < |paramNames| ==> There(paramNames[i], heap))
    case Native(name) => There(name, heap)
    case Upvalue(closed) => Known(closed, heap)
    case Closure(code, upvalues) => There(code, heap) && forall i :: 0 <= i < |upvalues| ==> There(upvalues[i], heap)
    case Thread(stack, hasException, exception, lastError, frames, openUpvalues, caller) =>
      && (forall i :: 0 <= i < |stack| ==> Known(stack[i], heap))
      && (hasException ==> Known(exception, heap)) && Known(lastError, heap)
      && (forall i :: 0 <= i < |frames| ==>
            && There(frames[i].closure, heap) && Known(frames[i].moduleCacheName, heap)
            && Known(frames[i].prevModuleName, heap) && Known(frames[i].prevModuleFile, heap)
            && Known(frames[i].prevModuleMain, heap))
      && (forall i :: 0 <= i < |openUpvalues| ==> There(openUpvalues[i], heap))
      && There(caller, heap)
    case Userdata(metatable) => There(metatable, heap)
    case BoundMethod(receiver, callee) => Known(receiver, heap) && There(callee, heap)
  }

  /** The edges are exactly what the fields name: a set holds all children iff it holds all objects in fields. */
  lemma ChildrenAreFields(p: Payload, heap: set<Obj>)
    ensures Children(p) <= heap <==> FieldsInside(p, heap)
  {
    hide InEntries, InFrames, InCaches, InValues, InObjects;
    match p
    case Table(entries, arrayPart, _) =>
      EntriesInside(entries, heap);
      ValuesInside(arrayPart, heap);
    case Function(_, _, constants, caches, defaults, paramNames) =>
      ValuesInside(constants, heap);
      CachesInside(caches, heap);
      ValuesInside(defaults, heap);
      ObjectsInside(paramNames, heap);
    case Closure(_, upvalues) => ObjectsInside(upvalues, heap);
    case Thread(stack, _, _, _, frames, openUpvalues, _) =>
      ValuesInside(stack, heap);
      FramesInside(frames, heap);
      ObjectsInside(openUpvalues, heap);
    case _ =>
  }

  lemma ValuesInside(vs: seq<Value>, heap: set<Obj>)
    ensures InValues(vs) <= heap <==> forall i :: 0 <= i < |vs| ==> Known(vs[i], heap)
  {
    if InValues(vs) <= heap {
      forall i | 0 <= i < |vs|
        ensures Known(vs[i], heap)
      {
        assert vs[i].Ref? ==> vs[i].obj in InValues(vs);
      }
    }
  }

  lemma ObjectsInside(os: seq<Obj?>, heap: set<Obj>)
    ensures InObjects(os) <= heap <==> forall i :: 0 <= i < |os| ==> There(os[i], heap)
  {
    if InObjects(os) <= heap {
      forall i | 0 <= i < |os|
        ensures There(os[i], heap)
      {
        assert os[i] != null ==> os[i] in InObjects(os);
      }
    }
  }

  lemma {:induction false} EntriesInside(es: seq<Entry>, heap: set<Obj>)
    ensures InEntries(es) <= heap <==> SlotsInside(es, heap)
    decreases |es|
  {
    if es != [] {
      var init := es[..|es| - 1];
      EntriesInside(init, heap);
      assert forall i :: 0 <= i < |init| ==> init[i] == es[i];
    }
  }

  lemma {:induction false} FramesInside(fs: seq<Frame>, heap: set<Obj>)
    ensures InFrames(fs) <= heap <==>
            forall i :: 0 <= i < |fs| ==>
              && There(fs[i].closure, heap) && Known(fs[i].moduleCacheName, heap) && Known(fs[i].prevModuleName, heap)
              && Known(fs[i].prevModuleFile, heap) && Known(fs[i].prevModuleMain, heap)
    decreases |fs|
  {
    if fs != [] {
      var init := fs[..|fs| - 1];
      FramesInside(init, heap);
      assert forall i :: 0 <= i < |init| ==> init[i] == fs[i];
    }
  }

  lemma {:induction false} CachesInside(cs: seq<Cache>, heap: set<Obj>)
    ensures InCaches(cs) <= heap <==>
            forall i :: 0 <= i < |cs| ==>
              && There(cs[i].globalName, heap) && Known(cs[i].globalValue, heap)
              && There(cs[i].getTable, heap) && There(cs[i].getKey, heap) && Known(cs[i].getValue, heap)
    decreases |cs|
  {
    if cs != [] {
      var init := cs[..|cs| - 1];
      CachesInside(init, heap);
      assert forall i :: 0 <= i < |init| ==> init[i] == cs[i];
    }
  }

  // ----- the list of all objects -----

  /** The survivors of a list, in their order. */
  ghost function Filter(list: seq<Obj>, keep: set<Obj>): (kept: seq<Obj>)
    ensures |kept| <= |list|
    decreases |list|
  {
    if list == [] then []
    else
      var last := list[|list| - 1];
      Filter(list[..|list| - 1], keep) + (if last in keep then [last] else [])
  }

  lemma {:induction false} FilterElements(list: seq<Obj>, keep: set<Obj>)
    ensures forall o :: o in Filter(list, keep) <==> o in list && o in keep
    decreases |list|
  {
    if list != [] {
      FilterElements(list[..|list| - 1], keep);
      assert list == list[..|list| - 1] + [list[|list| - 1]];
    }
  }

  ghost predicate Distinct(list: seq<Obj>) {
    forall i, j :: 0 <= i < j < |list| ==> list[i] != list[j]
  }

  lemma {:induction false} FilterDistinct(list: seq<Obj>, keep: set<Obj>)
    requires Distinct(list)
    ensures Distinct(Filter(list, keep))
    decreases |list|
  {
    if list != [] {
      FilterDistinct(list[..|list| - 1], keep);
      FilterElements(list[..|list| - 1], keep);
    }
  }

  lemma {:induction false} FilterAll(list: seq<Obj>, keep: set<Obj>)
    requires forall o :: o in list ==> o in keep
    ensures Filter(list, keep) == list
    decreases |list|
  {
    if list != [] {
      FilterAll(list[..|list| - 1], keep);
    }
  }

  lemma {:induction false} FilterSame(list: seq<Obj>, a: set<Obj>, b: set<Obj>)
    requires forall o :: o in list ==> (o in a <==> o in b)
    ensures Filter(list, a) == Filter(list, b)
    decreases |list|
  {
    if list != [] {
      FilterSame(list[..|list| - 1], a, b);
    }
  }
}
