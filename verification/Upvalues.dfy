/** Captured variables: the list of open upvalues of a thread, ordered by stack slot. */
module Upvalues {
  datatype Value = Nil | Bool(b: bool) | Num(n: real) | Object(id: nat)

  /** Where an upvalue finds its value: in a stack slot, or in its own cell once it is closed. */
  datatype Location = Slot(index: nat) | Own

  class Upvalue {
    var location: Location
    var closed: Value
    var next: Upvalue?

    /** `new_upvalue` */
    constructor (slot: nat)
      ensures location == Slot(slot) && closed == Nil && next == null
    {
      location, closed, next := Slot(slot), Nil, null;
    }
  }

  // ----- linked lists of upvalues -----

  ghost function Head(list: seq<Upvalue>, tail: Upvalue?): Upvalue? {
    if list == [] then tail else list[0]
  }

  ghost function After(list: seq<Upvalue>, k: nat, tail: Upvalue?): Upvalue?
    requires k < |list|
  {
    if k + 1 < |list| then list[k + 1] else tail
  }

  /** The upvalues are linked in order, the last one to `tail`. */
  ghost predicate Chain(list: seq<Upvalue>, tail: Upvalue?)
    reads list`next
  {
    forall k: nat {:trigger After(list, k, tail)} :: k < |list| ==> list[k].next == After(list, k, tail)
  }

  /** The upvalues are open, each at a lower slot than the one before it and below `limit`. */
  ghost predicate Descending(list: seq<Upvalue>, limit: nat)
    reads list`location
  {
    && (forall i :: 0 <= i < |list| ==> list[i].location.Slot? && list[i].location.index < limit)
    && (forall i, j :: 0 <= i < j < |list| ==> list[i].location.index > list[j].location.index)
  }

  lemma ChainTail(rest: seq<Upvalue>, tail: Upvalue?)
    requires rest != [] && Chain(rest, tail)
    ensures rest[0].next == Head(rest[1..], tail) && Chain(rest[1..], tail)
  {
    assert rest[0].next == After(rest, 0, tail);
    forall k: nat | k < |rest| - 1
      ensures rest[1..][k].next == After(rest[1..], k, tail)
    {
      assert rest[k + 1].next == After(rest, k + 1, tail);
    }
  }

  /** A chain can be cut anywhere: the front leads to the first of the rest. */
  lemma ChainCut(list: seq<Upvalue>, k: nat)
    requires k <= |list| && Chain(list, null)
    ensures Chain(list[..k], Head(list[k..], null)) && Chain(list[k..], null)
  {
    forall i: nat | i < k
      ensures list[..k][i].next == After(list[..k], i, Head(list[k..], null))
    {
      assert list[i].next == After(list, i, null);
    }
    forall i: nat | i < |list| - k
      ensures list[k..][i].next == After(list[k..], i, null)
    {
      assert list[k + i].next == After(list, k + i, null);
    }
  }

  /** A front that leads to the head of a rest makes one chain with it. */
  lemma ChainJoin(front: seq<Upvalue>, rest: seq<Upvalue>)
    requires Chain(front, Head(rest, null)) && Chain(rest, null)
    ensures Chain(front + rest, null) && Head(front + rest, null) == Head(front, Head(rest, null))
  {
    var all := front + rest;
    forall i: nat | i < |all|
      ensures all[i].next == After(all, i, null)
    {
      if i < |front| {
        assert front[i].next == After(front, i, Head(rest, null));
      } else {
        assert rest[i - |front|].next == After(rest, i - |front|, null);
      }
    }
  }

  /** All but the last of a chain lead to the last. */
  lemma ChainInit(front: seq<Upvalue>, tail: Upvalue?)
    requires front != [] && Chain(front, tail)
    ensures Chain(front[..|front| - 1], front[|front| - 1])
  {
    var init := front[..|front| - 1];
    forall i: nat | i < |init|
      ensures init[i].next == After(init, i, front[|front| - 1])
    {
      assert front[i].next == After(front, i, tail);
    }
  }

  lemma ChainLast(init: seq<Upvalue>, last: Upvalue, tail: Upvalue?)
    requires Chain(init, last) && last.next == tail
    ensures Chain(init + [last], tail)
  {
    var all := init + [last];
    forall i: nat | i < |all|
      ensures all[i].next == After(all, i, tail)
    {
      if i < |init| {
        assert init[i].next == After(init, i, last);
      }
    }
  }

  class Thread {
    var stack: seq<Value>
    var openUpvalues: Upvalue?

    /** The open upvalues, from the top of the stack down. */
    ghost var open: seq<Upvalue>

    ghost predicate Valid()
      reads this, open
    {
      openUpvalues == Head(open, null) && Chain(open, null) && Descending(open, |stack|)
    }

    constructor (stack: seq<Value>)
      ensures Valid() && this.stack == stack && open == []
    {
      this.stack := stack;
      openUpvalues := null;
      open := [];
    }

    /** What an upvalue reads: the variable in its slot, or its own cell. */
    ghost function ValueOf(u: Upvalue): Value
      requires u.location.Slot? ==> u.location.index < |stack|
      reads `stack, u
    {
      match u.location
      case Slot(i) => stack[i]
      case Own => u.closed
    }

    /** The search of `capture_upvalue`: how many open upvalues lie above the slot. */
    method FindPlace(local: nat) returns (prev: Upvalue?, upvalue: Upvalue?, ghost k: nat)
      requires Valid()
      ensures k <= |open| && upvalue == Head(open[k..], null) && prev == if k == 0 then null else open[k - 1]
      ensures forall i :: 0 <= i < k ==> open[i].location.index > local
      ensures forall i :: k <= i < |open| ==> open[i].location.index <= local
    {
      hide Chain;
      k := 0;
      prev := null;
      upvalue := openUpvalues;
      assert open[0..] == open;
      while upvalue != null && upvalue.location.index > local
        invariant 0 <= k <= |open| && upvalue == Head(open[k..], null)
        invariant prev == if k == 0 then null else open[k - 1]
        invariant forall i :: 0 <= i < k ==> open[i].location.index > local
        decreases |open| - k
      {
        ChainCut(open, k);
        ChainTail(open[k..], null);
        assert open[k..][1..] == open[k + 1..];
        prev := upvalue;
        upvalue := upvalue.next;
        k := k + 1;
      }
      assert k < |open| ==> upvalue == open[k];
    }

    /**
     * `capture_upvalue`: one cell per slot. A slot captured before gives its cell again; a new cell goes to its
     * place in the list.
     */
    method CaptureUpvalue(local: nat) returns (u: Upvalue)
      requires Valid() && local < |stack|
      modifies `openUpvalues, `open, open`next
      ensures Valid() && u in open && u.location == Slot(local)
      ensures (exists v :: v in old(open) && v.location == Slot(local)) ==> open == old(open)
      ensures (forall v :: v in old(open) ==> v.location != Slot(local)) ==>
                (fresh(u) && exists k :: 0 <= k <= |old(open)| && open == old(open)[..k] + [u] + old(open)[k..])
    {
      hide Chain, Descending;
      var prev, upvalue;
      ghost var k;
      prev, upvalue, k := FindPlace(local);
      if upvalue != null && upvalue.location == Slot(local) {
        return upvalue;
      }
      NoneThere(open, k, local, |stack|);
      u := new Upvalue(local);
      u.next := upvalue;
      Insert(prev, u, k);
    }

    /** Links a new upvalue in behind the first `k`. */
    method Insert(prev: Upvalue?, created: Upvalue, ghost k: nat)
      requires Valid() && k <= |open| && prev == (if k == 0 then null else open[k - 1])
      requires created !in open && created.next == Head(open[k..], null)
      requires created.location.Slot? && created.location.index < |stack|
      requires forall i :: 0 <= i < k ==> open[i].location.index > created.location.index
      requires forall i :: k <= i < |open| ==> open[i].location.index < created.location.index
      modifies `openUpvalues, `open, open`next
      ensures Valid() && open == old(open)[..k] + [created] + old(open)[k..]
    {
      hide *;
      ghost var all := open;
      ghost var front, rest := all[..k], [created] + all[k..];
      ValidIs();
      ChainCut(all, k);
      LinkFront(created, all[k..]);
      InsertedDescends(all, k, created, |stack|);
      HeadOf(created, all[k..]);
      if prev == null {
        openUpvalues := created;
        assert front == [];
      } else {
        ChainInit(front, created.next);
        InitApart(all, k, |stack|);
        prev.next := created;
        assert Chain(rest, null);
        ChainLast(front[..k - 1], prev, created);
        assert front[..k - 1] + [prev] == front;
      }
      JoinedIs(front, rest);
      assert front + rest == all[..k] + [created] + all[k..];
      open := all[..k] + [created] + all[k..];
      HeadFront(front, rest, all, created);
      ValidIs();
    }

    lemma ValidIs()
      ensures Valid() <==> openUpvalues == Head(open, null) && Chain(open, null) && Descending(open, |stack|)
    {
      hide Chain, Head, Descending;
    }

    /** The topmost open cell takes over the value of its slot and leaves the list. */
    method CloseTop()
      requires Valid() && openUpvalues != null
      modifies `openUpvalues, `open, openUpvalues`location, openUpvalues`closed
      ensures Valid() && old(open) != [] && open == old(open)[1..]
      ensures var u := old(open[0]);
              u.location == Own && u.closed == stack[old(open[0].location.index)]
    {
      hide Chain;
      ghost var all := open;
      var upvalue := openUpvalues;
      ChainTail(open, null);
      OnlyOnce(all, |stack|);
      upvalue.closed := stack[upvalue.location.index];
      upvalue.location := Own;
      openUpvalues := upvalue.next;
      open := open[1..];
    }

    /**
     * `close_upvalues`: exactly the cells at or above the slot are closed, each with the value its slot held; the
     * others stay open, in their order. Every cell still reads what it read before.
     */
    method CloseUpvalues(last: nat)
      requires Valid()
      modifies `openUpvalues, `open, open`location, open`closed
      ensures Valid() && |open| <= |old(open)| && open == old(open)[|old(open)| - |open|..]
      ensures forall i :: 0 <= i < |old(open)| ==> (i < |old(open)| - |open| <==> old(open[i].location.index) >= last)
      ensures forall i :: 0 <= i < |old(open)| - |open| ==>
                old(open)[i].location == Own && old(open)[i].closed == stack[old(open[i].location.index)]
      ensures forall i :: |old(open)| - |open| <= i < |old(open)| ==>
                old(open)[i].location == old(open[i].location) && old(open)[i].closed == old(open[i].closed)
      ensures forall i :: 0 <= i < |old(open)| ==>
                && (old(open)[i].location.Slot? ==> old(open)[i].location.index < |stack|)
                && ValueOf(old(open)[i]) == old(ValueOf(open[i]))
    {
      hide *;
      ghost var all, slots, cells := open, SlotsOf(open), CellsOf(open);
      TopIs();
      OpenFacts(all, slots, |stack|);
      ValuesAt(all, slots);
      Progressed(all, slots, cells, last);
      ghost var k := CloseLoop(all, slots, cells, last);
      ValuesAfter(all, slots, k);
    }

    method CloseLoop(ghost all: seq<Upvalue>, ghost slots: seq<nat>, ghost cells: seq<Value>, last: nat)
      returns (ghost k: nat)
      requires Progress(all, slots, cells, last, 0) && open == all
      modifies `openUpvalues, `open, open`location, open`closed
      ensures k <= |all| == |slots| == |cells| && open == all[k..] && Valid()
      ensures forall i :: k <= i < |all| ==>
                slots[i] < last && all[i].location == Slot(slots[i]) && all[i].closed == cells[i]
      ensures forall i :: 0 <= i < k ==> slots[i] >= last && all[i].location == Own && all[i].closed == stack[slots[i]]
    {
      hide *;
      k := 0;
      ProgressTop(all, slots, cells, last, k);
      while openUpvalues != null && openUpvalues.location.index >= last
        invariant 0 <= k <= |all| && Progress(all, slots, cells, last, k)
        invariant openUpvalues != null ==> openUpvalues.location.Slot? && openUpvalues in all && k < |all|
        decreases |all| - k
      {
        CloseNext(all, slots, cells, last, k);
        k := k + 1;
        ProgressTop(all, slots, cells, last, k);
      }
      Stopped(all, slots, cells, last, k);
    }

    /** The first `k` of the cells that were open are closed, the others are as they were. */
    ghost predicate Progress(all: seq<Upvalue>, slots: seq<nat>, cells: seq<Value>, last: nat, k: nat)
      reads this, open, all
    {
      && k <= |all| == |slots| == |cells| && open == all[k..] && Valid()
      && openUpvalues == (if k == |all| then null else all[k])
      && (forall i, j :: 0 <= i < j < |all| ==> slots[i] > slots[j] && all[i] != all[j])
      && (forall i :: k <= i < |all| ==> all[i].location == Slot(slots[i]) && all[i].closed == cells[i])
      && (forall i :: 0 <= i < k ==>
           slots[i] >= last && slots[i] < |stack| && all[i].location == Own && all[i].closed == stack[slots[i]])
    }

    method CloseNext(ghost all: seq<Upvalue>, ghost slots: seq<nat>, ghost cells: seq<Value>, ghost last: nat,
                     ghost k: nat)
      requires Progress(all, slots, cells, last, k) && openUpvalues != null && openUpvalues.location.index >= last
      modifies `openUpvalues, `open, openUpvalues`location, openUpvalues`closed
      ensures Progress(all, slots, cells, last, k + 1)
    {
      assert all[k..][1..] == all[k + 1..];
      assert slots[k] < |stack| && openUpvalues == all[k] by { TopIs(); }
      hide Valid;
      CloseTop();
      assert Valid();
      TopIs();
    }

    lemma Progressed(all: seq<Upvalue>, slots: seq<nat>, cells: seq<Value>, last: nat)
      requires Valid() && all == open && slots == SlotsOf(open) && cells == CellsOf(open)
      ensures Progress(all, slots, cells, last, 0)
    {
      OpenFacts(all, slots, |stack|);
      assert all[0..] == all;
      TopIs();
    }

    lemma ProgressTop(all: seq<Upvalue>, slots: seq<nat>, cells: seq<Value>, last: nat, k: nat)
      requires Progress(all, slots, cells, last, k)
      ensures k <= |all| && (openUpvalues != null ==> openUpvalues.location.Slot? && openUpvalues in all && k < |all|)
    {
      hide Valid;
    }

    lemma Stopped(all: seq<Upvalue>, slots: seq<nat>, cells: seq<Value>, last: nat, k: nat)
      requires Progress(all, slots, cells, last, k) && (openUpvalues != null ==> openUpvalues.location.index < last)
      ensures k <= |all| == |slots| == |cells| && open == all[k..] && Valid()
      ensures forall i :: k <= i < |all| ==>
                slots[i] < last && all[i].location == Slot(slots[i]) && all[i].closed == cells[i]
      ensures forall i :: 0 <= i < k ==> slots[i] >= last && all[i].location == Own && all[i].closed == stack[slots[i]]
    {
      hide Valid;
    }

    lemma TopIs()
      requires Valid()
      ensures openUpvalues == (if open == [] then null else open[0]) && Descending(open, |stack|)
    {
    }

    lemma ValuesAt(all: seq<Upvalue>, slots: seq<nat>)
      requires |slots| == |all| && forall i :: 0 <= i < |all| ==>
                 all[i].location == Slot(slots[i]) && slots[i] < |stack|
      ensures forall i :: 0 <= i < |all| ==> ValueOf(all[i]) == stack[slots[i]]
    {
    }

    lemma ValuesAfter(all: seq<Upvalue>, slots: seq<nat>, k: nat)
      requires k <= |all| == |slots| && forall i :: 0 <= i < |all| ==> slots[i] < |stack|
      requires forall i :: 0 <= i < k ==> all[i].location == Own && all[i].closed == stack[slots[i]]
      requires forall i :: k <= i < |all| ==> all[i].location == Slot(slots[i])
      ensures forall i :: 0 <= i < |all| ==>
                (all[i].location.Slot? ==> all[i].location.index < |stack|) && ValueOf(all[i]) == stack[slots[i]]
    {
    }
  }

  lemma OpenFacts(all: seq<Upvalue>, slots: seq<nat>, limit: nat)
    requires slots == SlotsOf(all) && Descending(all, limit)
    ensures |slots| == |all| && forall i :: 0 <= i < |all| ==> all[i].location == Slot(slots[i]) && slots[i] < limit
    ensures forall i, j :: 0 <= i < j < |all| ==> slots[i] > slots[j] && all[i] != all[j]
  {
  }

  lemma HeadOf(u: Upvalue, rest: seq<Upvalue>)
    ensures Head([u] + rest, null) == u
  {
  }

  lemma HeadFront(front: seq<Upvalue>, rest: seq<Upvalue>, all: seq<Upvalue>, u: Upvalue)
    requires Head(rest, null) == u && front <= all
    ensures Head(front + rest, null) == if front == [] then u else Head(all, null)
  {
    if front == [] {
      assert front + rest == rest;
    }
  }

  ghost function CellsOf(list: seq<Upvalue>): (cells: seq<Value>)
    reads list`closed
    ensures |cells| == |list| && forall i :: 0 <= i < |list| ==> cells[i] == list[i].closed
  {
    if list == [] then [] else CellsOf(list[..|list| - 1]) + [list[|list| - 1].closed]
  }

  ghost function SlotsOf(list: seq<Upvalue>): (slots: seq<nat>)
    reads list`location
    ensures |slots| == |list|
    ensures forall i :: 0 <= i < |list| && list[i].location.Slot? ==> slots[i] == list[i].location.index
  {
    if list == [] then []
    else SlotsOf(list[..|list| - 1]) + [if list[|list| - 1].location.Slot? then list[|list| - 1].location.index else 0]
  }

  lemma NoneThere(list: seq<Upvalue>, k: nat, local: nat, limit: nat)
    requires Descending(list, limit) && k <= |list| && (k < |list| ==> list[k].location != Slot(local))
    requires forall i :: 0 <= i < k ==> list[i].location.index > local
    requires forall i :: k <= i < |list| ==> list[i].location.index <= local
    ensures forall i :: k <= i < |list| ==> list[i].location.index < local
    ensures forall v :: v in list ==> v.location != Slot(local)
  {
  }

  lemma InsertedDescends(list: seq<Upvalue>, k: nat, u: Upvalue, limit: nat)
    requires Descending(list, limit) && k <= |list| && u.location.Slot? && u.location.index < limit
    requires forall i :: 0 <= i < k ==> list[i].location.index > u.location.index
    requires forall i :: k <= i < |list| ==> list[i].location.index < u.location.index
    ensures Descending(list[..k] + [u] + list[k..], limit)
  {
  }

  /** Either there is no front, or it leads to the rest. */
  lemma JoinedIs(front: seq<Upvalue>, rest: seq<Upvalue>)
    requires Chain(rest, null) && (front != [] ==> Chain(front, Head(rest, null)))
    ensures Chain(front + rest, null) && Head(front + rest, null) == Head(front, Head(rest, null))
  {
    if front == [] {
      assert front + rest == rest;
    } else {
      ChainJoin(front, rest);
    }
  }

  lemma LinkFront(u: Upvalue, rest: seq<Upvalue>)
    requires Chain(rest, null) && u.next == Head(rest, null)
    ensures Chain([u] + rest, null)
  {
    var all := [u] + rest;
    forall i: nat | i < |all|
      ensures all[i].next == After(all, i, null)
    {
      if i > 0 {
        assert rest[i - 1].next == After(rest, i - 1, null);
      }
    }
  }

  /** In a descending list no upvalue occurs twice. */
  lemma InitApart(list: seq<Upvalue>, k: nat, limit: nat)
    requires 0 < k <= |list| && Descending(list, limit)
    ensures list[k - 1] !in list[..k][..k - 1] && list[k - 1] !in list[k..]
  {
  }

  lemma OnlyOnce(list: seq<Upvalue>, limit: nat)
    requires list != [] && Descending(list, limit)
    ensures list[0] !in list[1..]
  {
  }
}
