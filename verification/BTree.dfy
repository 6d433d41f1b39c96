/** The B+tree store of `btree.open()`: pages in memory, a free list, and a tree rooted at `rootPage`. */
module BTree {
  import opened Bytes
  import opened Atoms
  import opened Options
  import opened SlottedPage
  import opened Nodes
  import opened OrderedEntries
  import opened BTreeShape
  import opened PagePool
  import opened Capacity
  import opened BTreeRefusal
  import opened BTreeSteps
  import opened BTreeLoss

  /** Result codes of `btree_get_value`. */
  datatype Lookup = Failed | Found(value: Atom) | Missing

  /** The capacity doubled as often as it takes. */
  function Doubled(cap: nat, needed: nat): (c: nat)
    requires cap > 0
    ensures c >= needed && c >= cap && (cap >= needed ==> c == cap)
    decreases needed - cap
  {
    if cap >= needed then cap else Doubled(2 * cap, needed)
  }

  function ZeroPages(n: nat): seq<Page> {
    seq(n, _ => ZeroPage())
  }

  class BTreeDb {
    /** How many pages the host lets the page area grow to. */
    const pageLimit: nat

    var memPages: seq<Page>
    var rootPage: PageId
    var pageCount: PageId
    var freeHead: PageId

    ghost var tree: Tree
    ghost var free: seq<PageId>

    /** Pages taken by puts that were refused then: in no tree, and on no list. */
    ghost var lost: multiset<PageId>

    /** The header is current, and ids 1..pageCount-1 are exactly the live pages and the free pages. */
    ghost predicate Pool(live: multiset<PageId>)
      reads `memPages, `rootPage, `pageCount, `freeHead, `free
    {
      && pageLimit < 0x8000_0000
      && 2 <= pageCount && 4 <= |memPages| && pageCount <= |memPages| <= pageLimit
      && HeaderHolds(memPages[0], rootPage, pageCount, freeHead)
      && FreeChain(memPages, freeHead, free)
      && live + multiset(free) == AllIds(pageCount)
    }

    /** What the store holds, in key order. */
    ghost function Entries(): seq<LeafEntry>
      reads `tree
    {
      Contents(tree)
    }

    ghost predicate Valid()
      reads this
    {
      && Pool(lost + Ids(tree))
      && rootPage == tree.page
      && Rep(memPages, tree)
      && Shape(tree)
      && Sorted(Contents(tree))
    }

    /** No page is free and the page area cannot double. */
    ghost predicate Exhausted()
      reads `memPages, `pageCount, `free
    {
      free == [] && pageCount == |memPages| && 2 * |memPages| > pageLimit
    }

    /** The zeroed record `btree_open_memory` starts from, for a host that allows `limit` pages. */
    constructor (limit: nat)
      requires limit < 0x8000_0000
      ensures pageLimit == limit && memPages == [] && rootPage == pageCount == freeHead == 0
    {
      pageLimit := limit;
      memPages := [];
      rootPage, pageCount, freeHead := 0, 0, 0;
      tree, free, lost := Leaf(0, []), [], multiset{};
    }

    /** `btree_open_memory`: an empty store, unless not even four pages can be had. */
    method OpenMemory() returns (ok: bool)
      requires memPages == [] && pageLimit < 0x8000_0000
      modifies this
      ensures ok <==> pageLimit >= 4
      ensures ok ==> Valid() && Entries() == [] && Branching(tree) && tree.Leaf? && lost == multiset{}
    {
      rootPage, pageCount, freeHead := 1, 2, 0;
      tree, free, lost := Leaf(1, []), [], multiset{};
      ok := EnsurePages(pageCount);
      if !ok {
        return;
      }
      ok := WriteHeader();
      FirstPool();
      LeafUsed([]);
      EmptyStored(memPages);
      hide *;
      ok := NodeWrite(1, LeafNode([]), multiset{1});
      EmptyStored(memPages);
      FirstTree();
    }

    /** The pool of a store with one page. */
    lemma FirstPool()
      requires pageLimit < 0x8000_0000 && pageCount == 2 && freeHead == 0 && free == [] && 4 <= |memPages| <= pageLimit
      requires HeaderHolds(memPages[0], rootPage, pageCount, freeHead)
      ensures Pool(multiset{1})
    {
      assert multiset{1} + multiset(free) == AllIds(pageCount);
      EmptyChain(memPages);
    }

    lemma FirstTree()
      requires Pool(multiset{1}) && rootPage == 1 && tree == Leaf(1, []) && lost == multiset{} && Rep(memPages, tree)
               && Shape(tree)
      ensures Valid() && Entries() == [] && Branching(tree) && tree.Leaf?
    {
      hide Pool, Rep, Shape, LoadPage;
      assert lost + Ids(tree) == multiset{1};
    }

    /**
     * Page conservation: ids 1..pageCount-1 are split exactly between the pages reachable from the root, each
     * reached once, the pages on the free list, each listed once, and those lost by refused puts.
     */
    lemma PagesConserved(p: PageId)
      requires Valid()
      ensures Ids(tree)[p] + multiset(free)[p] + lost[p] == if 1 <= p < pageCount then 1 else 0
      ensures FreeChain(memPages, freeHead, free)
    {
      AllIdsOnce(pageCount, p);
      assert Ids(tree)[p] + multiset(free)[p] + lost[p] == (lost + Ids(tree) + multiset(free))[p];
    }

    /** Pages in use are in range, each used once, and no page belongs to two parts of the store. */
    lemma PoolParts(outer: multiset<PageId>, own: multiset<PageId>)
      requires Pool(outer + own)
      ensures 2 <= pageCount <= |memPages|
      ensures forall p: PageId :: p in outer ==> 1 <= p < pageCount && outer[p] == 1 && p !in own
      ensures forall p: PageId :: p in own ==> 1 <= p < pageCount && own[p] == 1 && p !in outer
    {
      SplitIds(outer + own, multiset(free), pageCount);
      forall p: PageId | p in outer || p in own
        ensures 1 <= p < pageCount && outer[p] + own[p] == 1
      {
        assert p in outer + own;
      }
    }

    // ----- pages -----

    /** `db_mem_ensure_pages`: the capacity doubles, from four pages on, until it suffices; new pages are zero. */
    method EnsurePages(needed: nat) returns (ok: bool)
      requires |memPages| <= pageLimit < 0x8000_0000 && needed <= 0x8000_0000
      modifies this`memPages
      ensures var was := old(memPages); var cap := Doubled(if was == [] then 4 else |was|, needed);
              if |was| >= needed then ok && memPages == was
              else (ok <==> cap <= pageLimit) && memPages == if ok then was + ZeroPages(cap - |was|) else was
    {
      if |memPages| >= needed {
        return true;
      }
      var newCap: U32 := if |memPages| == 0 then 4 else |memPages|;
      ghost var first := newCap;
      while newCap < needed
        invariant 0 < newCap && |memPages| <= newCap && Doubled(newCap, needed) == Doubled(first, needed)
        decreases needed - newCap
      {
        newCap := newCap * 2;
      }
      if newCap > pageLimit {
        return false;
      }
      memPages := memPages + ZeroPages(newCap - |memPages|);
      return true;
    }

    /** `db_read_page`, in-memory mode. */
    method ReadPage(id: PageId) returns (r: Option<Page>)
      ensures r == if id >= pageCount || id >= |memPages| then None else Some(memPages[id])
    {
      if id >= pageCount || id >= |memPages| {
        return None;
      }
      return Some(memPages[id]);
    }

    /** `db_write_page`, in-memory mode: exactly this page changes, after the area has grown to hold it. */
    method WritePage(id: PageId, page: Page) returns (ok: bool)
      requires |memPages| <= pageLimit < 0x8000_0000 && id < 0x8000_0000
      modifies this`memPages
      ensures var was := old(memPages); var cap := Doubled(if was == [] then 4 else |was|, id + 1);
              if id < |was| then ok && memPages == was[id := page]
              else (ok <==> cap <= pageLimit) && memPages == if ok then (was + ZeroPages(cap - |was|))[id := page] else was
    {
      ok := EnsurePages(id + 1);
      if ok {
        memPages := memPages[id := page];
      }
    }

    /** `db_write_header`. */
    method WriteHeader() returns (ok: bool)
      requires |memPages| <= pageLimit < 0x8000_0000
      modifies this`memPages
      ensures old(memPages) != [] ==> ok
      ensures ok ==> memPages != [] && HeaderHolds(memPages[0], rootPage, pageCount, freeHead)
      ensures ok ==> (if old(memPages) == [] then |memPages| == 4 else |memPages| == old(|memPages|))
                     && |memPages| <= pageLimit
      ensures ok ==> forall i :: 1 <= i < old(|memPages|) ==> memPages[i] == old(memPages[i])
      ensures !ok ==> pageLimit < 4
    {
      var page := BuildHeader(rootPage, pageCount, freeHead);
      ok := WritePage(0, page);
    }

    /** Writing a live page keeps the pool. */
    method WriteLive(id: PageId, page: Page, ghost live: multiset<PageId>)
      requires Pool(live) && id in live
      modifies this`memPages
      ensures Pool(live)
      ensures 1 <= id < |old(memPages)| && memPages == old(memPages)[id := page]
    {
      SplitIds(live, multiset(free), pageCount);
      var ok := WritePage(id, page);
      FreeChainFrame(old(memPages), memPages, freeHead, free);
    }

    /** `node_write`: succeeds exactly when the node fits; what is stored then loads as that node. */
    method NodeWrite(id: PageId, n: NodeData, ghost live: multiset<PageId>) returns (ok: bool)
      requires Pool(live) && id in live && n.NKeys() < 0x1_0000
      modifies this`memPages
      ensures Pool(live)
      ensures ok <==> n.Fits()
      ensures 1 <= id < |memPages| == |old(memPages)|
      ensures ok ==> LoadPage(memPages[id]) == Some(n) && forall i :: 0 <= i < |memPages| && i != id ==>
                memPages[i] == old(memPages[i])
      ensures Same(old(memPages), memPages, live - multiset{id})
      ensures !ok ==> memPages == old(memPages)
    {
      hide LoadPage, NodeData.Fits, HeaderHolds, FreeChain;
      SplitIds(live, multiset(free), pageCount);
      assert forall p: PageId :: p in live - multiset{id} ==> p in live && p != id;
      var page;
      ok, page := BuildPage(n);
      if ok {
        LoadWritten(page, n);
        WriteLive(id, page, live);
      }
    }

    /** `node_load`. */
    method NodeLoad(id: PageId) returns (r: Option<NodeData>)
      ensures r == if id >= pageCount || id >= |memPages| then None else LoadPage(memPages[id])
    {
      var page := ReadPage(id);
      if page.None? {
        return None;
      }
      r := LoadNode(page.value);
    }

    /** `db_alloc_page`: from the free list, else a new page at the end. */
    method AllocPage(ghost live: multiset<PageId>) returns (ok: bool, id: PageId)
      requires Pool(live)
      modifies this`memPages, this`pageCount, this`freeHead, this`free
      ensures ok ==> Pool(live + multiset{id}) && Same(old(memPages), memPages, live)
      ensures !ok ==> Pool(live) && Exhausted() && memPages == old(memPages) && pageCount == old(pageCount)
                      && freeHead == old(freeHead) && free == old(free)
    {
      if freeHead != 0 {
        ok, id := PopFree(live);
      } else {
        ok, id := GrowPages(live);
      }
    }

    method PopFree(ghost live: multiset<PageId>) returns (ok: bool, id: PageId)
      requires Pool(live) && freeHead != 0
      modifies this`memPages, this`freeHead, this`free
      ensures ok && Pool(live + multiset{id}) && Same(old(memPages), memPages, live)
    {
      hide *;
      FreeHeadIs(live);
      id := freeHead;
      var page := ReadPage(id);
      if page.None? || page.value[0] != TYPE_FREE {
        return false, id;
      }
      freeHead := ReadU32(page.value, 8);
      free := free[1..];
      ok := WriteHeader();
      PopIds(live, old(free), pageCount);
      KeptBy(old(memPages), live + multiset{id});
      SameFewer(old(memPages), memPages, live + multiset{id}, live);
      PoolIs(live + multiset{id});
    }

    /** The head of the free list is a free page, and the list goes on from there. */
    lemma FreeHeadIs(live: multiset<PageId>)
      requires Pool(live) && freeHead != 0
      ensures free != [] && free[0] == freeHead < pageCount <= |memPages| <= pageLimit < 0x8000_0000
      ensures 2 <= pageCount && 4 <= |memPages| && live + multiset(free) == AllIds(pageCount)
      ensures |memPages[freeHead]| >= 12 && memPages[freeHead][0] == TYPE_FREE
              && FreeChain(memPages, ReadU32(memPages[freeHead], 8), free[1..])
    {
      hide HeaderHolds;
      SplitIds(live, multiset(free), pageCount);
      assert free[0] in multiset(free);
    }

    lemma PoolIs(live: multiset<PageId>)
      requires pageLimit < 0x8000_0000 && 2 <= pageCount && 4 <= |memPages| && pageCount <= |memPages| <= pageLimit
      requires HeaderHolds(memPages[0], rootPage, pageCount, freeHead) && FreeChain(memPages, freeHead, free)
      requires live + multiset(free) == AllIds(pageCount)
      ensures Pool(live)
    {
    }

    /** Pages other than the header are unchanged by a header write. */
    lemma KeptBy(was: seq<Page>, live: multiset<PageId>)
      requires live + multiset(free) == AllIds(pageCount) && 1 <= pageCount <= |was| <= |memPages|
      requires forall i :: 1 <= i < |was| ==> memPages[i] == was[i]
      requires FreeChain(was, freeHead, free)
      ensures Same(was, memPages, live) && FreeChain(memPages, freeHead, free)
    {
      SplitIds(live, multiset(free), pageCount);
      FreeChainFrame(was, memPages, freeHead, free);
    }

    method GrowPages(ghost live: multiset<PageId>) returns (ok: bool, id: PageId)
      requires Pool(live) && freeHead == 0
      modifies this`memPages, this`pageCount
      ensures ok ==> Pool(live + multiset{id}) && Same(old(memPages), memPages, live)
      ensures !ok ==> Pool(live) && Exhausted() && memPages == old(memPages) && pageCount == old(pageCount)
    {
      PoolBounds(live);
      NoFree(live);
      hide *;
      id := pageCount;
      pageCount := pageCount + 1;
      ok := WritePage(id, ZeroPage());
      if !ok {
        pageCount := pageCount - 1;
        return false, id;
      }
      ok := WriteHeader();
      SameBelow(old(memPages), memPages, live, id);
      GrowIds(live, free, id);
      EmptyChain(memPages);
      PoolIs(live + multiset{id});
    }

    lemma PoolBounds(live: multiset<PageId>)
      requires Pool(live)
      ensures 2 <= pageCount <= |memPages| <= pageLimit < 0x8000_0000 && 4 <= |memPages|
      ensures live + multiset(free) == AllIds(pageCount) && FreeChain(memPages, freeHead, free)
      ensures forall p: PageId :: p in live ==> 1 <= p < pageCount && live[p] == 1 && p !in multiset(free)
    {
      hide HeaderHolds, FreeChain;
      SplitIds(live, multiset(free), pageCount);
    }

    lemma NoFree(live: multiset<PageId>)
      requires Pool(live) && freeHead == 0
      ensures free == []
    {
      hide HeaderHolds;
    }

    /** `db_free_page`: refuses only the header, an unknown page and the root. */
    method FreePage(id: PageId, ghost live: multiset<PageId>) returns (ok: bool)
      requires Pool(live) && id in live
      modifies this`memPages, this`freeHead, this`free
      ensures ok <==> id != rootPage
      ensures ok ==> Pool(live - multiset{id}) && Same(old(memPages), memPages, live - multiset{id})
      ensures !ok ==> memPages == old(memPages) && freeHead == old(freeHead) && free == old(free)
    {
      PoolBounds(live);
      hide *;
      if id == 0 || id >= pageCount {
        return false;
      }
      if id == rootPage {
        return false;
      }
      var page := BuildFreePage(freeHead);
      WriteLive(id, page, live);
      ghost var mid := memPages;
      LinkFree(id, live);
      FreedSame(old(memPages), mid, memPages, live, id);
      ok := true;
    }

    static lemma FreedSame(was: seq<Page>, mid: seq<Page>, now: seq<Page>, live: multiset<PageId>, id: PageId)
      requires 1 <= id < |was| && |now| == |mid| && forall i :: 1 <= i < |now| ==> now[i] == mid[i]
      requires |mid| == |was| && forall i :: 0 <= i < |was| && i != id ==> mid[i] == was[i]
      requires forall p: PageId :: p in live ==> 1 <= p < |was| && live[p] == 1
      ensures Same(was, now, live - multiset{id})
    {
      forall p: PageId | p in live - multiset{id}
        ensures p < |was| && p < |now| && now[p] == was[p]
      {
        assert p in live && p != id;
      }
    }

    /** The tail of `db_free_page`: the written page becomes the list head and the header is updated. */
    method LinkFree(id: PageId, ghost live: multiset<PageId>)
      requires Pool(live) && id in live && 0 < id < |memPages|
      requires memPages[id][0] == TYPE_FREE && ReadU32(memPages[id], 8) == freeHead
      modifies this`memPages, this`freeHead, this`free
      ensures Pool(live - multiset{id})
      ensures |memPages| == |old(memPages)| && forall i :: 1 <= i < |memPages| ==> memPages[i] == old(memPages[i])
    {
      free := [id] + free;
      freeHead := id;
      assert free[1..] == old(free);
      PushIds(live, id, old(free), pageCount);
      var ok := WriteHeader();
      KeptBy(old(memPages), live - multiset{id});
    }

    // ----- insertion -----

    /** The page loads as a leaf with these entries. */
    ghost predicate PageHolds(id: PageId, entries: seq<LeafEntry>)
      reads `memPages
    {
      id < |memPages| && LoadPage(memPages[id]) == Some(LeafNode(entries))
    }

    /** `leaf_build_with_insert`: the old entries with a gap at `pos`, which the new entry fills. */
    static method LeafBuildWithInsert(entries: seq<LeafEntry>, pos: nat, key: Atom, value: Atom)
      returns (all: seq<LeafEntry>)
      requires pos <= |entries|
      ensures all == entries[..pos] + [LeafEntry(key, value)] + entries[pos..]
    {
      var buf := new LeafEntry[|entries| + 1](_ => LeafEntry(key, value));
      var ai := 0;
      for i := 0 to |entries|
        invariant ai == if i <= pos then i else i + 1
        invariant forall j :: 0 <= j < i ==> buf[if j < pos then j else j + 1] == entries[j]
      {
        if i == pos {
          ai := ai + 1;
        }
        buf[ai] := entries[i];
        ai := ai + 1;
      }
      buf[pos] := LeafEntry(key, value);
      ghost var goal := entries[..pos] + [LeafEntry(key, value)] + entries[pos..];
      forall k | 0 <= k < |goal|
        ensures buf[k] == goal[k]
      {
        if k < pos { assert buf[if k < pos then k else k + 1] == entries[k]; }
        if k > pos { assert buf[if k - 1 < pos then k - 1 else k] == entries[k - 1]; }
      }
      all := buf[..];
    }

    /**
     * `leaf_insert`. An overwrite stays in its page or is refused. A new entry splits a full leaf by count.
     * It succeeds exactly when everything fits one page, or both halves fit and a page can be had. A refused
     * new entry leaves the page as it was, except when only the left half fits: then just that half is left.
     */
    method LeafInsert(id: PageId, entries: seq<LeafEntry>, key: Atom, value: Atom, ghost outer: multiset<PageId>)
      returns (ok: bool, split: bool, promote: Promote, ghost l: Tree, ghost r: Tree, ghost gone: multiset<PageId>)
      requires Pool(outer + multiset{id}) && LeafNode(entries).Fits() && Sorted(entries)
      modifies this`memPages, this`pageCount, this`freeHead, this`free
      ensures ok ==> Grown(split, promote, l, r, id, Put(entries, key, value), true)
                     && Pool(outer + GrownIds(split, l, r))
      ensures ok ==> Rep(memPages, l) && (split ==> Rep(memPages, r)) && Same(old(memPages), memPages, outer)
      ensures Has(entries, key) ==> !split && (ok || unchanged(this))
      ensures !ok && !Has(entries, key) && SmallEntries(Put(entries, key, value)) ==> Exhausted()
      ensures ok ==> LeafOutcome(Put(entries, key, value), Has(entries, key)) ==
                     (if split then Halves(promote.key) else Whole)
      ensures !ok ==> Exhausted() || LeafOutcome(Put(entries, key, value), Has(entries, key)).Refused?
      ensures !ok && !old(Exhausted()) ==> LeafOutcome(Put(entries, key, value), Has(entries, key)).Refused?
      ensures LeafNode(Put(entries, key, value)).Fits() ==> ok && l == Leaf(id, Put(entries, key, value))
      ensures !ok ==> LeafRefused(old(memPages), id, entries, Put(entries, key, value), l, gone, outer)
      ensures !ok && Has(entries, key) ==> l == Leaf(id, entries) && gone == multiset{}
      ensures !ok && !(old(Exhausted()) && Exhausted()) && Addable(LeafEntry(key, value)) ==>
                Contents(l) == AfterRefusal(Leaf(id, entries), key, value)
    {
      hide *;
      PoolParts(outer, multiset{id});
      assert id in multiset{id};
      LeafOutcomeIs(Put(entries, key, value), true);
      var found, pos := FindSlot(entries, key);
      if found {
        ok, l := LeafOverwrite(id, entries, pos, key, value, outer);
        split, promote, r, gone := false, Promote(key, id), Leaf(id, []), multiset{};
        LeafStored([], id, Put(entries, key, value));
        if ok {
          GrownWhole(id, entries, key, value);
          GrownIdsIs(l, r);
        } else {
          l := Leaf(id, entries);
          LeafAfter(id, entries, key, value);
          PoolParts(outer, multiset{id});
          SameNow(memPages, outer);
          KeptNow(memPages, id);
          NoneGone(outer + multiset{id});
          LeafUntouched(memPages, id, entries, Put(entries, key, value), gone, outer);
        }
      } else {
        ok, split, promote, l, r, gone := LeafAdd(id, entries, pos, key, value, outer);
      }
    }

    /**
     * What a refused leaf leaves: the page as it was or the left half of the goal, and the page asked for, if one was to
     * be had, in no use.
     */
    ghost predicate LeafRefused(was: seq<Page>, id: PageId, entries: seq<LeafEntry>, goal: seq<LeafEntry>, l: Tree,
                                gone: multiset<PageId>, outer: multiset<PageId>)
      reads `memPages, `rootPage, `pageCount, `freeHead, `free
    {
      && Remains(l, Leaf(id, entries), goal)
      && Pool(outer + Ids(l) + gone) && Same(was, memPages, outer)
      && (Rep(memPages, l) || (l == Leaf(id, entries) && Kept(was, memPages, id)))
    }

    /** The page is as it was. */
    lemma LeafUntouched(was: seq<Page>, id: PageId, entries: seq<LeafEntry>, goal: seq<LeafEntry>,
                        gone: multiset<PageId>,
                        outer: multiset<PageId>)
      requires Pool(outer + multiset{id} + gone) && Same(was, memPages, outer) && Kept(was, memPages, id)
      ensures LeafRefused(was, id, entries, goal, Leaf(id, entries), gone, outer)
    {
      LeafStored([], id, entries);
      Untouched(Leaf(id, entries), goal);
      hide LoadPage, Pool, Same, Kept, Rep, Ids, Remains;
    }

    /** The overwriting half of `leaf_insert`. */
    method LeafOverwrite(id: PageId, entries: seq<LeafEntry>, pos: nat, key: Atom, value: Atom,
                         ghost outer: multiset<PageId>)
      returns (ok: bool, ghost l: Tree)
      requires Pool(outer + multiset{id}) && LeafNode(entries).Fits()
      requires Has(entries, key) && pos == LowerBound(entries, key)
      modifies this`memPages
      ensures l == Leaf(id, Put(entries, key, value)) && Pool(outer + multiset{id})
      ensures ok <==> LeafNode(Put(entries, key, value)).Fits()
      ensures ok ==> Rep(memPages, l) && Same(old(memPages), memPages, outer)
      ensures !ok ==> memPages == old(memPages)
    {
      FitsBoundsKeys(LeafNode(entries));
      hide LoadPage, NodeData.Fits, Pool;
      var all := entries[pos := LeafEntry(entries[pos].key, value)];
      l := Leaf(id, all);
      PoolParts(outer, multiset{id});
      assert id in outer + multiset{id};
      ok := NodeWrite(id, LeafNode(all), outer + multiset{id});
      if ok { LeafStored(memPages, id, all); }
    }

    /** The adding half of `leaf_insert`. */
    method LeafAdd(id: PageId, entries: seq<LeafEntry>, pos: nat, key: Atom, value: Atom, ghost outer: multiset<PageId>)
      returns (ok: bool, split: bool, promote: Promote, ghost l: Tree, ghost r: Tree, ghost gone: multiset<PageId>)
      requires Pool(outer + multiset{id}) && LeafNode(entries).Fits()
      requires !Has(entries, key) && pos == LowerBound(entries, key)
      modifies this`memPages, this`pageCount, this`freeHead, this`free
      ensures ok ==> Grown(split, promote, l, r, id, Put(entries, key, value), true)
                     && Pool(outer + GrownIds(split, l, r))
      ensures ok ==> Rep(memPages, l) && (split ==> Rep(memPages, r)) && Same(old(memPages), memPages, outer)
      ensures !ok && SmallEntries(Put(entries, key, value)) ==> Exhausted()
      ensures ok ==> LeafOutcome(Put(entries, key, value), false) == (if split then Halves(promote.key) else Whole)
      ensures !ok ==> Exhausted() || LeafOutcome(Put(entries, key, value), false).Refused?
      ensures !ok && !old(Exhausted()) ==> LeafOutcome(Put(entries, key, value), false).Refused?
      ensures LeafNode(Put(entries, key, value)).Fits() ==> ok && l == Leaf(id, Put(entries, key, value))
      ensures !ok ==> LeafRefused(old(memPages), id, entries, Put(entries, key, value), l, gone, outer)
      ensures !ok && !(old(Exhausted()) && Exhausted()) && Addable(LeafEntry(key, value)) ==>
                Contents(l) == AfterRefusal(Leaf(id, entries), key, value)
    {
      hide *;
      EntriesBounded(entries);
      LeafRoom(entries, key, value);
      PutInserts(entries, key, value);
      var all := LeafBuildWithInsert(entries, pos, key, value);
      BadSplitIs(all);
      LeafOutcomeIs(all, false);
      HugeRefused(all);
      KeyCount(all);
      LessOne(outer, id);
      promote, split, l, r, gone := Promote(key, id), false, Leaf(id, all), Leaf(id, []), multiset{};
      SmallAddable(all);
      PoolParts(outer, multiset{id});
      assert id in outer + multiset{id};
      var fits := NodeFitsLeaf(all);
      if fits {
        ok := NodeWrite(id, LeafNode(all), outer + multiset{id});
        if !ok {
          l := Leaf(id, entries);
          if Addable(LeafEntry(key, value)) { PutAddable(entries, key, value); }
          PoolParts(outer, multiset{id});
          SameNow(memPages, outer);
          KeptNow(memPages, id);
          NoneGone(outer + multiset{id});
          LeafUntouched(old(memPages), id, entries, all, gone, outer);
          return;
        }
        LeafStored(memPages, id, all);
        GrownIdsIs(l, r);
        GrownWhole(id, entries, key, value);
        return;
      }
      var right;
      ok, right, gone := LeafSplit(id, all, outer);
      if !ok {
        l := LeafLeft(old(memPages), id, entries, key, value, gone, outer);
        if Addable(LeafEntry(key, value)) { PutAddable(entries, key, value); }
        return;
      }
      split, promote := true, Promote(all[|all| / 2].key, right);
      l, r := Leaf(id, all[..|all| / 2]), Leaf(right, all[|all| / 2..]);
      LeafStored(memPages, id, all[..|all| / 2]);
      LeafStored(memPages, right, all[|all| / 2..]);
      GrownHalves(id, right, entries, key, value);
      GrownHalvesIds(id, right, all, outer);
    }

    /** The split half of `leaf_insert`: both halves are written, the right one to a new page. */
    method LeafSplit(id: PageId, all: seq<LeafEntry>, ghost outer: multiset<PageId>)
      returns (ok: bool, right: PageId, ghost gone: multiset<PageId>)
      requires Pool(outer + multiset{id}) && 1 <= |all| < 0x1_0000
      modifies this`memPages, this`pageCount, this`freeHead, this`free
      ensures !old(Exhausted()) ==>
                (ok <==> |all| >= 2 && LeafNode(all[..|all| / 2]).Fits() && LeafNode(all[|all| / 2..]).Fits())
      ensures !ok ==> Pool(outer + multiset{id} + gone) && Same(old(memPages), memPages, outer)
      ensures !ok ==> Kept(old(memPages), memPages, id) || LeftHolds(id, all)
      ensures !ok && !(old(Exhausted()) && Exhausted()) ==>
                if LeftFits(all) then LeftHolds(id, all) else Kept(old(memPages), memPages, id)
      ensures !ok ==> Exhausted() || |all| < 2 || !LeafNode(all[..|all| / 2]).Fits()
                      || !LeafNode(all[|all| / 2..]).Fits()
      ensures ok ==> |all| >= 2 && Pool(outer + multiset{id} + multiset{right}) && Same(old(memPages), memPages, outer)
      ensures ok ==> LeafNode(all[..|all| / 2]).Fits() && LeafNode(all[|all| / 2..]).Fits()
      ensures ok ==> 1 <= id < |memPages| && LoadPage(memPages[id]) == Some(LeafNode(all[..|all| / 2]))
      ensures ok ==> 1 <= right < |memPages| && LoadPage(memPages[right]) == Some(LeafNode(all[|all| / 2..]))
    {
      hide LoadPage;
      hide NodeData.Fits;
      hide Pool;
      ghost var live := outer + multiset{id};
      PoolParts(outer, multiset{id});
      assert id in live;
      right, gone := 0, multiset{};
      NoneGone(live);
      var mid := |all| / 2;
      if mid == 0 || mid >= |all| {
        return false, right, gone;
      }
      ok, right := AllocPage(live);
      if !ok {
        return;
      }
      LessOne(live, 0);
      ghost var before := memPages;
      var okLeft, okRight := WriteBoth(id, LeafNode(all[..mid]), right, LeafNode(all[mid..]), outer);
      SameFewer(old(memPages), before, live, outer);
      SameTwice(old(memPages), before, memPages, outer);
      if !okLeft { SameTwice(old(memPages), before, memPages, live); }
      ok := okLeft && okRight;
      gone := multiset{right};
    }

    /** What a refused split of a leaf left. */
    lemma LeafLeft(was: seq<Page>, id: PageId, entries: seq<LeafEntry>, key: Atom, value: Atom, gone: multiset<PageId>,
                   outer: multiset<PageId>) returns (l: Tree)
      requires !Has(entries, key) && Pool(outer + multiset{id} + gone) && Same(was, memPages, outer)
      requires Kept(was, memPages, id) || LeftHolds(id, Put(entries, key, value))
      ensures LeafRefused(was, id, entries, Put(entries, key, value), l, gone, outer)
      ensures LeafOutcome(Put(entries, key, value), false).Refused?
              && (LeftFits(Put(entries, key, value)) ==> LeftHolds(id, Put(entries, key, value))) ==>
                Contents(l) == AfterRefusal(Leaf(id, entries), key, value)
    {
      var all := Put(entries, key, value);
      LeafAfter(id, entries, key, value);
      LeafOutcomeIs(all, false);
      BadSplitIs(all);
      if LeftHolds(id, all) {
        l := Leaf(id, all[..|all| / 2]);
        LeafRemains(id, entries, key, value);
        LeafStored(memPages, id, all[..|all| / 2]);
        hide *;
      } else {
        l := Leaf(id, entries);
        LeafUntouched(was, id, entries, all, gone, outer);
        hide *;
      }
    }

    /** The left half by count fits a page. */
    static ghost predicate LeftFits(all: seq<LeafEntry>) {
      |all| >= 2 && LeafNode(all[..|all| / 2]).Fits()
    }

    ghost predicate LeftHolds(id: PageId, all: seq<LeafEntry>)
      reads `memPages
    {
      LeftFits(all) && PageHolds(id, all[..|all| / 2])
    }

    /** `internal_find_route`: the child the separators send the key to. */
    static method FindRoute(left: PageId, seps: seq<InternalEntry>, key: Atom) returns (slot: nat, child: PageId)
      ensures slot <= |seps|
      ensures slot > 0 ==> Compare(seps[slot - 1].key, key) <= 0
      ensures slot < |seps| ==> Compare(key, seps[slot].key) < 0
      ensures child == if slot == 0 then left else seps[slot - 1].child
    {
      slot, child := 0, left;
      while slot < |seps|
        invariant slot <= |seps|
        invariant slot > 0 ==> Compare(seps[slot - 1].key, key) <= 0
        invariant child == if slot == 0 then left else seps[slot - 1].child
      {
        var cmp := Compare(key, seps[slot].key);
        if cmp < 0 {
          break;
        }
        CompareFlips(key, seps[slot].key);
        child := seps[slot].child;
        slot := slot + 1;
      }
    }

    /** `internal_build_with_insert`: the promoted separator goes in before index `pos`. */
    static method InternalBuildWithInsert(seps: seq<InternalEntry>, pos: nat, promote: Promote)
      returns (all: seq<InternalEntry>)
      requires pos <= |seps|
      ensures all == seps[..pos] + [InternalEntry(promote.key, promote.right)] + seps[pos..]
    {
      all := [];
      var inserted := false;
      for i := 0 to |seps|
        invariant inserted <==> i > pos
        invariant all == if inserted then seps[..pos] + [InternalEntry(promote.key, promote.right)] + seps[pos..i]
                  else seps[..i]
      {
        if !inserted && pos == i {
          all := all + [InternalEntry(promote.key, promote.right)];
          inserted := true;
        }
        all := all + [seps[i]];
      }
      if !inserted {
        all := all + [InternalEntry(promote.key, promote.right)];
      }
    }

    /** The last part of `internal_insert`: the node `u` with its new separator is written, whole or split. */
    method InternalGrow(id: PageId, left: PageId, seps: seq<InternalEntry>, pos: nat, promoted: Promote,
                        ghost u: Tree, ghost outer: multiset<PageId>)
      returns (ok: bool, split: bool, promote: Promote, ghost l: Tree, ghost r: Tree, ghost gone: multiset<PageId>)
      requires pos <= |seps| && InternalNode(left, seps).Fits()
      requires u.Node? && u.page == id && RepBelow(memPages, u) && ShapeBelow(u) && Pool(outer + Ids(u))
      requires NodeOf(u) ==
               InternalNode(left, seps[..pos] + [InternalEntry(promoted.key, promoted.right)] + seps[pos..])
      modifies this`memPages, this`pageCount, this`freeHead, this`free
      ensures ok ==> Grown(split, promote, l, r, id, Contents(u), Branching(u)) && Pool(outer + GrownIds(split, l, r))
      ensures ok ==> Rep(memPages, l) && (split ==> Rep(memPages, r)) && Same(old(memPages), memPages, outer)
      ensures !ok && SmallEntries(Contents(u)) ==> Exhausted()
      ensures ok ==> NodeOutcome(left, NodeOf(u).seps) == (if split then Halves(promote.key) else Whole)
      ensures !ok ==> Exhausted() || NodeOutcome(left, NodeOf(u).seps).Refused?
      ensures !ok ==> NodeRefused(old(memPages), u, l, gone, outer)
      ensures !ok && !Exhausted() ==> (l != u <==> HalfFits(u))
    {
      hide *;
      SepsBounded(left, seps);
      NodeKind(u);
      SepsSmall(u);
      HalfIs(u);
      promote, split, l, r, gone := promoted, false, u, u, multiset{};
      var all := InternalBuildWithInsert(seps, pos, promoted);
      SepRoom(left, seps, pos, InternalEntry(promoted.key, promoted.right));
      NodeOutcomeIs(left, all);
      var fits := NodeFitsInternal(left, all);
      if fits {
        ok := WriteTop(id, left, all, u, outer);
        GrownIdsIs(u, u);
        GrownNode(u, id);
        return;
      }
      var mid := |all| / 2;
      if mid == 0 || mid >= |all| {
        ok := false;
        NodeUntouched(memPages, u, gone, outer);
        return;
      }
      var right;
      ok, right, l, gone := WriteNodeHalves(id, left, all, u, outer);
      if ok {
        split, promote := true, Promote(all[mid].key, right);
        SepAt(u, mid);
        l, r := LeftHalf(u, mid), RightHalf(u, mid, right);
        GrownNodeHalves(u, right);
      }
    }

    /**
     * What a refused node leaves: its page as it was, or its left half; the rest of the page ids it had or asked for are
     * in no use.
     */
    ghost predicate NodeRefused(was: seq<Page>, u: Tree, l: Tree, gone: multiset<PageId>, outer: multiset<PageId>)
      reads `memPages, `rootPage, `pageCount, `freeHead, `free
    {
      && Pool(outer + Ids(l) + gone)
      && if l == u then Same(was, memPages, outer + Ids(u)) else LeftStays(u, l, memPages) && Same(was, memPages, outer)
    }

    /** Nothing was written. */
    lemma NodeUntouched(was: seq<Page>, u: Tree, gone: multiset<PageId>, outer: multiset<PageId>)
      requires Pool(outer + Ids(u)) && was == memPages && gone == multiset{}
      ensures NodeRefused(was, u, u, gone, outer)
    {
      hide Pool, Ids, Same;
      PoolParts(outer + Ids(u), gone) by { NoneGone(outer + Ids(u)); }
      SameNow(memPages, outer + Ids(u));
      NoneGone(outer + Ids(u));
    }

    method WriteTop(id: PageId, left: PageId, all: seq<InternalEntry>, ghost u: Tree, ghost outer: multiset<PageId>)
      returns (ok: bool)
      requires u.Node? && u.page == id && NodeOf(u) == InternalNode(left, all) && |all| < 0x1_0000
      requires Pool(outer + Ids(u)) && RepBelow(memPages, u)
      modifies this`memPages
      ensures Pool(outer + Ids(u))
      ensures ok <==> NodeOf(u).Fits()
      ensures ok ==> Rep(memPages, u) && Same(old(memPages), memPages, outer)
      ensures !ok ==> memPages == old(memPages)
    {
      hide LoadPage, NodeData.Fits, Pool, Rep, RepBelow, Ids;
      IdsParts(u);
      assert outer + Ids(u) == (outer + BelowIds(u)) + multiset{id};
      PoolParts(outer + BelowIds(u), multiset{id});
      assert id in outer + Ids(u);
      ok := NodeWrite(id, InternalNode(left, all), outer + Ids(u));
      if ok {
        SameFewer(old(memPages), memPages, outer + BelowIds(u), BelowIds(u));
        SameFewer(old(memPages), memPages, outer + BelowIds(u), outer);
        TopStored(old(memPages), memPages, u);
      }
    }

    /**
     * The split of `internal_insert`: what is left of the middle separator stays, what is right of it moves to a new
     * page.
     */
    method WriteNodeHalves(id: PageId, left: PageId, all: seq<InternalEntry>, ghost u: Tree,
                           ghost outer: multiset<PageId>)
      returns (ok: bool, right: PageId, ghost l: Tree, ghost gone: multiset<PageId>)
      requires u.Node? && u.page == id && NodeOf(u) == InternalNode(left, all) && 2 <= |all| < 0x1_0000
      requires Pool(outer + Ids(u)) && RepBelow(memPages, u)
      modifies this`memPages, this`pageCount, this`freeHead, this`free
      ensures var mid := |all| / 2;
              ok ==>
                && Rep(memPages, LeftHalf(u, mid)) && Rep(memPages, RightHalf(u, mid, right))
                && NodeOf(LeftHalf(u, mid)).Fits() && NodeOf(RightHalf(u, mid, right)).Fits()
                && InternalNode(left, all[..mid]).Fits() && InternalNode(all[mid].child, all[mid + 1..]).Fits()
                && Pool(outer + GrownIds(true, LeftHalf(u, mid), RightHalf(u, mid, right)))
                && Same(old(memPages), memPages, outer)
      ensures !ok ==> Exhausted() || !InternalNode(left, all[..|all| / 2]).Fits()
                      || !InternalNode(all[|all| / 2].child, all[|all| / 2 + 1..]).Fits()
      ensures !ok ==> NodeRefused(old(memPages), u, l, gone, outer)
      ensures !ok && !Exhausted() ==> (l != u <==> HalfFits(u))
    {
      hide *;
      var mid := |all| / 2;
      ghost var rest := outer + BelowIds(u);
      IdsParts(u);
      HalfIs(u);
      NodeKind(u);
      SepCount(left, all[..mid]);
      SepCount(all[mid].child, all[mid + 1..]);
      l, gone := u, multiset{};
      ok, right := AllocPage(outer + Ids(u));
      if !ok {
        NodeUntouched(old(memPages), u, gone, outer);
        return;
      }
      SepsHalves(u, mid, right);
      HalvesAre(u, mid, right);
      BothIds(outer, BelowIds(u), id, right);
      ghost var before := memPages;
      var okLeft, okRight := WriteBoth(id, InternalNode(left, all[..mid]), right, InternalNode(all[mid].child, all[mid + 1..]), rest);
      SameFewer(old(memPages), before, outer + Ids(u), rest);
      SameTwice(old(memPages), before, memPages, rest);
      ok := okLeft && okRight;
      if ok {
        SameFewer(old(memPages), memPages, rest, BelowIds(u));
        SameFewer(old(memPages), memPages, rest, outer);
        HalvesStored(old(memPages), memPages, u, mid, right);
        GrownIdsIs(LeftHalf(u, mid), RightHalf(u, mid, right));
        IdsRegroup(outer, Ids(u), multiset{right}, multiset{});
      } else {
        if !okLeft { SameTwice(old(memPages), before, memPages, outer + Ids(u)); }
        l, gone := HalfWritten(old(memPages), okLeft, u, right, outer);
      }
    }

    /** A split writes the left half to the old page and the right half to the new one, each if it fits. */
    method WriteBoth(id: PageId, a: NodeData, right: PageId, b: NodeData, ghost rest: multiset<PageId>)
      returns (okLeft: bool, okRight: bool)
      requires Pool(rest + multiset{id} + multiset{right}) && a.NKeys() < 0x1_0000 && b.NKeys() < 0x1_0000
      modifies this`memPages
      ensures Pool(rest + multiset{id} + multiset{right}) && Same(old(memPages), memPages, rest)
      ensures (okLeft <==> a.Fits()) && (okRight <==> b.Fits()) && 1 <= id < |memPages| && 1 <= right < |memPages|
      ensures if okLeft then LoadPage(memPages[id]) == Some(a) else Same(old(memPages), memPages, rest + multiset{id})
      ensures okRight ==> LoadPage(memPages[right]) == Some(b)
    {
      hide *;
      ghost var live := rest + multiset{id} + multiset{right};
      BothApart(live, rest, id, right);
      okLeft := NodeWrite(id, a, live);
      ghost var half := memPages;
      SameFewer(old(memPages), half, live - multiset{id}, rest);
      okRight := NodeWrite(right, b, live);
      SameFewer(half, memPages, live - multiset{right}, rest + multiset{id});
      SameFewer(half, memPages, rest + multiset{id}, rest);
      SameTwice(old(memPages), half, memPages, rest);
      SameAt(half, memPages, rest + multiset{id}, id);
    }

    /** What the half-written split of a node left. */
    lemma HalfWritten(was: seq<Page>, okLeft: bool, u: Tree, right: PageId, outer: multiset<PageId>)
      returns (l: Tree, gone: multiset<PageId>)
      requires u.Node? && |u.kids| >= 2 && Pool(outer + Ids(u) + multiset{right}) && RepBelow(was, u)
      requires Same(was, memPages, outer + BelowIds(u)) && (okLeft <==> HalfFits(u))
      requires okLeft ==> u.page < |memPages|
                          && LoadPage(memPages[u.page]) == Some(InternalNode(u.left.page, Seps(u.kids)[..|u.kids| / 2]))
      requires !okLeft ==> Same(was, memPages, outer + Ids(u))
      ensures NodeRefused(was, u, l, gone, outer) && (l != u <==> HalfFits(u))
    {
      hide LoadPage, NodeData.Fits, Pool, Rep, RepBelow, Ids, Same, Contents, KidsContents, KidsIds, Shape, ShapeBelow;
      if okLeft {
        var mid := |u.kids| / 2;
        l, gone := LeftHalf(u, mid), Ids(RightHalf(u, mid, right));
        LeftPage(u, mid);
        SameFewer(was, memPages, outer + BelowIds(u), BelowIds(u));
        SameFewer(was, memPages, outer + BelowIds(u), outer);
        LeftStored(was, memPages, u, mid);
        HalvesAre(u, mid, right);
        IdsRegroup(outer, Ids(l), gone, multiset{});
        IdsRegroup(outer, Ids(u), multiset{right}, multiset{});
      } else {
        l, gone := u, multiset{right};
      }
    }

    /** The two pages of a split are different, and in no other use. */
    lemma BothApart(live: multiset<PageId>, rest: multiset<PageId>, id: PageId, right: PageId)
      requires Pool(live) && live == rest + multiset{id} + multiset{right}
      ensures id in live && right in live && id != right
      ensures rest <= live - multiset{id} && rest + multiset{id} <= live - multiset{right} && id in rest + multiset{id}
      ensures rest <= rest + multiset{id}
    {
      hide Pool;
      PoolParts(rest + multiset{id}, multiset{right});
      assert id in rest + multiset{id};
    }

    /** What a recursive call at the routed child needs, and how its goal relates to this node's. */
    lemma EnterChild(t: Tree, slot: nat, key: Atom, outer: multiset<PageId>)
      requires Routes(t, slot, key) && Rep(memPages, t) && Shape(t) && Sorted(Contents(t)) && Pool(outer + Ids(t))
      ensures var c := Child(t, slot);
              && Rep(memPages, c) && Shape(c) && Sorted(Contents(c)) && Contents(c) != [] && c < t
              && Pool(outer + OtherIds(t, slot) + Ids(c))
              && c.page == (if slot == 0 then t.left.page else Seps(t.kids)[slot - 1].child)
              && c.page !in outer + OtherIds(t, slot) && t.page in outer + OtherIds(t, slot)
                 && t.page in OtherIds(t, slot)
              && (Has(Contents(t), key) <==> Has(Contents(c), key))
              && (Branching(t) ==> Branching(c))
              && AllBelow(Before(t, slot), key) && AllAbove(After(t, slot), key)
    {
      var c := Child(t, slot);
      RouteStep(memPages, t, slot, key);
      ChildShape(t, slot);
      AtChild(t, slot, key, key);
      IdsAtChild(t, slot, outer);
      RouteIsRight(t, slot, key);
      if Branching(t) { ChildBranching(t, slot); }
      PoolParts(outer + OtherIds(t, slot), Ids(c));
      assert c.page in Ids(c);
    }

    /**
     * What an insertion into a store of one page leaves: it is refused exactly for lack of room, and see what is left
     * then.
     */
    static ghost predicate OnePagePut(entries: seq<LeafEntry>, key: Atom, value: Atom, ok: bool, l: Tree,
                                      exhausted: bool) {
      var all := Put(entries, key, value);
      && (LeafNode(all).Fits() ==> ok && l.Leaf? && l.entries == all)
      && (!ok && Addable(LeafEntry(key, value)) && !exhausted ==>
            && LeafOutcome(all, Has(entries, key)).Refused?
            && Contents(l) == if !Has(entries, key) && BadSplit(all) then all[..|all| / 2] else entries)
    }

    /**
     * What a refused insertion leaves below a page: the tree as it was, or one that lost a run of the goal's entries; the
     * pages that run was in are in no use.
     */
    ghost predicate PutRefused(was: seq<Page>, t: Tree, goal: seq<LeafEntry>, l: Tree, gone: multiset<PageId>,
                               outer: multiset<PageId>)
      reads `memPages, `rootPage, `pageCount, `freeHead, `free
    {
      Remains(l, t, goal) && Rep(memPages, l) && Pool(outer + Ids(l) + gone) && Same(was, memPages, outer)
    }

    lemma LeafToPage(was: seq<Page>, t: Tree, goal: seq<LeafEntry>, l: Tree, gone: multiset<PageId>,
                     outer: multiset<PageId>)
      requires t.Leaf? && Rep(was, t) && LeafRefused(was, t.page, t.entries, goal, l, gone, outer)
      ensures PutRefused(was, t, goal, l, gone, outer)
    {
      assert t == Leaf(t.page, t.entries) && t.page < |was| && LoadPage(was[t.page]) == Some(LeafNode(t.entries));
      LeafStored(memPages, t.page, t.entries);
      hide LoadPage, Pool, Same, Remains, Ids, Rep;
    }

    /** `insert_recursive`: the entry goes in below page `id`; the rest of the store is not touched. */
    method InsertRecursive(id: PageId, key: Atom, value: Atom, ghost t: Tree, ghost outer: multiset<PageId>)
      returns (ok: bool, split: bool, promote: Promote, ghost l: Tree, ghost r: Tree, ghost gone: multiset<PageId>)
      requires Pool(outer + Ids(t)) && id == t.page && Rep(memPages, t) && Shape(t) && Sorted(Contents(t))
      modifies this`memPages, this`pageCount, this`freeHead, this`free
      ensures ok ==> Grown(split, promote, l, r, id, Put(Contents(t), key, value), Branching(t))
                     && Pool(outer + GrownIds(split, l, r))
      ensures ok ==> Rep(memPages, l) && (split ==> Rep(memPages, r)) && Same(old(memPages), memPages, outer)
      ensures Has(Contents(t), key) ==> !split && (ok || unchanged(this))
      ensures !ok && !Has(Contents(t), key) && SmallEntries(Put(Contents(t), key, value)) ==> Exhausted()
      ensures ok ==> PutOutcome(t, key, value) == (if split then Halves(promote.key) else Whole)
      ensures !ok ==> Exhausted() || PutOutcome(t, key, value).Refused?
      ensures !ok ==> PutRefused(old(memPages), t, Put(Contents(t), key, value), l, gone, outer)
      ensures !ok && Has(Contents(t), key) ==> l == t && gone == multiset{}
      ensures !ok && !Exhausted() && Addable(LeafEntry(key, value)) ==> Contents(l) == AfterRefusal(t, key, value)
      ensures t.Leaf? ==> OnePagePut(t.entries, key, value, ok, l, old(Exhausted()))
      decreases t, 1
    {
      PoolParts(outer, Ids(t));
      assert id in Ids(t);
      hide LoadPage, Pool;
      promote, split, l, r, gone := Promote(key, id), false, t, t, multiset{};
      var node := NodeLoad(id);
      if node.None? {
        return false, split, promote, l, r, gone;
      }
      if node.value.LeafNode? {
        ok, split, promote, l, r, gone := LeafInsert(id, node.value.entries, key, value, outer);
        LeafAfter(id, t.entries, key, value);
        if ok {
          GrownWeaker(split, promote, l, r, id, Put(Contents(t), key, value), true, Branching(t));
        } else {
          LeafToPage(old(memPages), t, Put(Contents(t), key, value), l, gone, outer);
        }
      } else {
        ok, split, promote, l, r, gone := InternalInsert(id, node.value.left, node.value.seps, key, value, t, outer);
      }
    }

    /** `internal_insert`. */
    method InternalInsert(id: PageId, left: PageId, seps: seq<InternalEntry>, key: Atom, value: Atom, ghost t: Tree,
                          ghost outer: multiset<PageId>)
      returns (ok: bool, split: bool, promote: Promote, ghost l: Tree, ghost r: Tree, ghost gone: multiset<PageId>)
      requires t.Node? && NodeOf(t) == InternalNode(left, seps)
      requires Pool(outer + Ids(t)) && id == t.page && Rep(memPages, t) && Shape(t) && Sorted(Contents(t))
      modifies this`memPages, this`pageCount, this`freeHead, this`free
      ensures ok ==> Grown(split, promote, l, r, id, Put(Contents(t), key, value), Branching(t))
                     && Pool(outer + GrownIds(split, l, r))
      ensures ok ==> Rep(memPages, l) && (split ==> Rep(memPages, r)) && Same(old(memPages), memPages, outer)
      ensures Has(Contents(t), key) ==> !split && (ok || unchanged(this))
      ensures !ok && !Has(Contents(t), key) && SmallEntries(Put(Contents(t), key, value)) ==> Exhausted()
      ensures ok ==> PutOutcome(t, key, value) == (if split then Halves(promote.key) else Whole)
      ensures !ok ==> Exhausted() || PutOutcome(t, key, value).Refused?
      ensures !ok ==> PutRefused(old(memPages), t, Put(Contents(t), key, value), l, gone, outer)
      ensures !ok && Has(Contents(t), key) ==> l == t && gone == multiset{}
      ensures !ok && !Exhausted() && Addable(LeafEntry(key, value)) ==> Contents(l) == AfterRefusal(t, key, value)
      decreases t, 0
    {
      hide *;
      NodeKind(t);
      ShapeParts(t);
      var slot, child := FindRoute(left, seps, key);
      RoutesBy(t, slot, key);
      RoutesParts(t, slot, key);
      ghost var c, rest := Child(t, slot), outer + OtherIds(t, slot);
      EnterChild(t, slot, key, outer);
      ChildGoal(t, slot, key, value);
      promote, split, l, r := Promote(key, id), false, t, t;
      var childSplit, childPromote;
      ghost var cl, cr;
      ok, childSplit, childPromote, cl, cr, gone := InsertRecursive(child, key, value, c, rest);
      RouteFound(t, slot, key);
      OutcomeAt(t, slot, key, value, childPromote.right);
      AfterAt(t, slot, key, value);
      if !ok {
        l := WithChild(t, slot, cl);
        RefusedBelow(old(memPages), t, slot, key, value, cl, gone, outer);
        return;
      }
      ok, split, promote, l, r, gone :=
        AfterChildInsert(id, left, seps, slot, childSplit, childPromote, key, value, t, cl, cr, outer, old(memPages));
    }

    /** The child's insertion was refused: the node keeps what the child kept. */
    lemma RefusedBelow(was: seq<Page>, t: Tree, slot: nat, key: Atom, value: Atom, cl: Tree, gone: multiset<PageId>,
                       outer: multiset<PageId>)
      requires Routes(t, slot, key) && Rep(was, t) && Shape(t) && Sorted(Contents(t))
      requires PutRefused(was, Child(t, slot), Put(Contents(Child(t, slot)), key, value), cl, gone, outer + OtherIds(t, slot))
      ensures var l := WithChild(t, slot, cl);
              && PutRefused(was, t, Put(Contents(t), key, value), l, gone, outer)
              && Contents(l) == Before(t, slot) + Contents(cl) + After(t, slot)
              && (cl == Child(t, slot) ==> l == t)
    {
      RemainsAbove(t, slot, cl, key, value);
      hide LoadPage, NodeData.Fits, Pool, Rep, Shape, Put, Sorted, Same, Remains, Contents, KidsContents, Ids, KidsIds,
        WithChild;
      SameFewer(was, memPages, outer + OtherIds(t, slot), outer);
      SameFewer(was, memPages, outer + OtherIds(t, slot), OtherIds(t, slot));
      AbsorbedStored(was, memPages, t, slot, cl);
      IdsRegroup(outer, OtherIds(t, slot), Ids(cl), multiset{});
    }

    /** The part of `internal_insert` after the child's insertion; `was` are the pages before it. */
    method AfterChildInsert(id: PageId, left: PageId, seps: seq<InternalEntry>, slot: nat, childSplit: bool,
                            childPromote: Promote,
                            ghost key: Atom, ghost value: Atom, ghost t: Tree, ghost cl: Tree, ghost cr: Tree,
                            ghost outer: multiset<PageId>, ghost was: seq<Page>)
      returns (ok: bool, split: bool, promote: Promote, ghost l: Tree, ghost r: Tree, ghost gone: multiset<PageId>)
      requires Routes(t, slot, key) && NodeOf(t) == InternalNode(left, seps) && InternalNode(left, seps).Fits()
      requires t.page == id && Rep(was, t) && Shape(t) && Sorted(Contents(t))
      requires Grown(childSplit, childPromote, cl, cr, Child(t, slot).page, Put(Contents(Child(t, slot)), key, value), Branching(Child(t, slot)))
      requires Pool(outer + OtherIds(t, slot) + GrownIds(childSplit, cl, cr))
      requires Rep(memPages, cl) && (childSplit ==> Rep(memPages, cr)) && Same(was, memPages, outer + OtherIds(t, slot))
      modifies this`memPages, this`pageCount, this`freeHead, this`free
      ensures ok ==> Grown(split, promote, l, r, id, Put(Contents(t), key, value), Branching(t))
                     && Pool(outer + GrownIds(split, l, r))
      ensures ok ==> Rep(memPages, l) && (split ==> Rep(memPages, r)) && Same(was, memPages, outer)
      ensures !childSplit ==> ok && !split
      ensures !ok && SmallEntries(Put(Contents(t), key, value)) ==> Exhausted()
      ensures ok && childSplit ==>
                NodeOutcome(left, seps[..slot] + [InternalEntry(childPromote.key, childPromote.right)] + seps[slot..]) == (if split then Halves(promote.key) else Whole)
      ensures !ok ==> Exhausted()
                      || NodeOutcome(left, seps[..slot] + [InternalEntry(childPromote.key, childPromote.right)] + seps[slot..]).Refused?
      ensures !ok ==> PutRefused(was, t, Put(Contents(t), key, value), l, gone, outer)
      ensures !ok && !Exhausted() ==> Contents(l) == AfterSplit(t, slot, key, value, childPromote.key)
    {
      GrownKid(childSplit, childPromote, cl, cr, Child(t, slot).page, Put(Contents(Child(t, slot)), key, value), Branching(Child(t, slot)));
      assert t.Node? && slot <= |t.kids|;
      hide LoadPage, NodeData.Fits, Pool, Rep, Shape, Put, Sorted, SmallEntries, Branching, Routes, Grown, Same,
        NodeRefused, PutRefused,
        HalfFits, AfterSplit;
      gone := multiset{};
      ghost var rest := outer + OtherIds(t, slot);
      SameFewer(was, memPages, rest, outer);
      SameFewer(was, memPages, rest, OtherIds(t, slot));
      if !childSplit {
        ok, split, promote, l, r := true, false, childPromote, WithChild(t, slot, cl), cr;
        GrownAbsorbed(t, slot, cl, key, value, childPromote, cr);
        AbsorbedStored(was, memPages, t, slot, cl);
        IdsRegroup(outer, OtherIds(t, slot), Ids(cl), multiset{});
        return;
      }
      ghost var u := SplitChild(t, slot, cl, Kid(childPromote.key, cr));
      ghost var mid := memPages;
      GrownSplit(t, slot, cl, cr, key, value, childPromote);
      SplitStored(was, memPages, t, slot, cl, Kid(childPromote.key, cr));
      IdsRegroup(outer, OtherIds(t, slot), Ids(cl), Ids(cr));
      ok, split, promote, l, r, gone := InternalGrow(id, left, seps, slot, childPromote, u, outer);
      if ok {
        SameTwice(was, mid, memPages, outer);
        GrownWeaker(split, promote, l, r, id, Put(Contents(t), key, value), Branching(u), Branching(t));
      } else {
        l, gone := NodeLeft(was, mid, t, slot, cl, cr, childPromote, key, value, u, l, gone, outer);
      }
    }

    /**
     * What is left of a node that was refused after its child split; `mid` are the pages after the child's insertion.
     */
    lemma NodeLeft(was: seq<Page>, mid: seq<Page>, t: Tree, slot: nat, cl: Tree, cr: Tree, promote: Promote, key: Atom,
                   value: Atom,
                   u: Tree, stays: Tree, unused: multiset<PageId>, outer: multiset<PageId>)
      returns (l: Tree, gone: multiset<PageId>)
      requires Routes(t, slot, key) && Rep(was, t) && Shape(t) && Sorted(Contents(t))
      requires Grown(true, promote, cl, cr, Child(t, slot).page, Put(Contents(Child(t, slot)), key, value), Branching(Child(t, slot)))
      requires Same(was, mid, outer + OtherIds(t, slot)) && Rep(mid, cl)
      requires u == SplitChild(t, slot, cl, Kid(promote.key, cr)) && NodeRefused(mid, u, stays, unused, outer)
      ensures PutRefused(was, t, Put(Contents(t), key, value), l, gone, outer)
      ensures (stays != u <==> HalfFits(u)) ==> Contents(l) == AfterSplit(t, slot, key, value, promote.key)
    {
      hide *;
      RoutesParts(t, slot, key);
      GrownSplit(t, slot, cl, cr, key, value, promote);
      NodeKind(u);
      PutSorted(Contents(t), key, value);
      ghost var rest := outer + OtherIds(t, slot);
      AfterHalf(t, slot, key, value, promote, u);
      NodeRefusedIs(mid, u, stays, unused, outer);
      if stays == u {
        l, gone := WithChild(t, slot, cl), unused + Ids(cr);
        SplitRemains(t, slot, cl, cr, promote, key, value, Branching(Child(t, slot)));
        SplitIdsLess(outer, OtherIds(t, slot), Ids(cl), Ids(cr), unused);
        SameFewer(mid, memPages, outer + Ids(u), rest);
        SameTwice(was, mid, memPages, rest);
        SameFewer(was, memPages, rest, OtherIds(t, slot));
        SameFewer(was, memPages, rest, outer);
        SameFewer(mid, memPages, outer + Ids(u), Ids(cl));
        RepFrame(mid, memPages, cl);
        AbsorbedStored(was, memPages, t, slot, cl);
      } else {
        l, gone := stays, unused;
        HalfStays(u, stays, t);
        SameFewer(was, mid, rest, outer);
        SameTwice(was, mid, memPages, outer);
      }
      PutRefusedIs(was, t, Put(Contents(t), key, value), l, gone, outer);
    }

    lemma NodeRefusedIs(was: seq<Page>, u: Tree, l: Tree, gone: multiset<PageId>, outer: multiset<PageId>)
      requires NodeRefused(was, u, l, gone, outer)
      ensures Pool(outer + Ids(l) + gone)
      ensures l == u ==> Same(was, memPages, outer + Ids(u))
      ensures l != u ==> u.Node? && HalfFits(u) && l == LeftHalf(u, |u.kids| / 2) && Rep(memPages, l)
                         && Same(was, memPages, outer)
    {
      hide Pool, Ids, Same, Rep, HalfFits;
    }

    lemma PutRefusedIs(was: seq<Page>, t: Tree, goal: seq<LeafEntry>, l: Tree, gone: multiset<PageId>,
                       outer: multiset<PageId>)
      requires Remains(l, t, goal) && Rep(memPages, l) && Pool(outer + Ids(l) + gone) && Same(was, memPages, outer)
      ensures PutRefused(was, t, goal, l, gone, outer)
    {
      hide Remains, Rep, Pool, Ids, Same;
    }

    // ----- put and get -----

    /**
     * `btree_put`. On success the store holds the old entries with this one stored. It is refused exactly when the
     * sizes in the tree say so, or for want of pages. The store is valid either way. A refused overwrite changes
     * nothing; a refused new entry may cost a run of entries that were stored, and exactly which is told from the tree.
     */
    method BtreePut(key: Atom, value: Atom) returns (ok: bool)
      requires Valid()
      modifies this
      ensures Valid()
      ensures ok ==> Entries() == Put(old(Entries()), key, value) && !PutOutcome(old(tree), key, value).Refused?
                     && lost == old(lost)
      ensures !ok ==> Exhausted() || PutOutcome(old(tree), key, value).Refused?
      ensures !ok ==> tree == old(tree) || Cut(Entries(), Put(old(Entries()), key, value))
      ensures !ok && !Exhausted() && Addable(LeafEntry(key, value)) ==> Entries() == AfterRefusal(old(tree), key, value)
      ensures !ok && Has(old(Entries()), key) ==> unchanged(this)
      ensures !ok && !Has(old(Entries()), key) && SmallEntries(Put(old(Entries()), key, value)) ==> Exhausted()
      ensures ok && Branching(old(tree)) && ShortKeys(Put(old(Entries()), key, value)) ==> Branching(tree)
      ensures old(tree).Leaf? && old(lost) == multiset{} ==> OnePageAfter(old(Entries()), key, value, ok)
    {
      hide *;
      ValidParts();
      ghost var was, goal := tree, Put(Entries(), key, value);
      PutSorted(Entries(), key, value);
      OnePageRoom();
      LeafKind(tree);
      var split, promote;
      ghost var l, r, gone;
      ok, split, promote, l, r, gone := InsertRecursive(rootPage, key, value, tree, lost);
      ghost var stored := ok;
      GrownIdsIs(l, r);
      NoneGone(lost);
      if !ok {
        PlantRest(old(memPages), was, goal, l, gone);
      } else if split {
        ok := GrowRoot(promote, l, r, goal, Branching(was));
      } else {
        GrownStays(promote, l, r, rootPage, goal, Branching(was));
        PlantTree(l);
      }
      if was.Leaf? { OnePage(was, key, value, stored, split, l, old(Exhausted()), ok); }
    }

    /** What becomes of a store of one page. */
    lemma OnePage(t: Tree, key: Atom, value: Atom, stored: bool, split: bool, l: Tree, exhausted: bool, ok: bool)
      requires t.Leaf? && OnePagePut(t.entries, key, value, stored, l, exhausted)
      requires !stored ==> !ok && tree == l
      requires stored ==> PutOutcome(t, key, value).Whole? == !split && !PutOutcome(t, key, value).Refused?
      requires stored && !split ==> ok && tree == l
      ensures !exhausted ==> OnePageAfter(t.entries, key, value, ok)
    {
      OnePageOutcome(t, key, value);
      LeafOutcomeIs(Put(t.entries, key, value), Has(t.entries, key));
      hide NodeData.Fits, BadSplit, Put, Has, Addable;
    }

    /** The pages now hold what a refused put left of the tree. */
    ghost method PlantRest(was: seq<Page>, t: Tree, goal: seq<LeafEntry>, l: Tree, gone: multiset<PageId>)
      requires PutRefused(was, t, goal, l, gone, lost) && rootPage == t.page && Shape(t) && Sorted(Contents(t))
               && Sorted(goal)
      modifies this`tree, this`lost
      ensures Valid() && tree == l && Entries() == Contents(l) && (l == t || Cut(Contents(l), goal))
      ensures lost == old(lost) + gone
    {
      hide Pool, Rep, Shape, Sorted, Same, Cut, Contents, Ids;
      if l != t { CutSorted(Contents(l), goal); }
      tree := l;
      lost := lost + gone;
      assert lost + Ids(l) == old(lost) + Ids(l) + gone;
    }

    /**
     * A store that had one page: an entry that fits is stored in it, and a refusal leaves the page or its left half.
     */
    ghost predicate OnePageAfter(entries: seq<LeafEntry>, key: Atom, value: Atom, ok: bool)
      reads `tree
    {
      var all := Put(entries, key, value);
      && (LeafNode(all).Fits() ==> ok && tree.Leaf? && Entries() == all)
      && (Addable(LeafEntry(key, value)) && LeafOutcome(all, Has(entries, key)).Refused? ==>
            !ok && Entries() == if !Has(entries, key) && BadSplit(all) then all[..|all| / 2] else entries)
    }

    lemma AfterFit(entries: seq<LeafEntry>, key: Atom, value: Atom, ok: bool)
      requires OnePageAfter(entries, key, value, ok) && LeafNode(Put(entries, key, value)).Fits()
      ensures ok && tree.Leaf? && Entries() == Put(entries, key, value)
    {
      hide NodeData.Fits, BadSplit, Put, Has;
    }

    lemma AfterLoss(entries: seq<LeafEntry>, key: Atom, value: Atom, ok: bool)
      requires OnePageAfter(entries, key, value, ok) && Addable(LeafEntry(key, value))
      requires LeafOutcome(Put(entries, key, value), false).Refused? && BadSplit(Put(entries, key, value))
               && !Has(entries, key)
      ensures !ok && Entries() == Put(entries, key, value)[..|Put(entries, key, value)| / 2]
    {
      hide NodeData.Fits, BadSplit, Put, Has, LeafOutcome, Addable;
    }

    /** A store of one page can get another one. */
    lemma OnePageRoom()
      requires Valid()
      ensures tree.Leaf? && lost == multiset{} ==> !Exhausted()
    {
      AllIdsCount(pageCount);
    }

    /** The part of `btree_put` after a split root: a new root above both halves, or the left half alone. */
    method GrowRoot(promote: Promote, ghost l: Tree, ghost r: Tree, ghost goal: seq<LeafEntry>, ghost branching: bool)
      returns (ok: bool)
      requires Grown(true, promote, l, r, rootPage, goal, branching) && Sorted(goal)
      requires Pool(lost + GrownIds(true, l, r)) && Rep(memPages, l) && Rep(memPages, r)
      modifies this
      ensures Valid()
      ensures ok ==> Entries() == goal && (branching && ShortKeys(goal) ==> Branching(tree)) && lost == old(lost)
      ensures !ok ==> Exhausted() && Cut(Entries(), goal)
    {
      hide *;
      ghost var live := lost + (Ids(l) + Ids(r));
      GrownSplitIs(promote, l, r, rootPage, goal, branching);
      GrownIdsIs(l, r);
      IdsMoved(lost, Ids(l), Ids(r), 0);
      var newRoot;
      ok, newRoot := AllocPage(live);
      if !ok {
        LeftRoot(l, r, goal);
        return;
      }
      ghost var u := NewRoot(newRoot, l, promote.key, r);
      NewRootIs(newRoot, promote, l, r, rootPage, goal, branching);
      SameFewer(old(memPages), memPages, live, Ids(l));
      RepFrame(old(memPages), memPages, l);
      SameFewer(old(memPages), memPages, live, Ids(r));
      RepFrame(old(memPages), memPages, r);
      NewRootStored(memPages, newRoot, promote.key, l, r);
      NewRootPage(newRoot, l, promote.key, r);
      IdsMoved(lost, Ids(l), Ids(r), newRoot);
      ok := WriteTop(newRoot, rootPage, [InternalEntry(promote.key, promote.right)], u, lost);
      if ok {
        TopShape(u);
        MoveRoot(newRoot, u);
      }
    }

    /** Without a page for a new root the left half stays the root's tree. */
    ghost method LeftRoot(l: Tree, r: Tree, goal: seq<LeafEntry>)
      requires Pool(lost + (Ids(l) + Ids(r))) && rootPage == l.page && Rep(memPages, l) && Shape(l) && Sorted(goal)
      requires goal == Contents(l) + Contents(r) && Contents(l) != [] && Contents(r) != []
      modifies this`tree, this`lost
      ensures Valid() && Cut(Entries(), goal)
    {
      hide Pool, Rep, Shape, Sorted, Cut, Contents, Ids;
      CutFront(Contents(l), Contents(r));
      CutSorted(Contents(l), goal);
      tree := l;
      lost := lost + Ids(r);
      assert lost + Ids(l) == old(lost) + (Ids(l) + Ids(r));
    }

    /** Sets the root and rewrites the header. */
    method MoveRoot(page: PageId, ghost u: Tree)
      requires u.page == page && Pool(lost + Ids(u)) && Rep(memPages, u) && Shape(u) && Sorted(Contents(u))
      modifies this`memPages, this`rootPage, this`tree
      ensures Valid() && tree == u && Entries() == Contents(u)
    {
      hide LoadPage, NodeData.Fits, Pool, Sorted, Rep, Shape;
      SetRoot(page, lost + Ids(u));
      SameFewer(old(memPages), memPages, lost + Ids(u), Ids(u));
      RepFrame(old(memPages), memPages, u);
      PlantTree(u);
    }

    lemma ValidParts()
      requires Valid()
      ensures Pool(lost + Ids(tree)) && rootPage == tree.page && Rep(memPages, tree) && Shape(tree)
              && Sorted(Contents(tree))
      ensures Entries() == Contents(tree)
    {
      hide Pool, Rep, Shape, Sorted;
    }

    /** `btree_get_value`: follows the separators down to a leaf; it finds exactly what is stored. */
    method BtreeGetValue(key: Atom) returns (result: Lookup)
      requires Valid()
      ensures result == match Get(Entries(), key) case None => Missing case Some(v) => Found(v)
    {
      hide *;
      ValidParts();
      PoolParts(lost, Ids(tree));
      var id := rootPage;
      ghost var t := tree;
      while true
        invariant id == t.page && Rep(memPages, t) && Shape(t) && Sorted(Contents(t)) && Ids(t) <= Ids(tree)
        invariant Get(Contents(t), key) == Get(Contents(tree), key)
        decreases t
      {
        RepParts(memPages, t);
        OwnPage(t);
        assert id in Ids(tree);
        var node := NodeLoad(id);
        if node.None? {
          return Failed;
        }
        NodeKind(t);
        if node.value.LeafNode? {
          var found, pos := FindSlot(node.value.entries, key);
          LeafLookup(node.value.entries, key, found, pos);
          if !found {
            return Missing;
          }
          return Found(node.value.entries[pos].value);
        }
        var slot, child := FindRoute(node.value.left, node.value.seps, key);
        RoutesBy(t, slot, key);
        RouteStep(memPages, t, slot, key);
        ChildFound(t, slot);
        id, t := child, Child(t, slot);
      }
    }

    // ----- deletion -----

    /** `leaf_remove_at`: later entries move down by one. */
    static method LeafRemoveAt(entries: seq<LeafEntry>, idx: nat) returns (rest: seq<LeafEntry>)
      requires idx < |entries|
      ensures rest == entries[..idx] + entries[idx + 1..]
    {
      var buf := new LeafEntry[|entries|](i requires 0 <= i < |entries| => entries[i]);
      assert entries[..idx] + entries[idx + 1..idx + 1] + entries[idx..] == entries;
      hide *;
      for i := idx to |entries| - 1
        invariant buf[..] == MovedDown(entries, idx, i)
      {
        buf[i] := buf[i + 1];
        MoveNext(entries, idx, i);
      }
      MovedAll(entries, idx);
      rest := buf[..|entries| - 1];
    }

    /** Entries behind `idx` up to place `i` have moved down by one. */
    static ghost function MovedDown(entries: seq<LeafEntry>, idx: nat, i: nat): seq<LeafEntry>
      requires idx <= i < |entries|
    {
      entries[..idx] + entries[idx + 1..i + 1] + entries[i..]
    }

    static lemma MoveNext(entries: seq<LeafEntry>, idx: nat, i: nat)
      requires idx <= i < |entries| - 1
      ensures |MovedDown(entries, idx, i)| == |entries| && MovedDown(entries, idx, i)[i + 1] == entries[i + 1]
      ensures MovedDown(entries, idx, i + 1) == MovedDown(entries, idx, i)[i := entries[i + 1]]
    {
    }

    static lemma MovedAll(entries: seq<LeafEntry>, idx: nat)
      requires idx < |entries|
      ensures MovedDown(entries, idx, |entries| - 1)[..|entries| - 1] == entries[..idx] + entries[idx + 1..]
    {
    }

    /** `internal_remove_slot`: the child at `slot` goes, with the separator next to it. */
    static method InternalRemoveSlot(left: PageId, seps: seq<InternalEntry>, slot: nat)
      returns (newLeft: PageId, rest: seq<InternalEntry>)
      requires seps != [] && slot <= |seps|
      ensures newLeft == if slot == 0 then seps[0].child else left
      ensures rest == if slot == 0 then seps[1..] else seps[..slot - 1] + seps[slot..]
    {
      newLeft := if slot == 0 then seps[0].child else left;
      var idx := if slot == 0 then 0 else slot - 1;
      var buf := new InternalEntry[|seps|](i requires 0 <= i < |seps| => seps[i]);
      for i := idx to |seps| - 1
        invariant forall j :: 0 <= j < idx ==> buf[j] == seps[j]
        invariant forall j :: idx <= j < i ==> buf[j] == seps[j + 1]
        invariant forall j :: i <= j < |seps| ==> buf[j] == seps[j]
      {
        buf[i] := buf[i + 1];
      }
      rest := buf[..|seps| - 1];
      assert rest == seps[..idx] + seps[idx + 1..];
    }

    /** `subtree_min_key`: the key at the far left. */
    method SubtreeMinKey(id: PageId, ghost t: Tree, ghost outer: multiset<PageId>) returns (r: Option<Atom>)
      requires Pool(outer + Ids(t)) && id == t.page && Rep(memPages, t) && Shape(t) && Contents(t) != []
      ensures r == Some(Contents(t)[0].key)
    {
      PoolParts(outer, Ids(t));
      var at := id;
      ghost var u := t;
      while true
        invariant at == u.page && Rep(memPages, u) && Shape(u) && Ids(u) <= Ids(t)
        invariant Contents(u) != [] && Contents(u)[0] == Contents(t)[0]
        decreases u
      {
        assert at in Ids(u) && at in Ids(t);
        assert LoadPage(memPages[at]) == Some(NodeOf(u));
        hide LoadPage, Pool;
        var node := NodeLoad(at);
        if node.None? {
          return None;
        }
        if node.value.LeafNode? {
          if node.value.entries == [] {
            return None;
          }
          return Some(node.value.entries[0].key);
        }
        at, u := node.value.left, u.left;
      }
    }

    /**
     * `btree_delete_recursive`: a missing key changes nothing; a present one is removed below page `id` and
     * pages that empty are freed. It is refused exactly when a node overflows with the next key as separator.
     */
    method DeleteRecursive(id: PageId, key: Atom, isRoot: bool, ghost t: Tree, ghost outer: multiset<PageId>)
      returns (ok: bool, d: DeleteResult, ghost u: Tree)
      requires Pool(outer + Ids(t)) && id == t.page && Rep(memPages, t) && Shape(t) && Sorted(Contents(t))
               && !Strands(t, key)
      requires (isRoot <==> rootPage == id) && (!isRoot ==> Contents(t) != [] && rootPage in outer)
      modifies this`memPages, this`rootPage, this`freeHead, this`free
      ensures ok && !d.deleted ==> !Has(Contents(t), key) && unchanged(this)
      ensures ok && d.deleted ==>
                Shrunk(d, u, t, key, isRoot) && Pool(outer + ShrunkIds(d, u)) && Same(old(memPages), memPages, outer)
      ensures ok && d.deleted && !Gone(d) ==> Rep(memPages, u)
      ensures if isRoot then ok && d.deleted ==> rootPage == u.page else rootPage == old(rootPage)
      ensures ok <==> !DeleteOverflows(t, key)
      decreases t, 1
    {
      PoolParts(outer, Ids(t));
      assert id in Ids(t);
      assert LoadPage(memPages[id]) == Some(NodeOf(t));
      hide LoadPage, Pool, Shrunk;
      d, u := DeleteResult(false, false, 0, None), t;
      var node := NodeLoad(id);
      if node.None? {
        return false, d, u;
      }
      if node.value.LeafNode? {
        ok, d, u := DeleteLeaf(id, node.value.entries, key, isRoot, outer);
      } else {
        ok, d, u := DeleteInternal(id, node.value.left, node.value.seps, key, isRoot, t, outer);
      }
    }

    /** `btree_delete_leaf`. */
    method DeleteLeaf(id: PageId, entries: seq<LeafEntry>, key: Atom, isRoot: bool, ghost outer: multiset<PageId>)
      returns (ok: bool, d: DeleteResult, ghost u: Tree)
      requires Pool(outer + multiset{id}) && LeafNode(entries).Fits() && Sorted(entries)
      requires (isRoot <==> rootPage == id) && (!isRoot ==> entries != [] && rootPage in outer)
      modifies this`memPages, this`freeHead, this`free
      ensures ok
      ensures d.deleted <==> Has(entries, key)
      ensures !d.deleted ==> unchanged(this)
      ensures d.deleted ==>
                Shrunk(d, u, Leaf(id, entries), key, isRoot) && Pool(outer + ShrunkIds(d, u))
                && Same(old(memPages), memPages, outer)
      ensures d.deleted && !Gone(d) ==> Rep(memPages, u)
      ensures d.deleted && isRoot ==> u.page == id
    {
      d, u, ok := DeleteResult(false, false, 0, None), Leaf(id, entries), true;
      var found, pos := FindSlot(entries, key);
      if !found {
        return;
      }
      hide LoadPage, NodeData.Fits, Pool, Rep, Sorted, Shrunk, Same;
      d, u := RemoveFromLeaf(id, entries, pos, key, isRoot, outer);
    }

    /** The removing part of `btree_delete_leaf`. */
    method RemoveFromLeaf(id: PageId, entries: seq<LeafEntry>, pos: nat, ghost key: Atom, isRoot: bool,
                          ghost outer: multiset<PageId>)
      returns (d: DeleteResult, ghost u: Tree)
      requires Pool(outer + multiset{id}) && LeafNode(entries).Fits()
      requires Has(entries, key) && pos == LowerBound(entries, key)
      requires isRoot <==> rootPage == id
      modifies this`memPages, this`freeHead, this`free
      ensures d.deleted && Shrunk(d, u, Leaf(id, entries), key, isRoot)
      ensures Pool(outer + ShrunkIds(d, u)) && Same(old(memPages), memPages, outer)
      ensures !Gone(d) ==> Rep(memPages, u)
      ensures isRoot ==> u.page == id
    {
      hide *;
      PoolParts(outer, multiset{id});
      assert id in outer + multiset{id};
      LeafBounds(entries);
      LeafShrunk(id, entries, key, isRoot);
      RemoveIs(entries, key);
      var rest := LeafRemoveAt(entries, pos);
      u := Leaf(id, rest);
      LeafStored([], id, rest);
      if !isRoot && rest == [] {
        d := DeleteResult(true, true, 0, None);
        GoneIs(d);
        GoneIds(d, u, id, outer);
        var ok := FreePage(id, outer + multiset{id});
        return;
      }
      d := DeleteResult(true, false, 0, if pos == 0 && rest != [] then Some(rest[0].key) else None);
      StaysIs(d, u);
      GoneIds(d, u, id, outer);
      var ok := NodeWrite(id, LeafNode(rest), outer + multiset{id});
      LeafStored(memPages, id, rest);
    }

    /** `btree_delete_internal`. */
    method DeleteInternal(id: PageId, left: PageId, seps: seq<InternalEntry>, key: Atom, isRoot: bool, ghost t: Tree,
                          ghost outer: multiset<PageId>)
      returns (ok: bool, d: DeleteResult, ghost u: Tree)
      requires t.Node? && NodeOf(t) == InternalNode(left, seps)
      requires Pool(outer + Ids(t)) && id == t.page && Rep(memPages, t) && Shape(t) && Sorted(Contents(t))
               && !Strands(t, key)
      requires (isRoot <==> rootPage == id) && (!isRoot ==> Contents(t) != [] && rootPage in outer)
      modifies this`memPages, this`rootPage, this`freeHead, this`free
      ensures ok && !d.deleted ==> !Has(Contents(t), key) && unchanged(this)
      ensures ok && d.deleted ==>
                Shrunk(d, u, t, key, isRoot) && Pool(outer + ShrunkIds(d, u)) && Same(old(memPages), memPages, outer)
      ensures ok && d.deleted && !Gone(d) ==> Rep(memPages, u)
      ensures if isRoot then ok && d.deleted ==> rootPage == u.page else rootPage == old(rootPage)
      ensures ok <==> !DeleteOverflows(t, key)
      decreases t, 0
    {
      hide *;
      NodeKind(t);
      var slot, child := FindRoute(left, seps, key);
      RoutesBy(t, slot, key);
      RoutesParts(t, slot, key);
      ghost var c, rest := Child(t, slot), outer + OtherIds(t, slot);
      EnterChild(t, slot, key, outer);
      OverflowsAt(t, slot, key);
      ShapeParts(t);
      RouteFound(t, slot, key);
      StrandsBelow(t, slot, key);
      if !Has(Contents(t), key) { MissingFits(t, key); }
      ghost var was := memPages;
      d, u := DeleteResult(false, false, 0, None), t;
      var cd;
      ghost var cu;
      assert rootPage in rest;
      ok, cd, cu := DeleteRecursive(child, key, false, c, rest);
      if !ok || !cd.deleted {
        return;
      }
      if Gone(cd) { GoneFromLeaf(t, slot, key, cd, cu); }
      ok, d, u := AfterChildDelete(id, left, seps, slot, cd, key, isRoot, t, cu, outer, was);
    }

    /** The part of `btree_delete_internal` after the child's deletion; `was` are the pages before it. */
    method AfterChildDelete(id: PageId, left: PageId, seps: seq<InternalEntry>, slot: nat, cd: DeleteResult,
                            ghost key: Atom, isRoot: bool, ghost t: Tree, ghost cu: Tree, ghost outer: multiset<PageId>, ghost was: seq<Page>)
      returns (ok: bool, d: DeleteResult, ghost u: Tree)
      requires Routes(t, slot, key) && NodeOf(t) == InternalNode(left, seps)
      requires t.page == id && Rep(was, t) && Shape(t) && Sorted(Contents(t))
      requires Shrunk(cd, cu, Child(t, slot), key, false) && (if Gone(cd) then t.kids != [] else Rep(memPages, cu))
      requires Pool(outer + OtherIds(t, slot) + ShrunkIds(cd, cu)) && Same(was, memPages, outer + OtherIds(t, slot))
      requires (isRoot <==> rootPage == id) && (!isRoot ==> rootPage in outer)
      modifies this`memPages, this`rootPage, this`freeHead, this`free
      ensures ok ==> d.deleted && Shrunk(d, u, t, key, isRoot) && Pool(outer + ShrunkIds(d, u))
                     && Same(was, memPages, outer)
      ensures ok ==> !Gone(d) && Rep(memPages, u)
      ensures if isRoot then ok ==> rootPage == u.page else rootPage == old(rootPage)
      ensures ok <==> !(slot > 0 && RekeyOverflows(t, slot, key))
    {
      ghost var rest := outer + OtherIds(t, slot);
      var newLeft, newSeps := RepairedNode(left, seps, slot, cd, key, t, cu, rest);
      ghost var w := if Gone(cd) then WithoutChild(t, slot) else Rekeyed(t, slot, cu);
      SameFewer(was, memPages, rest, outer);
      SameFewer(was, memPages, rest, OtherIds(t, slot));
      RepairedIs(was, memPages, t, slot, key, cd, cu, w);
      IdsRegroup(outer, OtherIds(t, slot), ShrunkIds(cd, cu), multiset{});
      assert ShapeBelow(t);
      hide LoadPage, NodeData.Fits, Pool, Rep, RepBelow, Shape, ShapeBelow, Has, Remove, Sorted, Branching,
        BranchingBelow, Routes, Shrunk, DeleteOverflows, RekeyOverflows, Same;
      ghost var mid := memPages;
      ok, d, u := SettleNode(id, newLeft, newSeps, slot, isRoot, key, t, w, outer);
      if ok {
        SameTwice(was, mid, memPages, outer);
      }
    }

    /** The node of `btree_delete_internal` as it must be written after the child's deletion. */
    method RepairedNode(left: PageId, seps: seq<InternalEntry>, slot: nat, cd: DeleteResult,
                        ghost key: Atom, ghost t: Tree, ghost cu: Tree, ghost rest: multiset<PageId>)
      returns (newLeft: PageId, newSeps: seq<InternalEntry>)
      requires Routes(t, slot, key) && NodeOf(t) == InternalNode(left, seps) && Shape(t)
      requires Shrunk(cd, cu, Child(t, slot), key, false) && (if Gone(cd) then t.kids != [] else Rep(memPages, cu))
      requires Pool(rest + ShrunkIds(cd, cu))
      ensures NodeOf(if Gone(cd) then WithoutChild(t, slot) else Rekeyed(t, slot, cu)) == InternalNode(newLeft, newSeps)
      ensures |newSeps| < 0x1_0000
    {
      hide *;
      newLeft, newSeps := left, seps;
      ChildShrank(t, slot, key, cd, cu);
      NodeKind(t);
      if cd.removeChild {
        if cd.replacement != 0 {
          RekeyedNode(t, slot, cu);
          if slot == 0 {
            newLeft := cd.replacement;
          } else {
            newSeps := newSeps[slot - 1 := InternalEntry(newSeps[slot - 1].key, cd.replacement)];
            var min := SubtreeMinKey(cd.replacement, cu, rest);
            newSeps := newSeps[slot - 1 := InternalEntry(min.value, cd.replacement)];
          }
        } else {
          WithoutNode(t, slot);
          newLeft, newSeps := InternalRemoveSlot(left, seps, slot);
        }
      } else {
        RekeyedNode(t, slot, cu);
        if cd.newMin.Some? && slot > 0 {
          newSeps := newSeps[slot - 1 := InternalEntry(cd.newMin.value, newSeps[slot - 1].child)];
        }
      }
    }

    /** The end of `btree_delete_internal`: the repaired node `w` is written, or gives way to its only child. */
    method SettleNode(id: PageId, newLeft: PageId, newSeps: seq<InternalEntry>, slot: nat, isRoot: bool,
                      ghost key: Atom, ghost t: Tree, ghost w: Tree, ghost outer: multiset<PageId>)
      returns (ok: bool, d: DeleteResult, ghost u: Tree)
      requires Routes(t, slot, key) && ShapeBelow(t) && Sorted(Contents(t)) && Has(Contents(t), key)
      requires w.Node? && w.page == t.page == id && NodeOf(w) == InternalNode(newLeft, newSeps) && |newSeps| < 0x1_0000
      requires Contents(w) == Remove(Contents(t), key) && Contents(w) != []
      requires ShapeBelow(w) && RepBelow(memPages, w) && Pool(outer + Ids(w)) && (Branching(t) ==> BranchingBelow(w))
      requires (isRoot <==> rootPage == id) && (!isRoot ==> rootPage in outer)
      modifies this`memPages, this`rootPage, this`freeHead, this`free
      ensures ok ==> d.deleted && Shrunk(d, u, t, key, isRoot) && Pool(outer + ShrunkIds(d, u))
                     && Same(old(memPages), memPages, outer)
      ensures ok ==> !Gone(d) && Rep(memPages, u)
      ensures if isRoot then ok ==> rootPage == u.page else rootPage == old(rootPage)
      ensures ok <==> NodeOf(w).Fits()
    {
      hide *;
      PoolParts(outer, Ids(w));
      LeftPageIn(w);
      NodeKind(w);
      KeptSeps(w);
      if newSeps == [] && (!isRoot || newLeft != 0) {
        ok, d, u := CollapseNode(id, newLeft, isRoot, w, outer);
        OnlyChildShrunk(t, key, w, isRoot);
        StaysIs(d, u);
        return;
      }
      ok, d, u := KeepNode(id, newLeft, newSeps, slot, isRoot, w, outer);
      if ok {
        StaysIs(d, u);
        NodeShrunk(t, slot, key, w, isRoot);
      }
    }

    /** A node that keeps a separator is written; its first key is reported when its first child changed. */
    method KeepNode(id: PageId, newLeft: PageId, newSeps: seq<InternalEntry>, slot: nat, isRoot: bool, ghost w: Tree,
                    ghost outer: multiset<PageId>)
      returns (ok: bool, d: DeleteResult, ghost u: Tree)
      requires w.Node? && w.page == id && NodeOf(w) == InternalNode(newLeft, newSeps) && |newSeps| < 0x1_0000
      requires ShapeBelow(w) && RepBelow(memPages, w) && Pool(outer + Ids(w)) && Contents(w) != []
      modifies this`memPages
      ensures ok <==> NodeOf(w).Fits()
      ensures u == w && d ==
              DeleteResult(true, false, 0, if ok && slot == 0 && !isRoot then Some(Contents(w)[0].key) else None)
      ensures ok ==> Pool(outer + Ids(w)) && Rep(memPages, w) && Same(old(memPages), memPages, outer)
    {
      d, u := DeleteResult(true, false, 0, None), w;
      hide LoadPage, NodeData.Fits, Pool, Rep, RepBelow, ShapeBelow, Same;
      ok := WriteTop(id, newLeft, newSeps, w, outer);
      if ok && slot == 0 && !isRoot {
        TopShape(w);
        var min := SubtreeMinKey(id, w, outer);
        d := d.(newMin := min);
      }
    }

    /** A node left without separators gives way to its only child, and its page is freed. */
    method CollapseNode(id: PageId, newLeft: PageId, isRoot: bool, ghost w: Tree, ghost outer: multiset<PageId>)
      returns (ok: bool, d: DeleteResult, ghost u: Tree)
      requires w.Node? && w.kids == [] && w.page == id && w.left.page == newLeft && newLeft != 0
      requires Pool(outer + Ids(w)) && RepBelow(memPages, w)
      requires (isRoot <==> rootPage == id) && (!isRoot ==> rootPage in outer)
      modifies this`memPages, this`rootPage, this`freeHead, this`free
      ensures ok && u == w.left && d == DeleteResult(true, !isRoot, if isRoot then 0 else newLeft, None)
      ensures Pool(outer + Ids(u)) && Rep(memPages, u) && Same(old(memPages), memPages, outer)
      ensures rootPage == if isRoot then newLeft else old(rootPage)
    {
      hide *;
      u, d := w.left, DeleteResult(true, !isRoot, if isRoot then 0 else newLeft, None);
      ghost var kept := outer + Ids(u);
      OnlyChildIds(w, outer);
      RepLeft(memPages, w);
      PoolParts(kept, multiset{id});
      PoolParts(outer, Ids(w));
      SameNow(memPages, kept);
      if isRoot {
        SetRoot(newLeft, kept + multiset{id});
        SameFewer(old(memPages), memPages, kept + multiset{id}, kept);
      }
      ghost var mid := memPages;
      ok := FreePage(id, kept + multiset{id});
      LessOne(kept, id);
      SameTwice(old(memPages), mid, memPages, kept);
      SameFewer(old(memPages), memPages, kept, outer);
      SameFewer(old(memPages), memPages, kept, Ids(u));
      RepFrame(old(memPages), memPages, u);
    }

    /** Sets `rootPage` and rewrites the header; no other page changes. */
    method SetRoot(page: PageId, ghost live: multiset<PageId>)
      requires Pool(live)
      modifies this`memPages, this`rootPage
      ensures Pool(live) && rootPage == page && Same(old(memPages), memPages, live)
    {
      PoolBounds(live);
      hide *;
      rootPage := page;
      var ok := WriteHeader();
      KeptBy(old(memPages), live);
      PoolIs(live);
    }

    /**
     * `btree_delete`: reports whether the key was there, and removes exactly its entry. It is refused exactly when a
     * node overflows with the next key as separator, so never when the next key is not longer, and never among numbers.
     * The source reads past its array when the only child of a node without separators goes.
     */
    method BtreeDelete(key: Atom) returns (ok: bool, deleted: bool)
      requires Valid() && !Strands(tree, key)
      modifies this
      ensures ok ==> Valid() && lost == old(lost) && (Branching(old(tree)) ==> Branching(tree))
      ensures ok ==> Entries() == Remove(old(Entries()), key) && (deleted <==> Has(old(Entries()), key))
      ensures ok <==> !DeleteOverflows(old(tree), key)
      ensures NextNotLonger(old(Entries()), key) || UniformKeys(old(Entries())) ==> ok
    {
      hide *;
      ValidParts();
      ghost var was := tree;
      RemoveSorted(Entries(), key);
      if UniformKeys(Entries()) { UniformNext(Entries(), key); }
      if NextNotLonger(Entries(), key) { NextFits(tree, key); }
      var d;
      ghost var u;
      ok, d, u := DeleteRecursive(rootPage, key, true, tree, lost);
      deleted := d.deleted;
      if !ok {
        return;
      }
      if !deleted {
        RemoveMissing(Contents(was), key);
        return;
      }
      ShrunkRoot(d, u, was, key);
      RootIds(d, u);
      PlantTree(u);
    }

    /** The pages now hold this tree, at the root: the store is valid again. */
    ghost method PlantTree(u: Tree)
      requires Pool(lost + Ids(u)) && rootPage == u.page && Rep(memPages, u) && Shape(u) && Sorted(Contents(u))
      modifies this`tree
      ensures Valid() && tree == u && Entries() == Contents(u)
    {
      hide Pool, Rep, Shape, Sorted;
      tree := u;
    }

    lemma RootIds(d: DeleteResult, u: Tree)
      requires !Gone(d)
      ensures ShrunkIds(d, u) == Ids(u)
    {
    }

    // ----- range scans -----

    /** The leaf part of `btree_collect_range`. */
    static method CollectLeaf(entries: seq<LeafEntry>, min: Option<Atom>, max: Option<Atom>, limit: int,
                              found: seq<LeafEntry>)
      returns (rows: seq<LeafEntry>)
      requires Sorted(entries) && (limit >= 0 ==> |found| <= limit)
      ensures rows == Limited(found + Between(entries, min, max), limit)
    {
      rows := found;
      assert entries[..0] == [];
      for i := 0 to |entries|
        invariant limit >= 0 ==> |rows| <= limit
        invariant rows == found + Between(entries[..i], min, max)
      {
        var e := entries[i];
        BetweenStep(entries, i, min, max);
        if limit >= 0 && |rows| >= limit {
          BetweenFull(entries, i, min, max, found, limit);
          return;
        }
        hide Between, Sorted;
        if min.Some? && Compare(e.key, min.value) < 0 {
          continue;
        }
        if max.Some? && Compare(e.key, max.value) > 0 {
          SortedSlices(entries, i);
          PastMaximum(entries[i..], min, max.value);
          return;
        }
        rows := rows + [e];
      }
      assert entries[..|entries|] == entries;
    }

    /** `btree_collect_range`: appends to `found`, in key order and up to the limit, what is in range below the page. */
    method CollectRange(id: PageId, min: Option<Atom>, max: Option<Atom>, limit: int, found: seq<LeafEntry>,
                        ghost t: Tree, ghost outer: multiset<PageId>)
      returns (ok: bool, rows: seq<LeafEntry>)
      requires Pool(outer + Ids(t)) && id == t.page && Rep(memPages, t) && Shape(t) && Sorted(Contents(t))
      requires limit >= 0 ==> |found| <= limit
      ensures ok && rows == Limited(found + Between(Contents(t), min, max), limit)
      decreases t, 2
    {
      rows := found;
      if limit >= 0 && |rows| >= limit {
        LimitedFull(rows, Between(Contents(t), min, max), limit);
        return true, rows;
      }
      PoolParts(outer, Ids(t));
      assert id in Ids(t);
      assert LoadPage(memPages[id]) == Some(NodeOf(t));
      hide LoadPage, Pool, Between, Limited;
      var node := NodeLoad(id);
      if node.None? {
        return false, rows;
      }
      if node.value.LeafNode? {
        rows := CollectLeaf(node.value.entries, min, max, limit, rows);
        return true, rows;
      }
      ok, rows := CollectChildren(node.value.left, node.value.seps, min, max, limit, found, t, outer);
    }

    /** What the scan needs of the child at `slot`, and the contents up to it. */
    lemma ScanChild(t: Tree, slot: nat, outer: multiset<PageId>)
      requires t.Node? && slot <= |t.kids| && Rep(memPages, t) && Shape(t) && Sorted(Contents(t))
               && Pool(outer + Ids(t))
      ensures var c := Child(t, slot);
              && Rep(memPages, c) && Shape(c) && Sorted(Contents(c)) && c < t
              && Pool(outer + OtherIds(t, slot) + Ids(c))
              && c.page == (if slot == 0 then t.left.page else Seps(t.kids)[slot - 1].child)
              && Contents(t.left) + KidsContents(t.kids[..slot]) == Before(t, slot) + Contents(c)
    {
      hide *;
      ShapeParts(t);
      RepParts(memPages, t);
      ChildShape(t, slot);
      ChildRep(memPages, t, slot);
      ChildSmaller(t, slot);
      ChildPage(t, slot);
      IdsAtChild(t, slot, outer);
      AroundChild(t, slot);
      SortedParts(Before(t, slot) + Contents(Child(t, slot)), After(t, slot));
      SortedParts(Before(t, slot), Contents(Child(t, slot)));
      UpToChild(t, slot);
    }

    /** The internal-node part of `btree_collect_range`: every child in turn, the leftmost first. */
    method CollectChildren(left: PageId, seps: seq<InternalEntry>, min: Option<Atom>, max: Option<Atom>, limit: int,
                           found: seq<LeafEntry>, ghost t: Tree, ghost outer: multiset<PageId>)
      returns (ok: bool, rows: seq<LeafEntry>)
      requires t.Node? && NodeOf(t) == InternalNode(left, seps)
      requires Pool(outer + Ids(t)) && Rep(memPages, t) && Shape(t) && Sorted(Contents(t))
      requires limit >= 0 ==> |found| <= limit
      ensures ok && rows == Limited(found + Between(Contents(t), min, max), limit)
      decreases t, 1
    {
      ScanChild(t, 0, outer);
      hide Pool, Rep, Shape, Sorted, Limited, Between;
      ok, rows := CollectRange(left, min, max, limit, found, Child(t, 0), outer + OtherIds(t, 0));
      assert t.kids[..0] == [];
      assert Contents(t.left) + KidsContents(t.kids[..0]) == Contents(Child(t, 0));
      LimitedTwice(found, Between(Contents(Child(t, 0)), min, max), [], limit);
      ok, rows := CollectKids(seps, min, max, limit, found, rows, t, outer);
    }

    /** The loop of `btree_collect_range` over the children after the leftmost. */
    method CollectKids(seps: seq<InternalEntry>, min: Option<Atom>, max: Option<Atom>, limit: int,
                       ghost found: seq<LeafEntry>, first: seq<LeafEntry>, ghost t: Tree, ghost outer: multiset<PageId>)
      returns (ok: bool, rows: seq<LeafEntry>)
      requires t.Node? && Seps(t.kids) == seps
      requires Pool(outer + Ids(t)) && Rep(memPages, t) && Shape(t) && Sorted(Contents(t))
      requires (limit >= 0 ==> |found| <= limit && |first| <= limit)
      requires first == Limited(found + Between(Contents(t.left) + KidsContents(t.kids[..0]), min, max), limit)
      ensures ok && rows == Limited(found + Between(Contents(t), min, max), limit)
      decreases t, 0
    {
      ok, rows := true, first;
      for i := 0 to |seps|
        invariant ok && (limit >= 0 ==> |rows| <= limit)
        invariant rows == Limited(found + Between(Contents(t.left) + KidsContents(t.kids[..i]), min, max), limit)
      {
        hide Pool, Rep, Shape, Sorted, Limited, Between, Contents, KidsContents, Ids;
        if limit >= 0 && |rows| >= limit {
          ScanStops(t, i, min, max, limit, found, rows);
          return;
        }
        ScanChild(t, i + 1, outer);
        ok, rows := CollectRange(seps[i].child, min, max, limit, rows, Child(t, i + 1), outer + OtherIds(t, i + 1));
        if !ok {
          return;
        }
        ScanStep(t, i, min, max, limit, found);
      }
      assert t.kids[..|seps|] == t.kids;
    }

    /**
     * `btree_range_native` on a good limit (-1 stands for none): the first `limit` entries in range, in key order.
     */
    method BtreeRange(min: Option<Atom>, max: Option<Atom>, limit: int) returns (ok: bool, rows: seq<LeafEntry>)
      requires Valid() && limit >= -1
      ensures ok && rows == Limited(Between(Entries(), min, max), limit)
      ensures rows <= Between(Entries(), min, max)
      ensures var n := |Between(Entries(), min, max)|; |rows| == if 0 <= limit < n then limit else n
      ensures Sorted(rows)
    {
      BetweenIsExact(Entries(), min, max);
      LimitedSorted(Between(Entries(), min, max), limit);
      if limit == 0 {
        return true, [];
      }
      if min.Some? && max.Some? && Compare(min.value, max.value) > 0 {
        CrossedBounds(Entries(), min.value, max.value);
        return true, [];
      }
      ok, rows := CollectRange(rootPage, min, max, limit, [], tree, lost);
      assert [] + Between(Entries(), min, max) == Between(Entries(), min, max);
    }

    // ----- runs -----

    lemma RunOn(ops: seq<Op>, n: nat)
      requires n < |ops|
      ensures ShortOps(ops) ==> ShortKeys(RunEntries(ops[..n + 1]))
      ensures RunEntries(ops[..n + 1]) == Applied(RunEntries(ops[..n]), ops[n])
      ensures ops[n].DeleteOp? ==> Deletes(ops)
    {
      RunNext(ops, n);
      forall e | ShortOps(ops) && e in RunEntries(ops[..n + 1])
        ensures EncodedSize(e.key) <= SMALL_KEY
      {
        RunKeys(ops[..n + 1], e);
        var i :| 0 <= i < n + 1 && ops[..n + 1][i].key == e.key;
        assert ops[i].key == e.key;
      }
    }

    /** One operation. */
    method Apply(op: Op) returns (ok: bool)
      requires Valid() && (op.DeleteOp? ==> !Strands(tree, op.key))
      modifies this
      ensures ok || op.PutOp? ==> Valid()
      ensures ok ==> Entries() == Applied(old(Entries()), op) && lost == old(lost)
      ensures ok && Branching(old(tree)) && ShortKeys(Applied(old(Entries()), op)) ==> Branching(tree)
      ensures !ok ==> MayRefuse(old(Entries()), op) || (op.PutOp? && Exhausted())
    {
      RefusalIs(Entries(), op);
      hide *;
      if op.PutOp? {
        ok := BtreePut(op.key, op.value);
      } else {
        var deleted;
        ok, deleted := BtreeDelete(op.key);
      }
    }

    /**
     * Any run of puts on an empty store, and any run of puts and deletes with short keys. As long as all report
     * success, lookup in the store is lookup in the map given the same operations. A delete is refused only when the
     * next key is longer; among small entries only an overwrite is refused while the host has pages.
     */
    method ApplyAll(ops: seq<Op>) returns (done: nat)
      requires Valid() && Entries() == [] && lost == multiset{} && (Deletes(ops) ==> Branching(tree) && ShortOps(ops))
      modifies this
      ensures done <= |ops|
      ensures done == |ops| ==>
                Valid() && Entries() == RunEntries(ops) && AsMap(Entries()) == RunMap(ops) && lost == multiset{}
      ensures done < |ops| ==> MayRefuse(RunEntries(ops[..done]), ops[done]) || (ops[done].PutOp? && Exhausted())
    {
      assert ops[..0] == [] && RunEntries([]) == [];
      hide *;
      done := 0;
      while done < |ops|
        invariant done <= |ops| && Valid() && Entries() == RunEntries(ops[..done]) && lost == multiset{}
        invariant Deletes(ops) ==> Branching(tree)
        decreases |ops| - done
      {
        RunOn(ops, done);
        if ops[done].DeleteOp? { BranchingStrandsNone(tree, ops[done].key); }
        var ok := Apply(ops[done]);
        if !ok {
          return;
        }
        done := done + 1;
      }
      assert ops[..done] == ops;
      RunRefinesMap(ops);
    }
  }

  /** An operation that is not refused for lack of room in a page, unless this holds. */
  ghost predicate MayRefuse(s: seq<LeafEntry>, op: Op) {
    match op
    case PutOp(k, v) => Has(s, k) || !SmallEntries(Put(s, k, v))
    case DeleteOp(k) => !NextNotLonger(s, k)
  }

  lemma RefusalIs(s: seq<LeafEntry>, op: Op)
    ensures op.PutOp? ==> Applied(s, op) == Put(s, op.key, op.value)
    ensures op.PutOp? ==> (MayRefuse(s, op) <==> Has(s, op.key) || !SmallEntries(Put(s, op.key, op.value)))
    ensures op.DeleteOp? ==> Applied(s, op) == Remove(s, op.key)
    ensures op.DeleteOp? ==> (MayRefuse(s, op) <==> !NextNotLonger(s, op.key))
  {
    hide Has, Put, Remove, SmallEntries, NextNotLonger;
  }

  ghost predicate Deletes(ops: seq<Op>) {
    exists i :: 0 <= i < |ops| && ops[i].DeleteOp?
  }

  ghost predicate ShortOps(ops: seq<Op>) {
    forall i :: 0 <= i < |ops| ==> EncodedSize(ops[i].key) <= SMALL_KEY
  }

  /**
   * A refused put that loses an entry: two small entries are stored, then a third one is refused that is too large
   * for any page. The store is left with the first entry alone.
   */
  method RefusedPutLosesAnEntry(limit: nat) returns (db: BTreeDb, ok: bool)
    requires 4 <= limit < 0x8000_0000
    ensures !ok && db.Valid() && db.Entries() == [LeafEntry(Num(1), Num(0))]
  {
    var first, second := LeafEntry(Num(1), Num(0)), LeafEntry(Num(2), Num(0));
    var big := LeafEntry(Num(3), Str(seq(4096, i => 0)));
    ThreePuts(first, second, big);
    hide *;
    db := new BTreeDb(limit);
    ok := db.OpenMemory();
    ok := db.BtreePut(first.key, first.value);
    db.AfterFit([], first.key, first.value, ok);
    ok := db.BtreePut(second.key, second.value);
    db.AfterFit([first], second.key, second.value, ok);
    ok := db.BtreePut(big.key, big.value);
    db.AfterLoss([first, second], big.key, big.value, ok);
  }

  lemma ThreePuts(a: LeafEntry, b: LeafEntry, c: LeafEntry)
    requires a == LeafEntry(Num(1), Num(0)) && b == LeafEntry(Num(2), Num(0)) && c.key == Num(3)
    requires c.value.Str? && |c.value.chars| == 4096
    ensures Put([], a.key, a.value) == [a] && Put([a], b.key, b.value) == [a, b]
            && Put([a, b], c.key, c.value) == [a, b, c]
    ensures LeafNode([a]).Fits() && LeafNode([a, b]).Fits() && !Has([a, b], c.key)
    ensures Addable(c) && BadSplit([a, b, c]) && LeafOutcome([a, b, c], false).Refused?
            && [a, b, c][..|[a, b, c]| / 2] == [a]
  {
    ThreeKeys(a, b, c);
    assert Compare(a.key, b.key) < 0;
    BoundIsUnique([a], b.key, 1);
    ThreeCosts(a, b, c);
    BadThree(a, b, c);
    hide *;
    LeafOutcomeIs([a, b, c], false);
    BadSplitIs([a, b, c]);
    LeafFitsIs([a]);
  }
}
