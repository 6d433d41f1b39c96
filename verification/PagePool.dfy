/** Page ids, the free list threaded through free pages, and the header page. */
module PagePool {
  import opened Bytes
  import opened SlottedPage
  import opened Nodes
  import opened BTreeShape

  /** The page ids of a store with `n` pages; page 0 is the header. */
  ghost function AllIds(n: PageId): multiset<PageId> {
    if n <= 1 then multiset{} else AllIds(n - 1) + multiset{n - 1}
  }

  lemma {:induction false} AllIdsOnce(n: PageId, p: PageId)
    ensures AllIds(n)[p] == if 1 <= p < n then 1 else 0
  {
    if n > 1 { AllIdsOnce(n - 1, p); }
  }

  lemma {:induction false} AllIdsCount(n: PageId)
    requires n >= 1
    ensures |AllIds(n)| == n - 1
  {
    if n > 1 { AllIdsCount(n - 1); }
  }

  /** When the ids are split into live and free ones, they are in range and no page is both or twice. */
  lemma SplitIds(live: multiset<PageId>, free: multiset<PageId>, n: PageId)
    requires live + free == AllIds(n)
    ensures forall p: PageId :: p in live ==> 1 <= p < n && live[p] == 1 && p !in free
    ensures forall p: PageId :: p in free ==> 1 <= p < n && free[p] == 1 && p !in live
  {
    forall p: PageId | p in live || p in free
      ensures 1 <= p < n && live[p] + free[p] == 1
    {
      AllIdsOnce(n, p);
      assert live[p] + free[p] == (live + free)[p];
    }
  }

  lemma PopIds(live: multiset<PageId>, free: seq<PageId>, n: PageId)
    requires free != [] && live + multiset(free) == AllIds(n)
    ensures live + multiset{free[0]} + multiset(free[1..]) == AllIds(n)
  {
    assert free == [free[0]] + free[1..];
    assert multiset(free) == multiset{free[0]} + multiset(free[1..]);
  }

  lemma GrowIds(live: multiset<PageId>, free: seq<PageId>, n: PageId)
    requires 1 <= n < 0xFFFF_FFFF && live + multiset(free) == AllIds(n)
    ensures live + multiset{n} + multiset(free) == AllIds(n + 1)
  {
  }

  lemma PushIds(live: multiset<PageId>, id: PageId, free: seq<PageId>, n: PageId)
    requires id in live && live + multiset(free) == AllIds(n)
    ensures live - multiset{id} + multiset([id] + free) == AllIds(n)
  {
    assert multiset([id] + free) == multiset{id} + multiset(free);
  }

  /** The free pages, in list order: each is typed free and links to the next. */
  ghost predicate FreeChain(pages: seq<Page>, head: PageId, free: seq<PageId>)
    decreases free
  {
    if free == [] then head == 0
    else
      && head == free[0] && 0 < head < |pages|
      && pages[head][0] == TYPE_FREE
      && FreeChain(pages, ReadU32(pages[head], 8), free[1..])
  }

  lemma {:induction false} FreeChainFrame(was: seq<Page>, now: seq<Page>, head: PageId, free: seq<PageId>)
    requires FreeChain(was, head, free) && Same(was, now, multiset(free))
    ensures FreeChain(now, head, free)
    decreases free
  {
    if free != [] {
      assert free == [free[0]] + free[1..];
      assert free[0] in multiset(free);
      SameFewer(was, now, multiset(free), multiset(free[1..]));
      FreeChainFrame(was, now, ReadU32(was[head], 8), free[1..]);
    }
  }

  ghost predicate HeaderHolds(page: Page, root: PageId, count: PageId, freeHead: PageId) {
    && page[..5] == [0x50, 0x42, 0x54, 0x32, 1]
    && ReadU32(page, 8) == root
    && ReadU32(page, 12) == count
    && ReadU32(page, 16) == freeHead
  }

  method WriteU32(page: array<Byte>, off: nat, v: U32)
    requires off + 4 <= page.Length
    modifies page
    ensures ReadU32(page[..], off) == v
    ensures forall b :: 0 <= b < page.Length && !(off <= b < off + 4) ==> page[b] == old(page[b])
  {
    WriteU16(page, off, v % 0x1_0000);
    WriteU16(page, off + 2, v / 0x1_0000);
    assert ReadU16(page[..], off) == v % 0x1_0000 && ReadU16(page[..], off + 2) == v / 0x1_0000;
  }

  lemma SameU32(s: seq<Byte>, t: seq<Byte>, off: nat)
    requires off + 4 <= |s| == |t| && forall b :: off <= b < off + 4 ==> s[b] == t[b]
    ensures ReadU32(s, off) == ReadU32(t, off)
  {
  }

  /** The page image of `db_write_header`. */
  method BuildHeader(root: PageId, count: PageId, freeHead: PageId) returns (page: Page)
    ensures HeaderHolds(page, root, count, freeHead)
  {
    var buf := new Byte[PAGE_SIZE](_ => 0);
    hide ReadU32;
    buf[0], buf[1], buf[2], buf[3] := 0x50, 0x42, 0x54, 0x32;
    buf[4] := 1;
    ghost var s0 := buf[..];
    WriteU32(buf, 8, root);
    ghost var s1 := buf[..];
    WriteU32(buf, 12, count);
    ghost var s2 := buf[..];
    WriteU32(buf, 16, freeHead);
    page := buf[..];
    HeaderWritten(s0, s1, s2, page, root, count, freeHead);
  }

  lemma HeaderWritten(s0: seq<Byte>, s1: seq<Byte>, s2: seq<Byte>, page: Page, root: PageId, count: PageId,
                      freeHead: PageId)
    requires |s0| == |s1| == |s2| == |page| && |s0| >= 20
    requires s0[0] == 0x50 && s0[1] == 0x42 && s0[2] == 0x54 && s0[3] == 0x32 && s0[4] == 1
    requires ReadU32(s1, 8) == root && ReadU32(s2, 12) == count && ReadU32(page, 16) == freeHead
    requires forall b :: 0 <= b < |s0| && !(8 <= b < 12) ==> s1[b] == s0[b]
    requires forall b :: 0 <= b < |s0| && !(12 <= b < 16) ==> s2[b] == s1[b]
    requires forall b :: 0 <= b < |s0| && !(16 <= b < 20) ==> page[b] == s2[b]
    ensures HeaderHolds(page, root, count, freeHead)
  {
    hide ReadU32;
    SameU32(s1, page, 8);
    SameU32(s2, page, 12);
    assert page[..5] == [page[0], page[1], page[2], page[3], page[4]];
  }

  /** The page image of `db_free_page`. */
  method BuildFreePage(next: PageId) returns (page: Page)
    ensures page[0] == TYPE_FREE && ReadU32(page, 8) == next
  {
    var buf := new Byte[PAGE_SIZE](_ => 0);
    PageInit(buf, TYPE_FREE, 0);
    WriteU32(buf, 8, next);
    page := buf[..];
  }

  lemma SameBelow(was: seq<Page>, now: seq<Page>, live: multiset<PageId>, n: PageId)
    requires n <= |was| && n <= |now| && forall p: PageId :: p in live ==> 1 <= p < n
    requires forall i :: 1 <= i < n ==> now[i] == was[i]
    ensures Same(was, now, live)
  {
  }

  lemma EmptyChain(pages: seq<Page>)
    ensures FreeChain(pages, 0, [])
  {
  }
}
