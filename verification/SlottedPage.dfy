/** One 4096-byte slotted page: a header, a slot array growing up and records growing down. */
module SlottedPage {
  import opened Bytes

  const PAGE_SIZE := 4096
  const HEADER_SIZE := 16
  const SLOT_SIZE := 2

  const TYPE_FREE: Byte := 0
  const TYPE_LEAF: Byte := 1
  const TYPE_INTERNAL: Byte := 2

  type Page = p: seq<Byte> | |p| == PAGE_SIZE witness seq(PAGE_SIZE, i => 0)

  function ZeroPage(): (p: Page)
    ensures forall i :: 0 <= i < PAGE_SIZE ==> p[i] == 0
  {
    seq(PAGE_SIZE, i => 0)
  }

  /** Bytes the records take, slots not counted. */
  function Total(recs: seq<seq<Byte>>): nat {
    if recs == [] then 0 else |recs[0]| + Total(recs[1..])
  }

  lemma {:induction false} TotalSplit(a: seq<seq<Byte>>, b: seq<seq<Byte>>)
    ensures Total(a + b) == Total(a) + Total(b)
  {
    if a == [] {
      assert a + b == b;
    } else {
      assert (a + b)[1..] == a[1..] + b;
      TotalSplit(a[1..], b);
    }
  }

  lemma TotalInsert(recs: seq<seq<Byte>>, index: nat, rec: seq<Byte>)
    requires index <= |recs|
    ensures Total(recs[..index] + [rec] + recs[index..]) == Total(recs) + |rec|
  {
    assert recs == recs[..index] + recs[index..];
    TotalSplit(recs[..index], recs[index..]);
    TotalSplit([rec], recs[index..]);
    assert recs[..index] + [rec] + recs[index..] == recs[..index] + ([rec] + recs[index..]);
    TotalSplit(recs[..index], [rec] + recs[index..]);
  }

  /** The sum `page_add_record` compares with the page size: header, slots and records. */
  function UsedBytes(recs: seq<seq<Byte>>): nat {
    HEADER_SIZE + SLOT_SIZE * |recs| + Total(recs)
  }

  ghost predicate HeaderIs(page: seq<Byte>, typ: Byte, left: U32, n: nat, freeEnd: nat) {
    && |page| == PAGE_SIZE
    && page[0] == typ
    && ReadU16(page, 2) == n
    && ReadU16(page, 4) == HEADER_SIZE + SLOT_SIZE * n
    && ReadU16(page, 6) == freeEnd
    && ReadU32(page, 8) == left
  }

  /** Slot `i` points into the record area at `rec`. */
  ghost predicate SlotHolds(page: seq<Byte>, i: nat, freeEnd: nat, rec: seq<Byte>) {
    && HEADER_SIZE + SLOT_SIZE * i + SLOT_SIZE <= |page| == PAGE_SIZE
    && var off := ReadU16(page, HEADER_SIZE + SLOT_SIZE * i);
       freeEnd <= off && off + |rec| <= PAGE_SIZE && page[off..off + |rec|] == rec
  }

  /** The page is well formed and its slots list exactly `recs`, in order. */
  ghost predicate Holds(page: seq<Byte>, typ: Byte, left: U32, recs: seq<seq<Byte>>) {
    && UsedBytes(recs) <= PAGE_SIZE
    && HeaderIs(page, typ, left, |recs|, PAGE_SIZE - Total(recs))
    && forall i :: 0 <= i < |recs| ==> SlotHolds(page, i, PAGE_SIZE - Total(recs), recs[i])
  }

  method WriteU16(page: array<Byte>, off: nat, v: U16)
    requires off + 2 <= page.Length
    modifies page
    ensures page[off] == v % 0x100 && page[off + 1] == v / 0x100
    ensures forall b :: 0 <= b < page.Length && b != off && b != off + 1 ==> page[b] == old(page[b])
  {
    page[off] := v % 0x100;
    page[off + 1] := v / 0x100;
  }

  method PageInit(page: array<Byte>, typ: Byte, left: U32)
    requires page.Length == PAGE_SIZE
    modifies page
    ensures Holds(page[..], typ, left, [])
  {
    for i := 0 to PAGE_SIZE
      invariant forall j :: 0 <= j < i ==> page[j] == 0
    {
      page[i] := 0;
    }
    page[0] := typ;
    WriteU16(page, 2, 0);
    WriteU16(page, 4, HEADER_SIZE);
    WriteU16(page, 6, PAGE_SIZE);
    WriteU16(page, 8, left % 0x1_0000);
    WriteU16(page, 10, left / 0x1_0000);
    assert ReadU16(page[..], 8) == left % 0x1_0000 && ReadU16(page[..], 10) == left / 0x1_0000;
  }

  /**
   * What an insertion at slot `index` leaves, byte by byte: the record sits at the new free end,
   * the slots from `index` on have moved up by one, and the header counts them.
   */
  ghost predicate SlotInserted(was: seq<Byte>, now: seq<Byte>, n: nat, index: nat, newEnd: nat, freeEnd: nat,
                               rec: seq<Byte>) {
    && |was| == |now| == PAGE_SIZE && index <= n
    && HEADER_SIZE + SLOT_SIZE * (n + 1) <= newEnd && newEnd + |rec| == freeEnd <= PAGE_SIZE
    && now[newEnd..freeEnd] == rec
    && (forall b :: freeEnd <= b < PAGE_SIZE ==> now[b] == was[b])
    && (forall b :: HEADER_SIZE <= b < HEADER_SIZE + SLOT_SIZE * index ==> now[b] == was[b])
    && ReadU16(now, HEADER_SIZE + SLOT_SIZE * index) == newEnd
    && (forall b :: HEADER_SIZE + SLOT_SIZE * (index + 1) <= b < HEADER_SIZE + SLOT_SIZE * (n + 1) ==>
         now[b] == was[b - SLOT_SIZE])
  }

  lemma SameTail(s: seq<Byte>, t: seq<Byte>)
    requires |s| == |t| == PAGE_SIZE && s[8..] == t[8..]
    ensures forall b :: 8 <= b < PAGE_SIZE ==> s[b] == t[b]
  {
    assert forall b :: 8 <= b < PAGE_SIZE ==> s[b] == s[8..][b - 8] && t[b] == t[8..][b - 8];
  }

  lemma InsertedSlot(was: seq<Byte>, now: seq<Byte>, recs: seq<seq<Byte>>, index: nat, rec: seq<Byte>, newEnd: nat,
                     freeEnd: nat, i: nat)
    requires SlotInserted(was, now, |recs|, index, newEnd, freeEnd, rec)
    requires forall j :: 0 <= j < |recs| ==> SlotHolds(was, j, freeEnd, recs[j])
    requires i <= |recs| && index <= |recs|
    ensures SlotHolds(now, i, newEnd, (recs[..index] + [rec] + recs[index..])[i])
  {
    hide SlotInserted, SlotHolds;
    var all := recs[..index] + [rec] + recs[index..];
    if i != index {
      var j := if i < index then i else i - 1;
      assert all[i] == recs[j];
      assert SlotHolds(was, j, freeEnd, recs[j]);
      MovedSlot(was, now, |recs|, index, newEnd, freeEnd, rec, j, recs[j]);
    } else {
      assert all[i] == rec;
      NewSlot(was, now, |recs|, index, newEnd, freeEnd, rec);
    }
  }

  lemma NewSlot(was: seq<Byte>, now: seq<Byte>, n: nat, index: nat, newEnd: nat, freeEnd: nat, rec: seq<Byte>)
    requires SlotInserted(was, now, n, index, newEnd, freeEnd, rec)
    ensures SlotHolds(now, index, newEnd, rec)
  {
  }

  /** An older record keeps its place; only its slot may have moved up by one. */
  lemma MovedSlot(was: seq<Byte>, now: seq<Byte>, n: nat, index: nat, newEnd: nat, freeEnd: nat, rec: seq<Byte>, j: nat,
                  r: seq<Byte>)
    requires SlotInserted(was, now, n, index, newEnd, freeEnd, rec) && j < n && SlotHolds(was, j, freeEnd, r)
    ensures SlotHolds(now, if j < index then j else j + 1, newEnd, r)
  {
    var i := if j < index then j else j + 1;
    var off := ReadU16(was, HEADER_SIZE + SLOT_SIZE * j);
    assert ReadU16(now, HEADER_SIZE + SLOT_SIZE * i) == off;
    assert now[off..off + |r|] == was[off..off + |r|];
  }

  lemma InsertedHolds(was: seq<Byte>, now: seq<Byte>, typ: Byte, left: U32, recs: seq<seq<Byte>>, index: nat,
                      rec: seq<Byte>)
    requires Holds(was, typ, left, recs) && index <= |recs|
    requires UsedBytes(recs) + SLOT_SIZE + |rec| <= PAGE_SIZE
    requires SlotInserted(was, now, |recs|, index, PAGE_SIZE - Total(recs) - |rec|, PAGE_SIZE - Total(recs), rec)
    requires HeaderIs(now, typ, left, |recs| + 1, PAGE_SIZE - Total(recs) - |rec|)
    ensures Holds(now, typ, left, recs[..index] + [rec] + recs[index..])
  {
    hide UsedBytes, SlotHolds, SlotInserted, Holds, HeaderIs, Total;
    var all := recs[..index] + [rec] + recs[index..];
    HoldsParts(was, typ, left, recs);
    UsedIs(recs);
    TotalInsert(recs, index, rec);
    forall i | 0 <= i < |all|
      ensures SlotHolds(now, i, PAGE_SIZE - Total(all), all[i])
    {
      InsertedSlot(was, now, recs, index, rec, PAGE_SIZE - Total(all), PAGE_SIZE - Total(recs), i);
    }
    MakeHolds(now, typ, left, all);
  }

  lemma UsedIs(recs: seq<seq<Byte>>)
    ensures UsedBytes(recs) == HEADER_SIZE + SLOT_SIZE * |recs| + Total(recs)
  {
  }

  lemma HoldsParts(page: seq<Byte>, typ: Byte, left: U32, recs: seq<seq<Byte>>)
    requires Holds(page, typ, left, recs)
    ensures UsedBytes(recs) <= PAGE_SIZE && HeaderIs(page, typ, left, |recs|, PAGE_SIZE - Total(recs))
    ensures forall i :: 0 <= i < |recs| ==> SlotHolds(page, i, PAGE_SIZE - Total(recs), recs[i])
  {
    hide SlotHolds, HeaderIs;
  }

  lemma MakeHolds(page: seq<Byte>, typ: Byte, left: U32, recs: seq<seq<Byte>>)
    requires HEADER_SIZE + SLOT_SIZE * |recs| + Total(recs) <= PAGE_SIZE
    requires HeaderIs(page, typ, left, |recs|, PAGE_SIZE - Total(recs))
    requires forall i :: 0 <= i < |recs| ==> SlotHolds(page, i, PAGE_SIZE - Total(recs), recs[i])
    ensures Holds(page, typ, left, recs)
  {
    hide SlotHolds, HeaderIs;
  }

  /** The slot loop of `page_add_record`: slots `index..n` move up by one. */
  method ShiftSlotsUp(page: array<Byte>, n: U16, index: U16)
    requires page.Length == PAGE_SIZE && index <= n
    requires HEADER_SIZE + SLOT_SIZE * (n + 1) <= PAGE_SIZE
    modifies page
    ensures forall b :: HEADER_SIZE + SLOT_SIZE * (index + 1) <= b < HEADER_SIZE + SLOT_SIZE * (n + 1) ==>
              page[b] == old(page[b - SLOT_SIZE])
    ensures forall b :: 0 <= b < HEADER_SIZE + SLOT_SIZE * (index + 1) ==> page[b] == old(page[b])
    ensures forall b :: HEADER_SIZE + SLOT_SIZE * (n + 1) <= b < PAGE_SIZE ==> page[b] == old(page[b])
  {
    var i := n;
    while i > index
      invariant index <= i <= n
      invariant forall b :: HEADER_SIZE + SLOT_SIZE * (i + 1) <= b < HEADER_SIZE + SLOT_SIZE * (n + 1) ==>
                  page[b] == old(page[b - SLOT_SIZE])
      invariant forall b :: 0 <= b < HEADER_SIZE + SLOT_SIZE * (i + 1) ==> page[b] == old(page[b])
      invariant forall b :: HEADER_SIZE + SLOT_SIZE * (n + 1) <= b < PAGE_SIZE ==> page[b] == old(page[b])
    {
      WriteU16(page, HEADER_SIZE + SLOT_SIZE * i, ReadU16(page[..], HEADER_SIZE + SLOT_SIZE * (i - 1)));
      i := i - 1;
    }
  }

  /** The record and slot writes of `page_add_record`, once record and slot are known to fit. */
  method PlaceRecord(page: array<Byte>, n: U16, freeEnd: U16, index: U16, rec: seq<Byte>)
    requires page.Length == PAGE_SIZE && index <= n
    requires HEADER_SIZE + SLOT_SIZE * (n + 1) + |rec| <= freeEnd <= PAGE_SIZE
    modifies page
    ensures SlotInserted(old(page[..]), page[..], n, index, freeEnd - |rec|, freeEnd, rec)
    ensures forall b :: 0 <= b < HEADER_SIZE ==> page[b] == old(page[b])
  {
    var newOff := freeEnd - |rec|;
    CopyInto(page, newOff, rec);
    ShiftSlotsUp(page, n, index);
    WriteU16(page, HEADER_SIZE + SLOT_SIZE * index, newOff);
    assert page[newOff..freeEnd] == rec;
  }

  /** The header writes of `page_add_record`. */
  method SetHeader(page: array<Byte>, n: U16, freeStart: U16, freeEnd: U16)
    requires page.Length == PAGE_SIZE
    modifies page
    ensures ReadU16(page[..], 2) == n && ReadU16(page[..], 4) == freeStart && ReadU16(page[..], 6) == freeEnd
    ensures page[0] == old(page[0]) && page[..][8..] == old(page[..][8..])
  {
    WriteU16(page, 2, n);
    WriteU16(page, 4, freeStart);
    WriteU16(page, 6, freeEnd);
  }

  /** Writing the header after the record keeps the rest. */
  lemma HeaderSet(was: seq<Byte>, placed: seq<Byte>, now: seq<Byte>, typ: Byte, left: U32, recs: seq<seq<Byte>>,
                  index: nat, rec: seq<Byte>)
    requires Total(recs) + |rec| <= PAGE_SIZE && |placed| == |now| == PAGE_SIZE
    requires HeaderIs(was, typ, left, |recs|, PAGE_SIZE - Total(recs))
    requires SlotInserted(was, placed, |recs|, index, PAGE_SIZE - Total(recs) - |rec|, PAGE_SIZE - Total(recs), rec)
    requires forall b :: 0 <= b < HEADER_SIZE ==> placed[b] == was[b]
    requires now[0] == placed[0] && now[8..] == placed[8..]
    requires ReadU16(now, 2) == |recs| + 1 && ReadU16(now, 4) == HEADER_SIZE + SLOT_SIZE * (|recs| + 1)
    requires ReadU16(now, 6) == PAGE_SIZE - Total(recs) - |rec|
    ensures SlotInserted(was, now, |recs|, index, PAGE_SIZE - Total(recs) - |rec|, PAGE_SIZE - Total(recs), rec)
    ensures HeaderIs(now, typ, left, |recs| + 1, PAGE_SIZE - Total(recs) - |rec|)
  {
    hide Total;
    SameTail(placed, now);
    var newEnd, freeEnd := PAGE_SIZE - Total(recs) - |rec|, PAGE_SIZE - Total(recs);
    assert now[newEnd..freeEnd] == placed[newEnd..freeEnd];
  }

  /**
   * `page_add_record`: succeeds exactly when the slot index exists and record and slot fit between
   * the slot array and the records; a refused record leaves the page untouched.
   */
  method PageAddRecord(page: array<Byte>, index: U16, rec: seq<Byte>,
                       ghost typ: Byte, ghost left: U32, ghost recs: seq<seq<Byte>>)
    returns (ok: bool)
    requires page.Length == PAGE_SIZE && |rec| < 0x1_0000
    requires Holds(page[..], typ, left, recs)
    modifies page
    ensures ok <==> index <= |recs| && UsedBytes(recs) + SLOT_SIZE + |rec| <= PAGE_SIZE
    ensures ok ==> Holds(page[..], typ, left, recs[..index] + [rec] + recs[index..])
    ensures !ok ==> page[..] == old(page[..])
  {
    ghost var was := page[..];
    HoldsParts(was, typ, left, recs);
    UsedIs(recs);
    assert HeaderIs(was, typ, left, |recs|, PAGE_SIZE - Total(recs));
    assert |was| == PAGE_SIZE && ReadU16(was, 2) == |recs| && ReadU16(was, 4) == HEADER_SIZE + SLOT_SIZE * |recs|
           && ReadU16(was, 6) == PAGE_SIZE - Total(recs);
    hide Holds, HeaderIs, SlotHolds, SlotInserted, UsedBytes, Total, ReadU16;
    var n := ReadU16(page[..], 2);
    var freeStart := ReadU16(page[..], 4);
    var freeEnd := ReadU16(page[..], 6);
    if index > n {
      return false;
    }
    if |rec| + SLOT_SIZE > freeEnd - freeStart {
      return false;
    }
    PlaceRecord(page, n, freeEnd, index, rec);
    ghost var placed := page[..];
    SetHeader(page, n + 1, freeStart + SLOT_SIZE, freeEnd - |rec|);
    HeaderSet(was, placed, page[..], typ, left, recs, index, rec);
    InsertedHolds(was, page[..], typ, left, recs, index, rec);
    return true;
  }
}
