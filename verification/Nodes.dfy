/** B+tree nodes as data, and their translation to and from slotted pages (`node_write`, `node_load`). */
module Nodes {
  import opened Bytes
  import opened Atoms
  import opened Options
  import opened SlottedPage

  type PageId = U32

  datatype LeafEntry = LeafEntry(key: Atom, value: Atom)
  datatype InternalEntry = InternalEntry(key: Atom, child: PageId)

  datatype NodeData =
    | LeafNode(entries: seq<LeafEntry>)
    | InternalNode(left: PageId, seps: seq<InternalEntry>)
  {
    function NKeys(): nat {
      if LeafNode? then |entries| else |seps|
    }

    function TypeByte(): Byte {
      if LeafNode? then TYPE_LEAF else TYPE_INTERNAL
    }

    function LeftChild(): PageId {
      if LeafNode? then 0 else left
    }

    /** The record bytes of entry `i`. */
    function Record(i: nat): seq<Byte>
      requires i < NKeys()
    {
      if LeafNode? then Encode(entries[i].key) + Encode(entries[i].value)
      else Encode(seps[i].key) + Le32(seps[i].child)
    }

    function Records(): (recs: seq<seq<Byte>>)
      ensures |recs| == NKeys()
    {
      seq(NKeys(), i requires 0 <= i < NKeys() => Record(i))
    }

    /** Header, slots and records fit one page: the sum `node_fits_leaf` and `node_fits_internal` add up. */
    predicate Fits() {
      UsedBytes(Records()) <= PAGE_SIZE
    }
  }

  // ----- sizes -----

  function LeafCost(e: LeafEntry): nat {
    SLOT_SIZE + EncodedSize(e.key) + EncodedSize(e.value)
  }

  function LeafCosts(es: seq<LeafEntry>): nat {
    if es == [] then 0 else LeafCost(es[0]) + LeafCosts(es[1..])
  }

  function SepCost(key: Atom): nat {
    SLOT_SIZE + EncodedSize(key) + 4
  }

  function SepCosts(es: seq<InternalEntry>): nat {
    if es == [] then 0 else SepCost(es[0].key) + SepCosts(es[1..])
  }

  lemma {:induction false} LeafCostsSplit(a: seq<LeafEntry>, b: seq<LeafEntry>)
    ensures LeafCosts(a + b) == LeafCosts(a) + LeafCosts(b)
  {
    if a == [] {
      assert a + b == b;
    } else {
      assert (a + b)[1..] == a[1..] + b;
      LeafCostsSplit(a[1..], b);
    }
  }

  lemma {:induction false} SepCostsSplit(a: seq<InternalEntry>, b: seq<InternalEntry>)
    ensures SepCosts(a + b) == SepCosts(a) + SepCosts(b)
  {
    if a == [] {
      assert a + b == b;
    } else {
      assert (a + b)[1..] == a[1..] + b;
      SepCostsSplit(a[1..], b);
    }
  }

  lemma {:induction false} LeafUsed(es: seq<LeafEntry>)
    ensures UsedBytes(LeafNode(es).Records()) == HEADER_SIZE + LeafCosts(es)
  {
    if es != [] {
      LeafUsed(es[1..]);
      assert LeafNode(es).Records()[1..] == LeafNode(es[1..]).Records();
    }
  }

  lemma {:induction false} InternalUsed(left: PageId, es: seq<InternalEntry>)
    ensures UsedBytes(InternalNode(left, es).Records()) == HEADER_SIZE + SepCosts(es)
  {
    if es != [] {
      InternalUsed(left, es[1..]);
      assert InternalNode(left, es).Records()[1..] == InternalNode(left, es[1..]).Records();
    }
  }

  /** A node that fits has few entries: no count overflows its 16-bit field. */
  lemma FitsBoundsKeys(n: NodeData)
    requires n.Fits()
    ensures n.NKeys() <= 2040
  {
  }

  /** Record by record: what the next record adds, and that a longer prefix never uses less. */
  lemma PrefixUsed(recs: seq<seq<Byte>>, i: nat)
    requires i < |recs|
    ensures recs[..i][..i] + [recs[i]] + recs[..i][i..] == recs[..i + 1]
    ensures UsedBytes(recs[..i + 1]) == UsedBytes(recs[..i]) + SLOT_SIZE + |recs[i]| <= UsedBytes(recs)
  {
    assert recs[..i + 1] == recs[..i] + [recs[i]];
    TotalSplit(recs[..i], [recs[i]]);
    TotalSplit(recs[..i + 1], recs[i + 1..]);
    assert recs == recs[..i + 1] + recs[i + 1..];
  }

  // ----- the fit tests -----

  /** 32-bit unsigned addition. */
  function Add32(a: U32, b: U32): U32 {
    (a as int + b as int) % 0x1_0000_0000
  }

  /** Sizes of this entry cannot carry the 32-bit sum of `node_fits_leaf` past its end. */
  predicate Addable(e: LeafEntry) {
    EncodedSize(e.key) as int + EncodedSize(e.value) as int < 0xFFFD_0000
  }

  predicate AllAddable(es: seq<LeafEntry>) {
    forall i :: 0 <= i < |es| ==> Addable(es[i])
  }

  lemma Add32Twice(used: U32, a: U32, b: U32)
    ensures var exact := used as int + a as int + b as int;
            exact < 0x1_0000_0000 ==> Add32(used, Add32(a, b)) == exact
  {
  }

  lemma LeafPrefix(es: seq<LeafEntry>, i: nat)
    requires i < |es|
    ensures LeafCosts(es[..i + 1]) == LeafCosts(es[..i]) + LeafCost(es[i])
    ensures LeafCosts(es[..i + 1]) + (|es| - i - 1) * SLOT_SIZE <= LeafCosts(es)
  {
    assert es[..i + 1] == es[..i] + [es[i]] && es == es[..i + 1] + es[i + 1..];
    LeafCostsSplit(es[..i], [es[i]]);
    LeafCostsSplit(es[..i + 1], es[i + 1..]);
    LeafCostsAtLeast(es[i + 1..]);
  }

  lemma SepPrefix(es: seq<InternalEntry>, i: nat)
    requires i < |es|
    ensures SepCosts(es[..i + 1]) == SepCosts(es[..i]) + SepCost(es[i].key)
    ensures SepCosts(es[..i + 1]) + (|es| - i - 1) * SLOT_SIZE <= SepCosts(es)
  {
    assert es[..i + 1] == es[..i] + [es[i]] && es == es[..i + 1] + es[i + 1..];
    SepCostsSplit(es[..i], [es[i]]);
    SepCostsSplit(es[..i + 1], es[i + 1..]);
    SepCostsAtLeast(es[i + 1..]);
  }

  /** `node_fits_leaf`, with its 32-bit sum: exact unless two huge strings make the sum wrap. */
  method NodeFitsLeaf(es: seq<LeafEntry>) returns (fits: bool)
    requires |es| < 0x1_0000
    ensures LeafNode(es).Fits() ==> fits
    ensures AllAddable(es) ==> (fits <==> LeafNode(es).Fits())
  {
    var used: U32 := HEADER_SIZE + |es| * SLOT_SIZE;
    ghost var wrapped := false;
    LeafUsed(es);
    assert es[..0] == [];
    for i := 0 to |es|
      invariant !wrapped ==> used == HEADER_SIZE + LeafCosts(es[..i]) + (|es| - i) * SLOT_SIZE
      invariant wrapped ==> !AllAddable(es) && LeafCosts(es) > PAGE_SIZE
      invariant used <= PAGE_SIZE || (i == 0 && used <= 0x2_0010)
    {
      LeafPrefix(es, i);
      ghost var exact := used as int + EncodedSize(es[i].key) as int + EncodedSize(es[i].value) as int;
      assert exact >= 0x1_0000_0000 ==> !Addable(es[i]);
      wrapped := wrapped || exact >= 0x1_0000_0000;
      Add32Twice(used, EncodedSize(es[i].key), EncodedSize(es[i].value));
      used := Add32(used, Add32(EncodedSize(es[i].key), EncodedSize(es[i].value)));
      if used > PAGE_SIZE {
        return false;
      }
    }
    assert es[..|es|] == es;
    return true;
  }

  lemma {:induction false} LeafCostsAtLeast(es: seq<LeafEntry>)
    ensures LeafCosts(es) >= 12 * |es|
  {
    if es != [] { LeafCostsAtLeast(es[1..]); }
  }

  lemma {:induction false} SepCostsAtLeast(es: seq<InternalEntry>)
    ensures SepCosts(es) >= 11 * |es|
  {
    if es != [] { SepCostsAtLeast(es[1..]); }
  }

  /** `node_fits_internal`: exact. */
  method NodeFitsInternal(left: PageId, es: seq<InternalEntry>) returns (fits: bool)
    requires |es| < 0x1_0000
    ensures fits <==> InternalNode(left, es).Fits()
  {
    var used: U32 := HEADER_SIZE + |es| * SLOT_SIZE;
    InternalUsed(left, es);
    assert es[..0] == [];
    for i := 0 to |es|
      invariant used == HEADER_SIZE + SepCosts(es[..i]) + (|es| - i) * SLOT_SIZE
      invariant used <= PAGE_SIZE || (i == 0 && used <= 0x2_0010)
    {
      SepPrefix(es, i);
      assert used as int + EncodedSize(es[i].key) as int + 4 < 0x1_0000_0000;
      Add32Twice(used, EncodedSize(es[i].key), 4);
      used := Add32(used, Add32(EncodedSize(es[i].key), 4));
      if used > PAGE_SIZE {
        return false;
      }
    }
    assert es[..|es|] == es;
    return true;
  }

  // ----- writing -----

  /**
   * `encode_leaf_record`: refuses a record exactly when its true size passes 16 bits. When the 32-bit sum wraps, it
   * comes out too short for the key.
   */
  function EncodeLeafRecord(e: LeafEntry): (r: Option<seq<Byte>>)
    ensures r.Some? <==> EncodedSize(e.key) as int + EncodedSize(e.value) as int <= 0xFFFF
    ensures r.Some? ==> r.value == Encode(e.key) + Encode(e.value) && |r.value| < 0x1_0000
    ensures r.None? ==> LeafCost(e) > PAGE_SIZE
  {
    var size := Add32(EncodedSize(e.key), EncodedSize(e.value));
    if size > 0xFFFF || size < EncodedSize(e.key) || size - EncodedSize(e.key) < EncodedSize(e.value) then None
    else Some(Encode(e.key) + Encode(e.value))
  }

  /** `encode_internal_record` */
  function EncodeInternalRecord(e: InternalEntry): (r: Option<seq<Byte>>)
    ensures r.Some? <==> EncodedSize(e.key) as int + 4 <= 0xFFFF
    ensures r.Some? ==> r.value == Encode(e.key) + Le32(e.child) && |r.value| < 0x1_0000
    ensures r.None? ==> SepCost(e.key) > PAGE_SIZE
  {
    if EncodedSize(e.key) + 4 > 0xFFFF then None else Some(Encode(e.key) + Le32(e.child))
  }

  /** The page-building half of `node_write`: it succeeds exactly when the node fits. */
  method BuildPage(n: NodeData) returns (ok: bool, page: Page)
    requires n.NKeys() < 0x1_0000
    ensures ok <==> n.Fits()
    ensures ok ==> Holds(page, n.TypeByte(), n.LeftChild(), n.Records())
  {
    var buf := new Byte[PAGE_SIZE](_ => 0);
    PageInit(buf, n.TypeByte(), n.LeftChild());
    ghost var recs := n.Records();
    assert recs[..0] == [];
    for i := 0 to n.NKeys()
      invariant Holds(buf[..], n.TypeByte(), n.LeftChild(), recs[..i])
    {
      PrefixUsed(recs, i);
      var rec := if n.LeafNode? then EncodeLeafRecord(n.entries[i]) else EncodeInternalRecord(n.seps[i]);
      if rec.None? {
        return false, ZeroPage();
      }
      var placed := PageAddRecord(buf, i, rec.value, n.TypeByte(), n.LeftChild(), recs[..i]);
      if !placed {
        return false, ZeroPage();
      }
    }
    assert recs[..n.NKeys()] == recs;
    return true, buf[..];
  }

  // ----- loading -----

  function SlotOffset(page: Page, i: nat): U16
    requires HEADER_SIZE + SLOT_SIZE * (i + 1) <= PAGE_SIZE
  {
    ReadU16(page, HEADER_SIZE + SLOT_SIZE * i)
  }

  function DecodeLeafAt(page: Page, off: nat): Option<LeafEntry> {
    if off >= PAGE_SIZE then None
    else match Decode(page[off..])
         case None => None
         case Some(key) =>
           match Decode(page[off..][key.used..])
           case None => None
           case Some(value) => Some(LeafEntry(key.atom, value.atom))
  }

  function DecodeInternalAt(page: Page, off: nat): Option<InternalEntry> {
    if off >= PAGE_SIZE then None
    else match Decode(page[off..])
         case None => None
         case Some(key) =>
           if |page[off..]| - key.used < 4 then None
           else Some(InternalEntry(key.atom, ReadU32(page[off..], key.used)))
  }

  /** All entries, if every one of them decoded. */
  function Collect<T>(at: seq<Option<T>>): (r: Option<seq<T>>)
    ensures r.Some? ==> |r.value| == |at|
  {
    if at == [] then Some([])
    else match Collect(at[..|at| - 1])
         case None => None
         case Some(es) => if at[|at| - 1].None? then None else Some(es + [at[|at| - 1].value])
  }

  lemma {:induction false} CollectAll<T>(at: seq<Option<T>>, es: seq<T>)
    requires |at| == |es| && forall i :: 0 <= i < |at| ==> at[i] == Some(es[i])
    ensures Collect(at) == Some(es)
  {
    if at != [] {
      CollectAll(at[..|at| - 1], es[..|at| - 1]);
      assert es == es[..|at| - 1] + [es[|at| - 1]];
    } else {
      assert es == [];
    }
  }

  lemma {:induction false} CollectStops<T>(at: seq<Option<T>>, i: nat)
    requires i < |at| && at[i].None?
    ensures Collect(at).None?
  {
    if i < |at| - 1 { CollectStops(at[..|at| - 1], i); }
  }

  function LeafSlots(page: Page, n: nat): (at: seq<Option<LeafEntry>>)
    requires HEADER_SIZE + SLOT_SIZE * n <= PAGE_SIZE
    ensures |at| == n && forall i :: 0 <= i < n ==> at[i] == DecodeLeafAt(page, SlotOffset(page, i))
  {
    seq(n, i requires 0 <= i < n => DecodeLeafAt(page, SlotOffset(page, i)))
  }

  function InternalSlots(page: Page, n: nat): (at: seq<Option<InternalEntry>>)
    requires HEADER_SIZE + SLOT_SIZE * n <= PAGE_SIZE
    ensures |at| == n && forall i :: 0 <= i < n ==> at[i] == DecodeInternalAt(page, SlotOffset(page, i))
  {
    seq(n, i requires 0 <= i < n => DecodeInternalAt(page, SlotOffset(page, i)))
  }

  /** What the header tells `node_load`: node type and entry count of a loadable page. */
  predicate Loadable(page: Page) {
    && (page[0] == TYPE_LEAF || page[0] == TYPE_INTERNAL)
    && HEADER_SIZE <= ReadU16(page, 4) <= PAGE_SIZE
    && HEADER_SIZE <= ReadU16(page, 6) <= PAGE_SIZE
    && HEADER_SIZE + SLOT_SIZE * ReadU16(page, 2) <= PAGE_SIZE
  }

  /** The node a page decodes to, if any. */
  function LoadPage(page: Page): Option<NodeData> {
    if !Loadable(page) then None
    else if page[0] == TYPE_LEAF then
      match Collect(LeafSlots(page, ReadU16(page, 2)))
      case None => None
      case Some(es) => Some(LeafNode(es))
    else
      match Collect(InternalSlots(page, ReadU16(page, 2)))
      case None => None
      case Some(es) => Some(InternalNode(ReadU32(page, 8), es))
  }

  method LoadNode(page: Page) returns (r: Option<NodeData>)
    ensures r == LoadPage(page)
  {
    if !Loadable(page) {
      return None;
    }
    if page[0] == TYPE_LEAF {
      var es := LoadLeaf(page, ReadU16(page, 2));
      r := if es.None? then None else Some(LeafNode(es.value));
    } else {
      var es := LoadInternal(page, ReadU16(page, 2));
      r := if es.None? then None else Some(InternalNode(ReadU32(page, 8), es.value));
    }
  }

  method LoadLeaf(page: Page, n: nat) returns (r: Option<seq<LeafEntry>>)
    requires HEADER_SIZE + SLOT_SIZE * n <= PAGE_SIZE
    ensures r == Collect(LeafSlots(page, n))
  {
    var es: seq<LeafEntry> := [];
    ghost var at := LeafSlots(page, n);
    for i := 0 to n
      invariant Collect(at[..i]) == Some(es)
    {
      var e := DecodeLeafAt(page, SlotOffset(page, i));
      assert at[..i + 1][..i] == at[..i];
      if e.None? {
        CollectStops(at, i);
        return None;
      }
      es := es + [e.value];
    }
    assert at[..n] == at;
    return Some(es);
  }

  method LoadInternal(page: Page, n: nat) returns (r: Option<seq<InternalEntry>>)
    requires HEADER_SIZE + SLOT_SIZE * n <= PAGE_SIZE
    ensures r == Collect(InternalSlots(page, n))
  {
    var es: seq<InternalEntry> := [];
    ghost var at := InternalSlots(page, n);
    for i := 0 to n
      invariant Collect(at[..i]) == Some(es)
    {
      var e := DecodeInternalAt(page, SlotOffset(page, i));
      assert at[..i + 1][..i] == at[..i];
      if e.None? {
        CollectStops(at, i);
        return None;
      }
      es := es + [e.value];
    }
    assert at[..n] == at;
    return Some(es);
  }

  // ----- loading undoes writing -----

  lemma DecodeLeafBack(page: Page, off: nat, e: LeafEntry)
    requires var rec := Encode(e.key) + Encode(e.value);
             off + |rec| <= PAGE_SIZE && page[off..off + |rec|] == rec
    ensures DecodeLeafAt(page, off) == Some(e)
  {
    var rec := Encode(e.key) + Encode(e.value);
    var s := page[off..];
    assert s == rec + s[|rec|..];
    assert s == Encode(e.key) + (Encode(e.value) + s[|rec|..]);
    DecodeEncode(e.key, Encode(e.value) + s[|rec|..]);
    assert s[EncodedSize(e.key)..] == Encode(e.value) + s[|rec|..];
    DecodeEncode(e.value, s[|rec|..]);
  }

  lemma DecodeInternalBack(page: Page, off: nat, e: InternalEntry)
    requires var rec := Encode(e.key) + Le32(e.child);
             off + |rec| <= PAGE_SIZE && page[off..off + |rec|] == rec
    ensures DecodeInternalAt(page, off) == Some(e)
  {
    var rec := Encode(e.key) + Le32(e.child);
    var s := page[off..];
    assert s == rec + s[|rec|..];
    assert s == Encode(e.key) + (Le32(e.child) + s[|rec|..]);
    DecodeEncode(e.key, Le32(e.child) + s[|rec|..]);
    assert s[EncodedSize(e.key)..EncodedSize(e.key) + 4] == Le32(e.child);
    Read32Back(s, EncodedSize(e.key), e.child);
  }

  lemma WrittenSlot(page: Page, n: NodeData, i: nat)
    requires Holds(page, n.TypeByte(), n.LeftChild(), n.Records()) && i < n.NKeys()
    ensures HEADER_SIZE + SLOT_SIZE * (i + 1) <= PAGE_SIZE
    ensures var off := SlotOffset(page, i);
            off + |n.Record(i)| <= PAGE_SIZE && page[off..off + |n.Record(i)|] == n.Record(i)
  {
    var recs := n.Records();
    assert SlotHolds(page, i, PAGE_SIZE - Total(recs), recs[i]);
  }

  lemma LeafSlotBack(page: Page, es: seq<LeafEntry>, i: nat)
    requires i < |es|
    requires Holds(page, TYPE_LEAF, 0, LeafNode(es).Records())
    ensures HEADER_SIZE + SLOT_SIZE * (i + 1) <= PAGE_SIZE
    ensures DecodeLeafAt(page, SlotOffset(page, i)) == Some(es[i])
  {
    WrittenSlot(page, LeafNode(es), i);
    DecodeLeafBack(page, SlotOffset(page, i), es[i]);
  }

  lemma InternalSlotBack(page: Page, left: PageId, es: seq<InternalEntry>, i: nat)
    requires i < |es|
    requires Holds(page, TYPE_INTERNAL, left, InternalNode(left, es).Records())
    ensures HEADER_SIZE + SLOT_SIZE * (i + 1) <= PAGE_SIZE
    ensures DecodeInternalAt(page, SlotOffset(page, i)) == Some(es[i])
  {
    WrittenSlot(page, InternalNode(left, es), i);
    DecodeInternalBack(page, SlotOffset(page, i), es[i]);
  }

  /** Loading a written page gives back the type, the left child and the entries in order. */
  lemma LoadWritten(page: Page, n: NodeData)
    requires Holds(page, n.TypeByte(), n.LeftChild(), n.Records())
    ensures LoadPage(page) == Some(n)
  {
    match n
    case LeafNode(es) =>
      forall j | 0 <= j < |es| {
        LeafSlotBack(page, es, j);
      }
      CollectAll(LeafSlots(page, |es|), es);
    case InternalNode(left, es) =>
      forall j | 0 <= j < |es| {
        InternalSlotBack(page, left, es, j);
      }
      CollectAll(InternalSlots(page, |es|), es);
  }
}
