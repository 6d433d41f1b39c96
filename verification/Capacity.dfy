/** Room in pages: when both halves of an overfull node fit, and how many separators a page must hold. */
module Capacity {
  import opened Bytes
  import opened Atoms
  import opened SlottedPage
  import opened Nodes

  const BODY := PAGE_SIZE - HEADER_SIZE
  const SMALL_RECORD := 216
  const SMALL_SEPARATOR := 214
  const SMALL_KEY := 2034

  /** Leaf record and separator of the entry are small, slots included. */
  ghost predicate SmallEntry(e: LeafEntry) {
    LeafCost(e) <= SMALL_RECORD && SepCost(e.key) <= SMALL_SEPARATOR
  }

  ghost predicate SmallEntries(s: seq<LeafEntry>) {
    forall e :: e in s ==> SmallEntry(e)
  }

  /** Every key takes at most 2034 bytes encoded, so any two separators fit a page. */
  ghost predicate ShortKeys(s: seq<LeafEntry>) {
    forall e :: e in s ==> EncodedSize(e.key) <= SMALL_KEY
  }

  /** All keys take the same number of bytes, as numbers do. */
  ghost predicate UniformKeys(s: seq<LeafEntry>) {
    forall e, f :: e in s && f in s ==> EncodedSize(e.key) == EncodedSize(f.key)
  }

  lemma TimesNext(c: nat, n: nat)
    requires n > 0
    ensures c * n == c + c * (n - 1)
  {
  }

  lemma {:induction false} LeafCostsAtMost(es: seq<LeafEntry>, c: nat)
    requires forall i :: 0 <= i < |es| ==> LeafCost(es[i]) <= c
    ensures LeafCosts(es) <= c * |es|
  {
    if es != [] {
      LeafCostsAtMost(es[1..], c);
      TimesNext(c, |es|);
    }
  }

  lemma {:induction false} SepCostsAtMost(es: seq<InternalEntry>, c: nat)
    requires forall i :: 0 <= i < |es| ==> SepCost(es[i].key) <= c
    ensures SepCosts(es) <= c * |es|
  {
    if es != [] {
      SepCostsAtMost(es[1..], c);
      TimesNext(c, |es|);
    }
  }

  lemma LeafHalvesCosts(all: seq<LeafEntry>, mid: nat)
    requires mid <= |all| && forall i :: 0 <= i < |all| ==> LeafCost(all[i]) <= SMALL_RECORD
    ensures LeafCosts(all) == LeafCosts(all[..mid]) + LeafCosts(all[mid..])
    ensures 12 * mid <= LeafCosts(all[..mid]) <= SMALL_RECORD * mid
    ensures 12 * (|all| - mid) <= LeafCosts(all[mid..]) <= SMALL_RECORD * (|all| - mid)
  {
    assert all == all[..mid] + all[mid..];
    LeafCostsSplit(all[..mid], all[mid..]);
    LeafCostsAtLeast(all[..mid]);
    LeafCostsAtLeast(all[mid..]);
    LeafCostsAtMost(all[..mid], SMALL_RECORD);
    LeafCostsAtMost(all[mid..], SMALL_RECORD);
  }

  lemma LeafArithmetic(n: nat, mid: nat, a: nat, b: nat)
    requires mid == n / 2 && BODY < a + b <= BODY + SMALL_RECORD
    requires 12 * mid <= a <= SMALL_RECORD * mid && 12 * (n - mid) <= b <= SMALL_RECORD * (n - mid)
    ensures n >= 2 && a <= BODY && b <= BODY
  {
  }

  /** One small record too many: splitting the leaf by count leaves two halves that fit. */
  lemma LeafHalvesFit(all: seq<LeafEntry>)
    requires forall i :: 0 <= i < |all| ==> LeafCost(all[i]) <= SMALL_RECORD
    requires BODY < LeafCosts(all) <= BODY + SMALL_RECORD
    ensures |all| >= 2
    ensures LeafNode(all[..|all| / 2]).Fits() && LeafNode(all[|all| / 2..]).Fits()
  {
    var mid := |all| / 2;
    LeafHalvesCosts(all, mid);
    LeafArithmetic(|all|, mid, LeafCosts(all[..mid]), LeafCosts(all[mid..]));
    LeafUsed(all[..mid]);
    LeafUsed(all[mid..]);
  }

  lemma OneSep(e: InternalEntry)
    ensures SepCosts([e]) == SepCost(e.key)
  {
    assert [e][1..] == [];
    assert SepCosts([e]) == SepCost(e.key) + SepCosts([]);
  }

  lemma SepHalvesCosts(all: seq<InternalEntry>, mid: nat)
    requires mid < |all| && forall i :: 0 <= i < |all| ==> SepCost(all[i].key) <= SMALL_SEPARATOR
    ensures SepCosts(all) == SepCosts(all[..mid]) + SepCost(all[mid].key) + SepCosts(all[mid + 1..])
    ensures 11 * mid <= SepCosts(all[..mid]) <= SMALL_SEPARATOR * mid
    ensures 11 * (|all| - mid - 1) <= SepCosts(all[mid + 1..]) <= SMALL_SEPARATOR * (|all| - mid - 1)
  {
    assert all == all[..mid] + [all[mid]] + all[mid + 1..];
    SepCostsSplit(all[..mid] + [all[mid]], all[mid + 1..]);
    SepCostsSplit(all[..mid], [all[mid]]);
    OneSep(all[mid]);
    SepCostsAtLeast(all[..mid]);
    SepCostsAtLeast(all[mid + 1..]);
    SepCostsAtMost(all[..mid], SMALL_SEPARATOR);
    SepCostsAtMost(all[mid + 1..], SMALL_SEPARATOR);
  }

  lemma SepArithmetic(n: nat, mid: nat, a: nat, m: nat, b: nat)
    requires mid == n / 2 < n && BODY < a + m + b <= BODY + SMALL_SEPARATOR && 11 <= m <= SMALL_SEPARATOR
    requires 11 * mid <= a <= SMALL_SEPARATOR * mid && 11 * (n - mid - 1) <= b <= SMALL_SEPARATOR * (n - mid - 1)
    ensures n >= 2 && a <= BODY && b <= BODY
  {
  }

  /** One small separator too many: the halves left and right of the promoted separator fit. */
  lemma SepHalvesFit(left: PageId, right: PageId, all: seq<InternalEntry>)
    requires forall i :: 0 <= i < |all| ==> SepCost(all[i].key) <= SMALL_SEPARATOR
    requires BODY < SepCosts(all) <= BODY + SMALL_SEPARATOR
    ensures |all| >= 2
    ensures InternalNode(left, all[..|all| / 2]).Fits() && InternalNode(right, all[|all| / 2 + 1..]).Fits()
  {
    var mid := |all| / 2;
    assert all != [];
    SepHalvesCosts(all, mid);
    SepArithmetic(|all|, mid, SepCosts(all[..mid]), SepCost(all[mid].key), SepCosts(all[mid + 1..]));
    InternalUsed(left, all[..mid]);
    InternalUsed(right, all[mid + 1..]);
  }

  /** Separators of short keys overflow a page only three at a time, so both halves keep one. */
  lemma ShortSepsSplit(left: PageId, all: seq<InternalEntry>)
    requires forall i :: 0 <= i < |all| ==> EncodedSize(all[i].key) <= SMALL_KEY
    requires !InternalNode(left, all).Fits()
    ensures |all| >= 3
  {
    InternalUsed(left, all);
    SepCostsAtMost(all, SMALL_KEY + 6);
  }

  /** An overfull node with sorted separators, its halves by count, and one of them without a separator. */
  ghost predicate SplitsBare(left: PageId, all: seq<InternalEntry>) {
    var mid := |all| / 2;
    && !InternalNode(left, all).Fits() && mid > 0
    && (forall i, j :: 0 <= i < j < |all| ==> Compare(all[i].key, all[j].key) < 0)
    && InternalNode(left, all[..mid]).Fits() && InternalNode(all[mid].child, all[mid + 1..]).Fits()
    && (all[..mid] == [] || all[mid + 1..] == [])
  }

  ghost predicate KeysWithin(all: seq<InternalEntry>, k: nat) {
    forall i :: 0 <= i < |all| ==> EncodedSize(all[i].key) <= k
  }

  /** Only the split of exactly two separators leaves a half without any. */
  lemma BareIsTwo(left: PageId, all: seq<InternalEntry>)
    requires SplitsBare(left, all)
    ensures |all| == 2 && all[|all| / 2 + 1..] == []
  {
  }

  function KeyOfSize(k: nat, last: Byte): Atom
    requires 6 <= k < 0x1_0000
  {
    Str(seq(k - 6, i => 0) + [last])
  }

  lemma KeysOfSize(k: nat)
    requires 6 <= k < 0x1_0000
    ensures EncodedSize(KeyOfSize(k, 0)) == EncodedSize(KeyOfSize(k, 1)) == k
    ensures Compare(KeyOfSize(k, 0), KeyOfSize(k, 1)) < 0
  {
    var zeros: seq<Byte> := seq(k - 6, i => 0);
    LastDecides(zeros);
    MemcmpIsLex(zeros + [0], zeros + [1]);
  }

  lemma {:induction false} LastDecides(s: seq<Byte>)
    ensures LexCompare(s + [0], s + [1]) < 0
  {
    if s != [] {
      LastDecides(s[1..]);
      assert (s + [0])[1..] == s[1..] + [0] && (s + [1])[1..] == s[1..] + [1];
    }
  }

  lemma LongSepsSplit() returns (all: seq<InternalEntry>)
    ensures KeysWithin(all, SMALL_KEY + 1) && SplitsBare(0, all)
  {
    var a, b := InternalEntry(KeyOfSize(SMALL_KEY + 1, 0), 0), InternalEntry(KeyOfSize(SMALL_KEY + 1, 1), 0);
    all := [a, b];
    KeysOfSize(SMALL_KEY + 1);
    hide KeyOfSize, Compare;
    OneSep(a);
    OneSep(b);
    SepCostsSplit([a], [b]);
    InternalUsed(0, all);
    InternalUsed(0, [a]);
    InternalUsed(0, []);
    assert all == [a] + [b] && all[..1] == [a] && all[2..] == [];
  }

  /** Among keys of at most k bytes a split can leave a half without separators exactly when k passes 2034. */
  lemma BareSplitsFrom(k: nat)
    ensures (exists left, all :: KeysWithin(all, k) && SplitsBare(left, all)) <==> k > SMALL_KEY
  {
    if k > SMALL_KEY {
      var all := LongSepsSplit();
      assert KeysWithin(all, k);
    } else {
      forall left, all | KeysWithin(all, k) && SplitsBare(left, all)
        ensures false
      {
        ShortSepsSplit(left, all);
        BareIsTwo(left, all);
      }
    }
  }

  /** Replacing a separator by one of the same size does not change the space used. */
  lemma {:induction false} SameSizeSeps(a: seq<InternalEntry>, b: seq<InternalEntry>)
    requires |a| == |b| && forall i :: 0 <= i < |a| ==> EncodedSize(a[i].key) == EncodedSize(b[i].key)
    ensures SepCosts(a) == SepCosts(b)
  {
    if a != [] { SameSizeSeps(a[1..], b[1..]); }
  }
}
