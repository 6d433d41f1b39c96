/** When the store refuses an operation for lack of room in a page, told from the tree beforehand. */
module BTreeRefusal {
  import opened Bytes
  import opened Atoms
  import opened SlottedPage
  import opened Nodes
  import opened OrderedEntries
  import opened BTreeShape
  import opened Capacity

  // ----- deletion -----

  /**
   * The key is the separator of a child that keeps other entries, and the node overflows with the next key in its
   * place.
   */
  ghost predicate RekeyOverflows(t: Tree, s: nat, key: Atom)
    requires t.Node? && 0 < s <= |t.kids|
  {
    var c := Contents(t.kids[s - 1].sub);
    && |c| >= 2 && Compare(key, c[0].key) == 0
    && !InternalNode(t.left.page, Seps(t.kids)[s - 1 := InternalEntry(c[1].key, t.kids[s - 1].sub.page)]).Fits()
  }

  /** That happens at some node of the tree. */
  ghost predicate DeleteOverflows(t: Tree, key: Atom)
    decreases t
  {
    t.Node? &&
    (DeleteOverflows(t.left, key)
     || exists s: nat :: 0 < s <= |t.kids| && (RekeyOverflows(t, s, key) || DeleteOverflows(t.kids[s - 1].sub, key)))
  }

  ghost predicate HasKey(s: seq<LeafEntry>, key: Atom) {
    exists i :: 0 <= i < |s| && Compare(key, s[i].key) == 0
  }

  /** Whatever entry has the key, the entry behind it has no longer key. */
  ghost predicate NextNotLonger(s: seq<LeafEntry>, key: Atom) {
    forall i :: 0 <= i < |s| - 1 && Compare(key, s[i].key) == 0 ==> EncodedSize(s[i + 1].key) <= EncodedSize(s[i].key)
  }

  /** In a sorted list the search finds every key that is there. */
  lemma HasKeyHas(s: seq<LeafEntry>, key: Atom)
    requires Sorted(s) && HasKey(s, key)
    ensures Has(s, key)
  {
    var a, m, c := FindAround(s, key);
    AroundBound(s, key, a, m, c);
    var i :| 0 <= i < |s| && Compare(key, s[i].key) == 0;
    CompareFlips(key, s[i].key);
    if m == [] {
      assert false;
    }
  }

  /** Deleting a missing key cannot overflow. */
  lemma MissingFits(t: Tree, key: Atom)
    requires Sorted(Contents(t)) && !Has(Contents(t), key)
    ensures !DeleteOverflows(t, key)
  {
    hide *;
    if DeleteOverflows(t, key) {
      OverflowsHas(t, key);
      HasKeyHas(Contents(t), key);
    }
  }

  lemma PartKeys(a: seq<LeafEntry>, b: seq<LeafEntry>, c: seq<LeafEntry>, key: Atom)
    ensures HasKey(b, key) ==> HasKey(a + b + c, key)
    ensures NextNotLonger(a + b + c, key) ==> NextNotLonger(b, key)
  {
    var s := a + b + c;
    assert forall i :: 0 <= i < |b| ==> s[|a| + i] == b[i];
    if NextNotLonger(s, key) {
      forall i | 0 <= i < |b| - 1 && Compare(key, b[i].key) == 0
        ensures EncodedSize(b[i + 1].key) <= EncodedSize(b[i].key)
      {
        assert s[|a| + i] == b[i] && s[|a| + i + 1] == b[i + 1];
      }
    }
  }

  lemma OverflowsIn(t: Tree, s: nat, key: Atom)
    requires t.Node? && 0 < s <= |t.kids| && (RekeyOverflows(t, s, key) || DeleteOverflows(t.kids[s - 1].sub, key))
    ensures DeleteOverflows(t, key)
  {
  }

  /** Where it overflows: at a child, or in it. */
  ghost predicate OverflowsVia(t: Tree, q: nat, key: Atom) {
    t.Node? && q <= |t.kids| && (DeleteOverflows(Child(t, q), key) || (q > 0 && RekeyOverflows(t, q, key)))
  }

  lemma Via(t: Tree, key: Atom) returns (q: nat)
    requires DeleteOverflows(t, key)
    ensures OverflowsVia(t, q, key)
  {
    hide RekeyOverflows;
    if DeleteOverflows(t.left, key) {
      q := 0;
    } else {
      var s: nat :| 0 < s <= |t.kids| && (RekeyOverflows(t, s, key) || DeleteOverflows(t.kids[s - 1].sub, key));
      q := s;
    }
  }

  lemma ViaIs(t: Tree, q: nat, key: Atom)
    requires OverflowsVia(t, q, key)
    ensures DeleteOverflows(t, key)
  {
    hide RekeyOverflows;
    if q > 0 { OverflowsIn(t, q, key); }
  }

  /** Only deleting a key that is there overflows. */
  lemma {:induction false} OverflowsHas(t: Tree, key: Atom)
    requires DeleteOverflows(t, key)
    ensures HasKey(Contents(t), key)
    decreases t
  {
    var q := Via(t, key);
    hide RekeyOverflows, HasKey;
    if q > 0 && RekeyOverflows(t, q, key) {
      RekeyHas(t, q, key);
    } else {
      assert q > 0 ==> t.kids[q - 1] in t.kids && t.kids[q - 1].sub < t.kids[q - 1];
      OverflowsHas(Child(t, q), key);
    }
    ChildHas(t, q, key);
  }

  lemma RekeyHas(t: Tree, s: nat, key: Atom)
    requires t.Node? && 0 < s <= |t.kids| && RekeyOverflows(t, s, key)
    ensures HasKey(Contents(t.kids[s - 1].sub), key)
  {
    hide NodeData.Fits;
  }

  lemma ChildHas(t: Tree, s: nat, key: Atom)
    requires t.Node? && s <= |t.kids|
    ensures HasKey(Contents(Child(t, s)), key) ==> HasKey(Contents(t), key)
    ensures NextNotLonger(Contents(t), key) ==> NextNotLonger(Contents(Child(t, s)), key)
  {
    hide HasKey, NextNotLonger;
    AroundChild(t, s);
    PartKeys(Before(t, s), Contents(Child(t, s)), After(t, s), key);
  }

  /** The other children do not have the key. */
  lemma OnlyRouted(t: Tree, s: nat, q: nat, key: Atom)
    requires t.Node? && s <= |t.kids| && q <= |t.kids| && q != s
    requires AllBelow(Before(t, s), key) && AllAbove(After(t, s), key)
    ensures !HasKey(Contents(Child(t, q)), key)
  {
    var c := Contents(Child(t, q));
    if q < s {
      BeforeHas(t, s, q);
    } else {
      AfterHas(t, s, q);
    }
    forall i | 0 <= i < |c|
      ensures Compare(key, c[i].key) != 0
    {
      CompareFlips(key, c[i].key);
      assert c[i] in c;
    }
  }

  lemma BeforeHas(t: Tree, s: nat, q: nat)
    requires t.Node? && q < s <= |t.kids|
    ensures forall e :: e in Contents(Child(t, q)) ==> e in Before(t, s)
  {
    if q > 0 {
      var kids := t.kids[..s - 1];
      KidsHold(kids, q - 1);
    }
  }

  lemma AfterHas(t: Tree, s: nat, q: nat)
    requires t.Node? && s < q <= |t.kids|
    ensures forall e :: e in Contents(Child(t, q)) ==> e in After(t, s)
  {
    KidsHold(t.kids[s..], q - s - 1);
  }

  lemma KidsHold(kids: seq<Kid>, i: nat)
    requires i < |kids|
    ensures forall e :: e in Contents(kids[i].sub) ==> e in KidsContents(kids)
  {
    assert kids == kids[..i] + kids[i..];
    KidsSplit(kids[..i], kids[i..]);
    assert kids[i..][0] == kids[i];
    assert KidsContents(kids[i..]) == Contents(kids[i].sub) + KidsContents(kids[i..][1..]);
  }

  /** Along the route of the key: it overflows below the child, or at this node. */
  lemma OverflowsAt(t: Tree, s: nat, key: Atom)
    requires t.Node? && s <= |t.kids|
    requires AllBelow(Before(t, s), key) && AllAbove(After(t, s), key)
    ensures DeleteOverflows(t, key) <==> DeleteOverflows(Child(t, s), key) || (s > 0 && RekeyOverflows(t, s, key))
  {
    hide RekeyOverflows, HasKey, AllBelow, AllAbove, DeleteOverflows;
    if DeleteOverflows(t, key) {
      var q := Via(t, key);
      if q > 0 && RekeyOverflows(t, q, key) { RekeyHas(t, q, key); } else { OverflowsHas(Child(t, q), key); }
      if s != q { OnlyRouted(t, s, q, key); }
    } else if OverflowsVia(t, s, key) {
      ViaIs(t, s, key);
    }
  }

  /** The first entry and what a deletion makes of it. */
  lemma FirstRemoved(c: seq<LeafEntry>, key: Atom)
    requires c != [] && Has(c, key)
    ensures Compare(key, c[0].key) == 0 <==> LowerBound(c, key) == 0
    ensures LowerBound(c, key) == 0 ==> Remove(c, key) == c[1..]
    ensures LowerBound(c, key) > 0 ==> Remove(c, key) != [] && Remove(c, key)[0] == c[0]
  {
    CompareFlips(key, c[0].key);
  }

  lemma SepsFit(left: PageId, seps: seq<InternalEntry>)
    ensures InternalNode(left, seps).Fits() <==> SepCosts(seps) <= BODY
  {
    InternalUsed(left, seps);
  }

  /** The node with a repaired separator fits exactly when the deletion does not overflow it. */
  lemma RekeyedFits(t: Tree, s: nat, c: Tree, key: Atom)
    requires t.Node? && s <= |t.kids| && ShapeBelow(t) && NodeOf(t).Fits()
    requires Has(Contents(Child(t, s)), key) && Contents(c) == Remove(Contents(Child(t, s)), key) && Contents(c) != []
    ensures NodeOf(Rekeyed(t, s, c)).Fits() <==> !(s > 0 && RekeyOverflows(t, s, key))
  {
    hide NodeData.Fits, SepCosts, Has, Remove, LowerBound;
    var seps, n := Seps(t.kids), NodeOf(Rekeyed(t, s, c));
    if s > 0 {
      assert KidOk(t.kids[s - 1]) by { assert t.kids[s - 1] in t.kids; }
      var old_ := Contents(t.kids[s - 1].sub);
      FirstRemoved(old_, key);
      assert n.seps == seps[s - 1 := InternalEntry(Contents(c)[0].key, c.page)];
      if Compare(key, old_[0].key) == 0 {
        assert old_[1..][0] == old_[1];
        var m := seps[s - 1 := InternalEntry(old_[1].key, t.kids[s - 1].sub.page)];
        SameSizeSeps(m, n.seps);
        SepsFit(t.left.page, m);
      } else {
        SameSizeSeps(seps, n.seps);
      }
    } else {
      SameSizeSeps(seps, n.seps);
    }
    SepsFit(t.left.page, seps);
    SepsFit(n.left, n.seps);
  }

  /** A shorter separator in the place of another cannot overflow a node. */
  lemma ShorterFits(seps: seq<InternalEntry>, i: nat, e: InternalEntry)
    requires i < |seps| && EncodedSize(e.key) <= EncodedSize(seps[i].key)
    ensures SepCosts(seps[i := e]) <= SepCosts(seps)
  {
    var a, c := seps[..i], seps[i + 1..];
    assert seps == a + [seps[i]] + c && seps[i := e] == a + [e] + c;
    SepCostsSplit(a + [seps[i]], c);
    SepCostsSplit(a, [seps[i]]);
    SepCostsSplit(a + [e], c);
    SepCostsSplit(a, [e]);
    OneSep(e);
    OneSep(seps[i]);
  }

  /** No deletion is refused whose next key is not longer than the deleted one. */
  lemma {:induction false} NextFits(t: Tree, key: Atom)
    requires Shape(t) && NextNotLonger(Contents(t), key)
    ensures !DeleteOverflows(t, key)
    decreases t
  {
    hide NextNotLonger, NodeData.Fits, RekeyOverflows;
    if t.Node? {
      ChildHas(t, 0, key);
      NextFits(t.left, key);
      forall s: nat | 0 < s <= |t.kids|
        ensures !RekeyOverflows(t, s, key) && !DeleteOverflows(t.kids[s - 1].sub, key)
      {
        assert t.kids[s - 1] in t.kids && t.kids[s - 1].sub < t.kids[s - 1];
        ChildHas(t, s, key);
        NextFits(t.kids[s - 1].sub, key);
        NextFitsHere(t, s, key);
      }
    }
  }

  lemma NextFitsHere(t: Tree, s: nat, key: Atom)
    requires t.Node? && 0 < s <= |t.kids| && KidOk(t.kids[s - 1]) && NodeOf(t).Fits()
    requires NextNotLonger(Contents(t.kids[s - 1].sub), key)
    ensures !RekeyOverflows(t, s, key)
  {
    hide NodeData.Fits;
    var c, seps := Contents(t.kids[s - 1].sub), Seps(t.kids);
    if |c| >= 2 && Compare(key, c[0].key) == 0 {
      var e := InternalEntry(c[1].key, t.kids[s - 1].sub.page);
      ShorterFits(seps, s - 1, e);
      SepsFit(t.left.page, seps);
      SepsFit(t.left.page, seps[s - 1 := e]);
    }
  }

  /** Among keys of one size every next key will do. */
  lemma UniformNext(s: seq<LeafEntry>, key: Atom)
    requires UniformKeys(s)
    ensures NextNotLonger(s, key)
  {
    assert forall i :: 0 <= i < |s| ==> s[i] in s;
  }

  // ----- insertion -----

  /** What an insertion does to a page: refused, stored in one page, or split in two with a key for the parent. */
  datatype Outcome = Refused | Whole | Halves(promoted: Atom)

  /** A leaf with the new entry; an overwrite never splits. */
  ghost function LeafOutcome(all: seq<LeafEntry>, overwrite: bool): Outcome {
    var mid := |all| / 2;
    if LeafNode(all).Fits() then Whole
    else if !overwrite && mid > 0 && LeafNode(all[..mid]).Fits() && LeafNode(all[mid..]).Fits() then Halves(all[mid].key)
    else Refused
  }

  /** A node with a new separator. */
  ghost function NodeOutcome(left: PageId, all: seq<InternalEntry>): Outcome {
    var mid := |all| / 2;
    if InternalNode(left, all).Fits() then Whole
    else if mid > 0 && InternalNode(left, all[..mid]).Fits() && InternalNode(all[mid].child, all[mid + 1..]).Fits() then Halves(all[mid].key)
    else Refused
  }

  /** The child where the key belongs: behind the last separator not above it. */
  ghost function Route(kids: seq<Kid>, key: Atom): (s: nat)
    ensures s <= |kids|
  {
    if kids == [] || Compare(key, kids[0].key) < 0 then 0 else 1 + Route(kids[1..], key)
  }

  /** The separators with the one a split child sends up. */
  ghost function WithSep(t: Tree, s: nat, key: Atom): seq<InternalEntry>
    requires t.Node? && s <= |t.kids|
  {
    Seps(t.kids)[..s] + [InternalEntry(key, 0)] + Seps(t.kids)[s..]
  }

  /** What storing the key in the tree comes to, by the sizes in the pages alone. */
  ghost function PutOutcome(t: Tree, key: Atom, value: Atom): Outcome
    decreases t
  {
    match t
    case Leaf(_, entries) => LeafOutcome(Put(entries, key, value), Has(entries, key))
    case Node(_, left, kids) =>
      var s := Route(kids, key);
      match if s == 0 then PutOutcome(left, key, value) else PutOutcome(kids[s - 1].sub, key, value)
      case Refused => Refused
      case Whole => Whole
      case Halves(promoted) => NodeOutcome(left.page, WithSep(t, s, promoted))
  }

  // ----- nodes without separators -----

  ghost predicate LoneKey(entries: seq<LeafEntry>, key: Atom) {
    |entries| == 1 && Compare(key, entries[0].key) == 0
  }

  /**
   * Deleting the key takes the only child of a node without separators: on the key's way down stands such a node right
   * above a leaf with that entry alone.
   */
  ghost predicate Strands(t: Tree, key: Atom)
    decreases t
  {
    t.Node? &&
    var s := Route(t.kids, key);
    || (t.kids == [] && t.left.Leaf? && LoneKey(t.left.entries, key))
    || (if s == 0 then Strands(t.left, key) else Strands(t.kids[s - 1].sub, key))
  }

  lemma StrandsBelow(t: Tree, s: nat, key: Atom)
    requires t.Node? && s <= |t.kids| && Route(t.kids, key) == s
    ensures !Strands(t, key) ==> !Strands(Child(t, s), key)
  {
  }

  /** A tree whose nodes all have separators strands no key. */
  lemma {:induction false} BranchingStrandsNone(t: Tree, key: Atom)
    requires Branching(t)
    ensures !Strands(t, key)
    decreases t
  {
    hide LoneKey;
    if t.Node? {
      var s := Route(t.kids, key);
      if s == 0 {
        BranchingStrandsNone(t.left, key);
      } else {
        assert t.kids[s - 1] in t.kids && t.kids[s - 1].sub < t.kids[s - 1];
        BranchingStrandsNone(t.kids[s - 1].sub, key);
      }
    }
  }

  /** A deletion leaves nothing exactly when the key had the only entry. */
  lemma LoneIs(entries: seq<LeafEntry>, key: Atom)
    requires Has(entries, key)
    ensures Remove(entries, key) == [] <==> LoneKey(entries, key)
  {
    if entries != [] { FirstRemoved(entries, key); }
  }

  lemma {:induction false} RouteIs(kids: seq<Kid>, s: nat, key: Atom)
    requires s <= |kids| && (s < |kids| ==> Compare(key, kids[s].key) < 0)
    requires forall i :: 0 <= i < s ==> Compare(key, kids[i].key) >= 0
    ensures Route(kids, key) == s
  {
    if s > 0 { RouteIs(kids[1..], s - 1, key); }
  }

  /** The search among the separators finds that child. */
  lemma RouteFound(t: Tree, s: nat, key: Atom)
    requires t.Node? && s <= |t.kids| && ShapeBelow(t) && Sorted(Contents(t))
    requires s > 0 ==> Compare(t.kids[s - 1].key, key) <= 0
    requires s < |t.kids| ==> Compare(key, t.kids[s].key) < 0
    ensures Route(t.kids, key) == s
  {
    RouteIsRight(t, s, key);
    hide Sorted, Contents, KidsContents, NodeData.Fits, Before, After, Compare, Route, AllBelow;
    forall i: nat | i < s
      ensures Compare(key, t.kids[i].key) >= 0
    {
      CompareFlips(key, t.kids[i].key);
      if i < s - 1 {
        KidBelow(t, s, i, key);
      }
    }
    RouteIs(t.kids, s, key);
  }

  lemma KidBelow(t: Tree, s: nat, i: nat, key: Atom)
    requires t.Node? && i + 1 < s <= |t.kids| && ShapeBelow(t) && AllBelow(Before(t, s), key)
    ensures Compare(t.kids[i].key, key) < 0
  {
    hide Compare, NodeData.Fits, Before, Shape;
    assert t.kids[i] in t.kids;
    BeforeHas(t, s, i + 1);
    assert Contents(t.kids[i].sub)[0] in Before(t, s);
  }

  /** Which pages the separators lead to does not matter. */
  lemma SameOutcome(left: PageId, all: seq<InternalEntry>, other: seq<InternalEntry>)
    requires |all| == |other| && forall i :: 0 <= i < |all| ==> all[i].key == other[i].key
    ensures NodeOutcome(left, all) == NodeOutcome(left, other)
  {
    var mid := |all| / 2;
    hide NodeData.Fits, SepCosts;
    SameSizeFits(left, left, all, other);
    if mid > 0 {
      SameSizeFits(left, left, all[..mid], other[..mid]);
      SameSizeFits(all[mid].child, other[mid].child, all[mid + 1..], other[mid + 1..]);
    }
  }

  lemma SameSizeFits(left: PageId, right: PageId, a: seq<InternalEntry>, b: seq<InternalEntry>)
    requires |a| == |b| && forall i :: 0 <= i < |a| ==> a[i].key == b[i].key
    ensures InternalNode(left, a).Fits() <==> InternalNode(right, b).Fits()
  {
    hide NodeData.Fits, SepCosts;
    SameSizeSeps(a, b);
    SepsFit(left, a);
    SepsFit(right, b);
  }

  /** What the routed child's insertion means for the node. */
  lemma OutcomeAt(t: Tree, s: nat, key: Atom, value: Atom, right: PageId)
    requires t.Node? && s <= |t.kids| && Route(t.kids, key) == s
    ensures PutOutcome(t, key, value) == match PutOutcome(Child(t, s), key, value)
                                         case Refused => Refused
                                         case Whole => Whole
                                         case Halves(promoted) =>
                                           NodeOutcome(t.left.page, Seps(t.kids)[..s] + [InternalEntry(promoted, right)] + Seps(t.kids)[s..])
  {
    hide NodeOutcome, LeafOutcome;
    match PutOutcome(Child(t, s), key, value)
    case Halves(promoted) =>
      SameOutcome(t.left.page, WithSep(t, s, promoted), Seps(t.kids)[..s] + [InternalEntry(promoted, right)] + Seps(t.kids)[s..]);
    case _ =>
  }

  /** Every first key of a tree fits a page as a separator. */
  lemma {:induction false} FirstFits(t: Tree, right: PageId)
    requires Shape(t) && Contents(t) != []
    ensures InternalNode(right, [InternalEntry(Contents(t)[0].key, right)]).Fits()
    decreases t
  {
    hide NodeData.Fits;
    match t
    case Leaf(_, entries) =>
      LeafUsed(entries);
      OneSep(InternalEntry(entries[0].key, right));
      SepsFit(right, [InternalEntry(entries[0].key, right)]);
      assert LeafNode(entries).Fits() && LeafCosts(entries) >= LeafCost(entries[0]);
      FitsIs(entries);
    case Node(_, left, _) => FirstFits(left, right);
  }

  lemma FitsIs(entries: seq<LeafEntry>)
    ensures LeafNode(entries).Fits() <==> LeafCosts(entries) <= BODY
  {
    LeafUsed(entries);
  }

  // ----- a deletion that is refused -----

  /** Three leaves behind the first one, with separators `b`, `d` and `e`; after `b` comes `c`. */
  ghost function ThreeKids(a: LeafEntry, b: LeafEntry, c: LeafEntry, d: LeafEntry, e: LeafEntry): Tree {
    Node(5, Leaf(1, [a]), [Kid(b.key, Leaf(2, [b, c])), Kid(d.key, Leaf(3, [d])), Kid(e.key, Leaf(4, [e]))])
  }

  lemma ThreeKidsAre(a: LeafEntry, b: LeafEntry, c: LeafEntry, d: LeafEntry, e: LeafEntry)
    ensures var t := ThreeKids(a, b, c, d, e);
            && Contents(t) == [a, b, c, d, e]
            && forall kid :: kid in t.kids ==> KidOk(kid) && kid.sub.Leaf?
    ensures var seps := Seps(ThreeKids(a, b, c, d, e).kids);
            && SepCosts(seps) == SepCost(b.key) + SepCost(d.key) + SepCost(e.key)
            && SepCosts(seps[0 := InternalEntry(c.key, 2)]) == SepCost(c.key) + SepCost(d.key) + SepCost(e.key)
  {
    hide SepCost, SepCosts;
    var t := ThreeKids(a, b, c, d, e);
    ThreeContents(Kid(b.key, Leaf(2, [b, c])), Kid(d.key, Leaf(3, [d])), Kid(e.key, Leaf(4, [e])));
    assert [a] + ([b, c] + [d] + [e]) == [a, b, c, d, e];
    var seps := Seps(t.kids);
    assert seps == [InternalEntry(b.key, 2), InternalEntry(d.key, 3), InternalEntry(e.key, 4)];
    assert seps[0 := InternalEntry(c.key, 2)] ==
           [InternalEntry(c.key, 2), InternalEntry(d.key, 3), InternalEntry(e.key, 4)];
    ThreeSeps(b.key, d.key, e.key);
    ThreeSeps(c.key, d.key, e.key);
  }

  lemma ThreeContents(x: Kid, y: Kid, z: Kid)
    ensures KidsContents([x, y, z]) == Contents(x.sub) + Contents(y.sub) + Contents(z.sub)
  {
    assert [x, y, z][1..] == [y, z] && [y, z][1..] == [z] && [z][1..] == [];
    assert KidsContents([z]) == Contents(z.sub) + KidsContents([]);
    assert KidsContents([y, z]) == Contents(y.sub) + KidsContents([z]);
  }

  lemma ThreeSeps(x: Atom, y: Atom, z: Atom)
    ensures SepCosts([InternalEntry(x, 2), InternalEntry(y, 3), InternalEntry(z, 4)]) ==
            SepCost(x) + SepCost(y) + SepCost(z)
  {
    hide SepCost;
    var s := [InternalEntry(x, 2), InternalEntry(y, 3), InternalEntry(z, 4)];
    OneSep(s[0]);
    OneSep(s[1]);
    OneSep(s[2]);
    SepCostsSplit([s[0]], [s[1]]);
    SepCostsSplit([s[0], s[1]], [s[2]]);
    assert s == [s[0], s[1]] + [s[2]] && [s[0], s[1]] == [s[0]] + [s[1]];
  }

  lemma FiveSorted(a: LeafEntry, b: LeafEntry, c: LeafEntry, d: LeafEntry, e: LeafEntry)
    requires Compare(a.key, b.key) < 0 && Compare(b.key, c.key) < 0 && Compare(c.key, d.key) < 0
             && Compare(d.key, e.key) < 0
    ensures Sorted([a, b, c, d, e])
  {
    CompareTransitive(a.key, b.key, c.key);
    CompareTransitive(a.key, c.key, d.key);
    CompareTransitive(a.key, d.key, e.key);
    CompareTransitive(b.key, c.key, d.key);
    CompareTransitive(b.key, d.key, e.key);
    CompareTransitive(c.key, d.key, e.key);
  }

  lemma LeavesFit(a: LeafEntry, b: LeafEntry)
    ensures LeafNode([a]).Fits() <==> LeafCost(a) <= BODY
    ensures LeafNode([a, b]).Fits() <==> LeafCost(a) + LeafCost(b) <= BODY
  {
    hide LeafCost;
    LeafUsed([a]);
    LeafUsed([a, b]);
    assert [a][1..] == [] && [a, b][1..] == [b] && [b][1..] == [];
    assert LeafCosts([b]) == LeafCost(b) + LeafCosts([]) && LeafCosts([a]) == LeafCost(a) + LeafCosts([]);
  }

  /** Deletions are refused even among short keys: the separator of 9 bytes would become one of 2000 beside another. */
  lemma OverflowExists()
    ensures exists t, key ::
              Shape(t) && Branching(t) && Sorted(Contents(t)) && ShortKeys(Contents(t)) && DeleteOverflows(t, key)
  {
    var a, b := LeafEntry(Num(0), Num(0)), LeafEntry(Num(1), Num(0));
    var c, d := LeafEntry(KeyOfSize(2000, 0), Num(0)), LeafEntry(KeyOfSize(2000, 1), Num(0));
    var e := LeafEntry(Str(seq(95, i => 2)), Num(0));
    KeysOfSize(2000);
    FiveSorted(a, b, c, d, e);
    assert Compare(b.key, b.key) == 0;
    hide *;
    FiveOverflow(a, b, c, d, e);
  }

  lemma FiveOverflow(a: LeafEntry, b: LeafEntry, c: LeafEntry, d: LeafEntry, e: LeafEntry)
    requires Sorted([a, b, c, d, e]) && Compare(b.key, b.key) == 0
    requires forall x :: x in [a, b, c, d, e] ==> LeafCost(x) <= BODY / 2 && EncodedSize(x.key) <= SMALL_KEY
    requires SepCost(b.key) + SepCost(d.key) + SepCost(e.key) <= BODY < SepCost(c.key) + SepCost(d.key) + SepCost(e.key)
    ensures var t := ThreeKids(a, b, c, d, e);
            Shape(t) && Branching(t) && Sorted(Contents(t)) && ShortKeys(Contents(t)) && DeleteOverflows(t, b.key)
  {
    var t := ThreeKids(a, b, c, d, e);
    hide LeafCost, SepCost, EncodedSize, Sorted, Compare, NodeData.Fits, SepCosts, LeafCosts, DeleteOverflows;
    ThreeKidsAre(a, b, c, d, e);
    LeavesFit(a, a);
    LeavesFit(b, c);
    LeavesFit(d, d);
    LeavesFit(e, e);
    SepsFit(1, Seps(t.kids));
    SepsFit(1, Seps(t.kids)[0 := InternalEntry(c.key, 2)]);
    SepsOverflow(t, b, c);
    assert a in [a, b, c, d, e] && b in [a, b, c, d, e] && c in [a, b, c, d, e] && d in [a, b, c, d, e]
           && e in [a, b, c, d, e];
    assert NodeOf(t).Fits() && Shape(t.left);
    assert Contents(t) == [a, b, c, d, e];
    assert Branching(t.left) && forall kid :: kid in t.kids ==> Branching(kid.sub);
    assert forall kid :: kid in t.kids ==> Shape(kid.sub);
  }

  lemma SepsOverflow(t: Tree, b: LeafEntry, c: LeafEntry)
    requires t.Node? && t.kids != [] && Contents(t.kids[0].sub) == [b, c] && Compare(b.key, b.key) == 0
    requires !InternalNode(t.left.page, Seps(t.kids)[0 := InternalEntry(c.key, t.kids[0].sub.page)]).Fits()
    ensures DeleteOverflows(t, b.key)
  {
    hide NodeData.Fits;
    assert RekeyOverflows(t, 1, b.key);
    OverflowsIn(t, 1, b.key);
  }
}
