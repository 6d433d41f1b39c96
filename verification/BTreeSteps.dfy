/** What one level of an insertion or deletion does to the whole subtree, given what its child did. */
module BTreeSteps {
  import opened Bytes
  import opened Atoms
  import opened Options
  import opened SlottedPage
  import opened Nodes
  import opened OrderedEntries
  import opened BTreeShape
  import opened Capacity
  import opened BTreeRefusal

  /** A split page's right half: its first key and its page. */
  datatype Promote = Promote(key: Atom, right: PageId)

  /**
   * What inserting below a page leaves. `l` is the subtree now rooted at that page and `r`, after a split,
   * the one at the promoted page; together they hold exactly `goal`. With short keys no separator-less node
   * appears.
   */
  ghost predicate Grown(split: bool, promote: Promote, l: Tree, r: Tree, page: PageId, goal: seq<LeafEntry>,
                        branching: bool) {
    && l.page == page && Shape(l) && Contents(l) != []
    && (if split then
          Shape(r) && r.page == promote.right && KidOk(Kid(promote.key, r)) && Contents(l) + Contents(r) == goal
        else Contents(l) == goal)
    && (branching && ShortKeys(goal) ==> Branching(l) && (split ==> Branching(r)))
  }

  ghost function GrownIds(split: bool, l: Tree, r: Tree): multiset<PageId> {
    if split then Ids(l) + Ids(r) else Ids(l)
  }

  /** Slot `s` is where `internal_find_route` sends the key. */
  ghost predicate Routes(t: Tree, s: nat, k: Atom) {
    && t.Node? && s <= |t.kids|
    && (s > 0 ==> Compare(t.kids[s - 1].key, k) <= 0)
    && (s < |t.kids| ==> Compare(k, t.kids[s].key) < 0)
  }

  /** A point operation at the routed child is that operation on the subtree. */
  lemma AtChild(t: Tree, s: nat, k: Atom, v: Atom)
    requires Routes(t, s, k) && ShapeBelow(t) && Sorted(Contents(t))
    ensures var c := Contents(Child(t, s));
            && Sorted(c)
            && Put(Contents(t), k, v) == Before(t, s) + Put(c, k, v) + After(t, s)
            && Remove(Contents(t), k) == Before(t, s) + Remove(c, k) + After(t, s)
            && Get(Contents(t), k) == Get(c, k)
            && (Has(Contents(t), k) <==> Has(c, k))
  {
    RouteIsRight(t, s, k);
    AroundChild(t, s);
    InMiddle(Before(t, s), Contents(Child(t, s)), After(t, s), k, v);
  }

  lemma ChildShape(t: Tree, s: nat)
    requires t.Node? && s <= |t.kids| && ShapeBelow(t)
    ensures Shape(Child(t, s)) && Contents(Child(t, s)) != []
    ensures s > 0 ==> t.kids[s - 1].key == Contents(Child(t, s))[0].key
  {
    if s > 0 { assert t.kids[s - 1] in t.kids; }
  }

  lemma ChildRep(pages: seq<Page>, t: Tree, s: nat)
    requires t.Node? && s <= |t.kids| && RepBelow(pages, t)
    ensures Rep(pages, Child(t, s))
  {
    if s > 0 { assert t.kids[s - 1] in t.kids; }
  }

  lemma ChildBranching(t: Tree, s: nat)
    requires t.Node? && s <= |t.kids| && Branching(t)
    ensures Branching(Child(t, s))
  {
    if s > 0 { assert t.kids[s - 1] in t.kids; }
  }

  /** The first key of a routed child survives an insertion below it. */
  lemma FirstSurvives(t: Tree, s: nat, k: Atom, v: Atom)
    requires Routes(t, s, k) && ShapeBelow(t) && s > 0
    ensures var c := Put(Contents(Child(t, s)), k, v);
            c != [] && c[0].key == t.kids[s - 1].key
  {
    ChildShape(t, s);
    PutKeepsFirst(Contents(Child(t, s)), k, v);
  }

  /** The routed child absorbed the insertion: this node is unchanged and the subtree has the entry. */
  lemma ChildAbsorbed(t: Tree, s: nat, c: Tree, k: Atom, v: Atom)
    requires Routes(t, s, k) && ShapeBelow(t) && Sorted(Contents(t))
    requires Shape(c) && c.page == Child(t, s).page && Contents(c) == Put(Contents(Child(t, s)), k, v)
    ensures var u := WithChild(t, s, c);
            && Contents(u) == Put(Contents(t), k, v) && Contents(u) != []
            && NodeOf(u) == NodeOf(t) && ShapeBelow(u)
            && Ids(u) == OtherIds(t, s) + Ids(c)
  {
    AtChild(t, s, k, v);
    assert Contents(c) != [];
    if s > 0 { FirstSurvives(t, s, k, v); }
    WithChildIs(t, s, c);
  }

  ghost function SplitChild(t: Tree, s: nat, c: Tree, kid: Kid): Tree
    requires t.Node? && s <= |t.kids|
  {
    WithKid(WithChild(t, s, c), s, kid)
  }

  /** The routed child split in two: the new separator goes right behind it. */
  lemma ChildSplit(t: Tree, s: nat, c: Tree, kid: Kid, k: Atom, v: Atom)
    requires Routes(t, s, k) && ShapeBelow(t) && Sorted(Contents(t))
    requires Shape(c) && c.page == Child(t, s).page && Contents(c) != []
    requires Shape(kid.sub) && KidOk(kid)
    requires Contents(c) + Contents(kid.sub) == Put(Contents(Child(t, s)), k, v)
    ensures var u := SplitChild(t, s, c, kid);
            && Contents(u) == Put(Contents(t), k, v)
            && NodeOf(u) ==
               InternalNode(t.left.page, Seps(t.kids)[..s] + [InternalEntry(kid.key, kid.sub.page)] + Seps(t.kids)[s..])
            && ShapeBelow(u)
            && Ids(u) == OtherIds(t, s) + Ids(c) + Ids(kid.sub)
  {
    AtChild(t, s, k, v);
    if s > 0 {
      FirstSurvives(t, s, k, v);
      assert Contents(c)[0] == (Contents(c) + Contents(kid.sub))[0];
    }
    WithChildIs(t, s, c);
    WithChildParts(t, s, c);
    var w := WithChild(t, s, c);
    WithKidContents(w, s, kid);
    WithKidIds(w, s, kid);
    WithKidShape(w, s, kid);
    SepsWithKid(w, s, kid);
    assert NodeOf(w) == NodeOf(t);
    Regroup4(Before(t, s), Contents(c), Contents(kid.sub), After(t, s));
  }

  lemma Regroup4<T>(a: seq<T>, b: seq<T>, c: seq<T>, d: seq<T>)
    ensures a + b + c + d == a + (b + c) + d
  {
  }

  lemma RepSplitChild(was: seq<Page>, now: seq<Page>, t: Tree, s: nat, c: Tree, kid: Kid)
    requires t.Node? && s <= |t.kids| && RepBelow(was, t) && Rep(now, c) && Rep(now, kid.sub)
    requires Same(was, now, SiblingIds(t, s))
    ensures RepBelow(now, SplitChild(t, s, c, kid))
  {
    RepWithChild(was, now, t, s, c);
    RepWithKid(now, WithChild(t, s, c), s, kid);
  }

  lemma SplitChildBranching(t: Tree, s: nat, c: Tree, kid: Kid)
    requires t.Node? && s <= |t.kids| && Branching(t) && Branching(c) && Branching(kid.sub)
    ensures Branching(SplitChild(t, s, c, kid))
  {
    WithChildBranching(t, s, c);
    WithKidBranching(WithChild(t, s, c), s, kid);
  }

  // ----- keys of the separators are keys of entries -----

  lemma {:induction false} KidsHave(kids: seq<Kid>, kid: Kid, e: LeafEntry)
    requires kid in kids && e in Contents(kid.sub)
    ensures e in KidsContents(kids)
  {
    if kid != kids[0] { KidsHave(kids[1..], kid, e); }
  }

  lemma SepIsKey(t: Tree, i: nat)
    requires t.Node? && i < |t.kids| && ShapeBelow(t)
    ensures exists e :: e in Contents(t) && e.key == Seps(t.kids)[i].key
  {
    var kid := t.kids[i];
    assert kid in t.kids;
    var e := Contents(kid.sub)[0];
    KidsHave(t.kids, kid, e);
    assert e in Contents(t);
  }

  lemma SepsSmall(t: Tree)
    requires t.Node? && ShapeBelow(t)
    ensures SmallEntries(Contents(t)) ==>
              forall i :: 0 <= i < |t.kids| ==> SepCost(Seps(t.kids)[i].key) <= SMALL_SEPARATOR
    ensures ShortKeys(Contents(t)) ==> forall i :: 0 <= i < |t.kids| ==> EncodedSize(Seps(t.kids)[i].key) <= SMALL_KEY
  {
    forall i | 0 <= i < |t.kids|
      ensures SmallEntries(Contents(t)) ==> SepCost(Seps(t.kids)[i].key) <= SMALL_SEPARATOR
      ensures ShortKeys(Contents(t)) ==> EncodedSize(Seps(t.kids)[i].key) <= SMALL_KEY
    {
      SepIsKey(t, i);
      var e :| e in Contents(t) && e.key == Seps(t.kids)[i].key;
      assert SmallEntries(Contents(t)) ==> SmallEntry(e);
    }
  }

  lemma SepInsertCosts(a: seq<InternalEntry>, e: InternalEntry, c: seq<InternalEntry>)
    ensures SepCosts(a + [e] + c) == SepCosts(a + c) + SepCost(e.key)
  {
    SepCostsSplit(a + [e], c);
    SepCostsSplit(a, [e]);
    SepCostsSplit(a, c);
    OneSep(e);
  }

  lemma LeafInsertCosts(a: seq<LeafEntry>, e: LeafEntry, c: seq<LeafEntry>)
    ensures LeafCosts(a + [e] + c) == LeafCosts(a + c) + LeafCost(e)
  {
    LeafCostsSplit(a + [e], c);
    LeafCostsSplit(a, [e]);
    LeafCostsSplit(a, c);
    assert [e][1..] == [];
    assert LeafCosts([e]) == LeafCost(e) + LeafCosts([]);
  }

  /** Too much for one page, and of the halves by count only the left one fits. */
  ghost predicate BadSplit(all: seq<LeafEntry>) {
    && |all| >= 2 && !LeafNode(all).Fits()
    && LeafNode(all[..|all| / 2]).Fits() && !LeafNode(all[|all| / 2..]).Fits()
  }

  /**
   * Bad splits happen: three sorted entries of which the new, last one is too large for any page. The left
   * half is the first entry alone, so the second, stored before, is not in it.
   */
  lemma BadSplitExists()
    ensures exists entries, key, value ::
              && Sorted(entries) && LeafNode(entries).Fits() && !Has(entries, key)
              && AllAddable(Put(entries, key, value)) && BadSplit(Put(entries, key, value))
              && exists e :: e in entries && e !in Put(entries, key, value)[..|Put(entries, key, value)| / 2]
  {
    var a, b := LeafEntry(Num(1), Num(0)), LeafEntry(Num(2), Num(0));
    var big := Str(seq(4096, i => 0));
    var c := LeafEntry(Num(3), big);
    ThreeKeys(a, b, c);
    ThreeCosts(a, b, c);
    BadThree(a, b, c);
    hide *;
    var entries, all := [a, b], [a, b, c];
    assert all[..|all| / 2] == [a];
    assert b in entries && b !in [a];
  }

  lemma ThreeKeys(a: LeafEntry, b: LeafEntry, c: LeafEntry)
    requires a.key == Num(1) && b.key == Num(2) && c.key == Num(3)
    ensures Sorted([a, b]) && !Has([a, b], c.key) && Put([a, b], c.key, c.value) == [a, b, c] && a != b
  {
    var entries := [a, b];
    assert Compare(a.key, b.key) < 0 && Compare(a.key, c.key) < 0 && Compare(b.key, c.key) < 0;
    BoundIsUnique(entries, c.key, 2);
  }

  lemma ThreeCosts(a: LeafEntry, b: LeafEntry, c: LeafEntry)
    ensures LeafCosts([a]) == LeafCost(a) && LeafCosts([a, b]) == LeafCost(a) + LeafCost(b)
    ensures LeafCosts([b, c]) == LeafCost(b) + LeafCost(c)
            && LeafCosts([a, b, c]) == LeafCost(a) + LeafCost(b) + LeafCost(c)
  {
    hide LeafCost;
    assert [a][1..] == [] && [a, b][1..] == [b] && [b][1..] == [] && [b, c][1..] == [c] && [c][1..] == []
           && [a, b, c][1..] == [b, c];
    assert LeafCosts([b]) == LeafCost(b) + LeafCosts([]) && LeafCosts([c]) == LeafCost(c) + LeafCosts([]);
    assert LeafCosts([a]) == LeafCost(a) + LeafCosts([]);
  }

  lemma BadThree(a: LeafEntry, b: LeafEntry, c: LeafEntry)
    requires LeafCosts([a]) == LeafCost(a) && LeafCosts([a, b]) == LeafCost(a) + LeafCost(b)
    requires LeafCosts([b, c]) == LeafCost(b) + LeafCost(c)
             && LeafCosts([a, b, c]) == LeafCost(a) + LeafCost(b) + LeafCost(c)
    requires a.key.Num? && a.value.Num? && b.key.Num? && b.value.Num? && c.key.Num? && c.value.Str?
             && |c.value.chars| == 4096
    ensures LeafNode([a, b]).Fits() && BadSplit([a, b, c]) && AllAddable([a, b, c])
  {
    hide NodeData.Fits, LeafCosts;
    var all := [a, b, c];
    assert |all| / 2 == 1 && all[..1] == [a] && all[1..] == [b, c];
    LeafFitsIs([a]);
    LeafFitsIs([a, b]);
    LeafFitsIs([b, c]);
    LeafFitsIs(all);
  }

  lemma SmallAddable(s: seq<LeafEntry>)
    ensures SmallEntries(s) ==> AllAddable(s)
  {
    if SmallEntries(s) {
      assert forall i :: 0 <= i < |s| ==> SmallEntry(s[i]);
    }
  }

  /** One small entry more than a full leaf holds: if it overflows, its halves fit. */
  lemma LeafRoom(entries: seq<LeafEntry>, key: Atom, value: Atom)
    requires LeafNode(entries).Fits() && !Has(entries, key)
    ensures var all := Put(entries, key, value);
            SmallEntries(all) && !LeafNode(all).Fits() ==>
              |all| >= 2 && LeafNode(all[..|all| / 2]).Fits() && LeafNode(all[|all| / 2..]).Fits()
  {
    hide *;
    var all := Put(entries, key, value);
    if SmallEntries(all) && !LeafNode(all).Fits() {
      var p := LowerBound(entries, key);
      var e := LeafEntry(key, value);
      PutInserts(entries, key, value);
      SmallCosts(all);
      LeafInsertCosts(entries[..p], e, entries[p..]);
      assert entries[..p] + entries[p..] == entries;
      LeafFitsIs(entries);
      LeafFitsIs(all);
      assert all[p] == e;
      assert LeafCost(all[p]) <= SMALL_RECORD;
      LeafHalvesFit(all);
    }
  }

  lemma LeafFitsIs(es: seq<LeafEntry>)
    ensures LeafNode(es).Fits() <==> LeafCosts(es) <= BODY
  {
    LeafUsed(es);
  }

  lemma PutInserts(entries: seq<LeafEntry>, key: Atom, value: Atom)
    requires !Has(entries, key)
    ensures LowerBound(entries, key) <= |entries|
    ensures Put(entries, key, value) ==
            entries[..LowerBound(entries, key)] + [LeafEntry(key, value)] + entries[LowerBound(entries, key)..]
  {
  }

  lemma SmallCosts(s: seq<LeafEntry>)
    requires SmallEntries(s)
    ensures forall i :: 0 <= i < |s| ==> LeafCost(s[i]) <= SMALL_RECORD
  {
    forall i | 0 <= i < |s|
      ensures LeafCost(s[i]) <= SMALL_RECORD
    {
      assert SmallEntry(s[i]);
    }
  }

  /** A page that loads as a fitting leaf is that one-page tree. */
  lemma LeafStored(pages: seq<Page>, id: PageId, es: seq<LeafEntry>)
    ensures Ids(Leaf(id, es)) == multiset{id} && Branching(Leaf(id, es))
    ensures id < |pages| && LoadPage(pages[id]) == Some(LeafNode(es)) ==> Rep(pages, Leaf(id, es))
    ensures LeafNode(es).Fits() ==> Shape(Leaf(id, es))
  {
  }

  lemma GrownWhole(id: PageId, entries: seq<LeafEntry>, key: Atom, value: Atom)
    requires LeafNode(Put(entries, key, value)).Fits()
    ensures forall promote, r :: Grown(false, promote, Leaf(id, Put(entries, key, value)), r, id, Put(entries, key, value), true)
  {
    LeafStored([], id, Put(entries, key, value));
    assert Put(entries, key, value) != [];
    hide NodeData.Fits, Put;
  }

  lemma GrownHalves(id: PageId, right: PageId, entries: seq<LeafEntry>, key: Atom, value: Atom)
    requires var all := Put(entries, key, value);
             |all| >= 2 && LeafNode(all[..|all| / 2]).Fits() && LeafNode(all[|all| / 2..]).Fits()
    ensures var all := Put(entries, key, value);
            Grown(true, Promote(all[|all| / 2].key, right), Leaf(id, all[..|all| / 2]), Leaf(right, all[|all| / 2..]), id, all, true)
  {
    var all := Put(entries, key, value);
    LeafStored([], id, all[..|all| / 2]);
    LeafStored([], right, all[|all| / 2..]);
    assert all[..|all| / 2] + all[|all| / 2..] == all;
  }

  lemma GrownHalvesIds(id: PageId, right: PageId, all: seq<LeafEntry>, outer: multiset<PageId>)
    ensures outer + multiset{id} + multiset{right} ==
            outer + GrownIds(true, Leaf(id, all[..|all| / 2]), Leaf(right, all[|all| / 2..]))
  {
    LeafStored([], id, all[..|all| / 2]);
    LeafStored([], right, all[|all| / 2..]);
  }

  // ----- an internal node that got one more separator -----

  ghost function BelowIds(t: Tree): multiset<PageId> {
    if t.Node? then Ids(t.left) + KidsIds(t.kids) else multiset{}
  }

  lemma RepBelowFrame(was: seq<Page>, now: seq<Page>, t: Tree)
    requires RepBelow(was, t) && Same(was, now, BelowIds(t))
    ensures RepBelow(now, t)
  {
    if t.Node? {
      SameFewer(was, now, BelowIds(t), Ids(t.left));
      RepFrame(was, now, t.left);
      SameFewer(was, now, BelowIds(t), KidsIds(t.kids));
      RepKidsFrame(was, now, t.kids);
    }
  }

  /** A node that got one separator more than fit before: with small keys, if it overflows, its halves fit. */
  lemma SepRoom(left: PageId, seps: seq<InternalEntry>, pos: nat, e: InternalEntry)
    requires pos <= |seps| && InternalNode(left, seps).Fits()
    ensures var all := seps[..pos] + [e] + seps[pos..];
            (forall i :: 0 <= i < |all| ==> SepCost(all[i].key) <= SMALL_SEPARATOR) && !InternalNode(left, all).Fits() ==>
              |all| >= 2 && InternalNode(left, all[..|all| / 2]).Fits() && InternalNode(all[|all| / 2].child, all[|all| / 2 + 1..]).Fits()
  {
    hide EncodedSize, UsedBytes;
    var all := seps[..pos] + [e] + seps[pos..];
    if (forall i :: 0 <= i < |all| ==> SepCost(all[i].key) <= SMALL_SEPARATOR) && !InternalNode(left, all).Fits() {
      assert all[pos] == e;
      SepInsertCosts(seps[..pos], e, seps[pos..]);
      assert seps[..pos] + seps[pos..] == seps;
      InternalUsed(left, seps);
      InternalUsed(left, all);
      hide UsedBytes, SepCosts;
      SepHalvesFit(left, all[|all| / 2].child, all);
    }
  }

  /** The whole node fits again. */
  lemma GrownNode(u: Tree, page: PageId)
    requires u.Node? && u.page == page && ShapeBelow(u) && NodeOf(u).Fits()
    ensures forall promote, r :: Grown(false, promote, u, r, page, Contents(u), Branching(u))
  {
    hide NodeData.Fits;
  }

  /** The node split around its middle separator, which moves up. */
  lemma GrownNodeHalves(u: Tree, right: PageId)
    requires u.Node? && ShapeBelow(u) && |u.kids| >= 2 && !NodeOf(u).Fits()
    requires var mid := |u.kids| / 2;
             NodeOf(LeftHalf(u, mid)).Fits() && NodeOf(RightHalf(u, mid, right)).Fits()
    ensures var mid := |u.kids| / 2;
            Grown(true, Promote(u.kids[mid].key, right), LeftHalf(u, mid), RightHalf(u, mid, right), u.page, Contents(u), Branching(u))
  {
    var mid := |u.kids| / 2;
    HalvesAre(u, mid, right);
    HalvesShape(u, mid, right);
    if Branching(u) && ShortKeys(Contents(u)) {
      SepsSmall(u);
      ShortSepsSplit(u.left.page, Seps(u.kids));
      HalvesBranching(u, mid, right);
    }
  }

  lemma IdsParts(u: Tree)
    requires u.Node?
    ensures Ids(u) == multiset{u.page} + BelowIds(u)
  {
  }

  /** Its page holds the node and what is below is in place: the whole tree is there. */
  lemma TopStored(was: seq<Page>, now: seq<Page>, u: Tree)
    requires u.Node? && RepBelow(was, u) && Same(was, now, BelowIds(u))
    requires u.page < |now| && LoadPage(now[u.page]) == Some(NodeOf(u))
    ensures Rep(now, u)
  {
    RepBelowFrame(was, now, u);
  }

  lemma HalvesStored(was: seq<Page>, now: seq<Page>, u: Tree, mid: nat, right: PageId)
    requires u.Node? && RepBelow(was, u) && Same(was, now, BelowIds(u)) && mid < |u.kids|
    requires u.page < |now| && LoadPage(now[u.page]) == Some(InternalNode(u.left.page, Seps(u.kids)[..mid]))
    requires right < |now|
             && LoadPage(now[right]) == Some(InternalNode(Seps(u.kids)[mid].child, Seps(u.kids)[mid + 1..]))
    ensures Rep(now, LeftHalf(u, mid)) && Rep(now, RightHalf(u, mid, right))
  {
    RepBelowFrame(was, now, u);
    RepHalves(now, u, mid, right);
    SepsHalves(u, mid, right);
  }

  // ----- from the child to the node -----

  lemma IdsAtChild(t: Tree, s: nat, outer: multiset<PageId>)
    requires t.Node? && s <= |t.kids|
    ensures outer + Ids(t) == (outer + OtherIds(t, s)) + Ids(Child(t, s))
    ensures OtherIds(t, s) == multiset{t.page} + SiblingIds(t, s)
  {
    AroundChild(t, s);
  }

  lemma SmallParts(a: seq<LeafEntry>, b: seq<LeafEntry>, c: seq<LeafEntry>)
    ensures SmallEntries(a + b + c) ==> SmallEntries(b)
    ensures ShortKeys(a + b + c) ==> ShortKeys(b)
  {
    assert forall e :: e in b ==> e in a + b + c;
  }

  lemma ChildGoal(t: Tree, s: nat, k: Atom, v: Atom)
    requires Routes(t, s, k) && ShapeBelow(t) && Sorted(Contents(t))
    ensures var goal, below := Put(Contents(t), k, v), Put(Contents(Child(t, s)), k, v);
            && (SmallEntries(goal) ==> SmallEntries(below))
            && (ShortKeys(goal) ==> ShortKeys(below))
  {
    AtChild(t, s, k, v);
    SmallParts(Before(t, s), Put(Contents(Child(t, s)), k, v), After(t, s));
  }

  /** The child took the entry without splitting: so did the node, which is unchanged. */
  lemma GrownAbsorbed(t: Tree, s: nat, c: Tree, k: Atom, v: Atom, promote: Promote, r: Tree)
    requires Routes(t, s, k) && Shape(t) && Sorted(Contents(t))
    requires Grown(false, promote, c, r, Child(t, s).page, Put(Contents(Child(t, s)), k, v), Branching(Child(t, s)))
    ensures Grown(false, promote, WithChild(t, s, c), r, t.page, Put(Contents(t), k, v), Branching(t))
    ensures NodeOf(WithChild(t, s, c)) == NodeOf(t)
    ensures Ids(WithChild(t, s, c)) == OtherIds(t, s) + Ids(c)
  {
    hide Put;
    ChildAbsorbed(t, s, c, k, v);
    if Branching(t) && ShortKeys(Put(Contents(t), k, v)) {
      ChildGoal(t, s, k, v);
      ChildBranching(t, s);
      WithChildBranching(t, s, c);
    }
  }

  /** The child split: the node with the new separator holds the goal; only its size is left to settle. */
  lemma GrownSplit(t: Tree, s: nat, c: Tree, r: Tree, k: Atom, v: Atom, promote: Promote)
    requires Routes(t, s, k) && Shape(t) && Sorted(Contents(t))
    requires Grown(true, promote, c, r, Child(t, s).page, Put(Contents(Child(t, s)), k, v), Branching(Child(t, s)))
    ensures var u := SplitChild(t, s, c, Kid(promote.key, r));
            && u.page == t.page
            && Contents(u) == Put(Contents(t), k, v)
            && NodeOf(u) ==
               InternalNode(t.left.page, Seps(t.kids)[..s] + [InternalEntry(promote.key, promote.right)] + Seps(t.kids)[s..])
            && ShapeBelow(u)
            && Ids(u) == OtherIds(t, s) + Ids(c) + Ids(r)
            && (Branching(t) && ShortKeys(Put(Contents(t), k, v)) ==> Branching(u))
  {
    hide Put;
    ChildSplit(t, s, c, Kid(promote.key, r), k, v);
    if Branching(t) && ShortKeys(Put(Contents(t), k, v)) {
      ChildGoal(t, s, k, v);
      ChildBranching(t, s);
      SplitChildBranching(t, s, c, Kid(promote.key, r));
    }
  }

  lemma AbsorbedStored(was: seq<Page>, now: seq<Page>, t: Tree, s: nat, c: Tree)
    requires t.Node? && s <= |t.kids| && Rep(was, t) && Rep(now, c)
    requires Same(was, now, OtherIds(t, s)) && NodeOf(WithChild(t, s, c)) == NodeOf(t)
    ensures Rep(now, WithChild(t, s, c))
  {
    assert t.page in OtherIds(t, s);
    SameFewer(was, now, OtherIds(t, s), SiblingIds(t, s));
    RepWithChild(was, now, t, s, c);
  }

  /** Weakening: a split or whole result for the node is one for the subtree it came from. */
  lemma GrownWeaker(split: bool, promote: Promote, l: Tree, r: Tree, page: PageId, goal: seq<LeafEntry>, strong: bool,
                    weak: bool)
    requires Grown(split, promote, l, r, page, goal, strong)
    requires weak && ShortKeys(goal) ==> strong
    ensures Grown(split, promote, l, r, page, goal, weak)
  {
  }

  lemma ShapeParts(t: Tree)
    requires Shape(t)
    ensures ShapeBelow(t) && NodeOf(t).Fits()
  {
  }

  lemma RepParts(pages: seq<Page>, t: Tree)
    requires Rep(pages, t)
    ensures RepBelow(pages, t) && t.page < |pages| && LoadPage(pages[t.page]) == Some(NodeOf(t))
  {
  }

  lemma ChildPage(t: Tree, s: nat)
    requires t.Node? && s <= |t.kids|
    ensures Child(t, s).page == (if s == 0 then t.left.page else Seps(t.kids)[s - 1].child)
  {
  }

  lemma ChildSmaller(t: Tree, s: nat)
    requires t.Node? && s <= |t.kids|
    ensures Child(t, s) < t
  {
    if s > 0 {
      assert t.kids[s - 1].sub < t.kids[s - 1];
    }
  }

  lemma SplitStored(was: seq<Page>, now: seq<Page>, t: Tree, s: nat, c: Tree, kid: Kid)
    requires t.Node? && s <= |t.kids| && Rep(was, t) && Rep(now, c) && Rep(now, kid.sub)
    requires Same(was, now, OtherIds(t, s))
    ensures RepBelow(now, SplitChild(t, s, c, kid))
  {
    SameFewer(was, now, OtherIds(t, s), SiblingIds(t, s));
    RepSplitChild(was, now, t, s, c, kid);
  }

  lemma SameTwice(a: seq<Page>, b: seq<Page>, c: seq<Page>, live: multiset<PageId>)
    requires Same(a, b, live) && Same(b, c, live)
    ensures Same(a, c, live)
  {
  }

  /** Pages that are all there are the same as themselves. */
  lemma SameNow(pages: seq<Page>, live: multiset<PageId>)
    requires forall p: PageId :: p in live ==> p < |pages|
    ensures Same(pages, pages, live)
  {
  }

  lemma OnlyChildIds(w: Tree, outer: multiset<PageId>)
    requires w.Node? && w.kids == []
    ensures outer + Ids(w) == (outer + Ids(w.left)) + multiset{w.page}
    ensures w.page in Ids(w) && w.left.page in outer + Ids(w.left)
  {
    OwnPage(w.left);
  }

  lemma OwnPage(t: Tree)
    ensures t.page in Ids(t)
  {
  }

  lemma RepLeft(pages: seq<Page>, w: Tree)
    requires w.Node? && RepBelow(pages, w)
    ensures Rep(pages, w.left)
  {
  }

  lemma LessOne(kept: multiset<PageId>, id: PageId)
    ensures kept + multiset{id} - multiset{id} == kept
    ensures forall outer, own :: kept == outer + own ==> outer <= kept && own <= kept
  {
  }

  // ----- small facts about nodes -----

  lemma KeyCount(entries: seq<LeafEntry>)
    ensures LeafNode(entries).NKeys() == |entries|
  {
  }

  lemma GrownIdsIs(l: Tree, r: Tree)
    ensures GrownIds(false, l, r) == Ids(l) && GrownIds(true, l, r) == Ids(l) + Ids(r)
  {
  }

  lemma EntriesBounded(entries: seq<LeafEntry>)
    requires LeafNode(entries).Fits()
    ensures |entries| <= 2040
  {
    FitsBoundsKeys(LeafNode(entries));
  }

  lemma SepsBounded(left: PageId, seps: seq<InternalEntry>)
    requires InternalNode(left, seps).Fits()
    ensures |seps| <= 2040
  {
    FitsBoundsKeys(InternalNode(left, seps));
  }

  lemma SepAt(t: Tree, i: nat)
    requires t.Node? && i < |t.kids|
    ensures Seps(t.kids)[i].key == t.kids[i].key
  {
  }

  /** One page as it was. */
  ghost predicate Kept(was: seq<Page>, now: seq<Page>, id: PageId) {
    id < |was| && id < |now| && now[id] == was[id]
  }

  lemma LeafOutcomeIs(all: seq<LeafEntry>, overwrite: bool)
    ensures LeafOutcome(all, overwrite) ==
            if LeafNode(all).Fits() then Whole
            else if !overwrite && |all| >= 2 && LeafNode(all[..|all| / 2]).Fits() && LeafNode(all[|all| / 2..]).Fits() then Halves(all[|all| / 2].key)
            else Refused
  {
    hide NodeData.Fits;
  }

  lemma OnePageOutcome(t: Tree, key: Atom, value: Atom)
    ensures t.Leaf? ==> PutOutcome(t, key, value) == LeafOutcome(Put(t.entries, key, value), Has(t.entries, key))
                        && Contents(t) == t.entries
  {
    hide LeafOutcome, Put, Has;
  }

  lemma NodeOutcomeIs(left: PageId, all: seq<InternalEntry>)
    ensures NodeOutcome(left, all) ==
            if InternalNode(left, all).Fits() then Whole
            else if |all| >= 2 && InternalNode(left, all[..|all| / 2]).Fits()
                    && InternalNode(all[|all| / 2].child, all[|all| / 2 + 1..]).Fits() then Halves(all[|all| / 2].key)
            else Refused
  {
    hide NodeData.Fits;
  }

  /** A leaf with an entry so large that 32-bit sums wrap is refused. */
  lemma HugeRefused(all: seq<LeafEntry>)
    ensures !AllAddable(all) ==> LeafOutcome(all, false).Refused?
  {
    hide NodeData.Fits, LeafCosts;
    if !AllAddable(all) {
      var i :| 0 <= i < |all| && !Addable(all[i]);
      var mid := |all| / 2;
      TooLarge(all, i);
      if i < mid { TooLarge(all[..mid], i); } else { TooLarge(all[mid..], i - mid); }
    }
  }

  lemma TooLarge(s: seq<LeafEntry>, i: nat)
    requires i < |s| && !Addable(s[i])
    ensures !LeafNode(s).Fits()
  {
    assert s == s[..i] + [s[i]] + s[i + 1..];
    LeafInsertCosts(s[..i], s[i], s[i + 1..]);
    LeafFitsIs(s);
  }

  lemma BadSplitIs(all: seq<LeafEntry>)
    ensures BadSplit(all) <==>
              && |all| >= 2 && !LeafNode(all).Fits()
              && LeafNode(all[..|all| / 2]).Fits() && !LeafNode(all[|all| / 2..]).Fits()
  {
    hide NodeData.Fits;
  }

  // ----- looking up -----

  lemma NodeKind(t: Tree)
    ensures NodeOf(t).LeafNode? <==> t.Leaf?
    ensures t.Leaf? ==> NodeOf(t).entries == Contents(t)
    ensures t.Node? ==> NodeOf(t).left == t.left.page && NodeOf(t).seps == Seps(t.kids)
  {
  }

  lemma LeafLookup(s: seq<LeafEntry>, key: Atom, found: bool, pos: nat)
    requires (found <==> Has(s, key)) && pos == LowerBound(s, key)
    ensures Get(s, key) == if found then (assert pos < |s|; Some(s[pos].value)) else None
    ensures found ==> pos < |s|
  {
  }

  lemma RoutesParts(t: Tree, slot: nat, key: Atom)
    requires Routes(t, slot, key)
    ensures t.Node? && slot <= |t.kids|
    ensures slot > 0 ==> Compare(t.kids[slot - 1].key, key) <= 0
    ensures slot < |t.kids| ==> Compare(key, t.kids[slot].key) < 0
  {
    hide Compare;
  }

  lemma RoutesBy(t: Tree, slot: nat, key: Atom)
    requires t.Node? && slot <= |Seps(t.kids)|
    requires slot > 0 ==> Compare(Seps(t.kids)[slot - 1].key, key) <= 0
    requires slot < |Seps(t.kids)| ==> Compare(key, Seps(t.kids)[slot].key) < 0
    ensures Routes(t, slot, key)
  {
  }

  lemma ChildFound(t: Tree, s: nat)
    requires t.Node? && s <= |Seps(t.kids)|
    ensures s <= |t.kids| && Child(t, s) < t
    ensures Child(t, s).page == if s == 0 then t.left.page else Seps(t.kids)[s - 1].child
  {
    ChildPage(t, s);
    ChildSmaller(t, s);
  }

  lemma GrownKid(split: bool, promote: Promote, l: Tree, r: Tree, page: PageId, goal: seq<LeafEntry>, branching: bool)
    requires Grown(split, promote, l, r, page, goal, branching)
    ensures split ==> r.page == promote.right
  {
  }

  // ----- a new root -----

  ghost function NewRoot(page: PageId, l: Tree, key: Atom, r: Tree): Tree {
    Node(page, l, [Kid(key, r)])
  }

  /** A root split in two goes below a new root with one separator. */
  lemma NewRootIs(page: PageId, promote: Promote, l: Tree, r: Tree, old_: PageId, goal: seq<LeafEntry>, branching: bool)
    requires Grown(true, promote, l, r, old_, goal, branching)
    ensures var u := NewRoot(page, l, promote.key, r);
            && Contents(u) == goal
            && Ids(u) == multiset{page} + (Ids(l) + Ids(r))
            && NodeOf(u) == InternalNode(old_, [InternalEntry(promote.key, promote.right)])
            && ShapeBelow(u)
            && (branching && ShortKeys(goal) ==> Branching(u))
            && NodeOf(u).Fits()
  {
    hide *;
    GrownSplitIs(promote, l, r, old_, goal, branching);
    NewRootTree(page, l, promote.key, r);
    NewRootNode(page, l, promote, r, old_);
    if branching && ShortKeys(goal) {
      NewRootBranches(page, l, promote.key, r);
    }
    NewRootFits(promote, old_, r);
  }

  /** What a split left: two halves of the goal, the promoted key the first of the right one. */
  lemma GrownSplitIs(promote: Promote, l: Tree, r: Tree, page: PageId, goal: seq<LeafEntry>, branching: bool)
    requires Grown(true, promote, l, r, page, goal, branching)
    ensures l.page == page && r.page == promote.right && Shape(l) && Shape(r)
    ensures goal == Contents(l) + Contents(r) && Contents(l) != [] && Contents(r) != []
            && promote.key == Contents(r)[0].key
    ensures |Contents(l)| < |goal| && goal[|Contents(l)|].key == promote.key
    ensures branching && ShortKeys(goal) ==> Branching(l) && Branching(r)
  {
  }

  lemma NewRootTree(page: PageId, l: Tree, key: Atom, r: Tree)
    requires Shape(l) && Shape(r) && Contents(l) != [] && Contents(r) != [] && key == Contents(r)[0].key
    ensures var u := NewRoot(page, l, key, r);
            Contents(u) == Contents(l) + Contents(r) && Ids(u) == multiset{page} + (Ids(l) + Ids(r)) && ShapeBelow(u)
  {
    OneKid(Kid(key, r));
  }

  lemma NewRootNode(page: PageId, l: Tree, promote: Promote, r: Tree, old_: PageId)
    requires l.page == old_ && r.page == promote.right
    ensures NodeOf(NewRoot(page, l, promote.key, r)) == InternalNode(old_, [InternalEntry(promote.key, promote.right)])
  {
    assert Seps([Kid(promote.key, r)]) == [InternalEntry(promote.key, promote.right)];
  }

  lemma NewRootBranches(page: PageId, l: Tree, key: Atom, r: Tree)
    requires Branching(l) && Branching(r)
    ensures Branching(NewRoot(page, l, key, r))
  {
  }

  lemma NewRootFits(promote: Promote, old_: PageId, r: Tree)
    requires Shape(r) && KidOk(Kid(promote.key, r))
    ensures InternalNode(old_, [InternalEntry(promote.key, promote.right)]).Fits()
  {
    FirstFits(r, promote.right);
    SameSizeFits(old_, promote.right, [InternalEntry(promote.key, promote.right)], [InternalEntry(Contents(r)[0].key, promote.right)]);
  }

  lemma NewRootStored(pages: seq<Page>, page: PageId, key: Atom, l: Tree, r: Tree)
    requires Rep(pages, l) && Rep(pages, r)
    ensures RepBelow(pages, NewRoot(page, l, key, r))
  {
  }

  lemma GrownStays(promote: Promote, l: Tree, r: Tree, page: PageId, goal: seq<LeafEntry>, branching: bool)
    requires Grown(false, promote, l, r, page, goal, branching)
    ensures l.page == page && Shape(l) && Contents(l) == goal && (branching && ShortKeys(goal) ==> Branching(l))
  {
  }

  lemma NoOthers(ids: multiset<PageId>)
    ensures multiset{} + ids == ids
  {
  }

  /** One step of a descent: everything a search needs of the routed child. */
  lemma RouteStep(pages: seq<Page>, t: Tree, s: nat, k: Atom)
    requires Routes(t, s, k) && Rep(pages, t) && Shape(t) && Sorted(Contents(t))
    ensures var c := Child(t, s);
            && Rep(pages, c) && Shape(c) && Sorted(Contents(c)) && c < t
            && Ids(c) <= Ids(t)
            && Get(Contents(t), k) == Get(Contents(c), k)
            && c.page == if s == 0 then t.left.page else Seps(t.kids)[s - 1].child
  {
    AtChild(t, s, k, k);
    ChildShape(t, s);
    ChildRep(pages, t, s);
    ChildSmaller(t, s);
    AroundChild(t, s);
  }

  // ----- deletion -----

  /** `DeleteResult` of the source; `newMin` is set where `min_changed` is. */
  datatype DeleteResult = DeleteResult(deleted: bool, removeChild: bool, replacement: PageId, newMin: Option<Atom>)

  /** The subtree is gone: its parent drops the child. */
  ghost predicate Gone(d: DeleteResult) {
    d.removeChild && d.replacement == 0
  }

  /**
   * What deleting a present key below a page leaves: nothing, or the tree `u` with the remaining entries,
   * at the same page or at the replacement page; the parent is told the first key unless it is unchanged.
   */
  ghost predicate Shrunk(d: DeleteResult, u: Tree, t: Tree, key: Atom, isRoot: bool) {
    var goal := Remove(Contents(t), key);
    && Has(Contents(t), key)
    && (isRoot ==> !d.removeChild)
    && (Gone(d) ==> t.Leaf? && goal == [])
    && (!Gone(d) ==> Shape(u) && (Branching(t) ==> Branching(u)) && Contents(u) == goal)
    && (!isRoot && !Gone(d) ==>
          && goal != []
          && u.page == (if d.removeChild then d.replacement else t.page))
    && (!isRoot && !d.removeChild ==> goal[0].key == match d.newMin case Some(k) => k case None => Contents(t)[0].key)
  }

  ghost function ShrunkIds(d: DeleteResult, u: Tree): multiset<PageId> {
    if Gone(d) then multiset{} else Ids(u)
  }

  /** What a node needs to know of a child that shrank. */
  lemma ChildShrank(t: Tree, slot: nat, key: Atom, cd: DeleteResult, cu: Tree)
    requires Routes(t, slot, key) && Shape(t) && Shrunk(cd, cu, Child(t, slot), key, false)
    ensures t.Node? && slot <= |t.kids| && |t.kids| <= 2040
    ensures Gone(cd) <==> cd.removeChild && cd.replacement == 0
    ensures ShrunkIds(cd, cu) == if Gone(cd) then multiset{} else Ids(cu)
    ensures !Gone(cd) ==> Shape(cu) && Contents(cu) != []
    ensures cd.removeChild && !Gone(cd) ==> cu.page == cd.replacement
    ensures !cd.removeChild ==> cu.page == Child(t, slot).page
    ensures !cd.removeChild && slot > 0 ==>
              InternalEntry(Contents(cu)[0].key, cu.page) ==
              InternalEntry(match cd.newMin case Some(k) => k case None => Seps(t.kids)[slot - 1].key, Seps(t.kids)[slot - 1].child)
    ensures slot == 0 ==> Child(t, slot) == t.left
  {
    hide NodeData.Fits, Has, Remove;
    ChildShape(t, slot);
    FitsBoundsKeys(NodeOf(t));
  }

  lemma RemoveFits(entries: seq<LeafEntry>, pos: nat)
    requires pos < |entries| && LeafNode(entries).Fits()
    ensures LeafNode(entries[..pos] + entries[pos + 1..]).Fits()
  {
    var e := entries[pos];
    assert entries == entries[..pos] + [e] + entries[pos + 1..];
    LeafInsertCosts(entries[..pos], e, entries[pos + 1..]);
    LeafUsed(entries);
    LeafUsed(entries[..pos] + entries[pos + 1..]);
  }

  /** A child that went was a leaf with one entry, so a node that is not stranded had a separator. */
  lemma GoneFromLeaf(t: Tree, s: nat, key: Atom, d: DeleteResult, c: Tree)
    requires Routes(t, s, key) && Route(t.kids, key) == s && !Strands(t, key)
    requires Shrunk(d, c, Child(t, s), key, false) && Gone(d)
    ensures t.kids != []
  {
    LoneIs(Contents(Child(t, s)), key);
    hide LoneKey, Has, Remove;
  }

  /** What is left of the node when its child lost an entry but not its place. */
  lemma ChildShrunk(t: Tree, s: nat, key: Atom, d: DeleteResult, c: Tree)
    requires Routes(t, s, key) && Shape(t) && Sorted(Contents(t))
    requires Shrunk(d, c, Child(t, s), key, false) && !Gone(d)
    ensures var u := Rekeyed(t, s, c);
            && Contents(c) != []
            && Contents(u) == Remove(Contents(t), key) && Contents(u) != []
            && Ids(u) == OtherIds(t, s) + Ids(c)
            && ShapeBelow(u) && (Branching(t) ==> BranchingBelow(u))
            && Has(Contents(t), key)
  {
    hide Remove, Has, Branching, BranchingBelow;
    AtChild(t, s, key, key);
    RekeyedParts(t, s, c);
    RekeyedShape(t, s, c);
    if Branching(t) {
      ChildBranching(t, s);
      RekeyedBranching(t, s, c);
      BelowBranching(Rekeyed(t, s, c));
    }
  }

  lemma BelowBranching(t: Tree)
    requires Branching(t)
    ensures BranchingBelow(t)
  {
  }

  /** What is left of the node when its child went. */
  lemma ChildGone(t: Tree, s: nat, key: Atom, d: DeleteResult, c: Tree)
    requires Routes(t, s, key) && Shape(t) && t.kids != [] && Sorted(Contents(t))
    requires Shrunk(d, c, Child(t, s), key, false) && Gone(d)
    ensures var u := WithoutChild(t, s);
            && Contents(u) == Remove(Contents(t), key) && Contents(u) != []
            && Ids(u) == OtherIds(t, s)
            && ShapeBelow(u) && (Branching(t) ==> BranchingBelow(u))
            && Has(Contents(t), key)
  {
    AtChild(t, s, key, key);
    hide Remove, Has, Shape, ShapeBelow, Branching, BranchingBelow, Sorted, NodeData.Fits;
    WithoutChildParts(t, s);
    WithoutChildShape(t, s);
    if Branching(t) { WithoutChildBranching(t, s); }
    EmptyMiddle(Before(t, s), After(t, s));
  }

  lemma EmptyMiddle<T>(a: seq<T>, c: seq<T>)
    ensures a + [] + c == a + c
  {
  }

  /** The separators of the node after a child was replaced. */
  lemma RekeyedNode(t: Tree, s: nat, c: Tree)
    requires t.Node? && s <= |t.kids| && Contents(c) != []
    ensures NodeOf(Rekeyed(t, s, c)) ==
            if s == 0 then InternalNode(c.page, Seps(t.kids))
            else InternalNode(t.left.page, Seps(t.kids)[s - 1 := InternalEntry(Contents(c)[0].key, c.page)])
  {
    if s > 0 {
      assert Seps(Rekeyed(t, s, c).kids) == Seps(t.kids)[s - 1 := InternalEntry(Contents(c)[0].key, c.page)];
    }
  }

  lemma WithoutNode(t: Tree, s: nat)
    requires t.Node? && t.kids != [] && s <= |t.kids|
    ensures NodeOf(WithoutChild(t, s)) ==
            if s == 0 then InternalNode(Seps(t.kids)[0].child, Seps(t.kids)[1..])
            else InternalNode(t.left.page, Seps(t.kids)[..s - 1] + Seps(t.kids)[s..])
  {
    if s == 0 {
      assert Seps(t.kids[1..]) == Seps(t.kids)[1..];
    } else {
      assert Seps(t.kids[..s - 1] + t.kids[s..]) == Seps(t.kids)[..s - 1] + Seps(t.kids)[s..];
    }
  }

  /** A node that only lost a separator still fits. */
  lemma WithoutFits(t: Tree, s: nat)
    requires t.Node? && t.kids != [] && s <= |t.kids| && NodeOf(t).Fits()
    ensures NodeOf(WithoutChild(t, s)).Fits()
  {
    hide NodeData.Fits, SepCosts, SepCost, Seps;
    WithoutNode(t, s);
    var seps := Seps(t.kids);
    FewerSeps(seps, if s == 0 then 0 else s - 1);
    SepsFit(t.left.page, seps);
    var n := NodeOf(WithoutChild(t, s));
    assert s == 0 ==> seps[..0] + seps[1..] == seps[1..];
    SepsFit(n.left, n.seps);
  }

  lemma FewerSeps(seps: seq<InternalEntry>, i: nat)
    requires i < |seps|
    ensures SepCosts(seps[..i] + seps[i + 1..]) <= SepCosts(seps)
  {
    hide SepCosts;
    assert seps == seps[..i] + [seps[i]] + seps[i + 1..];
    SepInsertCosts(seps[..i], seps[i], seps[i + 1..]);
  }

  lemma FirstOf(t: Tree, s: nat, b: seq<LeafEntry>, c: seq<LeafEntry>)
    requires t.Node? && 0 < s <= |t.kids| && ShapeBelow(t)
    ensures Contents(t) != [] && (Before(t, s) + b + c)[0] == Contents(t)[0]
  {
    AroundChild(t, s);
  }

  /** A node left with one child only is replaced by that child. */
  lemma OnlyChild(u: Tree)
    requires u.Node? && u.kids == [] && ShapeBelow(u)
    ensures Contents(u) == Contents(u.left) && Ids(u) == multiset{u.page} + Ids(u.left)
    ensures Shape(u.left) && (BranchingBelow(u) ==> Branching(u.left)) && Contents(u.left) != []
  {
  }

  /** A child whose only entry goes takes its separator along. */
  lemma GoneFits(t: Tree, s: nat, key: Atom)
    requires t.Node? && s <= |t.kids| && Has(Contents(Child(t, s)), key) && Remove(Contents(Child(t, s)), key) == []
    ensures s > 0 ==> !RekeyOverflows(t, s, key)
  {
    hide NodeData.Fits;
  }

  /** The node after its child's deletion, child dropped or replaced: what it holds, its pages and its size. */
  lemma RepairedIs(was: seq<Page>, now: seq<Page>, t: Tree, s: nat, key: Atom, cd: DeleteResult, cu: Tree, w: Tree)
    requires Routes(t, s, key) && Rep(was, t) && Shape(t) && Sorted(Contents(t))
    requires Shrunk(cd, cu, Child(t, s), key, false) && (if Gone(cd) then t.kids != [] else Rep(now, cu))
    requires Same(was, now, OtherIds(t, s))
    requires w == if Gone(cd) then WithoutChild(t, s) else Rekeyed(t, s, cu)
    ensures w.Node? && w.page == t.page && Has(Contents(t), key)
    ensures Contents(w) == Remove(Contents(t), key) && Contents(w) != []
    ensures Ids(w) == OtherIds(t, s) + ShrunkIds(cd, cu)
    ensures ShapeBelow(w) && (Branching(t) ==> BranchingBelow(w)) && RepBelow(now, w)
    ensures NodeOf(w).Fits() <==> !(s > 0 && RekeyOverflows(t, s, key))
  {
    assert Contents(Child(t, s)) != [] by { ChildShape(t, s); }
    SameFewer(was, now, OtherIds(t, s), SiblingIds(t, s));
    assert RepBelow(was, t) && ShapeBelow(t) && NodeOf(t).Fits();
    hide Rep, Same, RepBelow, Remove, Has, Sorted, NodeData.Fits, RekeyOverflows;
    if Gone(cd) {
      ChildGone(t, s, key, cd, cu);
      WithoutFits(t, s);
      GoneFits(t, s, key);
      RepWithoutChild(was, now, t, s);
    } else {
      ChildShrunk(t, s, key, cd, cu);
      RekeyedFits(t, s, cu, key);
      RepRekeyed(was, now, t, s, cu);
    }
  }

  lemma RemoveIs(s: seq<LeafEntry>, key: Atom)
    requires Has(s, key)
    ensures LowerBound(s, key) < |s| && Remove(s, key) == s[..LowerBound(s, key)] + s[LowerBound(s, key) + 1..]
  {
  }

  lemma LeafBounds(entries: seq<LeafEntry>)
    requires LeafNode(entries).Fits()
    ensures |entries| < 0x1_0000 && forall rest: seq<LeafEntry> :: LeafNode(rest).NKeys() == |rest|
  {
    FitsBoundsKeys(LeafNode(entries));
  }

  lemma GoneIs(d: DeleteResult)
    requires d.removeChild && d.replacement == 0
    ensures Gone(d)
  {
  }

  lemma StaysIs(d: DeleteResult, u: Tree)
    requires !d.removeChild || d.replacement != 0
    ensures !Gone(d) && ShrunkIds(d, u) == Ids(u)
  {
  }

  lemma LeftPageIn(w: Tree)
    requires w.Node?
    ensures w.left.page in Ids(w.left) && w.left.page in Ids(w)
  {
  }

  /** A node without separators has one child, and fits its page. */
  lemma KeptSeps(w: Tree)
    requires w.Node?
    ensures Seps(w.kids) == [] <==> w.kids == []
    ensures w.kids == [] ==> NodeOf(w).Fits()
  {
    if w.kids == [] { SepsFit(w.left.page, []); }
  }

  /** A node left with one child is replaced by it; at the root that child becomes the root. */
  lemma OnlyChildShrunk(t: Tree, key: Atom, w: Tree, isRoot: bool)
    requires w.Node? && w.kids == [] && ShapeBelow(w) && (Branching(t) ==> BranchingBelow(w)) && Has(Contents(t), key)
    requires Contents(w) == Remove(Contents(t), key) && w.left.page != 0
    ensures Shrunk(DeleteResult(true, !isRoot, if isRoot then 0 else w.left.page, None), w.left, t, key, isRoot)
  {
    OnlyChild(w);
  }

  /** A node that keeps a separator stays; its first key is reported when its first child changed. */
  lemma NodeShrunk(t: Tree, s: nat, key: Atom, w: Tree, isRoot: bool)
    requires Routes(t, s, key) && ShapeBelow(t) && Sorted(Contents(t)) && Has(Contents(t), key)
    requires w.Node? && w.kids != [] && ShapeBelow(w) && NodeOf(w).Fits() && w.page == t.page
    requires Branching(t) ==> BranchingBelow(w)
    requires Contents(w) == Remove(Contents(t), key) && Contents(w) != []
    ensures Shrunk(DeleteResult(true, false, 0, if s == 0
              && !isRoot then Some(Contents(w)[0].key) else None), w, t, key, isRoot)
  {
    if s > 0 {
      AtChild(t, s, key, key);
      FirstOf(t, s, Remove(Contents(Child(t, s)), key), After(t, s));
    }
    hide NodeData.Fits, Remove, Has, Sorted, ShapeBelow, BranchingBelow, Branching;
    TopShape(w);
    if Branching(t) { TopBranching(w); }
  }

  lemma TopBranching(w: Tree)
    requires w.Node? && w.kids != [] && BranchingBelow(w)
    ensures Branching(w)
  {
  }

  lemma TopShape(u: Tree)
    requires ShapeBelow(u) && NodeOf(u).Fits()
    ensures Shape(u)
  {
    hide NodeData.Fits;
  }

  lemma RemoveKeepsFirst(entries: seq<LeafEntry>, key: Atom)
    requires Has(entries, key)
    ensures entries != []
    ensures LowerBound(entries, key) > 0 && Remove(entries, key) != [] ==> Remove(entries, key)[0] == entries[0]
  {
  }

  lemma ShrunkRoot(d: DeleteResult, u: Tree, t: Tree, key: Atom)
    requires Shrunk(d, u, t, key, true)
    ensures !Gone(d) && Shape(u) && Contents(u) == Remove(Contents(t), key) && Has(Contents(t), key)
    ensures Branching(t) ==> Branching(u)
  {
    hide Remove, Has, Shape, Branching;
  }

  lemma RemoveMissing(s: seq<LeafEntry>, key: Atom)
    requires !Has(s, key)
    ensures Remove(s, key) == s
  {
  }

  /** A leaf that lost an entry: it stays with the rest, or a non-root leaf without entries goes. */
  lemma LeafShrunk(id: PageId, entries: seq<LeafEntry>, key: Atom, isRoot: bool)
    requires Has(entries, key) && LeafNode(entries).Fits()
    ensures var rest := Remove(entries, key);
            && LeafNode(rest).Fits()
            && (!isRoot && rest == [] ==>
                 Shrunk(DeleteResult(true, true, 0, None), Leaf(id, rest), Leaf(id, entries), key, isRoot))
            && (isRoot || rest != [] ==>
                  Shrunk(DeleteResult(true, false, 0, if LowerBound(entries, key) == 0 && rest != [] then Some(rest[0].key) else None),
                         Leaf(id, rest), Leaf(id, entries), key, isRoot))
  {
    RemoveIs(entries, key);
    RemoveFits(entries, LowerBound(entries, key));
    RemoveKeepsFirst(entries, key);
    var rest := Remove(entries, key);
    hide *;
    if !isRoot && rest == [] {
      LeafGone(id, entries, key, rest);
    } else {
      LeafStays(id, entries, key, rest, if LowerBound(entries, key) == 0 && rest != [] then Some(rest[0].key) else None, isRoot);
    }
  }

  lemma LeafGone(id: PageId, entries: seq<LeafEntry>, key: Atom, rest: seq<LeafEntry>)
    requires Has(entries, key) && Remove(entries, key) == rest == []
    ensures Shrunk(DeleteResult(true, true, 0, None), Leaf(id, rest), Leaf(id, entries), key, false)
  {
    hide Has, Remove, Shape;
  }

  lemma LeafStays(id: PageId, entries: seq<LeafEntry>, key: Atom, rest: seq<LeafEntry>, min: Option<Atom>, isRoot: bool)
    requires Has(entries, key) && Remove(entries, key) == rest && LeafNode(rest).Fits() && (isRoot || rest != [])
    requires entries != [] && (rest != [] ==> rest[0].key == match min case Some(k) => k case None => entries[0].key)
    ensures Shrunk(DeleteResult(true, false, 0, min), Leaf(id, rest), Leaf(id, entries), key, isRoot)
  {
    LeafStored([], id, rest);
    hide Has, Remove, Shape, NodeData.Fits;
  }

  lemma GoneIds(d: DeleteResult, u: Tree, id: PageId, outer: multiset<PageId>)
    ensures outer + multiset{id} - multiset{id} == outer
    ensures Gone(d) ==> outer + ShrunkIds(d, u) == outer
  {
  }

  lemma IdsRegroup(a: multiset<PageId>, b: multiset<PageId>, c: multiset<PageId>, d: multiset<PageId>)
    ensures a + b + c == a + (b + c)
    ensures a + b + (c + d) == a + (b + c + d)
  {
  }

  // ----- scanning the children in turn -----

  lemma ScanStep(t: Tree, i: nat, min: Option<Atom>, max: Option<Atom>, limit: int, found: seq<LeafEntry>)
    requires t.Node? && i < |t.kids| && (limit >= 0 ==> |found| <= limit)
    ensures var sofar := Contents(t.left) + KidsContents(t.kids[..i]);
            var next := Contents(Child(t, i + 1));
            && Limited(Limited(found + Between(sofar, min, max), limit) + Between(next, min, max), limit) ==
               Limited(found + Between(Contents(t.left) + KidsContents(t.kids[..i + 1]), min, max), limit)
            && (limit >= 0 ==>
                 |Limited(found + Between(Contents(t.left) + KidsContents(t.kids[..i + 1]), min, max), limit)| <= limit)
  {
    var sofar, next := Contents(t.left) + KidsContents(t.kids[..i]), Contents(Child(t, i + 1));
    assert t.kids[..i + 1][..i] == t.kids[..i];
    UpToChild(t, i + 1);
    assert Before(t, i + 1) == sofar;
    BetweenSplit(sofar, next, min, max);
    LimitedTwice(found, Between(sofar, min, max), Between(next, min, max), limit);
    LimitedTwice(found, Between(sofar, min, max) + Between(next, min, max), [], limit);
  }

  lemma ContentsSplit(t: Tree, i: nat)
    requires t.Node? && i <= |t.kids|
    ensures Contents(t) == Contents(t.left) + KidsContents(t.kids[..i]) + KidsContents(t.kids[i..])
  {
    assert t.kids == t.kids[..i] + t.kids[i..];
    KidsSplit(t.kids[..i], t.kids[i..]);
  }

  lemma ScanStops(t: Tree, i: nat, min: Option<Atom>, max: Option<Atom>, limit: int, found: seq<LeafEntry>,
                  rows: seq<LeafEntry>)
    requires t.Node? && i <= |t.kids| && |found| <= limit && |rows| == limit
    requires rows == Limited(found + Between(Contents(t.left) + KidsContents(t.kids[..i]), min, max), limit)
    ensures rows == Limited(found + Between(Contents(t), min, max), limit)
  {
    hide *;
    var sofar, later := Contents(t.left) + KidsContents(t.kids[..i]), KidsContents(t.kids[i..]);
    ContentsSplit(t, i);
    BetweenSplit(sofar, later, min, max);
    LimitedTwice(found, Between(sofar, min, max), Between(later, min, max), limit);
    LimitedFull(rows, Between(later, min, max), limit);
  }
}
