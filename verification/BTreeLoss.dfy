/** What a refused insertion leaves of a tree. */
module BTreeLoss {
  import opened Bytes
  import opened Atoms
  import opened Options
  import opened SlottedPage
  import opened Nodes
  import opened OrderedEntries
  import opened BTreeShape
  import opened Capacity
  import opened BTreeRefusal
  import opened BTreeSteps

  // ----- one run of entries is lost -----

  /** The goal less one run of entries, which is not at its front. */
  ghost predicate Cut(s: seq<LeafEntry>, goal: seq<LeafEntry>) {
    exists a, b :: 0 < a < b <= |goal| && s == goal[..a] + goal[b..]
  }

  /** The tree as it was, or a tree at the same page with the goal's entries less one run. */
  ghost predicate Remains(l: Tree, t: Tree, goal: seq<LeafEntry>) {
    l == t || (l.page == t.page && Shape(l) && Cut(Contents(l), goal))
  }

  lemma CutIs(a: seq<LeafEntry>, b: seq<LeafEntry>, c: seq<LeafEntry>)
    requires a != [] && b != []
    ensures Cut(a + c, a + b + c)
  {
    var goal := a + b + c;
    assert goal[..|a|] == a && goal[|a + b|..] == c;
  }

  lemma CutFront(a: seq<LeafEntry>, b: seq<LeafEntry>)
    requires a != [] && b != []
    ensures Cut(a, a + b)
  {
    var goal := a + b;
    assert goal[..|a|] == a && goal[|goal|..] == [] && a + [] == a;
  }

  /** What a cut keeps begins as the goal does. */
  lemma CutParts(s: seq<LeafEntry>, goal: seq<LeafEntry>) returns (a: nat, b: nat)
    requires Cut(s, goal)
    ensures 0 < a < b <= |goal| && s == goal[..a] + goal[b..]
    ensures s != [] && s[0] == goal[0]
  {
    a, b :| 0 < a < b <= |goal| && s == goal[..a] + goal[b..];
  }

  lemma CutInside(x: seq<LeafEntry>, s: seq<LeafEntry>, goal: seq<LeafEntry>, y: seq<LeafEntry>)
    requires Cut(s, goal)
    ensures Cut(x + s + y, x + goal + y)
  {
    var a, b := CutParts(s, goal);
    hide Cut;
    CutIs(x + goal[..a], goal[a..b], goal[b..] + y);
    assert x + goal[..a] + (goal[b..] + y) == x + s + y;
    assert x + goal[..a] + goal[a..b] + (goal[b..] + y) == x + goal + y;
  }

  /** A cut of a sorted list is sorted. */
  lemma CutSorted(s: seq<LeafEntry>, goal: seq<LeafEntry>)
    requires Cut(s, goal) && Sorted(goal)
    ensures Sorted(s)
  {
    var a, b := CutParts(s, goal);
    hide Cut;
    forall i, j | 0 <= i < j < |s|
      ensures Compare(s[i].key, s[j].key) < 0
    {
      assert s[i] == goal[if i < a then i else i - a + b] && s[j] == goal[if j < a then j else j - a + b];
    }
  }

  // ----- which entries stay -----

  ghost function Upto(s: seq<LeafEntry>, key: Atom): seq<LeafEntry> {
    s[..LowerBound(s, key)]
  }

  /**
   * What a node keeps that is refused after its child split: its own left half if that fits, and else all but the child's
   * right half.
   */
  ghost function AfterSplit(t: Tree, s: nat, key: Atom, value: Atom, promoted: Atom): seq<LeafEntry>
    requires t.Node? && s <= |t.kids|
  {
    var all := WithSep(t, s, promoted);
    var mid := |all| / 2;
    if mid > 0 && InternalNode(t.left.page, all[..mid]).Fits() then Upto(Put(Contents(t), key, value), all[mid].key)
    else Before(t, s) + Upto(Put(Contents(Child(t, s)), key, value), promoted) + After(t, s)
  }

  /** The entries left by a refused insertion that found the pages it asked for. */
  ghost function AfterRefusal(t: Tree, key: Atom, value: Atom): seq<LeafEntry>
    decreases t
  {
    match t
    case Leaf(_, entries) =>
      var all := Put(entries, key, value);
      if !Has(entries, key) && BadSplit(all) then all[..|all| / 2] else entries
    case Node(_, left, kids) =>
      var s := Route(kids, key);
      var below := if s == 0 then PutOutcome(left, key, value) else PutOutcome(kids[s - 1].sub, key, value);
      if below.Halves? then AfterSplit(t, s, key, value, below.promoted)
      else Before(t, s) + (if s == 0 then AfterRefusal(left, key, value) else AfterRefusal(kids[s - 1].sub, key, value)) + After(t, s)
  }

  lemma AfterAt(t: Tree, s: nat, key: Atom, value: Atom)
    requires t.Node? && s <= |t.kids| && Route(t.kids, key) == s
    ensures var below := PutOutcome(Child(t, s), key, value);
            AfterRefusal(t, key, value) ==
            if below.Halves? then AfterSplit(t, s, key, value, below.promoted)
            else Before(t, s) + AfterRefusal(Child(t, s), key, value) + After(t, s)
  {
    hide AfterSplit, PutOutcome, Before, After, Route, BadSplit, Put, Has, Contents, KidsContents, Compare,
      NodeData.Fits;
  }

  lemma UptoIs(a: seq<LeafEntry>, b: seq<LeafEntry>)
    requires Sorted(a + b) && b != []
    ensures Upto(a + b, b[0].key) == a
  {
    var s := a + b;
    assert s[|a|] == b[0];
    forall i | 0 <= i < |a|
      ensures Compare(s[i].key, b[0].key) < 0
    {
      assert Compare(s[i].key, s[|a|].key) < 0;
    }
    CompareZero(b[0].key, b[0].key);
    BoundIsUnique(s, b[0].key, |a|);
    assert s[..|a|] == a;
  }

  /** Which pages the separators lead to does not matter. */
  lemma AfterSplitIs(t: Tree, s: nat, key: Atom, value: Atom, promoted: Atom, right: PageId)
    requires t.Node? && s <= |t.kids|
    ensures var all := Seps(t.kids)[..s] + [InternalEntry(promoted, right)] + Seps(t.kids)[s..];
            AfterSplit(t, s, key, value, promoted) ==
            if |all| >= 2
               && InternalNode(t.left.page, all[..|all| / 2]).Fits() then Upto(Put(Contents(t), key, value), all[|all| / 2].key)
            else Before(t, s) + Upto(Put(Contents(Child(t, s)), key, value), promoted) + After(t, s)
  {
    hide NodeData.Fits, Upto, Put, Before, After;
    var all, other := Seps(t.kids)[..s] + [InternalEntry(promoted, right)] + Seps(t.kids)[s..], WithSep(t, s, promoted);
    assert |all| == |other| && forall i :: 0 <= i < |all| ==> all[i].key == other[i].key;
    SameSizeFits(t.left.page, t.left.page, all[..|all| / 2], other[..|all| / 2]);
  }

  // ----- a leaf -----

  lemma LeafAfter(id: PageId, entries: seq<LeafEntry>, key: Atom, value: Atom)
    ensures var all := Put(entries, key, value);
            AfterRefusal(Leaf(id, entries), key, value) ==
            if !Has(entries, key) && BadSplit(all) then all[..|all| / 2] else entries
    ensures Contents(Leaf(id, entries)) == entries
  {
    hide Has, Put, BadSplit;
  }

  lemma LeafKind(t: Tree)
    ensures t.Leaf? ==> Contents(t) == t.entries
  {
  }

  lemma SepCount(left: PageId, seps: seq<InternalEntry>)
    ensures InternalNode(left, seps).NKeys() == |seps|
  {
  }

  /** The pages of a split node. */
  lemma BothIds(outer: multiset<PageId>, below: multiset<PageId>, id: PageId, right: PageId)
    ensures outer + (multiset{id} + below) + multiset{right} == outer + below + multiset{id} + multiset{right}
    ensures outer + below <= outer + (multiset{id} + below) && outer <= outer + below && below <= outer + below
    ensures outer + below + multiset{id} == outer + (multiset{id} + below)
  {
  }

  /** An empty leaf is a tree. */
  lemma EmptyStored(pages: seq<Page>)
    ensures LeafNode([]).Fits() && LeafNode([]).NKeys() == 0 && Shape(Leaf(1, [])) && 1 in multiset{1}
    ensures 1 < |pages| && LoadPage(pages[1]) == Some(LeafNode([])) ==> Rep(pages, Leaf(1, []))
  {
    LeafUsed([]);
    LeafStored(pages, 1, []);
  }

  lemma SameAt(was: seq<Page>, now: seq<Page>, live: multiset<PageId>, id: PageId)
    requires Same(was, now, live) && id in live
    ensures id < |was| && id < |now| && now[id] == was[id]
  {
  }

  lemma NewRootPage(page: PageId, l: Tree, key: Atom, r: Tree)
    ensures NewRoot(page, l, key, r).Node? && NewRoot(page, l, key, r).page == page
  {
  }

  lemma IdsMoved(rest: multiset<PageId>, a: multiset<PageId>, b: multiset<PageId>, page: PageId)
    ensures rest + (a + b) + multiset{page} == rest + (multiset{page} + (a + b))
    ensures a <= rest + (a + b) && b <= rest + (a + b)
  {
  }

  lemma NoneGone(ids: multiset<PageId>)
    ensures ids + multiset{} == ids
  {
  }

  lemma KeptNow(pages: seq<Page>, id: PageId)
    requires id < |pages|
    ensures Kept(pages, pages, id)
  {
  }

  /** A refused leaf: as it was, or its left half. */
  lemma LeafRemains(id: PageId, entries: seq<LeafEntry>, key: Atom, value: Atom)
    requires var all := Put(entries, key, value); |all| >= 2 && LeafNode(all[..|all| / 2]).Fits()
    ensures var all := Put(entries, key, value);
            Remains(Leaf(id, all[..|all| / 2]), Leaf(id, entries), all)
  {
    var all := Put(entries, key, value);
    var a, b := all[..|all| / 2], all[|all| / 2..];
    assert a + b == all;
    hide *;
    FrontRemains(id, entries, a, b);
  }

  lemma FrontRemains(id: PageId, entries: seq<LeafEntry>, a: seq<LeafEntry>, b: seq<LeafEntry>)
    requires a != [] && b != [] && LeafNode(a).Fits()
    ensures Remains(Leaf(id, a), Leaf(id, entries), a + b)
  {
    LeafStored([], id, a);
    LeafKind(Leaf(id, a));
    hide *;
    CutFront(a, b);
    RemainsIs(Leaf(id, a), Leaf(id, entries), a + b);
  }

  lemma RemainsIs(l: Tree, t: Tree, goal: seq<LeafEntry>)
    requires l.page == t.page && Shape(l) && Cut(Contents(l), goal)
    ensures Remains(l, t, goal)
  {
  }

  lemma Untouched(t: Tree, goal: seq<LeafEntry>)
    ensures Remains(t, t, goal)
  {
  }

  /** In a page that fits all sizes are small enough to add up. */
  lemma PutAddable(entries: seq<LeafEntry>, key: Atom, value: Atom)
    requires LeafNode(entries).Fits() && !Has(entries, key) && Addable(LeafEntry(key, value))
    ensures AllAddable(Put(entries, key, value))
  {
    PutInserts(entries, key, value);
    hide NodeData.Fits, Put, Addable, Has, LowerBound;
    var all, p := Put(entries, key, value), LowerBound(entries, key);
    forall i | 0 <= i < |all|
      ensures Addable(all[i])
    {
      if i != p {
        var j := if i < p then i else i - 1;
        assert all[i] == entries[j];
        if !Addable(entries[j]) { TooLarge(entries, j); }
      }
    }
  }

  // ----- a node -----

  /** The node over a child that lost a run. */
  lemma CutAbove(t: Tree, s: nat, c: Tree, key: Atom, value: Atom)
    requires Routes(t, s, key) && Shape(t) && Sorted(Contents(t))
    requires c.page == Child(t, s).page && Shape(c) && Cut(Contents(c), Put(Contents(Child(t, s)), key, value))
    ensures var u := WithChild(t, s, c);
            && Remains(u, t, Put(Contents(t), key, value))
            && Contents(u) == Before(t, s) + Contents(c) + After(t, s)
            && NodeOf(u) == NodeOf(t) && Ids(u) == OtherIds(t, s) + Ids(c)
  {
    var u, goal := WithChild(t, s, c), Put(Contents(Child(t, s)), key, value);
    RoutesParts(t, s, key);
    ShapeParts(t);
    AtChild(t, s, key, value);
    var a, b := CutParts(Contents(c), goal);
    if s > 0 { FirstSurvives(t, s, key, value); }
    assert u.page == t.page;
    hide *;
    WithChildIs(t, s, c);
    CutInside(Before(t, s), Contents(c), goal, After(t, s));
    TopShape(u);
    RemainsIs(u, t, Put(Contents(t), key, value));
  }

  lemma SameChild(t: Tree, s: nat)
    requires t.Node? && s <= |t.kids|
    ensures WithChild(t, s, Child(t, s)) == t
  {
    assert s > 0 ==> t.kids[s - 1 := t.kids[s - 1]] == t.kids;
  }

  /** The node with what its child kept, whether that is all or not. */
  lemma RemainsAbove(t: Tree, s: nat, c: Tree, key: Atom, value: Atom)
    requires Routes(t, s, key) && Shape(t) && Sorted(Contents(t))
    requires Remains(c, Child(t, s), Put(Contents(Child(t, s)), key, value))
    ensures var u := WithChild(t, s, c);
            && Remains(u, t, Put(Contents(t), key, value))
            && Contents(u) == Before(t, s) + Contents(c) + After(t, s)
            && NodeOf(u) == NodeOf(t) && Ids(u) == OtherIds(t, s) + Ids(c)
            && (c == Child(t, s) ==> u == t)
  {
    RoutesParts(t, s, key);
    if c == Child(t, s) {
      hide *;
      SameChild(t, s);
      AroundChild(t, s);
      IdsAtChild(t, s, multiset{});
      NoOthers(Ids(t));
      NoOthers(OtherIds(t, s));
      Untouched(t, Put(Contents(t), key, value));
    } else {
      hide Put, Shape, Cut, Sorted, Contents, Routes;
      CutAbove(t, s, c, key, value);
    }
  }

  /** The child split and the node stayed as it was: the child's right half is lost. */
  lemma SplitRemains(t: Tree, s: nat, cl: Tree, cr: Tree, promote: Promote, key: Atom, value: Atom, branching: bool)
    requires Routes(t, s, key) && Shape(t) && Sorted(Contents(t))
    requires Grown(true, promote, cl, cr, Child(t, s).page, Put(Contents(Child(t, s)), key, value), branching)
    ensures var u := WithChild(t, s, cl);
            && Remains(u, t, Put(Contents(t), key, value))
            && Contents(u) == Before(t, s) + Upto(Put(Contents(Child(t, s)), key, value), promote.key) + After(t, s)
            && NodeOf(u) == NodeOf(t) && Ids(u) == OtherIds(t, s) + Ids(cl)
  {
    var goal := Put(Contents(Child(t, s)), key, value);
    GrownSplitIs(promote, cl, cr, Child(t, s).page, goal, branching);
    AtChild(t, s, key, value);
    PutSorted(Contents(Child(t, s)), key, value);
    UptoIs(Contents(cl), Contents(cr));
    CutFront(Contents(cl), Contents(cr));
    hide Cut, NodeData.Fits, Put, Sorted, Grown, Upto;
    RemainsAbove(t, s, cl, key, value);
  }

  /** The node's left half alone: its right half is lost. */
  lemma HalfRemains(u: Tree, mid: nat, t: Tree)
    requires u.Node? && 0 < mid < |u.kids| && ShapeBelow(u) && u.page == t.page && Sorted(Contents(u))
    requires NodeOf(LeftHalf(u, mid)).Fits()
    ensures Remains(LeftHalf(u, mid), t, Contents(u))
    ensures Contents(LeftHalf(u, mid)) == Upto(Contents(u), u.kids[mid].key)
  {
    var l, r := LeftHalf(u, mid), RightHalf(u, mid, 0);
    HalvesAre(u, mid, 0);
    HalvesShape(u, mid, 0);
    TopShape(l);
    hide NodeData.Fits, ShapeBelow, Sorted, LeftHalf, RightHalf, Contents;
    UptoIs(Contents(l), Contents(r));
    CutFront(Contents(l), Contents(r));
    assert l.page == u.page by { assert l == LeftHalf(u, mid); LeftPage(u, mid); }
  }

  lemma LeftPage(u: Tree, mid: nat)
    requires u.Node? && mid < |u.kids|
    ensures LeftHalf(u, mid).page == u.page && LeftHalf(u, mid) != u
  {
    assert |LeftHalf(u, mid).kids| == mid;
  }

  lemma LeftStored(was: seq<Page>, now: seq<Page>, u: Tree, mid: nat)
    requires u.Node? && RepBelow(was, u) && Same(was, now, BelowIds(u)) && mid < |u.kids|
    requires u.page < |now| && LoadPage(now[u.page]) == Some(InternalNode(u.left.page, Seps(u.kids)[..mid]))
    ensures Rep(now, LeftHalf(u, mid))
  {
    RepBelowFrame(was, now, u);
    RepHalves(now, u, mid, 0);
    SepsHalves(u, mid, 0);
  }

  /** The node's left half fits its page. */
  ghost predicate HalfFits(u: Tree)
    requires u.Node?
  {
    |u.kids| >= 2 && InternalNode(u.left.page, Seps(u.kids)[..|u.kids| / 2]).Fits()
  }

  lemma HalfIs(u: Tree)
    requires u.Node?
    ensures HalfFits(u) <==>
              |NodeOf(u).seps| >= 2 && InternalNode(NodeOf(u).left, NodeOf(u).seps[..|NodeOf(u).seps| / 2]).Fits()
    ensures |NodeOf(u).seps| == |u.kids|
  {
    hide NodeData.Fits;
  }

  /** The node's left half is what its page holds now. */
  ghost predicate LeftStays(u: Tree, l: Tree, pages: seq<Page>) {
    u.Node? && HalfFits(u) && l == LeftHalf(u, |u.kids| / 2) && Rep(pages, l)
  }

  lemma HalfStays(u: Tree, l: Tree, t: Tree)
    requires u.Node? && HalfFits(u) && l == LeftHalf(u, |u.kids| / 2)
    requires ShapeBelow(u) && u.page == t.page && Sorted(Contents(u))
    ensures Remains(l, t, Contents(u)) && Contents(l) == Upto(Contents(u), u.kids[|u.kids| / 2].key)
  {
    SepsHalves(u, |u.kids| / 2, 0);
    hide NodeData.Fits, Sorted, ShapeBelow, Contents;
    HalfRemains(u, |u.kids| / 2, t);
  }

  /** The entries kept, told from the split node. */
  lemma AfterHalf(t: Tree, s: nat, key: Atom, value: Atom, promote: Promote, u: Tree)
    requires t.Node? && s <= |t.kids| && u.Node? && u.left.page == t.left.page
    requires Seps(u.kids) == Seps(t.kids)[..s] + [InternalEntry(promote.key, promote.right)] + Seps(t.kids)[s..]
    ensures AfterSplit(t, s, key, value, promote.key) ==
            if HalfFits(u) then Upto(Put(Contents(t), key, value), u.kids[|u.kids| / 2].key)
            else Before(t, s) + Upto(Put(Contents(Child(t, s)), key, value), promote.key) + After(t, s)
  {
    hide NodeData.Fits, Upto, Put, Before, After, AfterSplit;
    AfterSplitIs(t, s, key, value, promote.key, promote.right);
    assert |Seps(u.kids)| == |u.kids|;
    if |u.kids| >= 2 { SepAt(u, |u.kids| / 2); }
  }

  lemma SplitIdsLess(outer: multiset<PageId>, o: multiset<PageId>, c: multiset<PageId>, r: multiset<PageId>,
                     unused: multiset<PageId>)
    ensures outer + (o + c + r) + unused == outer + (o + c) + (unused + r)
    ensures outer + o <= outer + (o + c + r) && c <= outer + (o + c + r)
  {
  }
}
