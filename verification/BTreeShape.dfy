/** The tree a page store represents: its contents, its pages, its search order, and how edits change them. */
module BTreeShape {
  import opened Bytes
  import opened Atoms
  import opened Options
  import opened SlottedPage
  import opened Nodes
  import opened OrderedEntries

  datatype Tree =
    | Leaf(page: PageId, entries: seq<LeafEntry>)
    | Node(page: PageId, left: Tree, kids: seq<Kid>)

  datatype Kid = Kid(key: Atom, sub: Tree)

  // ----- contents and pages -----

  ghost function Contents(t: Tree): seq<LeafEntry>
    decreases t, 0
  {
    match t
    case Leaf(_, entries) => entries
    case Node(_, left, kids) => Contents(left) + KidsContents(kids)
  }

  ghost function KidsContents(kids: seq<Kid>): seq<LeafEntry>
    decreases kids, 1
  {
    if kids == [] then []
    else assert kids[0].sub < kids[0]; Contents(kids[0].sub) + KidsContents(kids[1..])
  }

  /** Every page of the tree, once for each place it is used. */
  ghost function Ids(t: Tree): multiset<PageId>
    decreases t, 0
  {
    match t
    case Leaf(page, _) => multiset{page}
    case Node(page, left, kids) => multiset{page} + Ids(left) + KidsIds(kids)
  }

  ghost function KidsIds(kids: seq<Kid>): multiset<PageId>
    decreases kids, 1
  {
    if kids == [] then multiset{}
    else assert kids[0].sub < kids[0]; Ids(kids[0].sub) + KidsIds(kids[1..])
  }

  lemma {:induction false} KidsSplit(a: seq<Kid>, b: seq<Kid>)
    ensures KidsContents(a + b) == KidsContents(a) + KidsContents(b)
    ensures KidsIds(a + b) == KidsIds(a) + KidsIds(b)
  {
    if a == [] {
      assert a + b == b;
    } else {
      assert (a + b)[1..] == a[1..] + b;
      KidsSplit(a[1..], b);
    }
  }

  // ----- the node stored for a tree -----

  ghost function Seps(kids: seq<Kid>): (s: seq<InternalEntry>)
    ensures |s| == |kids|
  {
    seq(|kids|, i requires 0 <= i < |kids| => InternalEntry(kids[i].key, kids[i].sub.page))
  }

  ghost function NodeOf(t: Tree): NodeData {
    match t
    case Leaf(_, entries) => LeafNode(entries)
    case Node(_, left, kids) => InternalNode(left.page, Seps(kids))
  }

  /** A kid is nonempty and its separator is the first key below it. */
  ghost predicate KidOk(kid: Kid) {
    Contents(kid.sub) != [] && kid.key == Contents(kid.sub)[0].key
  }

  /** Everything the store promises of a tree except that its top node fits a page. */
  ghost predicate ShapeBelow(t: Tree)
    decreases t, 0
  {
    t.Node? ==>
      && Contents(t.left) != []
      && Shape(t.left)
      && forall kid :: kid in t.kids ==> KidOk(kid) && Shape(kid.sub)
  }

  ghost predicate Shape(t: Tree)
    decreases t, 1
  {
    ShapeBelow(t) && NodeOf(t).Fits()
  }

  ghost predicate BranchingBelow(t: Tree)
    decreases t, 0
  {
    t.Node? ==> Branching(t.left) && forall kid :: kid in t.kids ==> Branching(kid.sub)
  }

  /** Every internal node has a separator. */
  ghost predicate Branching(t: Tree)
    decreases t, 1
  {
    t.Node? ==> t.kids != [] && BranchingBelow(t)
  }

  // ----- the pages that represent a tree -----

  ghost predicate RepBelow(pages: seq<Page>, t: Tree)
    decreases t, 0
  {
    t.Node? ==> Rep(pages, t.left) && forall kid :: kid in t.kids ==> Rep(pages, kid.sub)
  }

  ghost predicate Rep(pages: seq<Page>, t: Tree)
    decreases t, 1
  {
    && t.page < |pages|
    && LoadPage(pages[t.page]) == Some(NodeOf(t))
    && RepBelow(pages, t)
  }

  /** The pages in `live` are the same in both stores. */
  ghost predicate Same(was: seq<Page>, now: seq<Page>, live: multiset<PageId>) {
    forall p: PageId :: p in live ==> p < |was| && p < |now| && now[p] == was[p]
  }

  lemma {:induction false} KidsIdsHas(kids: seq<Kid>, kid: Kid)
    requires kid in kids
    ensures Ids(kid.sub) <= KidsIds(kids)
  {
    if kid != kids[0] { KidsIdsHas(kids[1..], kid); }
  }

  lemma SameFewer(was: seq<Page>, now: seq<Page>, live: multiset<PageId>, some: multiset<PageId>)
    requires Same(was, now, live) && some <= live
    ensures Same(was, now, some)
  {
    forall p: PageId | p in some
      ensures p in live
    {
    }
  }

  /** Only the tree's own pages matter for what it represents. */
  lemma {:induction false} RepFrame(was: seq<Page>, now: seq<Page>, t: Tree)
    requires Rep(was, t) && Same(was, now, Ids(t))
    ensures Rep(now, t)
    decreases t, 0
  {
    assert t.page in Ids(t);
    if t.Node? {
      SameFewer(was, now, Ids(t), Ids(t.left));
      RepFrame(was, now, t.left);
      SameFewer(was, now, Ids(t), KidsIds(t.kids));
      RepKidsFrame(was, now, t.kids);
    }
  }

  lemma {:induction false} RepKidsFrame(was: seq<Page>, now: seq<Page>, kids: seq<Kid>)
    requires (forall kid :: kid in kids ==> Rep(was, kid.sub)) && Same(was, now, KidsIds(kids))
    ensures forall kid :: kid in kids ==> Rep(now, kid.sub)
    decreases kids, 1
  {
    if kids != [] {
      assert kids[0] in kids && kids[0].sub < kids[0];
      SameFewer(was, now, KidsIds(kids), Ids(kids[0].sub));
      RepFrame(was, now, kids[0].sub);
      SameFewer(was, now, KidsIds(kids), KidsIds(kids[1..]));
      assert forall kid :: kid in kids[1..] ==> kid in kids;
      RepKidsFrame(was, now, kids[1..]);
      assert forall kid :: kid in kids ==> kid == kids[0] || kid in kids[1..];
    }
  }

  // ----- one child of a node -----

  ghost function Child(t: Tree, s: nat): Tree
    requires t.Node? && s <= |t.kids|
  {
    if s == 0 then t.left else t.kids[s - 1].sub
  }

  ghost function Before(t: Tree, s: nat): seq<LeafEntry>
    requires t.Node? && s <= |t.kids|
  {
    if s == 0 then [] else Contents(t.left) + KidsContents(t.kids[..s - 1])
  }

  ghost function After(t: Tree, s: nat): seq<LeafEntry>
    requires t.Node? && s <= |t.kids|
  {
    KidsContents(t.kids[s..])
  }

  /** The node's own page and the pages of the other children. */
  ghost function OtherIds(t: Tree, s: nat): multiset<PageId>
    requires t.Node? && s <= |t.kids|
  {
    multiset{t.page} + SiblingIds(t, s)
  }

  ghost function SiblingIds(t: Tree, s: nat): multiset<PageId>
    requires t.Node? && s <= |t.kids|
  {
    (if s == 0 then multiset{} else Ids(t.left) + KidsIds(t.kids[..s - 1])) + KidsIds(t.kids[s..])
  }

  lemma AroundChild(t: Tree, s: nat)
    requires t.Node? && s <= |t.kids|
    ensures Contents(t) == Before(t, s) + Contents(Child(t, s)) + After(t, s)
    ensures Ids(t) == OtherIds(t, s) + Ids(Child(t, s))
  {
    if s > 0 {
      var kids := t.kids;
      assert kids == kids[..s - 1] + kids[s - 1..];
      KidsSplit(kids[..s - 1], kids[s - 1..]);
      assert kids[s - 1..][1..] == kids[s..];
    } else {
      assert t.kids[0..] == t.kids;
    }
  }

  /** Following the separators leads to the only child where the key can be. */
  lemma RouteIsRight(t: Tree, s: nat, k: Atom)
    requires t.Node? && s <= |t.kids| && ShapeBelow(t) && Sorted(Contents(t))
    requires s > 0 ==> Compare(t.kids[s - 1].key, k) <= 0
    requires s < |t.kids| ==> Compare(k, t.kids[s].key) < 0
    ensures AllBelow(Before(t, s), k) && AllAbove(After(t, s), k)
    ensures Sorted(Contents(Child(t, s)))
  {
    var a, b, c := Before(t, s), Contents(Child(t, s)), After(t, s);
    AroundChild(t, s);
    SortedParts(a + b, c);
    SortedParts(a, b);
    if s > 0 {
      assert t.kids[s - 1] in t.kids;
      forall i | 0 <= i < |a|
        ensures Compare(a[i].key, k) < 0
      {
        CompareTransitive(a[i].key, b[0].key, k);
      }
    }
    if s < |t.kids| {
      assert t.kids[s] in t.kids;
      assert t.kids[s..][0] == t.kids[s];
      assert c[0] == Contents(t.kids[s].sub)[0];
      forall i | 0 <= i < |c|
        ensures Compare(k, c[i].key) < 0
      {
        if i > 0 { CompareTransitive(k, c[0].key, c[i].key); }
      }
    }
  }

  // ----- replacing a child -----

  ghost function WithChild(t: Tree, s: nat, c: Tree): Tree
    requires t.Node? && s <= |t.kids|
  {
    if s == 0 then Node(t.page, c, t.kids) else Node(t.page, t.left, t.kids[s - 1 := Kid(t.kids[s - 1].key, c)])
  }

  lemma WithChildParts(t: Tree, s: nat, c: Tree)
    requires t.Node? && s <= |t.kids|
    ensures var u := WithChild(t, s, c);
            Child(u, s) == c && Before(u, s) == Before(t, s) && After(u, s) == After(t, s) && SiblingIds(u, s) == SiblingIds(t, s)
  {
    if s > 0 {
      var kids := WithChild(t, s, c).kids;
      assert kids[..s - 1] == t.kids[..s - 1] && kids[s..] == t.kids[s..];
    }
  }

  lemma WithChildKids(t: Tree, s: nat, c: Tree, kid: Kid)
    requires t.Node? && s <= |t.kids| && kid in WithChild(t, s, c).kids
    ensures kid in t.kids || (s > 0 && kid == Kid(t.kids[s - 1].key, c))
  {
  }

  /** What replacing a child by one with the same first key does. */
  lemma WithChildIs(t: Tree, s: nat, c: Tree)
    requires t.Node? && s <= |t.kids| && ShapeBelow(t) && Shape(c)
    requires Contents(c) != []
    requires s > 0 ==> Contents(c)[0].key == t.kids[s - 1].key
    ensures var u := WithChild(t, s, c);
            && Contents(u) == Before(t, s) + Contents(c) + After(t, s)
            && Ids(u) == OtherIds(t, s) + Ids(c)
            && ShapeBelow(u)
            && (c.page == Child(t, s).page ==> NodeOf(u) == NodeOf(t))
  {
    var u := WithChild(t, s, c);
    AroundChild(u, s);
    WithChildParts(t, s, c);
    forall kid | kid in u.kids
      ensures KidOk(kid) && Shape(kid.sub)
    {
      WithChildKids(t, s, c, kid);
    }
    if c.page == Child(t, s).page {
      assert Seps(u.kids) == Seps(t.kids);
    }
  }

  lemma WithChildBranching(t: Tree, s: nat, c: Tree)
    requires t.Node? && s <= |t.kids| && Branching(t) && Branching(c)
    ensures Branching(WithChild(t, s, c))
  {
    forall kid | kid in WithChild(t, s, c).kids
      ensures Branching(kid.sub)
    {
      WithChildKids(t, s, c, kid);
    }
  }

  /** Trees next to child `s` are still there when their pages are unchanged. */
  lemma RepSiblings(was: seq<Page>, now: seq<Page>, t: Tree, s: nat)
    requires t.Node? && s <= |t.kids| && RepBelow(was, t) && Same(was, now, SiblingIds(t, s))
    ensures s > 0 ==> Rep(now, t.left)
    ensures s > 0 ==> forall kid :: kid in t.kids[..s - 1] ==> Rep(now, kid.sub)
    ensures forall kid :: kid in t.kids[s..] ==> Rep(now, kid.sub)
  {
    if s > 0 {
      SameFewer(was, now, SiblingIds(t, s), Ids(t.left));
      RepFrame(was, now, t.left);
      SameFewer(was, now, SiblingIds(t, s), KidsIds(t.kids[..s - 1]));
      RepKidsFrame(was, now, t.kids[..s - 1]);
    }
    SameFewer(was, now, SiblingIds(t, s), KidsIds(t.kids[s..]));
    RepKidsFrame(was, now, t.kids[s..]);
  }

  lemma KidAt(kids: seq<Kid>, s: nat, kid: Kid, changed: Kid)
    requires 0 < s <= |kids| && kid in kids[s - 1 := changed]
    ensures kid in kids[..s - 1] || kid == changed || kid in kids[s..]
  {
    assert kids[s - 1 := changed] == kids[..s - 1] + [changed] + kids[s..];
  }

  lemma RepWithChild(was: seq<Page>, now: seq<Page>, t: Tree, s: nat, c: Tree)
    requires t.Node? && s <= |t.kids| && RepBelow(was, t) && Rep(now, c)
    requires Same(was, now, SiblingIds(t, s))
    ensures RepBelow(now, WithChild(t, s, c))
  {
    RepSiblings(was, now, t, s);
    if s == 0 {
      assert t.kids[0..] == t.kids;
    } else {
      forall kid | kid in WithChild(t, s, c).kids
        ensures Rep(now, kid.sub)
      {
        KidAt(t.kids, s, kid, Kid(t.kids[s - 1].key, c));
      }
    }
  }

  // ----- a child that split -----

  ghost function WithKid(t: Tree, s: nat, kid: Kid): Tree
    requires t.Node? && s <= |t.kids|
  {
    Node(t.page, t.left, t.kids[..s] + [kid] + t.kids[s..])
  }

  lemma WithKidKids(t: Tree, s: nat, kid: Kid, k: Kid)
    requires t.Node? && s <= |t.kids| && k in WithKid(t, s, kid).kids
    ensures k == kid || k in t.kids
  {
  }

  lemma OneKid(kid: Kid)
    ensures KidsContents([kid]) == Contents(kid.sub) && KidsIds([kid]) == Ids(kid.sub)
  {
    assert [kid][1..] == [];
    assert KidsContents([kid]) == Contents(kid.sub) + KidsContents([]);
    assert KidsIds([kid]) == Ids(kid.sub) + KidsIds([]);
  }

  lemma KidsInsert(a: seq<Kid>, kid: Kid, c: seq<Kid>)
    ensures KidsContents(a + [kid] + c) == KidsContents(a) + Contents(kid.sub) + KidsContents(c)
    ensures KidsIds(a + [kid] + c) == KidsIds(a) + Ids(kid.sub) + KidsIds(c)
  {
    KidsSplit(a + [kid], c);
    KidsSplit(a, [kid]);
    OneKid(kid);
  }

  lemma Assoc<T>(w: seq<T>, x: seq<T>, y: seq<T>, z: seq<T>)
    ensures w + (x + y + z) == (w + x) + y + z
    ensures w + (x + y + z) == (w + x) + (y + z)
  {
  }

  /** A new kid right after child `s` adds its contents there. */
  lemma WithKidContents(t: Tree, s: nat, kid: Kid)
    requires t.Node? && s <= |t.kids|
    ensures Contents(WithKid(t, s, kid)) == Before(t, s) + Contents(Child(t, s)) + Contents(kid.sub) + After(t, s)
  {
    KidsInsert(t.kids[..s], kid, t.kids[s..]);
    UpToChild(t, s);
    Assoc(Contents(t.left), KidsContents(t.kids[..s]), Contents(kid.sub), After(t, s));
  }

  lemma WithKidIds(t: Tree, s: nat, kid: Kid)
    requires t.Node? && s <= |t.kids|
    ensures Ids(WithKid(t, s, kid)) == Ids(t) + Ids(kid.sub)
  {
    hide Contents, KidsContents, KidsIds;
    KidsInsert(t.kids[..s], kid, t.kids[s..]);
    assert t.kids == t.kids[..s] + t.kids[s..];
    KidsSplit(t.kids[..s], t.kids[s..]);
    var a, b := KidsIds(t.kids[..s]), KidsIds(t.kids[s..]);
    assert Ids(t) == multiset{t.page} + Ids(t.left) + (a + b);
  }

  lemma WithKidShape(t: Tree, s: nat, kid: Kid)
    requires t.Node? && s <= |t.kids| && ShapeBelow(t) && KidOk(kid) && Shape(kid.sub)
    ensures ShapeBelow(WithKid(t, s, kid))
  {
    forall k | k in WithKid(t, s, kid).kids
      ensures KidOk(k) && Shape(k.sub)
    {
      WithKidKids(t, s, kid, k);
    }
  }

  lemma UpToChild(t: Tree, s: nat)
    requires t.Node? && s <= |t.kids|
    ensures Contents(t.left) + KidsContents(t.kids[..s]) == Before(t, s) + Contents(Child(t, s))
  {
    if s > 0 {
      assert t.kids[..s] == t.kids[..s - 1] + [t.kids[s - 1]];
      KidsSplit(t.kids[..s - 1], [t.kids[s - 1]]);
      OneKid(t.kids[s - 1]);
    }
  }

  lemma RepWithKid(pages: seq<Page>, t: Tree, s: nat, kid: Kid)
    requires t.Node? && s <= |t.kids| && RepBelow(pages, t) && Rep(pages, kid.sub)
    ensures RepBelow(pages, WithKid(t, s, kid))
  {
    forall k | k in WithKid(t, s, kid).kids
      ensures Rep(pages, k.sub)
    {
      WithKidKids(t, s, kid, k);
    }
  }

  lemma SepsWithKid(t: Tree, s: nat, kid: Kid)
    requires t.Node? && s <= |t.kids|
    ensures Seps(WithKid(t, s, kid).kids) ==
            Seps(t.kids)[..s] + [InternalEntry(kid.key, kid.sub.page)] + Seps(t.kids)[s..]
  {
  }

  lemma WithKidBranching(t: Tree, s: nat, kid: Kid)
    requires t.Node? && s <= |t.kids| && BranchingBelow(t) && Branching(kid.sub)
    ensures Branching(WithKid(t, s, kid))
  {
    forall k | k in WithKid(t, s, kid).kids
      ensures Branching(k.sub)
    {
      WithKidKids(t, s, kid, k);
    }
  }

  // ----- splitting an internal node -----

  ghost function LeftHalf(t: Tree, mid: nat): Tree
    requires t.Node? && mid < |t.kids|
  {
    Node(t.page, t.left, t.kids[..mid])
  }

  ghost function RightHalf(t: Tree, mid: nat, page: PageId): Tree
    requires t.Node? && mid < |t.kids|
  {
    Node(page, t.kids[mid].sub, t.kids[mid + 1..])
  }

  /** Moving the kids from `mid` on to a new page loses nothing. */
  lemma HalvesAre(t: Tree, mid: nat, page: PageId)
    requires t.Node? && mid < |t.kids|
    ensures var l, r := LeftHalf(t, mid), RightHalf(t, mid, page);
            && Contents(t) == Contents(l) + Contents(r)
            && Ids(l) + Ids(r) == Ids(t) + multiset{page}
  {
    var kids := t.kids;
    assert kids == kids[..mid] + [kids[mid]] + kids[mid + 1..];
    KidsInsert(kids[..mid], kids[mid], kids[mid + 1..]);
    Assoc(Contents(t.left), KidsContents(kids[..mid]), Contents(kids[mid].sub), KidsContents(kids[mid + 1..]));
  }

  /** The middle key moves up: it is the first key of the right half. */
  lemma HalvesShape(t: Tree, mid: nat, page: PageId)
    requires t.Node? && mid < |t.kids| && ShapeBelow(t)
    ensures var l, r := LeftHalf(t, mid), RightHalf(t, mid, page);
            && ShapeBelow(l) && ShapeBelow(r)
            && Contents(l) != []
            && Contents(r) != [] && Contents(r)[0].key == t.kids[mid].key
  {
    assert t.kids[mid] in t.kids;
  }

  lemma RepHalves(pages: seq<Page>, t: Tree, mid: nat, page: PageId)
    requires t.Node? && mid < |t.kids| && RepBelow(pages, t)
    ensures RepBelow(pages, LeftHalf(t, mid)) && RepBelow(pages, RightHalf(t, mid, page))
  {
    assert t.kids[mid] in t.kids;
  }

  lemma SepsHalves(t: Tree, mid: nat, page: PageId)
    requires t.Node? && mid < |t.kids|
    ensures NodeOf(LeftHalf(t, mid)) == InternalNode(t.left.page, Seps(t.kids)[..mid])
    ensures NodeOf(RightHalf(t, mid, page)) == InternalNode(Seps(t.kids)[mid].child, Seps(t.kids)[mid + 1..])
  {
    assert Seps(t.kids[..mid]) == Seps(t.kids)[..mid];
    assert Seps(t.kids[mid + 1..]) == Seps(t.kids)[mid + 1..];
  }

  lemma HalvesBranching(t: Tree, mid: nat, page: PageId)
    requires t.Node? && Branching(t) && 0 < mid < |t.kids| - 1
    ensures Branching(LeftHalf(t, mid)) && Branching(RightHalf(t, mid, page))
  {
    assert t.kids[mid] in t.kids;
  }

  // ----- dropping a child -----

  /** `internal_remove_slot`: the child at `s` goes; for the leftmost, the next one takes its place. */
  ghost function WithoutChild(t: Tree, s: nat): Tree
    requires t.Node? && t.kids != [] && s <= |t.kids|
  {
    if s == 0 then Node(t.page, t.kids[0].sub, t.kids[1..])
    else Node(t.page, t.left, t.kids[..s - 1] + t.kids[s..])
  }

  lemma WithoutChildParts(t: Tree, s: nat)
    requires t.Node? && t.kids != [] && s <= |t.kids|
    ensures var u := WithoutChild(t, s);
            && Contents(u) == Before(t, s) + After(t, s)
            && Ids(u) == OtherIds(t, s)
  {
    if s == 0 {
      assert t.kids[0..] == t.kids;
    } else {
      KidsSplit(t.kids[..s - 1], t.kids[s..]);
      var a, x, y := Contents(t.left), KidsContents(t.kids[..s - 1]), KidsContents(t.kids[s..]);
      assert a + (x + y) == a + x + y;
    }
  }

  lemma WithoutChildKids(t: Tree, s: nat, kid: Kid)
    requires t.Node? && t.kids != [] && s <= |t.kids| && kid in WithoutChild(t, s).kids
    ensures kid in t.kids[s..] || (s > 0 && kid in t.kids[..s - 1])
    ensures kid in t.kids
  {
    if s == 0 { assert t.kids[0..] == t.kids; }
  }

  lemma WithoutChildShape(t: Tree, s: nat)
    requires t.Node? && t.kids != [] && s <= |t.kids| && ShapeBelow(t)
    ensures ShapeBelow(WithoutChild(t, s)) && Contents(WithoutChild(t, s)) != []
  {
    assert t.kids[0] in t.kids;
    forall kid | kid in WithoutChild(t, s).kids
      ensures KidOk(kid) && Shape(kid.sub)
    {
      WithoutChildKids(t, s, kid);
    }
  }

  lemma WithoutChildBranching(t: Tree, s: nat)
    requires t.Node? && t.kids != [] && s <= |t.kids| && Branching(t)
    ensures BranchingBelow(WithoutChild(t, s))
  {
    assert t.kids[0] in t.kids;
    forall kid | kid in WithoutChild(t, s).kids
      ensures Branching(kid.sub)
    {
      WithoutChildKids(t, s, kid);
    }
  }

  lemma RepWithoutChild(was: seq<Page>, now: seq<Page>, t: Tree, s: nat)
    requires t.Node? && t.kids != [] && s <= |t.kids| && RepBelow(was, t)
    requires Same(was, now, SiblingIds(t, s))
    ensures RepBelow(now, WithoutChild(t, s))
  {
    RepSiblings(was, now, t, s);
    if s == 0 { assert t.kids[0] in t.kids[0..]; }
    forall kid | kid in WithoutChild(t, s).kids
      ensures Rep(now, kid.sub)
    {
      WithoutChildKids(t, s, kid);
    }
  }

  // ----- a separator that changed -----

  /** Child `s` replaced and, unless it is the leftmost, its separator set to its first key. */
  ghost function Rekeyed(t: Tree, s: nat, c: Tree): Tree
    requires t.Node? && s <= |t.kids| && Contents(c) != []
  {
    if s == 0 then Node(t.page, c, t.kids) else Node(t.page, t.left, t.kids[s - 1 := Kid(Contents(c)[0].key, c)])
  }

  lemma RekeyedParts(t: Tree, s: nat, c: Tree)
    requires t.Node? && s <= |t.kids| && Contents(c) != []
    ensures var u := Rekeyed(t, s, c);
            && Contents(u) == Before(t, s) + Contents(c) + After(t, s)
            && Ids(u) == OtherIds(t, s) + Ids(c)
  {
    var u := Rekeyed(t, s, c);
    AroundChild(u, s);
    if s > 0 {
      assert u.kids[..s - 1] == t.kids[..s - 1] && u.kids[s..] == t.kids[s..];
    }
  }

  lemma RekeyedKids(t: Tree, s: nat, c: Tree, kid: Kid)
    requires t.Node? && s <= |t.kids| && Contents(c) != [] && kid in Rekeyed(t, s, c).kids
    ensures kid in t.kids || (s > 0 && kid == Kid(Contents(c)[0].key, c))
  {
  }

  lemma RekeyedShape(t: Tree, s: nat, c: Tree)
    requires t.Node? && s <= |t.kids| && ShapeBelow(t) && Shape(c) && Contents(c) != []
    ensures ShapeBelow(Rekeyed(t, s, c))
  {
    forall kid | kid in Rekeyed(t, s, c).kids
      ensures KidOk(kid) && Shape(kid.sub)
    {
      RekeyedKids(t, s, c, kid);
    }
  }

  lemma RekeyedBranching(t: Tree, s: nat, c: Tree)
    requires t.Node? && s <= |t.kids| && Contents(c) != [] && Branching(t) && Branching(c)
    ensures Branching(Rekeyed(t, s, c))
  {
    forall kid | kid in Rekeyed(t, s, c).kids
      ensures Branching(kid.sub)
    {
      RekeyedKids(t, s, c, kid);
    }
  }

  lemma RepRekeyed(was: seq<Page>, now: seq<Page>, t: Tree, s: nat, c: Tree)
    requires t.Node? && s <= |t.kids| && RepBelow(was, t) && Rep(now, c) && Contents(c) != []
    requires Same(was, now, SiblingIds(t, s))
    ensures RepBelow(now, Rekeyed(t, s, c))
  {
    RepSiblings(was, now, t, s);
    if s == 0 {
      assert t.kids[0..] == t.kids;
    } else {
      forall kid | kid in Rekeyed(t, s, c).kids
        ensures Rep(now, kid.sub)
      {
        KidAt(t.kids, s, kid, Kid(Contents(c)[0].key, c));
      }
    }
  }
}
