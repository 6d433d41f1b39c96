/** Reachability in a finite graph, and what a depth-first marking of it must achieve. */
module Reachability {
  // ----- reachability -----

  type Graph<T> = map<T, set<T>>

  /** The nodes at most `n` edges away from the roots. */
  ghost function Within<T>(g: Graph<T>, roots: set<T>, n: nat): set<T> {
    if n == 0 then roots
    else
      var near := Within(g, roots, n - 1);
      near + (set x, y | x in near && x in g && y in g[x] :: y)
  }

  ghost predicate Reachable<T>(g: Graph<T>, roots: set<T>, o: T) {
    exists n: nat :: o in Within(g, roots, n)
  }

  lemma ReachableNext<T>(g: Graph<T>, roots: set<T>, x: T, y: T)
    requires Reachable(g, roots, x) && x in g && y in g[x]
    ensures Reachable(g, roots, y)
  {
    var n: nat :| x in Within(g, roots, n);
    assert y in Within(g, roots, n + 1);
  }

  ghost predicate ClosedUnder<T>(g: Graph<T>, s: set<T>) {
    forall x, y :: x in s && x in g && y in g[x] ==> y in s
  }

  /** A closed set around the roots holds everything reachable. */
  lemma {:induction false} WithinClosed<T>(g: Graph<T>, roots: set<T>, s: set<T>, n: nat)
    requires roots <= s && ClosedUnder(g, s)
    ensures Within(g, roots, n) <= s
  {
    if n > 0 { WithinClosed(g, roots, s, n - 1); }
  }

  lemma ReachableInClosed<T>(g: Graph<T>, roots: set<T>, s: set<T>, o: T)
    requires roots <= s && ClosedUnder(g, s) && Reachable(g, roots, o)
    ensures o in s
  {
    var n: nat :| o in Within(g, roots, n);
    WithinClosed(g, roots, s, n);
  }

  // ----- growing marks -----

  /**
   * From marks `a` to marks `b`: nothing is unmarked, only nodes of `r` are added, and those with all their children.
   */
  ghost predicate Grows<T>(g: Graph<T>, r: set<T>, a: set<T>, b: set<T>) {
    a <= b <= a + r && forall x, y :: x in b && x !in a && x in g && y in g[x] ==> y in b
  }

  lemma GrowsOn<T>(g: Graph<T>, r: set<T>, a: set<T>, b: set<T>, c: set<T>)
    requires Grows(g, r, a, b) && Grows(g, r, b, c)
    ensures Grows(g, r, a, c)
  {
  }

  /** A node is marked first and its children after it. */
  lemma GrowsAround<T>(g: Graph<T>, r: set<T>, a: set<T>, o: T, c: set<T>)
    requires o in r && o in g && Grows(g, r, a + {o}, c) && g[o] <= c
    ensures Grows(g, r, a, c)
  {
  }

  /** Marks grown from nothing over the roots are exactly the reachable nodes. */
  lemma MarkedIsReachable<T>(g: Graph<T>, roots: set<T>, r: set<T>, marks: set<T>)
    requires Grows(g, r, {}, marks) && roots <= marks
    requires forall o :: o in r ==> Reachable(g, roots, o)
    ensures forall o :: o in marks <==> Reachable(g, roots, o)
  {
    assert ClosedUnder(g, marks);
    forall o | Reachable(g, roots, o)
      ensures o in marks
    {
      ReachableInClosed(g, roots, marks, o);
    }
  }

  /** Nodes out of reach can be taken out of the graph without changing what is in reach. */
  lemma {:induction false} WithinRestricted<T>(g: Graph<T>, h: Graph<T>, roots: set<T>, n: nat)
    requires forall o :: Reachable(g, roots, o) && o in g ==> o in h && h[o] == g[o]
    ensures Within(g, roots, n) <= Within(h, roots, n)
  {
    if n > 0 {
      WithinRestricted(g, h, roots, n - 1);
      forall y | y in Within(g, roots, n)
        ensures y in Within(h, roots, n)
      {
        if y !in Within(g, roots, n - 1) {
          var x :| x in Within(g, roots, n - 1) && x in g && y in g[x];
          assert Reachable(g, roots, x);
          assert y in h[x];
        }
      }
    }
  }

  lemma ReachableRestricted<T>(g: Graph<T>, h: Graph<T>, roots: set<T>, o: T)
    requires forall x :: Reachable(g, roots, x) && x in g ==> x in h && h[x] == g[x]
    requires Reachable(g, roots, o)
    ensures Reachable(h, roots, o)
  {
    var n: nat :| o in Within(g, roots, n);
    WithinRestricted(g, h, roots, n);
    assert o in Within(h, roots, n);
  }

  // ----- what is left to do -----

  lemma FewerLeft<T>(heap: set<T>, a: set<T>, b: set<T>)
    requires a <= b
    ensures |heap - b| <= |heap - a|
  {
    var x, y := heap - b, heap - a;
    assert y == x + (y - x);
    assert |y| == |x| + |y - x|;
  }

  lemma OneLessLeft<T>(heap: set<T>, a: set<T>, o: T)
    requires o in heap && o !in a
    ensures |heap - (a + {o})| < |heap - a|
  {
    assert heap - a == (heap - (a + {o})) + {o};
  }
}
