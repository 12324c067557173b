/** The four-node tree a(b(d), c): its walks, its count, and what remove
    does to it. */
module Scenario {
  import opened TreeNodes
  import opened Shapes
  import opened Search
  import opened Edits

  /** The snapshot of a(b(d), c). */
  ghost function Sample(a: TreeNode, b: TreeNode, c: TreeNode, d: TreeNode): Shape
  {
    Shape(a, [Shape(b, [Shape(d, [])]), Shape(c, [])])
  }

  /** A snapshot with one node. */
  lemma Leaf(x: TreeNode)
    ensures PreOrder(Shape(x, [])) == [x] && PostOrder(Shape(x, [])) == [x]
    ensures Size(Shape(x, [])) == 1 && DegreeSum(Shape(x, [])) == 0
    ensures Footprint(Shape(x, [])) == {x}
  {
    assert PreOrderAll([]) == [] && PostOrderAll([]) == [];
  }

  /** The walks, size and counters of one child, and of two children. */
  lemma OneKid(s: Shape)
    ensures PreOrderAll([s]) == PreOrder(s) && PostOrderAll([s]) == PostOrder(s)
    ensures SizeAll([s]) == Size(s) && DegreeSumAll([s]) == DegreeSum(s)
    ensures FootprintAll([s]) == Footprint(s)
  {
    assert [s][1..] == [];
  }

  lemma TwoKids(s1: Shape, s2: Shape)
    ensures PreOrderAll([s1, s2]) == PreOrder(s1) + PreOrder(s2)
    ensures PostOrderAll([s1, s2]) == PostOrder(s1) + PostOrder(s2)
    ensures SizeAll([s1, s2]) == Size(s1) + Size(s2)
    ensures DegreeSumAll([s1, s2]) == DegreeSum(s1) + DegreeSum(s2)
    ensures FootprintAll([s1, s2]) == Footprint(s1) + Footprint(s2)
  {
    assert [s1, s2][1..] == [s2];
    OneKid(s2);
  }

  /** Pre-order a, b, d, c; post-order d, b, c, a; four nodes, one more than
      the sum of the child counts. */
  lemma SampleWalks(a: TreeNode, b: TreeNode, c: TreeNode, d: TreeNode)
    ensures PreOrder(Sample(a, b, c, d)) == [a, b, d, c]
    ensures PostOrder(Sample(a, b, c, d)) == [d, b, c, a]
    ensures Size(Sample(a, b, c, d)) == 4 && DegreeSum(Sample(a, b, c, d)) == 3
    ensures Footprint(Sample(a, b, c, d)) == {a, b, c, d}
  {
    var sd, sc := Shape(d, []), Shape(c, []);
    var sb := Shape(b, [sd]);
    Leaf(d);
    Leaf(c);
    OneKid(sd);
    assert PreOrder(sb) == [b, d] && PostOrder(sb) == [d, b] && Size(sb) == 2 && DegreeSum(sb) == 1;
    TwoKids(sb, sc);
  }

  /** With distinct keys, the nodes of a(b(d), c) are distinct. */
  lemma SampleDistinct(a: TreeNode, b: TreeNode, c: TreeNode, d: TreeNode)
    requires a.key == Str("a") && b.key == Str("b") && c.key == Str("c") && d.key == Str("d")
    ensures Distinct(Sample(a, b, c, d))
  {
    var sd, sc := Shape(d, []), Shape(c, []);
    var sb := Shape(b, [sd]);
    Leaf(d);
    Leaf(c);
    OneKid(sd);
    TwoKids(sb, sc);
    assert Distinct(sd) && Distinct(sc);
    assert DistinctAll([sd]) && Footprint(sb) == {b, d};
    assert Distinct(sb);
    var ks := [sb, sc];
    assert forall i :: 0 <= i < |ks| ==> Distinct(ks[i]);
    assert Footprint(ks[0]) !! Footprint(ks[1]);
  }

  /** In a(b(d), c), remove("b") finds b, below a. */
  lemma SampleFindsB(a: TreeNode, b: TreeNode, c: TreeNode, d: TreeNode)
    requires a.key == Str("a") && b.key == Str("b") && c.key == Str("c") && d.key == Str("d")
    ensures Keyed(Sample(a, b, c, d), Str("b")) == b
    ensures var t := Sample(a, b, c, d); b in Footprint(t) && KidWith(t.kids, b) == 0 && ParentOf(t, b) == a
  {
    var t := Sample(a, b, c, d);
    SampleWalks(a, b, c, d);
    assert First(Lit(Str("b")), [a, b, d, c]) == b by {
      FirstAt(Lit(Str("b")), [a, b, d, c], 1);
    }
    KeyedIsFirst(t, Str("b"));
    assert b in Footprint(t.kids[0]) by {
      assert Footprint(t.kids[0]) == {b} + FootprintAll(t.kids[0].kids);
    }
  }

  /** remove("b") on a(b(d), c) leaves a(c), whose pre-order is a, c and
      whose size is 2. */
  lemma SampleRemove(a: TreeNode, b: TreeNode, c: TreeNode, d: TreeNode)
    requires a.key == Str("a") && b.key == Str("b") && c.key == Str("c") && d.key == Str("d")
    ensures Distinct(Sample(a, b, c, d))
    ensures RemoveKey(Sample(a, b, c, d), Str("b")) == Shape(a, [Shape(c, [])])
    ensures PreOrder(Shape(a, [Shape(c, [])])) == [a, c] && Size(Shape(a, [Shape(c, [])])) == 2
  {
    var t := Sample(a, b, c, d);
    SampleDistinct(a, b, c, d);
    SampleFindsB(a, b, c, d);
    assert SubAt(t, a) == t;
    assert Without(t.kids, 0) == [Shape(c, [])];
    Leaf(c);
    OneKid(Shape(c, []));
  }

  /** In a(b(d), c), insertAt("c", …) finds c, the second child of a. */
  lemma SampleFindsC(a: TreeNode, b: TreeNode, c: TreeNode, d: TreeNode)
    requires a.key == Str("a") && b.key == Str("b") && c.key == Str("c") && d.key == Str("d")
    ensures Keyed(Sample(a, b, c, d), Str("c")) == c
    ensures var t := Sample(a, b, c, d); c in Footprint(t) && KidWith(t.kids, c) == 1
  {
    var t := Sample(a, b, c, d);
    SampleWalks(a, b, c, d);
    assert First(Lit(Str("c")), [a, b, d, c]) == c by {
      FirstAt(Lit(Str("c")), [a, b, d, c], 3);
    }
    KeyedIsFirst(t, Str("c"));
    assert Footprint(t.kids[0]) == {b, d} && Footprint(t.kids[1]) == {c} by {
      Leaf(c);
      Leaf(d);
      OneKid(Shape(d, []));
    }
  }

  /** insertAt("c", e) on a(b(d), c), with e a new leaf, gives a(b(d), c(e)):
      e is the last child of c and the tree has five nodes. */
  lemma SampleInsert(a: TreeNode, b: TreeNode, c: TreeNode, d: TreeNode, e: TreeNode)
    requires a.key == Str("a") && b.key == Str("b") && c.key == Str("c") && d.key == Str("d")
    ensures InsertAtKey(Sample(a, b, c, d), Str("c"), Shape(e, [])) ==
      Shape(a, [Shape(b, [Shape(d, [])]), Shape(c, [Shape(e, [])])])
    ensures Size(Shape(a, [Shape(b, [Shape(d, [])]), Shape(c, [Shape(e, [])])])) == 5
  {
    var t := Sample(a, b, c, d);
    var sc := Shape(c, []);
    SampleFindsC(a, b, c, d);
    assert SubAt(t, c) == sc by {
      assert SubAt(t.kids[1], c) == sc;
    }
    assert sc.kids + [Shape(e, [])] == [Shape(e, [])];
    var g := Shape(a, [Shape(b, [Shape(d, [])]), Shape(c, [Shape(e, [])])]);
    assert Replace(t, c, Shape(c, [Shape(e, [])])) == g by {
      assert Replace(t.kids[1], c, Shape(c, [Shape(e, [])])) == Shape(c, [Shape(e, [])]);
      assert t.kids[1 := Shape(c, [Shape(e, [])])] == g.kids;
    }
    Leaf(d);
    Leaf(e);
    OneKid(Shape(d, []));
    OneKid(Shape(e, []));
    TwoKids(g.kids[0], g.kids[1]);
  }
}
