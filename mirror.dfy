/** How the node graph in the heap matches a snapshot, and how that match
    survives the in-place edits insertAt and remove make. The fields of the
    nodes are read into a map, so that the match is stated and preserved on
    values. */
module Mirroring {
  import opened TreeNodes
  import opened Shapes
  import opened Edits

  /** The fields of one node: its child list, its counter and its parent. */
  datatype Cell = Cell(children: seq<TreeNode>, count: int, parent: TreeNode?)

  /** The present fields of the nodes of `s`. */
  ghost function View(s: set<TreeNode>): (h: map<TreeNode, Cell>)
    reads s
    ensures Current(h, s)
  {
    map n | n in s :: Cell(n.childList, n.childCount, n.parent)
  }

  /** `h` holds the present fields of every node of `s`. */
  ghost predicate Current(h: map<TreeNode, Cell>, s: set<TreeNode>)
    reads s
  {
    forall n :: n in s ==> n in h && h[n] == Cell(n.childList, n.childCount, n.parent)
  }

  /** `h1` and `h2` hold the same fields for every node of `s`. */
  ghost predicate SameOn(h1: map<TreeNode, Cell>, h2: map<TreeNode, Cell>, s: set<TreeNode>)
  {
    forall n :: n in s ==> n in h1 && n in h2 && h1[n] == h2[n]
  }

  /** The fields `h` gives the nodes of `t` have the shape `t`: each node's
      child list holds the nodes of its snapshot's children, in order, its
      counter agrees with that list, and each child names it as parent. */
  ghost predicate MirrorsIn(t: Shape, h: map<TreeNode, Cell>)
    decreases t
  {
    t.node in h && h[t.node].count == |t.kids| && h[t.node].children == Nodes(t.kids) &&
    forall i :: 0 <= i < |t.kids| ==>
      t.kids[i].node in h && h[t.kids[i].node].parent == t.node && MirrorsIn(t.kids[i], h)
  }

  /** The heap below `t.node` has the shape `t`. */
  ghost predicate Mirrors(t: Shape)
    reads Footprint(t)
  {
    MirrorsIn(t, View(Footprint(t)))
  }

  /** Whether the fields match a snapshot depends only on the fields of the
      snapshot's own nodes. */
  lemma {:induction false} MirrorsInLocal(t: Shape, h1: map<TreeNode, Cell>, h2: map<TreeNode, Cell>)
    requires MirrorsIn(t, h1) && SameOn(h1, h2, Footprint(t))
    ensures MirrorsIn(t, h2)
    decreases t
  {
    assert t.node in Footprint(t);
    forall i | 0 <= i < |t.kids|
      ensures t.kids[i].node in h2 && h2[t.kids[i].node].parent == t.node && MirrorsIn(t.kids[i], h2)
    {
      KidFootprint(t.kids, i);
      assert t.kids[i].node in Footprint(t.kids[i]);
      MirrorsInLocal(t.kids[i], h1, h2);
    }
  }

  /** Every subtree of a matched snapshot is matched; in particular each
      node's child list holds the nodes of its children in the snapshot. */
  lemma {:induction false} MirrorsInSub(t: Shape, p: TreeNode, h: map<TreeNode, Cell>)
    requires MirrorsIn(t, h) && p in Footprint(t)
    ensures MirrorsIn(SubAt(t, p), h)
    ensures p in h && h[p].children == Nodes(SubAt(t, p).kids) && h[p].count == |SubAt(t, p).kids|
    decreases t
  {
    if t.node != p {
      MirrorsInSub(t.kids[KidWith(t.kids, p)], p, h);
    }
  }

  /** In a matched snapshot, the parent field of every node but the start
      node is the node whose child it is in the snapshot. */
  lemma {:induction false} ParentLink(t: Shape, p: TreeNode, h: map<TreeNode, Cell>)
    requires MirrorsIn(t, h) && p in Footprint(t) && p != t.node
    ensures p in h && h[p].parent == ParentOf(t, p)
    decreases t
  {
    var k := t.kids[KidWith(t.kids, p)];
    if k.node != p {
      ParentLink(k, p, h);
    }
  }

  /** In a matched duplicate-free snapshot, the parent field of every node
      but the start node names a node whose child list holds it exactly once. */
  lemma ParentHoldsOnce(t: Shape, p: TreeNode, h: map<TreeNode, Cell>)
    requires MirrorsIn(t, h) && Distinct(t) && p in Footprint(t) && p != t.node
    ensures p in h && h[p].parent == ParentOf(t, p) && h[p].parent in h
    ensures var cs := h[h[p].parent].children;
      exists j :: 0 <= j < |cs| && cs[j] == p && forall i :: 0 <= i < |cs| && cs[i] == p ==> i == j
  {
    ParentLink(t, p, h);
    ParentOfChild(t, p);
    var q := ParentOf(t, p);
    MirrorsInSub(t, q, h);
    DistinctSub(t, q);
    var u := SubAt(t, q);
    var j := KidWith(u.kids, p);
    var cs := h[q].children;
    assert cs[j] == p;
    forall i | 0 <= i < |cs| && cs[i] == p
      ensures i == j
    {
      assert p in Footprint(u.kids[i]);
      KidWithUnique(u.kids, i, p);
    }
  }

  /** The child nodes of `ts` without the one at position `j`. */
  lemma {:induction false} NodesWithout(ts: seq<Shape>, j: int)
    requires 0 <= j < |ts|
    ensures Nodes(Without(ts, j)) == Without(Nodes(ts), j)
  {
  }

  /** The parent field of a snapshot's start node plays no part in the match. */
  lemma {:induction false} MirrorsInRootParent(t: Shape, h1: map<TreeNode, Cell>, h2: map<TreeNode, Cell>)
    requires MirrorsIn(t, h1) && Distinct(t)
    requires SameOn(h1, h2, Footprint(t) - {t.node})
    requires t.node in h2 && h2[t.node].children == h1[t.node].children && h2[t.node].count == h1[t.node].count
    ensures MirrorsIn(t, h2)
  {
    forall i | 0 <= i < |t.kids|
      ensures t.kids[i].node in h2 && h2[t.kids[i].node].parent == t.node && MirrorsIn(t.kids[i], h2)
    {
      KidFootprint(t.kids, i);
      MirrorsInLocal(t.kids[i], h1, h2);
    }
  }

  /** Replacing the subtree rooted at `q` by a subtree `u` matched by the new
      fields `h2`, when no other node of `t` changed its fields and `q` kept
      its parent, gives a snapshot matched by `h2`. */
  lemma {:induction false} ReplaceMirrorsIn(t: Shape, q: TreeNode, u: Shape,
                                            h1: map<TreeNode, Cell>, h2: map<TreeNode, Cell>)
    requires MirrorsIn(t, h1) && Distinct(t) && q in Footprint(t) && u.node == q
    requires SameOn(h1, h2, Footprint(t) - {q})
    requires q in h1 && q in h2 && h2[q].parent == h1[q].parent
    requires MirrorsIn(u, h2)
    ensures MirrorsIn(Replace(t, q, u), h2)
    decreases t
  {
    if t.node != q {
      var j := KidWith(t.kids, q);
      var k := t.kids[j];
      var r := Replace(k, q, u);
      var ks := t.kids[j := r];
      assert Replace(t, q, u) == Shape(t.node, ks);
      assert SameOn(h1, h2, Others(t.kids, j)) && SameOn(h1, h2, Footprint(k) - {q}) by {
        OthersSplit(t.kids, j);
        OthersDisjoint(t.kids, j);
      }
      assert MirrorsIn(r, h2) && r.node == k.node by {
        ReplaceMirrorsIn(k, q, u, h1, h2);
      }
      assert k.node in h2 && h2[k.node].parent == t.node;
      forall i | 0 <= i < |ks| && i != j
        ensures ks[i].node in h2 && h2[ks[i].node].parent == t.node && MirrorsIn(ks[i], h2)
      {
        assert ks[i] == t.kids[i];
        assert Footprint(t.kids[i]) <= Others(t.kids, j);
        MirrorsInLocal(t.kids[i], h1, h2);
      }
      assert Nodes(ks) == Nodes(t.kids);
    }
  }

  /** After `sub.node` has been appended to the children of `p` and given `p`
      as parent, and no other field of the nodes involved changed, the
      grafted snapshot is matched. */
  lemma {:induction false} GraftMirrorsIn(t: Shape, p: TreeNode, sub: Shape,
                                          h1: map<TreeNode, Cell>, h2: map<TreeNode, Cell>)
    requires MirrorsIn(t, h1) && Distinct(t) && p in Footprint(t)
    requires MirrorsIn(sub, h1) && Distinct(sub) && Footprint(sub) !! Footprint(t)
    requires SameOn(h1, h2, Footprint(t) - {p}) && SameOn(h1, h2, Footprint(sub) - {sub.node})
    requires p in h1 && p in h2 && h2[p] == Cell(h1[p].children + [sub.node], h1[p].count + 1, h1[p].parent)
    requires sub.node in h1 && sub.node in h2 && h2[sub.node] == h1[sub.node].(parent := p)
    ensures MirrorsIn(Graft(t, p, sub), h2)
  {
    var a := SubAt(t, p);
    var ks := a.kids + [sub];
    DistinctSub(t, p);
    MirrorsInSub(t, p, h1);
    assert Nodes(ks) == Nodes(a.kids) + [sub.node];
    forall i | 0 <= i < |ks| ensures ks[i].node in h2 && h2[ks[i].node].parent == p && MirrorsIn(ks[i], h2) {
      if i < |a.kids| {
        OthersSplit(a.kids, i);
        assert Footprint(a.kids[i]) <= Footprint(t) - {p};
        MirrorsInLocal(a.kids[i], h1, h2);
      } else {
        MirrorsInRootParent(sub, h1, h2);
      }
    }
    assert MirrorsIn(Shape(p, ks), h2);
    ReplaceMirrorsIn(t, p, Shape(p, ks), h1, h2);
  }

  /** After the child holding `p` has been dropped from the child list of its
      parent `q`, and no other field of the tree's nodes changed, the pruned
      snapshot is matched. */
  lemma {:induction false} PruneMirrorsIn(t: Shape, p: TreeNode, h1: map<TreeNode, Cell>, h2: map<TreeNode, Cell>)
    requires MirrorsIn(t, h1) && Distinct(t) && p in Footprint(t) && p != t.node
    requires var q := ParentOf(t, p); var u := SubAt(t, q); var j := KidWith(u.kids, p);
      0 <= j && SameOn(h1, h2, Footprint(t) - {q}) &&
      q in h1 && q in h2 && h2[q] == Cell(Nodes(Without(u.kids, j)), |u.kids| - 1, h1[q].parent)
    ensures MirrorsIn(Prune(t, p), h2)
  {
    var q := ParentOf(t, p);
    var u := SubAt(t, q);
    var j := KidWith(u.kids, p);
    var ks := Without(u.kids, j);
    assert Distinct(u) && MirrorsIn(u, h1) by {
      DistinctSub(t, q);
      MirrorsInSub(t, q, h1);
    }
    forall i | 0 <= i < |ks| ensures ks[i].node in h2 && h2[ks[i].node].parent == q && MirrorsIn(ks[i], h2) {
      var i' := if i < j then i else i + 1;
      assert ks[i] == u.kids[i'];
      OthersSplit(u.kids, i');
      assert Footprint(u.kids[i']) <= Footprint(t) - {q};
      MirrorsInLocal(u.kids[i'], h1, h2);
    }
    NodesWithout(u.kids, j);
    assert MirrorsIn(Shape(q, ks), h2);
    ReplaceMirrorsIn(t, q, Shape(q, ks), h1, h2);
  }
}
