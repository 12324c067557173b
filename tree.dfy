/** The tree: the recursive walks over the node graph starting at a node,
    and the Tree class with its searches, its count and its two edits. */
module Trees {
  import opened TreeNodes
  import opened Shapes
  import opened Search
  import opened Walks
  import opened Edits
  import opened Mirroring

  /** `node` is the start node of `t`, `h` holds the present fields of the
      nodes of `t`, and those fields have the shape `t`. */
  ghost predicate Over(node: TreeNode, t: Shape, h: map<TreeNode, Cell>)
    reads Footprint(t)
  {
    t.node == node && MirrorsIn(t, h) && Current(h, Footprint(t))
  }

  /** Under a matched snapshot, a node's child list and counter describe its
      children, and each child is matched by its own snapshot. */
  lemma {:induction false} OverNode(t: Shape, h: map<TreeNode, Cell>)
    requires Over(t.node, t, h)
    ensures t.node.Valid() && t.node.childList == Nodes(t.kids)
  {
    assert t.node in Footprint(t);
  }

  lemma {:induction false} OverKid(t: Shape, h: map<TreeNode, Cell>, i: int)
    requires Over(t.node, t, h) && 0 <= i < |t.kids|
    ensures Over(t.kids[i].node, t.kids[i], h)
    ensures t.kids[i].node.parent == t.node
  {
    KidFootprint(t.kids, i);
    assert t.kids[i].node in Footprint(t.kids[i]);
  }

  /** The walks over the first `i + 1` children extend those over the first `i`. */
  lemma {:induction false} PrefixStep(ts: seq<Shape>, i: int)
    requires 0 <= i < |ts|
    ensures PreOrderAll(ts[..i + 1]) == PreOrderAll(ts[..i]) + PreOrder(ts[i])
    ensures PostOrderAll(ts[..i + 1]) == PostOrderAll(ts[..i]) + PostOrder(ts[i])
    ensures EventsAll(ts[..i + 1]) == EventsAll(ts[..i]) + Events(ts[i])
    ensures DegreeSumAll(ts[..i + 1]) == DegreeSumAll(ts[..i]) + DegreeSum(ts[i])
  {
    var a := ts[..i];
    var k := [ts[i]];
    assert ts[..i + 1] == a + k;
    assert k[0] == ts[i] && k[1..] == [];
    PreOrderAllAppend(a, k);
    PostOrderAllAppend(a, k);
    EventsAllAppend(a, k);
    DegreeSumAllAppend(a, k);
  }

  /** The nodes from `node` down, each before its children's subtrees. */
  method PreOrderFrom(node: TreeNode, ghost t: Shape, ghost h: map<TreeNode, Cell>) returns (r: seq<TreeNode>)
    requires Over(node, t, h)
    ensures r == PreOrder(t)
    decreases t
  {
    OverNode(t, h);
    r := [node];
    if node.HasChildren() {
      var cs := node.Children();
      for i := 0 to |cs|
        invariant r == [node] + PreOrderAll(t.kids[..i])
      {
        OverKid(t, h, i);
        var s := PreOrderFrom(cs[i], t.kids[i], h);
        PrefixStep(t.kids, i);
        r := r + s;
      }
      assert t.kids[..|cs|] == t.kids;
    }
  }

  /** The nodes from `node` down, each after its children's subtrees. */
  method PostOrderFrom(node: TreeNode, ghost t: Shape, ghost h: map<TreeNode, Cell>) returns (r: seq<TreeNode>)
    requires Over(node, t, h)
    ensures r == PostOrder(t)
    decreases t
  {
    OverNode(t, h);
    r := [];
    if node.HasChildren() {
      var cs := node.Children();
      for i := 0 to |cs|
        invariant r == PostOrderAll(t.kids[..i])
      {
        OverKid(t, h, i);
        var s := PostOrderFrom(cs[i], t.kids[i], h);
        PrefixStep(t.kids, i);
        r := r + s;
      }
      assert t.kids[..|cs|] == t.kids;
    }
    r := r + [node];
  }

  /** Calls onEnter on `node`, walks the children's subtrees in order, then
      calls onLeave, when there is one, on `node`; gives the final context. */
  method TraverseFrom<C>(w: Walker<C>, ctx: C, node: TreeNode, ghost t: Shape, ghost h: map<TreeNode, Cell>)
    returns (r: C)
    requires Over(node, t, h)
    ensures r == Run(w, ctx, Events(t))
    decreases t
  {
    OverNode(t, h);
    r := w.onEnter(node, ctx);
    ghost var entered := r;
    if node.HasChildren() {
      var cs := node.Children();
      for i := 0 to |cs|
        invariant r == Run(w, entered, EventsAll(t.kids[..i]))
      {
        OverKid(t, h, i);
        r := TraverseFrom(w, r, cs[i], t.kids[i], h);
        PrefixStep(t.kids, i);
        RunAppend(w, entered, EventsAll(t.kids[..i]), Events(t.kids[i]));
      }
      assert t.kids[..|cs|] == t.kids;
    }
    ghost var middle := r;
    if w.onLeave.Some? {
      r := w.onLeave.value(node, r);
    }
    assert r == Run(w, middle, [Leave(node)]);
    assert entered == Run(w, ctx, [Enter(node)]);
    RunAppend(w, ctx, [Enter(node)], EventsAll(t.kids));
    RunAppend(w, ctx, [Enter(node)] + EventsAll(t.kids), [Leave(node)]);
  }

  /** The count walk from `node`: on entering a node add its counter, on
      leaving it add one when it has no parent. */
  method CountFrom(node: TreeNode, ghost t: Shape, ghost h: map<TreeNode, Cell>, acc: int) returns (total: int)
    requires Over(node, t, h)
    ensures total == acc + DegreeSum(t) + (if node.parent == null then 1 else 0)
    decreases t
  {
    OverNode(t, h);
    total := acc + node.ChildrenCount();
    if node.HasChildren() {
      var cs := node.Children();
      for i := 0 to |cs|
        invariant total == acc + |t.kids| + DegreeSumAll(t.kids[..i])
      {
        OverKid(t, h, i);
        total := CountFrom(cs[i], t.kids[i], h, total);
        PrefixStep(t.kids, i);
      }
      assert t.kids[..|cs|] == t.kids;
    }
    if node.parent == null {
      total := total + 1;
    }
  }

  /** Two views of the present fields agree on the nodes both cover. */
  lemma ViewsAgree(h1: map<TreeNode, Cell>, s1: set<TreeNode>, h2: map<TreeNode, Cell>, s2: set<TreeNode>,
                   s: set<TreeNode>)
    requires Current(h1, s1) && Current(h2, s2) && s <= s1 && s <= s2
    ensures SameOn(h1, h2, s)
  {
  }

  /** A snapshot matched by the fields of a set of nodes that includes its
      own nodes is matched by the fields of its own nodes alone. */
  lemma Narrow(g: Shape, all: set<TreeNode>)
    requires Footprint(g) <= all && MirrorsIn(g, View(all))
    ensures Mirrors(g)
  {
    ViewsAgree(View(all), all, View(Footprint(g)), Footprint(g), Footprint(g));
    MirrorsInLocal(g, View(all), View(Footprint(g)));
  }

  /** The fields of the nodes of two matched snapshots, read together,
      still match both. */
  lemma {:induction false} ViewUnion(t: Shape, sub: Shape, all: set<TreeNode>)
    requires all == Footprint(t) + Footprint(sub)
    requires MirrorsIn(t, View(Footprint(t))) && MirrorsIn(sub, View(Footprint(sub)))
    ensures MirrorsIn(t, View(all)) && MirrorsIn(sub, View(all))
  {
    ViewsAgree(View(Footprint(t)), Footprint(t), View(all), all, Footprint(t));
    MirrorsInLocal(t, View(Footprint(t)), View(all));
    ViewsAgree(View(Footprint(sub)), Footprint(sub), View(all), all, Footprint(sub));
    MirrorsInLocal(sub, View(Footprint(sub)), View(all));
  }

  /** What insertChild finds at the node `p` of a matched snapshot `t`, when
      a matched snapshot `sub` with nodes of its own is to be attached: both
      are matched by the fields of all their nodes, and the counter of `p`
      agrees with its child list. */
  lemma AttachPlan(t: Shape, p: TreeNode, sub: Shape, all: set<TreeNode>)
    requires p in Footprint(t) && all == Footprint(t) + Footprint(sub)
    requires Mirrors(t) && Mirrors(sub)
    ensures MirrorsIn(t, View(all)) && MirrorsIn(sub, View(all))
    ensures p.Valid() && sub.node in all
  {
    ViewUnion(t, sub, all);
    MirrorsInSub(t, p, View(all));
  }

  /** insertChild on the node `p` of a matched snapshot `t`, with the start
      node of a matched snapshot `sub` whose nodes are not in `t`: the nodes
      of both then have the shape of `t` with `sub` grafted below `p`. */
  method Attach(p: TreeNode, node: TreeNode, ghost t: Shape, ghost sub: Shape, ghost all: set<TreeNode>)
    requires Distinct(t) && p in Footprint(t)
    requires sub.node == node && Distinct(sub) && Footprint(sub) !! Footprint(t)
    requires all == Footprint(t) + Footprint(sub)
    requires Mirrors(t) && Mirrors(sub)
    modifies p`childList, p`childCount, node`parent
    ensures MirrorsIn(Graft(t, p, sub), View(all))
    ensures p.childList == old(p.childList) + [node] && node.parent == p
  {
    AttachPlan(t, p, sub, all);
    ghost var h1 := View(all);
    label before:
    var _ := p.InsertChild(node);
    ghost var h2 := View(all);
    forall n | n in all && n != p && n != node ensures h1[n] == h2[n] {
      assert h1[n] == Cell(old@before(n.childList), old@before(n.childCount), old@before(n.parent));
    }
    GraftMirrorsIn(t, p, sub, h1, h2);
  }

  /** What removeChild finds at the parent `q` of `p`, the first node of a
      matched snapshot `t` in pre-order with key `key`: its child list holds
      the child nodes of `q` in `t`, and the first of them with that key is
      the one whose subtree holds `p`. */
  lemma DetachPlan(t: Shape, p: TreeNode, key: Key, h: map<TreeNode, Cell>)
    requires Distinct(t) && p in Footprint(t) && p != t.node && MirrorsIn(t, h)
    requires p == First(Lit(key), PreOrder(t))
    ensures var q := ParentOf(t, p); var u := SubAt(t, q); var j := KidWith(u.kids, p);
      q in Footprint(t) && q in h && 0 <= j &&
      h[q].children == Nodes(u.kids) && h[q].count == |u.kids| &&
      FirstKeyIndex(h[q].children, key) == j &&
      Without(h[q].children, j) == Nodes(Without(u.kids, j))
  {
    var q := ParentOf(t, p);
    FirstMatchIsFirstKeyChild(t, key);
    ParentOfChild(t, p);
    MirrorsInSub(t, q, h);
    NodesWithout(SubAt(t, q).kids, KidWith(SubAt(t, q).kids, p));
  }

  /** removeChild with key `key` on the parent `q` of `p`, the first node of
      a matched snapshot `t` in pre-order with that key: the nodes of `t`
      then have the shape of `t` without the subtree of `p`. */
  method Detach(q: TreeNode, key: Key, ghost t: Shape, ghost p: TreeNode, ghost all: set<TreeNode>)
    requires all == Footprint(t) && Distinct(t) && p in Footprint(t) && p != t.node
    requires p == First(Lit(key), PreOrder(t)) && q == ParentOf(t, p)
    requires MirrorsIn(t, View(all))
    modifies q`childList, q`childCount
    ensures MirrorsIn(Prune(t, p), View(all))
  {
    ghost var h1 := View(all);
    DetachPlan(t, p, key, h1);
    label before:
    var _ := q.RemoveChild(key);
    ghost var h2 := View(all);
    forall n | n in all && n != q ensures h1[n] == h2[n] {
      assert h1[n] == Cell(old@before(n.childList), old@before(n.childCount), old@before(n.parent));
    }
    PruneMirrorsIn(t, p, h1, h2);
  }

  class Tree {
    const root: TreeNode
    /** The shape of the tree below the root. */
    ghost var shape: Shape
    /** The nodes of the tree. */
    ghost var Repr: set<TreeNode>

    /** The nodes reachable from the root have the shape `shape`, no node
        occurs twice and the root has no parent. */
    ghost predicate Valid()
      reads this, Repr
    {
      Repr == Footprint(shape) && shape.node == root && root in Repr && root.parent == null &&
      Distinct(shape) && MirrorsIn(shape, View(Repr))
    }

    /** A tree over `root`, whose subtree has the shape `t`. */
    constructor (root: TreeNode, ghost t: Shape)
      requires t.node == root && root.parent == null && Distinct(t) && Mirrors(t)
      ensures Valid() && this.root == root && shape == t && Repr == Footprint(t)
    {
      this.root := root;
      shape := t;
      Repr := Footprint(t);
    }

    /** The present fields of the tree's nodes match its shape from every node on. */
    lemma {:induction false} OverAt(node: TreeNode)
      requires Valid() && node in Repr
      ensures Over(node, SubAt(shape, node), View(Repr))
      ensures node == root ==> SubAt(shape, node) == shape
    {
      MirrorsInSub(shape, node, View(Repr));
    }

    /** Every node of the tree but the root has a parent in the tree, whose
        child list holds it exactly once. */
    lemma ParentHolds(n: TreeNode)
      requires Valid() && n in Repr && n != root
      ensures n.parent != null && n.parent in Repr
      ensures var cs := n.parent.childList;
        exists j :: 0 <= j < |cs| && cs[j] == n && forall i :: 0 <= i < |cs| && cs[i] == n ==> i == j
    {
      ParentHoldsOnce(shape, n, View(Repr));
    }

    /** The nodes of the subtree of `node`, in pre-order. */
    method PreOrderTraversal(node: TreeNode) returns (r: seq<TreeNode>)
      requires Valid() && node in Repr
      ensures r == PreOrder(SubAt(shape, node))
      ensures node == root ==> r == PreOrder(shape)
    {
      OverAt(node);
      r := PreOrderFrom(node, SubAt(shape, node), View(Repr));
    }

    /** The nodes of the subtree of `node`, in post-order. */
    method PostOrderTraversal(node: TreeNode) returns (r: seq<TreeNode>)
      requires Valid() && node in Repr
      ensures r == PostOrder(SubAt(shape, node))
      ensures node == root ==> r == PostOrder(shape)
    {
      OverAt(node);
      r := PostOrderFrom(node, SubAt(shape, node), View(Repr));
    }

    /** The enter/leave walk over the subtree of `node`, threading `ctx`
        through the callbacks; gives the final context. */
    method Traverse<C>(w: Walker<C>, ctx: C, node: TreeNode) returns (r: C)
      requires Valid() && node in Repr
      ensures r == Run(w, ctx, Events(SubAt(shape, node)))
      ensures node == root ==> r == Run(w, ctx, Events(shape))
    {
      OverAt(node);
      r := TraverseFrom(w, ctx, node, SubAt(shape, node), View(Repr));
    }

    /** The first node in pre-order that `m` matches, or null. */
    method FindOne(m: Matcher) returns (r: TreeNode?)
      requires Valid()
      ensures r == First(m, PreOrder(shape))
      ensures r != null ==> r in Repr && Matches(m, r)
    {
      var ns := PreOrderTraversal(root);
      var i := 0;
      while i < |ns|
        invariant 0 <= i <= |ns|
        invariant forall j :: 0 <= j < i ==> !Matches(m, ns[j])
      {
        if Matches(m, ns[i]) {
          FirstAt(m, ns, i);
          InFootprint(shape, ns[i]);
          return ns[i];
        }
        i := i + 1;
      }
      return null;
    }

    /** All nodes that `m` matches, in pre-order. */
    method FindMany(m: Matcher) returns (r: seq<TreeNode>)
      requires Valid()
      ensures r == Filter(m, PreOrder(shape))
    {
      var ns := PreOrderTraversal(root);
      r := [];
      for i := 0 to |ns|
        invariant r == Filter(m, ns[..i])
      {
        FilterSnoc(m, ns, i);
        if Matches(m, ns[i]) {
          r := r + [ns[i]];
        }
      }
      assert ns[..|ns|] == ns;
    }

    /** The number of nodes: the sum of all counters, plus one for the
        root, which has no parent. */
    method Count() returns (r: int)
      requires Valid()
      ensures r == Size(shape) && r == |PreOrder(shape)|
    {
      OverAt(root);
      r := CountFrom(root, shape, View(Repr), 0);
      DegreeSumPlusOne(shape);
      OrderLengths(shape);
    }
    /** Makes `node` the last child of the first node in pre-order whose key
        is `key`; does nothing when no node has that key. The inserted node
        brings its own subtree, of shape `sub`, whose nodes are new to the
        tree. */
    method InsertAt(key: Key, node: TreeNode, ghost sub: Shape)
      requires Valid()
      requires sub.node == node && Distinct(sub) && Mirrors(sub) && Footprint(sub) !! Repr
      modifies this, Repr, node
      ensures Valid() && shape == InsertAtKey(old(shape), key, sub)
      ensures var p := Keyed(old(shape), key);
        if p == null then unchanged(Repr) && unchanged(node)
        else p.childList == old(p.childList) + [node] && node.parent == p
    {
      var p := FindOne(KeyIs(key));
      assert p == Keyed(shape, key) by {
        KeyIsLiteral(key);
        FirstOfEquivalent(KeyIs(key), Lit(key), PreOrder(shape));
        KeyedIsFirst(shape, key);
      }
      if p != null {
        Grow(p, node, sub);
      }
    }

    /** Appends `node`, the start node of `sub`, to the children of the tree's
        node `p`. */
    method Grow(p: TreeNode, node: TreeNode, ghost sub: Shape)
      requires Valid() && p in Repr
      requires sub.node == node && Distinct(sub) && Mirrors(sub) && Footprint(sub) !! Repr
      modifies this, p`childList, p`childCount, node`parent
      ensures Valid() && shape == Graft(old(shape), p, sub)
      ensures p.childList == old(p.childList) + [node] && node.parent == p
    {
      ghost var t := shape;
      ghost var all := Repr + Footprint(sub);
      ghost var g := Graft(t, p, sub);
      assert Footprint(g) == all && g.node == root && Distinct(g) && node in Footprint(sub) by {
        GraftEffect(t, p, sub);
      }
      Attach(p, node, t, sub, all);
      Settle(g, all);
    }

    /** Removes, from the child list of its parent, the first node in
        pre-order whose key is `key`, with its subtree; does nothing when no
        node has that key or when that node is the root. */
    method Remove(key: Key)
      requires Valid()
      modifies this, Repr
      ensures Valid() && shape == RemoveKey(old(shape), key)
      ensures var p := Keyed(old(shape), key);
        p == null || p == root ==> unchanged(Repr)
      ensures var p := Keyed(old(shape), key);
        p != null && p != root ==> forall n :: n in old(Repr) && n != ParentOf(old(shape), p) ==>
          n.childList == old(n.childList) && n.childCount == old(n.childCount)
      ensures forall n :: n in old(Repr) ==> n.parent == old(n.parent)
      ensures forall n :: n in old(Repr) && n !in Repr ==>
        n.childList == old(n.childList) && n.childCount == old(n.childCount)
    {
      var p := FindOne(KeyIs(key));
      assert p == Keyed(shape, key) by {
        KeyIsLiteral(key);
        FirstOfEquivalent(KeyIs(key), Lit(key), PreOrder(shape));
        KeyedIsFirst(shape, key);
      }
      if p != null {
        if p != root {
          ParentLink(shape, p, View(Repr));
        }
        var q := p.parent;
        if q != null {
          Cut(key, p, q);
        }
      }
    }

    /** Drops the tree's node `p`, the first node in pre-order with key
        `key`, from the child list of its parent `q`. */
    method Cut(key: Key, ghost p: TreeNode, q: TreeNode)
      requires Valid() && p in Repr && p != root
      requires p == First(Lit(key), PreOrder(shape)) && q == ParentOf(shape, p)
      modifies this, q`childList, q`childCount
      ensures Valid() && shape == Prune(old(shape), p)
      ensures Repr <= old(Repr) && q in Repr
      ensures forall n :: n in old(Repr) && n != q ==>
        n.childList == old(n.childList) && n.childCount == old(n.childCount)
      ensures forall n :: n in old(Repr) ==> n.parent == old(n.parent)
    {
      ghost var t := shape;
      Detach(q, key, t, p, Repr);
      assert Footprint(Prune(t, p)) <= Repr && Prune(t, p).node == root && Distinct(Prune(t, p)) &&
        q in Footprint(Prune(t, p)) by {
        PruneEffect(t, p);
      }
      Settle(Prune(t, p), Repr);
    }

    /** Takes `g`, matched by the fields of the nodes of `all`, as the
        tree's new shape; no node changes. */
    ghost method Settle(g: Shape, all: set<TreeNode>)
      requires g.node == root && root.parent == null && Distinct(g)
      requires Footprint(g) <= all && MirrorsIn(g, View(all))
      modifies this
      ensures Valid() && shape == g
    {
      Narrow(g, all);
      shape := g;
      Repr := Footprint(g);
    }
  }
}
