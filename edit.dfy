/** The structural edits insertAt and remove make, stated on snapshots: a
    subtree is replaced, a subtree is appended as a last child, a subtree is
    cut out of its parent's children. */
module Edits {
  import opened TreeNodes
  import opened Shapes
  import opened Search

  /** `t` with the subtree rooted at `q` replaced by `u`. */
  ghost function Replace(t: Shape, q: TreeNode, u: Shape): (r: Shape)
    ensures u.node == q ==> r.node == t.node
    decreases t
  {
    if t.node == q then u
    else
      var j := KidWith(t.kids, q);
      if j == -1 then t else Shape(t.node, t.kids[j := Replace(t.kids[j], q, u)])
  }

  /** `t` with `sub` appended as the last child of `p`. */
  ghost function Graft(t: Shape, p: TreeNode, sub: Shape): Shape
    requires p in Footprint(t)
  {
    Replace(t, p, Shape(p, SubAt(t, p).kids + [sub]))
  }

  /** `t` with the subtree rooted at `p` cut out of its parent's children. */
  ghost function Prune(t: Shape, p: TreeNode): Shape
    requires Distinct(t) && p in Footprint(t) && p != t.node
  {
    ParentOfChild(t, p);
    var q := ParentOf(t, p);
    var u := SubAt(t, q);
    var j := KidWith(u.kids, p);
    Replace(t, q, Shape(q, Without(u.kids, j)))
  }

  // ----- Nodes of the other children -----

  /** The nodes of the subtrees of `ts` other than the one at position `j`. */
  ghost function Others(ts: seq<Shape>, j: int): set<TreeNode>
  {
    set i, n | 0 <= i < |ts| && i != j && n in Footprint(ts[i]) :: n
  }

  lemma {:induction false} OthersSplit(ts: seq<Shape>, j: int)
    requires 0 <= j < |ts|
    ensures FootprintAll(ts) == Others(ts, j) + Footprint(ts[j])
  {
  }

  lemma {:induction false} OthersUpdate(ts: seq<Shape>, j: int, s: Shape)
    requires 0 <= j < |ts|
    ensures Others(ts[j := s], j) == Others(ts, j)
  {
    forall n | n in Others(ts, j) ensures n in Others(ts[j := s], j) {
      var i :| 0 <= i < |ts| && i != j && n in Footprint(ts[i]);
      assert n in Footprint(ts[j := s][i]);
    }
  }

  lemma {:induction false} OthersRemove(ts: seq<Shape>, j: int)
    requires 0 <= j < |ts|
    ensures FootprintAll(Without(ts, j)) == Others(ts, j)
  {
    var r := Without(ts, j);
    assert forall i :: 0 <= i < |r| ==> r[i] == ts[if i < j then i else i + 1];
    forall n | n in Others(ts, j) ensures n in FootprintAll(r) {
      var i :| 0 <= i < |ts| && i != j && n in Footprint(ts[i]);
      var i' := if i < j then i else i - 1;
      assert n in Footprint(r[i']);
    }
  }

  lemma {:induction false} OthersDisjoint(ts: seq<Shape>, j: int)
    requires 0 <= j < |ts| && DistinctAll(ts)
    ensures Others(ts, j) !! Footprint(ts[j])
  {
  }

  /** The subtree at position `j` is the only one holding its nodes. */
  lemma {:induction false} KidWithUnique(ts: seq<Shape>, j: int, n: TreeNode)
    requires 0 <= j < |ts| && DistinctAll(ts) && n in Footprint(ts[j])
    ensures KidWith(ts, n) == j
  {
    OthersSplit(ts, j);
  }

  lemma {:induction false} FootprintAllAppend(ts: seq<Shape>, s: Shape)
    ensures FootprintAll(ts + [s]) == FootprintAll(ts) + Footprint(s)
  {
    var r := ts + [s];
    OthersSplit(r, |ts|);
    assert forall i :: 0 <= i < |ts| ==> r[i] == ts[i];
    forall n | n in FootprintAll(ts) ensures n in Others(r, |ts|) {
      var i :| 0 <= i < |ts| && n in Footprint(ts[i]);
      assert n in Footprint(r[i]);
    }
  }

  // ----- Subtrees -----

  /** A subtree of a duplicate-free tree is duplicate-free. */
  lemma {:induction false} DistinctSub(t: Shape, p: TreeNode)
    requires Distinct(t) && p in Footprint(t)
    ensures Distinct(SubAt(t, p))
    decreases t
  {
    if t.node != p {
      DistinctSub(t.kids[KidWith(t.kids, p)], p);
    }
  }

  /** In a duplicate-free tree, the subtree rooted at a node of the `j`-th
      child's subtree is found inside that child. */
  lemma {:induction false} SubAtInKid(t: Shape, j: int, n: TreeNode)
    requires Distinct(t) && 0 <= j < |t.kids| && n in Footprint(t.kids[j])
    ensures n != t.node && SubAt(t, n) == SubAt(t.kids[j], n)
    ensures n != t.kids[j].node ==> ParentOf(t, n) == ParentOf(t.kids[j], n)
  {
    OthersSplit(t.kids, j);
    KidWithUnique(t.kids, j, n);
  }

  /** A node other than the root is a direct child of its parent, and the
      subtree below that child is the node's own subtree. */
  lemma {:induction false} ParentOfChild(t: Shape, p: TreeNode)
    requires Distinct(t) && p in Footprint(t) && p != t.node
    ensures ParentOf(t, p) in Footprint(t)
    ensures var u := SubAt(t, ParentOf(t, p)); var j := KidWith(u.kids, p);
      0 <= j && u.kids[j].node == p && u.kids[j] == SubAt(t, p)
    decreases t
  {
    var j := KidWith(t.kids, p);
    var k := t.kids[j];
    if k.node != p {
      ParentOfChild(k, p);
      SubAtInKid(t, j, ParentOf(k, p));
    }
  }

  // ----- Replacing a subtree -----

  /** Replacing a subtree changes the size by the difference of the sizes. */
  lemma {:induction false} ReplaceSize(t: Shape, q: TreeNode, u: Shape)
    requires q in Footprint(t)
    ensures Size(Replace(t, q, u)) == Size(t) - Size(SubAt(t, q)) + Size(u)
    decreases t
  {
    if t.node != q {
      var j := KidWith(t.kids, q);
      var ks := t.kids[j := Replace(t.kids[j], q, u)];
      ReplaceSize(t.kids[j], q, u);
      SplitSize(t.kids, j);
      SplitSize(ks, j);
      assert ks[..j] == t.kids[..j] && ks[j + 1..] == t.kids[j + 1..];
    }
  }

  /** Replacing a subtree of a duplicate-free tree swaps its nodes for those of `u`. */
  lemma {:induction false} ReplaceFootprint(t: Shape, q: TreeNode, u: Shape)
    requires Distinct(t) && q in Footprint(t)
    ensures Footprint(Replace(t, q, u)) == Footprint(t) - Footprint(SubAt(t, q)) + Footprint(u)
    decreases t
  {
    if t.node != q {
      var j := KidWith(t.kids, q);
      var k := t.kids[j];
      var r := Replace(k, q, u);
      var ks := t.kids[j := r];
      var o := Others(t.kids, j);
      assert Replace(t, q, u) == Shape(t.node, ks);
      assert SubAt(t, q) == SubAt(k, q);
      assert Footprint(Shape(t.node, ks)) == {t.node} + o + Footprint(r) by {
        OthersSplit(ks, j);
        OthersUpdate(t.kids, j, r);
      }
      assert Footprint(t) == {t.node} + o + Footprint(k) && o !! Footprint(k) && t.node !in Footprint(k) by {
        OthersSplit(t.kids, j);
        OthersDisjoint(t.kids, j);
      }
      assert Footprint(r) == Footprint(k) - Footprint(SubAt(k, q)) + Footprint(u) by {
        ReplaceFootprint(k, q, u);
      }
      SwapPart(t.node, o, Footprint(k), Footprint(SubAt(k, q)), Footprint(u), Footprint(r));
    }
  }

  /** Swapping a part `s` of the block `k` for `u`, where `k` is disjoint from
      the rest, `{a} + o`, of the set. */
  lemma SwapPart(a: TreeNode, o: set<TreeNode>, k: set<TreeNode>, s: set<TreeNode>, u: set<TreeNode>,
                 kr: set<TreeNode>)
    requires a !in k && o !! k && s <= k && kr == k - s + u
    ensures {a} + o + kr == ({a} + o + k) - s + u
  {
  }

  /** Replacing a subtree by a duplicate-free one whose nodes are new to the
      rest of the tree keeps the tree duplicate-free. */
  lemma {:induction false} ReplaceDistinct(t: Shape, q: TreeNode, u: Shape)
    requires Distinct(t) && q in Footprint(t) && Distinct(u)
    requires Footprint(u) !! Footprint(t) - Footprint(SubAt(t, q))
    ensures Distinct(Replace(t, q, u))
    decreases t
  {
    if t.node != q {
      var j := KidWith(t.kids, q);
      var k := t.kids[j];
      var r := Replace(k, q, u);
      var ks := t.kids[j := r];
      var o := Others(t.kids, j);
      assert Replace(t, q, u) == Shape(t.node, ks);
      assert SubAt(t, q) == SubAt(k, q);
      assert FootprintAll(ks) == o + Footprint(r) by {
        OthersSplit(ks, j);
        OthersUpdate(t.kids, j, r);
      }
      assert Footprint(t) == {t.node} + o + Footprint(k) && o !! Footprint(k) && t.node !in Footprint(k) by {
        OthersSplit(t.kids, j);
        OthersDisjoint(t.kids, j);
      }
      assert Footprint(r) == Footprint(k) - Footprint(SubAt(k, q)) + Footprint(u) by {
        ReplaceFootprint(k, q, u);
      }
      assert Distinct(r) by {
        ReplaceDistinct(k, q, u);
      }
      assert t.node !in o + Footprint(r) && o !! Footprint(r);
      DistinctAllUpdate(t.kids, j, r);
    }
  }

  lemma {:induction false} DistinctAllUpdate(ts: seq<Shape>, j: int, r: Shape)
    requires 0 <= j < |ts| && DistinctAll(ts) && Distinct(r) && Others(ts, j) !! Footprint(r)
    ensures DistinctAll(ts[j := r])
  {
    var ks := ts[j := r];
    forall i | 0 <= i < |ks| && i != j ensures Footprint(ks[i]) !! Footprint(r) {
      assert Footprint(ks[i]) <= Others(ts, j);
    }
  }

  /** After the replacement, the subtree rooted at `q` is `u`. */
  lemma {:induction false} SubAtReplace(t: Shape, q: TreeNode, u: Shape)
    requires q in Footprint(t) && u.node == q
    ensures q in Footprint(Replace(t, q, u)) && SubAt(Replace(t, q, u), q) == u
    decreases t
  {
    if t.node != q {
      var j := KidWith(t.kids, q);
      var ks := t.kids[j := Replace(t.kids[j], q, u)];
      SubAtReplace(t.kids[j], q, u);
      OthersSplit(ks, j);
      assert KidWith(ks, q) == j;
    }
  }

  // ----- Appending a subtree -----

  lemma {:induction false} DistinctAllAppend(ts: seq<Shape>, s: Shape)
    requires DistinctAll(ts) && Distinct(s) && FootprintAll(ts) !! Footprint(s)
    ensures DistinctAll(ts + [s])
  {
    var r := ts + [s];
    forall i | 0 <= i < |ts| ensures Footprint(ts[i]) !! Footprint(s) {
      OthersSplit(ts, i);
    }
    assert forall i :: 0 <= i < |ts| ==> r[i] == ts[i];
  }

  /** Grafting a duplicate-free subtree with new nodes below `p` adds its
      nodes and its size, keeps the root and leaves no duplicate, and the
      subtree becomes the last child of `p`. */
  lemma {:induction false} GraftEffect(t: Shape, p: TreeNode, sub: Shape)
    requires Distinct(t) && p in Footprint(t)
    requires Distinct(sub) && Footprint(sub) !! Footprint(t)
    ensures Graft(t, p, sub).node == t.node
    ensures Size(Graft(t, p, sub)) == Size(t) + Size(sub)
    ensures Footprint(Graft(t, p, sub)) == Footprint(t) + Footprint(sub)
    ensures Distinct(Graft(t, p, sub))
    ensures p in Footprint(Graft(t, p, sub))
    ensures SubAt(Graft(t, p, sub), p).kids == SubAt(t, p).kids + [sub]
  {
    var a := SubAt(t, p);
    var v := Shape(p, a.kids + [sub]);
    DistinctSub(t, p);
    assert Size(v) == Size(a) + Size(sub) by {
      SizeAllAppend(a.kids, [sub]);
      SplitAt([sub], 0);
    }
    FootprintAllAppend(a.kids, sub);
    DistinctAllAppend(a.kids, sub);
    assert Distinct(v);
    ReplaceSize(t, p, v);
    ReplaceFootprint(t, p, v);
    ReplaceDistinct(t, p, v);
    SubAtReplace(t, p, v);
  }

  // ----- Cutting out a subtree -----

  lemma {:induction false} DistinctAllRemove(ts: seq<Shape>, j: int)
    requires 0 <= j < |ts| && DistinctAll(ts)
    ensures DistinctAll(Without(ts, j))
  {
    var r := Without(ts, j);
    assert forall i :: 0 <= i < |r| ==> r[i] == ts[if i < j then i else i + 1];
  }

  /** Dropping the `j`-th child of a duplicate-free subtree `u` removes exactly
      that child's nodes and size and leaves no duplicate. */
  lemma {:induction false} DropChild(u: Shape, j: int)
    requires Distinct(u) && 0 <= j < |u.kids|
    ensures Size(Shape(u.node, Without(u.kids, j))) == Size(u) - Size(u.kids[j])
    ensures Footprint(Shape(u.node, Without(u.kids, j))) == Footprint(u) - Footprint(u.kids[j])
    ensures Footprint(u.kids[j]) <= Footprint(u)
    ensures Distinct(Shape(u.node, Without(u.kids, j)))
  {
    var ks := Without(u.kids, j);
    assert SizeAll(ks) == SizeAll(u.kids) - Size(u.kids[j]) by {
      SplitSize(u.kids, j);
      SizeAllAppend(u.kids[..j], u.kids[j + 1..]);
    }
    var o := Others(u.kids, j);
    assert FootprintAll(ks) == o by {
      OthersRemove(u.kids, j);
    }
    assert Footprint(u) == {u.node} + o + Footprint(u.kids[j]) && o !! Footprint(u.kids[j]) by {
      OthersSplit(u.kids, j);
      OthersDisjoint(u.kids, j);
    }
    assert u.node !in Footprint(u.kids[j]);
    DropPart(u.node, o, Footprint(u.kids[j]));
    DistinctAllRemove(u.kids, j);
  }

  lemma DropPart(a: TreeNode, o: set<TreeNode>, k: set<TreeNode>)
    requires a !in k && o !! k
    ensures {a} + o == ({a} + o + k) - k
  {
  }

  /** Replacing a subtree by one that lacks a part `k` of it removes exactly `k`. */
  lemma ShrinkPart(whole: set<TreeNode>, u: set<TreeNode>, v: set<TreeNode>, k: set<TreeNode>)
    requires k <= u <= whole && v == u - k
    ensures whole - u + v == whole - k
  {
  }

  /** Cutting out the subtree of a node other than the root removes exactly
      its nodes and its size, keeps the root and leaves no duplicate; the
      parent loses that one child and keeps the others in order. */
  lemma {:induction false} PruneEffect(t: Shape, p: TreeNode)
    requires Distinct(t) && p in Footprint(t) && p != t.node
    ensures ParentOf(t, p) in Footprint(t)
    ensures Prune(t, p).node == t.node
    ensures Size(Prune(t, p)) == Size(t) - Size(SubAt(t, p))
    ensures Footprint(Prune(t, p)) == Footprint(t) - Footprint(SubAt(t, p))
    ensures Distinct(Prune(t, p))
    ensures var q := ParentOf(t, p); var j := KidWith(SubAt(t, q).kids, p);
      0 <= j && q in Footprint(Prune(t, p)) &&
      SubAt(Prune(t, p), q).kids == Without(SubAt(t, q).kids, j)
  {
    ParentOfChild(t, p);
    var q := ParentOf(t, p);
    var u := SubAt(t, q);
    var j := KidWith(u.kids, p);
    var v := Shape(q, Without(u.kids, j));
    assert Prune(t, p) == Replace(t, q, v);
    assert u.kids[j] == SubAt(t, p);
    DistinctSub(t, q);
    DropChild(u, j);
    ReplaceSize(t, q, v);
    assert Footprint(Replace(t, q, v)) == Footprint(t) - Footprint(SubAt(t, p)) by {
      ReplaceFootprint(t, q, v);
      ShrinkPart(Footprint(t), Footprint(u), Footprint(v), Footprint(u.kids[j]));
    }
    ReplaceDistinct(t, q, v);
    SubAtReplace(t, q, v);
  }

  // ----- The first match by key -----

  /** A node of the child subtree at position `j` occurs in the pre-order of
      none of its siblings. */
  lemma SiblingsMiss(ts: seq<Shape>, j: int, p: TreeNode)
    requires 0 <= j < |ts| && DistinctAll(ts) && p in Footprint(ts[j])
    ensures p !in PreOrderAll(ts[..j]) && p !in PreOrderAll(ts[j + 1..])
  {
    var l, r := ts[..j], ts[j + 1..];
    forall i | 0 <= i < |l| ensures p !in Footprint(l[i]) {
      assert l[i] == ts[i];
    }
    forall i | 0 <= i < |r| ensures p !in Footprint(r[i]) {
      assert r[i] == ts[j + 1 + i];
    }
    NotInPreOrderAll(ts[..j], p);
    NotInPreOrderAll(ts[j + 1..], p);
  }

  /** The first match in the pre-order, when it is not the start node, lies in
      the first child subtree holding it, it is the first match of that
      subtree, and the earlier children's subtrees hold no match. */
  lemma {:induction false} FirstMatchInKid(t: Shape, m: Matcher)
    requires Distinct(t)
    requires First(m, PreOrder(t)) != null && First(m, PreOrder(t)) != t.node
    ensures var p := First(m, PreOrder(t)); var j := KidWith(t.kids, p);
      p in Footprint(t) && 0 <= j &&
      First(m, PreOrderAll(t.kids[..j])) == null && First(m, PreOrder(t.kids[j])) == p
  {
    var p := First(m, PreOrder(t));
    InFootprint(t, p);
    var j := KidWith(t.kids, p);
    PreOrderAround(t, j);
    SiblingsMiss(t.kids, j, p);
    FirstInMiddle(m, [t.node], PreOrderAll(t.kids[..j]), PreOrder(t.kids[j]), PreOrderAll(t.kids[j + 1..]), p);
  }

  /** The first match of `key` in the pre-order, when it is not the root, is
      also the first child with that key among its parent's children: an
      earlier sibling with the same key would come earlier in pre-order. */
  lemma {:induction false} FirstMatchIsFirstKeyChild(t: Shape, key: Key)
    requires Distinct(t)
    requires First(Lit(key), PreOrder(t)) != null && First(Lit(key), PreOrder(t)) != t.node
    ensures var p := First(Lit(key), PreOrder(t));
      p in Footprint(t) && p != t.node &&
      var u := SubAt(t, ParentOf(t, p));
      FirstKeyIndex(Nodes(u.kids), key) == KidWith(u.kids, p)
    decreases t
  {
    var m := Lit(key);
    var p := First(m, PreOrder(t));
    FirstMatchInKid(t, m);
    var j := KidWith(t.kids, p);
    var k := t.kids[j];
    if k.node == p {
      assert SubAt(t, t.node) == t;
      var ns := Nodes(t.kids);
      forall i | 0 <= i < j ensures ns[i].key != key {
        assert t.kids[..j][i] == t.kids[i];
        assert t.kids[i].node in Footprint(t.kids[..j][i]);
        InPreOrderAll(t.kids[..j], t.kids[i].node);
      }
      var r := FirstKeyIndex(ns, key);
      assert r == j;
    } else {
      FirstMatchIsFirstKeyChild(k, key);
      SubAtInKid(t, j, ParentOf(k, p));
      SubAtInKid(t, j, p);
    }
  }

  // ----- The edits of insertAt and remove -----

  /** With no match of `key` in the pre-order, no node has that key. */
  lemma {:induction false} NoMatchNoKey(t: Shape, key: Key)
    requires First(Lit(key), PreOrder(t)) == null
    ensures forall n :: n in Footprint(t) ==> n.key != key
  {
    var ns := PreOrder(t);
    forall n | n in Footprint(t) ensures n.key != key {
      InPreOrder(t, n);
      var i :| 0 <= i < |ns| && ns[i] == n;
      assert !Matches(Lit(key), ns[i]);
    }
  }

  /** The first node in pre-order whose key is `key`, or null when no node
      of the subtree has that key. */
  ghost function Keyed(t: Shape, key: Key): (p: TreeNode?)
    ensures p == null <==> forall n :: n in Footprint(t) ==> n.key != key
    ensures p != null ==> p in Footprint(t) && p.key == key
  {
    FootprintIsPreOrder(t);
    var p := First(Lit(key), PreOrder(t));
    if p == null then
      NoMatchNoKey(t, key);
      p
    else
      assert p in Footprint(t) && p.key == key;
      p
  }

  lemma KeyedIsFirst(t: Shape, key: Key)
    ensures Keyed(t, key) == First(Lit(key), PreOrder(t))
  {
  }

  /** The snapshot after insertAt(key, n), where `sub` is the snapshot of `n`:
      `sub` becomes the last child of the node Keyed finds, if any. */
  ghost function InsertAtKey(t: Shape, key: Key, sub: Shape): Shape
  {
    var p := Keyed(t, key);
    if p == null then t else Graft(t, p, sub)
  }

  /** The snapshot after remove(key): the subtree of the node Keyed finds is
      cut out, unless there is none or it is the root. */
  ghost function RemoveKey(t: Shape, key: Key): Shape
    requires Distinct(t)
  {
    var p := Keyed(t, key);
    if p == null || p == t.node then t else Prune(t, p)
  }

  /** insertAt adds the nodes and the size of the inserted subtree below the
      node Keyed finds, as its last child, and leaves no duplicate; without
      such a node the snapshot is unchanged. */
  lemma {:induction false} InsertAtKeyEffect(t: Shape, key: Key, sub: Shape)
    requires Distinct(t) && Distinct(sub) && Footprint(sub) !! Footprint(t)
    ensures var p := Keyed(t, key); var r := InsertAtKey(t, key, sub);
      r.node == t.node && Distinct(r) &&
      if p == null then r == t
      else
        Size(r) == Size(t) + Size(sub) && Footprint(r) == Footprint(t) + Footprint(sub) &&
        p in Footprint(r) && SubAt(r, p).kids == SubAt(t, p).kids + [sub]
  {
    var p := Keyed(t, key);
    if p != null {
      GraftEffect(t, p, sub);
    }
  }

  /** remove takes out exactly the subtree of the node Keyed finds and its
      size, and leaves no duplicate; when there is no such node, or it is the
      root, the snapshot is unchanged. */
  lemma {:induction false} RemoveKeyEffect(t: Shape, key: Key)
    requires Distinct(t)
    ensures var p := Keyed(t, key); var r := RemoveKey(t, key);
      r.node == t.node && Distinct(r) &&
      if p == null || p == t.node then r == t
      else
        Size(r) == Size(t) - Size(SubAt(t, p)) &&
        Footprint(r) == Footprint(t) - Footprint(SubAt(t, p)) && p !in Footprint(r)
  {
    var p := Keyed(t, key);
    if p != null && p != t.node {
      PruneEffect(t, p);
    }
  }
}
