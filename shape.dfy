/** Snapshots of subtrees as values, and the traversal orders defined on
    them. A snapshot records a node and, in order, the snapshots of its
    children; everything about the tree's shape is stated on snapshots. */
module Shapes {
  import opened TreeNodes

  datatype Shape = Shape(node: TreeNode, kids: seq<Shape>)

  /** Number of nodes in the subtree. */
  function Size(t: Shape): nat
    decreases t
  {
    1 + SizeAll(t.kids)
  }

  function SizeAll(ts: seq<Shape>): nat
    decreases ts
  {
    if ts == [] then 0 else Size(ts[0]) + SizeAll(ts[1..])
  }

  /** The start node, then each child's pre-order, in child order. */
  function PreOrder(t: Shape): seq<TreeNode>
    decreases t
  {
    [t.node] + PreOrderAll(t.kids)
  }

  function PreOrderAll(ts: seq<Shape>): seq<TreeNode>
    decreases ts
  {
    if ts == [] then [] else PreOrder(ts[0]) + PreOrderAll(ts[1..])
  }

  /** Each child's post-order, in child order, then the start node. */
  function PostOrder(t: Shape): seq<TreeNode>
    decreases t
  {
    PostOrderAll(t.kids) + [t.node]
  }

  function PostOrderAll(ts: seq<Shape>): seq<TreeNode>
    decreases ts
  {
    if ts == [] then [] else PostOrder(ts[0]) + PostOrderAll(ts[1..])
  }

  /** Sum over all nodes of the subtree of their number of children. */
  function DegreeSum(t: Shape): nat
    decreases t
  {
    |t.kids| + DegreeSumAll(t.kids)
  }

  function DegreeSumAll(ts: seq<Shape>): nat
    decreases ts
  {
    if ts == [] then 0 else DegreeSum(ts[0]) + DegreeSumAll(ts[1..])
  }

  /** The nodes at the top of the given snapshots, in order. */
  function Nodes(ts: seq<Shape>): (r: seq<TreeNode>)
    ensures |r| == |ts|
    ensures forall i :: 0 <= i < |ts| ==> r[i] == ts[i].node
  {
    seq(|ts|, i requires 0 <= i < |ts| => ts[i].node)
  }

  /** The set of nodes of a subtree. */
  ghost function Footprint(t: Shape): set<TreeNode>
    decreases t
  {
    {t.node} + FootprintAll(t.kids)
  }

  ghost function FootprintAll(ts: seq<Shape>): set<TreeNode>
    decreases ts
  {
    set i, n | 0 <= i < |ts| && n in Footprint(ts[i]) :: n
  }

  /** No node occurs twice in the subtree. */
  ghost predicate Distinct(t: Shape)
    decreases t
  {
    t.node !in FootprintAll(t.kids) && DistinctAll(t.kids)
  }

  ghost predicate DistinctAll(ts: seq<Shape>)
    decreases ts
  {
    (forall i :: 0 <= i < |ts| ==> Distinct(ts[i])) &&
    (forall i, j :: 0 <= i < j < |ts| ==> Footprint(ts[i]) !! Footprint(ts[j]))
  }

  /** Index of the first snapshot of `ts` whose subtree holds `p`, or -1. */
  ghost function KidWith(ts: seq<Shape>, p: TreeNode): (j: int)
    ensures -1 <= j < |ts|
    ensures j == -1 <==> p !in FootprintAll(ts)
    ensures 0 <= j ==> p in Footprint(ts[j])
    ensures 0 <= j ==> forall i :: 0 <= i < j ==> p !in Footprint(ts[i])
  {
    if ts == [] then -1
    else if p in Footprint(ts[0]) then 0
    else
      var j := KidWith(ts[1..], p);
      assert forall i :: 0 <= i < |ts| - 1 ==> ts[1..][i] == ts[i + 1];
      if j == -1 then -1 else j + 1
  }

  /** The snapshot of the subtree rooted at `p`. */
  ghost function SubAt(t: Shape, p: TreeNode): (r: Shape)
    requires p in Footprint(t)
    ensures r.node == p
    ensures Footprint(r) <= Footprint(t)
    decreases t
  {
    if t.node == p then t else SubAt(t.kids[KidWith(t.kids, p)], p)
  }

  /** The node that holds `p` as a direct child, or null for the start node. */
  ghost function ParentOf(t: Shape, p: TreeNode): (r: TreeNode?)
    requires p in Footprint(t)
    ensures r == null <==> p == t.node
    ensures r != null ==> r in Footprint(t)
    decreases t
  {
    if t.node == p then null
    else
      var j := KidWith(t.kids, p);
      if t.kids[j].node == p then t.node else ParentOf(t.kids[j], p)
  }

  /** Position of `p` in the pre-order of `t`. */
  ghost function Offset(t: Shape, p: TreeNode): nat
    requires p in Footprint(t)
    decreases t
  {
    if t.node == p then 0
    else
      var j := KidWith(t.kids, p);
      1 + SizeAll(t.kids[..j]) + Offset(t.kids[j], p)
  }

  /** Position in the post-order of `t` of the first node of the subtree rooted at `p`. */
  ghost function PostOffset(t: Shape, p: TreeNode): nat
    requires p in Footprint(t)
    decreases t
  {
    if t.node == p then 0
    else
      var j := KidWith(t.kids, p);
      SizeAll(t.kids[..j]) + PostOffset(t.kids[j], p)
  }

  // ----- Concatenation of children -----

  lemma {:induction false} PreOrderAllAppend(a: seq<Shape>, b: seq<Shape>)
    ensures PreOrderAll(a + b) == PreOrderAll(a) + PreOrderAll(b)
    decreases a
  {
    if a == [] {
      assert a + b == b;
    } else {
      var x := PreOrder(a[0]);
      assert (a + b)[0] == a[0] && (a + b)[1..] == a[1..] + b;
      calc {
        PreOrderAll(a + b);
        x + PreOrderAll(a[1..] + b);
        { PreOrderAllAppend(a[1..], b); }
        x + (PreOrderAll(a[1..]) + PreOrderAll(b));
        (x + PreOrderAll(a[1..])) + PreOrderAll(b);
      }
    }
  }

  lemma {:induction false} PostOrderAllAppend(a: seq<Shape>, b: seq<Shape>)
    ensures PostOrderAll(a + b) == PostOrderAll(a) + PostOrderAll(b)
    decreases a
  {
    if a == [] {
      assert a + b == b;
    } else {
      var x := PostOrder(a[0]);
      assert (a + b)[0] == a[0] && (a + b)[1..] == a[1..] + b;
      calc {
        PostOrderAll(a + b);
        x + PostOrderAll(a[1..] + b);
        { PostOrderAllAppend(a[1..], b); }
        x + (PostOrderAll(a[1..]) + PostOrderAll(b));
        (x + PostOrderAll(a[1..])) + PostOrderAll(b);
      }
    }
  }

  lemma {:induction false} SizeAllAppend(a: seq<Shape>, b: seq<Shape>)
    ensures SizeAll(a + b) == SizeAll(a) + SizeAll(b)
    decreases a
  {
    if a == [] {
      assert a + b == b;
    } else {
      assert (a + b)[1..] == a[1..] + b;
      SizeAllAppend(a[1..], b);
    }
  }

  lemma {:induction false} DegreeSumAllAppend(a: seq<Shape>, b: seq<Shape>)
    ensures DegreeSumAll(a + b) == DegreeSumAll(a) + DegreeSumAll(b)
    decreases a
  {
    if a == [] {
      assert a + b == b;
    } else {
      assert (a + b)[1..] == a[1..] + b;
      DegreeSumAllAppend(a[1..], b);
    }
  }

  /** Splits a child list around position `j`. */
  lemma {:induction false} SplitAt(ts: seq<Shape>, j: int)
    requires 0 <= j < |ts|
    ensures ts == ts[..j] + [ts[j]] + ts[j + 1..]
    ensures PreOrderAll([ts[j]]) == PreOrder(ts[j])
    ensures PostOrderAll([ts[j]]) == PostOrder(ts[j])
    ensures SizeAll([ts[j]]) == Size(ts[j])
  {
    assert ts == ts[..j] + [ts[j]] + ts[j + 1..];
    assert [ts[j]][1..] == [];
  }

  lemma {:induction false} SplitPreOrder(ts: seq<Shape>, j: int)
    requires 0 <= j < |ts|
    ensures PreOrderAll(ts) == PreOrderAll(ts[..j]) + PreOrder(ts[j]) + PreOrderAll(ts[j + 1..])
  {
    SplitAt(ts, j);
    PreOrderAllAppend(ts[..j] + [ts[j]], ts[j + 1..]);
    PreOrderAllAppend(ts[..j], [ts[j]]);
  }

  lemma {:induction false} SplitPostOrder(ts: seq<Shape>, j: int)
    requires 0 <= j < |ts|
    ensures PostOrderAll(ts) == PostOrderAll(ts[..j]) + PostOrder(ts[j]) + PostOrderAll(ts[j + 1..])
  {
    SplitAt(ts, j);
    PostOrderAllAppend(ts[..j] + [ts[j]], ts[j + 1..]);
    PostOrderAllAppend(ts[..j], [ts[j]]);
  }

  lemma {:induction false} SplitSize(ts: seq<Shape>, j: int)
    requires 0 <= j < |ts|
    ensures SizeAll(ts) == SizeAll(ts[..j]) + Size(ts[j]) + SizeAll(ts[j + 1..])
  {
    SplitAt(ts, j);
    SizeAllAppend(ts[..j] + [ts[j]], ts[j + 1..]);
    SizeAllAppend(ts[..j], [ts[j]]);
  }

  // ----- Traversal facts -----

  /** Pre-order and post-order both list exactly Size(t) nodes. */
  lemma {:induction false} OrderLengths(t: Shape)
    ensures |PreOrder(t)| == Size(t) && |PostOrder(t)| == Size(t)
    decreases t
  {
    OrderLengthsAll(t.kids);
  }

  lemma {:induction false} OrderLengthsAll(ts: seq<Shape>)
    ensures |PreOrderAll(ts)| == SizeAll(ts) && |PostOrderAll(ts)| == SizeAll(ts)
    decreases ts
  {
    if ts != [] {
      OrderLengths(ts[0]);
      OrderLengthsAll(ts[1..]);
    }
  }

  /** Pre-order and post-order list the same nodes, each as often. */
  lemma {:induction false} OrdersSameNodes(t: Shape)
    ensures multiset(PreOrder(t)) == multiset(PostOrder(t))
    decreases t
  {
    OrdersSameNodesAll(t.kids);
  }

  lemma {:induction false} OrdersSameNodesAll(ts: seq<Shape>)
    ensures multiset(PreOrderAll(ts)) == multiset(PostOrderAll(ts))
    decreases ts
  {
    if ts != [] {
      OrdersSameNodes(ts[0]);
      OrdersSameNodesAll(ts[1..]);
    }
  }

  /** Every node but the start node is the child of exactly one node, so the
      number of nodes is the sum of the numbers of children, plus one. */
  lemma {:induction false} DegreeSumPlusOne(t: Shape)
    ensures DegreeSum(t) + 1 == Size(t)
    decreases t
  {
    DegreeSumPlusOneAll(t.kids);
  }

  lemma {:induction false} DegreeSumPlusOneAll(ts: seq<Shape>)
    ensures DegreeSumAll(ts) + |ts| == SizeAll(ts)
    decreases ts
  {
    if ts != [] {
      DegreeSumPlusOne(ts[0]);
      DegreeSumPlusOneAll(ts[1..]);
    }
  }

  /** Each child's subtree lies inside the children's footprint. */
  lemma {:induction false} KidFootprint(ts: seq<Shape>, i: int)
    requires 0 <= i < |ts|
    ensures Footprint(ts[i]) <= FootprintAll(ts)
  {
  }

  lemma {:induction false} FootprintAllCons(ts: seq<Shape>)
    requires ts != []
    ensures FootprintAll(ts) == Footprint(ts[0]) + FootprintAll(ts[1..])
  {
    forall n | n in FootprintAll(ts) ensures n in Footprint(ts[0]) + FootprintAll(ts[1..]) {
      var i :| 0 <= i < |ts| && n in Footprint(ts[i]);
      if i > 0 {
        assert ts[1..][i - 1] == ts[i];
      }
    }
    forall n | n in FootprintAll(ts[1..]) ensures n in FootprintAll(ts) {
      var i :| 0 <= i < |ts| - 1 && n in Footprint(ts[1..][i]);
      assert ts[1..][i] == ts[i + 1];
    }
  }

  /** The footprint of a subtree is the set of nodes its pre-order visits. */
  lemma {:induction false} FootprintIsPreOrder(t: Shape)
    ensures forall n :: n in Footprint(t) <==> n in PreOrder(t)
    decreases t
  {
    FootprintIsPreOrderAll(t.kids);
  }

  /** FootprintIsPreOrderAll for one node, in each direction. */
  lemma InPreOrderAll(ts: seq<Shape>, n: TreeNode)
    requires n in FootprintAll(ts)
    ensures n in PreOrderAll(ts)
  {
    FootprintIsPreOrderAll(ts);
  }

  lemma NotInPreOrderAll(ts: seq<Shape>, n: TreeNode)
    requires n !in FootprintAll(ts)
    ensures n !in PreOrderAll(ts)
  {
    FootprintIsPreOrderAll(ts);
  }

  /** FootprintIsPreOrder for one node, in each direction. */
  lemma InPreOrder(t: Shape, n: TreeNode)
    requires n in Footprint(t)
    ensures n in PreOrder(t)
  {
    FootprintIsPreOrder(t);
  }

  lemma InFootprint(t: Shape, n: TreeNode)
    requires n in PreOrder(t)
    ensures n in Footprint(t)
  {
    FootprintIsPreOrder(t);
  }

  lemma {:induction false} FootprintIsPreOrderAll(ts: seq<Shape>)
    ensures forall n :: n in FootprintAll(ts) <==> n in PreOrderAll(ts)
    decreases ts
  {
    if ts != [] {
      FootprintAllCons(ts);
      FootprintIsPreOrder(ts[0]);
      FootprintIsPreOrderAll(ts[1..]);
    }
  }

  lemma Reassociate(a: seq<TreeNode>, b: seq<TreeNode>, c: seq<TreeNode>, d: seq<TreeNode>)
    ensures a + (b + c + d) == (a + b) + c + d
    ensures (b + c + d) + a == b + c + (d + a)
  {
  }

  /** `w` occurs in `s` as the contiguous block starting at position `off`. */
  ghost predicate BlockAt(s: seq<TreeNode>, off: int, w: seq<TreeNode>)
  {
    0 <= off && off + |w| <= |s| && s[off..off + |w|] == w
  }

  /** A block inside the middle part of a concatenation is a block of the
      whole, shifted by the length of the first part. */
  lemma BlockOfConcat(whole: seq<TreeNode>, x: seq<TreeNode>, y: seq<TreeNode>, z: seq<TreeNode>,
                      o: int, w: seq<TreeNode>, off: int)
    requires whole == x + y + z && BlockAt(y, o, w) && off == |x| + o
    ensures BlockAt(whole, off, w)
  {
    assert forall i :: 0 <= i < |w| ==> whole[off..off + |w|][i] == w[i];
  }

  /** One level of Offset, PostOffset and SubAt below a node other than `p`. */
  lemma OffsetStep(t: Shape, p: TreeNode)
    requires p in Footprint(t) && t.node != p
    ensures var j := KidWith(t.kids, p);
      0 <= j &&
      Offset(t, p) == 1 + SizeAll(t.kids[..j]) + Offset(t.kids[j], p) &&
      PostOffset(t, p) == SizeAll(t.kids[..j]) + PostOffset(t.kids[j], p) &&
      SubAt(t, p) == SubAt(t.kids[j], p)
  {
  }

  /** The pre-order of a subtree is a contiguous block of the pre-order of
      the whole tree, starting at the subtree's root. */
  lemma {:induction false} PreOrderBlock(t: Shape, p: TreeNode)
    requires p in Footprint(t)
    ensures BlockAt(PreOrder(t), Offset(t, p), PreOrder(SubAt(t, p)))
    ensures |PreOrder(SubAt(t, p))| == Size(SubAt(t, p))
    ensures PreOrder(SubAt(t, p))[0] == p
    decreases t
  {
    OrderLengths(SubAt(t, p));
    if t.node == p {
      assert SubAt(t, p) == t && Offset(t, p) == 0;
    } else {
      var k := t.kids[KidWith(t.kids, p)];
      PreOrderBlock(k, p);
      PreOrderBlockStep(t, p);
    }
  }

  /** The pre-order of `t` around the subtree of its child at position `j`. */
  lemma PreOrderAround(t: Shape, j: int)
    requires 0 <= j < |t.kids|
    ensures PreOrder(t) == ([t.node] + PreOrderAll(t.kids[..j])) + PreOrder(t.kids[j]) + PreOrderAll(t.kids[j + 1..])
    ensures |[t.node] + PreOrderAll(t.kids[..j])| == 1 + SizeAll(t.kids[..j])
  {
    SplitPreOrder(t.kids, j);
    Reassociate([t.node], PreOrderAll(t.kids[..j]), PreOrder(t.kids[j]), PreOrderAll(t.kids[j + 1..]));
    OrderLengthsAll(t.kids[..j]);
  }

  /** One level of PreOrderBlock: a block of the pre-order of the child
      holding `p` is a block of the pre-order of `t`. */
  lemma PreOrderBlockStep(t: Shape, p: TreeNode)
    requires p in Footprint(t) && t.node != p
    requires var k := t.kids[KidWith(t.kids, p)];
      BlockAt(PreOrder(k), Offset(k, p), PreOrder(SubAt(k, p)))
    ensures BlockAt(PreOrder(t), Offset(t, p), PreOrder(SubAt(t, p)))
  {
    var j := KidWith(t.kids, p);
    var k := t.kids[j];
    OffsetStep(t, p);
    PreOrderAround(t, j);
    BlockOfConcat(PreOrder(t), [t.node] + PreOrderAll(t.kids[..j]), PreOrder(k), PreOrderAll(t.kids[j + 1..]),
                  Offset(k, p), PreOrder(SubAt(t, p)), Offset(t, p));
  }

  /** The post-order of `t` around the subtree of its child at position `j`. */
  lemma PostOrderAround(t: Shape, j: int)
    requires 0 <= j < |t.kids|
    ensures PostOrder(t) == PostOrderAll(t.kids[..j]) + PostOrder(t.kids[j]) + (PostOrderAll(t.kids[j + 1..]) + [t.node])
    ensures |PostOrderAll(t.kids[..j])| == SizeAll(t.kids[..j])
  {
    SplitPostOrder(t.kids, j);
    Reassociate([t.node], PostOrderAll(t.kids[..j]), PostOrder(t.kids[j]), PostOrderAll(t.kids[j + 1..]));
    OrderLengthsAll(t.kids[..j]);
  }

  /** One level of PostOrderBlock. */
  lemma PostOrderBlockStep(t: Shape, p: TreeNode)
    requires p in Footprint(t) && t.node != p
    requires var k := t.kids[KidWith(t.kids, p)];
      BlockAt(PostOrder(k), PostOffset(k, p), PostOrder(SubAt(k, p)))
    ensures BlockAt(PostOrder(t), PostOffset(t, p), PostOrder(SubAt(t, p)))
  {
    var j := KidWith(t.kids, p);
    var k := t.kids[j];
    OffsetStep(t, p);
    PostOrderAround(t, j);
    BlockOfConcat(PostOrder(t), PostOrderAll(t.kids[..j]), PostOrder(k), PostOrderAll(t.kids[j + 1..]) + [t.node],
                  PostOffset(k, p), PostOrder(SubAt(t, p)), PostOffset(t, p));
  }

  /** The post-order of a subtree is a contiguous block of the post-order of
      the whole tree, ending with the subtree's root: every node is visited
      after all of its descendants. */
  lemma {:induction false} PostOrderBlock(t: Shape, p: TreeNode)
    requires p in Footprint(t)
    ensures BlockAt(PostOrder(t), PostOffset(t, p), PostOrder(SubAt(t, p)))
    ensures |PostOrder(SubAt(t, p))| == Size(SubAt(t, p))
    ensures PostOrder(SubAt(t, p))[|PostOrder(SubAt(t, p))| - 1] == p
    decreases t
  {
    OrderLengths(SubAt(t, p));
    if t.node == p {
      assert SubAt(t, p) == t && PostOffset(t, p) == 0;
    } else {
      var k := t.kids[KidWith(t.kids, p)];
      PostOrderBlock(k, p);
      PostOrderBlockStep(t, p);
    }
  }
}
