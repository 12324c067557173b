/** A vertex of an ordered N-ary tree: a key, the ordered list of its
    children, a separately maintained count of them, and a back-reference
    to the node that currently holds it as a child. */
module TreeNodes {

  /** Keys are either strings or integers; two keys are equal only when
      they have the same kind and the same value. */
  datatype Key = Str(text: string) | Num(value: int)

  /** Index of the first node of `ns` whose key is `key`, or -1 when no
      node has that key. */
  function FirstKeyIndex(ns: seq<TreeNode>, key: Key): (r: int)
    ensures -1 <= r < |ns|
    ensures r == -1 <==> forall j :: 0 <= j < |ns| ==> ns[j].key != key
    ensures 0 <= r ==> ns[r].key == key && forall j :: 0 <= j < r ==> ns[j].key != key
  {
    if ns == [] then -1
    else if ns[0].key == key then 0
    else
      var r := FirstKeyIndex(ns[1..], key);
      if r == -1 then -1 else r + 1
  }

  /** `ns` without its element at position `i`; the others keep their order. */
  function Without<T>(ns: seq<T>, i: int): (r: seq<T>)
    requires 0 <= i < |ns|
    ensures |r| == |ns| - 1
    ensures forall j :: 0 <= j < i ==> r[j] == ns[j]
    ensures forall j :: i <= j < |r| ==> r[j] == ns[j + 1]
  {
    ns[..i] + ns[i + 1..]
  }

  class TreeNode {
    const key: Key
    var childList: seq<TreeNode>
    var childCount: int
    var parent: TreeNode?

    /** The counter always agrees with the length of the child list. */
    ghost predicate Valid()
      reads this
    {
      childCount == |childList|
    }

    /** A new node with the given key and initial parent, to which every
        node of `initial` is attached, in order, by InsertChild. */
    constructor (key: Key, initial: seq<TreeNode>, parent: TreeNode?)
      modifies set c | c in initial
      ensures Valid()
      ensures this.key == key && this.parent == parent
      ensures childList == initial && childCount == |initial|
      ensures forall c :: c in initial ==> c.parent == this
      ensures forall c :: c in initial ==>
        c.childList == old(c.childList) && c.childCount == old(c.childCount)
    {
      this.key := key;
      this.parent := parent;
      childList := [];
      childCount := 0;
      new;
      for i := 0 to |initial|
        invariant Valid() && childList == initial[..i]
        invariant this.key == key && this.parent == parent
        invariant forall j :: 0 <= j < i ==> initial[j].parent == this
        invariant forall c :: c in initial ==>
          c.childList == old(c.childList) && c.childCount == old(c.childCount)
      {
        var self := InsertChild(initial[i]);
      }
    }

    /** True when the node has no children. */
    function IsLeaf(): (r: bool)
      reads this
      ensures r <==> childList == []
      ensures Valid() ==> (r <==> childCount == 0)
    {
      |childList| == 0
    }

    /** The negation of IsLeaf. */
    function HasChildren(): (r: bool)
      reads this
      ensures r <==> childList != []
      ensures r <==> !IsLeaf()
    {
      !IsLeaf()
    }

    /** The stored counter, which is the number of direct children. */
    function ChildrenCount(): (r: int)
      reads this
      requires Valid()
      ensures r == |childList|
    {
      childCount
    }

    /** The child at position `index`, or null when `index` is out of range. */
    function ChildAt(index: int): (r: TreeNode?)
      reads this
      requires Valid()
      ensures 0 <= index < |childList| ==> r == childList[index]
      ensures !(0 <= index < |childList|) ==> r == null
    {
      if 0 <= index < childCount then childList[index] else null
    }

    /** The direct children, read one index at a time, in storage order. */
    method Children() returns (r: seq<TreeNode>)
      ensures r == childList
    {
      r := [];
      var i := 0;
      while i < |childList|
        invariant 0 <= i <= |childList|
        invariant r == childList[..i]
      {
        r := r + [childList[i]];
        i := i + 1;
      }
    }

    /** Removes the first child whose key is `key`; does nothing when no
        child has that key. Returns this node. */
    method RemoveChild(key: Key) returns (r: TreeNode)
      requires Valid()
      modifies this`childList, this`childCount
      ensures Valid() && r == this
      ensures var i := FirstKeyIndex(old(childList), key);
        childList == if i == -1 then old(childList) else Without(old(childList), i)
    {
      var index := 0;
      while index < |childList| && childList[index].key != key
        invariant 0 <= index <= |childList|
        invariant forall j :: 0 <= j < index ==> childList[j].key != key
      {
        index := index + 1;
      }
      if index < |childList| {
        r := RemoveChildAt(index);
      } else {
        r := this;
      }
    }

    /** Removes the child at position `index` when it is in range; otherwise
        nothing changes. Returns this node. */
    method RemoveChildAt(index: int) returns (r: TreeNode)
      requires Valid()
      modifies this`childList, this`childCount
      ensures Valid() && r == this
      ensures 0 <= index < old(|childList|) ==> childList == Without(old(childList), index)
      ensures !(0 <= index < old(|childList|)) ==> childList == old(childList)
    {
      if 0 <= index < childCount {
        childList := childList[..index] + childList[index + 1..];
        childCount := childCount - 1;
      }
      r := this;
    }

    /** Appends `node` as the last child and makes this node its parent.
        Returns this node. */
    method InsertChild(node: TreeNode) returns (r: TreeNode)
      requires Valid()
      modifies this`childList, this`childCount, node`parent
      ensures Valid() && r == this
      ensures node.parent == this
      ensures childList == old(childList) + [node]
      ensures childCount == old(childCount) + 1
    {
      node.parent := this;
      childList := childList + [node];
      childCount := childCount + 1;
      r := this;
    }

    /** Inserts `node` so that it becomes the child at position `index` and
        makes this node its parent. Returns this node. */
    method InsertChildAt(node: TreeNode, index: int) returns (r: TreeNode)
      requires Valid()
      requires 0 <= index <= childCount
      modifies this`childList, this`childCount, node`parent
      ensures Valid() && r == this
      ensures node.parent == this
      ensures childList == old(childList)[..index] + [node] + old(childList)[index..]
      ensures childCount == old(childCount) + 1
    {
      node.parent := this;
      childList := childList[..index] + [node] + childList[index..];
      childCount := childCount + 1;
      r := this;
    }
  }
}
