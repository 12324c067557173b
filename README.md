# ts-tree-struct in Dafny

A model of the in-memory ordered N-ary tree of ts-tree-struct, with its
properties proved. The model has two classes, as the TypeScript source does:

- `TreeNode` is a keyed vertex. It holds its child list, a separately kept
  child counter and a back-reference to its parent.
- `Tree` wraps a root node. It provides pre-order and post-order walks, an
  enter/leave walk with callbacks, search by key or predicate, `insertAt`,
  `remove` and `count`.

Both work on the node graph in the heap, as the TypeScript code does:

- `TreeNodes.TreeNode` is a Dafny class. Its `childList`, `childCount` and
  `parent` fields are updated in place by `InsertChild`, `InsertChildAt`,
  `RemoveChild` and `RemoveChildAt`. Each method's `modifies` clause names
  exactly the fields it updates.
- `Trees.Tree` keeps two ghost fields:
  - a snapshot of the tree's shape, `shape`, a value of the datatype
    `Shapes.Shape`: a node with the snapshots of its children, in order;
  - the set `Repr` of its nodes.

`Tree.Valid()` ties the heap to the snapshot:
- the nodes are distinct;
- every node's child list holds exactly the nodes of its children;
- every counter agrees with its list;
- every child names its node as parent;
- the root has no parent.

Every tree operation is a method proved against a function of the snapshot:
- the walks return `PreOrder(shape)`, `PostOrder(shape)` and the fold of
  the callbacks over `Events(shape)`;
- `FindOne` returns the first match of the pre-order;
- `FindMany` returns the pre-order filtered by the matcher;
- `Count` returns `Size(shape)`;
- `InsertAt` and `Remove` leave `Valid()` holding. The new snapshot is the
  old one with a subtree grafted on (`InsertAtKey`) or cut out
  (`RemoveKey`).

Beside these functions, lemmas state what the source promises about them:
- pre-order and post-order list the same nodes, both `Size` of them, and a
  subtree's walk is a contiguous block of the whole walk;
- the enter callbacks come in pre-order and the leave callbacks in
  post-order;
- the filtered sequence is empty exactly when there is no first match, and
  otherwise starts with it;
- the sum of the child counters plus one is the size;
- `insertAt` adds the inserted subtree's nodes below the first node with
  the key, and `remove` takes out exactly the first such node's subtree;
- the parent's `removeChild(key)` drops that very node, because no earlier
  sibling can carry the key.

The modules, file by file:

| file | module | contents |
|---|---|---|
| tree_node.dfy | `TreeNodes` | keys, the `TreeNode` class |
| shape.dfy | `Shapes` | snapshots, pre-order, post-order, size, counters, footprints |
| search.dfy | `Search` | matchers, first match, filter |
| walk.dfy | `Walks` | enter/leave events and the callback fold |
| edit.dfy | `Edits` | the node `insertAt`/`remove` find, graft, prune and their effects |
| mirror.dfy | `Mirroring` | how the node fields match a snapshot, and how each edit keeps that match |
| tree.dfy | `Trees` | the recursive walks over the heap, the `Tree` class |
| scenario.dfy | `Scenario` | the tree a(b(d), c): its walks, `remove("b")`, `insertAt("c", e)` |

## Model

| member | source | states |
|---|---|---|
| TreeNodes.FirstKeyIndex | src/TreeNode.ts:36 | the position of the first node with the key, or -1 exactly when no node has it (findIndex) |
| TreeNodes.TreeNode.constructor | src/TreeNode.ts:4-11 | the initial children, attached in order through InsertChild, become the child list; each gets the new node as parent; the counter equals their number; their own children are untouched |
| TreeNodes.TreeNode.IsLeaf | src/TreeNode.ts:13-15 | true exactly when the child list is empty, and so when the counter is 0 |
| TreeNodes.TreeNode.HasChildren | src/TreeNode.ts:17-19 | the negation of IsLeaf: true exactly when there is a child |
| TreeNodes.TreeNode.ChildrenCount | src/TreeNode.ts:21-23 | the counter, which is the length of the child list |
| TreeNodes.TreeNode.ChildAt | src/TreeNode.ts:25-28 | the child at the index when 0 <= index < count, otherwise absent |
| TreeNodes.TreeNode.Children | src/TreeNode.ts:30-33 | the index loop yields exactly the child list, in order |
| TreeNodes.TreeNode.RemoveChild | src/TreeNode.ts:35-41 | removes the first child with the key, keeping the others in order; no child with the key leaves the list unchanged; counter kept in step; returns the node |
| TreeNodes.TreeNode.RemoveChildAt | src/TreeNode.ts:43-49 | in range, only that child is removed, the rest keep their order, the counter drops by one; out of range nothing changes; returns the node |
| TreeNodes.TreeNode.InsertChild | src/TreeNode.ts:51-56 | the node is appended as last child, gets this node as parent, the counter grows by one; returns the node |
| TreeNodes.TreeNode.InsertChildAt | src/TreeNode.ts:58-63 | the node lands at the index with the others around it in order, gets this node as parent, the counter grows by one; returns the node |
| Shapes.OrderLengths | src/Tree.ts:11-27 | pre-order and post-order each list exactly Size(t) nodes |
| Shapes.OrdersSameNodes | src/Tree.ts:11-27 | pre-order and post-order hold the same nodes, each the same number of times |
| Shapes.FootprintIsPreOrder | src/Tree.ts:11-18 | the pre-order visits exactly the nodes of the subtree |
| Shapes.PreOrderBlock | src/Tree.ts:11-18 | the pre-order from any node of the tree is a contiguous block of the tree's pre-order and starts with that node |
| Shapes.PostOrderBlock | src/Tree.ts:20-27 | the post-order from any node of the tree is a contiguous block of the tree's post-order and ends with that node |
| Shapes.DegreeSumPlusOne | src/Tree.ts:81-96 | the sum of the child counts over a subtree, plus one, is its number of nodes |
| Search.KeyIsLiteral | src/Tree.ts:71 | the predicate `node.key === key` that insertAt and remove pass matches the same nodes as the literal key |
| Search.FirstIndex | src/Tree.ts:47-56 | -1 exactly when no node matches; otherwise the position of a match with no match before it |
| Search.First | src/Tree.ts:47-56 | null exactly when no node matches; otherwise a node of the sequence that matches |
| Search.FirstOfConcat | src/Tree.ts:47-56 | the first match of a concatenation comes from the first part when that part has one |
| Search.FilterOfConcat | src/Tree.ts:58-68 | filtering distributes over concatenation, so the matches keep the walk's order |
| Search.FilterMembers | src/Tree.ts:58-68 | a node is in the filtered sequence exactly when it is in the walk and matches |
| Search.FilterStartsWithFirst | src/Tree.ts:47-68 | findMany is empty exactly when findOne finds nothing, and otherwise starts with findOne's node |
| Walks.RunAppend | src/Tree.ts:37-44 | the context threaded through two event runs in a row is the second run started from the first run's result |
| Walks.EnteredIsPreOrder | src/Tree.ts:29-45 | the onEnter calls of a walk come in pre-order |
| Walks.LeftIsPostOrder | src/Tree.ts:29-45 | the onLeave calls of a walk come in post-order |
| Walks.EventsShape | src/Tree.ts:29-45 | a walk makes 2·Size events, Size enter calls and Size leave calls, opening with entering the start node and closing with leaving it |
| Walks.WalkWithoutLeave | src/Tree.ts:42-43 | without onLeave, a walk folds onEnter over the pre-order |
| Edits.Keyed | src/Tree.ts:71 | the node insertAt and remove act on: null exactly when no node has the key, otherwise a node of the tree with that key |
| Edits.FirstMatchIsFirstKeyChild | src/Tree.ts:75-77 | the first match in pre-order, when not the root, is also its parent's first child with that key, so the parent's removeChild(key) drops exactly it |
| Edits.InsertAtKeyEffect | src/Tree.ts:70-72 | no node with the key: unchanged; otherwise the subtree becomes the last child of that node, the nodes and size grow by the subtree's, and no node is duplicated |
| Edits.RemoveKeyEffect | src/Tree.ts:74-79 | no node with the key, or the root: unchanged; otherwise exactly that node's subtree goes, the size drops by its size, and no node is duplicated |
| Edits.GraftEffect | src/Tree.ts:71 | grafting below a node adds exactly the new subtree's nodes and size and keeps the start node |
| Edits.PruneEffect | src/Tree.ts:77 | cutting a subtree out removes exactly its nodes and size, and leaves the parent's children without it, the others in order |
| Mirroring.ParentLink | src/TreeNode.ts:52 | in a matched tree the parent field of every non-root node is its parent in the snapshot, which remove reads |
| Mirroring.ParentHoldsOnce | src/TreeNode.ts:51-56 | in a matched duplicate-free tree, every non-root node's parent field names its snapshot parent, whose child list holds the node exactly once |
| Mirroring.GraftMirrorsIn | src/TreeNode.ts:51-56 | after insertChild appends a matched subtree's start node, the node fields match the grafted snapshot |
| Mirroring.PruneMirrorsIn | src/TreeNode.ts:43-49 | after the child holding a node is spliced out of its parent's list, the node fields match the pruned snapshot |
| Trees.PreOrderFrom | src/Tree.ts:11-18 | the recursive walk over the heap returns PreOrder of the node's snapshot |
| Trees.PostOrderFrom | src/Tree.ts:20-27 | the recursive walk over the heap returns PostOrder of the node's snapshot |
| Trees.TraverseFrom | src/Tree.ts:29-45 | the recursive walk returns the context after the callbacks for Events of the node's snapshot, in order |
| Trees.CountFrom | src/Tree.ts:81-96 | the count walk adds the sum of the child counts of the subtree, plus one when its start node has no parent |
| Trees.Attach | src/Tree.ts:71 | insertChild below a tree node leaves the node fields matching the grafted snapshot |
| Trees.Detach | src/Tree.ts:76-77 | the parent's removeChild(key) leaves the node fields matching the pruned snapshot |
| Trees.Tree.constructor | src/Tree.ts:4-5 | a tree over a parentless, well-formed root, with that root and its snapshot |
| Trees.Tree.ParentHolds | src/Tree.ts:75-77 | in a well-formed tree every node but the root has a parent in the tree whose child list holds it exactly once, which remove relies on |
| Trees.Tree.PreOrderTraversal | src/Tree.ts:11-18 | from any node of the tree, the pre-order of its subtree; from the root, of the whole tree |
| Trees.Tree.PostOrderTraversal | src/Tree.ts:20-27 | from any node of the tree, the post-order of its subtree; from the root, of the whole tree |
| Trees.Tree.Traverse | src/Tree.ts:29-45 | from any node of the tree, the context after the enter/leave callbacks over its subtree walk |
| Trees.Tree.FindOne | src/Tree.ts:47-56 | the first node of the pre-order that the matcher matches, or null; a found node is in the tree and matches |
| Trees.Tree.FindMany | src/Tree.ts:58-68 | exactly the pre-order filtered by the matcher |
| Trees.Tree.Count | src/Tree.ts:81-96 | the number of nodes, which is the length of the pre-order |
| Trees.Tree.InsertAt | src/Tree.ts:70-72 | the tree stays well formed; its snapshot becomes InsertAtKey; with no node keyed, no node changes; otherwise the node is appended to that node's children and gets it as parent |
| Trees.Tree.Grow | src/Tree.ts:71 | insertChild on a tree node keeps the tree well formed with the grafted snapshot |
| Trees.Tree.Remove | src/Tree.ts:74-79 | the tree stays well formed; its snapshot becomes RemoveKey; with no node keyed, or the root keyed, no node changes; otherwise only the parent's child list and counter change: no parent field changes and the removed nodes keep their lists and counters |
| Trees.Tree.Cut | src/Tree.ts:76-77 | removeChild on the parent of the first keyed node keeps the tree well formed with the pruned snapshot; the parent stays in the tree, and no other node and no parent field changes |
| Scenario.SampleWalks | src/Tree.ts:11-27 | a(b(d), c) has pre-order a, b, d, c, post-order d, b, c, a, four nodes and three children in all |
| Scenario.SampleRemove | src/Tree.ts:74-79 | remove("b") on a(b(d), c) leaves a(c), with pre-order a, c and two nodes |
| Scenario.SampleInsert | src/Tree.ts:70-72 | insertAt("c", e) on a(b(d), c) makes e the last child of c, five nodes in all |

## Left out

- The `data` payload of a node is never read by the tree. It is not part of the model.
- Generators become finite sequences: `children()`, `preOrderTraversal` and `postOrderTraversal` return a `seq`. Laziness, restarting and mutation during an iteration in flight are not modelled.
- The traversal context is a value, not a mutable record. Each callback is a function `(TreeNode, C) -> C` that returns the new context; the result is the final context.
- Trees.Tree.Count: the counting callbacks read `childrenCount` and `parent`, which a pure callback cannot do. `count` is proved through its own recursive walk (`CountFrom`), which follows `traverse`'s order and adds what the two callbacks add.
- Search.Matcher: a predicate matcher is a function that cannot read mutable fields. The `typeof` test between a key and a function is replaced by the two cases of `Matcher`.
- Keys are strings or unbounded integers. The `===` cases of JavaScript numbers (NaN, -0, fractions) are not modelled.
- TreeNodes.TreeNode.InsertChildAt requires `0 <= index <= childrenCount`. The model does not cover what `splice` does with negative or too-large indices.
- Trees.Tree.InsertAt requires the inserted node to bring a well-formed subtree none of whose nodes is already in this tree.
  - Moving a node already in this tree, or an ancestor of the target, is not modelled. That is the duplicate and cycle hazard of the source, which performs no such check.
  - A node still listed by a parent outside this tree is allowed: as in the source, that parent keeps its stale entry.
- Trees.Tree.constructor requires a root without a parent and a well-formed node graph below it. The source does not check either.
- The `root` getter is the constant field `root`.
- The `Tree` methods require their start node to be a node of this tree (in `Repr`); walks from a node outside the tree are not modelled through them. The recursive walks `PreOrderFrom`, `PostOrderFrom` and `TraverseFrom` walk from any node whose fields match a snapshot.
