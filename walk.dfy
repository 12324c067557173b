/** The enter/leave walk over a subtree, as a sequence of events and a fold
    of a walker's callbacks over it. */
module Walks {
  import opened TreeNodes
  import opened Shapes

  datatype Option<T> = None | Some(value: T)

  /** The callbacks of a walk: `onEnter` is always present, `onLeave` may be
      absent. Each takes the node and the context and gives the new context. */
  datatype Walker<!C> = Walker(onEnter: (TreeNode, C) -> C, onLeave: Option<(TreeNode, C) -> C>)

  datatype Event = Enter(node: TreeNode) | Leave(node: TreeNode)

  /** A node is entered, then each child's subtree is walked in child order,
      then the node is left. */
  function Events(t: Shape): seq<Event>
    decreases t
  {
    [Enter(t.node)] + EventsAll(t.kids) + [Leave(t.node)]
  }

  function EventsAll(ts: seq<Shape>): seq<Event>
    decreases ts
  {
    if ts == [] then [] else Events(ts[0]) + EventsAll(ts[1..])
  }

  /** The context after the callback for one event; leaving without an
      `onLeave` callback keeps the context. */
  function Step<C>(w: Walker<C>, ctx: C, e: Event): C
  {
    match e
    case Enter(n) => w.onEnter(n, ctx)
    case Leave(n) => if w.onLeave.Some? then w.onLeave.value(n, ctx) else ctx
  }

  /** The context after the callbacks for all events, in order. */
  function Run<C>(w: Walker<C>, ctx: C, es: seq<Event>): C
    decreases |es|
  {
    if es == [] then ctx else Run(w, Step(w, ctx, es[0]), es[1..])
  }

  /** The nodes of the enter events, in order. */
  function Entered(es: seq<Event>): (r: seq<TreeNode>)
    ensures |r| <= |es|
  {
    if es == [] then []
    else (if es[0].Enter? then [es[0].node] else []) + Entered(es[1..])
  }

  /** The nodes of the leave events, in order. */
  function Left(es: seq<Event>): (r: seq<TreeNode>)
    ensures |r| <= |es|
  {
    if es == [] then []
    else (if es[0].Leave? then [es[0].node] else []) + Left(es[1..])
  }

  /** Folding the onEnter callback alone over a node sequence. */
  function FoldEnter<C>(f: (TreeNode, C) -> C, ctx: C, ns: seq<TreeNode>): C
    decreases |ns|
  {
    if ns == [] then ctx else FoldEnter(f, f(ns[0], ctx), ns[1..])
  }

  /** Running the events of two walks one after the other. */
  lemma {:induction false} RunAppend<C>(w: Walker<C>, ctx: C, a: seq<Event>, b: seq<Event>)
    ensures Run(w, ctx, a + b) == Run(w, Run(w, ctx, a), b)
    decreases |a|
  {
    if a == [] {
      assert a + b == b;
    } else {
      assert (a + b)[1..] == a[1..] + b;
      RunAppend(w, Step(w, ctx, a[0]), a[1..], b);
    }
  }

  /** The events of a run of sibling subtrees, split in two. */
  lemma {:induction false} EventsAllAppend(a: seq<Shape>, b: seq<Shape>)
    ensures EventsAll(a + b) == EventsAll(a) + EventsAll(b)
    decreases a
  {
    if a == [] {
      assert a + b == b;
    } else {
      var x := Events(a[0]);
      assert (a + b)[0] == a[0] && (a + b)[1..] == a[1..] + b;
      calc {
        EventsAll(a + b);
        x + EventsAll(a[1..] + b);
        { EventsAllAppend(a[1..], b); }
        x + (EventsAll(a[1..]) + EventsAll(b));
        (x + EventsAll(a[1..])) + EventsAll(b);
      }
    }
  }

  lemma {:induction false} EnteredAppend(a: seq<Event>, b: seq<Event>)
    ensures Entered(a + b) == Entered(a) + Entered(b)
    decreases |a|
  {
    if a == [] {
      assert a + b == b;
    } else {
      var x := if a[0].Enter? then [a[0].node] else [];
      assert (a + b)[0] == a[0] && (a + b)[1..] == a[1..] + b;
      calc {
        Entered(a + b);
        x + Entered(a[1..] + b);
        { EnteredAppend(a[1..], b); }
        x + (Entered(a[1..]) + Entered(b));
        (x + Entered(a[1..])) + Entered(b);
      }
    }
  }

  lemma {:induction false} LeftAppend(a: seq<Event>, b: seq<Event>)
    ensures Left(a + b) == Left(a) + Left(b)
    decreases |a|
  {
    if a == [] {
      assert a + b == b;
    } else {
      var x := if a[0].Leave? then [a[0].node] else [];
      assert (a + b)[0] == a[0] && (a + b)[1..] == a[1..] + b;
      calc {
        Left(a + b);
        x + Left(a[1..] + b);
        { LeftAppend(a[1..], b); }
        x + (Left(a[1..]) + Left(b));
        (x + Left(a[1..])) + Left(b);
      }
    }
  }

  /** The enter events of a walk come in pre-order. */
  lemma {:induction false} EnteredIsPreOrder(t: Shape)
    ensures Entered(Events(t)) == PreOrder(t)
    decreases t
  {
    EnteredAppend([Enter(t.node)] + EventsAll(t.kids), [Leave(t.node)]);
    EnteredAppend([Enter(t.node)], EventsAll(t.kids));
    EnteredAllIsPreOrderAll(t.kids);
  }

  lemma {:induction false} EnteredAllIsPreOrderAll(ts: seq<Shape>)
    ensures Entered(EventsAll(ts)) == PreOrderAll(ts)
    decreases ts
  {
    if ts != [] {
      EnteredAppend(Events(ts[0]), EventsAll(ts[1..]));
      EnteredIsPreOrder(ts[0]);
      EnteredAllIsPreOrderAll(ts[1..]);
    }
  }

  /** The leave events of a walk come in post-order. */
  lemma {:induction false} LeftIsPostOrder(t: Shape)
    ensures Left(Events(t)) == PostOrder(t)
    decreases t
  {
    LeftAppend([Enter(t.node)] + EventsAll(t.kids), [Leave(t.node)]);
    LeftAppend([Enter(t.node)], EventsAll(t.kids));
    LeftAllIsPostOrderAll(t.kids);
  }

  lemma {:induction false} LeftAllIsPostOrderAll(ts: seq<Shape>)
    ensures Left(EventsAll(ts)) == PostOrderAll(ts)
    decreases ts
  {
    if ts != [] {
      LeftAppend(Events(ts[0]), EventsAll(ts[1..]));
      LeftIsPostOrder(ts[0]);
      LeftAllIsPostOrderAll(ts[1..]);
    }
  }

  /** A walk has one enter and one leave event per node, opens with entering
      the start node and closes with leaving it. */
  lemma {:induction false} EventsShape(t: Shape)
    ensures |Events(t)| == 2 * Size(t)
    ensures Events(t)[0] == Enter(t.node) && Events(t)[|Events(t)| - 1] == Leave(t.node)
    ensures |Entered(Events(t))| == Size(t) && |Left(Events(t))| == Size(t)
    decreases t
  {
    EventsAllLength(t.kids);
    EnteredIsPreOrder(t);
    LeftIsPostOrder(t);
    OrderLengths(t);
  }

  lemma {:induction false} EventsAllLength(ts: seq<Shape>)
    ensures |EventsAll(ts)| == 2 * SizeAll(ts)
    decreases ts
  {
    if ts != [] {
      EventsShape(ts[0]);
      EventsAllLength(ts[1..]);
    }
  }

  /** Without an onLeave callback, a walk folds onEnter over the pre-order. */
  lemma {:induction false} RunWithoutLeave<C>(w: Walker<C>, ctx: C, es: seq<Event>)
    requires w.onLeave.None?
    ensures Run(w, ctx, es) == FoldEnter(w.onEnter, ctx, Entered(es))
    decreases |es|
  {
    if es != [] {
      RunWithoutLeave(w, Step(w, ctx, es[0]), es[1..]);
      if es[0].Enter? {
        var rest := Entered(es[1..]);
        assert ([es[0].node] + rest)[0] == es[0].node && ([es[0].node] + rest)[1..] == rest;
      } else {
        assert [] + Entered(es[1..]) == Entered(es[1..]);
      }
    }
  }

  /** The walk of a whole subtree without onLeave folds onEnter over its pre-order. */
  lemma {:induction false} WalkWithoutLeave<C>(w: Walker<C>, ctx: C, t: Shape)
    requires w.onLeave.None?
    ensures Run(w, ctx, Events(t)) == FoldEnter(w.onEnter, ctx, PreOrder(t))
  {
    RunWithoutLeave(w, ctx, Events(t));
    EnteredIsPreOrder(t);
  }
}
