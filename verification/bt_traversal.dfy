/** Stepwise traversal in either direction, and counting by it. */
module BtTraversals {
  import opened BtShapes
  import opened BtWalks
  import opened RbShapes
  import opened BtTrees

  class Traversal {
    var index: nat
    var tree: BtTree?
    var current: BtNode?
    var backwards: bool

    constructor (tree: BtTree, backwards: bool)
      ensures this.tree == tree && this.backwards == backwards && index == 0 && current == null
    {
      this.tree, this.backwards, index, current := tree, backwards, 0, null;
    }

    method Reset()
      modifies this
      ensures tree == null && current == null && index == 0 && !backwards
    {
      tree, current, index, backwards := null, null, 0, false;
    }
  }

  lemma {:induction false} BoundsInOrder(c: Ctx, key: int, back: bool)
    requires AtMost(Before(c), key) && forall e :: e in After(c) ==> key <= e.0
    ensures InOrder(c, key, back)
  {
    if !c.Top? {
      var e := (c.key, c.data);
      if c.InLeft? {
        assert After(c) == [e] + (Entries(c.other) + After(c.up));
        assert e in After(c);
      } else {
        assert Before(c) == (Before(c.up) + Entries(c.other)) + [e];
        assert e in Before(c);
      }
      BoundsInOrder(c.up, key, back);
    }
  }

  lemma PlaceInOrder(c: Ctx, t: Tree, back: bool)
    requires t.Node? && Sorted(Entries(Fill(c, t)))
    ensures InOrder(c, t.key, back)
  {
    SortedAround(c, t);
    BoundsInOrder(c, t.key, back);
  }

  /** The leftmost node below node, or the rightmost. */
  method Outermost(tree: BtTree, node: BtNode, back: bool, ghost c: Ctx, ghost t: Tree)
    returns (n: BtNode, ghost d: Ctx, ghost s: Tree)
    requires tree.View(c, t) && t.Node? && t.n == node
    ensures (d, s) == Foremost(c, t, back) && tree.View(d, s) && s.n == n
    decreases t
  {
    var next := if back then node.rh else node.lh;
    assert Linked(First(t, back), next, node);
    if next != null {
      tree.StepOut(HoleFirst(c, t, back), First(t, back));
      n, d, s := Outermost(tree, next, back, HoleFirst(c, t, back), First(t, back));
    } else {
      n, d, s := node, c, t;
    }
  }

  /** The nearest ancestor whose key lies beyond the given key. */
  method Climb(tree: BtTree, from: BtNode, key: int, back: bool, ghost c: Ctx, ghost t: Tree)
    returns (current: BtNode?, ghost frame: Ctx, ghost inner: Tree)
    requires tree.View(c, t) && t.Node? && t.n == from
    ensures frame == ClimbTo(c, key, back) && current == ParentOf(frame)
    ensures Fill(frame, inner) == Fill(c, t)
    ensures current != null ==> tree.View(frame.up, Plug(frame, inner))
  {
    frame, inner := c, t;
    current := from.parent;
    while current != null && (if back then current.key >= key else current.key <= key)
      invariant tree.View(frame, inner) && current == ParentOf(frame)
      invariant ClimbTo(frame, key, back) == ClimbTo(c, key, back) && Fill(frame, inner) == Fill(c, t)
      decreases frame
    {
      tree.StepOut(frame, inner);
      inner := Plug(frame, inner);
      frame := frame.up;
      current := current.parent;
    }
    if current != null {
      tree.StepOut(frame, inner);
    }
  }

  /** Where the walk goes from the root of t: to the very next node if the step fits; otherwise it
      passes over at least one node. */
  ghost predicate Advanced(c: Ctx, t: Tree, back: bool, r: BtNode?, d: Ctx, s: Tree)
    requires t.Node?
  {
    var rest := Remaining(c, t, back);
    && (r != null ==> s.Node? && s.n == r && Fill(d, s) == Fill(c, t))
    && if StepFits(t, NextKey(c, back), back) then
         if r == null then rest == []
         else rest == [r] + Remaining(d, s, back) && (NoSkipFrom(c, t, back) <==> NoSkipFrom(d, s, back))
       else
         rest != [] && (r != null ==> |Remaining(d, s, back)| + 1 < |rest|)
  }

  lemma SecondAdvances(c: Ctx, t: Tree, back: bool)
    requires t.Node? && Second(t, back).Node?
    ensures var (d, s) := Foremost(HoleSecond(c, t, back), Second(t, back), back);
      Advanced(c, t, back, s.n, d, s)
  {
    ForemostFills(HoleSecond(c, t, back), Second(t, back), back);
    ForemostWalks(HoleSecond(c, t, back), Second(t, back), back);
  }

  lemma ClimbEnds(c: Ctx, t: Tree, back: bool)
    requires t.Node? && Second(t, back).Nil? && InOrder(c, t.key, back) && ClimbTo(c, t.key, back).Top?
    ensures Advanced(c, t, back, null, c, t)
  {
    ClimbLands(c, t.key, back);
    ClimbOutlook(c, t.key, back);
    assert Remaining(c, t, back) == WalkAfter(c, back);
  }

  lemma ClimbAdvances(c: Ctx, t: Tree, back: bool, frame: Ctx, s: Tree)
    requires t.Node? && Second(t, back).Nil? && InOrder(c, t.key, back)
    requires frame == ClimbTo(c, t.key, back) && !frame.Top? && s.Node? && s.n == frame.n && s.key == frame.key
    requires Fill(frame.up, s) == Fill(c, t) && (IsAfter(frame, back) ==> Second(s, back) == frame.other)
    ensures Advanced(c, t, back, frame.n, frame.up, s)
  {
    ClimbLands(c, t.key, back);
    ClimbOutlook(c, t.key, back);
    FrameOutlook(frame, s, back);
    LastInside(c, t, back);
  }

  lemma FrameOutlook(frame: Ctx, s: Tree, back: bool)
    requires !frame.Top? && IsAfter(frame, back) && s.Node? && s.key == frame.key && Second(s, back) == frame.other
    ensures WalkAfter(frame, back) == [frame.n] + Remaining(frame.up, s, back)
    ensures NoSkipAfter(frame, back) <==> NoSkipFrom(frame.up, s, back)
  {
    assert [frame.n] + Walk(frame.other, back) + WalkAfter(frame.up, back)
        == [frame.n] + (Walk(frame.other, back) + WalkAfter(frame.up, back));
  }

  lemma LastInside(c: Ctx, t: Tree, back: bool)
    requires t.Node? && Second(t, back).Nil?
    ensures Remaining(c, t, back) == WalkAfter(c, back)
    ensures NoSkipFrom(c, t, back) <==> StepFits(t, NextKey(c, back), back) && NoSkipAfter(c, back)
  {}

  /** What can be read off a node's links. */
  lemma LinksOf(tree: BtTree, c: Ctx, t: Tree)
    requires tree.View(c, t) && t.Node?
    ensures t.n.parent == ParentOf(c) && t.n.lh == Ptr(t.l) && t.n.rh == Ptr(t.r) && t.n.key == t.key
  {
    assert Linked(t.l, t.n.lh, t.n) && Linked(t.r, t.n.rh, t.n);
  }

  /** No child on the far side: up to the next ancestor, if there is one. */
  method MoveUp(tr: Traversal, tree: BtTree, current: BtNode, ghost c: Ctx, ghost t: Tree)
    returns (r: BtNode?, ghost d: Ctx, ghost s: Tree)
    requires tree.View(c, t) && t.Node? && t.n == current && Sorted(Entries(Fill(c, t))) && Second(t, tr.backwards).Nil?
    modifies tr`index, tr`current
    ensures Advanced(c, t, tr.backwards, r, d, s) && (r != null ==> tree.View(d, s))
    ensures r != null ==> tr.current == r && tr.index == old(tr.index) + 1
  {
    hide Advanced, Remaining, Sorted, Entries, Walk, InOrder, BtTree.View;
    var back := tr.backwards;
    LinksOf(tree, c, t);
    PlaceInOrder(c, t, back);
    d, s := c, t;
    if current.parent != null {
      ghost var frame, inner;
      r, frame, inner := Climb(tree, current, current.key, back, c, t);
      assert r != null ==> allocated(CtxNodes(frame.up)) && allocated(Nodes(Plug(frame, inner)));
      tr.current := r;
      tr.index := tr.index + 1;
      if r != null {
        d, s := frame.up, Plug(frame, inner);
        ClimbAdvances(c, t, back, frame, s);
      } else {
        ClimbEnds(c, t, back);
      }
    } else {
      r := null;
      ClimbEnds(c, t, back);
    }
  }

  /** The part of Next that moves on from a current node. */
  method MoveOn(tr: Traversal, tree: BtTree, current: BtNode, ghost c: Ctx, ghost t: Tree)
    returns (r: BtNode?, ghost d: Ctx, ghost s: Tree)
    requires tree.View(c, t) && t.Node? && t.n == current && Sorted(Entries(Fill(c, t)))
    modifies tr`index, tr`current
    ensures Advanced(c, t, tr.backwards, r, d, s) && (r != null ==> tree.View(d, s))
    ensures r != null ==> tr.current == r && tr.index == old(tr.index) + 1
  {
    hide Advanced, Remaining, Sorted, Fill, Walk, BtTree.View;
    var back := tr.backwards;
    var next := if back then current.lh else current.rh;
    LinksOf(tree, c, t);
    if next != null {
      assert allocated(CtxNodes(c)) && allocated(Nodes(t));
      tr.index := tr.index + 1;
      SecondAdvances(c, t, back);
      assert Plug(HoleSecond(c, t, back), Second(t, back)) == t && HoleSecond(c, t, back).up == c;
      tree.StepOut(HoleSecond(c, t, back), Second(t, back));
      r, d, s := Outermost(tree, next, back, HoleSecond(c, t, back), Second(t, back));
      assert allocated(CtxNodes(d)) && allocated(Nodes(s));
      tr.current := r;
    } else {
      r, d, s := MoveUp(tr, tree, current, c, t);
    }
  }

  /** Moves a traversal on and returns the node reached; null ends it. */
  method Next(tr: Traversal, ghost c: Ctx, ghost t: Tree)
    returns (r: BtNode?, ghost d: Ctx, ghost s: Tree)
    requires tr.tree != null ==> tr.tree.Valid()
    requires tr.tree != null && tr.current != null ==>
      tr.tree.View(c, t) && t.Node? && t.n == tr.current && Fill(c, t) == tr.tree.shape
    modifies tr
    ensures r != null ==>
      && tr.tree == old(tr.tree) != null && tr.backwards == old(tr.backwards) && tr.current == r
      && tr.tree.View(d, s) && s.Node? && s.n == r && Fill(d, s) == tr.tree.shape
    // Not started: the first node, unless the tree is empty or counted as empty.
    ensures old(tr.tree) != null && old(tr.current) == null && old(tr.index) == 0 ==>
      && (r != null <==> old(tr.tree).root != null && old(tr.tree).count > 0)
      && (r != null ==> (d, s) == Foremost(Top, old(tr.tree).shape, old(tr.backwards)) && tr.index == 0)
    // Under way: on to the next node, as far as the count allows.
    ensures old(tr.tree) != null && old(tr.tree).root != null && old(tr.current) != null ==>
      if old(tr.index) >= old(tr.tree).count then r == null
      else Advanced(c, t, old(tr.backwards), r, d, s) && (r != null ==> tr.index == old(tr.index) + 1)
  {
    d, s := c, t;
    if tr.tree == null || tr.tree.root == null || tr.index >= tr.tree.count {
      tr.Reset();
      return null, d, s;
    }
    if tr.current == null {
      if tr.index != 0 {
        tr.Reset();
        return null, d, s;
      }
      ForemostFills(Top, tr.tree.shape, tr.backwards);
      r, d, s := Outermost(tr.tree, tr.tree.root, tr.backwards, Top, tr.tree.shape);
      tr.current := r;
    } else {
      r, d, s := MoveOn(tr, tr.tree, tr.current, c, t);
    }
  }

  // ---------- Counting ----------

  lemma {:induction false} WalkSize(t: Tree, back: bool)
    ensures |Walk(t, back)| == Size(t)
  {
    if t.Node? {
      WalkSize(t.l, back);
      WalkSize(t.r, back);
    }
  }

  lemma {:induction false} NothingAfter(c: Ctx, back: bool)
    requires WalkAfter(c, back) == []
    ensures NextKey(c, back) == End && NoSkipAfter(c, back)
  {
    if !c.Top? {
      NothingAfter(c.up, back);
    }
  }

  lemma NothingRemains(c: Ctx, t: Tree, back: bool)
    requires t.Node? && Remaining(c, t, back) == []
    ensures NoSkipFrom(c, t, back)
  {
    NothingAfter(c, back);
  }

  /** A whole traversal reaches every node: nothing is skipped, and the count lets the walk reach the end. */
  ghost predicate VisitsAll(t: Tree, back: bool, count: nat) {
    t.Nil? || (NoSkip(t, End, back) && count > 0 && Size(t) <= count + 1)
  }

  /** Having visited some nodes, the root of t last, what the rest of the walk can still bring. */
  ghost predicate OnCourse(shape: Tree, back: bool, visited: seq<BtNode>, c: Ctx, t: Tree)
    requires t.Node?
  {
    var rest := Remaining(c, t, back);
    if NoSkip(shape, End, back) then visited + rest == Walk(shape, back) && NoSkipFrom(c, t, back)
    else |visited| + |rest| < Size(shape) || (|visited| + |rest| == Size(shape) && !NoSkipFrom(c, t, back))
  }

  lemma OnCourseInitially(shape: Tree, back: bool)
    requires shape.Node?
    ensures var (d, s) := Foremost(Top, shape, back); OnCourse(shape, back, [s.n], d, s)
  {
    ForemostFills(Top, shape, back);
    ForemostWalks(Top, shape, back);
    WalkSize(shape, back);
    assert Walk(shape, back) + WalkAfter(Top, back) == Walk(shape, back);
  }

  lemma OnCourseStep(shape: Tree, back: bool, visited: seq<BtNode>, c: Ctx, t: Tree, r: BtNode, d: Ctx, s: Tree)
    requires t.Node? && OnCourse(shape, back, visited, c, t) && Advanced(c, t, back, r, d, s)
    ensures OnCourse(shape, back, visited + [r], d, s) && |Remaining(d, s, back)| < |Remaining(c, t, back)|
  {
    hide NoSkip, Remaining, Walk;
    assert visited + ([r] + Remaining(d, s, back)) == visited + [r] + Remaining(d, s, back);
  }

  lemma OnCourseEnds(shape: Tree, back: bool, visited: seq<BtNode>, c: Ctx, t: Tree)
    requires t.Node? && OnCourse(shape, back, visited, c, t)
    requires Remaining(c, t, back) == [] || !NoSkip(shape, End, back)
    ensures |visited| <= Size(shape) && (|visited| == Size(shape) <==> NoSkip(shape, End, back))
    ensures visited == Walk(shape, back) <==> NoSkip(shape, End, back)
  {
    WalkSize(shape, back);
    if Remaining(c, t, back) == [] {
      NothingRemains(c, t, back);
      assert visited + [] == visited;
    }
  }

  /** The walk has stopped; the nodes visited are those the condition says. */
  ghost predicate Finished(shape: Tree, back: bool, count: nat, visited: seq<BtNode>) {
    |visited| <= Size(shape) &&
    (|visited| == Size(shape) <==> VisitsAll(shape, back, count)) &&
    (visited == Walk(shape, back) <==> VisitsAll(shape, back, count))
  }

  lemma StopsAtEnd(shape: Tree, back: bool, count: nat, visited: seq<BtNode>, c: Ctx, t: Tree, d: Ctx, s: Tree)
    requires shape.Node? && t.Node? && OnCourse(shape, back, visited, c, t) && Advanced(c, t, back, null, d, s)
    requires 0 < |visited| <= count
    ensures Finished(shape, back, count, visited)
  {
    if Remaining(c, t, back) != [] {
      WalkSize(shape, back);
    }
    OnCourseEnds(shape, back, visited, c, t);
  }

  lemma StopsAtCount(shape: Tree, back: bool, count: nat, visited: seq<BtNode>, c: Ctx, t: Tree)
    requires shape.Node? && t.Node? && OnCourse(shape, back, visited, c, t)
    requires |visited| == count + 1 > 1
    ensures Finished(shape, back, count, visited)
  {
    WalkSize(shape, back);
    if Remaining(c, t, back) == [] || !NoSkip(shape, End, back) {
      OnCourseEnds(shape, back, visited, c, t);
    }
  }

  /** The state of a traversal of the tree that has visited some nodes and stands at node. */
  ghost predicate Underway(tree: BtTree, back: bool, tr: Traversal, node: BtNode, visited: seq<BtNode>, c: Ctx, t: Tree)
    reads tr, tree, Nodes(tree.shape)
  {
    tr.tree == tree && tr.backwards == back && tr.current == node &&
    |visited| == tr.index + 1 <= tree.count + 1 && tree.count > 0 &&
    tree.Valid() && Fill(c, t) == tree.shape && (FillNodes(c, t); tree.View(c, t)) && t.Node? && t.n == node &&
    OnCourse(tree.shape, back, visited, c, t)
  }

  /** One more step of a traversal. */
  method VisitNext(tree: BtTree, back: bool, tr: Traversal, at: BtNode, ghost visited: seq<BtNode>, ghost c: Ctx, ghost t: Tree)
    returns (node: BtNode?, ghost d: Ctx, ghost s: Tree)
    requires Underway(tree, back, tr, at, visited, c, t)
    modifies tr
    ensures node != null ==>
      Underway(tree, back, tr, node, visited + [node], d, s) && |Remaining(d, s, back)| < |Remaining(c, t, back)|
    ensures node == null ==> Finished(tree.shape, back, tree.count, visited)
  {
    hide OnCourse, Remaining, NoSkip, Advanced, Finished;
    assert allocated(Nodes(tree.shape));
    tree.RootIsOutermost(c, t);
    FillIsNode(c, t);
    node, d, s := Next(tr, c, t);
    if |visited| == tree.count + 1 {
      StopsAtCount(tree.shape, back, tree.count, visited, c, t);
    } else if node == null {
      StopsAtEnd(tree.shape, back, tree.count, visited, c, t, d, s);
    } else {
      OnCourseStep(tree.shape, back, visited, c, t, node, d, s);
    }
  }

  /** The first step of a traversal. */
  method VisitFirst(tree: BtTree, back: bool, tr: Traversal) returns (node: BtNode?, ghost d: Ctx, ghost s: Tree)
    requires tree.Valid() && tr.tree == tree && tr.backwards == back && tr.current == null && tr.index == 0
    modifies tr
    ensures node != null ==> Underway(tree, back, tr, node, [node], d, s)
    ensures node == null ==> Finished(tree.shape, back, tree.count, [])
  {
    hide OnCourse, NoSkip;
    assert allocated(Nodes(tree.shape));
    node, d, s := Next(tr, Top, tree.shape);
    if tree.shape.Node? {
      OnCourseInitially(tree.shape, back);
    }
  }

  /** The forward walk meets the keys in the order of the entries. */
  lemma {:induction false} WalkKeys(t: Tree, p: BtNode?, parent: BtNode?)
    requires Linked(t, p, parent)
    ensures |Walk(t, false)| == |Entries(t)|
    ensures forall i :: 0 <= i < |Entries(t)| ==> Walk(t, false)[i].key == Entries(t)[i].0
  {
    if t.Node? {
      WalkKeys(t.l, t.n.lh, t.n);
      WalkKeys(t.r, t.n.rh, t.n);
    }
  }

  /** The backward walk is the forward one from its end. */
  lemma {:induction false} WalkReversed(t: Tree)
    ensures |Walk(t, true)| == |Walk(t, false)|
    ensures forall i :: 0 <= i < |Walk(t, false)| ==> Walk(t, true)[i] == Walk(t, false)[|Walk(t, false)| - 1 - i]
  {
    if t.Node? {
      WalkReversed(t.l);
      WalkReversed(t.r);
    }
  }

  /** The nodes have the keys of the entries, in this order or in the opposite one. */
  ghost predicate Keyed(nodes: seq<BtNode>, es: seq<(int, int)>, back: bool)
    reads nodes
  {
    |nodes| == |es| && forall i :: 0 <= i < |es| ==> nodes[i].key == es[if back then |es| - 1 - i else i].0
  }

  lemma WalkIsKeyed(tree: BtTree, back: bool)
    requires tree.Valid()
    ensures Keyed(Walk(tree.shape, back), Entries(tree.shape), back)
  {
    WalkKeys(tree.shape, tree.root, null);
    WalkReversed(tree.shape);
  }

  /**
   * The nodes a fresh traversal returns, in either direction: all of them in order if and only if the
   * walk never skips and the recorded count does not stop it early.
   */
  method VisitAll(tree: BtTree, back: bool) returns (visited: seq<BtNode>)
    requires tree.Valid()
    ensures visited == Walk(tree.shape, back) <==> VisitsAll(tree.shape, back, tree.count)
    ensures VisitsAll(tree.shape, back, tree.count) ==> Keyed(visited, Entries(tree.shape), back)
  {
    hide OnCourse, NoSkip, VisitsAll, BtTree.Valid, Remaining, Keyed;
    assert allocated(Nodes(tree.shape));
    var tr := new Traversal(tree, back);
    visited := [];
    var node: BtNode?;
    ghost var c, t;
    node, c, t := VisitFirst(tree, back, tr);
    assert node != null ==> visited + [node] == [node];
    while node != null
      invariant fresh(tr) && tree.Valid()
      invariant node != null ==> Underway(tree, back, tr, node, visited + [node], c, t)
      invariant node == null ==> Finished(tree.shape, back, tree.count, visited)
      decreases if node == null then 0 else 1 + |Remaining(c, t, back)|
    {
      visited := visited + [node];
      node, c, t := VisitNext(tree, back, tr, node, visited, c, t);
    }
    WalkIsKeyed(tree, back);
  }

  /** With distinct keys and a right count, either direction visits every node once in order. */
  lemma DistinctVisitsAll(t: Tree, back: bool, count: nat)
    requires Sorted(Entries(t)) && DistinctKeys(Entries(t)) && count == Size(t)
    ensures VisitsAll(t, back, count)
  {
    NoSkipIsDistinct(t);
  }

  /** Recounts by walking forwards. */
  method Count(tree: BtTree) returns (count: nat)
    requires tree.Valid()
    ensures count <= Size(tree.shape)
    ensures count == Size(tree.shape) <==> VisitsAll(tree.shape, false, tree.count)
  {
    hide OnCourse, NoSkip, VisitsAll, BtTree.Valid, Remaining;
    assert allocated(Nodes(tree.shape));
    var tr := new Traversal(tree, false);
    count := 0;
    var node: BtNode?;
    ghost var c, t;
    ghost var visited: seq<BtNode> := [];
    node, c, t := VisitFirst(tree, false, tr);
    assert node != null ==> visited + [node] == [node];
    while node != null
      invariant fresh(tr) && tree.Valid() && count == |visited|
      invariant node != null ==> Underway(tree, false, tr, node, visited + [node], c, t)
      invariant node == null ==> Finished(tree.shape, false, tree.count, visited)
      decreases if node == null then 0 else 1 + |Remaining(c, t, false)|
    {
      visited := visited + [node];
      node, c, t := VisitNext(tree, false, tr, node, visited, c, t);
      count := count + 1;
    }
  }
}
