/** The binary tree with parent pointers: rotations, and insertion with red-black balancing. */
module BtTrees {
  import opened BtShapes
  import BtWalks
  import opened RbShapes

  ghost function Ptr(t: Tree): BtNode? {
    if t.Nil? then null else t.n
  }

  /** x becomes the left child of its right child. */
  ghost function RotatedLeft(t: Tree): Tree
    requires t.Node? && t.r.Node?
  {
    Node(t.r.n, t.r.red, t.r.key, t.r.data, Node(t.n, t.red, t.key, t.data, t.l, t.r.l), t.r.r)
  }

  ghost function RotatedRight(t: Tree): Tree
    requires t.Node? && t.l.Node?
  {
    Node(t.l.n, t.l.red, t.l.key, t.l.data, t.l.l, Node(t.n, t.red, t.key, t.data, t.l.r, t.r))
  }

  lemma Regroup<X>(a: seq<X>, k: seq<X>, b: seq<X>, j: seq<X>, d: seq<X>)
    ensures a + k + (b + j + d) == (a + k + b) + j + d
  {}

  lemma RotationsKeepEntries(t: Tree)
    requires t.Node?
    ensures t.r.Node? ==> Entries(RotatedLeft(t)) == Entries(t)
    ensures t.l.Node? ==> Entries(RotatedRight(t)) == Entries(t)
  {
    var k := [(t.key, t.data)];
    if t.r.Node? {
      Regroup(Entries(t.l), k, Entries(t.r.l), [(t.r.key, t.r.data)], Entries(t.r.r));
    }
    if t.l.Node? {
      Regroup(Entries(t.l.l), [(t.l.key, t.l.data)], Entries(t.l.r), k, Entries(t.r));
    }
  }

  lemma RotationsKeepShape(c: Ctx, t: Tree)
    requires t.Node? && Apart(c, t)
    ensures t.r.Node? ==> Apart(c, RotatedLeft(t))
    ensures t.l.Node? ==> Apart(c, RotatedRight(t))
  {
    if t.r.Node? {
      assert Distinct(t.r);
      assert Nodes(t.r) == {t.r.n} + Nodes(t.r.l) + Nodes(t.r.r);
      var s := RotatedLeft(t);
      assert Distinct(s.l) && Nodes(s.l) == {t.n} + Nodes(t.l) + Nodes(t.r.l);
    }
    if t.l.Node? {
      assert Distinct(t.l);
      assert Nodes(t.l) == {t.l.n} + Nodes(t.l.l) + Nodes(t.l.r);
      var s := RotatedRight(t);
      assert Distinct(s.r) && Nodes(s.r) == {t.n} + Nodes(t.l.r) + Nodes(t.r);
    }
  }

  ghost function Recolored(t: Tree): Tree
    requires t.Node? && t.l.Node? && t.r.Node?
  {
    t.(red := true, l := t.l.(red := false), r := t.r.(red := false))
  }

  ghost function ChildPainted(t: Tree, n: BtNode, red: bool): (p: Tree)
    requires t.Node? && ((t.l.Node? && n == t.l.n) || (t.r.Node? && n == t.r.n))
    ensures p.Node?
  {
    if t.l.Node? && n == t.l.n then t.(l := t.l.(red := red)) else t.(r := t.r.(red := red))
  }

  // ---------- Balancing steps on shapes ----------

  /** The inserted node or one it recoloured: everything balanced, save that t may hang red under red. */
  ghost predicate Pending(c: Ctx, t: Tree, h: nat) {
    RB(t, h) && IsRed(t) && CtxRB(c, h, false)
  }

  lemma SameFill(c: Ctx, t: Tree, u: Tree)
    requires Entries(t) == Entries(u) && Nodes(t) == Nodes(u)
    ensures Entries(Fill(c, t)) == Entries(Fill(c, u)) && Nodes(Fill(c, t)) == Nodes(Fill(c, u))
  {
    FillEntries(c, t);
    FillEntries(c, u);
    FillNodes(c, t);
    FillNodes(c, u);
  }

  /** The grandparent's subtree. */
  ghost function Grand(c: Ctx, t: Tree): (g: Tree)
    requires !c.Top? && !c.up.Top?
    ensures g.Node?
  {
    Plug(c.up, Plug(c, t))
  }

  /** Red parent, red uncle. */
  lemma PendingRecolored(c: Ctx, t: Tree, h: nat)
    requires !c.Top? && c.red && !c.up.Top? && IsRed(c.up.other) && t.Node?
    ensures Pending(c, t, h) ==> Pending(c.up.up, Recolored(Grand(c, t)), h + 1)
    ensures Entries(Recolored(Grand(c, t))) == Entries(Grand(c, t)) && Nodes(Recolored(Grand(c, t))) == Nodes(Grand(c, t))
  {
    if Pending(c, t, h) {
      var u := c.up.other;
      assert CtxRB(c.up, h, true) && CtxRB(c.up.up, h + 1, false);
      var p := Plug(c, t);
      assert RB(u.(red := false), h + 1) && RB(p.(red := false), h + 1);
    }
  }

  /** Red parent, no red uncle, node on the inner side: the parent rotates below the node. */
  ghost function InnerCtx(c: Ctx, t: Tree): Ctx
    requires t.Node? && !c.Top?
  {
    if c.InRight? then InLeft(t.n, t.red, t.key, t.data, t.r, c.up) else InRight(t.n, t.red, t.key, t.data, t.l, c.up)
  }

  ghost function InnerTree(c: Ctx, t: Tree): Tree
    requires t.Node? && !c.Top?
  {
    if c.InRight? then Node(c.n, c.red, c.key, c.data, c.other, t.l) else Node(c.n, c.red, c.key, c.data, t.r, c.other)
  }

  lemma PendingInner(c: Ctx, t: Tree, h: nat)
    requires IsRed(t) && !c.Top? && c.red
    ensures IsRed(InnerTree(c, t)) && InnerCtx(c, t).red
    ensures Pending(c, t, h) ==> Pending(InnerCtx(c, t), InnerTree(c, t), h)
    ensures c.InRight? ==> Plug(InnerCtx(c, t), InnerTree(c, t)) == RotatedLeft(Plug(c, t))
    ensures c.InLeft? ==> Plug(InnerCtx(c, t), InnerTree(c, t)) == RotatedRight(Plug(c, t))
  {}

  /** Red parent, no red uncle, node on the outer side: the grandparent, turned red, rotates below the parent. */
  ghost function OuterCtx(c: Ctx): Ctx
    requires !c.Top? && !c.up.Top?
  {
    var g := c.up;
    if c.InLeft? then InLeft(c.n, false, c.key, c.data, Node(g.n, true, g.key, g.data, c.other, g.other), g.up)
    else InRight(c.n, false, c.key, c.data, Node(g.n, true, g.key, g.data, g.other, c.other), g.up)
  }

  /** The grandparent's subtree with the parent black and the grandparent red. */
  ghost function OuterPainted(c: Ctx, t: Tree): (g: Tree)
    requires !c.Top? && !c.up.Top?
    ensures g.Node? && (c.up.InLeft? ==> g.l.Node?)
    ensures c.up.InRight? && (c.up.other.Node? ==> c.up.other.n != c.n) ==> g.r.Node?
  {
    var g := ChildPainted(Grand(c, t), c.n, false);
    g.(red := true)
  }

  lemma PendingOuter(c: Ctx, t: Tree, h: nat)
    requires t.Node? && !c.Top? && c.red && !c.up.Top? && !IsRed(c.up.other)
    ensures !OuterCtx(c).red && (Pending(c, t, h) ==> Pending(OuterCtx(c), t, h))
    ensures c.InLeft? && c.up.InLeft? ==>
      Plug(OuterCtx(c), t) == RotatedRight(OuterPainted(c, t))
    ensures c.InRight? && c.up.InRight? && (c.up.other.Node? ==> c.up.other.n != c.n) ==>
      Plug(OuterCtx(c), t) == RotatedLeft(OuterPainted(c, t))
  {
    if Pending(c, t, h) {
      assert CtxRB(c.up, h, true) && CtxRB(c.up.up, h + 1, false);
    }
  }

  lemma InnerKeeps(c: Ctx, t: Tree)
    requires t.Node? && !c.Top?
    ensures Entries(Fill(InnerCtx(c, t), InnerTree(c, t))) == Entries(Fill(c, t))
    ensures Nodes(Fill(InnerCtx(c, t), InnerTree(c, t))) == Nodes(Fill(c, t))
    ensures CtxNodes(InnerCtx(c, t)) + Nodes(InnerTree(c, t)) == CtxNodes(c) + Nodes(t)
  {
    var p := Plug(c, t);
    var q := Plug(InnerCtx(c, t), InnerTree(c, t));
    RotationsKeepEntries(p);
    assert Entries(q) == Entries(p);
    assert Nodes(p) == {c.n} + Nodes(c.other) + ({t.n} + Nodes(t.l) + Nodes(t.r));
    assert Nodes(q) == {t.n} + Nodes(InnerTree(c, t)) + Nodes(if c.InRight? then t.r else t.l);
    SameFill(c.up, p, q);
  }

  lemma OuterKeeps(c: Ctx, t: Tree)
    requires !c.Top? && !c.up.Top? && ((c.InLeft? && c.up.InLeft?) || (c.InRight? && c.up.InRight?))
    ensures Entries(Fill(OuterCtx(c), t)) == Entries(Fill(c, t))
    ensures Nodes(Fill(OuterCtx(c), t)) == Nodes(Fill(c, t))
    ensures CtxNodes(OuterCtx(c)) == CtxNodes(c)
  {
    var p := Grand(c, t);
    var q := Plug(OuterCtx(c), t);
    RotationsKeepEntries(p);
    assert Entries(q) == Entries(p);
    assert Nodes(p) == {c.n} + Nodes(c.other) + Nodes(t) + {c.up.n} + Nodes(c.up.other);
    assert Nodes(q) == {c.n} + Nodes(t) + Nodes(OuterCtx(c).other);
    SameFill(c.up.up, p, q);
  }

  /** Painting the root black is always safe, and settles red under a red root. */
  lemma {:induction false} Settled(c: Ctx, t: Tree, h: nat) returns (full: nat)
    requires t.Node? && RB(t, h) && CtxRB(c, h, false) && (c.Top? || !c.red || c.up.Top?)
    ensures var s := Fill(c, t); s.Node? && RB(s.(red := false), full)
  {
    if !c.Top? && !c.red {
      CtxTolerates(c, h);
      assert CtxRB(c, h, IsRed(t));
      FillRB(c, t, h);
      full := FullHeight(c, h);
      FillIsNode(c, t);
    } else {
      full := h;
    }
    var s := Fill(c, t);
    if !c.Top? && c.red {
      assert s == Fill(c.up, Plug(c, t)) == Plug(c, t);
    }
    full := if s.red then full + 1 else full;
  }

  lemma {:induction false} FillIsNode(c: Ctx, t: Tree)
    requires t.Node?
    ensures Fill(c, t).Node? && (!c.Top? ==> Fill(c, t).n in CtxNodes(c))
  {
    if !c.Top? {
      FillIsNode(c.up, Plug(c, t));
    }
  }

  lemma RecoloredFill(c: Ctx, t: Tree, h: nat)
    requires !c.Top? && c.red && !c.up.Top? && IsRed(c.up.other) && t.Node?
    ensures Pending(c, t, h) ==> Pending(c.up.up, Recolored(Grand(c, t)), h + 1)
    ensures Entries(Fill(c.up.up, Recolored(Grand(c, t)))) == Entries(Fill(c, t))
    ensures Nodes(Fill(c.up.up, Recolored(Grand(c, t)))) == Nodes(Fill(c, t))
    ensures Depth(c.up.up) < Depth(c)
  {
    PendingRecolored(c, t, h);
    SameFill(c.up.up, Grand(c, t), Recolored(Grand(c, t)));
  }

  /** The objects a rotation touches lie outside the subtrees it carries along. */
  ghost predicate Loose(c: Ctx, x: BtNode, y: BtNode, a: Tree, b: Tree, d: Tree) {
    && x != y && x !in CtxNodes(c) && y !in CtxNodes(c)
    && x !in Nodes(a) && x !in Nodes(b) && x !in Nodes(d)
    && y !in Nodes(a) && y !in Nodes(b) && y !in Nodes(d)
    && (b.Node? ==>
        && b.n !in Nodes(a) && b.n !in Nodes(d) && b.n !in CtxNodes(c) && b.n != x && b.n != y
        && b.n !in Nodes(b.l) && b.n !in Nodes(b.r))
    && (!c.Top? ==>
        && c.n !in Nodes(a) && c.n !in Nodes(b) && c.n !in Nodes(d) && c.n != x && c.n != y
        && c.n !in CtxNodes(c.up) && c.n !in Nodes(c.other))
  }

  lemma LeftIsLoose(c: Ctx, t: Tree)
    requires t.Node? && t.r.Node? && Apart(c, t)
    ensures Loose(c, t.n, t.r.n, t.l, t.r.l, t.r.r)
    ensures t.r.n in Nodes(t) && (t.r.l.Node? ==> t.r.l.n in Nodes(t))
  {
    assert Distinct(t.r) && Nodes(t.r) == {t.r.n} + Nodes(t.r.l) + Nodes(t.r.r);
    assert Distinct(t.r.l);
  }

  lemma RightIsLoose(c: Ctx, t: Tree)
    requires t.Node? && t.l.Node? && Apart(c, t)
    ensures Loose(c, t.n, t.l.n, t.r, t.l.r, t.l.l)
    ensures t.l.n in Nodes(t) && (t.l.r.Node? ==> t.l.r.n in Nodes(t))
  {
    assert Distinct(t.l) && Nodes(t.l) == {t.l.n} + Nodes(t.l.l) + Nodes(t.l.r);
    assert Distinct(t.l.r);
  }

  // ---------- Order ----------

  ghost predicate AtMost(s: seq<(int, int)>, key: int) {
    forall e :: e in s ==> e.0 <= key
  }

  ghost predicate Above(s: seq<(int, int)>, key: int) {
    forall e :: e in s ==> key < e.0
  }

  /** now is was with (key, data) put in at its upper bound. */
  ghost predicate Placed(was: seq<(int, int)>, at: nat, key: int, data: int, now: seq<(int, int)>) {
    && at <= |was|
    && AtMost(was[..at], key) && Above(was[at..], key)
    && now == was[..at] + [(key, data)] + was[at..]
  }

  ghost predicate IsRB(t: Tree) {
    exists h :: RB(t, h)
  }

  ghost function Leaf(n: BtNode, key: int, data: int): Tree {
    Node(n, true, key, data, Nil, Nil)
  }

  lemma SortedSplit(x: seq<(int, int)>, e: (int, int), y: seq<(int, int)>)
    requires Sorted(x + [e] + y)
    ensures AtMost(x, e.0) && forall f :: f in y ==> e.0 <= f.0
  {
    var s := x + [e] + y;
    assert s[|x|] == e;
    forall f | f in x ensures f.0 <= e.0 {
      var i :| 0 <= i < |x| && x[i] == f;
      assert s[i] == f;
    }
    forall f | f in y ensures e.0 <= f.0 {
      var i :| 0 <= i < |y| && y[i] == f;
      assert s[|x| + 1 + i] == f;
    }
  }

  lemma Recenter<X>(b: seq<X>, l: seq<X>, k: seq<X>, r: seq<X>, a: seq<X>)
    ensures b + (l + k + r) + a == (b + l) + k + (r + a)
  {}

  /** Around the root of t: what precedes it is no greater, what follows no smaller. */
  lemma SortedAround(c: Ctx, t: Tree)
    requires t.Node? && Sorted(Entries(Fill(c, t)))
    ensures AtMost(Before(c), t.key) && AtMost(Entries(t.l), t.key)
    ensures forall e :: e in Entries(t.r) || e in After(c) ==> t.key <= e.0
  {
    FillEntries(c, t);
    var b, l, r, a := Before(c), Entries(t.l), Entries(t.r), After(c);
    Recenter(b, l, [(t.key, t.data)], r, a);
    SortedSplit(b + l, (t.key, t.data), r + a);
    assert forall e :: e in b || e in l ==> e in b + l;
    assert forall e :: e in r || e in a ==> e in r + a;
  }

  ghost function LeftHole(c: Ctx, t: Tree): Ctx
    requires t.Node?
  {
    InLeft(t.n, t.red, t.key, t.data, t.r, c)
  }

  ghost function RightHole(c: Ctx, t: Tree): Ctx
    requires t.Node?
  {
    InRight(t.n, t.red, t.key, t.data, t.l, c)
  }

  lemma Descend(c: Ctx, t: Tree, key: int)
    requires t.Node? && Sorted(Entries(Fill(c, t))) && AtMost(Before(c), key) && Above(After(c), key)
    ensures t.key > key ==> Above(After(LeftHole(c, t)), key)
    ensures t.key <= key ==> AtMost(Before(RightHole(c, t)), key)
  {
    SortedAround(c, t);
  }

  /** Filling the hole with a new leaf. */
  lemma Grown(c: Ctx, node: BtNode, key: int, data: int)
    requires Sorted(Entries(Fill(c, Nil))) && AtMost(Before(c), key) && Above(After(c), key)
    ensures var was, now := Entries(Fill(c, Nil)), Entries(Fill(c, Leaf(node, key, data)));
      && |Before(c)| <= |was| && was[..|Before(c)|] == Before(c) && was[|Before(c)|..] == After(c)
      && now == Before(c) + [(key, data)] + After(c) && Sorted(now)
  {
    FillEntries(c, Nil);
    FillEntries(c, Leaf(node, key, data));
    EmptyHole(Before(c), After(c));
    assert Entries(Leaf(node, key, data)) == [(key, data)];
    SortedInsert(Before(c), (key, data), After(c));
  }

  lemma GrownPlaced(c: Ctx, node: BtNode, key: int, data: int)
    requires Sorted(Entries(Fill(c, Nil))) && AtMost(Before(c), key) && Above(After(c), key)
    ensures Placed(Entries(Fill(c, Nil)), |Before(c)|, key, data, Entries(Fill(c, Leaf(node, key, data))))
  {
    Grown(c, node, key, data);
  }

  /** A red leaf in place of nil upsets a balanced tree at most by a red parent. */
  lemma LeafPending(c: Ctx, node: BtNode, key: int, data: int)
    requires IsRB(Fill(c, Nil))
    ensures Pending(c, Leaf(node, key, data), 0)
  {
    var full :| RB(Fill(c, Nil), full);
    var h := UnfillRB(c, Nil, full);
  }

  lemma EmptyHole<X>(b: seq<X>, a: seq<X>)
    ensures b + [] + a == b + a && (b + a)[..|b|] == b && (b + a)[|b|..] == a
  {}

  lemma SortedInsert(b: seq<(int, int)>, e: (int, int), a: seq<(int, int)>)
    requires Sorted(b + a) && AtMost(b, e.0) && Above(a, e.0)
    ensures Sorted(b + [e] + a)
  {
    var s, t := b + a, b + [e] + a;
    forall i, j | 0 <= i < j < |t| ensures t[i].0 <= t[j].0 {
      if i < |b| { assert t[i] == s[i] && t[i] in b; }
      if i > |b| { assert t[i] == s[i - 1] && t[i] in a; }
      if j < |b| { assert t[j] == s[j] && t[j] in b; }
      if j > |b| { assert t[j] == s[j - 1] && t[j] in a; }
    }
  }

  /** A new leaf goes after its equals, so an unbalanced tree stays strict. */
  lemma InsertKeepsStrict(c: Ctx, node: BtNode, key: int, data: int)
    requires BtWalks.LeftStrict(Fill(c, Nil)) && Above(After(c), key)
    ensures BtWalks.LeftStrict(Fill(c, Leaf(node, key, data)))
  {
    assert Entries(Leaf(node, key, data)) == [(key, data)];
    BtWalks.LeftStrictRefill(c, Nil, Leaf(node, key, data));
  }

  class BtTree {
    var root: BtNode?
    var count: nat
    const rb: bool
    ghost var shape: Tree

    /** The heap around the hole looks like c, and the hole holds the pointer p. */
    ghost predicate CtxLinked(c: Ctx, p: BtNode?)
      reads this`root, CtxNodes(c)
    {
      if c.Top? then root == p
      else
        && c.n.red == c.red && c.n.key == c.key && c.n.data == c.data
        && c.n.parent == ParentOf(c.up)
        && (if c.InLeft? then c.n.lh == p && Linked(c.other, c.n.rh, c.n)
            else c.n.rh == p && Linked(c.other, c.n.lh, c.n))
        && CtxLinked(c.up, c.n)
    }

    /** The whole tree, seen as t inside c, without sharing. */
    ghost predicate View(c: Ctx, t: Tree)
      reads this`root, CtxNodes(c), Nodes(t)
    {
      && CtxLinked(c, Ptr(t)) && Linked(t, Ptr(t), ParentOf(c))
      && Apart(c, t)
    }

    lemma StepOut(c: Ctx, t: Tree)
      requires !c.Top?
      ensures View(c, t) <==> View(c.up, Plug(c, t))
    {
      ApartStep(c, t);
      var p := Plug(c, t);
      assert Linked(p, c.n, ParentOf(c.up)) <==>
        && Holds(p) && c.n.parent == ParentOf(c.up)
        && Linked(p.l, c.n.lh, c.n) && Linked(p.r, c.n.rh, c.n);
      assert Linked(t, c.n.lh, c.n) ==> c.n.lh == Ptr(t);
      assert Linked(t, c.n.rh, c.n) ==> c.n.rh == Ptr(t);
    }

    lemma {:induction false} ZoomOut(c: Ctx, t: Tree)
      requires View(c, t)
      ensures View(Top, Fill(c, t))
      decreases c
    {
      if !c.Top? {
        StepOut(c, t);
        ZoomOut(c.up, Plug(c, t));
      }
    }

    lemma {:induction false} ZoomIn(c: Ctx, t: Tree)
      requires View(Top, Fill(c, t))
      ensures View(c, t)
      decreases c
    {
      if !c.Top? {
        ZoomIn(c.up, Plug(c, t));
        StepOut(c, t);
      }
    }

    // ---------- Rotations ----------

    twostate predicate SameValues(n: BtNode)
      reads n
    {
      n.red == old(n.red) && n.key == old(n.key) && n.data == old(n.data)
    }

    /** The link from parent p (or the root) down to x now leads to q. */
    twostate predicate Relinked(p: BtNode?, x: BtNode, q: BtNode?)
      reads this`root, p
    {
      if p == null then root == q
      else
        && root == old(root) && SameValues(p) && p.parent == old(p.parent)
        && if old(p.lh) == x then p.lh == q && p.rh == old(p.rh) else p.rh == q && p.lh == old(p.lh)
    }

    /** x's right child y takes x's place, and x takes y's left subtree. */
    method LeftRotate(x: BtNode)
      requires x.rh != null && x != x.rh && x != x.rh.lh && x.rh != x.rh.lh
      requires x.parent != null ==> x.parent != x && x.parent != x.rh && x.parent != x.rh.lh
      modifies this`root, x, x.rh, x.rh.lh, x.parent
      ensures SameValues(x) && x.lh == old(x.lh) && x.rh == old(x.rh.lh) && x.parent == old(x.rh)
      ensures var y := x.parent; SameValues(y) && y.lh == x && y.rh == old(x.rh.rh) && y.parent == old(x.parent)
      ensures var b := x.rh; b != null ==> SameValues(b) && b.lh == old(x.rh.lh.lh) && b.rh == old(x.rh.lh.rh) && b.parent == x
      ensures Relinked(old(x.parent), x, x.parent)
    {
      var y := x.rh;
      x.rh := y.lh;
      if y.lh != null {
        y.lh.parent := x;
      }
      y.parent := x.parent;
      if x.parent == null {
        root := y;
      } else if x == x.parent.lh {
        x.parent.lh := y;
      } else {
        x.parent.rh := y;
      }
      y.lh := x;
      x.parent := y;
    }

    /** x's left child y takes x's place, and x takes y's right subtree. */
    method RightRotate(x: BtNode)
      requires x.lh != null && x != x.lh && x != x.lh.rh && x.lh != x.lh.rh
      requires x.parent != null ==> x.parent != x && x.parent != x.lh && x.parent != x.lh.rh
      requires x.parent != null ==> (x.parent.rh == x <==> x.parent.lh != x)
      modifies this`root, x, x.lh, x.lh.rh, x.parent
      ensures SameValues(x) && x.rh == old(x.rh) && x.lh == old(x.lh.rh) && x.parent == old(x.lh)
      ensures var y := x.parent; SameValues(y) && y.rh == x && y.lh == old(x.lh.lh) && y.parent == old(x.parent)
      ensures var b := x.lh; b != null ==> SameValues(b) && b.lh == old(x.lh.rh.lh) && b.rh == old(x.lh.rh.rh) && b.parent == x
      ensures Relinked(old(x.parent), x, x.parent)
    {
      var y := x.lh;
      x.lh := y.rh;
      if y.rh != null {
        y.rh.parent := x;
      }
      y.parent := x.parent;
      if x.parent == null {
        root := y;
      } else if x == x.parent.rh {
        x.parent.rh := y;
      } else {
        x.parent.lh := y;
      }
      y.rh := x;
      x.parent := y;
    }

    method LeftRotateLinks(x: BtNode, ghost y: BtNode, ghost c: Ctx, ghost t: Tree)
      requires CtxLinked(c, x) && Linked(t, x, ParentOf(c)) && t.Node? && t.r.Node? && y == t.r.n
      requires Loose(c, x, y, t.l, t.r.l, t.r.r)
      modifies this`root, x, y, if t.r.l.Nil? then {} else {t.r.l.n}, if c.Top? then {} else {c.n}
      ensures CtxLinked(c, y) && Linked(RotatedLeft(t), y, ParentOf(c))
    {
      ghost var a, b, d := t.l, t.r.l, t.r.r;
      assert Linked(t.r, x.rh, x) && Linked(b, x.rh.lh, x.rh);
      assert allocated(Nodes(a)) && allocated(Nodes(b)) && allocated(Nodes(d));
      assert b.Node? ==> allocated(Nodes(b.l)) && allocated(Nodes(b.r));
      assert !c.Top? ==> allocated(CtxNodes(c.up)) && allocated(Nodes(c.other));
      LeftRotate(x);
      assert Linked(RotatedLeft(t).l, x, y);
    }

    /** A left rotation at x, seen from the whole tree. */
    method LeftRotateIn(x: BtNode, ghost c: Ctx, ghost t: Tree)
      requires View(c, t) && t.Node? && t.n == x && t.r.Node?
      modifies this`root, CtxNodes(c), Nodes(t)
      ensures View(c, RotatedLeft(t))
    {
      LeftIsLoose(c, t);
      LeftRotateLinks(x, t.r.n, c, t);
      RotationsKeepShape(c, t);
    }

    method RightRotateLinks(x: BtNode, ghost y: BtNode, ghost c: Ctx, ghost t: Tree)
      requires CtxLinked(c, x) && Linked(t, x, ParentOf(c)) && t.Node? && t.l.Node? && y == t.l.n
      requires Loose(c, x, y, t.r, t.l.r, t.l.l)
      modifies this`root, x, y, if t.l.r.Nil? then {} else {t.l.r.n}, if c.Top? then {} else {c.n}
      ensures CtxLinked(c, y) && Linked(RotatedRight(t), y, ParentOf(c))
    {
      ghost var a, b, d := t.r, t.l.r, t.l.l;
      assert Linked(t.l, x.lh, x) && Linked(b, x.lh.rh, x.lh);
      assert allocated(Nodes(a)) && allocated(Nodes(b)) && allocated(Nodes(d));
      assert b.Node? ==> allocated(Nodes(b.l)) && allocated(Nodes(b.r));
      assert !c.Top? ==> allocated(CtxNodes(c.up)) && allocated(Nodes(c.other));
      RightRotate(x);
      assert Linked(RotatedRight(t).r, x, y);
    }

    /** A right rotation at x, seen from the whole tree. */
    method RightRotateIn(x: BtNode, ghost c: Ctx, ghost t: Tree)
      requires View(c, t) && t.Node? && t.n == x && t.l.Node?
      modifies this`root, CtxNodes(c), Nodes(t)
      ensures View(c, RotatedRight(t))
    {
      RightIsLoose(c, t);
      RightRotateLinks(x, t.l.n, c, t);
      RotationsKeepShape(c, t);
    }

    // ---------- Balancing after an insertion ----------

    method Paint(n: BtNode, red: bool, ghost c: Ctx, ghost t: Tree)
      requires View(c, t) && t.Node? && t.n == n
      modifies n`red
      ensures View(c, t.(red := red))
    {
      assert allocated(CtxNodes(c)) && allocated(Nodes(t.l)) && allocated(Nodes(t.r));
      assert Nodes(t.(red := red)) == Nodes(t);
      n.red := red;
    }

    /** Paints the child n of t's root. */
    method PaintChild(n: BtNode, red: bool, ghost c: Ctx, ghost t: Tree)
      requires View(c, t) && t.Node? && ((t.l.Node? && n == t.l.n) || (t.r.Node? && n == t.r.n))
      modifies n`red
      ensures View(c, ChildPainted(t, n, red))
    {
      ghost var left := t.l.Node? && n == t.l.n;
      ghost var inner := if left then InLeft(t.n, t.red, t.key, t.data, t.r, c) else InRight(t.n, t.red, t.key, t.data, t.l, c);
      ghost var child := if left then t.l else t.r;
      StepOut(inner, child);
      Paint(n, red, inner, child);
      StepOut(inner, child.(red := red));
    }

    /** Parent and uncle turn black, the grandparent red. */
    method Recolor(parent: BtNode, unc: BtNode, g: BtNode, ghost c: Ctx, ghost t: Tree)
      requires View(c, t) && t.Node? && t.n == g && t.l.Node? && t.r.Node?
      requires (parent == t.l.n && unc == t.r.n) || (parent == t.r.n && unc == t.l.n)
      modifies parent`red, unc`red, g`red
      ensures View(c, Recolored(t))
    {
      PaintChild(parent, false, c, t);
      PaintChild(unc, false, c, ChildPainted(t, parent, false));
      Paint(g, true, c, ChildPainted(ChildPainted(t, parent, false), unc, false));
      assert t.l.n != t.r.n by { assert t.l.n in Nodes(t.l) && t.r.n in Nodes(t.r); }
    }

    /** The red parent and the red uncle turn black; the grandparent becomes the new trouble spot. */
    method FixByRecolor(node: BtNode, unc: BtNode, ghost c: Ctx, ghost t: Tree, ghost h: nat) returns (next: BtNode)
      requires View(c, t) && IsRed(t) && t.n == node
      requires !c.Top? && c.red && !c.up.Top? && IsRed(c.up.other) && unc == c.up.other.n
      modifies this`root, CtxNodes(c), Nodes(t)
      ensures View(c.up.up, Recolored(Grand(c, t))) && next == Recolored(Grand(c, t)).n
    {
      StepOut(c, t);
      StepOut(c.up, Plug(c, t));
      Recolor(node.parent, unc, node.parent.parent, c.up.up, Grand(c, t));
      next := node.parent.parent;
    }

    /** Which child the node is can be read off the parent's links. */
    lemma InnerSide(c: Ctx, t: Tree)
      requires View(c, t) && t.Node? && !c.Top?
      requires (c.up.InLeft? && c.n.rh == t.n) || (c.up.InRight? && c.n.lh == t.n)
      ensures c.up.InLeft? ==> c.InRight?
      ensures c.up.InRight? ==> c.InLeft?
    {
      assert t.n in Nodes(t) && (c.other.Node? ==> c.other.n in Nodes(c.other));
    }

    lemma OuterSide(c: Ctx, t: Tree)
      requires View(c, t) && t.Node? && !c.Top?
      ensures c.n.rh != t.n ==> c.InLeft?
      ensures c.n.lh != t.n ==> c.InRight?
    {}

    lemma UncleApart(c: Ctx, t: Tree)
      requires View(c, t) && !c.Top? && !c.up.Top?
      ensures c.up.other.Node? ==> c.up.other.n != c.n
    {
      assert c.up.other.Node? ==> c.up.other.n in Nodes(c.up.other);
      assert c.n !in CtxNodes(c.up) && CtxNodes(c.up) == {c.up.n} + Nodes(c.up.other) + CtxNodes(c.up.up);
    }

    /** No red uncle, parent a left child: at most two rotations settle it. */
    method FixByRotationLeft(node: BtNode, ghost c: Ctx, ghost t: Tree, ghost h: nat)
      returns (next: BtNode, ghost c': Ctx, ghost t': Tree)
      requires View(c, t) && IsRed(t) && t.n == node
      requires !c.Top? && c.red && c.up.InLeft? && !IsRed(c.up.other)
      modifies this`root, CtxNodes(c), Nodes(t)
      ensures View(c', t') && IsRed(t') && (Pending(c, t, h) ==> Pending(c', t', h)) && t'.n == next && !c'.Top? && !c'.red && c'.up == c.up.up
      ensures Entries(Fill(c', t')) == Entries(Fill(c, t)) && Nodes(Fill(c', t')) == Nodes(Fill(c, t))
    {
      next, c', t' := node, c, t;
      if node == node.parent.rh {
        InnerSide(c, t);
        next := node.parent;
        c', t' := InnerCtx(c, t), InnerTree(c, t);
        StepOut(c, t);
        PendingInner(c, t, h);
        InnerKeeps(c, t);
        LeftRotateIn(next, c.up, Plug(c, t));
        StepOut(c', t');
      } else {
        OuterSide(c, t);
      }
      c' := FixOuterLeft(next, c', t', h);
    }

    method FixOuterLeft(node: BtNode, ghost c: Ctx, ghost t: Tree, ghost h: nat) returns (ghost c': Ctx)
      requires View(c, t) && IsRed(t) && t.n == node
      requires c.InLeft? && c.red && c.up.InLeft? && !IsRed(c.up.other)
      modifies this`root, CtxNodes(c), Nodes(t)
      ensures View(c', t) && (Pending(c, t, h) ==> Pending(c', t, h)) && !c'.Top? && !c'.red && c'.up == c.up.up
      ensures Entries(Fill(c', t)) == Entries(Fill(c, t)) && Nodes(Fill(c', t)) == Nodes(Fill(c, t))
    {
      c' := OuterCtx(c);
      UncleApart(c, t);
      PendingOuter(c, t, h);
      OuterKeeps(c, t);
      StepOut(c, t);
      StepOut(c.up, Plug(c, t));
      var parent := node.parent;
      var g := parent.parent;
      PaintChild(parent, false, c.up.up, Grand(c, t));
      Paint(g, true, c.up.up, ChildPainted(Grand(c, t), parent, false));
      RightRotateIn(g, c.up.up, OuterPainted(c, t));
      StepOut(c', t);
    }

    /** No red uncle, parent a right child: at most two rotations settle it. */
    method FixByRotationRight(node: BtNode, ghost c: Ctx, ghost t: Tree, ghost h: nat)
      returns (next: BtNode, ghost c': Ctx, ghost t': Tree)
      requires View(c, t) && IsRed(t) && t.n == node
      requires !c.Top? && c.red && c.up.InRight? && !IsRed(c.up.other)
      modifies this`root, CtxNodes(c), Nodes(t)
      ensures View(c', t') && IsRed(t') && (Pending(c, t, h) ==> Pending(c', t', h)) && t'.n == next && !c'.Top? && !c'.red && c'.up == c.up.up
      ensures Entries(Fill(c', t')) == Entries(Fill(c, t)) && Nodes(Fill(c', t')) == Nodes(Fill(c, t))
    {
      next, c', t' := node, c, t;
      if node == node.parent.lh {
        InnerSide(c, t);
        next := node.parent;
        c', t' := InnerCtx(c, t), InnerTree(c, t);
        StepOut(c, t);
        PendingInner(c, t, h);
        InnerKeeps(c, t);
        RightRotateIn(next, c.up, Plug(c, t));
        StepOut(c', t');
      } else {
        OuterSide(c, t);
      }
      c' := FixOuterRight(next, c', t', h);
    }

    method FixOuterRight(node: BtNode, ghost c: Ctx, ghost t: Tree, ghost h: nat) returns (ghost c': Ctx)
      requires View(c, t) && IsRed(t) && t.n == node
      requires c.InRight? && c.red && c.up.InRight? && !IsRed(c.up.other)
      modifies this`root, CtxNodes(c), Nodes(t)
      ensures View(c', t) && (Pending(c, t, h) ==> Pending(c', t, h)) && !c'.Top? && !c'.red && c'.up == c.up.up
      ensures Entries(Fill(c', t)) == Entries(Fill(c, t)) && Nodes(Fill(c', t)) == Nodes(Fill(c, t))
    {
      c' := OuterCtx(c);
      UncleApart(c, t);
      PendingOuter(c, t, h);
      OuterKeeps(c, t);
      StepOut(c, t);
      StepOut(c.up, Plug(c, t));
      var parent := node.parent;
      var g := parent.parent;
      PaintChild(parent, false, c.up.up, Grand(c, t));
      Paint(g, true, c.up.up, ChildPainted(Grand(c, t), parent, false));
      LeftRotateIn(g, c.up.up, OuterPainted(c, t));
      StepOut(c', t);
    }

    lemma RootIsOutermost(c: Ctx, t: Tree)
      requires View(c, t) && t.Node?
      ensures root == t.n <==> c.Top?
    {
      ZoomOut(c, t);
      FillIsNode(c, t);
    }

    /** What can be read off the links around a node with a parent and a grandparent. */
    lemma Around(c: Ctx, t: Tree)
      requires View(c, t) && t.Node? && !c.Top?
      ensures t.n.parent == c.n && c.n.red == c.red && c.n.parent == ParentOf(c.up)
      ensures c.up.InLeft? ==> c.up.n.lh == c.n && c.up.n.rh == Ptr(c.up.other)
      ensures c.up.InRight? ==> c.up.n.rh == c.n && c.up.n.lh == Ptr(c.up.other) != c.n
      ensures !c.up.Top? && c.up.other.Node? ==> c.up.other.n.red == c.up.other.red
    {
      if !c.up.Top? {
        UncleApart(c, t);
        assert CtxLinked(c.up, c.n);
        assert Linked(c.up.other, if c.up.InLeft? then c.up.n.rh else c.up.n.lh, c.up.n);
      }
    }

    /** One round of the balancing loop below a grandparent. */
    method FixOnce(node: BtNode, ghost c: Ctx, ghost t: Tree, ghost h: nat)
      returns (next: BtNode, ghost c': Ctx, ghost t': Tree, ghost h': nat)
      requires View(c, t) && IsRed(t) && t.n == node && !c.Top? && c.red && !c.up.Top?
      modifies this`root, CtxNodes(c), Nodes(t)
      ensures View(c', t') && IsRed(t') && (Pending(c, t, h) ==> Pending(c', t', h')) && t'.n == next && Depth(c') < Depth(c)
      ensures Entries(Fill(c', t')) == Entries(Fill(c, t)) && Nodes(Fill(c', t')) == Nodes(Fill(c, t))
    {
      Around(c, t);
      c', t', h' := c, t, h;
      if node.parent == node.parent.parent.lh {
        var unc := node.parent.parent.rh;
        if unc != null && unc.red {
          RecoloredFill(c, t, h);
          next := FixByRecolor(node, unc, c, t, h);
          c', t', h' := c.up.up, Recolored(Grand(c, t)), h + 1;
        } else {
          next, c', t' := FixByRotationLeft(node, c, t, h);
        }
      } else {
        var unc := node.parent.parent.lh;
        if unc != null && unc.red {
          RecoloredFill(c, t, h);
          next := FixByRecolor(node, unc, c, t, h);
          c', t', h' := c.up.up, Recolored(Grand(c, t)), h + 1;
        } else {
          next, c', t' := FixByRotationRight(node, c, t, h);
        }
      }
    }

    /** Where the loop may stop: painting the root black finishes the job. */
    method PaintRoot(ghost c: Ctx, ghost t: Tree, ghost h: nat) returns (ghost s: Tree, ghost full: nat)
      requires View(c, t) && t.Node? && (c.Top? || !c.red || c.up.Top?)
      modifies CtxNodes(c), Nodes(t)
      ensures View(Top, s) && s.Node? && !s.red && (RB(t, h) && CtxRB(c, h, false) ==> RB(s, full))
      ensures Entries(s) == Entries(Fill(c, t)) && Nodes(s) == Nodes(Fill(c, t))
    {
      full := 0;
      if RB(t, h) && CtxRB(c, h, false) {
        full := Settled(c, t, h);
      }
      FillIsNode(c, t);
      ZoomOut(c, t);
      FillNodes(c, t);
      s := Fill(c, t);
      if root != null {
        Paint(root, false, Top, s);
      }
      s := s.(red := false);
    }

    /** Restores the red-black rules if a red node that hangs under a red parent is all that breaks them. */
    method Balance(start: BtNode, ghost c0: Ctx, ghost t0: Tree, ghost h0: nat)
      returns (ghost s: Tree, ghost full: nat)
      requires View(c0, t0) && IsRed(t0) && t0.n == start
      modifies this`root, CtxNodes(c0), Nodes(t0)
      ensures View(Top, s) && s.Node? && !s.red && (Pending(c0, t0, h0) ==> RB(s, full))
      ensures Entries(s) == Entries(Fill(c0, t0)) && Nodes(s) == Nodes(Fill(c0, t0))
    {
      var node := start;
      ghost var c, t, h := c0, t0, h0;
      FillNodes(c, t);
      if node.parent == null {
        Paint(node, false, c, t);
        t, h := t.(red := false), h + 1;
      }
      while node != root && node.parent.red
        invariant View(c, t) && t.Node? && t.n == node && (!c.Top? ==> t.red)
        invariant Pending(c0, t0, h0) ==> if c.Top? then RB(t, h) else Pending(c, t, h)
        invariant Entries(Fill(c, t)) == Entries(Fill(c0, t0)) && Nodes(Fill(c, t)) == Nodes(Fill(c0, t0))
        decreases Depth(c)
      {
        RootIsOutermost(c, t);
        Around(c, t);
        if node.parent.parent == null {
          break;
        }
        FillNodes(c, t);
        node, c, t, h := FixOnce(node, c, t, h);
      }
      RootIsOutermost(c, t);
      if !c.Top? {
        Around(c, t);
      }
      FillNodes(c, t);
      s, full := PaintRoot(c, t, h);
    }

    // ---------- Insertion ----------

    ghost predicate Valid()
      reads this`root, this`shape, Nodes(shape)
    {
      View(Top, shape) && Sorted(Entries(shape))
    }

    constructor (balanced: bool)
      ensures Valid() && shape == Nil && IsRB(shape) && count == 0 && rb == balanced
    {
      root := null;
      count := 0;
      rb := balanced;
      shape := Nil;
      new;
      assert RB(shape, 0);
    }

    /** Walks down to the empty place where key belongs: after everything no greater. */
    method FindPlace(key: int) returns (parent: BtNode?, ghost c: Ctx)
      requires Valid() && root != null
      ensures View(c, Nil) && Fill(c, Nil) == shape && !c.Top? && parent == c.n
      ensures AtMost(Before(c), key) && Above(After(c), key) && (c.InLeft? <==> c.key > key)
    {
      parent := null;
      var current := root;
      c := Top;
      ghost var t := shape;
      while current != null
        invariant View(c, t) && Ptr(t) == current && Fill(c, t) == shape && parent == ParentOf(c)
        invariant AtMost(Before(c), key) && Above(After(c), key)
        invariant c.Top? ==> t.Node?
        invariant !c.Top? ==> (c.InLeft? <==> c.key > key)
        decreases t
      {
        Descend(c, t, key);
        parent := current;
        if current.key > key {
          StepOut(LeftHole(c, t), t.l);
          current := current.lh;
          c, t := LeftHole(c, t), t.l;
        } else {
          StepOut(RightHole(c, t), t.r);
          current := current.rh;
          c, t := RightHole(c, t), t.r;
        }
      }
    }

    method Attach(node: BtNode, parent: BtNode, key: int, ghost c: Ctx)
      requires View(c, Nil) && !c.Top? && parent == c.n && (c.InLeft? <==> c.key > key)
      requires node !in CtxNodes(c) && node.parent == parent && Linked(Leaf(node, key, node.data), node, parent)
      modifies parent`lh, parent`rh
      ensures View(c, Leaf(node, key, node.data))
    {
      assert allocated(CtxNodes(c.up)) && allocated(Nodes(c.other));
      if parent.key > key {
        parent.lh := node;
      } else {
        parent.rh := node;
      }
    }

    /** Insertion into a tree that is not empty. */
    method InsertBelow(node: BtNode, key: int, data: int) returns (ghost at: nat)
      requires Valid() && root != null
      requires node !in Nodes(shape) && Holds(Leaf(node, key, data)) && node.lh == null && node.rh == null
      modifies this`root, this`shape, node, Nodes(shape)
      ensures Valid() && Placed(old(Entries(shape)), at, key, data, Entries(shape))
      ensures Nodes(shape) == old(Nodes(shape)) + {node}
      ensures rb ==> !IsRed(shape) && (old(IsRB(shape)) ==> IsRB(shape))
      ensures !rb && old(BtWalks.LeftStrict(shape)) ==> BtWalks.LeftStrict(shape)
    {
      hide View, Fill, Entries, Sorted, IsRB, Pending, Placed, BtWalks.LeftStrict;
      ghost var leaf := Leaf(node, key, data);
      ghost var c := Hang(node, key, data);
      at := |Before(c)|;
      Grown(c, node, key, data);
      GrownPlaced(c, node, key, data);
      FillNodes(c, Nil);
      FillNodes(c, leaf);
      ZoomOut(c, leaf);
      if rb {
        if IsRB(shape) {
          LeafPending(c, node, key, data);
        }
        ghost var s := BalanceAll(node, c, leaf);
        Becomes(s);
      } else {
        if BtWalks.LeftStrict(shape) {
          InsertKeepsStrict(c, node, key, data);
        }
        Becomes(Fill(c, leaf));
      }
    }

    /** Records the shape the links have. */
    ghost method Becomes(s: Tree)
      requires View(Top, s)
      modifies this`shape
      ensures View(Top, s) && shape == s
    {
      assert allocated(Nodes(s));
      shape := s;
    }

    method BalanceAll(node: BtNode, ghost c: Ctx, ghost t: Tree) returns (ghost s: Tree)
      requires View(c, t) && IsRed(t) && t.n == node
      modifies this`root, CtxNodes(c), Nodes(t)
      ensures View(Top, s) && !IsRed(s) && (Pending(c, t, 0) ==> IsRB(s))
      ensures Entries(s) == Entries(Fill(c, t)) && Nodes(s) == Nodes(Fill(c, t))
    {
      hide View, Fill, Entries, Pending;
      ghost var full;
      s, full := Balance(node, c, t, 0);
    }

    /** A new leaf comes where a search for its key ends. */
    method Hang(node: BtNode, key: int, data: int) returns (ghost c: Ctx)
      requires Valid() && root != null
      requires node !in Nodes(shape) && Holds(Leaf(node, key, data)) && node.lh == null && node.rh == null
      modifies node, Nodes(shape)
      ensures View(c, Leaf(node, key, data)) && Fill(c, Nil) == shape
      ensures AtMost(Before(c), key) && Above(After(c), key)
    {
      hide Fill, Sorted, Before, After;
      var parent;
      parent, c := FindPlace(key);
      FillNodes(c, Nil);
      assert allocated(CtxNodes(c));
      node.parent := parent;
      Attach(node, parent, key, c);
    }

    method Insert(key: int, data: int) returns (node: BtNode, ghost at: nat)
      requires Valid()
      modifies this, Nodes(shape)
      ensures Valid() && count == old(count) + 1
      ensures Placed(old(Entries(shape)), at, key, data, Entries(shape))
      ensures fresh(node) && Nodes(shape) == old(Nodes(shape)) + {node}
      ensures rb && old(IsRB(shape)) ==> IsRB(shape)
      ensures rb && old(shape).Node? ==> !IsRed(shape)
      ensures !rb && old(BtWalks.LeftStrict(shape)) ==> BtWalks.LeftStrict(shape)
    {
      assert allocated(Nodes(shape));
      node := new BtNode();
      node.data := data;
      node.key := key;
      count := count + 1;
      if root == null {
        root := node;
        at := 0;
        shape := Leaf(node, key, data);
        assert RB(shape, 0);
      } else {
        at := InsertBelow(node, key, data);
      }
    }
  }
}
