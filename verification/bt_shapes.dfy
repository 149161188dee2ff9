/** The shape of a binary tree of heap nodes, and one-hole contexts for working inside it. */
module BtShapes {

  class BtNode {
    var red: bool
    var lh: BtNode?
    var rh: BtNode?
    var parent: BtNode?
    var key: int
    var data: int

    /** A zeroed node; colour 0 is red. */
    constructor ()
      ensures red && lh == null && rh == null && parent == null
    {
      red, lh, rh, parent, key, data := true, null, null, null, 0, 0;
    }
  }

  datatype Tree = Nil | Node(n: BtNode, red: bool, key: int, data: int, l: Tree, r: Tree)

  ghost function Nodes(t: Tree): set<BtNode> {
    if t.Nil? then {} else {t.n} + Nodes(t.l) + Nodes(t.r)
  }

  ghost predicate Distinct(t: Tree) {
    t.Node? ==>
      && Distinct(t.l) && Distinct(t.r)
      && t.n !in Nodes(t.l) && t.n !in Nodes(t.r) && Nodes(t.l) !! Nodes(t.r)
  }

  ghost predicate Holds(t: Tree)
    requires t.Node?
    reads t.n
  {
    t.n.red == t.red && t.n.key == t.key && t.n.data == t.data
  }

  /** The heap below p, hanging under parent, looks exactly like t. */
  ghost predicate Linked(t: Tree, p: BtNode?, parent: BtNode?)
    reads Nodes(t)
  {
    if t.Nil? then p == null
    else
      && p == t.n && Holds(t) && t.n.parent == parent
      && Linked(t.l, t.n.lh, t.n) && Linked(t.r, t.n.rh, t.n)
  }

  /** The (key, data) pairs in order. */
  ghost function Entries(t: Tree): seq<(int, int)> {
    if t.Nil? then [] else Entries(t.l) + [(t.key, t.data)] + Entries(t.r)
  }

  ghost predicate Sorted(s: seq<(int, int)>) {
    forall i, j :: 0 <= i < j < |s| ==> s[i].0 <= s[j].0
  }

  // ---------- One-hole contexts ----------

  /** InLeft: the hole is the left child of n; the right child is there. */
  datatype Ctx = Top
    | InLeft(n: BtNode, red: bool, key: int, data: int, other: Tree, up: Ctx)
    | InRight(n: BtNode, red: bool, key: int, data: int, other: Tree, up: Ctx)

  /** The innermost frame around its contents. */
  ghost function Plug(c: Ctx, t: Tree): (p: Tree)
    requires !c.Top?
    ensures p.Node?
  {
    if c.InLeft? then Node(c.n, c.red, c.key, c.data, t, c.other) else Node(c.n, c.red, c.key, c.data, c.other, t)
  }

  ghost function Fill(c: Ctx, t: Tree): Tree {
    if c.Top? then t else Fill(c.up, Plug(c, t))
  }

  ghost function CtxNodes(c: Ctx): set<BtNode> {
    if c.Top? then {} else {c.n} + Nodes(c.other) + CtxNodes(c.up)
  }

  ghost predicate CtxDistinct(c: Ctx) {
    !c.Top? ==>
      && CtxDistinct(c.up) && Distinct(c.other)
      && c.n !in Nodes(c.other) && c.n !in CtxNodes(c.up) && Nodes(c.other) !! CtxNodes(c.up)
  }

  /** No object occurs twice in the tree t completes. */
  ghost predicate Apart(c: Ctx, t: Tree) {
    CtxDistinct(c) && Distinct(t) && CtxNodes(c) !! Nodes(t)
  }

  lemma ApartStep(c: Ctx, t: Tree)
    requires !c.Top?
    ensures Apart(c, t) <==> Apart(c.up, Plug(c, t))
  {
    assert Nodes(Plug(c, t)) == {c.n} + Nodes(t) + Nodes(c.other);
    assert CtxNodes(c) == {c.n} + Nodes(c.other) + CtxNodes(c.up);
  }

  ghost function ParentOf(c: Ctx): BtNode? {
    if c.Top? then null else c.n
  }

  ghost function Depth(c: Ctx): nat {
    if c.Top? then 0 else 1 + Depth(c.up)
  }

  ghost function Before(c: Ctx): seq<(int, int)> {
    match c
    case Top => []
    case InLeft(_, _, _, _, _, up) => Before(up)
    case InRight(_, _, key, data, l, up) => Before(up) + Entries(l) + [(key, data)]
  }

  ghost function After(c: Ctx): seq<(int, int)> {
    match c
    case Top => []
    case InLeft(_, _, key, data, r, up) => [(key, data)] + Entries(r) + After(up)
    case InRight(_, _, _, _, _, up) => After(up)
  }

  lemma {:induction false} FillEntries(c: Ctx, t: Tree)
    ensures Entries(Fill(c, t)) == Before(c) + Entries(t) + After(c)
  {
    if !c.Top? {
      FillEntries(c.up, Plug(c, t));
    }
  }

  lemma {:induction false} FillNodes(c: Ctx, t: Tree)
    ensures Nodes(Fill(c, t)) == CtxNodes(c) + Nodes(t)
  {
    if !c.Top? {
      FillNodes(c.up, Plug(c, t));
    }
  }
}
