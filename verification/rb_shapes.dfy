/** Red-black balance of a tree shape, and of a context around a hole. */
module RbShapes {
  import opened Bits
  import opened BtShapes

  predicate IsRed(t: Tree) {
    t.Node? && t.red
  }

  /** No red node has a red child, and every path down to nil meets h black nodes. */
  ghost predicate RB(t: Tree, h: nat) {
    if t.Nil? then h == 0
    else if t.red then !IsRed(t.l) && !IsRed(t.r) && RB(t.l, h) && RB(t.r, h)
    else h > 0 && RB(t.l, h - 1) && RB(t.r, h - 1)
  }

  /** Putting a tree of black height h into the hole, with a red root only if holeRed, is balanced. */
  ghost predicate CtxRB(c: Ctx, h: nat, holeRed: bool) {
    c.Top? ||
    (&& RB(c.other, h)
     && (c.red ==> !holeRed && !IsRed(c.other))
     && CtxRB(c.up, if c.red then h else h + 1, c.red))
  }

  ghost function FullHeight(c: Ctx, h: nat): nat {
    if c.Top? then h else FullHeight(c.up, if c.red then h else h + 1)
  }

  lemma {:induction false} FillRB(c: Ctx, t: Tree, h: nat)
    requires RB(t, h) && CtxRB(c, h, IsRed(t))
    ensures RB(Fill(c, t), FullHeight(c, h))
  {
    if !c.Top? {
      FillRB(c.up, Plug(c, t), if c.red then h else h + 1);
    }
  }

  lemma {:induction false} UnfillRB(c: Ctx, t: Tree, full: nat) returns (h: nat)
    requires RB(Fill(c, t), full)
    ensures RB(t, h) && CtxRB(c, h, IsRed(t))
  {
    if c.Top? {
      h := full;
    } else {
      h := UnfillRB(c.up, Plug(c, t), full);
      h := if c.red then h else h - 1;
    }
  }

  /** A hole that tolerates a black root tolerates a red one unless the parent is red. */
  lemma CtxTolerates(c: Ctx, h: nat)
    requires CtxRB(c, h, false) && (c.Top? || !c.red)
    ensures CtxRB(c, h, true)
  {}

  // ---------- The height bound ----------

  ghost function Size(t: Tree): nat {
    if t.Nil? then 0 else Size(t.l) + 1 + Size(t.r)
  }

  ghost function Height(t: Tree): nat {
    if t.Nil? then 0 else 1 + if Height(t.l) >= Height(t.r) then Height(t.l) else Height(t.r)
  }

  lemma {:induction false} ManyNodes(t: Tree, h: nat)
    requires RB(t, h)
    ensures Size(t) + 1 >= Pow2(h)
    ensures Height(t) <= 2 * h + if IsRed(t) then 1 else 0
  {
    if t.Node? {
      ManyNodes(t.l, if t.red then h else h - 1);
      ManyNodes(t.r, if t.red then h else h - 1);
    }
  }

  /** Below a red root there is one black level more to count on. */
  lemma ManyNodesBelow(t: Tree, h: nat) returns (k: nat)
    requires RB(t, h)
    ensures Size(t) + 1 >= Pow2(k) && Height(t) <= 2 * k
  {
    k := h;
    ManyNodes(t, h);
    if IsRed(t) {
      ManyNodes(t.l, h);
      ManyNodes(t.r, h);
      k := h + 1;
    }
  }

  /** The height of a balanced tree is at most 2 * log2(size + 1). */
  lemma HeightBound(t: Tree, h: nat)
    requires RB(t, h)
    ensures Pow2(Height(t)) <= (Size(t) + 1) * (Size(t) + 1)
  {
    var k := ManyNodesBelow(t, h);
    Pow2Mono(Height(t), 2 * k);
    Pow2Add(k, k);
    MulGrows(Pow2(k), Size(t) + 1);
  }

  lemma MulGrows(a: nat, b: nat)
    requires a <= b
    ensures a * a <= b * b
  {
    assert b * b - a * a == (b - a) * (b + a);
  }
}
