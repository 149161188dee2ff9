/** Walking a tree in key order, forwards or backwards, by climbing on key comparisons. */
module BtWalks {
  import opened BtShapes

  ghost function First(t: Tree, back: bool): Tree
    requires t.Node?
  {
    if back then t.r else t.l
  }

  ghost function Second(t: Tree, back: bool): Tree
    requires t.Node?
  {
    if back then t.l else t.r
  }

  /** All nodes in the order of the walk. */
  ghost function Walk(t: Tree, back: bool): seq<BtNode> {
    if t.Nil? then [] else Walk(First(t, back), back) + [t.n] + Walk(Second(t, back), back)
  }

  /** Whether the frame's node comes after the hole. */
  predicate IsAfter(c: Ctx, back: bool) {
    if back then c.InRight? else c.InLeft?
  }

  ghost function WalkAfter(c: Ctx, back: bool): seq<BtNode> {
    if c.Top? then []
    else if IsAfter(c, back) then [c.n] + Walk(c.other, back) + WalkAfter(c.up, back)
    else WalkAfter(c.up, back)
  }

  ghost function HoleFirst(c: Ctx, t: Tree, back: bool): Ctx
    requires t.Node?
  {
    if back then InRight(t.n, t.red, t.key, t.data, t.l, c) else InLeft(t.n, t.red, t.key, t.data, t.r, c)
  }

  ghost function HoleSecond(c: Ctx, t: Tree, back: bool): Ctx
    requires t.Node?
  {
    HoleFirst(c, t, !back)
  }

  /** What is still to come once the root of t has been visited. */
  ghost function Remaining(c: Ctx, t: Tree, back: bool): seq<BtNode>
    requires t.Node?
  {
    Walk(Second(t, back), back) + WalkAfter(c, back)
  }

  predicate Beyond(key: int, other: int, back: bool) {
    if back then other < key else key < other
  }

  /** No frame's key lies on the wrong side of key. */
  ghost predicate InOrder(c: Ctx, key: int, back: bool) {
    c.Top? ||
    (&& (if IsAfter(c, back) then !Beyond(key, c.key, !back) else !Beyond(key, c.key, back))
     && InOrder(c.up, key, back))
  }

  /** The next frame to come, if any, has a different key. */
  ghost predicate NextDiffers(c: Ctx, key: int, back: bool) {
    if c.Top? then true
    else if IsAfter(c, back) then c.key != key
    else NextDiffers(c.up, key, back)
  }

  /** Where climbing until a key beyond the given one stops. */
  ghost function ClimbTo(c: Ctx, key: int, back: bool): Ctx {
    if c.Top? || Beyond(key, c.key, back) then c else ClimbTo(c.up, key, back)
  }

  /** Climbing by key comparison lands on the next node of the walk exactly if that node's key differs;
      otherwise it lands strictly further on, or nowhere although nodes remain. */
  lemma {:induction false} ClimbLands(c: Ctx, key: int, back: bool)
    requires InOrder(c, key, back)
    ensures var d := ClimbTo(c, key, back);
      && (!d.Top? ==> IsAfter(d, back))
      && (NextDiffers(c, key, back) ==> WalkAfter(d, back) == WalkAfter(c, back))
      && (!NextDiffers(c, key, back) ==> |WalkAfter(d, back)| < |WalkAfter(c, back)|)
  {
    if !c.Top? && !Beyond(key, c.key, back) {
      ClimbLands(c.up, key, back);
      if IsAfter(c, back) {
        ClimbNoFurther(c.up, key, back);
      }
    }
  }

  lemma {:induction false} ClimbNoFurther(c: Ctx, key: int, back: bool)
    ensures |WalkAfter(ClimbTo(c, key, back), back)| <= |WalkAfter(c, back)|
  {
    if !c.Top? && !Beyond(key, c.key, back) {
      ClimbNoFurther(c.up, key, back);
    }
  }

  // ---------- Trees on which the walk never skips ----------

  /** The key of the next node outside the hole, if there is one. */
  datatype Limit = End | At(key: int)

  ghost function NextKey(c: Ctx, back: bool): Limit {
    if c.Top? then End else if IsAfter(c, back) then At(c.key) else NextKey(c.up, back)
  }

  /** Visiting the root of t, the walk moves on to the very next node. */
  ghost predicate StepFits(t: Tree, next: Limit, back: bool)
    requires t.Node?
  {
    Second(t, back).Nil? ==> next != At(t.key)
  }

  /** Every node of t is followed by the very next one, when a node with the given key comes after t. */
  ghost predicate NoSkip(t: Tree, next: Limit, back: bool) {
    t.Node? ==>
      StepFits(t, next, back) && NoSkip(First(t, back), At(t.key), back) && NoSkip(Second(t, back), next, back)
  }

  /** The same for the frames' nodes still to come. */
  ghost predicate NoSkipAfter(c: Ctx, back: bool) {
    !c.Top? ==>
      && NoSkipAfter(c.up, back)
      && (IsAfter(c, back) ==>
          (c.other.Nil? ==> NextKey(c.up, back) != At(c.key)) && NoSkip(c.other, NextKey(c.up, back), back))
  }

  ghost predicate NoSkipFrom(c: Ctx, t: Tree, back: bool)
    requires t.Node?
  {
    StepFits(t, NextKey(c, back), back) && NoSkip(Second(t, back), NextKey(c, back), back) && NoSkipAfter(c, back)
  }

  /** Entering t from the front: its first node and where it hangs. */
  ghost function Foremost(c: Ctx, t: Tree, back: bool): (p: (Ctx, Tree))
    requires t.Node?
    ensures p.1.Node?
    decreases t
  {
    if First(t, back).Nil? then (c, t) else Foremost(HoleFirst(c, t, back), First(t, back), back)
  }

  lemma {:induction false} ForemostFills(c: Ctx, t: Tree, back: bool)
    requires t.Node?
    ensures var (d, s) := Foremost(c, t, back);
      && Fill(d, s) == Fill(c, t)
      && (NoSkipFrom(d, s, back) <==> NoSkip(t, NextKey(c, back), back) && NoSkipAfter(c, back))
    decreases t
  {
    if First(t, back).Node? {
      ForemostFills(HoleFirst(c, t, back), First(t, back), back);
      assert Plug(HoleFirst(c, t, back), First(t, back)) == t;
    }
  }

  lemma {:induction false} ForemostWalks(c: Ctx, t: Tree, back: bool)
    requires t.Node?
    ensures var (d, s) := Foremost(c, t, back);
      [s.n] + Remaining(d, s, back) == Walk(t, back) + WalkAfter(c, back)
    decreases t
  {
    var f, g := First(t, back), Second(t, back);
    if f.Node? {
      ForemostWalks(HoleFirst(c, t, back), f, back);
      Regroup(Walk(f, back), [t.n], Walk(g, back), WalkAfter(c, back));
    } else {
      assert Walk(t, back) == [t.n] + Walk(g, back);
      assert [t.n] + (Walk(g, back) + WalkAfter(c, back)) == [t.n] + Walk(g, back) + WalkAfter(c, back);
    }
  }

  lemma Regroup<X>(a: seq<X>, b: seq<X>, c: seq<X>, d: seq<X>)
    ensures a + (b + c + d) == a + b + c + d
  {}

  /** A climb that lands on the next node keeps the outlook; one that does not forfeits it. */
  lemma {:induction false} ClimbOutlook(c: Ctx, key: int, back: bool)
    requires InOrder(c, key, back)
    ensures NextDiffers(c, key, back) <==> NextKey(c, back) != At(key)
    ensures NextDiffers(c, key, back) ==> (NoSkipAfter(c, back) <==> NoSkipAfter(ClimbTo(c, key, back), back))
  {
    if !c.Top? && !IsAfter(c, back) {
      ClimbOutlook(c.up, key, back);
    }
  }

  // ---------- Strictness of left subtrees ----------

  /** Every key in a left subtree is strictly smaller than the key above it. */
  ghost predicate LeftStrict(t: Tree) {
    t.Node? ==>
      && (forall e :: e in Entries(t.l) ==> e.0 < t.key)
      && LeftStrict(t.l) && LeftStrict(t.r)
  }

  lemma {:induction false} LeftStrictInside(c: Ctx, t: Tree)
    requires LeftStrict(Fill(c, t))
    ensures LeftStrict(t)
  {
    if !c.Top? {
      LeftStrictInside(c.up, Plug(c, t));
    }
  }

  lemma KeptOrBelow(c: Ctx, t: Tree, u: Tree)
    requires !c.Top?
    requires forall e :: e in Entries(u) ==> e in Entries(t) || forall a :: a in After(c) ==> e.0 < a.0
    ensures forall e :: e in Entries(Plug(c, u)) ==> e in Entries(Plug(c, t)) || forall a :: a in After(c.up) ==> e.0 < a.0
  {
    if c.InLeft? {
      assert forall a :: a in After(c.up) ==> a in After(c);
    }
  }

  lemma PlugStrict(c: Ctx, t: Tree, u: Tree)
    requires !c.Top? && LeftStrict(Plug(c, t)) && LeftStrict(u)
    requires forall e :: e in Entries(u) ==> e in Entries(t) || forall a :: a in After(c) ==> e.0 < a.0
    ensures LeftStrict(Plug(c, u))
  {
    if c.InLeft? {
      assert (c.key, c.data) in After(c);
    }
  }

  /** The hole may be filled anew with entries it held before or entries below all that comes after it. */
  lemma {:induction false} LeftStrictRefill(c: Ctx, t: Tree, u: Tree)
    requires LeftStrict(Fill(c, t)) && LeftStrict(u)
    requires forall e :: e in Entries(u) ==> e in Entries(t) || forall a :: a in After(c) ==> e.0 < a.0
    ensures LeftStrict(Fill(c, u))
  {
    hide LeftStrict, Entries, After, Plug;
    if !c.Top? {
      LeftStrictInside(c.up, Plug(c, t));
      KeptOrBelow(c, t, u);
      PlugStrict(c, t, u);
      LeftStrictRefill(c.up, Plug(c, t), Plug(c, u));
    }
  }

  lemma PartsAt(l: seq<(int, int)>, e: (int, int), r: seq<(int, int)>)
    ensures (l + [e] + r)[|l|] == e
    ensures forall i :: 0 <= i < |l| ==> (l + [e] + r)[i] == l[i]
    ensures forall i :: 0 <= i < |r| ==> (l + [e] + r)[|l| + 1 + i] == r[i]
  {}

  lemma SortedSplits(l: seq<(int, int)>, e: (int, int), r: seq<(int, int)>)
    requires Sorted(l + [e] + r)
    ensures Sorted(l) && Sorted(r)
    ensures forall i :: 0 <= i < |l| ==> l[i].0 <= e.0
    ensures forall i :: 0 <= i < |r| ==> e.0 <= r[i].0
  {
    var s := l + [e] + r;
    PartsAt(l, e, r);
    forall i, j | 0 <= i < j < |r| ensures r[i].0 <= r[j].0 {
      assert s[|l| + 1 + i].0 <= s[|l| + 1 + j].0;
    }
    forall i | 0 <= i < |r| ensures e.0 <= r[i].0 {
      assert s[|l|].0 <= s[|l| + 1 + i].0;
    }
  }

  /** Sorted keys below e are all strictly below it if the last one is. */
  lemma LastDecides(l: seq<(int, int)>, e: (int, int))
    requires Sorted(l) && l != [] && forall i :: 0 <= i < |l| ==> l[i].0 <= e.0
    ensures (forall f :: f in l ==> f.0 < e.0) <==> l[|l| - 1].0 != e.0
  {
    assert l[|l| - 1] in l;
    forall f | f in l ensures f.0 <= l[|l| - 1].0 {
      var i :| 0 <= i < |l| && l[i] == f;
    }
  }

  /** Sorted keys above e are all strictly above it if the first one is. */
  lemma FirstDecides(r: seq<(int, int)>, e: (int, int))
    requires Sorted(r) && r != [] && forall i :: 0 <= i < |r| ==> e.0 <= r[i].0
    ensures (forall f :: f in r ==> e.0 < f.0) <==> r[0].0 != e.0
  {
    assert r[0] in r;
    forall f | f in r ensures r[0].0 <= f.0 {
      var i :| 0 <= i < |r| && r[i] == f;
    }
  }

  /** In a sorted tree, the forward walk never skips exactly when left subtrees are strictly smaller. */
  lemma {:induction false} NoSkipIsLeftStrict(t: Tree, next: Limit)
    requires Sorted(Entries(t))
    ensures NoSkip(t, next, false) <==>
      LeftStrict(t) && (t.Node? ==> next != At(Entries(t)[|Entries(t)| - 1].0))
    decreases t
  {
    hide Sorted;
    if t.Node? {
      SortedSplits(Entries(t.l), (t.key, t.data), Entries(t.r));
      if t.l.Node? {
        LastDecides(Entries(t.l), (t.key, t.data));
      }
      NoSkipIsLeftStrict(t.l, At(t.key));
      NoSkipIsLeftStrict(t.r, next);
    }
  }

  /** Every key in a right subtree is strictly greater than the key above it. */
  ghost predicate RightStrict(t: Tree) {
    t.Node? ==>
      && (forall e :: e in Entries(t.r) ==> t.key < e.0)
      && RightStrict(t.l) && RightStrict(t.r)
  }

  /** In a sorted tree, the backward walk never skips exactly when right subtrees are strictly greater. */
  lemma {:induction false} NoSkipIsRightStrict(t: Tree, next: Limit)
    requires Sorted(Entries(t))
    ensures NoSkip(t, next, true) <==> RightStrict(t) && (t.Node? ==> next != At(Entries(t)[0].0))
    decreases t
  {
    hide Sorted;
    if t.Node? {
      SortedSplits(Entries(t.l), (t.key, t.data), Entries(t.r));
      if t.r.Node? {
        FirstDecides(Entries(t.r), (t.key, t.data));
      }
      NoSkipIsRightStrict(t.r, At(t.key));
      NoSkipIsRightStrict(t.l, next);
    }
  }

  ghost predicate DistinctKeys(s: seq<(int, int)>) {
    forall i, j :: 0 <= i < j < |s| ==> s[i].0 < s[j].0
  }

  lemma DistinctSplits(l: seq<(int, int)>, e: (int, int), r: seq<(int, int)>)
    ensures DistinctKeys(l + [e] + r) <==>
      DistinctKeys(l) && DistinctKeys(r) && (forall f :: f in l ==> f.0 < e.0) && (forall f :: f in r ==> e.0 < f.0)
  {
    var s := l + [e] + r;
    PartsAt(l, e, r);
    if DistinctKeys(s) {
      DistinctHalves(l, e, r);
    }
  }

  lemma DistinctHalves(l: seq<(int, int)>, e: (int, int), r: seq<(int, int)>)
    requires DistinctKeys(l + [e] + r)
    ensures DistinctKeys(l) && DistinctKeys(r) && (forall f :: f in l ==> f.0 < e.0) && (forall f :: f in r ==> e.0 < f.0)
  {
    var s := l + [e] + r;
    PartsAt(l, e, r);
    forall i, j | 0 <= i < j < |r| ensures r[i].0 < r[j].0 {
      assert s[|l| + 1 + i].0 < s[|l| + 1 + j].0;
    }
    forall f | f in r ensures e.0 < f.0 {
      var i :| 0 <= i < |r| && r[i] == f;
      assert s[|l|].0 < s[|l| + 1 + i].0;
    }
    forall f | f in l ensures f.0 < e.0 {
      var i :| 0 <= i < |l| && l[i] == f;
      assert s[i].0 < s[|l|].0;
    }
  }

  /** Subtrees are strict on both sides exactly when no key occurs twice. */
  lemma {:induction false} StrictIsDistinct(t: Tree)
    ensures DistinctKeys(Entries(t)) <==> LeftStrict(t) && RightStrict(t)
  {
    hide DistinctKeys;
    if t.Node? {
      DistinctSplits(Entries(t.l), (t.key, t.data), Entries(t.r));
      StrictIsDistinct(t.l);
      StrictIsDistinct(t.r);
    } else {
      NoneDistinct();
    }
  }

  lemma NoneDistinct()
    ensures DistinctKeys([])
  {}

  /** In a sorted tree, neither walk skips a node exactly when the keys are distinct. */
  lemma NoSkipIsDistinct(t: Tree)
    requires Sorted(Entries(t))
    ensures NoSkip(t, End, false) && NoSkip(t, End, true) <==> DistinctKeys(Entries(t))
  {
    NoSkipIsLeftStrict(t, End);
    NoSkipIsRightStrict(t, End);
    StrictIsDistinct(t);
  }
}
