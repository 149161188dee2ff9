/** Binary trees with weighted leaves, their weighted path length, and the exchange
    argument behind Huffman's greedy construction. */
module WeightTrees {

  datatype Tree = Leaf(sym: nat, w: nat) | Node(l: Tree, r: Tree)

  function Weight(t: Tree): nat {
    match t
    case Leaf(_, w) => w
    case Node(l, r) => Weight(l) + Weight(r)
  }

  function LeafWeights(t: Tree): multiset<nat> {
    match t
    case Leaf(_, w) => multiset{w}
    case Node(l, r) => LeafWeights(l) + LeafWeights(r)
  }

  /** The leaves from left to right, as (symbol, weight) pairs. */
  function Leaves(t: Tree): seq<(nat, nat)> {
    match t
    case Leaf(s, w) => [(s, w)]
    case Node(l, r) => Leaves(l) + Leaves(r)
  }

  /** Sum over all leaves of weight times depth, for a tree hanging at depth d. */
  function PathLength(t: Tree, d: nat): nat {
    match t
    case Leaf(_, w) => w * d
    case Node(l, r) => PathLength(l, d + 1) + PathLength(r, d + 1)
  }

  /** Sum of the weights of all inner nodes. */
  function Cost(t: Tree): nat {
    match t
    case Leaf(_, _) => 0
    case Node(l, r) => Cost(l) + Cost(r) + Weight(t)
  }

  /** k added up n times: the product k * n, kept away from nonlinear arithmetic. */
  function Times(k: int, n: nat): int {
    if n == 0 then 0 else Times(k, n - 1) + k
  }

  lemma {:induction false} TimesAdds(j: int, k: int, n: nat)
    ensures Times(j, n) + Times(k, n) == Times(j + k, n)
  {
    if n > 0 {
      TimesAdds(j, k, n - 1);
    }
  }

  lemma {:induction false} TimesIsProduct(k: int, n: nat)
    ensures Times(k, n) == k * n
  {
    if n > 0 {
      TimesIsProduct(k, n - 1);
      assert k * n == k * (n - 1) + k;
    }
  }

  lemma {:induction false} TimesFewer(k: nat, m: nat, n: nat)
    requires m <= n
    ensures 0 <= Times(k, m) <= Times(k, n)
  {
    if m < n {
      TimesFewer(k, m, n - 1);
    } else if m > 0 {
      TimesFewer(k, m - 1, n - 1);
    }
  }

  lemma TimesCancel(k: nat, m: nat, n: nat)
    requires m <= n
    ensures Times(0 - k, n) + Times(k, m) <= 0
  {
    TimesFewer(k, m, n);
    TimesAdds(k, 0 - k, n);
    TimesIsProduct(0, n);
  }

  lemma {:induction false} CostIsPathLength(t: Tree, d: nat)
    ensures PathLength(t, d) == Cost(t) + Times(Weight(t), d)
  {
    match t
    case Leaf(_, w) =>
      TimesIsProduct(w, d);
    case Node(l, r) =>
      CostIsPathLength(l, d + 1);
      CostIsPathLength(r, d + 1);
      TimesAdds(Weight(l), Weight(r), d + 1);
  }

  // ---------- Leaves addressed by paths (false = left) ----------

  predicate LeafAt(t: Tree, p: seq<bool>) {
    match t
    case Leaf(_, _) => p == []
    case Node(l, r) => p != [] && LeafAt(if p[0] then r else l, p[1..])
  }

  function At(t: Tree, p: seq<bool>): nat
    requires LeafAt(t, p)
  {
    match t
    case Leaf(_, w) => w
    case Node(l, r) => At(if p[0] then r else l, p[1..])
  }

  /** Replaces the weight of the leaf at p. */
  function Put(t: Tree, p: seq<bool>, w: nat): Tree
    requires LeafAt(t, p)
  {
    match t
    case Leaf(s, _) => Leaf(s, w)
    case Node(l, r) => if p[0] then Node(l, Put(r, p[1..], w)) else Node(Put(l, p[1..], w), r)
  }

  lemma {:induction false} PutCost(t: Tree, p: seq<bool>, w: nat)
    requires LeafAt(t, p)
    ensures Weight(Put(t, p, w)) == Weight(t) - At(t, p) + w
    ensures Cost(Put(t, p, w)) == Cost(t) + Times(w - At(t, p), |p|)
  {
    match t
    case Leaf(_, _) =>
    case Node(l, r) =>
      PutCost(if p[0] then r else l, p[1..], w);
  }

  /** Trading y for x inside a is trading y for x inside a + b. */
  lemma TradeWithin(a: multiset<nat>, a': multiset<nat>, b: multiset<nat>, x: multiset<nat>, y: multiset<nat>)
    requires a' + x == a + y
    ensures a' + b + x == a + b + y && b + a' + x == b + a + y
  {
    assert a' + b + x == (a' + x) + b;
    assert a + b + y == (a + y) + b;
    assert b + a' + x == a' + b + x;
    assert b + a + y == a + b + y;
  }

  lemma {:induction false} PutLeaves(t: Tree, p: seq<bool>, w: nat)
    requires LeafAt(t, p)
    ensures LeafWeights(Put(t, p, w)) + multiset{At(t, p)} == LeafWeights(t) + multiset{w}
    ensures At(t, p) in LeafWeights(t)
  {
    match t
    case Leaf(_, _) =>
    case Node(l, r) =>
      var same, other := if p[0] then r else l, if p[0] then l else r;
      PutLeaves(same, p[1..], w);
      TradeWithin(LeafWeights(same), LeafWeights(Put(same, p[1..], w)), LeafWeights(other),
                  multiset{At(t, p)}, multiset{w});
  }

  lemma {:induction false} PutOthers(t: Tree, p: seq<bool>, w: nat, q: seq<bool>)
    requires LeafAt(t, p)
    ensures LeafAt(Put(t, p, w), q) <==> LeafAt(t, q)
    ensures LeafAt(t, q) ==> At(Put(t, p, w), q) == if p == q then w else At(t, q)
  {
    match t
    case Leaf(_, _) =>
    case Node(l, r) =>
      if q != [] && p[0] == q[0] {
        PutOthers(if p[0] then r else l, p[1..], w, q[1..]);
        assert p == q <==> p[1..] == q[1..] by {
          assert p == [p[0]] + p[1..] && q == [q[0]] + q[1..];
        }
      }
  }

  lemma {:induction false} FindLeaf(t: Tree, w: nat) returns (q: seq<bool>)
    requires w in LeafWeights(t)
    ensures LeafAt(t, q) && At(t, q) == w
  {
    match t
    case Leaf(_, _) => q := [];
    case Node(l, r) =>
      if w in LeafWeights(l) {
        q := FindLeaf(l, w);
        q := [false] + q;
      } else {
        q := FindLeaf(r, w);
        q := [true] + q;
      }
  }

  /** A leaf of weight w different from the leaf at p. */
  lemma {:induction false} FindOtherLeaf(t: Tree, p: seq<bool>, w: nat) returns (q: seq<bool>)
    requires LeafAt(t, p) && w in LeafWeights(t) - multiset{At(t, p)}
    ensures LeafAt(t, q) && At(t, q) == w && q != p
  {
    match t
    case Leaf(_, _) => assert false; q := [];
    case Node(l, r) =>
      var same, other := if p[0] then r else l, if p[0] then l else r;
      PutLeaves(same, p[1..], 0);
      if w in LeafWeights(other) {
        q := FindLeaf(other, w);
        q := [!p[0]] + q;
      } else {
        q := FindOtherLeaf(same, p[1..], w);
        assert ([p[0]] + q)[1..] == q;
        q := [p[0]] + q;
      }
  }

  // ---------- The exchange argument ----------

  predicate PairAt(t: Tree, q: seq<bool>) {
    LeafAt(t, q + [false]) && LeafAt(t, q + [true])
  }

  lemma {:induction false} PairBelow(t: Tree, b: bool, q: seq<bool>)
    requires t.Node? && PairAt(if b then t.r else t.l, q)
    ensures PairAt(t, [b] + q)
  {
    assert ([b] + q + [false])[1..] == q + [false];
    assert ([b] + q + [true])[1..] == q + [true];
  }

  /** Some pair of sibling leaves is at least as deep as every leaf. */
  lemma {:induction false} DeepestPair(t: Tree) returns (q: seq<bool>)
    requires t.Node?
    ensures PairAt(t, q)
    ensures forall p :: LeafAt(t, p) ==> |p| <= |q| + 1
  {
    if t.l.Leaf? && t.r.Leaf? {
      q := [];
      assert LeafAt(t, [false]) && LeafAt(t, [true]);
    } else if t.l.Leaf? {
      q := DeepestPair(t.r);
      PairBelow(t, true, q);
      q := [true] + q;
    } else if t.r.Leaf? {
      q := DeepestPair(t.l);
      PairBelow(t, false, q);
      q := [false] + q;
    } else {
      var ql := DeepestPair(t.l);
      var qr := DeepestPair(t.r);
      PairBelow(t, false, ql);
      PairBelow(t, true, qr);
      q := if |ql| >= |qr| then [false] + ql else [true] + qr;
    }
  }

  function Swap(t: Tree, p: seq<bool>, b: seq<bool>): Tree
    requires LeafAt(t, p) && LeafAt(t, b)
  {
    PutOthers(t, p, At(t, b), b);
    Put(Put(t, p, At(t, b)), b, At(t, p))
  }

  lemma SwapAt(t: Tree, p: seq<bool>, b: seq<bool>, q: seq<bool>)
    requires LeafAt(t, p) && LeafAt(t, b)
    ensures LeafAt(Swap(t, p, b), q) <==> LeafAt(t, q)
    ensures LeafAt(t, q) ==> At(Swap(t, p, b), q) == if q == p then At(t, b) else if q == b then At(t, p) else At(t, q)
  {
    PutOthers(t, p, At(t, b), q);
    PutOthers(t, p, At(t, b), b);
    PutOthers(Put(t, p, At(t, b)), b, At(t, p), q);
  }

  lemma SwapKeepsLeaves(t: Tree, p: seq<bool>, b: seq<bool>)
    requires LeafAt(t, p) && LeafAt(t, b) && p != b
    ensures LeafWeights(Swap(t, p, b)) == LeafWeights(t)
  {
    var x, y := At(t, p), At(t, b);
    var t1 := Put(t, p, y);
    PutOthers(t, p, y, b);
    PutLeaves(t, p, y);
    PutLeaves(t1, b, x);
    var u := LeafWeights(Swap(t, p, b));
    assert u + multiset{y} + multiset{x} == LeafWeights(t) + multiset{y} + multiset{x};
    assert u == u + multiset{y} + multiset{x} - multiset{x} - multiset{y};
    assert LeafWeights(t) == LeafWeights(t) + multiset{y} + multiset{x} - multiset{x} - multiset{y};
  }

  lemma SwapCost(t: Tree, p: seq<bool>, b: seq<bool>)
    requires LeafAt(t, p) && LeafAt(t, b) && p != b && |b| <= |p| && At(t, b) <= At(t, p)
    ensures Cost(Swap(t, p, b)) <= Cost(t)
  {
    hide Cost, Put, LeafAt, At, Times;
    var x: int, y: int := At(t, p), At(t, b);
    var t1 := Put(t, p, y);
    PutOthers(t, p, y, b);
    PutCost(t, p, y);
    PutCost(t1, b, x);
    assert Cost(Swap(t, p, b)) == Cost(t) + Times(y - x, |p|) + Times(x - y, |b|);
    TimesCancel(x - y, |b|, |p|);
    assert y - x == 0 - (x - y);
  }

  /** Exchanges the leaves at p and b; no dearer when p is the deeper and the heavier. */
  lemma SwapDeeper(t: Tree, p: seq<bool>, b: seq<bool>) returns (u: Tree)
    requires LeafAt(t, p) && LeafAt(t, b) && |b| <= |p| && At(t, b) <= At(t, p)
    ensures LeafWeights(u) == LeafWeights(t) && Cost(u) <= Cost(t)
    ensures forall q :: LeafAt(u, q) <==> LeafAt(t, q)
    ensures LeafAt(u, p) && At(u, p) == At(t, b)
    ensures forall q :: LeafAt(t, q) && q != p && q != b ==> At(u, q) == At(t, q)
  {
    if p == b {
      u := t;
    } else {
      u := Swap(t, p, b);
      SwapKeepsLeaves(t, p, b);
      SwapCost(t, p, b);
      forall q ensures LeafAt(u, q) <==> LeafAt(t, q)
               ensures LeafAt(t, q) ==> At(u, q) == if q == p then At(t, b) else if q == b then At(t, p) else At(t, q)
      { SwapAt(t, p, b, q); }
    }
  }

  /** Collapses the sibling leaves below q into one leaf carrying their sum. */
  function Collapse(t: Tree, q: seq<bool>): Tree
    requires PairAt(t, q)
    decreases |q|
  {
    if q == [] then Leaf(0, Weight(t))
    else
      assert (q + [false])[1..] == q[1..] + [false] && (q + [true])[1..] == q[1..] + [true];
      if q[0] then Node(t.l, Collapse(t.r, q[1..])) else Node(Collapse(t.l, q[1..]), t.r)
  }

  lemma PairAtRoot(t: Tree)
    requires PairAt(t, [])
    ensures t.l.Leaf? && t.r.Leaf? && At(t, [false]) == t.l.w && At(t, [true]) == t.r.w
  {
    assert [] + [false] == [false] && [] + [true] == [true];
    assert LeafAt(t.l, [false][1..]) && LeafAt(t.r, [true][1..]);
  }

  lemma PairOfLeaves(t: Tree, a: nat, b: nat)
    requires t.Node? && t.l.Leaf? && t.r.Leaf? && t.l.w == a && t.r.w == b
    ensures LeafWeights(t) == multiset{a, b} && Weight(t) == a + b
  {
    assert LeafWeights(t) == multiset{t.l.w} + multiset{t.r.w};
  }

  lemma {:induction false} CollapseCost(t: Tree, q: seq<bool>, a: nat, b: nat)
    requires PairAt(t, q) && a == At(t, q + [false]) && b == At(t, q + [true])
    ensures Weight(Collapse(t, q)) == Weight(t)
    ensures Cost(Collapse(t, q)) + a + b == Cost(t)
    decreases |q|
  {
    if q == [] {
      PairAtRoot(t);
    } else {
      assert (q + [false])[1..] == q[1..] + [false] && (q + [true])[1..] == q[1..] + [true];
      CollapseCost(if q[0] then t.r else t.l, q[1..], a, b);
    }
  }

  lemma {:induction false} CollapseLeaves(t: Tree, q: seq<bool>, a: nat, b: nat, c: nat)
    requires PairAt(t, q) && a == At(t, q + [false]) && b == At(t, q + [true]) && c == a + b
    ensures LeafWeights(Collapse(t, q)) + multiset{a, b} == LeafWeights(t) + multiset{c}
    decreases |q|
  {
    if q == [] {
      assert [] + [false] == [false] && [] + [true] == [true];
      PairAtRoot(t);
      PairOfLeaves(t, a, b);
    } else {
      assert (q + [false])[1..] == q[1..] + [false] && (q + [true])[1..] == q[1..] + [true];
      var same, other := if q[0] then t.r else t.l, if q[0] then t.l else t.r;
      CollapseLeaves(same, q[1..], a, b, c);
      TradeWithin(LeafWeights(same), LeafWeights(Collapse(same, q[1..])), LeafWeights(other),
                  multiset{a, b}, multiset{c});
    }
  }

  ghost predicate TwoLightest(m: multiset<nat>, a: nat, b: nat) {
    && a in m
    && b in m - multiset{a}
    && (forall w :: w in m ==> a <= w)
    && (forall w :: w in m - multiset{a} ==> b <= w)
  }

  /** Some tree with the same leaves, no dearer, has its lightest two leaves as siblings. */
  lemma PairLightest(t: Tree, a: nat, b: nat) returns (u: Tree, q: seq<bool>)
    requires t.Node? && TwoLightest(LeafWeights(t), a, b)
    ensures LeafWeights(u) == LeafWeights(t) && Cost(u) <= Cost(t)
    ensures PairAt(u, q) && At(u, q + [false]) == a && At(u, q + [true]) == b
  {
    q := DeepestPair(t);
    var p0, p1 := q + [false], q + [true];
    assert p0 != p1 by { assert p0[|q|] != p1[|q|]; }
    PutLeaves(t, p0, 0);
    var qa := FindLeaf(t, a);
    var t1 := SwapDeeper(t, p0, qa);
    var qb := FindOtherLeaf(t1, p0, b);
    OtherLeaf(t1, p0, p1);
    u := SwapDeeper(t1, p1, qb);
  }

  /** The greedy choice is safe: whatever tree carries two lightest leaves a and b, some tree carrying
      their sum in their place is cheaper by at least a + b. */
  lemma GreedyChoice(t: Tree, a: nat, b: nat, c: nat) returns (u: Tree)
    requires t.Node? && TwoLightest(LeafWeights(t), a, b) && c == a + b
    ensures LeafWeights(u) + multiset{a, b} == LeafWeights(t) + multiset{c}
    ensures Cost(u) + c <= Cost(t)
  {
    var t2, q := PairLightest(t, a, b);
    CollapseCost(t2, q, a, b);
    CollapseLeaves(t2, q, a, b, c);
    u := Collapse(t2, q);
  }

  /** Two different leaves draw on two different occurrences of their weights. */
  lemma {:induction false} OtherLeaf(t: Tree, p: seq<bool>, q: seq<bool>)
    requires LeafAt(t, p) && LeafAt(t, q) && p != q
    ensures At(t, q) in LeafWeights(t) - multiset{At(t, p)}
  {
    var v := At(t, q) + 1;
    var u := Put(t, p, v);
    PutLeaves(t, p, v);
    PutOthers(t, p, v, q);
    PutLeaves(u, q, 0);
    assert LeafWeights(t) - multiset{At(t, p)} == LeafWeights(u) - multiset{v} by {
      assert LeafWeights(u) + multiset{At(t, p)} - multiset{v} - multiset{At(t, p)} == LeafWeights(u) - multiset{v};
      assert LeafWeights(t) + multiset{v} - multiset{v} - multiset{At(t, p)} == LeafWeights(t) - multiset{At(t, p)};
    }
  }
}
