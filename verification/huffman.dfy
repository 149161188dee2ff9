/** Construction of a Huffman tree from byte counts over the priority queue. */
module Huffman {
  import opened Basics
  import opened WeightTrees
  import opened PQueues
  import opened HuffNodes

  /** The bytes below n that occur, each with its count. */
  function Present(entries: seq<nat>, n: nat): seq<(nat, nat)>
    requires n <= |entries|
  {
    if n == 0 then []
    else if entries[n - 1] == 0 then Present(entries, n - 1)
    else Present(entries, n - 1) + [(n - 1, entries[n - 1])]
  }

  function Total(entries: seq<nat>, n: nat): nat
    requires n <= |entries|
  {
    if n == 0 then 0 else Total(entries, n - 1) + entries[n - 1]
  }

  /** Each byte that occurs is there once, with its count, and nothing else is; the bytes ascend. */
  lemma {:induction false} PresentIs(entries: seq<nat>, n: nat)
    requires n <= |entries|
    ensures forall b: nat, w: nat :: (b, w) in Present(entries, n) <==> b < n && w == entries[b] > 0
    ensures forall i, j :: 0 <= i < j < |Present(entries, n)| ==> Present(entries, n)[i].0 < Present(entries, n)[j].0
  {
    if n > 0 {
      PresentIs(entries, n - 1);
      var front, all := Present(entries, n - 1), Present(entries, n);
      forall i | 0 <= i < |front| ensures front[i].0 < n - 1 {
        assert (front[i].0, front[i].1) in front;
      }
      forall b: nat, w: nat ensures (b, w) in all <==> b < n && w == entries[b] > 0 {
        assert entries[n - 1] > 0 ==> ((b, w) in all <==> (b, w) in front || (b, w) == (n - 1, entries[n - 1]));
      }
    }
  }

  lemma {:induction false} PresentBelow(entries: seq<nat>, m: nat, n: nat)
    requires m <= n <= |entries|
    ensures |Present(entries, m)| <= |Present(entries, n)|
    ensures |Present(entries, m)| == |Present(entries, n)| ==> Present(entries, m) == Present(entries, n)
  {
    if m < n {
      PresentBelow(entries, m, n - 1);
    }
  }

  // ---------- Sums over a forest ----------

  function Bag<X>(f: Tree -> multiset<X>, ts: seq<Tree>): multiset<X> {
    if ts == [] then multiset{} else Bag(f, ts[..|ts| - 1]) + f(ts[|ts| - 1])
  }

  function Sum(f: Tree -> nat, ts: seq<Tree>): nat {
    if ts == [] then 0 else Sum(f, ts[..|ts| - 1]) + f(ts[|ts| - 1])
  }

  function LeafBag(t: Tree): multiset<(nat, nat)> { multiset(Leaves(t)) }

  function RootBag(t: Tree): multiset<nat> { multiset{Weight(t)} }

  lemma {:induction false} TakeOutBag<X>(f: Tree -> multiset<X>, ts: seq<Tree>, i: nat)
    requires i < |ts|
    ensures Bag(f, ts) == Bag(f, Without(ts, i)) + f(ts[i])
    decreases |ts|
  {
    var m := |ts| - 1;
    if i == m {
      assert Without(ts, i) == ts[..m];
    } else {
      TakeOutBag(f, ts[..m], i);
      assert Without(ts, i)[..m - 1] == Without(ts[..m], i);
    }
  }

  lemma {:induction false} TakeOutSum(f: Tree -> nat, ts: seq<Tree>, i: nat)
    requires i < |ts|
    ensures Sum(f, ts) == Sum(f, Without(ts, i)) + f(ts[i])
    decreases |ts|
  {
    var m := |ts| - 1;
    if i == m {
      assert Without(ts, i) == ts[..m];
    } else {
      TakeOutSum(f, ts[..m], i);
      assert Without(ts, i)[..m - 1] == Without(ts[..m], i);
    }
  }

  lemma {:induction false} LightestRoot(ts: seq<Tree>, w: nat)
    requires forall i :: 0 <= i < |ts| ==> w <= Weight(ts[i])
    ensures forall v :: v in Bag(RootBag, ts) ==> w <= v
    decreases |ts|
  {
    if ts != [] {
      LightestRoot(ts[..|ts| - 1], w);
    }
  }

  /** No tree over the original leaf weights beats a forest with these root weights and this cost so
      far, provided the forest is completed well. */
  ghost predicate OnTrack(roots: multiset<nat>, cost: nat, original: multiset<nat>) {
    forall u :: LeafWeights(u) == original ==>
      exists v :: LeafWeights(v) == roots && Cost(v) + cost <= Cost(u)
  }

  /** The forest after joining trees i and (then) j. */
  function Joined(ts: seq<Tree>, i: nat, j: nat): seq<Tree>
    requires i < |ts| && j < |ts| - 1
  {
    Without(Without(ts, i), j) + [Node(ts[i], Without(ts, i)[j])]
  }

  lemma JoinedBag<X>(f: Tree -> multiset<X>, ts: seq<Tree>, i: nat, j: nat)
    requires i < |ts| && j < |ts| - 1
    ensures var t1 := Without(ts, i); var rest := Bag(f, Without(t1, j));
            && Bag(f, t1) == rest + f(t1[j])
            && Bag(f, ts) == rest + f(t1[j]) + f(ts[i])
            && Bag(f, Joined(ts, i, j)) == rest + f(Node(ts[i], t1[j]))
  {
    TakeOutBag(f, ts, i);
    TakeOutBag(f, Without(ts, i), j);
    var js := Joined(ts, i, j);
    assert js[..|js| - 1] == Without(Without(ts, i), j);
  }

  lemma JoinedSum(f: Tree -> nat, ts: seq<Tree>, i: nat, j: nat)
    requires i < |ts| && j < |ts| - 1
    ensures var l, r := ts[i], Without(ts, i)[j];
            Sum(f, Joined(ts, i, j)) + f(l) + f(r) == Sum(f, ts) + f(Node(l, r))
  {
    TakeOutSum(f, ts, i);
    TakeOutSum(f, Without(ts, i), j);
    var js := Joined(ts, i, j);
    assert js[..|js| - 1] == Without(Without(ts, i), j);
  }

  lemma JoinBags<X>(a: multiset<X>, l: multiset<X>, r: multiset<X>)
    ensures a + (l + r) == a + r + l
  {}

  lemma JoinedLeaves(ts: seq<Tree>, i: nat, j: nat)
    requires i < |ts| && j < |ts| - 1
    ensures Bag(LeafWeights, Joined(ts, i, j)) == Bag(LeafWeights, ts)
    ensures Bag(LeafBag, Joined(ts, i, j)) == Bag(LeafBag, ts)
    ensures Sum(Weight, Joined(ts, i, j)) == Sum(Weight, ts)
  {
    var t1 := Without(ts, i);
    var l, r := ts[i], t1[j];
    JoinedSum(Weight, ts, i, j);
    JoinedBag(LeafWeights, ts, i, j);
    JoinBags(Bag(LeafWeights, Without(t1, j)), LeafWeights(l), LeafWeights(r));
    JoinedBag(LeafBag, ts, i, j);
    JoinBags(Bag(LeafBag, Without(t1, j)), LeafBag(l), LeafBag(r));
    assert LeafBag(Node(l, r)) == LeafBag(l) + LeafBag(r);
  }

  lemma LightestOf(rest: multiset<nat>, a: nat, b: nat)
    requires forall v :: v in rest + multiset{b} + multiset{a} ==> a <= v
    requires forall v :: v in rest + multiset{b} ==> b <= v
    ensures TwoLightest(rest + multiset{b} + multiset{a}, a, b)
  {
    assert rest + multiset{b} + multiset{a} - multiset{a} == rest + multiset{b};
  }

  lemma LightestPair(ts: seq<Tree>, i: nat, j: nat)
    requires i < |ts| && j < |ts| - 1
    requires forall k :: 0 <= k < |ts| ==> Weight(ts[i]) <= Weight(ts[k])
    requires forall k :: 0 <= k < |ts| - 1 ==> Weight(Without(ts, i)[j]) <= Weight(Without(ts, i)[k])
    ensures TwoLightest(Bag(RootBag, ts), Weight(ts[i]), Weight(Without(ts, i)[j]))
  {
    var t1 := Without(ts, i);
    var a, b := Weight(ts[i]), Weight(t1[j]);
    JoinedBag(RootBag, ts, i, j);
    LightestRoot(ts, a);
    LightestRoot(t1, b);
    LightestOf(Bag(RootBag, Without(t1, j)), a, b);
  }

  lemma Completion(v: Tree, rest: multiset<nat>, a: nat, b: nat, c: nat) returns (u: Tree)
    requires LeafWeights(v) == rest + multiset{b} + multiset{a}
    requires TwoLightest(LeafWeights(v), a, b) && c == a + b
    ensures LeafWeights(u) == rest + multiset{c} && Cost(u) + c <= Cost(v)
  {
    AtLeastTwo(v, rest, a, b);
    u := GreedyChoice(v, a, b, c);
    Swapped(LeafWeights(u), rest, a, b, c);
  }

  /** Joining the two lightest trees keeps the forest on track to an optimal tree. */
  lemma GreedyStep(rest: multiset<nat>, a: nat, b: nat, c: nat, cost: nat, original: multiset<nat>)
    requires OnTrack(rest + multiset{b} + multiset{a}, cost, original)
    requires TwoLightest(rest + multiset{b} + multiset{a}, a, b) && c == a + b
    ensures OnTrack(rest + multiset{c}, cost + c, original)
  {
    forall u | LeafWeights(u) == original
      ensures exists v :: LeafWeights(v) == rest + multiset{c} && Cost(v) + (cost + c) <= Cost(u)
    {
      var v :| LeafWeights(v) == rest + multiset{b} + multiset{a} && Cost(v) + cost <= Cost(u);
      var v' := Completion(v, rest, a, b, c);
    }
  }

  lemma JoinLightest(ts: seq<Tree>, i: nat, j: nat, original: multiset<nat>)
    requires OnTrack(Bag(RootBag, ts), Sum(Cost, ts), original)
    requires i < |ts| && j < |ts| - 1
    requires forall k :: 0 <= k < |ts| ==> Weight(ts[i]) <= Weight(ts[k])
    requires forall k :: 0 <= k < |ts| - 1 ==> Weight(Without(ts, i)[j]) <= Weight(Without(ts, i)[k])
    ensures var js := Joined(ts, i, j); OnTrack(Bag(RootBag, js), Sum(Cost, js), original)
  {
    var l, r := ts[i], Without(ts, i)[j];
    JoinedBag(RootBag, ts, i, j);
    JoinedSum(Cost, ts, i, j);
    LightestPair(ts, i, j);
    GreedyStep(Bag(RootBag, Without(Without(ts, i), j)), Weight(l), Weight(r), Weight(Node(l, r)), Sum(Cost, ts), original);
  }

  lemma AtLeastTwo(v: Tree, rest: multiset<nat>, a: nat, b: nat)
    requires LeafWeights(v) == rest + multiset{b} + multiset{a}
    ensures v.Node?
  {
    assert |rest + multiset{b} + multiset{a}| >= 2;
    assert v.Leaf? ==> |LeafWeights(v)| == 1;
  }

  lemma Swapped(m: multiset<nat>, rest: multiset<nat>, a: nat, b: nat, c: nat)
    requires m + multiset{a, b} == rest + multiset{b} + multiset{a} + multiset{c}
    ensures m == rest + multiset{c}
  {
    assert m == m + multiset{a, b} - multiset{a, b};
    assert rest + multiset{c} == rest + multiset{b} + multiset{a} + multiset{c} - multiset{a, b};
  }

  // ---------- The queue of trees ----------

  const UINT16: nat := 0x1_0000
  const INT_MAX: nat := 0x7FFF_FFFF

  /** s is the heap form of t; weights are kept in 16 bits. */
  ghost predicate Models(s: Shape, t: Tree) {
    && s.Cell?
    && s.entry == Weight(t) % UINT16
    && match t
       case Leaf(sym, _) => s.l.Nil? && s.r.Nil? && s.byte == sym
       case Node(l, r) => Models(s.l, l) && Models(s.r, r)
  }

  ghost function AllNodes(shapes: seq<Shape>): set<HuffNode> {
    set s, n | s in shapes && n in Nodes(s) :: n
  }

  ghost predicate Separate(shapes: seq<Shape>) {
    && (forall i :: 0 <= i < |shapes| ==> Distinct(shapes[i]))
    && (forall i, j :: 0 <= i < j < |shapes| ==> Nodes(shapes[i]) !! Nodes(shapes[j]))
  }

  /** The queued items are exactly these trees, each under a priority: when exact, its true weight. */
  ghost predicate Backs(items: seq<Item<HuffNode?>>, shapes: seq<Shape>, trees: seq<Tree>, exact: bool)
    reads AllNodes(shapes)
  {
    && |shapes| == |trees| == |items|
    && (forall k :: 0 <= k < |items| ==> BacksOne(items[k], shapes[k], trees[k], exact))
  }

  ghost predicate BacksOne(it: Item<HuffNode?>, s: Shape, t: Tree, exact: bool)
    reads Nodes(s)
  {
    Linked(s, it.ptr) && Models(s, t) && it.val < UINT64_MAX && (exact ==> it.val == Weight(t))
  }

  lemma BacksWithout(items: seq<Item<HuffNode?>>, shapes: seq<Shape>, trees: seq<Tree>, exact: bool, i: nat)
    requires Backs(items, shapes, trees, exact) && i < |items|
    ensures Backs(Without(items, i), Without(shapes, i), Without(trees, i), exact)
  {
    WithoutAt(items, i);
    WithoutAt(shapes, i);
    WithoutAt(trees, i);
  }

  ghost predicate Holds(q: PQueue<HuffNode?>, shapes: seq<Shape>, trees: seq<Tree>, exact: bool)
    reads q, q.items, AllNodes(shapes)
  {
    q.Valid() && Backs(q.Contents(), shapes, trees, exact)
  }

  method MakeNode(l: HuffNode, r: HuffNode) returns (node: HuffNode)
    ensures fresh(node)
    ensures node.left == l && node.right == r && node.entry == (l.entry + r.entry) % UINT16 && node.byte == 0
  {
    node := new HuffNode();
    node.left := l;
    node.right := r;
    node.entry := (l.entry + r.entry) % UINT16;
  }

  lemma HeldSizes(q: PQueue<HuffNode?>, shapes: seq<Shape>, trees: seq<Tree>, exact: bool)
    requires Holds(q, shapes, trees, exact)
    ensures |shapes| == |trees| == q.size <= q.items.Length
  {}

  /** All priorities in the queue are below the cap, so its cached index is good. */
  lemma HeldSound(q: PQueue<HuffNode?>, shapes: seq<Shape>, trees: seq<Tree>, exact: bool)
    requires Holds(q, shapes, trees, exact) && q.size > 0
    ensures q.Sound() && q.size <= q.items.Length && |q.Contents()| == |shapes| == |trees| == q.size
  {
    assert BacksOne(q.Contents()[0], shapes[0], trees[0], exact);
    assert q.items[0].val < UINT64_MAX;
  }

  /** What backs an item, and that the least of exact priorities is the least weight. */
  lemma Lightest(was: seq<Item<HuffNode?>>, shapes: seq<Shape>, trees: seq<Tree>, exact: bool, i: nat)
    requires Backs(was, shapes, trees, exact) && i < |was| && forall k :: 0 <= k < |was| ==> was[i].val <= was[k].val
    ensures Linked(shapes[i], was[i].ptr) && Models(shapes[i], trees[i])
    ensures exact ==> forall k :: 0 <= k < |trees| ==> Weight(trees[i]) <= Weight(trees[k])
  {
    assert forall k :: 0 <= k < |was| ==> BacksOne(was[k], shapes[k], trees[k], exact);
  }

  /** Popping yields a tree, of minimal weight while priorities are exact. */
  method PopTree(q: PQueue<HuffNode?>, ghost shapes: seq<Shape>, ghost trees: seq<Tree>, ghost exact: bool)
    returns (ptr: HuffNode?, ghost i: nat)
    requires Holds(q, shapes, trees, exact) && q.size > 0
    modifies q`size, q`maxPriority, q`maxPriorityIndex, q.items
    ensures i < |shapes| && Linked(shapes[i], ptr) && Models(shapes[i], trees[i])
    ensures Holds(q, Without(shapes, i), Without(trees, i), exact)
    ensures q.size == old(q.size) - 1
    ensures exact ==> forall k :: 0 <= k < |trees| ==> Weight(trees[i]) <= Weight(trees[k])
  {
    hide Backs, PQueue.Valid, PQueue.Leaves, PQueue.Sound;
    HeldSound(q, shapes, trees, exact);
    ghost var was := q.Contents();
    assert allocated(AllNodes(shapes));
    ptr, i := q.Pop();
    BacksWithout(was, shapes, trees, exact, i);
    Lightest(was, shapes, trees, exact, i);
  }

  method PushTree(q: PQueue<HuffNode?>, node: HuffNode, value: nat,
                  ghost shapes: seq<Shape>, ghost trees: seq<Tree>, ghost exact: bool, ghost s: Shape, ghost t: Tree)
    requires Holds(q, shapes, trees, exact) && q.size < q.items.Length
    requires Linked(s, node) && Models(s, t) && value < UINT64_MAX && (exact ==> value == Weight(t))
    modifies q`size, q`maxPriority, q`maxPriorityIndex, q.items
    ensures Holds(q, shapes + [s], trees + [t], exact) && q.size == old(q.size) + 1
  {
    ghost var was := q.Contents();
    assert allocated(AllNodes(shapes)) && allocated(Nodes(s));
    var ok := q.Insert(node, value);
    assert Backs(was, shapes, trees, exact) && BacksOne(Item(node, value), s, t, exact);
  }

  lemma WrappedSum(a: nat, b: nat)
    ensures (a % UINT16 + b % UINT16) % UINT16 == (a + b) % UINT16
  {}

  /** The parent of two popped trees enters the queue under its 16-bit weight. */
  method PushParent(q: PQueue<HuffNode?>, l: HuffNode, r: HuffNode, ghost shapes: seq<Shape>, ghost trees: seq<Tree>,
                    ghost exact: bool, ghost sl: Shape, ghost sr: Shape, ghost tl: Tree, ghost tr: Tree)
    returns (ghost cell: Shape)
    requires Holds(q, shapes, trees, exact) && q.size < q.items.Length
    requires Linked(sl, l) && Models(sl, tl) && Linked(sr, r) && Models(sr, tr)
    requires exact ==> Weight(tl) + Weight(tr) < UINT16
    modifies q`size, q`maxPriority, q`maxPriorityIndex, q.items
    ensures cell.Cell? && cell.l == sl && cell.r == sr && fresh(cell.n)
    ensures Holds(q, shapes + [cell], trees + [Node(tl, tr)], exact) && q.size == old(q.size) + 1
  {
    hide Holds;
    assert allocated(AllNodes(shapes)) && allocated(Nodes(sl)) && allocated(Nodes(sr));
    var root := MakeNode(l, r);
    cell := Cell(root, root.entry, 0, sl, sr);
    WrappedSum(Weight(tl), Weight(tr));
    PushTree(q, root, root.entry, shapes, trees, exact, cell, Node(tl, tr));
  }

  lemma PairWeight(ts: seq<Tree>, i: nat, j: nat)
    requires i < |ts| && j < |ts| - 1
    ensures Weight(ts[i]) + Weight(Without(ts, i)[j]) <= Sum(Weight, ts)
  {
    TakeOutSum(Weight, ts, i);
    TakeOutSum(Weight, Without(ts, i), j);
  }

  /** One round of the merge loop: the two minima leave, their parent enters. */
  method JoinTwo(q: PQueue<HuffNode?>, ghost shapes: seq<Shape>, ghost trees: seq<Tree>, ghost exact: bool)
    returns (ghost i: nat, ghost j: nat, ghost cell: Shape)
    requires Holds(q, shapes, trees, exact) && q.size > 1
    requires exact ==> Sum(Weight, trees) < UINT16
    modifies q`size, q`maxPriority, q`maxPriorityIndex, q.items
    ensures i < |shapes| && j < |shapes| - 1 && q.size == old(q.size) - 1
    ensures cell.Cell? && cell.l == shapes[i] && cell.r == Without(shapes, i)[j] && fresh(cell.n)
    ensures Holds(q, Without(Without(shapes, i), j) + [cell], Joined(trees, i, j), exact)
    ensures exact ==> forall k :: 0 <= k < |trees| ==> Weight(trees[i]) <= Weight(trees[k])
    ensures exact ==> forall k :: 0 <= k < |trees| - 1 ==> Weight(Without(trees, i)[j]) <= Weight(Without(trees, i)[k])
  {
    hide Holds, Sum, Weight, AllNodes, Nodes;
    HeldSizes(q, shapes, trees, exact);
    assert allocated(AllNodes(shapes));
    var l, r;
    l, i := PopTree(q, shapes, trees, exact);
    ghost var shapes1, trees1 := Without(shapes, i), Without(trees, i);
    HeldSizes(q, shapes1, trees1, exact);
    assert allocated(Nodes(shapes[i]));
    r, j := PopTree(q, shapes1, trees1, exact);
    PairWeight(trees, i, j);
    cell := PushParent(q, l, r, Without(shapes1, j), Without(trees1, j), exact, shapes[i], shapes1[j], trees[i], trees1[j]);
  }

  // ---------- The initial forest ----------

  function LeafTrees(ps: seq<(nat, nat)>): seq<Tree> {
    if ps == [] then [] else LeafTrees(ps[..|ps| - 1]) + [Leaf(ps[|ps| - 1].0, ps[|ps| - 1].1)]
  }

  lemma LeafTreesAlso(ps: seq<(nat, nat)>, p: (nat, nat))
    ensures LeafTrees(ps + [p]) == LeafTrees(ps) + [Leaf(p.0, p.1)]
  {
    assert (ps + [p])[..|ps|] == ps;
  }

  lemma {:induction false} LeafForest(ps: seq<(nat, nat)>)
    ensures |LeafTrees(ps)| == |ps|
    ensures Bag(LeafBag, LeafTrees(ps)) == multiset(ps)
  {
    if ps != [] {
      var qs, p := ps[..|ps| - 1], ps[|ps| - 1];
      LeafForest(qs);
      OneMore(ps);
      assert LeafTrees(ps)[..|qs|] == LeafTrees(qs);
    }
  }

  lemma OneMore(ps: seq<(nat, nat)>)
    requires ps != []
    ensures var p := ps[|ps| - 1]; multiset(ps) == multiset(ps[..|ps| - 1]) + LeafBag(Leaf(p.0, p.1))
  {
    assert ps == ps[..|ps| - 1] + [ps[|ps| - 1]];
  }

  lemma {:induction false} LeafForestRoots(ps: seq<(nat, nat)>)
    ensures Bag(LeafWeights, LeafTrees(ps)) == Bag(RootBag, LeafTrees(ps))
    ensures Sum(Cost, LeafTrees(ps)) == 0
  {
    LeafForest(ps);
    if ps != [] {
      var qs := ps[..|ps| - 1];
      LeafForestRoots(qs);
      assert LeafTrees(ps)[..|qs|] == LeafTrees(qs);
    }
  }

  lemma {:induction false} LeafForestWeight(entries: seq<nat>, n: nat)
    requires n <= |entries|
    ensures Sum(Weight, LeafTrees(Present(entries, n))) == Total(entries, n)
  {
    if n > 0 {
      LeafForestWeight(entries, n - 1);
      if entries[n - 1] > 0 {
        var p := (n - 1, entries[n - 1]);
        LeafTreesAlso(Present(entries, n - 1), p);
        var ts := LeafTrees(Present(entries, n - 1));
        assert (ts + [Leaf(p.0, p.1)])[..|ts|] == ts;
      }
    }
  }

  lemma SeparateAlso(shapes: seq<Shape>, s: Shape)
    requires Separate(shapes) && Distinct(s)
    requires Nodes(s) !! AllNodes(shapes)
    ensures Separate(shapes + [s])
  {
    forall k | 0 <= k < |shapes| ensures Nodes(shapes[k]) <= AllNodes(shapes) {}
  }

  lemma SeparateWithout(shapes: seq<Shape>, i: nat)
    requires Separate(shapes) && i < |shapes|
    ensures Separate(Without(shapes, i))
    ensures Nodes(shapes[i]) !! AllNodes(Without(shapes, i)) && Nodes(shapes[i]) <= AllNodes(shapes)
    ensures AllNodes(Without(shapes, i)) <= AllNodes(shapes)
  {
    WithoutAt(shapes, i);
  }

  lemma SeparateJoined(shapes: seq<Shape>, i: nat, j: nat, cell: Shape)
    requires Separate(shapes) && i < |shapes| && j < |shapes| - 1
    requires cell.Cell? && cell.l == shapes[i] && cell.r == Without(shapes, i)[j] && cell.n !in AllNodes(shapes)
    ensures Separate(Without(Without(shapes, i), j) + [cell])
  {
    var shapes1 := Without(shapes, i);
    SeparateWithout(shapes, i);
    SeparateWithout(shapes1, j);
    SeparateAlso(Without(shapes1, j), cell);
  }

  lemma PresentNext(entries: seq<nat>, n: nat)
    requires n < |entries| && entries[n] > 0
    ensures LeafTrees(Present(entries, n + 1)) == LeafTrees(Present(entries, n)) + [Leaf(n, entries[n])]
  {
    LeafTreesAlso(Present(entries, n), (n, entries[n]));
  }

  method QueueLeaf(q: PQueue<HuffNode?>, entries: seq<nat>, index: nat, ghost shapes: seq<Shape>) returns (ghost s: Shape)
    requires index < |entries| && 0 < entries[index] < UINT64_MAX
    requires Holds(q, shapes, LeafTrees(Present(entries, index)), true) && Separate(shapes) && q.size < q.items.Length
    modifies q`size, q`maxPriority, q`maxPriorityIndex, q.items
    ensures Holds(q, shapes + [s], LeafTrees(Present(entries, index + 1)), true) && Separate(shapes + [s])
    ensures q.size == old(q.size) + 1 && s.Cell? && s.l == Nil && s.r == Nil && fresh(s.n)
  {
    hide Present, LeafTrees, AllNodes, Holds, Separate;
    assert allocated(AllNodes(shapes));
    var node := new HuffNode();
    node.entry := entries[index] % UINT16;
    node.byte := index;
    s := Cell(node, node.entry, index, Nil, Nil);
    PresentNext(entries, index);
    SeparateAlso(shapes, s);
    PushTree(q, node, entries[index], shapes, LeafTrees(Present(entries, index)), true, s, Leaf(index, entries[index]));
  }

  lemma NothingHeld(q: PQueue<HuffNode?>, entries: seq<nat>)
    requires q.Valid() && q.Contents() == []
    ensures Holds(q, [], LeafTrees(Present(entries, 0)), true) && Separate([])
  {}

  /** One leaf per byte that occurs, in ascending byte order. */
  method QueueLeaves(entries: seq<nat>) returns (q: PQueue<HuffNode?>, ghost shapes: seq<Shape>)
    requires |entries| == 257 && entries[256] == |Present(entries, 256)|
    requires forall b :: 0 <= b < 256 ==> entries[b] <= INT_MAX
    ensures fresh(q) && fresh(q.items)
    ensures Holds(q, shapes, LeafTrees(Present(entries, 256)), true) && Separate(shapes)
  {
    hide Holds, Separate, LeafTrees;
    var count := entries[256];
    q := new PQueue(count * 2 + count % 2);
    shapes := [];
    NothingHeld(q, entries);
    var index, i := 0, 0;
    while i < count
      invariant i <= count && index <= 256 && i == |Present(entries, index)|
      invariant fresh(q) && fresh(q.items) && q.items.Length >= count && q.size == i
      invariant Holds(q, shapes, LeafTrees(Present(entries, index)), true) && Separate(shapes)
    {
      ghost var from := index;
      while entries[index] == 0
        invariant from <= index < 256 && Present(entries, index) == Present(entries, from)
        decreases 256 - index
      {
        index := index + 1;
      }
      if index < 256 {
        ghost var s := QueueLeaf(q, entries, index, shapes);
        shapes := shapes + [s];
        index := index + 1;
      }
      i := i + 1;
    }
    PresentBelow(entries, index, 256);
  }

  // ---------- The whole construction ----------

  /** No binary tree whatsoever over leaves of the same weights has a smaller weighted path length. */
  ghost predicate MinimalPathLength(t: Tree) {
    forall u :: LeafWeights(u) == LeafWeights(t) ==> PathLength(t, 0) <= PathLength(u, 0)
  }

  lemma NoneCheaper(t: Tree, u: Tree, original: multiset<nat>)
    requires LeafWeights(u) == original && OnTrack(multiset{Weight(t)}, Cost(t), original)
    ensures Cost(t) <= Cost(u)
  {
    var v :| LeafWeights(v) == multiset{Weight(t)} && Cost(v) + Cost(t) <= Cost(u);
  }

  lemma Optimal(t: Tree, original: multiset<nat>)
    requires OnTrack(multiset{Weight(t)}, Cost(t), original) && LeafWeights(t) == original
    ensures MinimalPathLength(t)
  {
    forall u | LeafWeights(u) == original ensures PathLength(t, 0) <= PathLength(u, 0) {
      CostIsPathLength(t, 0);
      CostIsPathLength(u, 0);
      NoneCheaper(t, u, original);
    }
  }

  /** What the merge loop maintains about the trees. */
  ghost predicate Underway(trees: seq<Tree>, entries: seq<nat>, exact: bool)
    requires |entries| == 257
  {
    var ps := Present(entries, 256);
    && Sum(Weight, trees) == Total(entries, 256)
    && Bag(LeafBag, trees) == multiset(ps)
    && Bag(LeafWeights, trees) == Bag(LeafWeights, LeafTrees(ps))
    && (exact ==> OnTrack(Bag(RootBag, trees), Sum(Cost, trees), Bag(LeafWeights, LeafTrees(ps))))
  }

  lemma UnderwayInitially(entries: seq<nat>, exact: bool)
    requires |entries| == 257
    ensures Underway(LeafTrees(Present(entries, 256)), entries, exact)
  {
    LeafForest(Present(entries, 256));
    LeafForestWeight(entries, 256);
    OnTrackInitially(Present(entries, 256));
  }

  lemma UnderwayStep(trees: seq<Tree>, entries: seq<nat>, exact: bool, i: nat, j: nat)
    requires |entries| == 257 && Underway(trees, entries, exact)
    requires i < |trees| && j < |trees| - 1
    requires exact ==> forall k :: 0 <= k < |trees| ==> Weight(trees[i]) <= Weight(trees[k])
    requires exact ==> forall k :: 0 <= k < |trees| - 1 ==> Weight(Without(trees, i)[j]) <= Weight(Without(trees, i)[k])
    ensures Underway(Joined(trees, i, j), entries, exact)
  {
    JoinedLeaves(trees, i, j);
    if exact {
      JoinLightest(trees, i, j, Bag(LeafWeights, LeafTrees(Present(entries, 256))));
    }
  }

  lemma SingleBag<X>(f: Tree -> multiset<X>, t: Tree)
    ensures Bag(f, [t]) == f(t)
  {
    assert [t][..0] == [];
  }

  lemma SingleSum(f: Tree -> nat, t: Tree)
    ensures Sum(f, [t]) == f(t)
  {
    assert [t][..0] == [];
  }

  lemma UnderwayFinally(tree: Tree, entries: seq<nat>, exact: bool)
    requires |entries| == 257 && Underway([tree], entries, exact)
    ensures multiset(Leaves(tree)) == multiset(Present(entries, 256)) && Weight(tree) == Total(entries, 256)
    ensures exact ==> MinimalPathLength(tree)
  {
    SingleBag(LeafBag, tree);
    SingleBag(LeafWeights, tree);
    SingleBag(RootBag, tree);
    SingleSum(Cost, tree);
    SingleSum(Weight, tree);
    if exact {
      Optimal(tree, LeafWeights(tree));
    }
  }

  lemma OnTrackInitially(ps: seq<(nat, nat)>)
    ensures OnTrack(Bag(RootBag, LeafTrees(ps)), Sum(Cost, LeafTrees(ps)), Bag(LeafWeights, LeafTrees(ps)))
  {
    LeafForestRoots(ps);
  }

  /** The merge loop: joins until one tree is left. */
  method MergeAll(heap: PQueue<HuffNode?>, ghost entries: seq<nat>, ghost exact: bool,
                  ghost shapes0: seq<Shape>, ghost trees0: seq<Tree>)
    returns (ghost shape: Shape, ghost tree: Tree)
    requires |entries| == 257 && (exact ==> Total(entries, 256) < UINT16)
    requires Holds(heap, shapes0, trees0, exact) && Separate(shapes0) && Underway(trees0, entries, exact) && heap.size > 0
    modifies heap`size, heap`maxPriority, heap`maxPriorityIndex, heap.items
    ensures Holds(heap, [shape], [tree], exact) && Distinct(shape) && Underway([tree], entries, exact)
  {
    ghost var shapes, trees := shapes0, trees0;
    while heap.size > 1
      invariant heap.size > 0
      invariant Holds(heap, shapes, trees, exact) && Separate(shapes) && Underway(trees, entries, exact)
      decreases heap.size
    {
      assert allocated(AllNodes(shapes));
      ghost var i, j, cell := JoinTwo(heap, shapes, trees, exact);
      UnderwayStep(trees, entries, exact, i, j);
      SeparateJoined(shapes, i, j, cell);
      shapes := Without(Without(shapes, i), j) + [cell];
      trees := Joined(trees, i, j);
    }
    shape, tree := shapes[0], trees[0];
    assert shapes == [shape] && trees == [tree];
  }

  method PopLast(heap: PQueue<HuffNode?>, ghost shape: Shape, ghost tree: Tree, ghost exact: bool) returns (root: HuffNode?)
    requires Holds(heap, [shape], [tree], exact)
    modifies heap`size, heap`maxPriority, heap`maxPriorityIndex, heap.items
    ensures root != null && Linked(shape, root) && Models(shape, tree) && root.entry == Weight(tree) % UINT16
  {
    ghost var k;
    root, k := PopTree(heap, [shape], [tree], exact);
  }

  /** The Huffman tree of the counts: its leaves are the occurring bytes with their counts, its root
      holds their total (in 16 bits), and while the total fits, no binary tree over leaves of the same
      weights has a smaller weighted path length. */
  method BuildTree(entries: seq<nat>) returns (root: HuffNode?, ghost shape: Shape, ghost tree: Tree)
    requires |entries| == 257 && entries[256] == |Present(entries, 256)| > 0
    requires forall b :: 0 <= b < 256 ==> entries[b] <= INT_MAX
    ensures root != null && Linked(shape, root) && Distinct(shape) && Models(shape, tree)
    ensures multiset(Leaves(tree)) == multiset(Present(entries, 256))
    ensures root.entry == Total(entries, 256) % UINT16
    ensures Total(entries, 256) < UINT16 ==> MinimalPathLength(tree)
  {
    ghost var exact := Total(entries, 256) < UINT16;
    var heap;
    ghost var shapes, trees := [], LeafTrees(Present(entries, 256));
    heap, shapes := QueueLeaves(entries);
    UnderwayInitially(entries, exact);
    LeafForest(Present(entries, 256));
    shape, tree := MergeAll(heap, entries, exact, shapes, trees);
    UnderwayFinally(tree, entries, exact);
    root := PopLast(heap, shape, tree, exact);
  }
}
