/**
 * The incremental tri-colour collector over registered objects.
 *
 * The three linked lists are sequences whose front is the list's head. An object is its payload
 * pointer; the word 16 bytes before it holds its size, and the scan reads the words from the
 * pointer up to that size.
 */
module TriColour {
  import Basics

  const HEADER := 16

  type Ptr = p: nat | HEADER <= p witness HEADER

  /** What a load of the word at an address gives. */
  type Memory = nat -> nat

  datatype Colours = Colours(white: seq<Ptr>, gray: seq<Ptr>, black: seq<Ptr>)

  function Size(m: Memory, p: Ptr): nat {
    m(p - HEADER)
  }

  function Word(m: Memory, p: Ptr, k: nat): nat {
    m(p + 8 * k)
  }

  /** How many words the scan of p reads. */
  function Words(m: Memory, p: Ptr): (n: nat)
    ensures forall k: nat :: k < n <==> 8 * k < Size(m, p)
  {
    (Size(m, p) + 7) / 8
  }

  /** The scan of p skips null and every value from p to p plus its size, both included. */
  predicate Accepts(m: Memory, p: Ptr, v: nat) {
    v != 0 && !(p <= v <= p + Size(m, p))
  }

  ghost predicate Edge(m: Memory, p: Ptr, q: Ptr) {
    Points(m, p, Words(m, p), q)
  }

  /** The list with its first v unlinked. */
  function WithoutFirst(s: seq<Ptr>, v: nat): seq<Ptr> {
    if s == [] then [] else if s[0] == v then s[1..] else [s[0]] + WithoutFirst(s[1..], v)
  }

  /** Move the first v from white to the front of gray, if there is one. */
  function Shade(c: Colours, v: nat): Colours {
    if v in c.white then c.(white := WithoutFirst(c.white, v), gray := [v] + c.gray) else c
  }

  /** The first k words of node, scanned in order. */
  function Scan(m: Memory, node: Ptr, k: nat, c: Colours): Colours {
    if k == 0 then c
    else
      var d := Scan(m, node, k - 1, c);
      if Accepts(m, node, Word(m, node, k - 1)) then Shade(d, Word(m, node, k - 1)) else d
  }

  function Visit(m: Memory, node: Ptr, c: Colours): Colours {
    var d := Scan(m, node, Words(m, node), c);
    d.(black := [node] + d.black)
  }

  /** Pop every object of a list and push it on another, dropping those to be skipped. */
  function Poured(from: seq<Ptr>, to: seq<Ptr>, skip: set<Ptr>): seq<Ptr>
    decreases |from|
  {
    if from == [] then to else Poured(from[1..], if from[0] in skip then to else [from[0]] + to, skip)
  }

  /** Everything turns white but the root, which is scanned and turns black. */
  function Begin(m: Memory, c: Colours, root: Ptr): Colours {
    Visit(m, root, Colours(Poured(c.black, Poured(c.gray, c.white, {}), {root}), [], []))
  }

  /** One step: scan the first gray object. */
  function Step(m: Memory, c: Colours): Colours
    requires c.gray != []
  {
    Visit(m, c.gray[0], c.(gray := c.gray[1..]))
  }

  /** The registered objects with the number of times each is on a list. */
  ghost function Census(c: Colours): multiset<Ptr> {
    multiset(c.white) + multiset(c.gray) + multiset(c.black)
  }

  ghost predicate Once(s: multiset<Ptr>) {
    forall p :: s[p] <= 1
  }

  lemma {:induction false} WithoutRemovesOne(s: seq<Ptr>, v: Ptr)
    requires v in s
    ensures multiset(WithoutFirst(s, v)) == multiset(s) - multiset{v} && |WithoutFirst(s, v)| == |s| - 1
  {
    assert s == [s[0]] + s[1..];
    if s[0] != v {
      WithoutRemovesOne(s[1..], v);
    }
  }

  lemma ShadeKeepsCensus(c: Colours, v: nat)
    ensures Census(Shade(c, v)) == Census(c)
    ensures |Shade(c, v).white| + |Shade(c, v).gray| == |c.white| + |c.gray|
  {
    if v in c.white {
      WithoutRemovesOne(c.white, v);
      assert multiset([v] + c.gray) == multiset{v} + multiset(c.gray);
    }
  }

  /** Scanning moves objects from white to gray: none is lost, none is doubled and black does not change. */
  lemma {:induction false} ScanKeepsCensus(m: Memory, node: Ptr, k: nat, c: Colours)
    ensures Census(Scan(m, node, k, c)) == Census(c) && Scan(m, node, k, c).black == c.black
    ensures |Scan(m, node, k, c).white| + |Scan(m, node, k, c).gray| == |c.white| + |c.gray|
  {
    if k > 0 {
      ScanKeepsCensus(m, node, k - 1, c);
      ShadeKeepsCensus(Scan(m, node, k - 1, c), Word(m, node, k - 1));
    }
  }

  lemma VisitCensus(m: Memory, node: Ptr, c: Colours)
    ensures Census(Visit(m, node, c)) == Census(c) + multiset{node}
    ensures |Visit(m, node, c).white| + |Visit(m, node, c).gray| == |c.white| + |c.gray|
  {
    ScanKeepsCensus(m, node, Words(m, node), c);
    assert multiset([node] + c.black) == multiset{node} + multiset(c.black);
  }

  predicate Among(v: nat, s: seq<Ptr>) {
    v in s
  }

  /** One of the first k words of node is an accepted p. */
  ghost predicate Points(m: Memory, node: Ptr, k: nat, p: Ptr) {
    Accepts(m, node, p) && exists i: nat :: i < k && Word(m, node, i) == p
  }

  /** An edge leads from p to q when a word of p is q, and q is not null, nor inside p, nor just past it. */
  lemma EdgeIsWord(m: Memory, p: Ptr, q: Ptr)
    ensures Edge(m, p, q) <==>
            (exists i: nat :: 8 * i < m(p - 16) && Word(m, p, i) == q) && q != 0 && (q < p || q > p + m(p - 16))
    ensures forall i: nat :: Word(m, p, i) == m(p + 8 * i)
  {
    if i: nat :| 8 * i < m(p - 16) && Word(m, p, i) == q {
      assert i < Words(m, p);
    }
  }

  /** What a scan shades comes in front of what was gray before, and black objects stay as they are. */
  lemma {:induction false} ScanPushes(m: Memory, node: Ptr, k: nat, c: Colours)
    ensures var d := Scan(m, node, k, c);
      |d.gray| >= |c.gray| && d.gray[|d.gray| - |c.gray|..] == c.gray && d.black == c.black
  {
    if k > 0 {
      hide Accepts, Word, Shade;
      var d, v := Scan(m, node, k - 1, c), Word(m, node, k - 1);
      ScanPushes(m, node, k - 1, c);
      ShadePushes(d, v, c.gray);
    }
  }

  lemma ShadePushes(c: Colours, v: nat, s: seq<Ptr>)
    requires |c.gray| >= |s| && c.gray[|c.gray| - |s|..] == s
    ensures var d := Shade(c, v); |d.gray| >= |s| && d.gray[|d.gray| - |s|..] == s && d.black == c.black
  {
    hide WithoutFirst;
    var d := Shade(c, v);
    assert d.gray != c.gray ==> d.gray[1..] == c.gray;
  }

  /** A word that is a white object: the object is in front of the gray list, and only there. */
  lemma ScanShadesNext(m: Memory, node: Ptr, k: nat, c: Colours)
    requires Accepts(m, node, Word(m, node, k)) && Word(m, node, k) in Scan(m, node, k, c).white
    ensures Scan(m, node, k + 1, c).gray == [Word(m, node, k)] + Scan(m, node, k, c).gray
    ensures multiset(Scan(m, node, k + 1, c).white) == multiset(Scan(m, node, k, c).white) - multiset{Word(m, node, k)}
  {
    WithoutRemovesOne(Scan(m, node, k, c).white, Word(m, node, k));
  }

  lemma ShadeMoves(c: Colours, v: nat)
    requires Once(Census(c))
    ensures forall p: Ptr :: Among(p, Shade(c, v).white) <==> Among(p, c.white) && p != v
    ensures forall p: Ptr :: Among(p, Shade(c, v).gray) <==> Among(p, c.gray) || (Among(p, c.white) && p == v)
  {
    if v in c.white {
      var q: Ptr := v;
      WithoutRemovesOne(c.white, q);
      assert Census(c)[q] <= 1;
      forall p: Ptr ensures Among(p, Shade(c, v).white) <==> Among(p, c.white) && p != v {
        assert p in Shade(c, v).white <==> p in multiset(Shade(c, v).white);
        assert p in c.white <==> p in multiset(c.white);
      }
    }
  }

  lemma PointsNext(m: Memory, node: Ptr, k: nat, p: Ptr)
    ensures Points(m, node, k + 1, p) <==> Points(m, node, k, p) || (Accepts(m, node, p) && Word(m, node, k) == p)
  {
  }

  /** With each object on the lists once, the scan turns gray exactly the white objects among the words it accepts. */
  lemma {:induction false} ScanShades(m: Memory, node: Ptr, k: nat, c: Colours)
    requires Once(Census(c))
    ensures forall p: Ptr :: Among(p, Scan(m, node, k, c).white) <==> Among(p, c.white) && !Points(m, node, k, p)
    ensures forall p: Ptr :: Among(p, Scan(m, node, k, c).gray) <==>
      Among(p, c.gray) || (Among(p, c.white) && Points(m, node, k, p))
  {
    hide Accepts, Among, Once, Shade;
    if k > 0 {
      ScanShades(m, node, k - 1, c);
      ScanKeepsCensus(m, node, k - 1, c);
      ShadeMoves(Scan(m, node, k - 1, c), Word(m, node, k - 1));
      forall p: Ptr
        ensures Points(m, node, k, p) <==>
                Points(m, node, k - 1, p) || (Accepts(m, node, p) && Word(m, node, k - 1) == p)
      {
        PointsNext(m, node, k - 1, p);
      }
      hide Points;
    }
  }

  // ----- what a mark keeps true

  ghost predicate NoBlackToWhite(m: Memory, c: Colours) {
    forall b, w :: Among(b, c.black) && Among(w, c.white) ==> !Edge(m, b, w)
  }

  ghost predicate Path(m: Memory, all: multiset<Ptr>, path: seq<Ptr>) {
    path != [] && (forall p :: p in path ==> p in all) &&
    forall i :: 0 < i < |path| ==> Edge(m, path[i - 1], path[i])
  }

  ghost predicate Reachable(m: Memory, all: multiset<Ptr>, root: Ptr, p: Ptr) {
    exists path :: Path(m, all, path) && path[0] == root && path[|path| - 1] == p
  }

  ghost predicate Marked(m: Memory, all: multiset<Ptr>, root: Ptr, s: seq<Ptr>) {
    forall p :: Among(p, s) ==> Reachable(m, all, root, p)
  }

  /** The invariant of a mark from root over the objects all. */
  ghost predicate Marking(m: Memory, c: Colours, root: Ptr, all: multiset<Ptr>) {
    Census(c) == all && Once(all) && root in c.black && NoBlackToWhite(m, c) &&
    Marked(m, all, root, c.gray) && Marked(m, all, root, c.black)
  }

  lemma PathExtends(m: Memory, all: multiset<Ptr>, root: Ptr, p: Ptr, q: Ptr)
    requires Reachable(m, all, root, p) && q in all && Edge(m, p, q)
    ensures Reachable(m, all, root, q)
  {
    var path :| Path(m, all, path) && path[0] == root && path[|path| - 1] == p;
    var longer := path + [q];
    assert Path(m, all, longer);
    assert longer[0] == root && longer[|longer| - 1] == q;
  }

  lemma RootIsReachable(m: Memory, all: multiset<Ptr>, root: Ptr)
    requires root in all
    ensures Reachable(m, all, root, root)
  {
    assert Path(m, all, [root]);
  }

  /** Visiting a reachable object whose colour was just taken off keeps the invariant. */
  lemma VisitMarks(m: Memory, c: Colours, root: Ptr, node: Ptr, all: multiset<Ptr>)
    requires Census(c) + multiset{node} == all && Once(all) && Reachable(m, all, root, node)
    requires node == root || root in c.black
    requires NoBlackToWhite(m, c) && Marked(m, all, root, c.gray) && Marked(m, all, root, c.black)
    ensures Marking(m, Visit(m, node, c), root, all)
  {
    var d := Visit(m, node, c);
    VisitCensus(m, node, c);
    assert Once(Census(c)) by {
      assert forall p :: Census(c)[p] <= all[p];
    }
    ScanShades(m, node, Words(m, node), c);
    ScanKeepsCensus(m, node, Words(m, node), c);
    forall p | Among(p, d.gray) ensures Reachable(m, all, root, p) {
      if !Among(p, c.gray) {
        assert p in multiset(c.white);
        assert Edge(m, node, p);
        PathExtends(m, all, root, node, p);
      }
    }
    forall b, w | Among(b, d.black) && Among(w, d.white) ensures !Edge(m, b, w) {
      if b != node {
        assert Among(b, c.black);
      }
    }
    forall p | Among(p, d.black) ensures Reachable(m, all, root, p) {
      if p != node {
        assert Among(p, c.black);
      }
    }
  }

  lemma {:induction false} PouredCensus(from: seq<Ptr>, to: seq<Ptr>, skip: set<Ptr>)
    ensures forall p :: multiset(Poured(from, to, skip))[p] ==
              multiset(to)[p] + (if p in skip then 0 else multiset(from)[p])
    decreases |from|
  {
    if from != [] {
      assert from == [from[0]] + from[1..];
      PouredCensus(from[1..], if from[0] in skip then to else [from[0]] + to, skip);
    }
  }

  /** The list without the objects to be skipped. */
  function Outside(s: seq<Ptr>, skip: set<Ptr>): seq<Ptr> {
    if s == [] then [] else (if s[0] in skip then [] else [s[0]]) + Outside(s[1..], skip)
  }

  /** Pouring puts what is not skipped in front, in the opposite order. */
  lemma {:induction false} PouredReverses(from: seq<Ptr>, to: seq<Ptr>, skip: set<Ptr>)
    ensures Poured(from, to, skip) == Basics.Reversed(Outside(from, skip)) + to
    decreases |from|
  {
    if from != [] {
      var front := if from[0] in skip then to else [from[0]] + to;
      PouredReverses(from[1..], front, skip);
      var rest := Outside(from[1..], skip);
      assert from[0] in skip ==> Outside(from, skip) == rest;
      assert from[0] !in skip ==> ([from[0]] + rest)[1..] == rest;
    }
  }

  lemma {:induction false} NothingOutside(s: seq<Ptr>)
    ensures Outside(s, {}) == s
  {
    if s != [] {
      NothingOutside(s[1..]);
    }
  }

  /**
   * A mark begins with everything but the root white: the black objects in front of the gray ones,
   * both in reverse, and these in front of the white ones.
   */
  lemma BeginOrder(m: Memory, c: Colours, root: Ptr)
    ensures Begin(m, c, root) == Visit(m, root, Colours(Basics.Reversed(Outside(c.black, {root})) + (Basics.Reversed(c.gray) + c.white), [], []))
  {
    PouredReverses(c.gray, c.white, {});
    NothingOutside(c.gray);
    PouredReverses(c.black, Poured(c.gray, c.white, {}), {root});
  }

  /** Only the first of equal pointers leaves the list. */
  lemma {:induction false} FirstLeaves(s: seq<Ptr>, v: nat, k: nat)
    requires k <= |s| && v !in s[..k] && (k < |s| ==> s[k] == v)
    ensures WithoutFirst(s, v) == if k < |s| then s[..k] + s[k + 1..] else s
  {
    if k > 0 {
      assert s[0] == s[..k][0] && s[1..][..k - 1] == s[..k][1..];
      FirstLeaves(s[1..], v, k - 1);
    }
  }

  /** The objects a mark from root is about: all those registered, and the root. */
  ghost function Considered(c: Colours, root: Ptr): multiset<Ptr> {
    Census(c)[root := 1]
  }

  lemma BeginCensus(m: Memory, c: Colours, root: Ptr)
    ensures forall p :: Census(Begin(m, c, root))[p] ==
              (if p == root then multiset(c.white)[p] + multiset(c.gray)[p] + 1 else Census(c)[p])
    ensures Begin(m, c, root).black == [root]
  {
    var w := Poured(c.gray, c.white, {});
    PouredCensus(c.gray, c.white, {});
    PouredCensus(c.black, w, {root});
    var d := Colours(Poured(c.black, w, {root}), [], []);
    VisitCensus(m, root, d);
    ScanKeepsCensus(m, root, Words(m, root), d);
    assert forall p :: Census(d)[p] == multiset(d.white)[p];
  }

  /**
   * Starting a mark puts every registered object on one list exactly when the root is not still
   * white or gray from a mark that was not finished; and then the invariant holds.
   */
  lemma BeginMarks(m: Memory, c: Colours, root: Ptr)
    requires Once(Census(c))
    ensures Once(Census(Begin(m, c, root))) <==> root !in c.white && root !in c.gray
    ensures root !in c.white && root !in c.gray ==> Marking(m, Begin(m, c, root), root, Considered(c, root))
  {
    var d := Begin(m, c, root);
    BeginCensus(m, c, root);
    if root in c.white || root in c.gray {
      assert Census(d)[root] > 1;
    } else {
      var all := Considered(c, root);
      assert Census(d) == all;
      var e := Colours(Poured(c.black, Poured(c.gray, c.white, {}), {root}), [], []);
      VisitCensus(m, root, e);
      assert Census(e) + multiset{root} == all;
      RootIsReachable(m, all, root);
      VisitMarks(m, e, root, root, all);
    }
  }

  /** Each step keeps the invariant, and one object leaves white and gray for good. */
  lemma StepMarks(m: Memory, c: Colours, root: Ptr, all: multiset<Ptr>)
    requires Marking(m, c, root, all) && c.gray != []
    ensures Marking(m, Step(m, c), root, all)
    ensures |Step(m, c).white| + |Step(m, c).gray| == |c.white| + |c.gray| - 1
    ensures |Step(m, c).black| == |c.black| + 1
  {
    var node := c.gray[0];
    var d := c.(gray := c.gray[1..]);
    assert c.gray == [node] + d.gray;
    assert Census(c) == Census(d) + multiset{node};
    assert Among(node, c.gray);
    forall p | Among(p, d.gray) ensures Reachable(m, all, root, p) {
      assert Among(p, c.gray);
    }
    VisitMarks(m, d, root, node, all);
    VisitCensus(m, node, d);
    ScanKeepsCensus(m, node, Words(m, node), d);
  }

  /** With nothing gray, no path leads from the root out of black. */
  lemma {:induction false} BlackIsClosed(m: Memory, c: Colours, root: Ptr, all: multiset<Ptr>, path: seq<Ptr>, n: nat)
    requires Marking(m, c, root, all) && c.gray == []
    requires Path(m, all, path) && path[0] == root && n < |path|
    ensures Among(path[n], c.black)
  {
    if n > 0 {
      BlackIsClosed(m, c, root, all, path, n - 1);
      assert Edge(m, path[n - 1], path[n]);
      assert path[n] in all;
      assert path[n] in multiset(c.white) + multiset(c.black);
      assert !Among(path[n], c.white);
    }
  }

  lemma WhiteIsGarbage(m: Memory, c: Colours, root: Ptr, all: multiset<Ptr>, p: Ptr)
    requires Marking(m, c, root, all) && c.gray == []
    ensures Reachable(m, all, root, p) <==> p in c.black
    ensures p in c.white <==> p in all && !Reachable(m, all, root, p)
  {
    assert Census(c)[p] == multiset(c.white)[p] + multiset(c.black)[p] <= 1;
    if Reachable(m, all, root, p) {
      var path :| Path(m, all, path) && path[0] == root && path[|path| - 1] == p;
      BlackIsClosed(m, c, root, all, path, |path| - 1);
    }
    if p in c.black {
      assert Among(p, c.black);
    }
  }

  /** How a collection ends: what it released, what is left, and how many steps did work. */
  datatype Outcome = Outcome(released: seq<Ptr>, left: Colours, steps: nat)

  /** Steps until one finds nothing gray and releases what is white. */
  function Finish(m: Memory, c: Colours): Outcome
    decreases |c.white| + |c.gray|
  {
    if c.gray == [] then Outcome(c.white, c.(white := []), 0)
    else
      VisitCensus(m, c.gray[0], c.(gray := c.gray[1..]));
      var rest := Finish(m, Step(m, c));
      rest.(steps := rest.steps + 1)
  }

  /**
   * A mark ends, blackening one object a step; what it releases is each object unreachable from
   * the root once, and what it leaves is each reachable object once, black.
   */
  lemma {:induction false} CollectsGarbage(m: Memory, c: Colours, root: Ptr, all: multiset<Ptr>)
    requires Marking(m, c, root, all)
    ensures forall p :: multiset(Finish(m, c).released)[p] == (if p in all && !Reachable(m, all, root, p) then 1 else 0)
    ensures forall p :: multiset(Finish(m, c).left.black)[p] == (if Reachable(m, all, root, p) then 1 else 0)
    ensures Finish(m, c).left.white == [] && Finish(m, c).left.gray == []
    ensures Finish(m, c).steps == |Finish(m, c).left.black| - |c.black|
    decreases |c.white| + |c.gray|
  {
    if c.gray == [] {
      forall p ensures
          multiset(c.white)[p] == (if p in all && !Reachable(m, all, root, p) then 1 else 0) &&
          multiset(c.black)[p] == (if Reachable(m, all, root, p) then 1 else 0)
      {
        WhiteIsGarbage(m, c, root, all, p);
        assert Census(c)[p] == multiset(c.white)[p] + multiset(c.black)[p] <= 1;
      }
    } else {
      StepMarks(m, c, root, all);
      CollectsGarbage(m, Step(m, c), root, all);
    }
  }

  lemma FitsInside(a: multiset<Ptr>, b: multiset<Ptr>)
    requires forall p :: a[p] <= b[p]
    ensures |a| <= |b|
  {
    assert b == a + (b - a);
  }

  lemma ConsideredSize(c: Colours, root: Ptr)
    requires c.white == [] && c.gray == [] && Once(multiset(c.black))
    ensures |Considered(c, root)| <= |c.black| + 1
    ensures forall p :: p in Considered(c, root) <==> p in c.black || p == root
  {
    assert Census(c) == multiset(c.black);
    assert forall p :: p in c.black <==> p in multiset(c.black);
  }

  /**
   * A whole collection from a quiet collector releases each registered object unreachable from the
   * root once, keeps each reachable object and ends within the number of registered objects.
   */
  lemma CycleCollects(m: Memory, c: Colours, root: Ptr)
    requires c.white == [] && c.gray == [] && Once(multiset(c.black))
    ensures forall p :: multiset(Finish(m, Begin(m, c, root)).released)[p] ==
              (if p in c.black && !Reachable(m, Considered(c, root), root, p) then 1 else 0)
    ensures forall p :: multiset(Finish(m, Begin(m, c, root)).left.black)[p] ==
              (if Reachable(m, Considered(c, root), root, p) then 1 else 0)
    ensures Finish(m, Begin(m, c, root)).left.white == [] && Finish(m, Begin(m, c, root)).left.gray == []
    ensures Finish(m, Begin(m, c, root)).steps < |Finish(m, Begin(m, c, root)).left.black| <= |c.black| + 1
  {
    hide Finish, Begin, Marking, Reachable, Considered;
    var all := Considered(c, root);
    assert Census(c) == multiset(c.black);
    BeginMarks(m, c, root);
    BeginCensus(m, c, root);
    CollectsGarbage(m, Begin(m, c, root), root, all);
    ConsideredSize(c, root);
    RootIsReachable(m, all, root);
    ReachableIsConsidered(m, all, root);
    FitsInside(multiset(Finish(m, Begin(m, c, root)).left.black), all);
  }

  lemma ReachableIsConsidered(m: Memory, all: multiset<Ptr>, root: Ptr)
    ensures forall p :: Reachable(m, all, root, p) ==> p in all
  {
    forall p | Reachable(m, all, root, p) ensures p in all {
      var path :| Path(m, all, path) && path[0] == root && path[|path| - 1] == p;
      assert path[|path| - 1] in path;
    }
  }

  // ----- what is released, without the invariant

  /** Some path of accepted edges leads from a source through white objects to p. */
  ghost predicate Graying(m: Memory, sources: seq<Ptr>, white: seq<Ptr>, path: seq<Ptr>, p: Ptr) {
    |path| >= 2 && Among(path[0], sources) && path[|path| - 1] == p &&
    (forall i :: 0 < i < |path| ==> Among(path[i], white)) &&
    forall i :: 0 < i < |path| ==> Edge(m, path[i - 1], path[i])
  }

  ghost predicate WillGray(m: Memory, sources: seq<Ptr>, white: seq<Ptr>, p: Ptr) {
    exists path :: Graying(m, sources, white, path, p)
  }

  /** Dropping the first steps of a path. */
  lemma GrayingSuffix(m: Memory, sources: seq<Ptr>, white: seq<Ptr>, path: seq<Ptr>, p: Ptr, i: nat,
                      sources': seq<Ptr>, white': seq<Ptr>)
    requires Graying(m, sources, white, path, p) && i + 1 < |path| && Among(path[i], sources')
    requires forall j :: i < j < |path| ==> Among(path[j], white')
    ensures WillGray(m, sources', white', p)
  {
    var rest := path[i..];
    forall j | 0 < j < |rest| ensures Edge(m, rest[j - 1], rest[j]) {
      assert Edge(m, path[i + j - 1], path[i + j]);
    }
    assert Graying(m, sources', white', rest, p);
  }

  /** The last position of a path, after the first, that is not in white'; 0 if there is none. */
  lemma LastOutside(path: seq<Ptr>, white: seq<Ptr>, n: nat) returns (i: nat)
    requires n < |path|
    ensures i <= n && (i > 0 ==> !Among(path[i], white)) && forall j :: i < j <= n ==> Among(path[j], white)
  {
    i := n;
    while i > 0 && Among(path[i], white)
      invariant i <= n && forall j :: i < j <= n ==> Among(path[j], white)
    {
      i := i - 1;
    }
  }

  /** No object is twice among the white and gray ones. */
  ghost predicate Pale(c: Colours) {
    Once(multiset(c.white) + multiset(c.gray))
  }

  /** The scan only depends on the white and gray objects. */
  lemma VisitShades(m: Memory, node: Ptr, c: Colours)
    requires Pale(c)
    ensures Pale(Visit(m, node, c))
    ensures forall p: Ptr :: Among(p, Visit(m, node, c).white) <==> Among(p, c.white) && !Edge(m, node, p)
    ensures forall p: Ptr :: Among(p, Visit(m, node, c).gray) <==>
      Among(p, c.gray) || (Among(p, c.white) && Edge(m, node, p))
  {
    var d := c.(black := []);
    assert Census(d) == multiset(c.white) + multiset(c.gray);
    var e := Scan(m, node, Words(m, node), d);
    ScanShades(m, node, Words(m, node), d);
    ScanKeepsCensus(m, node, Words(m, node), d);
    ScanBlack(m, node, Words(m, node), c, []);
    assert multiset(e.white) + multiset(e.gray) == Census(e);
  }

  lemma {:induction false} ScanBlack(m: Memory, node: Ptr, k: nat, c: Colours, black: seq<Ptr>)
    ensures Scan(m, node, k, c.(black := black)) == Scan(m, node, k, c).(black := black)
  {
    if k > 0 {
      ScanBlack(m, node, k - 1, c, black);
    }
  }

  /** Visiting a node changes nothing about which white objects will turn gray. */
  lemma VisitKeepsOutlook(m: Memory, node: Ptr, c: Colours, p: Ptr)
    requires Pale(c) && Among(p, c.white)
    ensures WillGray(m, [node] + c.gray, c.white, p) <==>
      !Among(p, Visit(m, node, c).white) || WillGray(m, Visit(m, node, c).gray, Visit(m, node, c).white, p)
  {
    var d := Visit(m, node, c);
    VisitShades(m, node, c);
    hide Visit, Pale, Edge;
    if path :| Graying(m, [node] + c.gray, c.white, path, p) {
      OutlookKept(m, node, c, d, path, p);
    }
    if !Among(p, d.white) {
      assert Graying(m, [node] + c.gray, c.white, [node, p], p);
    } else if path :| Graying(m, d.gray, d.white, path, p) {
      OutlookWas(m, node, c, d, path, p);
    }
  }

  /** d is c with the white objects node points to turned gray. */
  ghost predicate Shaded(m: Memory, node: Ptr, c: Colours, d: Colours) {
    (forall p: Ptr :: Among(p, d.white) <==> Among(p, c.white) && !Edge(m, node, p)) &&
    forall p: Ptr :: Among(p, d.gray) <==> Among(p, c.gray) || (Among(p, c.white) && Edge(m, node, p))
  }

  lemma OutlookKept(m: Memory, node: Ptr, c: Colours, d: Colours, path: seq<Ptr>, p: Ptr)
    requires Shaded(m, node, c, d) && Graying(m, [node] + c.gray, c.white, path, p)
    ensures !Among(p, d.white) || WillGray(m, d.gray, d.white, p)
  {
    var i := LastOutside(path, d.white, |path| - 1);
    if i < |path| - 1 {
      assert Edge(m, path[0], path[1]);
      assert Among(path[1], c.white);
      if i > 0 || path[0] != node {
        assert Among(path[i], d.gray);
        GrayingSuffix(m, [node] + c.gray, c.white, path, p, i, d.gray, d.white);
      }
    }
  }

  lemma OutlookWas(m: Memory, node: Ptr, c: Colours, d: Colours, path: seq<Ptr>, p: Ptr)
    requires Shaded(m, node, c, d) && Graying(m, d.gray, d.white, path, p)
    ensures WillGray(m, [node] + c.gray, c.white, p)
  {
    if Among(path[0], c.gray) {
      assert Graying(m, [node] + c.gray, c.white, path, p);
    } else {
      var longer := [node] + path;
      forall j | 0 < j < |longer| ensures Edge(m, longer[j - 1], longer[j]) {
        if j > 1 {
          assert Edge(m, path[j - 2], path[j - 1]);
        }
      }
      assert Graying(m, [node] + c.gray, c.white, longer, p);
    }
  }

  lemma NothingGrays(m: Memory, white: seq<Ptr>, p: Ptr)
    ensures !WillGray(m, [], white, p)
  {
  }

  lemma PalePop(c: Colours)
    requires Pale(c) && c.gray != []
    ensures Pale(c.(gray := c.gray[1..]))
  {
    var d := c.(gray := c.gray[1..]);
    assert c.gray == [c.gray[0]] + d.gray;
    assert multiset(c.gray) == multiset{c.gray[0]} + multiset(d.gray);
    forall q ensures (multiset(d.white) + multiset(d.gray))[q] <= 1 {
      assert (multiset(c.white) + multiset(c.gray))[q] <= 1;
    }
  }

  /**
   * In any memory, whatever the colours have come to be, an object is released exactly when it is
   * white and no path leads to it from a gray object through white ones.
   */
  lemma {:induction false} ReleasedIff(m: Memory, c: Colours, p: Ptr)
    requires Pale(c)
    ensures Among(p, Finish(m, c).released) <==> Among(p, c.white) && !WillGray(m, c.gray, c.white, p)
    decreases |c.white| + |c.gray|
  {
    hide Pale, Census, Visit, WillGray;
    if c.gray == [] {
      NothingGrays(m, c.white, p);
    } else {
      var node := c.gray[0];
      var d := c.(gray := c.gray[1..]);
      assert c.gray == [node] + d.gray;
      PalePop(c);
      VisitCensus(m, node, d);
      VisitShades(m, node, d);
      ReleasedIff(m, Step(m, c), p);
      if Among(p, c.white) {
        VisitKeepsOutlook(m, node, d, p);
      }
    }
  }

  // ----- memory that changes during a mark

  /**
   * The objects keep their colours while the memory changes. What the rest of the mark then keeps of
   * all that the root reaches is all of it exactly when each such object that is white can be reached
   * from a gray one through white ones.
   */
  lemma SafeIff(n: Memory, c: Colours, all: multiset<Ptr>, root: Ptr)
    requires Pale(c)
    ensures (forall p: Ptr :: Reachable(n, all, root, p) ==> !Among(p, Finish(n, c).released)) <==>
            (forall p: Ptr :: Reachable(n, all, root, p) && Among(p, c.white) ==> WillGray(n, c.gray, c.white, p))
  {
    forall p: Ptr
      ensures Among(p, Finish(n, c).released) <==> Among(p, c.white) && !WillGray(n, c.gray, c.white, p)
    {
      ReleasedIff(n, c, p);
    }
  }

  /** A memory of 32-byte blocks from 32 on, of which the first and the third hold a pointer each. */
  function Blocks(first: nat, third: nat): Memory {
    a => if a == 48 then first else if a == 112 then third else if a % 32 == 0 && 32 <= a <= 160 then 32 else 0
  }

  lemma BlockEdges(first: nat, third: nat, q: Ptr)
    requires q != 32
    ensures Edge(Blocks(first, third), 48, q) <==> q == first && !(48 <= q <= 80)
    ensures Edge(Blocks(first, third), 112, q) <==> q == third && !(112 <= q <= 144)
  {
    var m := Blocks(first, third);
    assert Words(m, 48) == 4 && Words(m, 112) == 4;
    assert Word(m, 48, 0) == first && Word(m, 48, 1) == 0 && Word(m, 48, 2) == 32 && Word(m, 48, 3) == 0;
    assert Word(m, 112, 0) == third && Word(m, 112, 1) == 0 && Word(m, 112, 2) == 32 && Word(m, 112, 3) == 0;
  }

  /** Three registered objects, the first of which is the root of a mark just begun and points to the second. */
  lemma FirstScan(third: nat) returns (c: Colours)
    ensures c == Begin(Blocks(112, third), Colours([], [], [48, 176, 112]), 48) && Once(Census(c))
    ensures forall p: Ptr :: (Among(p, c.white) <==> p == 176) && (Among(p, c.gray) <==> p == 112)
    ensures 32 !in Census(c)
  {
    var m := Blocks(112, third);
    var was := Colours([], [], [48, 176, 112]);
    ThreeOnce(was);
    hide Edge, Census, Visit, Begin, Marking, Once;
    c := Begin(m, was, 48);
    BeginMarks(m, was, 48);
    BeginCensus(m, was, 48);
    var w := BeginWhite(m, was, 48);
    VisitShades(m, 48, w);
    BlockEdges(112, third, 112);
    BlockEdges(112, third, 176);
  }

  lemma ThreeOnce(c: Colours)
    requires c == Colours([], [], [48, 176, 112])
    ensures Once(Census(c)) && 32 !in Census(c)
  {
  }

  /**
   * There is no write barrier. The root 48 points to 112 and 112 to 176; if after the root is scanned
   * the pointer to 176 moves from 112 to 48, then 176 is released while the root points to it.
   */
  lemma MutationLosesObject()
    ensures exists c: Colours :: c == Begin(Blocks(112, 176), Colours([], [], [48, 176, 112]), 48) &&
              Edge(Blocks(176, 0), 48, 176) && 176 in Finish(Blocks(176, 0), c).released
  {
    var n := Blocks(176, 0);
    var c := FirstScan(176);
    PaleOfOnce(c);
    BlockEdges(176, 0, 176);
    ReleasedIff(n, c, 176);
    NoWayIn(n, c.gray, c.white, 176);
    assert Among(176, Finish(n, c).released);
  }

  lemma NoWayIn(m: Memory, sources: seq<Ptr>, white: seq<Ptr>, p: Ptr)
    requires forall a: Ptr, b: Ptr :: Among(a, sources) && Among(b, white) ==> !Edge(m, a, b)
    ensures !WillGray(m, sources, white, p)
  {
    forall path: seq<Ptr> ensures !Graying(m, sources, white, path, p) {
      if |path| >= 2 {
        assert !(Among(path[0], sources) && Among(path[1], white) && Edge(m, path[0], path[1]));
      }
    }
  }

  lemma PaleOfOnce(c: Colours)
    requires Once(Census(c))
    ensures Pale(c)
  {
    forall p ensures (multiset(c.white) + multiset(c.gray))[p] <= 1 {
      assert Census(c)[p] <= 1;
    }
  }

  /**
   * The payload of the block that follows p begins where p's size ends, and the scan skips that value:
   * a pointer to the next block is never followed.
   */
  lemma NextBlockIsNotFollowed(m: Memory, p: Ptr, q: Ptr)
    requires q == p + Size(m, p)
    ensures !Edge(m, p, q)
  {
  }

  // ----- a mark begun before the last one has ended

  lemma BeginWhite(m: Memory, c: Colours, root: Ptr) returns (w: Colours)
    requires Once(Census(c))
    ensures Begin(m, c, root) == Visit(m, root, w) && Pale(w) && w.gray == []
    ensures forall p: Ptr :: Among(p, w.white) <==>
              p in c.white || p in c.gray || (p in c.black && p != root)
  {
    var v := Poured(c.gray, c.white, {});
    w := Colours(Poured(c.black, v, {root}), [], []);
    PouredCensus(c.gray, c.white, {});
    PouredCensus(c.black, v, {root});
    assert forall p: Ptr :: multiset(w.white)[p] <= Census(c)[p];
    forall p: Ptr ensures Among(p, w.white) <==> p in c.white || p in c.gray || (p in c.black && p != root) {
      assert p in w.white <==> p in multiset(w.white);
    }
  }

  /** Accepted edges lead from the root through registered objects to p, in one step or more. */
  ghost predicate LeadsTo(m: Memory, c: Colours, root: Ptr, p: Ptr) {
    exists path :: Path(m, Census(c)[root := 1], path) && |path| >= 2 && path[0] == root && path[|path| - 1] == p
  }

  lemma LeadsIsGraying(m: Memory, c: Colours, root: Ptr, white: seq<Ptr>, p: Ptr)
    requires forall q: Ptr :: Among(q, white) <==> q in Census(c) && (q != root || q in c.white || q in c.gray)
    requires p in white
    ensures LeadsTo(m, c, root, p) <==> WillGray(m, [root], white, p)
  {
    var all := Census(c)[root := 1];
    if path :| Graying(m, [root], white, path, p) {
      forall q | q in path ensures q in all {
        var i :| 0 <= i < |path| && path[i] == q;
        assert i > 0 ==> Among(path[i], white);
      }
      assert Path(m, all, path);
    }
    if path :| Path(m, all, path) && |path| >= 2 && path[0] == root && path[|path| - 1] == p {
      LeadsGrays(m, all, root, white, path, p);
    }
  }

  /** Of a path back and forth through the root, the part after its last visit there will do. */
  lemma LeadsGrays(m: Memory, all: multiset<Ptr>, root: Ptr, white: seq<Ptr>, path: seq<Ptr>, p: Ptr)
    requires Path(m, all, path) && |path| >= 2 && path[0] == root && path[|path| - 1] == p && Among(p, white)
    requires forall q :: q in all && q != root ==> Among(q, white)
    ensures WillGray(m, [root], white, p)
  {
    var i := LastOutside(path, white, |path| - 1);
    assert path[i] in all;
    assert path[i] == root;
    var rest := path[i..];
    forall j | 0 < j < |rest| ensures Edge(m, rest[j - 1], rest[j]) {
      assert Edge(m, path[i + j - 1], path[i + j]);
    }
    assert Graying(m, [root], white, rest, p);
  }

  /**
   * Whenever a mark from root begins, finished last mark or not, it releases exactly the registered
   * objects no path of accepted edges leads to from the root. The root itself is among the objects at
   * risk if and only if it was still white or gray.
   */
  lemma BeginReleases(m: Memory, c: Colours, root: Ptr, p: Ptr)
    requires Once(Census(c))
    ensures p in Finish(m, Begin(m, c, root)).released <==>
            (p in c.white || p in c.gray || (p in c.black && p != root)) && !LeadsTo(m, c, root, p)
  {
    var w := BeginWhite(m, c, root);
    VisitShades(m, root, w);
    ReleasedIff(m, Visit(m, root, w), p);
    if Among(p, w.white) {
      VisitKeepsOutlook(m, root, w, p);
      LeadsIsGraying(m, c, root, w.white, p);
      assert [root] + [] == [root];
    }
  }

  /** So a mark releases its own root exactly when the root was white or gray and no cycle leads back to it. */
  lemma RootReleasedIff(m: Memory, c: Colours, root: Ptr)
    requires Once(Census(c))
    ensures root in Finish(m, Begin(m, c, root)).released <==>
            (root in c.white || root in c.gray) && !LeadsTo(m, c, root, root)
  {
    BeginReleases(m, c, root, root);
  }

  /** So an object that only the block before it points to is released, reachable or not. */
  lemma NeighbourIsReleased(m: Memory, c: Colours, root: Ptr, p: Ptr, q: Ptr)
    requires Once(Census(c)) && q in c.black && q != root && q == p + Size(m, p)
    requires forall o: Ptr :: o in Census(c)[root := 1] && o != p ==> !Edge(m, o, q)
    ensures q in Finish(m, Begin(m, c, root)).released
  {
    BeginReleases(m, c, root, q);
    NextBlockIsNotFollowed(m, p, q);
    forall path: seq<Ptr> ensures !(Path(m, Census(c)[root := 1], path) && |path| >= 2 && path[|path| - 1] == q) {
      if Path(m, Census(c)[root := 1], path) && |path| >= 2 {
        assert Edge(m, path[|path| - 2], path[|path| - 1]) && path[|path| - 2] in path;
      }
    }
  }

  /** The root 48 holds a pointer to 80, the payload of the block behind it, and 80 is released. */
  lemma NextBlockIsLost()
    ensures var m := Blocks(80, 0);
      Word(m, 48, 0) == 80 && 0 < Words(m, 48) && 80 in Finish(m, Begin(m, Colours([], [], [48, 80]), 48)).released
  {
    var m, c := Blocks(80, 0), Colours([], [], [48, 80]);
    assert Once(Census(c)) && Census(c)[48 := 1] == multiset{48, 80};
    assert !Edge(m, 80, 80);
    NeighbourIsReleased(m, c, 48, 48, 80);
  }

  /** 48 points to 112, and 112 becomes the root before the mark from 48 has ended: it is released. */
  lemma RestartReleasesRoot()
    ensures exists c: Colours :: c == Begin(Blocks(112, 0), Colours([], [], [48, 176, 112]), 48) &&
              112 in Finish(Blocks(112, 0), Begin(Blocks(112, 0), c, 112)).released
  {
    var m := Blocks(112, 0);
    var c := FirstScan(0);
    assert Among(112, c.gray);
    RootReleasedIff(m, c, 112);
    if path :| Path(m, Census(c)[112 := 1], path) && |path| >= 2 && path[0] == 112 && path[|path| - 1] == 112 {
      assert Edge(m, path[0], path[1]);
      assert path[1] in path;
      BlockEdges(112, 0, path[1]);
    }
  }

  // ----- the collector itself

  lemma {:induction false} WithoutAt(s: seq<Ptr>, v: nat, i: nat)
    requires i <= |s| && v !in s[..i]
    ensures i == |s| ==> v !in s
    ensures i < |s| && s[i] == v ==> WithoutFirst(s, v) == s[..i] + s[i + 1..]
  {
    if i > 0 {
      assert s[0] in s[..i];
      var t, j := s[1..], i - 1;
      assert t[..j] == s[..i][1..];
      WithoutAt(t, v, j);
      if i == |s| {
        assert s == s[..i];
      } else if s[i] == v {
        assert WithoutFirst(s, v) == [s[0]] + WithoutFirst(t, v);
        hide WithoutFirst;
        assert t[j + 1..] == s[i + 1..] && [s[0]] + t[..j] == s[..i];
        assert [s[0]] + (t[..j] + s[i + 1..]) == [s[0]] + t[..j] + s[i + 1..];
      }
    }
  }

  class Collector {
    var white: seq<Ptr>
    var gray: seq<Ptr>
    var black: seq<Ptr>
    var memory: Memory
    /** The objects given to release, in order. */
    var released: seq<Ptr>

    ghost function View(): Colours
      reads this
    {
      Colours(white, gray, black)
    }

    method Register(p: nat)
      requires p == 0 || p >= HEADER
      modifies this`black
      ensures black == if p == 0 then old(black) else [p as Ptr] + old(black)
    {
      if p != 0 {
        black := [p as Ptr] + black;
      }
    }

    method ShadeWord(v: nat)
      modifies this`white, this`gray
      ensures View() == Shade(old(View()), v)
    {
      var i := 0;
      while i < |white|
        invariant i <= |white| && white == old(white) && gray == old(gray)
        invariant v !in white[..i]
      {
        WithoutAt(white, v, i);
        if white[i] == v {
          gray := [white[i]] + gray;
          white := white[..i] + white[i + 1..];
          return;
        }
        assert white[..i + 1] == white[..i] + [white[i]];
        i := i + 1;
      }
      WithoutAt(white, v, |white|);
    }

    /**
     * gc.c first looks for node on the gray list and calls for its removal, but hands over the object in
     * place of its list node; no list node is an object, so that loop changes nothing and is left out.
     */
    method VisitNode(node: Ptr)
      modifies this`white, this`gray, this`black
      ensures View() == Visit(memory, node, old(View()))
    {
      var size := memory(node - HEADER);
      var i: nat := 0;
      ghost var k: nat := 0;
      while i < size
        invariant i == 8 * k && k <= Words(memory, node)
        invariant View() == Scan(memory, node, k, old(View()))
        decreases size - i
      {
        var v := memory(node + i);
        assert v == Word(memory, node, k);
        k := k + 1;
        if Accepts(memory, node, v) {
          ShadeWord(v);
        }
        i := i + 8;
      }
      black := [node] + black;
    }

    method Run(root: Ptr)
      modifies this`white, this`gray, this`black
      ensures View() == Begin(memory, old(View()), root)
    {
      while gray != []
        invariant black == old(black)
        invariant Poured(gray, white, {}) == Poured(old(gray), old(white), {})
        decreases |gray|
      {
        white, gray := [gray[0]] + white, gray[1..];
      }
      ghost var w := white;
      while black != []
        invariant gray == []
        invariant Poured(black, white, {root}) == Poured(old(black), w, {root})
        decreases |black|
      {
        if black[0] != root {
          white := [black[0]] + white;
        }
        black := black[1..];
      }
      VisitNode(root);
    }

    method CollectCondemned()
      modifies this`white, this`released
      ensures white == [] && released == old(released) + old(white)
    {
      while white != []
        invariant released + white == old(released) + old(white)
        decreases |white|
      {
        released := released + [white[0]];
        white := white[1..];
      }
    }

    method RunNext() returns (more: bool)
      modifies this`white, this`gray, this`black, this`released
      ensures more <==> old(gray) != []
      ensures more ==> View() == Step(memory, old(View())) && released == old(released)
      ensures !more ==> View() == old(View()).(white := []) && released == old(released) + old(white)
    {
      if gray == [] {
        CollectCondemned();
        return false;
      }
      var node := gray[0];
      gray := gray[1..];
      VisitNode(node);
      return true;
    }

    /** A whole collection, as a caller makes it: a mark is begun, and stepped until a step says it is over. */
    method Collect(root: Ptr)
      modifies this`white, this`gray, this`black, this`released
      ensures View() == Finish(memory, Begin(memory, old(View()), root)).left
      ensures released == old(released) + Finish(memory, Begin(memory, old(View()), root)).released
    {
      Run(root);
      ghost var begun := View();
      var more := true;
      while more
        invariant more ==> released == old(released)
        invariant more ==> Finish(memory, View()).left == Finish(memory, begun).left
        invariant more ==> Finish(memory, View()).released == Finish(memory, begun).released
        invariant !more ==> View() == Finish(memory, begun).left
        invariant !more ==> released == old(released) + Finish(memory, begun).released
        decreases if more then 1 + |white| + |gray| else 0
      {
        if gray != [] {
          VisitCensus(memory, gray[0], View().(gray := gray[1..]));
        }
        more := RunNext();
      }
    }
  }
}
