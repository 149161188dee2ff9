/** The decoding tree of a canonical prefix code, built in the heap. */
module DecodeTree {
  import opened Bits
  import opened CanonicalCodes
  import opened HuffNodes

  /** A tree of entries without its addresses. */
  datatype Trie = Gap | Fork(entry: nat, l: Trie, r: Trie)

  ghost function Erase(s: Shape): Trie {
    match s
    case Nil => Gap
    case Cell(_, e, _, l, r) => Fork(e, Erase(l), Erase(r))
  }

  /** Where a walk along path ends; Gap once it leaves the tree. */
  function At(t: Trie, path: seq<bool>): Trie
    decreases path
  {
    if path == [] || t.Gap? then t else At(if path[0] then t.r else t.l, path[1..])
  }

  function OrNew(t: Trie): (r: Trie)
    ensures r.Fork?
  {
    if t.Gap? then Fork(0, Gap, Gap) else t
  }

  /** The tree with v stored at the end of path, nodes added on the way as needed. */
  function Planted(t: Trie, path: seq<bool>, v: nat): (r: Trie)
    requires t.Fork?
    ensures r.Fork?
    decreases path
  {
    if path == [] then Fork(v, t.l, t.r)
    else if path[0] then Fork(t.entry, t.l, Planted(OrNew(t.r), path[1..], v))
    else Fork(t.entry, Planted(OrNew(t.l), path[1..], v), t.r)
  }

  // ---------- Planting ----------

  lemma {:induction false} AtGap(path: seq<bool>)
    ensures At(Gap, path) == Gap
  {}

  lemma {:induction false} AtNew(t: Trie, q: seq<bool>)
    requires q != []
    ensures At(OrNew(t), q) == At(t, q)
  {
    AtGap(q[1..]);
  }

  /** A walk that neither ends on the way to path nor goes beyond it is as before. */
  lemma {:induction false} PlantedElsewhere(t: Trie, path: seq<bool>, v: nat, q: seq<bool>)
    requires t.Fork? && !(q <= path) && !(path <= q)
    ensures At(Planted(t, path, v), q) == At(t, q)
    decreases path
  {
    if q[0] == path[0] {
      var c := if q[0] then t.r else t.l;
      assert q == [q[0]] + q[1..] && path == [path[0]] + path[1..];
      PlantedElsewhere(OrNew(c), path[1..], v, q[1..]);
      AtNew(c, q[1..]);
    }
  }

  /** Beyond path only what was there before. */
  lemma {:induction false} PlantedBeyond(t: Trie, path: seq<bool>, v: nat, q: seq<bool>)
    requires t.Fork? && path <= q
    ensures At(t, path).Gap? ==> At(Planted(t, path, v), q) == if q == path then Fork(v, Gap, Gap) else Gap
    decreases path
  {
    if path == [] {
    } else {
      var c := if q[0] then t.r else t.l;
      assert q[0] == path[0];
      assert path[1..] <= q[1..];
      if c.Gap? {
        NewBeyond(path[1..], v, q[1..]);
      } else {
        PlantedBeyond(c, path[1..], v, q[1..]);
      }
      assert q == [q[0]] + q[1..] && path == [path[0]] + path[1..];
    }
  }

  lemma {:induction false} NewBeyond(path: seq<bool>, v: nat, q: seq<bool>)
    requires path <= q
    ensures At(Planted(Fork(0, Gap, Gap), path, v), q) == if q == path then Fork(v, Gap, Gap) else Gap
    decreases path
  {
    if path == [] {
      if q != [] {
        AtGap(q[1..]);
      }
    } else {
      assert q[0] == path[0] && path[1..] <= q[1..];
      NewBeyond(path[1..], v, q[1..]);
      assert q == [q[0]] + q[1..] && path == [path[0]] + path[1..];
    }
  }

  // ---------- Trees that decode ----------

  ghost predicate OnTheWay(lengths: seq<nat>, n: nat, q: seq<bool>)
    requires n <= |lengths|
  {
    exists i :: 0 <= i < n && lengths[i] > 0 && q <= Word(lengths, i)
  }

  /** The words of the first n symbols, and only they, lead to leaves, and each to its own symbol. */
  ghost predicate Decodes(t: Trie, lengths: seq<nat>, n: nat)
    requires n <= |lengths|
  {
    && t.Fork?
    && (forall i :: 0 <= i < n && lengths[i] > 0 ==> At(t, Word(lengths, i)) == Fork(i, Gap, Gap))
    && (forall q :: At(t, q).Fork? ==> q == [] || OnTheWay(lengths, n, q))
  }

  lemma {:induction false} DecodesNothing(lengths: seq<nat>)
    ensures Decodes(Fork(0, Gap, Gap), lengths, 0)
  {
    forall q | At(Fork(0, Gap, Gap), q).Fork? ensures q == [] {
      if q != [] {
        AtGap(q[1..]);
      }
    }
  }

  /** The place of the next word is still free, so planting it overwrites nothing and ends at a leaf. */
  lemma PlaceIsFree(t: Trie, lengths: seq<nat>, m: nat, n: nat)
    requires Kraft(lengths, m) && n < |lengths| && lengths[n] > 0 && Decodes(t, lengths, n)
    ensures At(t, Word(lengths, n)).Gap?
  {
    var w := Word(lengths, n);
    if At(t, w).Fork? {
      var i :| 0 <= i < n && lengths[i] > 0 && w <= Word(lengths, i);
      PrefixFree(lengths, m, n, i);
    }
  }

  lemma {:induction false} DecodesNext(t: Trie, lengths: seq<nat>, m: nat, n: nat, t': Trie)
    requires Kraft(lengths, m) && n < |lengths| && lengths[n] > 0 && Decodes(t, lengths, n)
    requires t' == Planted(t, Word(lengths, n), n)
    ensures Decodes(t', lengths, n + 1)
  {
    hide Planted, Word, Kraft, At;
    var w := Word(lengths, n);
    PlaceIsFree(t, lengths, m, n);
    PlantedBeyond(t, w, n, w);
    forall i | 0 <= i < n && lengths[i] > 0 ensures At(t', Word(lengths, i)) == Fork(i, Gap, Gap) {
      PrefixFree(lengths, m, i, n);
      PrefixFree(lengths, m, n, i);
      PlantedElsewhere(t, w, n, Word(lengths, i));
    }
    forall q | At(t', q).Fork? ensures q == [] || OnTheWay(lengths, n + 1, q) {
      if w <= q {
        PlantedBeyond(t, w, n, q);
      } else if !(q <= w) {
        PlantedElsewhere(t, w, n, q);
        var i :| 0 <= i < n && lengths[i] > 0 && q <= Word(lengths, i);
      }
    }
  }

  lemma WayGrows(lengths: seq<nat>, n: nat, q: seq<bool>)
    requires n < |lengths| && OnTheWay(lengths, n, q)
    ensures OnTheWay(lengths, n + 1, q)
  {
    var i :| 0 <= i < n && lengths[i] > 0 && q <= Word(lengths, i);
    assert i < n + 1;
  }

  lemma DecodesSkip(t: Trie, lengths: seq<nat>, n: nat)
    requires n < |lengths| && lengths[n] == 0 && Decodes(t, lengths, n)
    ensures Decodes(t, lengths, n + 1)
  {
    hide At, Word, OnTheWay;
    forall q | At(t, q).Fork? ensures q == [] || OnTheWay(lengths, n + 1, q) {
      if q != [] {
        WayGrows(lengths, n, q);
      }
    }
  }

  /** The walk along w ends at a leaf that holds v. */
  predicate Leads(t: Trie, w: seq<bool>, v: nat) {
    At(t, w) == Fork(v, Gap, Gap)
  }

  /** Before its end a word only passes inner nodes. */
  lemma InnerOnTheWay(t: Trie, w: seq<bool>, v: nat, k: nat, c: Trie)
    requires Leads(t, w, v) && k <= |w| && c == At(t, w[..k])
    ensures c.Fork? && (c.l.Gap? && c.r.Gap? <==> k == |w|)
    ensures if k == |w| then c.entry == v else At(t, w[..k + 1]) == if w[k] then c.r else c.l
  {
    PrefixForks(t, w, k);
    if k < |w| {
      PrefixForks(t, w, k + 1);
      StepAt(t, w, k);
    } else {
      assert w[..k] == w;
    }
  }

  lemma {:induction false} PrefixForks(t: Trie, w: seq<bool>, k: nat)
    requires k <= |w| && At(t, w).Fork?
    ensures At(t, w[..k]).Fork?
    decreases w
  {
    if k > 0 {
      var c := if w[0] then t.r else t.l;
      PrefixForks(c, w[1..], k - 1);
      assert w[..k][1..] == w[1..][..k - 1];
    } else {
      AtGap(w);
    }
  }

  lemma {:induction false} StepAt(t: Trie, w: seq<bool>, k: nat)
    requires k < |w| && At(t, w[..k]).Fork?
    ensures At(t, w[..k + 1]) == var c := At(t, w[..k]); if w[k] then c.r else c.l
    decreases k
  {
    if k == 0 {
      assert w[..1][1..] == [];
    } else {
      var c := if w[0] then t.r else t.l;
      assert w[..k][1..] == w[1..][..k - 1] && w[..k + 1][1..] == w[1..][..k];
      assert w[..k][0] == w[0] == w[..k + 1][0];
      if t.Fork? {
        StepAt(c, w[1..], k - 1);
      }
    }
  }

  // ---------- Codes of 16 bits ----------

  const U16: nat := 0x1_0000

  function Low16(x: nat): (r: nat)
    ensures r < U16
  {
    x % U16
  }

  /** The code of symbol i as it is kept, in 16 bits. */
  function KeptWord(lengths: seq<nat>, i: nat): seq<bool>
    requires i < |lengths| && lengths[i] > 0
  {
    CodeBits(Low16(Code(lengths, i)), lengths[i])
  }

  /** The tree once the first n symbols have been planted under the codes as they are kept. */
  function Built(lengths: seq<nat>, n: nat): (t: Trie)
    requires n <= |lengths|
    ensures t.Fork?
  {
    if n == 0 then Fork(0, Gap, Gap)
    else if lengths[n - 1] == 0 then Built(lengths, n - 1)
    else Planted(Built(lengths, n - 1), KeptWord(lengths, n - 1), n - 1)
  }

  /** No code of the first n symbols needs more than 16 bits. */
  predicate Narrow(lengths: seq<nat>, n: nat)
    requires n <= |lengths|
  {
    forall i {:trigger Code(lengths, i)} :: 0 <= i < n && lengths[i] > 0 ==> Code(lengths, i) < U16
  }

  lemma Pow2Sixteen()
    ensures Pow2(16) == U16
  {
    assert Pow2(4) == 16;
    assert Pow2(8) == 256;
    assert Pow2(12) == 4096;
  }

  lemma Pow2Seventeen()
    ensures Pow2(17) == 2 * Pow2(16) && Pow2(0) == 1
  {}

  /** Up to 16 bits every code is kept whole. */
  lemma SixteenIsNarrow(lengths: seq<nat>, max: nat)
    requires Kraft(lengths, max) && max <= 16
    ensures Narrow(lengths, |lengths|)
  {
    hide Code, Pow2;
    forall i {:trigger Code(lengths, i)} | 0 <= i < |lengths| && lengths[i] > 0 ensures Code(lengths, i) < U16 {
      CodeFits(lengths, max, i);
      Pow2Mono(lengths[i], 16);
      Pow2Sixteen();
    }
  }

  /** One code of 17 bits beside one of a single bit: it is 2^16, and is kept as 0. */
  lemma SeventeenIsNot()
    ensures Kraft([1, 17], 17) && !Narrow([1, 17], 2)
  {
    var lengths := [1, 17];
    Pow2Sixteen();
    KraftSumOfTwo(lengths);
    assert Code(lengths, 1) == Pow2(16) by {
      Taken1(lengths, 16);
    }
  }

  lemma KraftSumOfTwo(lengths: seq<nat>)
    requires lengths == [1, 17]
    ensures Kraft(lengths, 17)
  {
    hide Pow2;
    Pow2Seventeen();
    assert KraftSum(lengths, 17, 1) == Pow2(16);
    assert KraftSum(lengths, 17, 2) == Pow2(16) + Pow2(0);
  }

  /** Up to 16 bits only the code of a single bit takes anything up. */
  lemma {:induction false} Taken1(lengths: seq<nat>, b: nat)
    requires lengths == [1, 17] && 1 <= b <= 16
    ensures Taken(lengths, b, 2) == Pow2(b - 1)
  {
    assert Count(lengths, b, 1) == if b == 1 then 1 else 0;
    assert Count(lengths, b, 2) == Count(lengths, b, 1);
    if b > 1 {
      Taken1(lengths, b - 1);
    }
  }

  lemma {:induction false} BuiltDecodes(lengths: seq<nat>, m: nat, n: nat)
    requires Kraft(lengths, m) && n <= |lengths| && Narrow(lengths, n)
    ensures Decodes(Built(lengths, n), lengths, n)
  {
    hide Decodes, Kraft, Planted, Code, CodeBits;
    if n == 0 {
      DecodesNothing(lengths);
    } else {
      BuiltDecodes(lengths, m, n - 1);
      if lengths[n - 1] == 0 {
        DecodesSkip(Built(lengths, n - 1), lengths, n - 1);
      } else {
        assert Code(lengths, n - 1) < U16;
        DecodesNext(Built(lengths, n - 1), lengths, m, n - 1, Built(lengths, n));
      }
    }
  }

  /** A leaf is the one just planted or was there before. */
  lemma {:induction false} PlantedLeaf(t: Trie, path: seq<bool>, v: nat, q: seq<bool>, e: nat)
    requires t.Fork? && At(Planted(t, path, v), q) == Fork(e, Gap, Gap)
    ensures (q == path && e == v) || (q != [] && At(t, q) == Fork(e, Gap, Gap))
    decreases path
  {
    if path != [] && q != [] && q[0] == path[0] {
      var c := if q[0] then t.r else t.l;
      assert q == [q[0]] + q[1..] && path == [path[0]] + path[1..];
      PlantedLeaf(OrNew(c), path[1..], v, q[1..], e);
      if q[1..] != [] {
        AtNew(c, q[1..]);
      }
    }
  }

  lemma NothingBelow(q: seq<bool>)
    requires q != []
    ensures At(Fork(0, Gap, Gap), q) == Gap
  {
    AtGap(q[1..]);
  }

  /** Below the root every leaf holds a symbol at the end of its kept word. */
  lemma {:induction false} LeafIsKept(lengths: seq<nat>, n: nat, q: seq<bool>, e: nat)
    requires n <= |lengths| && q != [] && At(Built(lengths, n), q) == Fork(e, Gap, Gap)
    ensures e < n && lengths[e] > 0 && q == KeptWord(lengths, e)
  {
    hide Planted, KeptWord;
    NothingBelow(q);
    if n == 0 {
      assert false;
    } else if lengths[n - 1] == 0 {
      LeafIsKept(lengths, n - 1, q, e);
    } else {
      PlantedLeaf(Built(lengths, n - 1), KeptWord(lengths, n - 1), n - 1, q, e);
      if At(Built(lengths, n - 1), q) == Fork(e, Gap, Gap) {
        LeafIsKept(lengths, n - 1, q, e);
      }
    }
  }

  /** The tree decodes exactly when no code needs more than the 16 bits it is kept in. */
  lemma BuiltIff(lengths: seq<nat>, m: nat)
    requires Kraft(lengths, m)
    ensures Decodes(Built(lengths, |lengths|), lengths, |lengths|) <==> Narrow(lengths, |lengths|)
  {
    hide Kraft, Code, CodeBits, Built, At;
    var n := |lengths|;
    if Narrow(lengths, n) {
      BuiltDecodes(lengths, m, n);
    } else if Decodes(Built(lengths, n), lengths, n) {
      var i :| 0 <= i < n && lengths[i] > 0 && Code(lengths, i) >= U16;
      assert At(Built(lengths, n), Word(lengths, i)) == Fork(i, Gap, Gap);
      LeafIsKept(lengths, n, Word(lengths, i), i);
      CodeFits(lengths, m, i);
      Remainder16(Code(lengths, i));
      CodeBitsInjective(Code(lengths, i), Low16(Code(lengths, i)), lengths[i]);
    }
  }

  lemma Remainder16(c: nat)
    ensures Low16(c) <= c
  {}

  // ---------- In the heap ----------

  ghost function Side(s: Shape, right: bool): Shape
    requires s.Cell?
  {
    if right then s.r else s.l
  }

  /** The child on one side, made if there is none. */
  method Child(root: HuffNode, right: bool, ghost s: Shape) returns (child: HuffNode, ghost s': Shape)
    requires s.Cell? && Linked(s, root) && Distinct(s)
    modifies root
    ensures s'.Cell? && Linked(s', root) && Distinct(s') && Nodes(s) <= Nodes(s') && fresh(Nodes(s') - Nodes(s))
    ensures Side(s', right).Cell? && Side(s', right).n == child && Side(s', !right) == Side(s, !right) && s'.entry == s.entry
    ensures Erase(Side(s', right)) == OrNew(Erase(Side(s, right)))
  {
    assert allocated(Nodes(s.l)) && allocated(Nodes(s.r));
    var c := if right then root.right else root.left;
    if c != null {
      child, s' := c, s;
      return;
    }
    child := new HuffNode();
    assert allocated(Nodes(s.l)) && allocated(Nodes(s.r));
    if right {
      root.right := child;
      s' := s.(r := Cell(child, 0, 0, Nil, Nil));
    } else {
      root.left := child;
      s' := s.(l := Cell(child, 0, 0, Nil, Nil));
    }
  }

  /** huffman_populate: stores value at the end of the code's path; clean is false where the source reports an error. */
  method Populate(root: HuffNode, code: nat, codeLen: nat, value: nat, ghost s: Shape) returns (clean: bool, ghost s': Shape)
    requires s.Cell? && Linked(s, root) && Distinct(s)
    modifies Nodes(s)
    ensures s'.Cell? && Linked(s', root) && Distinct(s') && Nodes(s) <= Nodes(s') && fresh(Nodes(s') - Nodes(s))
    ensures Erase(s') == Planted(Erase(s), CodeBits(code, codeLen), value)
    ensures clean == Vacant(At(Erase(s), CodeBits(code, codeLen)))
    decreases codeLen
  {
    if codeLen == 0 {
      clean := root.entry == 0 && root.right == null && root.left == null;
      assert allocated(Nodes(s.l)) && allocated(Nodes(s.r));
      root.entry := value;
      s' := s.(entry := value);
      return;
    }
    CodeBitsFront(code, codeLen);
    BitByShift(code, codeLen - 1);
    var right := Shr(code, codeLen - 1) % 2 == 1;
    ghost var s1, c';
    var child;
    child, s1 := Child(root, right, s);
    assert allocated(Nodes(Side(s1, !right)));
    label before:
    clean, c' := Populate(child, code, codeLen - 1, value, Side(s1, right));
    ghost var added := Nodes(c') - Nodes(Side(s1, right));
    s' := if right then s1.(r := c') else s1.(l := c');
    assert Nodes(s') == Nodes(s1) + added;
    forall x | x in added ensures fresh(x) {
      assert fresh@before(x);
      assert old(allocated(x)) ==> old@before(allocated(x));
    }
    forall x | x in Nodes(s') - Nodes(s) ensures fresh(x) {
      assert x in Nodes(s1) ==> x in Nodes(s1) - Nodes(s);
    }
  }

  /** Nothing stored here and nothing below. */
  predicate Vacant(t: Trie) {
    t.Gap? || (t.entry == 0 && t.l.Gap? && t.r.Gap?)
  }

  /** How many symbols have each length. */
  method CountLengths(max: nat, lengths: seq<nat>) returns (blCount: array<nat>)
    requires |lengths| < U16
    ensures fresh(blCount) && blCount.Length == max + 1
    ensures forall b :: 0 <= b <= max ==> blCount[b] == Count(lengths, b, |lengths|)
  {
    blCount := new nat[max + 1](_ => 0);
    var i := 0;
    while i <= max
      invariant 0 <= i <= max + 1
      invariant forall b :: 0 <= b < i ==> blCount[b] == Count(lengths, b, |lengths|)
      invariant forall b :: i <= b <= max ==> blCount[b] == 0
    {
      var j := 0;
      while j < |lengths|
        invariant j <= |lengths| && blCount[i] == Count(lengths, i, j) <= j
        invariant forall b :: 0 <= b < i ==> blCount[b] == Count(lengths, b, |lengths|)
        invariant forall b :: i < b <= max ==> blCount[b] == 0
      {
        if lengths[j] == i {
          blCount[i] := (blCount[i] + 1) % U16;
        }
        j := j + 1;
      }
      i := i + 1;
    }
  }

  lemma LowIs(y: nat, k: nat, r: nat)
    requires y == U16 * k + r && r < U16
    ensures Low16(y) == r
  {}

  lemma DoubleLow(x: nat)
    ensures Low16(2 * x) == Low16(2 * Low16(x))
  {
    var q, r := x / U16, Low16(x);
    assert x == U16 * q + r;
    hide Low16;
    if 2 * r < U16 {
      LowIs(2 * x, 2 * q, 2 * r);
      LowIs(2 * r, 0, 2 * r);
    } else {
      LowIs(2 * x, 2 * q + 1, 2 * r - U16);
      LowIs(2 * r, 1, 2 * r - U16);
    }
  }

  lemma DoubledSum(code: nat, n: nat, taken: nat)
    requires Low16(code + n) == Low16(taken)
    ensures Low16((code + n) * 2) == Low16(2 * taken)
  {
    hide Low16;
    DoubleLow(code + n);
    DoubleLow(taken);
  }

  /** What the codes of up to b bits take up, from the first code of b bits. */
  lemma TakenFromFirst(lengths: seq<nat>, b: nat)
    requires b > 0
    ensures First(lengths, b) == 2 * Taken(lengths, b - 1, |lengths|)
    ensures Taken(lengths, b, |lengths|) == First(lengths, b) + Count(lengths, b, |lengths|)
  {}

  lemma SumOf(code: nat, first: nat, n: nat)
    requires code == Low16(first)
    ensures Low16(code + n) == Low16(first + n)
  {}

  lemma NoBits(lengths: seq<nat>)
    ensures Taken(lengths, 0, |lengths|) == 0
  {}

  /** The first code of each length, in 16 bits. */
  method FirstCodes(max: nat, lengths: seq<nat>) returns (nextCode: array<nat>)
    requires |lengths| < U16
    ensures fresh(nextCode) && nextCode.Length == max + 1
    ensures forall b :: 1 <= b <= max ==> nextCode[b] == Low16(First(lengths, b))
  {
    hide Count, First, Taken, Low16;
    var blCount := CountLengths(max, lengths);
    nextCode := new nat[max + 1](_ => 0);
    var code: nat := 0;
    blCount[0] := 0;
    NoBits(lengths);
    var bits: nat := 1;
    while bits <= max
      invariant 1 <= bits <= max + 1
      invariant Low16(code + blCount[bits - 1]) == Low16(Taken(lengths, bits - 1, |lengths|))
      invariant forall b :: 1 <= b <= max ==> blCount[b] == Count(lengths, b, |lengths|)
      invariant forall b :: 1 <= b < bits ==> nextCode[b] == Low16(First(lengths, b))
    {
      TakenFromFirst(lengths, bits);
      DoubledSum(code, blCount[bits - 1], Taken(lengths, bits - 1, |lengths|));
      code := Low16((code + blCount[bits - 1]) * 2);
      nextCode[bits] := code;
      SumOf(code, First(lengths, bits), blCount[bits]);
      bits := bits + 1;
    }
  }

  /** Adds the word of symbol i as it is kept. */
  method PlantWord(root: HuffNode, code: nat, lengths: seq<nat>, i: nat, ghost s: Shape) returns (clean: bool, ghost s': Shape)
    requires i < |lengths| && lengths[i] > 0 && code == Low16(Code(lengths, i))
    requires s.Cell? && Linked(s, root) && Distinct(s) && Erase(s) == Built(lengths, i)
    modifies Nodes(s)
    ensures s'.Cell? && Linked(s', root) && Distinct(s') && Nodes(s) <= Nodes(s') && fresh(Nodes(s') - Nodes(s))
    ensures Erase(s') == Built(lengths, i + 1) && clean == Vacant(At(Built(lengths, i), KeptWord(lengths, i)))
  {
    hide Code, CodeBits, At, Vacant;
    clean, s' := Populate(root, code, lengths[i], i, s);
  }

  lemma KeptPlaceIsFree(lengths: seq<nat>, m: nat, i: nat)
    requires Kraft(lengths, m) && i < |lengths| && lengths[i] > 0 && Narrow(lengths, i + 1)
    ensures Vacant(At(Built(lengths, i), KeptWord(lengths, i)))
  {
    hide Kraft, Code, CodeBits, Built, Decodes;
    BuiltDecodes(lengths, m, i);
    PlaceIsFree(Built(lengths, i), lengths, m, i);
    assert Code(lengths, i) < U16;
  }

  /** The code that comes next for each length once the first i symbols have theirs, in 16 bits. */
  ghost predicate Upcoming(nextCode: seq<nat>, lengths: seq<nat>, max: nat, i: nat)
    requires i <= |lengths|
  {
    |nextCode| == max + 1 && forall b :: 1 <= b <= max ==> nextCode[b] == Low16(First(lengths, b) + Count(lengths, b, i))
  }

  /** Takes the next code of symbol i's length. */
  method TakeCode(nextCode: array<nat>, lengths: seq<nat>, max: nat, i: nat) returns (code: nat)
    requires i < |lengths| && 0 < lengths[i] <= max && Upcoming(nextCode[..], lengths, max, i)
    modifies nextCode
    ensures code == Low16(Code(lengths, i)) && Upcoming(nextCode[..], lengths, max, i + 1)
  {
    code := nextCode[lengths[i]];
    SumOf(code, Code(lengths, i), 1);
    nextCode[lengths[i]] := Low16(code + 1);
  }

  /**
   * deflate_decode_codes: every symbol's word leads to its own leaf, and no error is reported, exactly
   * when no code needs more than 16 bits.
   */
  method DecodeCodes(max: nat, lengths: seq<nat>) returns (root: HuffNode, clean: bool, ghost s: Shape)
    requires max <= 255 && |lengths| < U16 && Kraft(lengths, max)
    ensures s.Cell? && Linked(s, root) && Distinct(s) && fresh(Nodes(s))
    ensures Decodes(Erase(s), lengths, |lengths|) <==> Narrow(lengths, |lengths|)
    ensures Narrow(lengths, |lengths|) ==> clean
  {
    hide Decodes, Kraft, First, Planted, CodeBits, Narrow, Built, KeptWord, Vacant;
    var nextCode := FirstCodes(max, lengths);
    root := new HuffNode();
    s := Cell(root, 0, 0, Nil, Nil);
    BuiltNone(lengths);
    InRange(lengths, max);
    clean := true;
    var i := 0;
    while i < |lengths|
      invariant i <= |lengths| && s.Cell? && Linked(s, root) && Distinct(s) && fresh(Nodes(s))
      invariant Erase(s) == Built(lengths, i) && Upcoming(nextCode[..], lengths, max, i)
      invariant Narrow(lengths, |lengths|) ==> clean
    {
      if lengths[i] != 0 {
        var ok, code;
        ghost var s0 := s;
        assert allocated(Nodes(s));
        code := TakeCode(nextCode, lengths, max, i);
        label planting:
        ok, s := PlantWord(root, code, lengths, i, s0);
        forall x | x in Nodes(s) ensures fresh(x) {
          assert x !in Nodes(s0) ==> fresh@planting(x);
          assert old(allocated(x)) ==> old@planting(allocated(x));
        }
        if Narrow(lengths, |lengths|) {
          NarrowFront(lengths, i + 1);
          KeptPlaceIsFree(lengths, max, i);
        }
        clean := clean && ok;
      } else {
        BuiltSkips(lengths, i);
      }
      i := i + 1;
    }
    BuiltIff(lengths, max);
  }

  lemma BuiltNone(lengths: seq<nat>)
    ensures Built(lengths, 0) == Fork(0, Gap, Gap)
  {}

  lemma BuiltSkips(lengths: seq<nat>, i: nat)
    requires i < |lengths| && lengths[i] == 0
    ensures Built(lengths, i + 1) == Built(lengths, i)
  {}

  lemma NarrowFront(lengths: seq<nat>, n: nat)
    requires n <= |lengths| && Narrow(lengths, |lengths|)
    ensures Narrow(lengths, n)
  {}

  lemma InRange(lengths: seq<nat>, m: nat)
    requires Kraft(lengths, m)
    ensures forall i :: 0 <= i < |lengths| ==> lengths[i] <= m
  {}
}
