/** The words of an allocator page and what each step does to its blocks, on plain values. */
module AllocMemory {
  import opened Basics
  import opened AllocTiling

  /** A cell is two machine words. At a block's start they are its size and, when free, its link. */
  datatype Cell = Cell(w0: nat, w1: nat)

  const ZERO := Cell(0, 0)
  const DEAD := Cell(0xDEAD_BEEF_DEAD_BEEF, 0xDEAD_BEEF_DEAD_BEEF)

  ghost function At(fl: seq<nat>, k: nat): nat {
    if k < |fl| then fl[k] else 0
  }

  /** The k-th listed block links to the next. */
  ghost predicate Links(cells: seq<Cell>, fl: seq<nat>, k: nat)
    requires k < |fl| && fl[k] < |cells|
  {
    cells[fl[k]].w1 == At(fl, k + 1)
  }

  /** The links in memory spell out the free list. */
  ghost predicate Listed(head: nat, cells: seq<Cell>, fl: seq<nat>) {
    && head == At(fl, 0)
    && (forall k :: 0 <= k < |fl| ==> fl[k] < |cells|)
    && (forall k {:trigger Links(cells, fl, k)} :: 0 <= k < |fl| ==> Links(cells, fl, k))
  }

  /** The first word of every block is its size. */
  ghost predicate Sized(cells: seq<Cell>, size: map<nat, nat>) {
    forall o :: o in size ==> o < |cells| && cells[o].w0 == size[o]
  }

  // ---------- Rewriting one link ----------

  /** The k-th link (the header's for k = 0) now says v; the other listed links are as before. */
  ghost predicate Relinked(head: nat, cells: seq<Cell>, fl: seq<nat>, k: nat, v: nat, head': nat, cells': seq<Cell>)
    requires k <= |fl| && Listed(head, cells, fl)
  {
    && |cells'| == |cells|
    && (if k == 0 then head' == v else head' == head && cells'[fl[k - 1]].w1 == v)
    && (forall j :: 0 <= j < |fl| && j != k - 1 ==> cells'[fl[j]].w1 == cells[fl[j]].w1)
  }

  lemma ListDrop(head: nat, cells: seq<Cell>, fl: seq<nat>, k: nat, head': nat, cells': seq<Cell>)
    requires Listed(head, cells, fl) && k < |fl| && Relinked(head, cells, fl, k, At(fl, k + 1), head', cells')
    ensures Listed(head', cells', Without(fl, k))
  {
    var d := Without(fl, k);
    assert k > 0 ==> d[0] == fl[0];
    forall j | 0 <= j < |d| ensures d[j] < |cells'| && Links(cells', d, j) {
      if j < k {
        assert Links(cells, fl, j) && d[j] == fl[j];
      } else {
        assert Links(cells, fl, j + 1) && d[j] == fl[j + 1];
      }
    }
  }

  lemma ListReplace(head: nat, cells: seq<Cell>, fl: seq<nat>, k: nat, q: nat, head': nat, cells': seq<Cell>)
    requires Listed(head, cells, fl) && k < |fl| && Relinked(head, cells, fl, k, q, head', cells')
    requires q < |cells| && cells'[q].w1 == At(fl, k + 1)
    ensures Listed(head', cells', fl[k := q])
  {
    var fl' := fl[k := q];
    forall j | 0 <= j < |fl'| ensures Links(cells', fl', j) {
      assert Links(cells, fl, j);
    }
  }

  lemma ListInsert(head: nat, cells: seq<Cell>, fl: seq<nat>, k: nat, o: nat, head': nat, cells': seq<Cell>)
    requires Listed(head, cells, fl) && k <= |fl| && Relinked(head, cells, fl, k, o, head', cells')
    requires o < |cells| && cells'[o].w1 == At(fl, k)
    ensures Listed(head', cells', Insert(fl, k, o))
  {
    var n := Insert(fl, k, o);
    assert k > 0 ==> n[0] == fl[0];
    forall j | 0 <= j < |n| ensures n[j] < |cells'| && Links(cells', n, j) {
      if j < k {
        assert Links(cells, fl, j) && n[j] == fl[j];
      } else if j > k {
        assert Links(cells, fl, j - 1) && n[j] == fl[j - 1];
      }
    }
  }

  lemma ListedSame(head: nat, cells: seq<Cell>, fl: seq<nat>, cells': seq<Cell>)
    requires Listed(head, cells, fl) && forall j :: 0 <= j < |fl| ==> fl[j] < |cells'| && cells'[fl[j]].w1 == cells[fl[j]].w1
    ensures Listed(head, cells', fl)
  {
    forall j | 0 <= j < |fl| ensures Links(cells', fl, j) {
      assert Links(cells, fl, j);
    }
  }

  // ---------- What lies in memory ----------

  /** Everything a page's blocks must satisfy, on plain values. */
  ghost predicate Inv(cells: seq<Cell>, used: nat, head: nat, end: nat, size: map<nat, nat>, fl: seq<nat>) {
    && |cells| == CELLS && end <= CELLS
    && Tiled(size, end) && Sized(cells, size)
    && FreeOk(size, fl, end) && Listed(head, cells, fl)
    && used + FreeSum(size, fl) == end - HDR
  }

  ghost predicate Fits(cells: seq<Cell>, size: map<nat, nat>) {
    forall o :: o in size ==> size[o] >= 1 && o + size[o] <= |cells|
  }

  /** The cells of the n-cell block at o after its first. */
  ghost function Payload(cells: seq<Cell>, o: nat, n: nat): (r: seq<Cell>)
    requires 1 <= n && o + n <= |cells|
  {
    cells[o + 1..o + n]
  }

  /** The live blocks with their payloads. */
  ghost function Live(cells: seq<Cell>, size: map<nat, nat>, fl: seq<nat>): map<nat, seq<Cell>>
    requires Fits(cells, size)
  {
    map o | o in size && o !in fl :: Payload(cells, o, size[o])
  }

  /** Nothing outside [a, b) changed, except perhaps the link stored in prev. */
  ghost predicate Confined(cells: seq<Cell>, cells': seq<Cell>, a: nat, b: nat, prev: nat) {
    && |cells'| == |cells|
    && (forall i :: 0 <= i < |cells| && !(a <= i < b) ==> cells'[i].w0 == cells[i].w0)
    && (forall i :: 0 <= i < |cells| && !(a <= i < b) && i != prev ==> cells'[i] == cells[i])
  }

  /** Where the k-th link is kept: 0 stands for the header. */
  ghost function Before(fl: seq<nat>, k: nat): nat
    requires k <= |fl|
  {
    if k == 0 then 0 else fl[k - 1]
  }

  ghost function Zeros(n: nat): (r: seq<Cell>)
    ensures |r| == n && forall i :: 0 <= i < n ==> r[i] == Cell(0, 0)
  {
    seq(n, _ => ZERO)
  }

  /** Every block but o keeps its size word; live ones keep their payload. */
  ghost predicate KeepsOthers(cells: seq<Cell>, cells': seq<Cell>, size: map<nat, nat>, fl: seq<nat>, o: nat) {
    && |cells'| == |cells|
    && (forall p :: p in size && p != o ==> p < |cells| && cells'[p].w0 == cells[p].w0)
    && (forall p :: p in size && p != o && p !in fl ==> KeepsBlock(cells, cells', p, size[p]))
  }

  ghost predicate KeepsBlock(cells: seq<Cell>, cells': seq<Cell>, p: nat, n: nat) {
    1 <= n && p + n <= |cells| == |cells'| && Payload(cells', p, n) == Payload(cells, p, n)
  }

  /** Blocks outside the confines keep their size word, and live ones their payload. */
  lemma OthersKept(cells: seq<Cell>, cells': seq<Cell>, size: map<nat, nat>, end: nat, fl: seq<nat>, o: nat, a: nat, b: nat, prev: nat)
    requires Tiled(size, end) && end <= |cells| && FreeOk(size, fl, end) && (prev == 0 || prev in fl)
    requires Confined(cells, cells', a, b, prev) && forall p :: p in size && p != o ==> p + size[p] <= a || b <= p
    ensures KeepsOthers(cells, cells', size, fl, o)
  {
    forall p | p in size && p != o
      ensures cells'[p].w0 == cells[p].w0 && (p !in fl ==> KeepsBlock(cells, cells', p, size[p]))
    {
      assert prev in fl ==> prev in size && (prev < p || prev == p || p + size[p] <= prev);
    }
  }

  /** Block o came to live with the given payload; the rest is unchanged. */
  lemma LiveGained(cells: seq<Cell>, size: map<nat, nat>, fl: seq<nat>, cells': seq<Cell>, size': map<nat, nat>, fl': seq<nat>,
                   o: nat, data: seq<Cell>, live: map<nat, seq<Cell>>, live': map<nat, seq<Cell>>)
    requires Fits(cells, size) && Fits(cells', size')
    requires KeepsOthers(cells, cells', size, fl, o) && o in size' && o !in fl'
    requires forall p :: p != o ==> (p in size && p !in fl <==> p in size' && p !in fl')
    requires forall p :: p != o && p in size && p !in fl ==> size'[p] == size[p]
    requires Payload(cells', o, size'[o]) == data
    requires live == Live(cells, size, fl) && live' == Live(cells', size', fl')
    ensures live' == live[o := data]
  {
    forall p | p in live && p != o ensures live'[p] == live[p] {
      assert KeepsBlock(cells, cells', p, size[p]);
    }
  }

  // ---------- Writing memory ----------

  /** The cells in [a, b) set to v. */
  ghost function Filled(cells: seq<Cell>, a: nat, b: nat, v: Cell): (r: seq<Cell>)
    ensures |r| == |cells|
  {
    seq(|cells|, i requires 0 <= i < |cells| => if a <= i < b then v else cells[i])
  }

  /** The link kept in cell prev set to v; the header's link, prev = 0, is not in the cells. */
  ghost function Link(cells: seq<Cell>, prev: nat, v: nat): (r: seq<Cell>)
    requires prev < |cells|
    ensures |r| == |cells|
  {
    if prev == 0 then cells else cells[prev := cells[prev].(w1 := v)]
  }

  ghost function Head(head: nat, prev: nat, v: nat): nat {
    if prev == 0 then v else head
  }

  /** Memory after the free block at o gave up its first n cells. */
  ghost function DetachedCells(cells: seq<Cell>, prev: nat, o: nat, n: nat): (r: seq<Cell>)
    requires prev < |cells| && o < |cells| && 1 <= n <= cells[o].w0 && o + cells[o].w0 <= |cells|
    ensures |r| == |cells|
  {
    var m := cells[o].w0 - n;
    if m == 0 then CarvedCells(cells, prev, o, n, o + n, cells[o].w1)
    else CarvedCells(cells[o + n := Cell(m, cells[o].w1)], prev, o, n, o + n, o + n)
  }

  /** What the link to the free block at o must say after that. */
  ghost function DetachedLink(cells: seq<Cell>, o: nat, n: nat): nat
    requires o < |cells|
  {
    if cells[o].w0 == n then cells[o].w1 else o + n
  }

  ghost function CarvedCells(cells: seq<Cell>, prev: nat, o: nat, n: nat, q: nat, v: nat): (r: seq<Cell>)
    requires prev < |cells| && o < |cells|
    ensures |r| == |cells|
  {
    var linked := Link(cells, prev, v);
    Filled(linked[o := linked[o].(w0 := n)], o + 1, q, ZERO)
  }

  lemma CarveConfined(cells: seq<Cell>, cells': seq<Cell>, prev: nat, o: nat, n: nat, q: nat, e: nat, v: nat, c: seq<Cell>)
    requires prev < o < q <= e <= |cells| && q == o + n
    requires |cells'| == |cells| && forall i :: 0 <= i < |cells| && i != q ==> cells'[i] == cells[i]
    requires q == e ==> cells' == cells
    requires c == CarvedCells(cells', prev, o, n, q, v)
    ensures Confined(cells, c, o, e, prev)
    ensures c[o] == cells[o].(w0 := n) && (q < e ==> c[q] == cells'[q]) && Payload(c, o, n) == Zeros(n - 1)
    ensures prev > 0 ==> c[prev].w1 == v
  {}

  /** Links outside the confines are as before, except the one at prev. */
  lemma ConfinedRelinks(cells: seq<Cell>, head: nat, end: nat, size: map<nat, nat>, fl: seq<nat>,
                        k: nat, e: nat, v: nat, head': nat, c: seq<Cell>)
    requires Tiled(size, end) && FreeOk(size, fl, end) && Listed(head, cells, fl)
    requires k < |fl| && e == fl[k] + size[fl[k]] && Confined(cells, c, fl[k], e, Before(fl, k))
    requires head' == Head(head, Before(fl, k), v) && (k > 0 ==> c[fl[k - 1]].w1 == v) && c[fl[k]].w1 == cells[fl[k]].w1
    ensures Relinked(head, cells, fl, k, v, head', c)
  {
    assert k > 0 ==> fl[k - 1] in fl;
    forall j | 0 <= j < |fl| && j != k - 1 ensures c[fl[j]].w1 == cells[fl[j]].w1 {
      assert fl[j] in fl && fl[k] in fl;
    }
  }

  lemma CarvedWhole(cells: seq<Cell>, used: nat, head: nat, end: nat, size: map<nat, nat>, fl: seq<nat>,
                    k: nat, o: nat, e: nat, head': nat, c: seq<Cell>, used': nat)
    requires Inv(cells, used, head, end, size, fl) && k < |fl| && o == fl[k] && e == o + size[o]
    requires Relinked(head, cells, fl, k, At(fl, k + 1), head', c) && Confined(cells, c, o, e, Before(fl, k))
    requires c[o].w0 == size[o] && used' == used + size[o]
    ensures Inv(c, used', head', end, size, Without(fl, k))
    ensures KeepsOthers(cells, c, size, fl, o)
    ensures forall p :: p in Without(fl, k) <==> p in fl && p != o
  {
    FreeTaken(size, fl, end, k);
    DropAscends(fl, k);
    ListDrop(head, cells, fl, k, head', c);
    OthersKept(cells, c, size, end, fl, o, o, e, Before(fl, k));
  }

  lemma CarvedSplit(cells: seq<Cell>, used: nat, head: nat, end: nat, size: map<nat, nat>, fl: seq<nat>,
                    k: nat, o: nat, n: nat, q: nat, m: nat, e: nat, head': nat, c: seq<Cell>, used': nat, size': map<nat, nat>)
    requires Inv(cells, used, head, end, size, fl) && k < |fl| && o == fl[k] && e == o + size[o]
    requires n >= 1 && m >= 1 && size[o] == n + m && q == o + n && size' == size[o := n][q := m]
    requires Relinked(head, cells, fl, k, q, head', c) && Confined(cells, c, o, e, Before(fl, k))
    requires c[q] == Cell(m, At(fl, k + 1)) && c[o].w0 == n && used' == used + n
    ensures Inv(c, used', head', end, size', fl[k := q])
    ensures KeepsOthers(cells, c, size, fl, o) && q !in size
    ensures forall p :: p in fl[k := q] <==> p == q || (p in fl && p != o)
  {
    OthersKept(cells, c, size, end, fl, o, o, e, Before(fl, k));
    SplitSized(cells, c, size, fl, o, n, q, m, size');
    ListReplace(head, cells, fl, k, q, head', c);
    SplitUsed(used, end, size, fl, k, n, q, m, size');
  }

  lemma SplitSized(cells: seq<Cell>, c: seq<Cell>, size: map<nat, nat>, fl: seq<nat>, o: nat, n: nat, q: nat, m: nat,
                   size': map<nat, nat>)
    requires Sized(cells, size) && KeepsOthers(cells, c, size, fl, o) && size' == size[o := n][q := m]
    requires o < |c| && q < |c| && c[o].w0 == n && c[q].w0 == m && o != q
    ensures Sized(c, size')
  {}

  lemma SplitUsed(used: nat, end: nat, size: map<nat, nat>, fl: seq<nat>, k: nat, n: nat, q: nat, m: nat, size': map<nat, nat>)
    requires Tiled(size, end) && FreeOk(size, fl, end) && k < |fl| && used + FreeSum(size, fl) == end - HDR
    requires n >= 1 && m >= 1 && size[fl[k]] == n + m && q == fl[k] + n && size' == size[fl[k] := n][q := m]
    ensures Tiled(size', end) && FreeOk(size', fl[k := q], end) && q !in size
    ensures used + n + FreeSum(size', fl[k := q]) == end - HDR
    ensures forall p :: p in fl[k := q] <==> p == q || (p in fl && p != fl[k])
  {
    TileSplit(size, end, fl[k], n, q, m, size');
    FreeSplit(size, fl, end, k, n, q, m, size');
  }

  // ---------- Allocation from a free block ----------

  ghost function CarvedSize(size: map<nat, nat>, o: nat, n: nat, q: nat, m: nat): map<nat, nat> {
    if m == 0 then size else size[o := n][q := m]
  }

  ghost function CarvedList(fl: seq<nat>, k: nat, q: nat, m: nat): seq<nat>
    requires k < |fl|
  {
    if m == 0 then Without(fl, k) else fl[k := q]
  }

  lemma DetachConfined(cells: seq<Cell>, prev: nat, o: nat, n: nat, q: nat, m: nat, e: nat, v: nat, c: seq<Cell>)
    requires prev < o < |cells| && n >= 1 && cells[o].w0 == n + m && q == o + n && e == q + m && e <= |cells|
    requires v == (if m == 0 then cells[o].w1 else q) && c == DetachedCells(cells, prev, o, n)
    ensures Confined(cells, c, o, e, prev)
    ensures c[o] == cells[o].(w0 := n) && (m > 0 ==> c[q] == Cell(m, cells[o].w1)) && Payload(c, o, n) == Zeros(n - 1)
    ensures prev > 0 ==> c[prev].w1 == v
  {
    if m == 0 {
      CarveConfined(cells, cells, prev, o, n, q, e, v, c);
    } else {
      CarveConfined(cells, cells[q := Cell(m, cells[o].w1)], prev, o, n, q, e, v, c);
    }
  }

  lemma CarvedKeeps(cells: seq<Cell>, used: nat, head: nat, end: nat, size: map<nat, nat>, fl: seq<nat>,
                    k: nat, o: nat, n: nat, q: nat, m: nat, e: nat, v: nat, c: seq<Cell>,
                    used': nat, head': nat, size': map<nat, nat>, fl': seq<nat>)
    requires Inv(cells, used, head, end, size, fl) && k < |fl| && o == fl[k] && n >= 1 && size[o] == n + m && q == o + n && e == q + m
    requires Confined(cells, c, o, e, Before(fl, k)) && v == (if m == 0 then At(fl, k + 1) else q)
    requires c[o] == cells[o].(w0 := n) && (m > 0 ==> c[q] == Cell(m, cells[o].w1))
    requires (k > 0 ==> c[fl[k - 1]].w1 == v) && head' == Head(head, Before(fl, k), v)
    requires used' == used + n && size' == CarvedSize(size, o, n, q, m) && fl' == CarvedList(fl, k, q, m)
    ensures Inv(c, used', head', end, size', fl')
    ensures KeepsOthers(cells, c, size, fl, o) && o in size' && o !in fl' && size'[o] == n
    ensures forall p :: p != o ==> (p in size && p !in fl <==> p in size' && p !in fl')
    ensures forall p :: p != o && p in size && p !in fl ==> size'[p] == size[p]
  {
    assert Links(cells, fl, k);
    ConfinedRelinks(cells, head, end, size, fl, k, e, v, head', c);
    if m == 0 {
      CarvedWhole(cells, used, head, end, size, fl, k, o, e, head', c, used');
    } else {
      CarvedSplit(cells, used, head, end, size, fl, k, o, n, q, m, e, head', c, used', size');
    }
  }

  /** The block at o = fl[k] gave up n of its n + m cells: they are live and zero, q = o + n starts the rest. */
  lemma Carved(cells: seq<Cell>, used: nat, head: nat, end: nat, size: map<nat, nat>, fl: seq<nat>,
               k: nat, o: nat, n: nat, q: nat, m: nat, c: seq<Cell>, used': nat, head': nat, size': map<nat, nat>, fl': seq<nat>)
    requires Inv(cells, used, head, end, size, fl) && k < |fl| && o == fl[k] && n >= 1 && size[o] == n + m && q == o + n
    requires Before(fl, k) < o && c == DetachedCells(cells, Before(fl, k), o, n)
    requires head' == Head(head, Before(fl, k), DetachedLink(cells, o, n))
    requires used' == used + n && size' == CarvedSize(size, o, n, q, m) && fl' == CarvedList(fl, k, q, m)
    ensures Inv(c, used', head', end, size', fl')
    ensures Live(c, size', fl') == Live(cells, size, fl)[o := Zeros(n - 1)]
  {
    var e, v := q + m, if m == 0 then At(fl, k + 1) else q;
    assert Links(cells, fl, k);
    DetachConfined(cells, Before(fl, k), o, n, q, m, e, v, c);
    CarvedKeeps(cells, used, head, end, size, fl, k, o, n, q, m, e, v, c, used', head', size', fl');
    LiveGained(cells, size, fl, c, size', fl', o, Zeros(n - 1), Live(cells, size, fl), Live(c, size', fl'));
  }

  /** What the k-th free block and the link to it look like. */
  lemma FreeCell(cells: seq<Cell>, used: nat, head: nat, end: nat, size: map<nat, nat>, fl: seq<nat>, k: nat)
    requires Inv(cells, used, head, end, size, fl) && k < |fl|
    ensures Before(fl, k) < fl[k] && fl[k] in size && fl[k] + size[fl[k]] <= |cells|
    ensures cells[fl[k]] == Cell(size[fl[k]], At(fl, k + 1))
  {
    assert fl[k] in fl && Links(cells, fl, k);
    assert k > 0 ==> fl[k - 1] in fl;
  }

  // ---------- Allocation past the last block ----------

  ghost function BumpedCells(cells: seq<Cell>, end: nat, n: nat, end': nat): (r: seq<Cell>)
    requires end < |cells|
    ensures |r| == |cells|
  {
    Filled(cells[end := cells[end].(w0 := n)], end + 1, end', ZERO)
  }

  lemma TiledBounds(size: map<nat, nat>, end: nat)
    requires Tiled(size, end)
    ensures forall o :: o in size ==> HDR <= o && 1 <= size[o] && o + size[o] <= end
  {}

  /** What changes behind the tiles leaves the free list as it is. */
  lemma ListedBelow(head: nat, cells: seq<Cell>, end: nat, size: map<nat, nat>, fl: seq<nat>, end': nat, c: seq<Cell>)
    requires Listed(head, cells, fl) && FreeOk(size, fl, end) && Tiled(size, end) && end <= |cells|
    requires Confined(cells, c, end, end', 0)
    ensures Listed(head, c, fl)
  {
    hide Tiled, Listed;
    TiledBounds(size, end);
    forall j | 0 <= j < |fl| ensures fl[j] < |c| && c[fl[j]] == cells[fl[j]] {
      assert fl[j] in fl;
      assert fl[j] in size;
    }
    ListedSame(head, cells, fl, c);
  }

  lemma BumpedKeeps(cells: seq<Cell>, used: nat, head: nat, end: nat, size: map<nat, nat>, fl: seq<nat>,
                    n: nat, end': nat, c: seq<Cell>, used': nat, size': map<nat, nat>)
    requires Inv(cells, used, head, end, size, fl) && n >= 1 && end' == end + n <= CELLS
    requires c == BumpedCells(cells, end, n, end') && used' == used + n && size' == size[end := n]
    ensures Inv(c, used', head, end', size', fl) && KeepsOthers(cells, c, size, fl, end)
    ensures end !in size && end !in fl && Payload(c, end, n) == Zeros(n - 1)
  {
    hide Tiled, Payload, KeepsOthers, FreeSum, Listed, Live;
    TiledBounds(size, end);
    TileGrow(size, end, n, end');
    FreeSame(size, size', fl, end, end');
    assert Confined(cells, c, end, end', 0);
    OthersKept(cells, c, size, end, fl, end, end, end', 0);
    ListedBelow(head, cells, end, size, fl, end', c);
    BumpedPayload(cells, end, n, end', c);
  }

  lemma BumpedPayload(cells: seq<Cell>, end: nat, n: nat, end': nat, c: seq<Cell>)
    requires n >= 1 && end' == end + n <= |cells| && c == BumpedCells(cells, end, n, end')
    ensures Payload(c, end, n) == Zeros(n - 1)
  {}

  lemma Bumped(cells: seq<Cell>, used: nat, head: nat, end: nat, size: map<nat, nat>, fl: seq<nat>,
               n: nat, end': nat, c: seq<Cell>, used': nat, size': map<nat, nat>)
    requires Inv(cells, used, head, end, size, fl) && n >= 1 && end' == end + n <= CELLS
    requires c == BumpedCells(cells, end, n, end') && used' == used + n && size' == size[end := n]
    ensures Inv(c, used', head, end', size', fl)
    ensures Live(c, size', fl) == Live(cells, size, fl)[end := Zeros(n - 1)]
  {
    BumpedKeeps(cells, used, head, end, size, fl, n, end', c, used', size');
    LiveGained(cells, size, fl, c, size', fl, end, Zeros(n - 1), Live(cells, size, fl), Live(c, size', fl));
  }

  // ---------- Fusing a live block with the fresh one behind it ----------

  ghost function FusedCells(cells: seq<Cell>, o: nat, p: nat, m: nat): (r: seq<Cell>)
    requires o < |cells| && p < |cells|
    ensures |r| == |cells|
  {
    var sized := cells[o := cells[o].(w0 := m)];
    sized[p := ZERO]
  }

  lemma FusedPayload(cells: seq<Cell>, o: nat, n: nat, p: nat, t: nat, m: nat, c: seq<Cell>)
    requires 1 <= n && 1 <= t && o + n == p && m == n + t && p + t <= |cells| && c == FusedCells(cells, o, p, m)
    ensures Payload(c, o, m) == Payload(cells, o, n) + [ZERO] + Payload(cells, p, t)
  {}

  lemma FusedKeeps(cells: seq<Cell>, size: map<nat, nat>, end: nat, fl: seq<nat>, o: nat, p: nat, m: nat, c: seq<Cell>)
    requires Tiled(size, end) && end <= |cells| && FreeOk(size, fl, end)
    requires o in size && o !in fl && p in size && p !in fl && o + size[o] == p && m == size[o] + size[p]
    requires c == FusedCells(cells, o, p, m)
    ensures KeepsOthers(cells, c, size - {p}, fl, o) && forall q :: q in fl ==> c[q] == cells[q]
  {
    forall q | q in size - {p} && q != o
      ensures c[q].w0 == cells[q].w0 && (q !in fl ==> KeepsBlock(cells, c, q, size[q]))
    {
      assert q + size[q] <= o || p <= q;
    }
  }

  lemma FusedInv(cells: seq<Cell>, used: nat, head: nat, end: nat, size: map<nat, nat>, fl: seq<nat>,
                 o: nat, p: nat, m: nat, c: seq<Cell>, size': map<nat, nat>)
    requires Inv(cells, used, head, end, size, fl) && o in size && o !in fl && p in size && p !in fl
    requires o + size[o] == p && m == size[o] + size[p] && c == FusedCells(cells, o, p, m) && size' == (size - {p})[o := m]
    ensures Inv(c, used, head, end, size', fl) && KeepsOthers(cells, c, size - {p}, fl, o)
  {
    TileMerge(size, end, o, p, m, size');
    FusedKeeps(cells, size, end, fl, o, p, m, c);
    ListedSame(head, cells, fl, c);
    FreeSame(size, size', fl, end, end);
  }

  lemma LiveLess(cells: seq<Cell>, size: map<nat, nat>, fl: seq<nat>, p: nat)
    requires Fits(cells, size)
    ensures Live(cells, size - {p}, fl) == Live(cells, size, fl) - {p}
  {}

  lemma LiveFused(cells: seq<Cell>, size: map<nat, nat>, fl: seq<nat>, c: seq<Cell>, size': map<nat, nat>,
                  o: nat, p: nat, m: nat, live: map<nat, seq<Cell>>)
    requires Fits(cells, size) && Fits(c, size') && live == Live(cells, size, fl) && o in live && p in live && o != p
    requires KeepsOthers(cells, c, size - {p}, fl, o) && size' == (size - {p})[o := m]
    requires 1 <= m && o + m <= |c| && Payload(c, o, m) == live[o] + [ZERO] + live[p]
    ensures Live(c, size', fl) == (live - {p})[o := live[o] + [ZERO] + live[p]]
  {
    LiveLess(cells, size, fl, p);
    LiveGained(cells, size - {p}, fl, c, size', fl, o, Payload(c, o, m), live - {p}, Live(c, size', fl));
  }

  /** The live block at p was joined to the live block before it. */
  lemma Fused(cells: seq<Cell>, used: nat, head: nat, end: nat, size: map<nat, nat>, fl: seq<nat>,
              o: nat, p: nat, m: nat, c: seq<Cell>, size': map<nat, nat>, live: map<nat, seq<Cell>>)
    requires Inv(cells, used, head, end, size, fl) && live == Live(cells, size, fl) && o in live && p in live
    requires o + size[o] == p && m == size[o] + size[p] && c == FusedCells(cells, o, p, m) && size' == (size - {p})[o := m]
    ensures Inv(c, used, head, end, size', fl)
    ensures Live(c, size', fl) == (live - {p})[o := live[o] + [ZERO] + live[p]]
  {
    FusedInv(cells, used, head, end, size, fl, o, p, m, c, size');
    FusedPayload(cells, o, size[o], p, size[p], m, c);
    LiveFused(cells, size, fl, c, size', o, p, m, live);
  }

  // ---------- Freeing ----------

  /** As FreeOk, but the block at x may still touch its neighbours or the end. */
  ghost predicate FreeOkBut(size: map<nat, nat>, fl: seq<nat>, end: nat, x: nat) {
    && Ascending(fl)
    && (forall o :: o in fl ==> o in size && (o == x || o + size[o] != end))
    && (forall o, p :: o in fl && p in fl && o != x && p != x ==> o + size[o] != p)
  }

  ghost predicate InvBut(cells: seq<Cell>, used: nat, head: nat, end: nat, size: map<nat, nat>, fl: seq<nat>, x: nat) {
    && |cells| == CELLS && end <= CELLS
    && Tiled(size, end) && Sized(cells, size)
    && FreeOkBut(size, fl, end, x) && Listed(head, cells, fl)
    && used + FreeSum(size, fl) == end - HDR
  }

  ghost predicate ClearBehind(size: map<nat, nat>, fl: seq<nat>, x: nat) {
    forall p :: p in fl && p in size ==> p + size[p] != x
  }

  ghost predicate ClearAhead(size: map<nat, nat>, fl: seq<nat>, x: nat)
    requires x in size
  {
    x + size[x] !in fl
  }

  lemma Settled(cells: seq<Cell>, used: nat, head: nat, end: nat, size: map<nat, nat>, fl: seq<nat>, x: nat)
    requires InvBut(cells, used, head, end, size, fl, x) && x in size
    requires ClearBehind(size, fl, x) && ClearAhead(size, fl, x) && x + size[x] != end
    ensures Inv(cells, used, head, end, size, fl)
  {
    forall o, p | o in fl && p in fl ensures o + size[o] != p {
      if o == x {
        assert x + size[x] != p;
      }
    }
  }

  /** Memory after the n-cell block at o was overwritten and linked in between prev and next. */
  ghost function FreedCells(cells: seq<Cell>, prev: nat, o: nat, n: nat, e: nat, next: nat): (r: seq<Cell>)
    requires prev < |cells| && o < |cells|
    ensures |r| == |cells|
  {
    var dead := Filled(cells, o, e, DEAD)[o := Cell(n, DEAD.w1)];
    Link(dead[o := Cell(n, next)], prev, o)
  }

  lemma FreedConfined(cells: seq<Cell>, prev: nat, o: nat, n: nat, e: nat, next: nat, c: seq<Cell>)
    requires prev < o < e <= |cells| && c == FreedCells(cells, prev, o, n, e, next)
    ensures Confined(cells, c, o, e, prev) && c[o] == Cell(n, next) && (prev > 0 ==> c[prev].w1 == o)
  {}

  lemma FreedRelinks(cells: seq<Cell>, head: nat, fl: seq<nat>, k: nat, o: nat, e: nat, prev: nat, head': nat, c: seq<Cell>)
    requires Listed(head, cells, fl) && k <= |fl| && prev == Before(fl, k) && Confined(cells, c, o, e, prev)
    requires forall j :: 0 <= j < |fl| ==> fl[j] > 0 && (fl[j] < o || e <= fl[j])
    requires forall j :: 0 <= j < |fl| && j != k - 1 ==> fl[j] != prev
    requires head' == Head(head, prev, o) && (k > 0 ==> c[prev].w1 == o)
    ensures Relinked(head, cells, fl, k, o, head', c)
  {
    forall j | 0 <= j < |fl| && j != k - 1 ensures c[fl[j]].w1 == cells[fl[j]].w1 {
      assert c[fl[j]] == cells[fl[j]];
    }
  }

  lemma FreeApart(size: map<nat, nat>, fl: seq<nat>, end: nat, o: nat, e: nat)
    requires Tiled(size, end) && FreeOk(size, fl, end) && o in size && o !in fl && e == o + size[o]
    ensures forall j :: 0 <= j < |fl| ==> fl[j] > 0 && (fl[j] < o || e <= fl[j])
  {
    forall j | 0 <= j < |fl| ensures fl[j] > 0 && (fl[j] < o || e <= fl[j]) {
      assert fl[j] in fl;
    }
  }

  lemma FreedListed(cells: seq<Cell>, head: nat, end: nat, size: map<nat, nat>, fl: seq<nat>,
                    k: nat, o: nat, e: nat, head': nat, c: seq<Cell>)
    requires Tiled(size, end) && FreeOk(size, fl, end) && Listed(head, cells, fl) && end <= |cells| == |c|
    requires o in size && o !in fl && e == o + size[o] && k <= |fl| && Confined(cells, c, o, e, Before(fl, k))
    requires c[o].w1 == At(fl, k) && head' == Head(head, Before(fl, k), o) && (k > 0 ==> c[fl[k - 1]].w1 == o)
    ensures Listed(head', c, Insert(fl, k, o))
  {
    FreeApart(size, fl, end, o, e);
    FreedRelinks(cells, head, fl, k, o, e, Before(fl, k), head', c);
    ListInsert(head, cells, fl, k, o, head', c);
  }

  lemma FreedOk(size: map<nat, nat>, fl: seq<nat>, end: nat, used: nat, k: nat, o: nat, used': nat)
    requires Tiled(size, end) && FreeOk(size, fl, end) && o in size && o !in fl && k <= |fl|
    requires (k > 0 ==> fl[k - 1] < o) && (k < |fl| ==> o < fl[k])
    requires used + FreeSum(size, fl) == end - HDR && used == used' + size[o]
    ensures FreeOkBut(size, Insert(fl, k, o), end, o) && used' + FreeSum(size, Insert(fl, k, o)) == end - HDR
    ensures forall p :: p in Insert(fl, k, o) <==> p in fl || p == o
  {
    InsertAscends(fl, k, o);
    FreeSumInsert(size, fl, k, o);
  }

  /** The live block at o joined the free list at its place. */
  lemma Freed(cells: seq<Cell>, used: nat, head: nat, end: nat, size: map<nat, nat>, fl: seq<nat>,
              k: nat, o: nat, n: nat, e: nat, c: seq<Cell>, used': nat, head': nat, fl': seq<nat>)
    requires Inv(cells, used, head, end, size, fl) && o in size && o !in fl && n == size[o] && e == o + n && k <= |fl|
    requires (k > 0 ==> fl[k - 1] < o) && (k < |fl| ==> o < fl[k]) && used == used' + n
    requires Before(fl, k) < o && c == FreedCells(cells, Before(fl, k), o, n, e, At(fl, k))
    requires head' == Head(head, Before(fl, k), o) && fl' == Insert(fl, k, o)
    ensures InvBut(c, used', head', end, size, fl', o)
    ensures Live(c, size, fl') == Live(cells, size, fl) - {o}
  {
    FreedConfined(cells, Before(fl, k), o, n, e, At(fl, k), c);
    FreedListed(cells, head, end, size, fl, k, o, e, head', c);
    FreedOk(size, fl, end, used, k, o, used');
    OthersKept(cells, c, size, end, fl, o, o, e, Before(fl, k));
    LiveLost(cells, size, fl, c, fl', o, Live(cells, size, fl), Live(c, size, fl'));
  }

  lemma LiveLost(cells: seq<Cell>, size: map<nat, nat>, fl: seq<nat>, c: seq<Cell>, fl': seq<nat>, o: nat,
                 live: map<nat, seq<Cell>>, live': map<nat, seq<Cell>>)
    requires Fits(cells, size) && Fits(c, size) && KeepsOthers(cells, c, size, fl, o)
    requires forall p :: p in fl' <==> p in fl || p == o
    requires live == Live(cells, size, fl) && live' == Live(c, size, fl')
    ensures live' == live - {o}
  {
    forall p | p in live && p != o ensures live'[p] == live[p] {
      assert KeepsBlock(cells, c, p, size[p]);
    }
  }

  lemma MergedSum(size: map<nat, nat>, fl: seq<nat>, k: nat, a: nat, b: nat, m: nat, size': map<nat, nat>)
    requires Ascending(fl) && k + 1 < |fl| && a == fl[k] && b == fl[k + 1] && forall o :: o in fl ==> o in size
    requires m == size[a] + size[b] && size' == (size - {b})[a := m]
    ensures FreeSum(size', Without(fl, k + 1)) == FreeSum(size, fl)
    ensures Ascending(Without(fl, k + 1)) && forall o :: o in Without(fl, k + 1) <==> o in fl && o != b
  {
    var d := Without(fl, k + 1);
    DropAscends(fl, k + 1);
    DropAscends(d, k);
    FreeSumDrop(size, fl, k + 1);
    FreeSumDrop(size, d, k);
    FreeSumDrop(size', d, k);
    FreeSumSame(size, size', Without(d, k));
  }

  lemma MergedListed(head: nat, cells: seq<Cell>, fl: seq<nat>, k: nat, m: nat, c: seq<Cell>)
    requires Listed(head, cells, fl) && Ascending(fl) && k + 1 < |fl|
    requires c == cells[fl[k] := Cell(m, cells[fl[k + 1]].w1)]
    ensures Listed(head, c, Without(fl, k + 1))
  {
    assert Links(cells, fl, k + 1);
    ListDrop(head, cells, fl, k + 1, head, c);
  }

  lemma MergedBehind(size: map<nat, nat>, end: nat, fl: seq<nat>, a: nat, b: nat, x: nat, p: nat)
    requires FreeOkBut(size, fl, end, x) && a in fl && b in fl && p in fl && p != a && p != b && a != b
    requires x == b || ClearBehind(size, fl, a)
    ensures p in size && p + size[p] != a
  {}

  lemma MergedFree(size: map<nat, nat>, end: nat, fl: seq<nat>, a: nat, b: nat, m: nat, x: nat, size': map<nat, nat>, fl': seq<nat>)
    requires FreeOkBut(size, fl, end, x) && (x == a || x == b) && size' == (size - {b})[a := m] && Ascending(fl')
    requires forall o :: o in fl' <==> o in fl && o != b
    ensures FreeOkBut(size', fl', end, a)
  {
    hide Ascending;
  }

  lemma MergedClear(size: map<nat, nat>, end: nat, fl: seq<nat>, a: nat, b: nat, m: nat, x: nat, size': map<nat, nat>, fl': seq<nat>)
    requires FreeOkBut(size, fl, end, x) && a in fl && b in fl && a != b && m >= 1 && size' == (size - {b})[a := m]
    requires forall o :: o in fl' <==> o in fl && o != b
    requires x == b || ClearBehind(size, fl, a)
    ensures ClearBehind(size', fl', a)
  {
    hide FreeOkBut;
    forall p | p in fl' && p in size' ensures p + size'[p] != a {
      if p != a {
        MergedBehind(size, end, fl, a, b, x, p);
      }
    }
  }

  lemma MergedOk(size: map<nat, nat>, end: nat, fl: seq<nat>, k: nat, a: nat, b: nat, m: nat, x: nat, size': map<nat, nat>, fl': seq<nat>)
    requires Tiled(size, end) && FreeOkBut(size, fl, end, x) && k + 1 < |fl| && a == fl[k] && b == fl[k + 1] && (x == a || x == b)
    requires a + size[a] == b && m == size[a] + size[b] && size' == (size - {b})[a := m] && fl' == Without(fl, k + 1)
    requires forall o :: o in fl' <==> o in fl && o != b
    requires Ascending(fl')
    ensures Tiled(size', end) && FreeOkBut(size', fl', end, a)
    ensures x == b || ClearBehind(size, fl, a) ==> ClearBehind(size', fl', a)
  {
    hide Tiled, ClearBehind;
    TiledBounds(size, end);
    TileMerge(size, end, a, b, m, size');
    assert a in fl && b in fl;
    MergedFree(size, end, fl, a, b, m, x, size', fl');
    if x == b || ClearBehind(size, fl, a) {
      MergedClear(size, end, fl, a, b, m, x, size', fl');
    }
  }

  lemma MergedSized(cells: seq<Cell>, size: map<nat, nat>, a: nat, b: nat, m: nat, c: seq<Cell>, size': map<nat, nat>)
    requires Sized(cells, size) && a < |cells| == |c| && c == cells[a := c[a]] && c[a].w0 == m && size' == (size - {b})[a := m]
    ensures Sized(c, size')
  {}

  /** The k-th free block swallowed the next one, which it touched; x is the newcomer among the two. */
  lemma Merged(cells: seq<Cell>, used: nat, head: nat, end: nat, size: map<nat, nat>, fl: seq<nat>,
               k: nat, a: nat, b: nat, m: nat, x: nat, c: seq<Cell>, size': map<nat, nat>, fl': seq<nat>)
    requires InvBut(cells, used, head, end, size, fl, x) && k + 1 < |fl| && a == fl[k] && b == fl[k + 1] && (x == a || x == b)
    requires a + size[a] == b && m == size[a] + size[b] && size' == (size - {b})[a := m] && fl' == Without(fl, k + 1)
    requires c == cells[a := Cell(m, cells[b].w1)]
    ensures InvBut(c, used, head, end, size', fl', a)
    ensures Live(c, size', fl') == Live(cells, size, fl)
    ensures x == b || ClearBehind(size, fl, a) ==> ClearBehind(size', fl', a)
  {
    MergedSum(size, fl, k, a, b, m, size');
    MergedOk(size, end, fl, k, a, b, m, x, size', fl');
    MergedListed(head, cells, fl, k, m, c);
    MergedSized(cells, size, a, b, m, c, size');
    LiveMerged(cells, size, fl, c, size', fl', end, a, b, m);
  }

  lemma LiveMerged(cells: seq<Cell>, size: map<nat, nat>, fl: seq<nat>, c: seq<Cell>, size': map<nat, nat>, fl': seq<nat>,
                   end: nat, a: nat, b: nat, m: nat)
    requires Tiled(size, end) && end <= |cells| && Fits(c, size') && a in fl && b in fl && a in size && a != b
    requires |c| == |cells| && a < |cells| && c == cells[a := c[a]] && size' == (size - {b})[a := m]
    requires forall o :: o in fl' <==> o in fl && o != b
    ensures Live(c, size', fl') == Live(cells, size, fl)
  {
    forall p | p in size && p != a ensures KeepsBlock(cells, c, p, size[p]) {
      assert a < p || p + size[p] <= a;
    }
    LiveSame(cells, size, fl, c, size', fl');
  }

  lemma LiveSame(cells: seq<Cell>, size: map<nat, nat>, fl: seq<nat>, c: seq<Cell>, size': map<nat, nat>, fl': seq<nat>)
    requires Fits(cells, size) && Fits(c, size')
    requires forall p :: p in size && p !in fl <==> p in size' && p !in fl'
    requires forall p :: p in size && p !in fl ==> size'[p] == size[p] && KeepsBlock(cells, c, p, size[p])
    ensures Live(c, size', fl') == Live(cells, size, fl)
  {}

  /** The last block, free and touching the end, was unlinked: the blocks now end where it began. */
  lemma Trimmed(cells: seq<Cell>, used: nat, head: nat, end: nat, size: map<nat, nat>, fl: seq<nat>,
                k: nat, x: nat, head': nat, c: seq<Cell>, size': map<nat, nat>, fl': seq<nat>)
    requires InvBut(cells, used, head, end, size, fl, x) && k < |fl| && x == fl[k] && x + size[x] == end && ClearBehind(size, fl, x)
    requires Before(fl, k) < |cells| && c == Link(cells, Before(fl, k), cells[x].w1) && head' == Head(head, Before(fl, k), cells[x].w1)
    requires size' == size - {x} && fl' == Without(fl, k)
    ensures Inv(c, used, head', x, size', fl') && Live(c, size', fl') == Live(cells, size, fl)
  {
    assert Links(cells, fl, k) && fl[0] in fl;
    TrimmedOk(size, end, fl, k, x, size', fl');
    FreeSumDrop(size, fl, k);
    LinkedOut(head, cells, fl, k, head', c);
    ListDrop(head, cells, fl, k, head', c);
    LinkKeeps(cells, size, end, fl, Before(fl, k), cells[x].w1, c);
    LiveSame(cells, size, fl, c, size', fl');
  }

  lemma TrimmedOk(size: map<nat, nat>, end: nat, fl: seq<nat>, k: nat, x: nat, size': map<nat, nat>, fl': seq<nat>)
    requires Tiled(size, end) && FreeOkBut(size, fl, end, x) && ClearBehind(size, fl, x)
    requires k < |fl| && x == fl[k] && x + size[x] == end && size' == size - {x} && fl' == Without(fl, k)
    ensures Tiled(size', x) && FreeOk(size', fl', x) && FreeSum(size', fl') == FreeSum(size, fl')
    ensures forall o :: o in fl' <==> o in fl && o != x
  {
    TileShrink(size, end, x);
    DropAscends(fl, k);
    FreeSumSame(size, size', fl');
  }

  lemma LinkedOut(head: nat, cells: seq<Cell>, fl: seq<nat>, k: nat, head': nat, c: seq<Cell>)
    requires Listed(head, cells, fl) && Ascending(fl) && k < |fl| && fl[0] > 0
    requires Before(fl, k) < |cells| && c == Link(cells, Before(fl, k), At(fl, k + 1)) && head' == Head(head, Before(fl, k), At(fl, k + 1))
    ensures Relinked(head, cells, fl, k, At(fl, k + 1), head', c)
  {}

  lemma LinkKeeps(cells: seq<Cell>, size: map<nat, nat>, end: nat, fl: seq<nat>, prev: nat, v: nat, c: seq<Cell>)
    requires Tiled(size, end) && end <= |cells| && prev < |cells| && c == Link(cells, prev, v)
    requires prev == 0 || (prev in fl && prev in size)
    ensures forall p :: p in size ==> p < |c| && c[p].w0 == cells[p].w0
    ensures forall p :: p in size && p !in fl ==> KeepsBlock(cells, c, p, size[p])
  {
    forall p | p in size && p !in fl ensures KeepsBlock(cells, c, p, size[p]) {
      assert prev != 0 ==> prev < p || p + size[p] <= prev;
    }
  }

  // ---------- What used counts ----------

  /** Where the free blocks from o on begin in the list. */
  ghost predicate Splits(fl: seq<nat>, o: nat, k: nat) {
    && k <= |fl|
    && (forall j :: 0 <= j < k ==> fl[j] < o)
    && (forall j :: k <= j < |fl| ==> o <= fl[j])
  }

  lemma SplitsNext(size: map<nat, nat>, fl: seq<nat>, end: nat, o: nat, o': nat, k: nat)
    requires Tiled(size, end) && o in size && o' == o + size[o] && Ascending(fl) && Splits(fl, o, k) && forall p :: p in fl ==> p in size
    ensures if o in fl then k < |fl| && fl[k] == o && Splits(fl, o', k + 1) else Splits(fl, o', k)
  {
    forall j | k <= j < |fl| && fl[j] != o ensures o' <= fl[j] {
      assert fl[j] in fl;
    }
    if k < |fl| && fl[k] != o {
      assert forall j :: k <= j < |fl| ==> fl[k] <= fl[j];
    }
  }

  /** Free and live blocks together fill the page: at o, k of the free blocks lie behind. */
  lemma {:induction false} Balance(size: map<nat, nat>, fl: seq<nat>, end: nat, o: nat, k: nat)
    requires Tiled(size, end) && (o == end || o in size) && Ascending(fl) && Splits(fl, o, k) && forall p :: p in fl ==> p in size
    ensures LiveSum(size, fl, end, o) + FreeSum(size, fl) == end - o + FreeSum(size, fl[..k])
    decreases end - o
  {
    if o == end {
      forall j | 0 <= j < |fl| ensures fl[j] < end {
        assert fl[j] in fl;
      }
      assert fl[..k] == fl;
    } else {
      var o': nat := o + size[o];
      assert Leads(size, end, o);
      SplitsNext(size, fl, end, o, o', k);
      if o in fl {
        assert fl[..k + 1][..k] == fl[..k];
        Balance(size, fl, end, o', k + 1);
      } else {
        Balance(size, fl, end, o', k);
      }
    }
  }

  /** The used field is the sum of the sizes of the live blocks. */
  lemma UsedIsLive(cells: seq<Cell>, used: nat, head: nat, end: nat, size: map<nat, nat>, fl: seq<nat>)
    requires Inv(cells, used, head, end, size, fl)
    ensures used == LiveSum(size, fl, end, HDR)
  {
    forall j | 0 <= j < |fl| ensures HDR <= fl[j] {
      assert fl[j] in fl;
    }
    Balance(size, fl, end, HDR, 0);
  }

  lemma {:induction false} LiveSumCounts(size: map<nat, nat>, fl: seq<nat>, end: nat, o: nat, p: nat, q: nat)
    requires Tiled(size, end) && o in size && o <= p && p in size && p !in fl
    requires q in size && q !in fl && o <= q
    ensures LiveSum(size, fl, end, o) >= (if p == q then size[p] else size[p] + size[q])
    decreases end - o
  {
    assert Leads(size, end, o);
    if o < p || o < q {
      LiveSumCounts(size, fl, end, o + size[o], if o < p then p else q, if o < q then q else p);
    }
  }

  /** A block that accounts for all of used is the only live one. */
  lemma LastLive(cells: seq<Cell>, used: nat, head: nat, end: nat, size: map<nat, nat>, fl: seq<nat>, o: nat)
    requires Inv(cells, used, head, end, size, fl) && o in size && o !in fl && used <= size[o]
    ensures used == size[o] && Live(cells, size, fl) - {o} == map[]
  {
    UsedIsLive(cells, used, head, end, size, fl);
    forall p | p in size && p !in fl ensures p == o {
      LiveSumCounts(size, fl, end, HDR, o, p);
    }
    LiveSumCounts(size, fl, end, HDR, o, o);
  }

  lemma UsedBelow(cells: seq<Cell>, used: nat, head: nat, end: nat, size: map<nat, nat>, fl: seq<nat>)
    requires Inv(cells, used, head, end, size, fl)
    ensures used <= end - HDR
  {}

  // ---------- Facts the freeing loops look up ----------

  /** Overwriting a live block leaves the listed links alone. */
  lemma FilledListed(cells: seq<Cell>, head: nat, end: nat, size: map<nat, nat>, fl: seq<nat>, o: nat, e: nat, c: seq<Cell>)
    requires Tiled(size, end) && FreeOk(size, fl, end) && Listed(head, cells, fl) && end <= |cells|
    requires o in size && o !in fl && e == o + size[o]
    requires |c| == |cells| && forall i :: 0 <= i < |cells| && !(o <= i < e) ==> c[i] == cells[i]
    ensures Listed(head, c, fl)
  {
    FreeApart(size, fl, end, o, e);
    ListedSame(head, cells, fl, c);
  }

  /** If the next listed block does not start where the k-th ends, no free block does. */
  lemma NextClear(size: map<nat, nat>, fl: seq<nat>, end: nat, k: nat, x: nat)
    requires Tiled(size, end) && Ascending(fl) && k < |fl| && x == fl[k] && forall o :: o in fl ==> o in size
    requires k + 1 < |fl| ==> x + size[x] != fl[k + 1]
    ensures ClearAhead(size, fl, x)
  {
    forall j | 0 <= j < |fl| ensures fl[j] != x + size[x] {
      if k < j {
        assert fl[k + 1] in fl && x < fl[k + 1] <= fl[j];
      } else {
        assert fl[j] <= x;
      }
    }
  }

  /** If the listed block before the k-th does not end where that one starts, no free block does. */
  lemma PrevClear(size: map<nat, nat>, fl: seq<nat>, end: nat, k: nat, x: nat)
    requires Tiled(size, end) && Ascending(fl) && k < |fl| && x == fl[k] && forall o :: o in fl ==> o in size
    requires k > 0 ==> fl[k - 1] + size[fl[k - 1]] != x
    ensures ClearBehind(size, fl, x)
  {
    forall p | p in fl && p in size ensures p + size[p] != x {
      var j :| 0 <= j < |fl| && fl[j] == p;
      if j < k - 1 {
        assert fl[j] < fl[k - 1] < fl[k] && fl[k - 1] in fl;
      }
    }
  }

  /** What the cell of the k-th listed block says. */
  lemma PrevClearBut(cells: seq<Cell>, used: nat, head: nat, end: nat, size: map<nat, nat>, fl: seq<nat>, k: nat, x: nat)
    requires InvBut(cells, used, head, end, size, fl, x) && k < |fl| && x == fl[k]
    requires k > 0 ==> fl[k - 1] in size && fl[k - 1] + size[fl[k - 1]] != x
    ensures ClearBehind(size, fl, x)
  {
    PrevClear(size, fl, end, k, x);
  }

  lemma ListedCell(cells: seq<Cell>, used: nat, head: nat, end: nat, size: map<nat, nat>, fl: seq<nat>, x: nat, k: nat)
    requires InvBut(cells, used, head, end, size, fl, x) && k < |fl|
    ensures fl[k] in size && fl[k] < |cells| && cells[fl[k]].w0 == size[fl[k]]
    ensures if k + 1 < |fl| then cells[fl[k]].w1 == fl[k + 1] && fl[k + 1] > 0 else cells[fl[k]].w1 == 0
  {
    assert fl[k] in fl && Links(cells, fl, k);
    assert k + 1 < |fl| ==> fl[k + 1] in fl;
  }

  lemma DropKeeps(fl: seq<nat>, k: nat)
    requires k + 1 < |fl|
    ensures Before(Without(fl, k + 1), k) == Before(fl, k) && Without(fl, k + 1)[k] == fl[k] && |Without(fl, k + 1)| == |fl| - 1
  {}

  lemma InsertedAt(fl: seq<nat>, k: nat, o: nat)
    requires k <= |fl|
    ensures k < |Insert(fl, k, o)| && Insert(fl, k, o)[k] == o
  {}

  lemma PrevBounds(cells: seq<Cell>, used: nat, head: nat, end: nat, size: map<nat, nat>, fl: seq<nat>, x: nat, k: nat)
    requires InvBut(cells, used, head, end, size, fl, x) && k < |fl|
    ensures HDR <= fl[k] < |cells| && Before(fl, k) < fl[k] && (Before(fl, k) == 0 <==> k == 0)
  {
    assert fl[k] in fl;
    assert k > 0 ==> fl[k - 1] in fl;
  }

  // ---------- Growing in place ----------

  lemma RegrownLive(live: map<nat, seq<Cell>>, o: nat, p: nat, t: nat)
    requires o in live && p !in live && t >= 1
    ensures (live[p := Zeros(t - 1)] - {p})[o := live[o] + [ZERO] + Zeros(t - 1)] == live[o := live[o] + Zeros(t)]
  {
    assert [ZERO] + Zeros(t - 1) == Zeros(t);
    assert live[o] + [ZERO] + Zeros(t - 1) == live[o] + ([ZERO] + Zeros(t - 1));
  }

  /** The live block at o took the first t cells of the free block p = fl[k] behind it. */
  lemma Grown(cells: seq<Cell>, used: nat, head: nat, end: nat, size: map<nat, nat>, fl: seq<nat>,
              o: nat, k: nat, p: nat, t: nat, q: nat, m: nat, want: nat, c1: seq<Cell>, c: seq<Cell>,
              used': nat, head': nat, size1: map<nat, nat>, size': map<nat, nat>, fl': seq<nat>, live: map<nat, seq<Cell>>)
    requires Inv(cells, used, head, end, size, fl) && live == Live(cells, size, fl)
    requires o in live && k < |fl| && p == fl[k] && o + size[o] == p && want == size[o] + t
    requires t >= 1 && size[p] == t + m && q == p + t && Before(fl, k) < p && c1 == DetachedCells(cells, Before(fl, k), p, t)
    requires c == FusedCells(c1, o, p, want) && used' == used + t && head' == Head(head, Before(fl, k), DetachedLink(cells, p, t))
    requires size1 == CarvedSize(size, p, t, q, m) && fl' == CarvedList(fl, k, q, m) && size' == (size1 - {p})[o := want]
    ensures Inv(c, used', head', end, size', fl')
    ensures Live(c, size', fl') == live[o := live[o] + Zeros(t)]
  {
    Carved(cells, used, head, end, size, fl, k, p, t, q, m, c1, used', head', size1, fl');
    CarvedAt(size, fl, k, o, p, t, q, m);
    Fused(c1, used', head', end, size1, fl', o, p, want, c, size', live[p := Zeros(t - 1)]);
    RegrownLive(live, o, p, t);
  }

  lemma CarvedAt(size: map<nat, nat>, fl: seq<nat>, k: nat, o: nat, p: nat, t: nat, q: nat, m: nat)
    requires k < |fl| && p == fl[k] && p in size && size[p] == t + m && q == p + t && t >= 1 && o in size && o < p
    ensures var s := CarvedSize(size, p, t, q, m); o in s && p in s && s[o] == size[o] && s[p] == t
  {}

  /** The live block at o, the last one, took t cells past the end. */
  lemma GrownTail(cells: seq<Cell>, used: nat, head: nat, end: nat, size: map<nat, nat>, fl: seq<nat>,
                  o: nat, t: nat, end': nat, want: nat, c1: seq<Cell>, c: seq<Cell>,
                  used': nat, size1: map<nat, nat>, size': map<nat, nat>, live: map<nat, seq<Cell>>)
    requires Inv(cells, used, head, end, size, fl) && live == Live(cells, size, fl)
    requires o in live && o + size[o] == end && want == size[o] + t && t >= 1 && end' == end + t <= CELLS
    requires c1 == BumpedCells(cells, end, t, end') && c == FusedCells(c1, o, end, want) && used' == used + t
    requires size1 == size[end := t] && size' == (size1 - {end})[o := want]
    ensures Inv(c, used', head, end', size', fl)
    ensures Live(c, size', fl) == live[o := live[o] + Zeros(t)]
  {
    Bumped(cells, used, head, end, size, fl, t, end', c1, used', size1);
    Fused(c1, used', head, end', size1, fl, o, end, want, c, size', live[end := Zeros(t - 1)]);
    RegrownLive(live, o, end, t);
  }

  /** What a live block's cell says, and that no link is kept in it. */
  lemma LiveCell(cells: seq<Cell>, used: nat, head: nat, end: nat, size: map<nat, nat>, fl: seq<nat>, o: nat, k: nat)
    requires Inv(cells, used, head, end, size, fl) && o in size && o !in fl && k <= |fl|
    ensures HDR <= o < |cells| == CELLS && cells[o].w0 == size[o] >= 1 && Before(fl, k) != o && Fits(cells, size)
  {
    assert k > 0 ==> fl[k - 1] in fl;
  }

  /** The search for e ended at it if it is listed at all. */
  lemma FoundFrom(fl: seq<nat>, k: nat, e: nat)
    requires Ascending(fl) && k <= |fl| && (k > 0 ==> fl[k - 1] < e) && (k < |fl| ==> e <= fl[k])
    ensures e in fl <==> k < |fl| && fl[k] == e
  {
    forall j | 0 <= j < |fl| ensures j == k || fl[j] != e {
      if j < k {
        assert fl[j] <= fl[k - 1];
      } else if j > k {
        assert fl[k] < fl[j];
      }
    }
  }

  // ---------- Writing into a payload ----------

  ghost function Spliced(cells: seq<Cell>, a: nat, data: seq<Cell>): (r: seq<Cell>)
    requires a + |data| <= |cells|
    ensures |r| == |cells|
  {
    cells[..a] + data + cells[a + |data|..]
  }

  lemma SplicedAt(cells: seq<Cell>, a: nat, data: seq<Cell>, c: seq<Cell>)
    requires a + |data| <= |cells| && c == Spliced(cells, a, data)
    ensures forall i :: 0 <= i < |cells| ==> c[i] == if a <= i < a + |data| then data[i - a] else cells[i]
  {}

  lemma SplicedPayload(cells: seq<Cell>, o: nat, n: nat, a: nat, data: seq<Cell>, c: seq<Cell>)
    requires 1 <= n && o + n <= |cells| && a == o + 1 && |data| <= n - 1 && c == Spliced(cells, a, data)
    ensures Payload(c, o, n) == data + Payload(cells, o, n)[|data|..]
  {}

  /** Overwriting the front of a live payload changes nothing else. */
  lemma Written(cells: seq<Cell>, used: nat, head: nat, end: nat, size: map<nat, nat>, fl: seq<nat>,
                o: nat, a: nat, e: nat, data: seq<Cell>, c: seq<Cell>, live: map<nat, seq<Cell>>)
    requires Inv(cells, used, head, end, size, fl) && live == Live(cells, size, fl) && o in live
    requires a == o + 1 && e == o + size[o] && a + |data| <= e && c == Spliced(cells, a, data)
    ensures Inv(c, used, head, end, size, fl)
    ensures Live(c, size, fl) == live[o := data + live[o][|data|..]]
  {
    SplicedAt(cells, a, data, c);
    WrittenKeeps(cells, size, end, fl, head, o, a, e, c);
    SplicedPayload(cells, o, size[o], a, data, c);
    LiveGained(cells, size, fl, c, size, fl, o, Payload(c, o, size[o]), live, Live(c, size, fl));
  }

  lemma WrittenKeeps(cells: seq<Cell>, size: map<nat, nat>, end: nat, fl: seq<nat>, head: nat, o: nat, a: nat, e: nat, c: seq<Cell>)
    requires Tiled(size, end) && end <= |cells| == |c| && FreeOk(size, fl, end) && Listed(head, cells, fl) && Sized(cells, size)
    requires o in size && o !in fl && a == o + 1 && e == o + size[o]
    requires forall i :: 0 <= i < |cells| && !(a <= i < e) ==> c[i] == cells[i]
    ensures KeepsOthers(cells, c, size, fl, o) && Listed(head, c, fl) && Sized(c, size)
  {
    FilledListed(cells, head, end, size, fl, o, e, c);
    assert Confined(cells, c, o, e, 0);
    OthersKept(cells, c, size, end, fl, o, o, e, 0);
  }

  /** Nothing live can be larger than what is in use. */
  lemma UsedCovers(cells: seq<Cell>, used: nat, head: nat, end: nat, size: map<nat, nat>, fl: seq<nat>, o: nat)
    requires Inv(cells, used, head, end, size, fl) && o in size && o !in fl
    ensures size[o] <= used
  {
    UsedIsLive(cells, used, head, end, size, fl);
    LiveSumCounts(size, fl, end, HDR, o, o);
  }

  /** Two live payloads never share a cell, nor does one reach into another block's header. */
  lemma PayloadsApart(cells: seq<Cell>, used: nat, head: nat, end: nat, size: map<nat, nat>, fl: seq<nat>, o: nat, p: nat)
    requires Inv(cells, used, head, end, size, fl) && o in size && p in size && o != p
    ensures o + size[o] <= p || p + size[p] <= o
    ensures HDR <= o && o + size[o] <= CELLS
  {}
}
