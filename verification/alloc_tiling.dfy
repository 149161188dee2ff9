/** The block layout of one page: offsets and sizes in cells of 16 bytes. */
module AllocTiling {
  import opened Basics

  const HDR: nat := 2
  const CELLS: nat := 256

  /** The block at o ends where the next begins, or at the end. */
  ghost predicate Leads(size: map<nat, nat>, end: nat, o: nat)
    requires o in size
  {
    o + size[o] == end || o + size[o] in size
  }

  /** Block starts and sizes that tile [HDR, end) exactly. */
  ghost predicate Tiled(size: map<nat, nat>, end: nat) {
    && HDR <= end
    && (forall o :: o in size ==> HDR <= o && size[o] >= 1)
    && (forall o {:trigger Leads(size, end, o)} :: o in size ==> Leads(size, end, o))
    && (forall o :: o in size ==> o + size[o] <= end)
    && (end > HDR ==> HDR in size)
    && (forall o, p :: o in size && p in size && o < p ==> o + size[o] <= p)
  }

  lemma Tiles(size: map<nat, nat>, end: nat)
    requires HDR <= end && (end > HDR ==> HDR in size)
    requires forall o :: o in size ==> HDR <= o && size[o] >= 1 && o + size[o] <= end
    requires forall o {:trigger Leads(size, end, o)} :: o in size ==> Leads(size, end, o)
    requires forall o, p :: o in size && p in size && o < p ==> o + size[o] <= p
    ensures Tiled(size, end)
  {}

  lemma GrowBounds(size: map<nat, nat>, end: nat, n: nat, end': nat, size': map<nat, nat>)
    requires Tiled(size, end) && n >= 1 && end' == end + n && size' == size[end := n]
    ensures end !in size && HDR <= end' && HDR in size'
    ensures forall o :: o in size' ==> HDR <= o && size'[o] >= 1 && o + size'[o] <= end'
    ensures forall o, p :: o in size' && p in size' && o < p ==> o + size'[o] <= p
  {}

  lemma GrowLeads(size: map<nat, nat>, end: nat, n: nat, end': nat, size': map<nat, nat>, p: nat)
    requires Tiled(size, end) && n >= 1 && end' == end + n && size' == size[end := n] && p in size'
    ensures Leads(size', end', p)
  {
    assert p in size ==> Leads(size, end, p);
  }

  lemma TileGrow(size: map<nat, nat>, end: nat, n: nat, end': nat)
    requires Tiled(size, end) && n >= 1 && end' == end + n
    ensures end !in size && Tiled(size[end := n], end')
  {
    hide Tiled, Leads;
    var size' := size[end := n];
    GrowBounds(size, end, n, end', size');
    forall p {:trigger Leads(size', end', p)} | p in size' ensures Leads(size', end', p) {
      GrowLeads(size, end, n, end', size', p);
    }
    Tiles(size', end');
  }

  lemma TileShrink(size: map<nat, nat>, end: nat, o: nat)
    requires Tiled(size, end) && o in size && o + size[o] == end
    ensures Tiled(size - {o}, o)
  {
    var size' := size - {o};
    forall p | p in size' ensures Leads(size', o, p) {
      assert Leads(size, end, p);
    }
  }

  lemma SplitLeads(size: map<nat, nat>, end: nat, o: nat, n: nat, q: nat, m: nat, size': map<nat, nat>, p: nat)
    requires Tiled(size, end) && o in size && n >= 1 && m >= 1 && size[o] == n + m && q == o + n
    requires size' == size[o := n][q := m] && p in size'
    ensures HDR <= p && size'[p] >= 1 && p + size'[p] <= end && Leads(size', end, p)
  {
    assert Leads(size, end, o);
    assert p in size ==> Leads(size, end, p);
  }

  lemma TileSplit(size: map<nat, nat>, end: nat, o: nat, n: nat, q: nat, m: nat, size': map<nat, nat>)
    requires Tiled(size, end) && o in size && n >= 1 && m >= 1 && size[o] == n + m && q == o + n
    requires size' == size[o := n][q := m]
    ensures q !in size && Tiled(size', end)
  {
    forall p | p in size' ensures HDR <= p && size'[p] >= 1 && p + size'[p] <= end && Leads(size', end, p) {
      SplitLeads(size, end, o, n, q, m, size', p);
    }
    forall a, b | a in size' && b in size' && a < b ensures a + size'[a] <= b {
      SplitApart(size, end, o, n, q, m, size', a, b);
    }
  }

  lemma SplitApart(size: map<nat, nat>, end: nat, o: nat, n: nat, q: nat, m: nat, size': map<nat, nat>, a: nat, b: nat)
    requires Tiled(size, end) && o in size && n >= 1 && m >= 1 && size[o] == n + m && q == o + n
    requires size' == size[o := n][q := m] && a in size' && b in size' && a < b
    ensures a + size'[a] <= b
  {
    if b == q {
      assert a != o ==> a in size && a < q && a != o;
    } else if a == q {
      assert b in size && o < b;
    }
  }

  lemma MergeLeads(size: map<nat, nat>, end: nat, o: nat, p: nat, m: nat, size': map<nat, nat>, q: nat)
    requires Tiled(size, end) && o in size && p in size && o + size[o] == p && m == size[o] + size[p]
    requires size' == (size - {p})[o := m] && q in size'
    ensures Leads(size', end, q)
  {
    assert Leads(size, end, p);
    if q != o {
      assert Leads(size, end, q);
      assert q < o || o < q;
    }
  }

  lemma MergeApart(size: map<nat, nat>, end: nat, o: nat, p: nat, m: nat, size': map<nat, nat>, a: nat, b: nat)
    requires Tiled(size, end) && o in size && p in size && o + size[o] == p && m == size[o] + size[p]
    requires size' == (size - {p})[o := m] && a in size' && b in size' && a < b
    ensures a + size'[a] <= b
  {
    if a == o {
      assert b in size && b != p && p < b;
    }
  }

  lemma MergeBounds(size: map<nat, nat>, end: nat, o: nat, p: nat, m: nat, size': map<nat, nat>)
    requires Tiled(size, end) && o in size && p in size && o + size[o] == p && m == size[o] + size[p]
    requires size' == (size - {p})[o := m]
    ensures o != p && HDR <= end && HDR in size'
    ensures forall q :: q in size' ==> HDR <= q && size'[q] >= 1 && q + size'[q] <= end
  {
    assert HDR <= o < p && p + size[p] <= end;
  }

  lemma TileMerge(size: map<nat, nat>, end: nat, o: nat, p: nat, m: nat, size': map<nat, nat>)
    requires Tiled(size, end) && o in size && p in size && o + size[o] == p && m == size[o] + size[p]
    requires size' == (size - {p})[o := m]
    ensures o != p && Tiled(size', end)
  {
    hide Tiled, Leads;
    MergeBounds(size, end, o, p, m, size');
    forall q {:trigger Leads(size', end, q)} | q in size' ensures Leads(size', end, q) {
      MergeLeads(size, end, o, p, m, size', q);
    }
    forall a, b | a in size' && b in size' && a < b ensures a + size'[a] <= b {
      MergeApart(size, end, o, p, m, size', a, b);
    }
    Tiles(size', end);
  }

  /** Every cell of the tiled range lies in exactly one block. */
  lemma Covered(size: map<nat, nat>, end: nat, cell: nat)
    requires Tiled(size, end) && HDR <= cell < end
    ensures exists o :: o in size && o <= cell < o + size[o]
    ensures forall o, p :: o in size && p in size && o <= cell < o + size[o] && p <= cell < p + size[p] ==> o == p
  {
    var o: nat := HDR;
    while cell >= o + size[o]
      invariant o in size && o <= cell
      decreases cell - o
    {
      assert Leads(size, end, o);
      o := o + size[o];
    }
  }

  // ---------- Free lists ----------

  ghost predicate Ascending(fl: seq<nat>) {
    forall i, j :: 0 <= i < j < |fl| ==> fl[i] < fl[j]
  }

  /** The free blocks: address-ordered, none touching another or the end. */
  ghost predicate FreeOk(size: map<nat, nat>, fl: seq<nat>, end: nat) {
    && Ascending(fl)
    && (forall o :: o in fl ==> o in size && o + size[o] != end)
    && (forall o, p :: o in fl && p in fl ==> o + size[o] != p)
  }

  ghost function FreeSum(size: map<nat, nat>, fl: seq<nat>): nat {
    if fl == [] then 0
    else FreeSum(size, fl[..|fl| - 1]) + if fl[|fl| - 1] in size then size[fl[|fl| - 1]] else 0
  }

  lemma {:induction false} FreeSumDrop(size: map<nat, nat>, fl: seq<nat>, k: nat)
    requires k < |fl| && fl[k] in size
    ensures FreeSum(size, fl) == FreeSum(size, Without(fl, k)) + size[fl[k]]
    decreases |fl|
  {
    var m := |fl| - 1;
    if k == m {
      assert Without(fl, k) == fl[..m];
    } else {
      FreeSumDrop(size, fl[..m], k);
      assert Without(fl, k)[..m - 1] == Without(fl[..m], k);
    }
  }

  /** Only the sizes of listed blocks matter. */
  lemma {:induction false} FreeSumSame(size: map<nat, nat>, size': map<nat, nat>, fl: seq<nat>)
    requires forall o :: o in fl ==> o in size && o in size' && size[o] == size'[o]
    ensures FreeSum(size, fl) == FreeSum(size', fl)
  {
    if fl != [] {
      FreeSumSame(size, size', fl[..|fl| - 1]);
    }
  }

  /** Sum of the sizes of the blocks at o and beyond that are not free. */
  ghost function LiveSum(size: map<nat, nat>, fl: seq<nat>, end: nat, o: nat): nat
    requires Tiled(size, end) && (o == end || o in size)
    decreases end - o
  {
    assert o in size ==> Leads(size, end, o);
    if o == end then 0 else (if o in fl then 0 else size[o]) + LiveSum(size, fl, end, o + size[o])
  }

  // ---------- Changes of the free list ----------

  ghost function Insert(fl: seq<nat>, k: nat, o: nat): seq<nat>
    requires k <= |fl|
  {
    fl[..k] + [o] + fl[k..]
  }

  lemma DropAscends(fl: seq<nat>, k: nat)
    requires Ascending(fl) && k < |fl|
    ensures Ascending(Without(fl, k))
    ensures forall o :: o in Without(fl, k) <==> o in fl && o != fl[k]
  {
    var d := Without(fl, k);
    forall o | o in fl && o != fl[k] ensures o in d {
      var i :| 0 <= i < |fl| && fl[i] == o;
      assert d[if i < k then i else i - 1] == o;
    }
  }

  lemma InsertAscends(fl: seq<nat>, k: nat, o: nat)
    requires Ascending(fl) && k <= |fl|
    requires (k > 0 ==> fl[k - 1] < o) && (k < |fl| ==> o < fl[k])
    ensures Ascending(Insert(fl, k, o)) && o !in fl
    ensures forall p :: p in Insert(fl, k, o) <==> p in fl || p == o
  {
    var n := Insert(fl, k, o);
    forall i, j | 0 <= i < j < |n| ensures n[i] < n[j] {
      assert i < k ==> n[i] == fl[i] && fl[i] <= fl[k - 1];
      assert j > k ==> n[j] == fl[j - 1] && fl[k] <= fl[j - 1];
      assert i > k ==> n[i] == fl[i - 1];
      assert j < k ==> n[j] == fl[j];
    }
    InsertMembers(fl, k, o);
    assert forall i :: 0 <= i < |fl| ==> fl[i] < o || o < fl[i];
  }

  lemma InsertMembers(fl: seq<nat>, k: nat, o: nat)
    requires k <= |fl|
    ensures forall p :: p in Insert(fl, k, o) <==> p in fl || p == o
  {
    assert fl == fl[..k] + fl[k..];
  }

  /** Allocating a whole free block. */
  lemma FreeTaken(size: map<nat, nat>, fl: seq<nat>, end: nat, k: nat)
    requires FreeOk(size, fl, end) && k < |fl|
    ensures FreeOk(size, Without(fl, k), end)
    ensures FreeSum(size, fl) == FreeSum(size, Without(fl, k)) + size[fl[k]]
  {
    DropAscends(fl, k);
    FreeSumDrop(size, fl, k);
  }

  /** Free blocks keep their standing while their own sizes do. */
  lemma FreeSame(size: map<nat, nat>, size': map<nat, nat>, fl: seq<nat>, end: nat, end': nat)
    requires FreeOk(size, fl, end) && forall o :: o in fl ==> o in size' && size[o] == size'[o]
    requires forall o :: o in fl ==> o + size'[o] != end'
    ensures FreeOk(size', fl, end') && FreeSum(size', fl) == FreeSum(size, fl)
  {
    FreeSumSame(size, size', fl);
    assert forall o, p :: o in fl && p in fl ==> o + size'[o] != p;
  }

  /** A block that touches neither a free block nor the end may join the list at its place. */
  lemma FreeAdded(size: map<nat, nat>, fl: seq<nat>, end: nat, k: nat, o: nat)
    requires FreeOk(size, fl, end) && k <= |fl| && o in size && size[o] >= 1
    requires (k > 0 ==> fl[k - 1] < o) && (k < |fl| ==> o < fl[k])
    requires o + size[o] != end && forall p :: p in fl ==> o + size[o] != p && p + size[p] != o
    ensures FreeOk(size, Insert(fl, k, o), end)
    ensures FreeSum(size, Insert(fl, k, o)) == FreeSum(size, fl) + size[o]
  {
    FreeSumInsert(size, fl, k, o);
    InsertAscends(fl, k, o);
    var n := Insert(fl, k, o);
    forall p, q | p in n && q in n ensures p + size[p] != q {
      if p != o && q != o {
        assert p in fl && q in fl;
      }
    }
  }

  lemma FreeSumInsert(size: map<nat, nat>, fl: seq<nat>, k: nat, o: nat)
    requires k <= |fl| && o in size
    ensures FreeSum(size, Insert(fl, k, o)) == FreeSum(size, fl) + size[o]
  {
    assert Without(Insert(fl, k, o), k) == fl;
    FreeSumDrop(size, Insert(fl, k, o), k);
  }

  /** Allocating the first n cells of a larger free block; m cells at q stay free. */
  lemma FreeSplit(size: map<nat, nat>, fl: seq<nat>, end: nat, k: nat, n: nat, q: nat, m: nat, size': map<nat, nat>)
    requires Tiled(size, end) && FreeOk(size, fl, end) && k < |fl|
    requires n >= 1 && m >= 1 && size[fl[k]] == n + m && q == fl[k] + n
    requires size' == size[fl[k] := n][q := m]
    ensures Tiled(size', end) && FreeOk(size', fl[k := q], end)
    ensures FreeSum(size, fl) == FreeSum(size', fl[k := q]) + n
    ensures forall p :: p in fl[k := q] <==> p == q || (p in fl && p != fl[k])
  {
    var o, rest := fl[k], Without(fl, k);
    assert o in size;
    hide Tiled, FreeSum, Without, Insert, Ascending;
    TileSplit(size, end, o, n, q, m, size');
    FreeTaken(size, fl, end, k);
    DropAscends(fl, k);
    Replaced(fl, k, q);
    RestApart(size, fl, end, k, n, q);
    FreeSame(size, size', rest, end, end);
    InsertAscends(rest, k, q);
    FreeAdded(size', rest, end, k, q);
  }

  /** The other free blocks lie wholly before or wholly after the k-th. */
  lemma Replaced(fl: seq<nat>, k: nat, q: nat)
    requires k < |fl|
    ensures |Without(fl, k)| == |fl| - 1 && fl[k := q] == Insert(Without(fl, k), k, q)
  {}

  lemma RestApart(size: map<nat, nat>, fl: seq<nat>, end: nat, k: nat, n: nat, q: nat)
    requires Tiled(size, end) && FreeOk(size, fl, end) && k < |fl| && 1 <= n < size[fl[k]] && q == fl[k] + n
    ensures forall p :: p in Without(fl, k) ==> p != fl[k] && p != q && p + size[p] != q && fl[k] + size[fl[k]] != p
    ensures k > 0 ==> Without(fl, k)[k - 1] < q
    ensures k < |fl| - 1 ==> q < Without(fl, k)[k]
  {
    DropAscends(fl, k);
    assert forall p :: p in fl && p != fl[k] ==> p + size[p] <= fl[k] || fl[k] + size[fl[k]] <= p;
    assert k < |fl| - 1 ==> fl[k + 1] in fl;
  }
}
