/** The allocator: zalloc, release and reallocate over the page chain and the registry of large allocations. */
module Allocator {
  import opened AllocTiling
  import opened AllocMemory
  import opened AllocPage
  import opened AllocPtr
  import opened AllocHeap
  import opened AllocRegistry
  import opened AllocChain

  /** Cells of the block for a request of so many bytes: the header cell and the payload rounded up. */
  function CellsFor(bytes: nat): (n: nat)
    ensures n >= 1 && 16 * (n - 1) >= bytes && (n >= 2 ==> 16 * (n - 2) < bytes)
  {
    (bytes + 31) / 16
  }

  /** Whole pages for n cells. */
  function PagesFor(n: nat): (c: nat)
    ensures c % CELLS == 0 && n <= c < n + CELLS
  {
    (n + CELLS - 1) / CELLS * CELLS
  }

  lemma FitsRegion(bytes: nat, size: nat)
    requires size >= 1
    ensures bytes <= 16 * size - 16 <==> CellsFor(bytes) <= size
  {}

  class Heap {
    const chain: PageChain
    const registry: Registry

    ghost predicate Apart()
      reads chain, chain.pages, registry, registry.pages
    {
      && chain.Repr() !! registry.Repr()
      && (forall p :: p in registry.table ==> p.Whole? && registry.table[p] == p.region.cells.Length >= LARGE)
      && (forall p :: p in registry.table && p.Whole? ==> p.region.cells !in chain.Repr() && p.region.cells !in registry.Repr())
    }

    ghost predicate Valid()
      reads chain, chain.pages, chain.Repr(), registry, registry.pages, registry.Repr()
    {
      chain.Valid() && registry.Valid() && Apart()
    }

    ghost function Large(): map<Ptr, seq<Cell>>
      reads registry, set p | p in registry.table && p.Whole? :: p.region.cells
    {
      map p | p in registry.table && p.Whole? :: p.region.cells[..]
    }

    /** Every live pointer with its payload. */
    ghost function Contents(): map<Ptr, seq<Cell>>
      reads chain, chain.pages, chain.Repr(), registry, set p | p in registry.table && p.Whole? :: p.region.cells
    {
      chain.Contents() + Large()
    }

    constructor ()
      ensures Valid() && Contents() == map[]
    {
      chain := new PageChain();
      registry := new Registry();
    }

    /** A request served from the pages. */
    method ServeSmall(n: nat) returns (p: Ptr)
      requires Valid() && chain.pages != [] && 1 <= n < LARGE
      modifies chain.Repr()
      ensures Valid() && fresh(chain.Repr() - old(chain.Repr())) && (p == Null ==> Contents() == old(Contents()))
      ensures p != Null ==> p.InPage? && p !in old(Contents()) && Contents() == old(Contents())[p := Zeros(n - 1)]
    {
      hide PageChain.Valid, PageChain.Contents, Registry.Valid;
      ghost var a, b := chain.Contents(), Large();
      p := chain.Allocate(n);
      assert Large() == b;
      if p != Null {
        PutLeft(a, b, p, Zeros(n - 1));
      }
    }

    /** fallback_proxy: whole zeroed pages, recorded unless there is no room for the record. */
    method FallbackProxy(n: nat) returns (p: Ptr)
      requires Valid() && n >= LARGE
      modifies registry.Repr()
      ensures Valid() && fresh(registry.Repr() - old(registry.Repr())) && (p == Null ==> Contents() == old(Contents()))
      ensures p != Null ==>
        && Obtained(p, n) && Own(p) && p !in old(Contents())
        && Contents() == if p in registry.table then old(Contents())[p := Zeros(PagesFor(n))] else old(Contents())
    {
      hide PageChain.Valid, PageChain.Contents, Registry.Valid;
      registry.FirstPage();
      if registry.first == null {
        var begun := OpenRegistry();
        if !begun {
          return Null;
        }
      }
      var obtained := *;
      if !obtained {
        return Null;
      }
      p := Obtain(n);
    }

    method OpenRegistry() returns (ok: bool)
      requires Valid() && registry.pages == []
      modifies registry.Repr()
      ensures Valid() && Contents() == old(Contents()) && registry.table == old(registry.table)
      ensures (ok ==> registry.pages != []) && fresh(registry.Repr() - old(registry.Repr()))
    {
      hide PageChain.Valid, PageChain.Contents, Registry.Valid;
      ghost var b := Large();
      registry.FirstPage();
      ok := registry.Open();
      assert Large() == b;
    }

    /** Zeroed pages that did not exist before. */
    twostate predicate Obtained(new p: Ptr, n: nat)
      reads if p.Whole? then {p.region.cells} else {}
    {
      p.Whole? && fresh(p.region) && fresh(p.region.cells) && p.region.cells[..] == Zeros(PagesFor(n))
    }

    /** The memory of r belongs to no page and to no other recorded allocation. */
    ghost predicate Own(r: Ptr)
      reads chain, chain.pages, registry, registry.pages
    {
      && r.Whole? && r.region.cells !in chain.Repr() && r.region.cells !in registry.Repr()
      && forall p :: p in registry.table && p != r && p.Whole? ==> p.region.cells != r.region.cells
    }

    /** Records a large allocation, if there is room for the record. */
    method Record(p: Ptr, c: nat) returns (ok: bool)
      requires Valid() && registry.pages != [] && Own(p) && p !in registry.table && c == p.region.cells.Length >= LARGE
      modifies registry.Repr()
      ensures Valid() && Own(p) && fresh(registry.Repr() - old(registry.Repr()))
      ensures registry.table == if ok then old(registry.table)[p := c] else old(registry.table)
    {
      hide PageChain.Valid, Registry.Valid;
      ok := registry.Register(p, c);
    }

    /** The recorded payloads after that. */
    method Enter(p: Ptr, c: nat)
      requires Valid() && registry.pages != [] && Own(p) && p !in registry.table && c == p.region.cells.Length >= LARGE
      modifies registry.Repr()
      ensures Valid() && Own(p) && fresh(registry.Repr() - old(registry.Repr()))
      ensures Large() == if p in registry.table then old(Large())[p := p.region.cells[..]] else old(Large())
    {
      hide PageChain.Valid, Registry.Valid, PageChain.Contents;
      var ok := Record(p, c);
    }

    /** Pages nobody else has. */
    method NewRegion(c: nat) returns (p: Ptr)
      requires Valid()
      ensures Valid() && Own(p) && fresh(p.region) && fresh(p.region.cells) && p.region.cells[..] == Zeros(c)
      ensures p !in registry.table && p !in old(Contents()) && Contents() == old(Contents())
    {
      hide PageChain.Valid, PageChain.Contents, Registry.Valid;
      chain.ContentsInPages();
      var region := new Region(c);
      p := Whole(region);
      assert chain.Contents() == old(chain.Contents()) && Large() == old(Large());
    }

    /** Obtains pages and records them. */
    method Obtain(n: nat) returns (p: Ptr)
      requires Valid() && n >= LARGE && registry.pages != []
      modifies registry.Repr()
      ensures Valid() && Obtained(p, n) && Own(p) && p !in old(Contents()) && fresh(registry.Repr() - old(registry.Repr()))
      ensures Contents() == if p in registry.table then old(Contents())[p := Zeros(PagesFor(n))] else old(Contents())
    {
      hide PageChain.Valid, PageChain.Contents, Registry.Valid;
      var c := PagesFor(n);
      p := NewRegion(c);
      ghost var a, b := chain.Contents(), Large();
      Enter(p, c);
      assert chain.Contents() == a;
      PutRight(a, b, p, Zeros(c));
    }

    /** What allocate has done for a request of n cells when it returns p. */
    ghost predicate Served(c: map<Ptr, seq<Cell>>, p: Ptr, n: nat)
      reads this, chain, chain.pages, chain.Repr(), registry, registry.pages, set q | q in registry.table && q.Whole? :: q.region.cells,
            if p.Whole? then {p.region.cells} else {}
    {
      match p
      case Null => Contents() == c
      case InPage(_, _) => 1 <= n < LARGE && p !in c && Contents() == c[p := Zeros(n - 1)]
      case Whole(_) =>
        && n >= LARGE && p !in c && Own(p) && p.region.cells[..] == Zeros(PagesFor(n))
        && Contents() == if p in registry.table then c[p := Zeros(PagesFor(n))] else c
    }

    /** allocate: from a page if the request fits in one. */
    method Allocate(n: nat) returns (p: Ptr)
      requires Valid() && chain.pages != [] && n >= 1
      modifies chain.Repr(), registry.Repr()
      ensures Valid() && fresh(chain.Repr() - old(chain.Repr())) && fresh(registry.Repr() - old(registry.Repr()))
      ensures Served(old(Contents()), p, n) && (p.Whole? ==> fresh(p.region) && fresh(p.region.cells))
    {
      hide Heap.Apart, Heap.Large, Heap.Own, PageChain.Valid, PageChain.Contents, Registry.Valid;
      if n >= LARGE {
        p := FallbackProxy(n);
      } else {
        p := ServeSmall(n);
      }
    }

    /** zalloc: zeroed memory for so many bytes. */
    method Zalloc(bytes: nat) returns (p: Ptr)
      requires Valid()
      modifies chain.Repr(), registry.Repr()
      ensures Valid() && fresh(chain.Repr() - old(chain.Repr())) && fresh(registry.Repr() - old(registry.Repr()))
      ensures Served(old(Contents()), p, CellsFor(bytes)) && (p.Whole? ==> fresh(p.region) && fresh(p.region.cells))
    {
      hide CellsFor, Heap.Apart, Heap.Large, Heap.Own, PageChain.Valid, PageChain.Contents, Registry.Valid;
      chain.FirstPage();
      if chain.first == null {
        var obtained := *;
        if !obtained {
          return Null;
        }
        Begin();
      }
      p := Allocate(CellsFor(bytes));
    }

    /** Obtains the first page of the chain. */
    method Begin()
      requires Valid() && chain.pages == []
      modifies chain
      ensures Valid() && chain.pages != [] && Contents() == old(Contents()) && fresh(chain.Repr() - old(chain.Repr()))
    {
      hide PageChain.Contents, PageChain.Valid, Registry.Valid;
      ghost var b := Large();
      chain.Begin();
      assert Large() == b;
    }

    /** release of a pointer into a page. */
    method ReleaseSmall(p: Ptr) returns (ok: bool)
      requires Valid() && p.InPage? && p in Contents()
      modifies chain.Repr()
      ensures ok && Valid() && Contents() == old(Contents()) - {p} && registry.table == old(registry.table)
    {
      hide PageChain.Valid, HeapOf, Registry.Valid, Page.Valid, Page.View;
      ghost var a, b := chain.Contents(), Large();
      PutLeft(a, b, p, []);
      InHeap(chain.Small(), p.page, p.at);
      ok := FreeAt(p.page, p.at);
      assert Large() == b;
      DropLeft(a, b, p);
    }

    /** What release does inside the pages. */
    method FreeAt(hdr: Page, at: nat) returns (ok: bool)
      requires chain.Valid() && hdr in chain.pages && at in hdr.View()
      modifies chain.Repr()
      ensures ok && chain.Valid() && chain.Contents() == old(chain.Contents()) - {InPage(hdr, at)}
      ensures chain.Repr() <= old(chain.Repr())
    {
      LiveCell(hdr.cells[..], hdr.used, hdr.freeBlock, hdr.End(), hdr.size, hdr.fl, at, 0);
      UsedCovers(hdr.cells[..], hdr.used, hdr.freeBlock, hdr.End(), hdr.size, hdr.fl, at);
      var n := hdr.cells[at].w0;
      if n < 1 || at + n > CELLS {
        return false;
      }
      if hdr.used < n {
        return false;
      }
      if hdr.used - n == 0 {
        if hdr == chain.first {
          chain.FreeFirst(hdr, at, n);
        } else {
          assert hdr.cells in chain.Repr() && forall q :: q in chain.pages ==> q in chain.Repr();
          chain.FreePage(hdr, at, n);
        }
        return true;
      }
      ok := chain.FreeBlock(hdr, at, n);
    }

    /** Drops the record of a large allocation, if there is one. */
    method Forget(p: Ptr)
      requires Valid() && p.Whole?
      modifies registry.Repr()
      ensures Valid() && Large() == old(Large()) - {p} && registry.Repr() == old(registry.Repr()) && registry.table == old(registry.table) - {p}
    {
      hide PageChain.Valid, Registry.Valid;
      var size := registry.AllocSize(p);
      if size != 0 {
        registry.Unregister(p);
      }
    }

    /** release of a large allocation. */
    method ReleaseLarge(p: Ptr)
      requires Valid() && p.Whole?
      modifies registry.Repr()
      ensures Valid() && Contents() == old(Contents()) - {p}
      ensures registry.Repr() == old(registry.Repr()) && registry.table == old(registry.table) - {p}
    {
      hide PageChain.Valid, PageChain.Contents, Registry.Valid;
      chain.ContentsInPages();
      DropRight(chain.Contents(), Large(), p);
      Forget(p);
      assert chain.Contents() == old(chain.Contents());
    }

    /** release: whatever the pointer is, exactly its payload is no longer live. */
    method Release(p: Ptr) returns (ok: bool)
      requires Valid() && (p.InPage? ==> p in Contents())
      modifies chain.Repr(), registry.Repr()
      ensures ok && Valid() && Contents() == old(Contents()) - {p}
      ensures registry.table == old(registry.table) - {p}
    {
      hide PageChain.Valid, PageChain.Contents, Registry.Valid;
      ok := true;
      if p.Whole? {
        ReleaseLarge(p);
      } else if p.InPage? {
        ok := ReleaseSmall(p);
      } else {
        NoNull();
      }
    }

    lemma NoNull()
      requires Valid()
      ensures Null !in Contents()
    {
      chain.ContentsInPages();
    }

    // ---------- Reallocation ----------

    lemma PayloadSize(hdr: Page, at: nat)
      requires at in hdr.View()
      ensures at in hdr.size && at < hdr.cells.Length && |hdr.View()[at]| + 1 == hdr.size[at] == hdr.cells[at].w0
    {}

    /** What a live pointer into a page stands for. */
    lemma Inside(p: Ptr)
      requires Valid() && p.InPage? && p in Contents()
      ensures p in chain.Contents() && p.page in chain.pages && p.at in p.page.View()
      ensures chain.Contents()[p] == Contents()[p] == p.page.View()[p.at]
    {
      PutLeft(chain.Contents(), Large(), p, []);
      InHeap(chain.Small(), p.page, p.at);
    }

    /** Tries to extend the block of p to want cells where it lies. */
    method GrowInPlace(p: Ptr, want: nat, ghost t: nat) returns (ok: bool)
      requires Valid() && p.InPage? && p in Contents() && want == |Contents()[p]| + 1 + t && t >= 1
      modifies chain.Repr()
      ensures Valid() && chain.Repr() == old(chain.Repr())
      ensures Contents() == if ok then old(Contents()[p := Contents()[p] + Zeros(t)]) else old(Contents())
    {
      hide Inv, HeapOf, PageChain.Valid, PageChain.Contents, Registry.Valid, Page.View;
      ghost var a, b := chain.Contents(), Large();
      Inside(p);
      PayloadSize(p.page, p.at);
      ghost var d := a[p] + Zeros(t);
      ghost var e: nat := p.at + p.page.size[p.at];
      assert p.page in chain.Repr() && p.page.cells in chain.Repr();
      ok := chain.GrowBlock(p.page, p.at, want, e, t);
      assert Large() == b;
      if ok {
        PutLeft(a, b, p, d);
      }
    }

    lemma PayloadIn(hdr: Page, at: nat, len: nat)
      requires at in hdr.View() && len == |hdr.View()[at]|
      ensures at + 1 + len <= hdr.cells.Length && hdr.cells[at + 1..at + 1 + len] == hdr.View()[at]
    {}

    lemma BlocksApart(hdr: Page, o: nat, p: nat)
      requires o in hdr.View() && p in hdr.View() && o != p
      ensures o + |hdr.View()[o]| + 1 <= p || p + |hdr.View()[p]| + 1 <= o
    {
      PayloadsApart(hdr.cells[..], hdr.used, hdr.freeBlock, hdr.End(), hdr.size, hdr.fl, o, p);
    }

    lemma ArraysApart(q: Page, r: Page)
      requires chain.Valid() && q in chain.pages && r in chain.pages && q != r
      ensures q.cells != r.cells
    {}

    /** The cells of one live block are not those of another. */
    lemma CellsApart(p: Ptr, r: Ptr)
      requires chain.Valid() && p.InPage? && r.InPage? && p != r && p.page in chain.pages && r.page in chain.pages
      requires p.at in p.page.View() && r.at in r.page.View()
      ensures var e := p.at + 1 + |p.page.View()[p.at]|;
        && e <= p.page.cells.Length && p.page.cells[p.at + 1..e] == p.page.View()[p.at]
        && (p.page.cells == r.page.cells ==> e <= r.at || r.at + |r.page.View()[r.at]| + 1 <= p.at)
    {
      hide PageChain.Valid, PageChain.Contents, Page.View;
      PayloadIn(p.page, p.at, |p.page.View()[p.at]|);
      if p.page == r.page {
        BlocksApart(p.page, p.at, r.at);
      } else {
        ArraysApart(p.page, r.page);
      }
    }

    /** memcpy of len cells of p's payload to the block of r. */
    method CopyToBlock(p: Ptr, r: Ptr, len: nat)
      requires Valid() && p.InPage? && r.InPage? && p != r && p in Contents() && r in Contents()
      requires len == |Contents()[p]| <= |Contents()[r]|
      modifies chain.Repr()
      ensures Valid() && chain.Repr() == old(chain.Repr())
      ensures Contents() == old(Contents()[r := Contents()[p] + Contents()[r][len..]])
    {
      hide Inv, HeapOf, PageChain.Valid, PageChain.Contents, Registry.Valid, Page.View;
      ghost var a, b := chain.Contents(), Large();
      Inside(p);
      Inside(r);
      PayloadSize(p.page, p.at);
      PayloadSize(r.page, r.at);
      ghost var d := a[p] + a[r][len..];
      assert r.page in chain.Repr() && r.page.cells in chain.Repr();
      CellsApart(p, r);
      chain.WriteBlock(r.page, r.at, p.page.cells, p.at + 1, len);
      assert Large() == b;
      PutLeft(a, b, r, d);
    }

    /** memcpy of len cells of src to the start of a large allocation. */
    method CopyToRegion(r: Ptr, src: array<Cell>, from: nat, len: nat)
      requires Valid() && Own(r) && src != r.region.cells && from + len <= src.Length && len <= r.region.cells.Length
      modifies r.region.cells
      ensures Valid() && r.region.cells[..] == src[from..from + len] + old(r.region.cells[len..])
      ensures Contents() == if r in registry.table then old(Contents())[r := r.region.cells[..]] else old(Contents())
    {
      hide PageChain.Valid, PageChain.Contents, Registry.Valid;
      ghost var a, b := chain.Contents(), Large();
      CopyCells(r.region.cells, src, from, len);
      assert chain.Contents() == a;
      assert Large() == if r in registry.table then b[r := r.region.cells[..]] else b;
      PutRight(a, b, r, r.region.cells[..]);
    }

    method CopyCells(dst: array<Cell>, src: array<Cell>, from: nat, len: nat)
      requires src != dst && from + len <= src.Length && len <= dst.Length
      modifies dst
      ensures dst[..] == src[from..from + len] + old(dst[len..])
    {
      var i := 0;
      while i < len
        invariant i <= len
        invariant forall j :: 0 <= j < dst.Length ==> dst[j] == if j < i then src[from + j] else old(dst[j])
      {
        dst[i] := src[from + i];
        i := i + 1;
      }
    }

    /** Moves the payload of p to the block of r and frees p. */
    method MoveToBlock(p: Ptr, r: Ptr, len: nat) returns (ok: bool)
      requires Valid() && p.InPage? && r.InPage? && p != r && p in Contents() && r in Contents()
      requires len == |Contents()[p]| <= |Contents()[r]|
      modifies chain.Repr(), registry.Repr()
      ensures ok && Valid() && Contents() == old(Contents()[r := Contents()[p] + Contents()[r][len..]]) - {p}
    {
      hide Heap.Contents, Heap.Apart, Heap.Large, Heap.Own, Inv, HeapOf, PageChain.Valid, PageChain.Contents, Registry.Valid, Page.View;
      CopyToBlock(p, r, len);
      ok := Release(p);
    }

    /** memcpy of len cells of p's payload to the pages of r. */
    method CopyOut(p: Ptr, r: Ptr, len: nat)
      requires Valid() && Own(r) && p != r && p in Contents() && len <= |Contents()[p]| && len <= r.region.cells.Length
      modifies r.region.cells
      ensures Valid() && r.region.cells[..] == old(Contents()[p][..len] + r.region.cells[len..])
      ensures Contents() == if r in registry.table then old(Contents())[r := r.region.cells[..]] else old(Contents())
    {
      hide Inv, HeapOf, PageChain.Valid, PageChain.Contents, Registry.Valid, Page.View;
      ghost var d := Contents()[p];
      if p.InPage? {
        Inside(p);
        PayloadIn(p.page, p.at, |d|);
        assert p.page.cells[p.at + 1..p.at + 1 + len] == d[..len];
        CopyToRegion(r, p.page.cells, p.at + 1, len);
      } else {
        LargeIn(p);
        CopyToRegion(r, p.region.cells, 0, len);
      }
    }

    /** Moves len cells of the payload of p to the pages of r and frees p. */
    method MoveToRegion(p: Ptr, r: Ptr, len: nat) returns (ok: bool)
      requires Valid() && Own(r) && p != r && p in Contents() && len <= |Contents()[p]| && len <= r.region.cells.Length
      modifies chain.Repr(), registry.Repr(), r.region.cells
      ensures registry.table == old(registry.table) - {p}
      ensures ok && Valid() && r.region.cells[..] == old(Contents()[p][..len] + r.region.cells[len..])
      ensures Contents() == (if r in registry.table then old(Contents())[r := r.region.cells[..]] else old(Contents())) - {p}
    {
      hide Heap.Contents, Heap.Apart, Heap.Large, Inv, HeapOf, PageChain.Valid, PageChain.Contents, Registry.Valid, Page.View;
      CopyOut(p, r, len);
      ok := Release(p);
    }

    lemma LargeIn(p: Ptr)
      requires Valid() && !p.InPage? && p in Contents()
      ensures p.Whole? && p in registry.table && Contents()[p] == p.region.cells[..] && registry.table[p] == |Contents()[p]| >= LARGE
    {
      chain.ContentsInPages();
    }

    /** What reallocate leaves live when p's payload d, n cells of it wanted, now is at r. */
    ghost predicate Now(c: map<Ptr, seq<Cell>>, p: Ptr, r: Ptr, d: seq<Cell>, n: nat)
      reads this, chain, chain.pages, chain.Repr(), registry, set q | q in registry.table && q.Whole? :: q.region.cells,
            if r.Whole? then {r.region.cells} else {}
    {
      match r
      case Null => Contents() == c
      case InPage(_, _) => 1 <= n < LARGE && r !in c && Contents() == (c - {p})[r := Padded(d, n - 1)]
      case Whole(_) =>
        && n >= LARGE && r !in c && r.region.cells[..] == Padded(d, PagesFor(n))
        && Contents() == if r in registry.table then (c - {p})[r := Padded(d, PagesFor(n))] else c - {p}
    }

    /** Moves p's payload to the fresh block of r, where c is what was live before. */
    method FinishInPage(p: Ptr, r: Ptr, len: nat, n: nat, ghost c: map<Ptr, seq<Cell>>)
      requires Valid() && p.InPage? && r.InPage? && p in c && r !in c && 1 <= n < LARGE && Contents() == c[r := Zeros(n - 1)] && len == |c[p]| < n
      modifies chain.Repr(), registry.Repr()
      ensures Valid() && Now(c, p, r, c[p][..len], n)
    {
      hide Padded, Heap.Contents, Heap.Apart, Heap.Large, Heap.Own, Inv, HeapOf, PageChain.Valid, PageChain.Contents, Registry.Valid, Page.View;
      PaddedZeros(c[p], n - 1, len);
      PutTwice(c, p, r, Zeros(n - 1), Padded(c[p], n - 1));
      assert c[p][..len] == c[p];
      var ok := MoveToBlock(p, r, len);
    }

    /** Moves len cells of p's payload to the fresh pages of r, where c is what was live before. */
    method FinishWhole(p: Ptr, r: Ptr, len: nat, n: nat, ghost c: map<Ptr, seq<Cell>>)
      requires Valid() && Own(r) && p in c && r !in c && len <= |c[p]| && len < n && n >= LARGE && r.region.cells[..] == Zeros(PagesFor(n))
      requires Contents() == if r in registry.table then c[r := Zeros(PagesFor(n))] else c
      modifies chain.Repr(), registry.Repr(), r.region.cells
      ensures Valid() && Now(c, p, r, c[p][..len], n)
    {
      hide Padded, Heap.Contents, Heap.Apart, Heap.Large, Inv, HeapOf, PageChain.Valid, PageChain.Contents, Registry.Valid, Page.View;
      ghost var d, m := c[p][..len], PagesFor(n);
      PaddedZeros(d, m, len);
      PutTwice(c, p, r, Zeros(m), Padded(d, m));
      assert r.region.cells[len..] == Zeros(m)[len..];
      var ok := MoveToRegion(p, r, len);
    }

    lemma ServedCases(c: map<Ptr, seq<Cell>>, r: Ptr, n: nat)
      requires Served(c, r, n)
      ensures r == Null ==> Contents() == c
      ensures r.InPage? ==> 1 <= n < LARGE && r !in c && Contents() == c[r := Zeros(n - 1)]
      ensures r.Whole? ==>
        && n >= LARGE && r !in c && Own(r) && r.region.cells[..] == Zeros(PagesFor(n))
        && Contents() == if r in registry.table then c[r := Zeros(PagesFor(n))] else c
    {}

    lemma NowNothing(c: map<Ptr, seq<Cell>>, p: Ptr, d: seq<Cell>, n: nat)
      requires Contents() == c
      ensures Now(c, p, Null, d, n)
    {}

    /** Takes memory for the request, moves len cells of p's payload there and frees p. */
    method Move(p: Ptr, bytes: nat, len: nat, n: nat) returns (r: Ptr)
      requires Valid() && p in Contents() && n == CellsFor(bytes) && len < n
      requires if p.InPage? then len == |Contents()[p]| else len <= |Contents()[p]| && n >= LARGE
      modifies chain.Repr(), registry.Repr()
      ensures Valid() && (r == Null || r !in old(Contents())) && Now(old(Contents()), p, r, old(Contents()[p][..len]), n)
    {
      hide Now, Served, Padded, CellsFor, PagesFor, Zeros, Heap.Contents, Heap.Apart, Heap.Large, Heap.Own;
      hide Inv, HeapOf, PageChain.Valid, PageChain.Contents, Registry.Valid, Page.View;
      ghost var c := Contents();
      NoNull();
      r := Zalloc(bytes);
      ServedCases(c, r, n);
      if r.InPage? {
        FinishInPage(p, r, len, n, c);
      } else if r.Whole? {
        FinishWhole(p, r, len, n, c);
      } else {
        NowNothing(c, p, c[p][..len], n);
      }
    }

    /** What a move keeps of a payload: for large allocations all but the last cell, which no request covers. */
    ghost function KeptPart(p: Ptr, d: seq<Cell>): seq<Cell> {
      if p.Whole? && d != [] then d[..|d| - 1] else d
    }

    /** Every byte of a request that the payload served is kept, and stays in front. */
    lemma KeepsRequest(p: Ptr, d: seq<Cell>, bytes: nat)
      requires if p.Whole? then |d| >= PagesFor(CellsFor(bytes)) else |d| >= CellsFor(bytes) - 1
      ensures 16 * |KeptPart(p, d)| >= bytes && forall n :: KeptPart(p, d) <= Padded(KeptPart(p, d), n)
    {
      hide CellsFor, PagesFor, Padded;
    }

    /** The in-page part of reallocate: the block stays, grows where it lies, or moves. */
    method ReallocateBlock(p: Ptr, bytes: nat, n: nat) returns (r: Ptr)
      requires Valid() && p.InPage? && p in Contents() && bytes > 0 && n == CellsFor(bytes)
      modifies chain.Repr(), registry.Repr()
      ensures Valid()
      ensures r == p ==> Contents() == old(Contents()[p := Padded(Contents()[p], n - 1)])
      ensures r != p ==> (r == Null || r !in old(Contents())) && Now(old(Contents()), p, r, KeptPart(p, old(Contents()[p])), n)
    {
      hide Inv, HeapOf, PageChain.Valid, PageChain.Contents, Registry.Valid, Page.View;
      Inside(p);
      PayloadSize(p.page, p.at);
      var total := p.page.cells[p.at].w0;
      if n <= total {
        assert Contents() == old(Contents()[p := Padded(Contents()[p], n - 1)]);
        return p;
      }
      var ok := GrowInPlace(p, n, n - total);
      if ok {
        return p;
      }
      assert Contents()[p][..total - 1] == Contents()[p];
      r := Move(p, bytes, total - 1, n);
    }

    lemma AllButLast(p: Ptr, d: seq<Cell>)
      requires p.Whole? && d != []
      ensures KeptPart(p, d) == d[..|d| - 1]
    {}

    lemma LargeIsWhole(c: map<Ptr, seq<Cell>>, p: Ptr, r: Ptr, d: seq<Cell>, n: nat)
      requires Now(c, p, r, d, n) && n >= LARGE
      ensures !r.InPage?
    {}

    /** The part of reallocate for large allocations: the pages suffice, or new ones take their place. */
    method ReallocateRegion(p: Ptr, bytes: nat, n: nat) returns (r: Ptr)
      requires Valid() && p.Whole? && p in Contents() && bytes > 0 && n == CellsFor(bytes)
      modifies chain.Repr(), registry.Repr()
      ensures Valid() && (r == p <==> n <= |old(Contents()[p])|)
      ensures r == p ==> Contents() == old(Contents())
      ensures r != p ==> !r.InPage? && (r == Null || r !in old(Contents())) && Now(old(Contents()), p, r, KeptPart(p, old(Contents()[p])), n)
    {
      hide Now, CellsFor, Padded, KeptPart, Heap.Contents, Heap.Apart, Heap.Large, PageChain.Valid, Registry.Valid;
      LargeIn(p);
      AllButLast(p, Contents()[p]);
      var size := registry.AllocSize(p);
      FitsRegion(bytes, size);
      if bytes <= 16 * size - 16 {
        return p;
      }
      r := Move(p, bytes, size - 1, n);
      LargeIsWhole(old(Contents()), p, r, KeptPart(p, old(Contents()[p])), n);
    }

    /**
     * reallocate: the payload stays or moves, its cells kept and new ones zero; without memory
     * nothing is lost; no other payload is touched.
     */
    method Reallocate(p: Ptr, bytes: nat) returns (r: Ptr)
      requires Valid() && (p == Null || p in Contents())
      modifies chain.Repr(), registry.Repr()
      ensures Valid()
      ensures bytes == 0 ==> r == Null && Contents() == old(Contents()) - {p}
      ensures bytes > 0 && p == Null ==> Served(old(Contents()), r, CellsFor(bytes))
      ensures bytes > 0 && p != Null && r != p ==> Now(old(Contents()), p, r, KeptPart(p, old(Contents()[p])), CellsFor(bytes))
      ensures bytes > 0 && p.InPage? && r == p ==> Contents() == old(Contents()[p := Padded(Contents()[p], CellsFor(bytes) - 1)])
      ensures bytes > 0 && p.Whole? && r == p ==> Contents() == old(Contents())
    {
      hide Now, Served, CellsFor, Padded, KeptPart, Inv, Heap.Apart, Heap.Large, Heap.Own, HeapOf, PageChain.Valid, PageChain.Contents, Registry.Valid;
      NoNull();
      r := Null;
      if bytes == 0 {
        if p != Null {
          var ok := Release(p);
        } else {
          assert Contents() == Contents() - {p};
        }
        return;
      }
      match p
      case Null => r := Zalloc(bytes);
      case InPage(_, _) => r := ReallocateBlock(p, bytes, CellsFor(bytes));
      case Whole(_) => r := ReallocateRegion(p, bytes, CellsFor(bytes));
    }
  }
}
