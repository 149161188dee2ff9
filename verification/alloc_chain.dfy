/** The chain of pages that small allocations come from. */
module AllocChain {
  import opened Basics
  import opened AllocTiling
  import opened AllocMemory
  import opened AllocPage
  import opened AllocPtr
  import opened AllocHeap

  /** The smallest block size, in cells, that no longer goes into a page. */
  const LARGE: nat := 254

  class PageChain {
    var first: Page?
    ghost var pages: seq<Page>

    ghost predicate Follows(i: nat)
      requires i < |pages|
      reads this, pages
    {
      pages[i].next == if i + 1 < |pages| then pages[i + 1] else null
    }

    ghost predicate Shaped()
      reads this, pages
    {
      && first == (if pages == [] then null else pages[0])
      && (forall i {:trigger Follows(i)} :: 0 <= i < |pages| ==> Follows(i))
      && (forall i, j :: 0 <= i < j < |pages| ==> pages[i] != pages[j] && pages[i].cells != pages[j].cells)
    }

    ghost function PagesRepr(qs: seq<Page>): set<object> {
      (set q: Page | q in qs :: q as object) + (set q: Page | q in qs :: q.cells as object)
    }

    ghost function Repr(): set<object>
      reads this, pages
    {
      {this} + PagesRepr(pages)
    }

    ghost predicate Valid()
      reads this, pages, Repr()
    {
      Shaped() && forall q :: q in pages ==> q.Valid()
    }

    /** Each page with its live blocks. */
    ghost function Small(): map<Page, Blocks>
      reads this, pages, Repr()
    {
      map q | q in pages :: q.View()
    }

    constructor ()
      ensures Valid() && pages == [] && Repr() == {this} && Contents() == map[]
    {
      first, pages := null, [];
    }

    /** Every live pointer into the chain with its payload. */
    ghost function Contents(): map<Ptr, seq<Cell>>
      reads this, pages, Repr()
    {
      HeapOf(Small())
    }

    lemma FirstPage()
      requires Valid()
      ensures first == null <==> pages == []
    {}

    lemma ContentsInPages()
      ensures AllInPages(Contents())
    {}

    /** One page tries to serve the request; the others are not touched. */
    method PageTurn(hdr: Page, n: nat) returns (r: Taken)
      requires Valid() && hdr in pages && n >= 1
      modifies hdr, hdr.cells
      ensures Valid() && r != Corrupted && Repr() == old(Repr())
      ensures r.NoFit? ==> old(hdr.End()) + n > CELLS && Contents() == old(Contents())
      ensures r.Fit? ==> InPage(hdr, r.at) !in old(Contents()) && Contents() == old(Contents())[InPage(hdr, r.at) := Zeros(n - 1)]
    {
      hide Inv, HeapOf, Page.Valid, Page.View, Page.Blocks;
      hdr.Shown();
      ghost var small := Small();
      r := hdr.TryAllocate(n);
      hdr.Shown();
      forall i | 0 <= i < |pages| ensures Follows(i) {
        assert old(Follows(i));
      }
      assert Small() == small[hdr := hdr.View()];
      if r.NoFit? {
        assert Small() == small;
      } else {
        InHeap(small, hdr, r.at);
        PutBlock(small, hdr, r.at, Zeros(n - 1), hdr.View());
      }
    }

    /** Starts the chain with a fresh page. */
    method Begin()
      requires Valid() && pages == []
      modifies this
      ensures Valid() && Contents() == old(Contents()) && pages != [] && fresh(Repr() - {this})
    {
      hide Inv;
      first := new Page();
      pages := [first];
    }

    /** Links an empty page behind the last one. */
    method Link(last: Page, page: Page)
      requires Valid() && pages != [] && last == pages[|pages| - 1]
      requires page.Valid() && page.View() == map[] && page.next == null
      requires page !in pages && forall q :: q in pages ==> q.cells != page.cells
      modifies this`pages, last`next
      ensures Valid() && pages == old(pages) + [page] && Small() == old(Small())[page := map[]]
    {
      hide Inv, PageChain.PagesRepr;
      ghost var m: nat := |pages|;
      last.next := page;
      pages := pages + [page];
      forall i | 0 <= i < |pages| ensures Follows(i) {
        if i < m - 1 {
          assert old(Follows(i));
        }
      }
    }

    lemma OnePageMore(qs: seq<Page>, page: Page)
      ensures PagesRepr(qs + [page]) == PagesRepr(qs) + {page, page.cells}
    {
      var all := qs + [page];
      forall q: Page | q in qs ensures q as object in PagesRepr(all) && q.cells as object in PagesRepr(all) {
        assert q in all;
      }
      assert page in all;
      assert page as object in PagesRepr(all) && page.cells as object in PagesRepr(all);
      forall q: Page | q in all
        ensures q as object in PagesRepr(qs) + {page, page.cells} && q.cells as object in PagesRepr(qs) + {page, page.cells}
      {
        assert q in qs || q == page;
      }
    }

    /** Obtains a page and links it behind the last one. */
    method AddPage(last: Page) returns (page: Page)
      requires Valid() && pages != [] && last == pages[|pages| - 1]
      modifies this`pages, last`next
      ensures Valid() && fresh(page) && fresh(page.cells) && page.freeMem == 0
      ensures pages == old(pages) + [page] && Repr() == old(Repr()) + {page, page.cells} && Contents() == old(Contents())
    {
      hide Inv, HeapOf, PageChain.PagesRepr;
      page := new Page();
      ghost var small := Small();
      assert small == old(Small());
      OnePageMore(pages, page);
      Link(last, page);
      NewPage(small, page);
    }

    /** The walk of allocate over the chain; a page that had to be added always has room. */
    method Allocate(n: nat) returns (p: Ptr)
      requires Valid() && pages != [] && 1 <= n < LARGE
      modifies Repr()
      ensures Valid() && fresh(Repr() - old(Repr()))
      ensures p == Null ==> Contents() == old(Contents())
      ensures p != Null ==> p.InPage? && p !in old(Contents()) && Contents() == old(Contents())[p := Zeros(n - 1)]
    {
      hide Inv, HeapOf, Page.Valid, Page.View, PageChain.Small, PageChain.Contents;
      var hdr := first;
      ghost var k: nat := 0;
      while true
        invariant Valid() && k < |pages| && hdr == pages[k] && Contents() == old(Contents())
        invariant old(pages) <= pages && fresh(Repr() - old(Repr()))
        invariant if k < |old(pages)| then pages == old(pages) else fresh(hdr) && fresh(hdr.cells) && hdr.freeMem == 0 && |pages| == k + 1 == |old(pages)| + 1
        decreases |old(pages)| - k
      {
        var r := PageTurn(hdr, n);
        if r.Fit? {
          return InPage(hdr, r.at);
        }
        assert Follows(k);
        if hdr.next == null {
          var obtained := *;
          if !obtained {
            return Null;
          }
          hdr := AddPage(hdr);
        } else {
          hdr := hdr.next;
        }
        k := k + 1;
      }
    }

    // ---------- Freeing ----------

    /** Frees a block of a page that stays in use. */
    method FreeBlock(hdr: Page, at: nat, n: nat) returns (ok: bool)
      requires Valid() && hdr in pages && at in hdr.View() && n == hdr.size[at] && n < hdr.used
      modifies hdr, hdr.cells
      ensures ok && Valid() && Contents() == old(Contents()) - {InPage(hdr, at)} && Repr() == old(Repr())
    {
      hide Inv, HeapOf, Page.Valid, Page.View, Page.Blocks;
      hdr.Shown();
      ghost var small := Small();
      ok := hdr.Surrender(at, n);
      hdr.Shown();
      forall i | 0 <= i < |pages| ensures Follows(i) {
        assert old(Follows(i));
      }
      assert Small() == small[hdr := hdr.View()];
      DropBlock(small, hdr, at, hdr.View());
    }

    /** The page of the chain that links to hdr. */
    method FindPrevious(hdr: Page) returns (prev: Page?, ghost k: nat)
      requires Shaped() && hdr in pages && hdr != pages[0]
      ensures prev != null && 0 < k < |pages| && prev == pages[k - 1] && hdr == pages[k]
    {
      ghost var h: nat :| h < |pages| && pages[h] == hdr;
      prev, k := first, 1;
      assert Follows(0);
      while prev != null && prev.next != hdr
        invariant 1 <= k <= h && prev == pages[k - 1] && Follows(k - 1)
        decreases h - k
      {
        assert Follows(k);
        prev, k := prev.next, k + 1;
      }
    }

    /** Takes a page out of the chain. */
    method Unchain(hdr: Page)
      requires Shaped() && hdr in pages && hdr != pages[0] && forall q :: q in pages && q != hdr ==> q.Valid()
      modifies this`pages, pages
      ensures Valid() && Small() == old(Small()) - {hdr} && Repr() <= old(Repr())
    {
      hide Inv, Page.Valid, Page.View, Page.Blocks, Without, Shaped;
      var prev: Page?;
      ghost var k: nat;
      prev, k := FindPrevious(hdr);
      InOrder();
      ghost var was := pages;
      Bypass(prev, hdr, k);
      WithoutMembers(was, k);
    }

    lemma InOrder()
      requires Shaped()
      ensures forall i, j :: 0 <= i < j < |pages| ==> pages[i] != pages[j]
    {}

    /** The page before the k-th links to the one behind it. */
    method Bypass(prev: Page, hdr: Page, ghost k: nat)
      requires Shaped() && 0 < k < |pages| && prev == pages[k - 1] && hdr == pages[k]
      modifies this`pages, prev`next
      ensures Shaped() && pages == Without(old(pages), k)
    {
      hide Without;
      assert Follows(k);
      WithoutAt(pages, k);
      prev.next := hdr.next;
      pages := Without(pages, k);
      forall i | 0 <= i < |pages| ensures Follows(i) {
        if i < k - 1 {
          assert old(Follows(i));
        } else {
          assert old(Follows(i + 1));
        }
      }
    }

    /** Overwrites the last block of a page, which is then no longer in order. */
    method Spend(hdr: Page, at: nat, n: nat)
      requires Valid() && hdr in pages && at in hdr.View() && n == hdr.size[at] && n == hdr.used
      modifies hdr`used, hdr.cells
      ensures Shaped() && (forall q :: q in pages && q != hdr ==> q.Valid()) && hdr.cells.Length == CELLS && hdr.used == 0
      ensures old(hdr.View()) - {at} == map[] && Small() - {hdr} == old(Small()) - {hdr}
    {
      hide Inv, Page.Valid, Page.View, Page.Blocks;
      hdr.Shown();
      hdr.Drain(at, n);
      forall i | 0 <= i < |pages| ensures Follows(i) {
        assert old(Follows(i));
      }
    }

    /** Puts an emptied page back in order. */
    method Renew(hdr: Page)
      requires Shaped() && hdr in pages && (forall q :: q in pages && q != hdr ==> q.Valid())
      requires hdr.cells.Length == CELLS && hdr.used == 0
      modifies hdr
      ensures Valid() && Small() == old(Small())[hdr := map[]]
    {
      hide Inv;
      hdr.Reset();
      forall i | 0 <= i < |pages| ensures Follows(i) {
        assert old(Follows(i));
      }
    }

    /** Frees the last block of the first page, which is kept. */
    method FreeFirst(hdr: Page, at: nat, n: nat)
      requires Valid() && pages != [] && hdr == pages[0] && at in hdr.View() && n == hdr.size[at] && n == hdr.used
      modifies hdr, hdr.cells
      ensures Valid() && Contents() == old(Contents()) - {InPage(hdr, at)} && Repr() == old(Repr())
    {
      hide Inv, HeapOf, Page.Valid, Page.View;
      ghost var small := Small();
      Spend(hdr, at, n);
      ghost var spent := Small();
      Renew(hdr);
      assert small[hdr := map[]] == spent[hdr := map[]] by {
        assert small - {hdr} == spent - {hdr};
        assert small[hdr := map[]] == (small - {hdr})[hdr := map[]] && spent[hdr := map[]] == (spent - {hdr})[hdr := map[]];
      }
      DropBlock(small, hdr, at, map[]);
    }

    /** Frees the last block of a later page and gives the page back. */
    method FreePage(hdr: Page, at: nat, n: nat)
      requires Valid() && hdr in pages && hdr != pages[0] && at in hdr.View() && n == hdr.size[at] && n == hdr.used
      modifies this`pages, pages, hdr.cells
      ensures Valid() && Contents() == old(Contents()) - {InPage(hdr, at)} && Repr() <= old(Repr())
    {
      hide Inv, HeapOf;
      ghost var small := Small();
      Spend(hdr, at, n);
      Unchain(hdr);
      DropPage(small, hdr, at);
    }

    // ---------- Changing a block ----------

    /** Tries to extend a block by t cells where it lies. */
    method GrowBlock(hdr: Page, at: nat, want: nat, ghost e: nat, ghost t: nat) returns (ok: bool)
      requires Valid() && hdr in pages && at in hdr.View() && e == at + hdr.size[at] && want == hdr.size[at] + t && t >= 1
      modifies hdr, hdr.cells
      ensures Valid() && Repr() == old(Repr()) && ok == old(hdr.RoomBehind(e, t))
      ensures Contents() == if ok then old(Contents()[InPage(hdr, at) := hdr.View()[at] + Zeros(t)]) else old(Contents())
    {
      hide Inv, HeapOf, Page.Valid, Page.View, Page.Blocks;
      hdr.Shown();
      ghost var small, d := Small(), hdr.View()[at] + Zeros(t);
      ok := hdr.Grow(at, want, e, t);
      hdr.Shown();
      forall i | 0 <= i < |pages| ensures Follows(i) {
        assert old(Follows(i));
      }
      assert Small() == small[hdr := hdr.View()];
      if ok {
        PutBlock(small, hdr, at, d, hdr.View());
      } else {
        assert Small() == small;
      }
    }

    /** Copies len cells to the front of a block's payload. */
    method WriteBlock(hdr: Page, at: nat, src: array<Cell>, from: nat, len: nat)
      requires Valid() && hdr in pages && at in hdr.View() && len < hdr.size[at] && len <= |hdr.View()[at]| && from + len <= src.Length
      requires src != hdr.cells || from + len <= at + 1 || at + 1 + len <= from
      modifies hdr.cells
      ensures Valid() && Repr() == old(Repr()) && Contents() == old(Contents()[InPage(hdr, at) := src[from..from + len] + hdr.View()[at][len..]])
    {
      hide Inv, HeapOf, Page.Valid, Page.View, Page.Blocks;
      hdr.Shown();
      ghost var small, d := Small(), src[from..from + len] + hdr.View()[at][len..];
      hdr.CopyInto(at, src, from, len);
      hdr.Shown();
      forall i | 0 <= i < |pages| ensures Follows(i) {
        assert old(Follows(i));
      }
      assert Small() == small[hdr := hdr.View()];
      PutBlock(small, hdr, at, d, hdr.View());
    }
  }
}
