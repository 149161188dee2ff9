/** One allocator page: header, in-page free list and bump pointer, all in units of 16-byte cells. */
module AllocPage {
  import opened Basics
  import opened AllocTiling
  import opened AllocMemory

  datatype Taken = Corrupted | NoFit | Fit(at: nat)

  /** The lowest free block of at least n cells, or the end of the blocks if there is none. */
  ghost predicate FirstFit(size: map<nat, nat>, fl: seq<nat>, end: nat, n: nat, at: nat) {
    if exists o :: o in fl && o in size && size[o] >= n
    then at in fl && at in size && size[at] >= n && forall o :: o in fl && o in size && o < at ==> size[o] < n
    else at == end
  }

  lemma FitIsFirst(size: map<nat, nat>, fl: seq<nat>, end: nat, n: nat, k: nat)
    requires FreeOk(size, fl, end) && k < |fl| && size[fl[k]] >= n && forall j :: 0 <= j < k ==> size[fl[j]] < n
    ensures FirstFit(size, fl, end, n, fl[k])
  {}

  lemma EndIsFit(size: map<nat, nat>, fl: seq<nat>, end: nat, n: nat)
    requires FreeOk(size, fl, end) && forall j :: 0 <= j < |fl| ==> size[fl[j]] < n
    ensures FirstFit(size, fl, end, n, end)
  {}

  class Page {
    var used: nat
    var freeBlock: nat
    var freeMem: nat
    var next: Page?
    const cells: array<Cell>
    ghost var size: map<nat, nat>
    ghost var fl: seq<nat>

    ghost predicate Valid()
      reads this`used, this`freeBlock, this`freeMem, this`size, this`fl, cells
    {
      Inv(cells[..], used, freeBlock, End(), size, fl)
    }

    /** Where the blocks end; an untouched page has no blocks yet. */
    ghost function End(): nat
      reads this`freeMem
    {
      if freeMem == 0 then HDR else freeMem
    }

    /** The live blocks with their payloads. */
    ghost function Blocks(): map<nat, seq<Cell>>
      requires Fits(cells[..], size)
      reads this`size, this`fl, cells
    {
      Live(cells[..], size, fl)
    }

    /** The same for callers that look at the page as a whole. */
    ghost function View(): map<nat, seq<Cell>>
      reads this`used, this`freeBlock, this`freeMem, this`size, this`fl, cells
    {
      if Valid() then Blocks() else map[]
    }

    lemma Shown()
      requires Valid()
      ensures Fits(cells[..], size) && View() == Blocks()
    {}

    constructor ()
      ensures Valid() && used == 0 && freeMem == 0 && next == null && Blocks() == map[] && fresh(cells)
    {
      used, freeBlock, freeMem, next := 0, 0, 0, null;
      cells := new Cell[CELLS](_ => ZERO);
      size, fl := map[], [];
    }

    /** Sets the cells in [a, b) to v. */
    method Fill(a: nat, b: nat, v: Cell)
      requires a <= b <= cells.Length
      modifies cells
      ensures cells[..] == Filled(old(cells[..]), a, b, v)
    {
      var i := a;
      while i < b
        invariant a <= i <= b
        invariant forall j :: 0 <= j < cells.Length ==> cells[j] == if a <= j < i then v else old(cells[j])
      {
        cells[i] := v;
        i := i + 1;
      }
    }

    /** Stores v in the link that prev stands for. */
    method SetLink(prev: nat, v: nat)
      requires prev < cells.Length
      modifies this`freeBlock, cells
      ensures freeBlock == Head(old(freeBlock), prev, v) && cells[..] == Link(old(cells[..]), prev, v)
    {
      if prev == 0 {
        freeBlock := v;
      } else {
        cells[prev] := cells[prev].(w1 := v);
      }
    }

    /** First fit: the first listed block of at least n cells. */
    method FindFit(n: nat) returns (r: Taken, prev: nat, ghost k: nat)
      requires Valid()
      ensures r != Corrupted
      ensures r.Fit? ==> k < |fl| && r.at == fl[k] && size[fl[k]] >= n && prev == Before(fl, k)
      ensures forall j :: 0 <= j < (if r.Fit? then k else |fl|) ==> size[fl[j]] < n
    {
      prev, k := 0, 0;
      var cur := freeBlock;
      while cur != 0
        invariant k <= |fl| && cur == At(fl, k) && prev == Before(fl, k)
        invariant forall j :: 0 <= j < k ==> size[fl[j]] < n
        decreases |fl| - k
      {
        assert fl[k] in fl && Links(cells[..], fl, k);
        if cur < HDR || cur + 1 > CELLS {
          return Corrupted, prev, k;
        }
        if cur + cells[cur].w0 > CELLS {
          return Corrupted, prev, k;
        }
        var next := cells[cur].w1;
        if next != 0 && next >= CELLS {
          return Corrupted, prev, k;
        }
        if cells[cur].w0 >= n {
          return Fit(cur), prev, k;
        }
        prev, cur, k := cur, next, k + 1;
      }
      return NoFit, prev, k;
    }

    /** The memory writes of an allocation from the free block at cur. */
    method Detach(cur: nat, prev: nat, n: nat) returns (allocSize: nat)
      requires prev < cur < cells.Length && 1 <= n <= cells[cur].w0 && cur + cells[cur].w0 <= cells.Length
      modifies this`freeBlock, cells
      ensures allocSize == n
      ensures freeBlock == Head(old(freeBlock), prev, DetachedLink(old(cells[..]), cur, n))
      ensures cells[..] == DetachedCells(old(cells[..]), prev, cur, n)
    {
      var next := cells[cur].w1;
      allocSize := cells[cur].w0;
      if cells[cur].w0 >= n + 1 {
        var split := cur + n;
        cells[split] := Cell(cells[cur].w0 - n, next);
        next := split;
        allocSize := n;
      }
      SetLink(prev, next);
      cells[cur] := cells[cur].(w0 := allocSize);
      Fill(cur + 1, cur + allocSize, ZERO);
    }

    /** Turns the k-th free block, or its first n cells if more would be left over, into a live zeroed block. */
    method Carve(cur: nat, prev: nat, n: nat, ghost k: nat)
      requires Valid() && k < |fl| && cur == fl[k] && prev == Before(fl, k) && 1 <= n <= size[cur]
      modifies this`used, this`freeBlock, this`size, this`fl, cells
      ensures Valid() && used == old(used) + n
      ensures cur in old(fl) && Blocks() == old(Blocks())[cur := Zeros(n - 1)]
    {
      ghost var was, q, m := cells[..], cur + n, size[cur] - n;
      FreeCell(was, used, freeBlock, End(), size, fl, k);
      var allocSize := Detach(cur, prev, n);
      used := used + allocSize;
      size, fl := CarvedSize(size, cur, n, q, m), CarvedList(fl, k, q, m);
      Carved(was, old(used), old(freeBlock), End(), old(size), old(fl), k, cur, n, q, m, cells[..], used, freeBlock, size, fl);
    }

    /** Appends n zeroed cells to the blocks. */
    method Bump(n: nat) returns (at: nat)
      requires Valid() && n >= 1 && freeMem >= HDR && freeMem + n <= CELLS
      modifies this`used, this`freeMem, this`size, cells
      ensures Valid() && used == old(used) + n && at == old(freeMem)
      ensures Blocks() == old(Blocks())[at := Zeros(n - 1)]
    {
      ghost var was := cells[..];
      at := freeMem;
      cells[at] := cells[at].(w0 := n);
      freeMem := freeMem + n;
      used := used + n;
      Fill(at + 1, freeMem, ZERO);
      size := size[at := n];
      Bumped(was, old(used), freeBlock, at, old(size), fl, n, freeMem, cells[..], used, size);
    }

    /** One page's turn in allocate: first fit, else the space past the last block, else nothing. */
    method TryAllocate(n: nat) returns (r: Taken)
      requires Valid() && n >= 1
      modifies this`used, this`freeBlock, this`freeMem, this`size, this`fl, cells
      ensures Valid() && r != Corrupted
      ensures r.NoFit? <==> old(End()) + n > CELLS && forall o :: o in old(fl) ==> old(size)[o] < n
      ensures r.NoFit? ==> used == old(used) && Blocks() == old(Blocks())
      ensures r.Fit? ==> used == old(used) + n && r.at !in old(Blocks()) && Blocks() == old(Blocks())[r.at := Zeros(n - 1)]
      ensures r.Fit? ==> FirstFit(old(size), old(fl), old(End()), n, r.at)
    {
      hide FirstFit;
      if freeMem == 0 {
        freeMem := HDR;
      }
      var prev: nat;
      ghost var k: nat;
      r, prev, k := FindFit(n);
      if r.Corrupted? {
        return;
      }
      if r.Fit? {
        FitIsFirst(size, fl, End(), n, k);
        Carve(r.at, prev, n, k);
        return;
      }
      EndIsFit(size, fl, End(), n);
      UsedBelow(cells[..], used, freeBlock, End(), size, fl);
      if used + n <= CELLS - HDR && freeMem + n <= CELLS {
        var at := Bump(n);
        r := Fit(at);
      }
    }

    ghost predicate ValidBut(x: nat)
      reads this`used, this`freeBlock, this`freeMem, this`size, this`fl, cells
    {
      InvBut(cells[..], used, freeBlock, End(), size, fl, x)
    }

    /** Where o belongs in the address-ordered free list. */
    method FindPlace(o: nat) returns (ok: bool, prev: nat, cur: nat, ghost k: nat)
      requires cells.Length == CELLS && Listed(freeBlock, cells[..], fl) && Ascending(fl) && forall j :: 0 <= j < |fl| ==> fl[j] >= HDR
      requires o > 0 && o !in fl
      ensures ok && prev < o && k <= |fl| && prev == Before(fl, k) && cur == At(fl, k)
      ensures (k > 0 ==> fl[k - 1] < o) && (k < |fl| ==> o < fl[k])
    {
      prev, cur, k := 0, freeBlock, 0;
      while cur != 0 && cur < o
        invariant k <= |fl| && prev == Before(fl, k) && cur == At(fl, k) && (k > 0 ==> fl[k - 1] < o)
        decreases |fl| - k
      {
        assert Links(cells[..], fl, k);
        if cur >= CELLS {
          return false, prev, cur, k;
        }
        prev, cur, k := cur, cells[cur].w1, k + 1;
      }
      ok := true;
    }

    /** Fills the live block at o with the pattern of dead memory and stores its size. */
    method Overwrite(o: nat, n: nat, ghost e: nat)
      requires Valid() && o in size && o !in fl && n == size[o] && e == o + n
      modifies cells
      ensures cells[..] == Filled(old(cells[..]), o, e, DEAD)[o := Cell(n, DEAD.w1)]
      ensures Listed(freeBlock, cells[..], fl) && forall j :: 0 <= j < |fl| ==> fl[j] >= HDR
    {
      Fill(o, o + n, DEAD);
      cells[o] := cells[o].(w0 := n);
      FilledListed(old(cells[..]), freeBlock, End(), size, fl, o, e, cells[..]);
      forall j | 0 <= j < |fl| ensures fl[j] >= HDR {
        assert fl[j] in fl;
      }
    }

    /** Links o in after prev and before next. */
    method LinkBetween(prev: nat, o: nat, next: nat)
      requires prev < cells.Length && o < cells.Length
      modifies this`freeBlock, cells
      ensures freeBlock == Head(old(freeBlock), prev, o)
      ensures cells[..] == Link(old(cells[..])[o := Cell(old(cells[o].w0), next)], prev, o)
    {
      cells[o] := cells[o].(w1 := next);
      SetLink(prev, o);
    }

    /** Overwrites the block at o and links it into the free list, not yet merged with its neighbours. */
    method LinkIn(o: nat, n: nat) returns (ok: bool, prev: nat, ghost k: nat)
      requires Valid() && o in size && o !in fl && n == size[o] && n <= used
      modifies this`used, this`freeBlock, this`fl, cells
      ensures ok && ValidBut(o) && used == old(used) - n
      ensures Blocks() == old(Blocks()) - {o}
      ensures k <= |old(fl)| && fl == Insert(old(fl), k, o) && prev == Before(fl, k)
    {
      ghost var was, e := cells[..], o + n;
      Overwrite(o, n, e);
      used := used - n;
      var cur: nat;
      ok, prev, cur, k := FindPlace(o);
      if !ok {
        return;
      }
      LinkBetween(prev, o, cur);
      fl := Insert(fl, k, o);
      Freed(was, old(used), old(freeBlock), End(), size, old(fl), k, o, n, e, cells[..], used, freeBlock, fl);
    }

    /** Swallows the listed blocks that start right where the k-th ends. */
    method AbsorbNext(x: nat, ghost k: nat)
      requires ValidBut(x) && k < |fl| && fl[k] == x
      modifies this`size, this`fl, cells
      ensures ValidBut(x) && k < |fl| && fl[k] == x && Before(fl, k) == old(Before(fl, k))
      ensures Blocks() == old(Blocks()) && ClearAhead(size, fl, x)
      ensures old(ClearBehind(size, fl, x)) ==> ClearBehind(size, fl, x)
    {
      ghost var live, behind, before := Blocks(), ClearBehind(size, fl, x), Before(fl, k);
      ListedCell(cells[..], used, freeBlock, End(), size, fl, x, k);
      while cells[x].w1 != 0 && x + cells[x].w0 == cells[x].w1
        invariant ValidBut(x) && k < |fl| && fl[k] == x && Before(fl, k) == before
        invariant Blocks() == live && (behind ==> ClearBehind(size, fl, x))
        invariant cells[x] == Cell(size[x], At(fl, k + 1)) && (k + 1 < |fl| ==> fl[k + 1] > 0)
        decreases |fl|
      {
        DropKeeps(fl, k);
        MergeNext(x, cells[x].w1, k, x);
        ListedCell(cells[..], used, freeBlock, End(), size, fl, x, k);
      }
      NextClear(size, fl, End(), k, x);
    }

    /** Gives the cell at a the size and link of itself and its successor together. */
    method Swallow(a: nat, b: nat)
      requires a < cells.Length && b < cells.Length && a != b
      modifies cells
      ensures cells[..] == old(cells[..])[a := Cell(old(cells[a].w0 + cells[b].w0), old(cells[b].w1))]
    {
      cells[a] := cells[a].(w0 := cells[a].w0 + cells[b].w0);
      cells[a] := cells[a].(w1 := cells[b].w1);
    }

    /** Joins the k-th listed block with the next one, which it touches. */
    method MergeNext(a: nat, b: nat, ghost k: nat, ghost x: nat)
      requires ValidBut(x) && k + 1 < |fl| && fl[k] == a && fl[k + 1] == b && a + size[a] == b && (x == a || x == b)
      modifies this`size, this`fl, cells
      ensures ValidBut(a) && fl == Without(old(fl), k + 1)
      ensures Blocks() == old(Blocks())
      ensures x == b || old(ClearBehind(size, fl, a)) ==> ClearBehind(size, fl, a)
    {
      ghost var was, m := cells[..], size[a] + size[b];
      Swallow(a, b);
      size, fl := (size - {b})[a := m], Without(fl, k + 1);
      Merged(was, used, freeBlock, End(), old(size), old(fl), k, a, b, m, x, cells[..], size, fl);
    }

    /** Whether some listed block below freeMem ends there. */
    method FindTouching() returns (found: bool)
      requires Valid()
      ensures !found
    {
      found := false;
      var tail := freeBlock;
      ghost var k := 0;
      while tail != 0 && tail < freeMem
        invariant !found && k <= |fl| && tail == At(fl, k)
        decreases |fl| - k
      {
        assert fl[k] in fl && Links(cells[..], fl, k);
        if tail + cells[tail].w0 == freeMem {
          found := true;
        }
        tail, k := cells[tail].w1, k + 1;
      }
    }

    /** Unlinks the block at x, which touches freeMem, and gives its cells back to the space past the last block. */
    method TrimTail(x: nat, ghost k: nat)
      requires ValidBut(x) && k < |fl| && fl[k] == x && x + size[x] == freeMem && ClearBehind(size, fl, x)
      modifies this`freeBlock, this`freeMem, this`size, this`fl, cells
      ensures Valid() && Blocks() == old(Blocks())
    {
      var tailPrev, tail := 0, freeBlock;
      ghost var j := 0;
      while tail != 0 && tail != x
        invariant j <= k && tail == At(fl, j) && tailPrev == Before(fl, j)
        decreases k - j
      {
        assert Links(cells[..], fl, j);
        tailPrev, tail, j := tail, cells[tail].w1, j + 1;
      }
      assert j == k by {
        assert fl[j] in fl;
      }
      Unlink(tailPrev, x, k);
      if freeBlock != 0 {
        var found := FindTouching();
        // Nothing touches the new end, so the rescan stops at once.
        assert !found;
      }
    }

    method Unlink(prev: nat, x: nat, ghost k: nat)
      requires ValidBut(x) && k < |fl| && fl[k] == x && prev == Before(fl, k) && x + size[x] == End() && ClearBehind(size, fl, x)
      modifies this`freeBlock, this`freeMem, this`size, this`fl, cells
      ensures Valid() && Blocks() == old(Blocks())
    {
      ghost var was, end := cells[..], End();
      PrevBounds(was, used, freeBlock, end, size, fl, x, k);
      ListedCell(was, used, freeBlock, end, size, fl, x, k);
      SetLink(prev, cells[x].w1);
      freeMem := x;
      assert End() == x;
      size, fl := size - {x}, Without(fl, k);
      Trimmed(was, used, old(freeBlock), end, old(size), old(fl), k, x, freeBlock, cells[..], size, fl);
    }

    /** Joins the block at x, the newest of the free ones, to those around it. */
    method Coalesce(o: nat, prev: nat, ghost k0: nat) returns (x: nat, ghost k: nat)
      requires ValidBut(o) && k0 < |fl| && fl[k0] == o && prev == Before(fl, k0)
      modifies this`size, this`fl, cells
      ensures ValidBut(x) && k < |fl| && fl[k] == x && Blocks() == old(Blocks())
      ensures ClearBehind(size, fl, x) && ClearAhead(size, fl, x)
    {
      hide InvBut, ClearBehind, ClearAhead, Page.Blocks;
      x, k := o, k0;
      AbsorbNext(x, k);
      PrevBounds(cells[..], used, freeBlock, End(), size, fl, x, k);
      if prev != 0 {
        ListedCell(cells[..], used, freeBlock, End(), size, fl, x, k - 1);
        if prev + cells[prev].w0 == x {
          MergeNext(prev, x, k - 1, x);
          x, k := prev, k - 1;
          AbsorbNext(x, k);
          return;
        }
      }
      PrevClearBut(cells[..], used, freeBlock, End(), size, fl, k, x);
    }

    /** Returns the merged block to the space past the last block if it touches it. */
    method Settle(x: nat, ghost k: nat)
      requires ValidBut(x) && k < |fl| && fl[k] == x && ClearBehind(size, fl, x) && ClearAhead(size, fl, x)
      modifies this`freeBlock, this`freeMem, this`size, this`fl, cells
      ensures Valid() && Blocks() == old(Blocks())
    {
      ListedCell(cells[..], used, freeBlock, End(), size, fl, x, k);
      if x + cells[x].w0 == freeMem {
        TrimTail(x, k);
      } else {
        Settled(cells[..], used, freeBlock, End(), size, fl, x);
      }
    }

    /** Frees the block at o while others stay in use: fills it, links it in, merges it with its free neighbours and the end. */
    method Surrender(o: nat, n: nat) returns (ok: bool)
      requires Valid() && o in Blocks() && n == size[o] && n < used
      modifies this`used, this`freeBlock, this`freeMem, this`size, this`fl, cells
      ensures ok && Valid() && used == old(used) - n
      ensures Blocks() == old(Blocks()) - {o}
    {
      var prev: nat, x: nat;
      ghost var k: nat;
      ok, prev, k := LinkIn(o, n);
      if !ok {
        return;
      }
      InsertedAt(old(fl), k, o);
      x, k := Coalesce(o, prev, k);
      Settle(x, k);
    }

    /** The first listed block at or past e. */
    method FindFrom(e: nat) returns (prev: nat, cur: nat, ghost k: nat)
      requires Valid()
      ensures k <= |fl| && prev == Before(fl, k) && cur == At(fl, k)
      ensures (k > 0 ==> fl[k - 1] < e) && (k < |fl| ==> e <= fl[k]) && (cur == 0 <==> k == |fl|)
    {
      prev, cur, k := 0, freeBlock, 0;
      while cur != 0 && cur < e
        invariant k <= |fl| && prev == Before(fl, k) && cur == At(fl, k) && (k > 0 ==> fl[k - 1] < e)
        decreases |fl| - k
      {
        assert fl[k] in fl && Links(cells[..], fl, k);
        prev, cur, k := cur, cells[cur].w1, k + 1;
      }
      assert k < |fl| ==> fl[k] in fl;
    }

    /** The memory writes of growing the block at o by take cells of the free block right behind it. */
    method TakeCells(o: nat, cur: nat, prev: nat, want: nat) returns (take: nat)
      requires prev < cur < cells.Length && prev != o && o < cur && cur == o + cells[o].w0 && cells[o].w0 < want
      requires want <= cells[o].w0 + cells[cur].w0 && cur + cells[cur].w0 <= cells.Length
      modifies this`freeBlock, cells
      ensures take == want - old(cells[o].w0)
      ensures freeBlock == Head(old(freeBlock), prev, DetachedLink(old(cells[..]), cur, take))
      ensures cells[..] == FusedCells(DetachedCells(old(cells[..]), prev, cur, take), o, cur, want)
    {
      var total := cells[o].w0;
      take := want - total;
      if cells[cur].w0 >= take + 1 {
        var split := cur + take;
        cells[split] := Cell(cells[cur].w0 - take, cells[cur].w1);
        SetLink(prev, split);
      } else {
        take := cells[cur].w0;
        SetLink(prev, cells[cur].w1);
      }
      cells[o] := cells[o].(w0 := total + take);
      Fill(o + total, o + total + take, ZERO);
    }

    /** Extends the block at o by t cells of the free block right behind it. */
    method GrowInto(o: nat, cur: nat, prev: nat, want: nat, ghost k: nat, ghost t: nat)
      requires Valid() && o in Blocks() && k < |fl| && cur == fl[k] && prev == Before(fl, k)
      requires o + size[o] == cur && want == size[o] + t && 1 <= t <= size[cur]
      modifies this`used, this`freeBlock, this`size, this`fl, cells
      ensures Valid() && used == old(used) + t
      ensures Blocks() == old(Blocks()[o := Blocks()[o] + Zeros(t)])
    {
      ghost var was, live, q, m := cells[..], Blocks(), cur + t, size[cur] - t;
      ghost var size1 := CarvedSize(size, cur, t, q, m);
      FreeCell(was, used, freeBlock, End(), size, fl, k);
      LiveCell(was, used, freeBlock, End(), size, fl, o, k);
      TakeBehind(o, cur, prev, want, t);
      size, fl := (size1 - {cur})[o := want], CarvedList(fl, k, q, m);
      Grown(was, old(used), old(freeBlock), End(), old(size), old(fl), o, k, cur, t, q, m, want,
            DetachedCells(was, prev, cur, t), cells[..], used, freeBlock, size1, size, fl, live);
    }

    method TakeBehind(o: nat, cur: nat, prev: nat, want: nat, ghost t: nat)
      requires prev < cur < cells.Length && prev != o && o < cur && cur == o + cells[o].w0 && want == cells[o].w0 + t
      requires 1 <= t <= cells[cur].w0 && cur + cells[cur].w0 <= cells.Length
      modifies this`used, this`freeBlock, cells
      ensures used == old(used) + t
      ensures freeBlock == Head(old(freeBlock), prev, DetachedLink(old(cells[..]), cur, t))
      ensures cells[..] == FusedCells(DetachedCells(old(cells[..]), prev, cur, t), o, cur, want)
    {
      var take := TakeCells(o, cur, prev, want);
      used := used + take;
    }

    /** The block's cell says its new length, and the cells it gained are zero. */
    method Extend(o: nat, total: nat, want: nat, ghost take: nat, ghost end: nat, ghost end': nat)
      requires o + total == end && want == total + take && take >= 1 && end' == end + take <= cells.Length && total >= 1
      modifies cells
      ensures cells[..] == FusedCells(BumpedCells(old(cells[..]), end, take, end'), o, end, want)
    {
      cells[o] := cells[o].(w0 := want);
      Fill(o + total, o + want, ZERO);
    }

    /** Extends the block at o, the last one, by t cells past it. */
    method GrowTail(o: nat, want: nat, ghost t: nat)
      requires Valid() && o in Blocks() && o + size[o] == freeMem && want == size[o] + t && t >= 1 && o + want <= CELLS
      modifies this`used, this`freeMem, this`size, cells
      ensures Valid() && used == old(used) + t
      ensures Blocks() == old(Blocks()[o := Blocks()[o] + Zeros(t)])
    {
      hide Inv, BumpedCells, FusedCells;
      LiveCell(cells[..], used, freeBlock, End(), size, fl, o, 0);
      ghost var was, live, end, size1 := cells[..], Blocks(), freeMem, size[freeMem := t];
      var total := cells[o].w0;
      var take := want - total;
      freeMem := freeMem + take;
      used := used + take;
      Extend(o, total, want, take, end, freeMem);
      size := (size1 - {end})[o := want];
      GrownTail(was, old(used), freeBlock, end, old(size), fl, o, take, freeMem, want,
                BumpedCells(was, end, take, freeMem), cells[..], used, size1, size, live);
    }

    /** Whether the block at o, which ends at e, can be extended by t cells where it lies. */
    ghost predicate RoomBehind(e: nat, t: nat)
      reads this`freeMem, this`size, this`fl
    {
      (e in fl && e in size && t <= size[e]) || (e == End() && e + t <= CELLS)
    }

    /** The in-place part of reallocate: succeeds exactly when there is room right behind the block. */
    method Grow(o: nat, want: nat, ghost e: nat, ghost t: nat) returns (ok: bool)
      requires Valid() && o in Blocks() && e == o + size[o] && want == size[o] + t && t >= 1
      modifies this`used, this`freeBlock, this`freeMem, this`size, this`fl, cells
      ensures Valid() && ok == old(RoomBehind(e, t))
      ensures ok ==> used == old(used) + t && Blocks() == old(Blocks()[o := Blocks()[o] + Zeros(t)])
      ensures !ok ==> used == old(used) && Blocks() == old(Blocks())
    {
      LiveCell(cells[..], used, freeBlock, End(), size, fl, o, 0);
      var total := cells[o].w0;
      var prev, cur: nat;
      ghost var k: nat;
      prev, cur, k := FindFrom(o + total);
      FoundFrom(fl, k, e);
      if cur != 0 && cur == o + total {
        FreeCell(cells[..], used, freeBlock, End(), size, fl, k);
        if total + cells[cur].w0 >= want {
          GrowInto(o, cur, prev, want, k, t);
          return true;
        }
      }
      if o + total == freeMem && freeMem + want - total <= CELLS {
        GrowTail(o, want, t);
        return true;
      }
      ok := false;
    }

    /** memcpy of len cells from src into the payload of the block at o. */
    method CopyInto(o: nat, src: array<Cell>, from: nat, len: nat)
      requires Valid() && o in Blocks() && len < size[o] && from + len <= src.Length
      requires src != cells || from + len <= o + 1 || o + 1 + len <= from
      modifies cells
      ensures Valid() && Blocks() == old(Blocks()[o := src[from..from + len] + Blocks()[o][len..]])
    {
      ghost var was, data, a := cells[..], src[from..from + len], o + 1;
      CopyCells(o + 1, src, from, len);
      Written(was, used, freeBlock, End(), size, fl, o, a, o + size[o], data, cells[..], old(Blocks()));
    }

    method CopyCells(a: nat, src: array<Cell>, from: nat, len: nat)
      requires a + len <= cells.Length && from + len <= src.Length
      requires src != cells || from + len <= a || a + len <= from
      modifies cells
      ensures cells[..] == Spliced(old(cells[..]), a, old(src[from..from + len]))
    {
      var i := 0;
      while i < len
        invariant i <= len
        invariant forall j :: 0 <= j < cells.Length ==> cells[j] == if a <= j < a + i then old(src[from + j - a]) else old(cells[j])
      {
        cells[a + i] := src[from + i];
        i := i + 1;
      }
    }

    /** Overwrites the only live block; the header is reset or given up afterwards. */
    method Drain(o: nat, n: nat)
      requires Valid() && o in Blocks() && n == size[o] && used == n
      modifies this`used, cells
      ensures used == 0 && old(Blocks()) - {o} == map[] && cells.Length == CELLS
    {
      LastLive(cells[..], used, freeBlock, End(), size, fl, o);
      Fill(o, o + n, DEAD);
      used := used - n;
    }

    /** Makes an emptied page as good as new. */
    method Reset()
      requires used == 0 && cells.Length == CELLS
      modifies this`freeBlock, this`freeMem, this`size, this`fl
      ensures Valid() && View() == map[]
    {
      freeBlock, freeMem, size, fl := 0, 0, map[], [];
    }
  }
}
