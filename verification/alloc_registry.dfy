/** What a pointer handed out by the allocator can be, and the memory of large allocations. */
module AllocPtr {
  import opened AllocMemory
  import opened AllocPage

  /** Whole pages obtained for one large allocation. */
  class Region {
    const cells: array<Cell>

    constructor (n: nat)
      ensures fresh(cells) && cells[..] == Zeros(n)
    {
      cells := new Cell[n](_ => ZERO);
    }
  }

  /** InPage(page, at) is the address one cell past the block at cell at. */
  datatype Ptr = Null | InPage(page: Page, at: nat) | Whole(region: Region)
}

/** The chained pages that record large allocations. */
module AllocRegistry {
  import opened AllocPtr

  const LIMIT: nat := 255

  datatype Entry = Entry(ptr: Ptr, size: nat)

  class IndexPage {
    var count: nat
    var next: IndexPage?
    const slots: array<Entry>

    constructor ()
      ensures count == 0 && next == null && fresh(slots) && slots.Length == LIMIT
    {
      count, next := 0, null;
      slots := new Entry[LIMIT](_ => Entry(Null, 0));
    }

    /** The slots in use. */
    ghost function Row(): seq<Entry>
      requires count <= slots.Length
      reads this, slots
    {
      slots[..count]
    }

    method Push(e: Entry)
      requires count < slots.Length
      modifies this`count, slots
      ensures count == old(count) + 1 && Row() == old(Row()) + [e]
    {
      slots[count] := e;
      count := count + 1;
    }

    /** The last slot in use moves to slot j. */
    method Overwrite(j: nat)
      requires j < count <= slots.Length
      modifies this`count, slots
      ensures count == old(count) - 1 && Row() == Moved(old(Row()), j)
    {
      slots[j] := slots[count - 1];
      slots[count - 1] := Entry(Null, 0);
      count := count - 1;
    }
  }

  /** A row whose slot j is overwritten by the last, which is dropped. */
  ghost function Moved(row: seq<Entry>, j: nat): seq<Entry>
    requires j < |row|
  {
    row[j := row[|row| - 1]][..|row| - 1]
  }

  // ---------- The entries of all pages ----------

  /** An entry that is in the table, and whose place is recorded. */
  ghost predicate Entered(e: Entry, table: map<Ptr, nat>, place: map<Ptr, (nat, nat)>, i: nat, j: nat) {
    e.ptr in table && table[e.ptr] == e.size && e.ptr in place && place[e.ptr] == (i, j) && e.ptr != Null && e.size > 0
  }

  ghost predicate Found(rows: seq<seq<Entry>>, place: map<Ptr, (nat, nat)>, p: Ptr)
    requires p in place
  {
    place[p].0 < |rows| && place[p].1 < |rows[place[p].0]| && rows[place[p].0][place[p].1].ptr == p
  }

  /** The rows hold exactly the table's entries, each once. */
  ghost predicate Book(rows: seq<seq<Entry>>, table: map<Ptr, nat>, place: map<Ptr, (nat, nat)>) {
    && (forall i, j :: 0 <= i < |rows| && 0 <= j < |rows[i]| ==> Entered(rows[i][j], table, place, i, j))
    && table.Keys == place.Keys
    && (forall p :: p in place ==> Found(rows, place, p))
  }

  lemma BookAppended(rows: seq<seq<Entry>>, table: map<Ptr, nat>, place: map<Ptr, (nat, nat)>, k: nat, e: Entry)
    requires Book(rows, table, place) && k < |rows| && e.ptr !in table && e.ptr != Null && e.size > 0
    ensures Book(rows[k := rows[k] + [e]], table[e.ptr := e.size], place[e.ptr := (k, |rows[k]|)])
  {
    var now, place' := rows[k := rows[k] + [e]], place[e.ptr := (k, |rows[k]|)];
    forall p | p in place' ensures Found(now, place', p) {
      assert p != e.ptr ==> Found(rows, place, p);
    }
  }

  lemma BookExtended(rows: seq<seq<Entry>>, table: map<Ptr, nat>, place: map<Ptr, (nat, nat)>)
    requires Book(rows, table, place)
    ensures Book(rows + [[]], table, place)
  {
    forall p | p in place ensures Found(rows + [[]], place, p) {
      assert Found(rows, place, p);
    }
  }

  lemma BookMoved(rows: seq<seq<Entry>>, table: map<Ptr, nat>, place: map<Ptr, (nat, nat)>, k: nat, j: nat)
    requires Book(rows, table, place) && k < |rows| && j < |rows[k]|
    ensures var e, last := rows[k][j], rows[k][|rows[k]| - 1];
      Book(rows[k := Moved(rows[k], j)], table - {e.ptr}, place[last.ptr := (k, j)] - {e.ptr})
  {
    var e, last, c := rows[k][j], rows[k][|rows[k]| - 1], |rows[k]| - 1;
    var now, table', place' := rows[k := Moved(rows[k], j)], table - {e.ptr}, place[last.ptr := (k, j)] - {e.ptr};
    assert Entered(e, table, place, k, j) && Entered(last, table, place, k, c);
    forall i, h | 0 <= i < |now| && 0 <= h < |now[i]| ensures Entered(now[i][h], table', place', i, h) {
      assert i != k || h != j ==> now[i][h] == rows[i][h] && Entered(rows[i][h], table, place, i, h);
    }
    forall p | p in place' ensures Found(now, place', p) {
      assert Found(rows, place, p);
    }
  }

  class Registry {
    var first: IndexPage?
    ghost var pages: seq<IndexPage>
    /** The entries on each page, and what they record. */
    ghost var rows: seq<seq<Entry>>
    ghost var table: map<Ptr, nat>
    ghost var place: map<Ptr, (nat, nat)>

    ghost function Repr(): set<object>
      reads this, pages
    {
      {this} + (set p: IndexPage | p in pages :: p as object) + (set p: IndexPage | p in pages :: p.slots as object)
    }

    /** The i-th page links to the next. */
    ghost predicate Chained(i: nat)
      requires i < |pages|
      reads this, pages
    {
      pages[i].next == if i + 1 < |pages| then pages[i + 1] else null
    }

    /** The i-th page holds the i-th row. */
    ghost predicate Holds(i: nat)
      requires i < |pages| == |rows|
      reads this, pages, pages[i].slots
    {
      pages[i].count <= pages[i].slots.Length && pages[i].Row() == rows[i]
    }

    ghost predicate Shaped()
      reads this, pages
    {
      && first == (if pages == [] then null else pages[0])
      && (forall i {:trigger Chained(i)} :: 0 <= i < |pages| ==> Chained(i))
      && (forall i :: 0 <= i < |pages| ==> pages[i].slots.Length == LIMIT && pages[i].count <= LIMIT)
      && (forall i, j :: 0 <= i < j < |pages| ==> pages[i] != pages[j] && pages[i].slots != pages[j].slots)
    }

    ghost predicate Valid()
      reads this, pages, Repr()
    {
      && Shaped() && |rows| == |pages|
      && (forall i {:trigger Holds(i)} :: 0 <= i < |pages| ==> Holds(i))
      && Book(rows, table, place)
    }

    lemma FirstPage()
      requires Valid()
      ensures first == null <==> pages == []
    {}

    constructor ()
      ensures Valid() && Repr() == {this} && table == map[] && first == null
    {
      first, pages, rows, table, place := null, [], [], map[], map[];
    }

    /** Obtains the first index page, if a page is to be had. */
    method Open() returns (ok: bool)
      requires Valid() && first == null
      modifies this`first, this`pages, this`rows
      ensures Valid() && table == old(table) && (ok <==> pages != []) && fresh(Repr() - {this})
    {
      ok := *;
      if ok {
        Unused();
        var page := new IndexPage();
        Attach(page);
      }
    }

    lemma Unused()
      requires Valid() && first == null
      ensures pages == [] && table == map[] && place == map[]
    {
      assert forall p :: p in place ==> Found(rows, place, p);
    }

    method Attach(page: IndexPage)
      requires table == map[] && place == map[] && page.count == 0 && page.next == null && page.slots.Length == LIMIT
      modifies this`first, this`pages, this`rows
      ensures Valid() && table == old(table) && pages == [page] && Repr() == {this, page, page.slots}
    {
      first := page;
      pages := [page];
      rows := [[]];
      assert Chained(0) && Holds(0);
      assert forall p: IndexPage :: p in pages <==> p == page;
    }

    /** get_alloc_size: the recorded size, 0 for what is not recorded. */
    method AllocSize(ptr: Ptr) returns (size: nat)
      requires Valid()
      ensures size == if ptr in table then table[ptr] else 0
    {
      var ind := first;
      ghost var k: nat := 0;
      assert ptr in table ==> Found(rows, place, ptr);
      while ind != null
        invariant k <= |pages| && ind == (if k < |pages| then pages[k] else null)
        invariant ptr in table ==> place[ptr].0 >= k
        decreases |pages| - k
      {
        assert Holds(k);
        var i := 0;
        while i < ind.count
          invariant i <= ind.count
          invariant ptr in table ==> place[ptr].0 > k || place[ptr].1 >= i
        {
          assert ind.slots[i] == rows[k][i] && Entered(rows[k][i], table, place, k, i);
          if ind.slots[i].ptr == ptr {
            return ind.slots[i].size;
          }
          i := i + 1;
        }
        assert Chained(k);
        ind, k := ind.next, k + 1;
      }
      size := 0;
    }

    /** The last index page. */
    method LastPage() returns (ind: IndexPage)
      requires Shaped() && pages != []
      ensures ind == pages[|pages| - 1]
    {
      ind := first;
      ghost var k: nat := 0;
      assert Chained(0);
      while ind.next != null
        invariant k < |pages| && ind == pages[k] && Chained(k)
        decreases |pages| - k
      {
        ind, k := ind.next, k + 1;
        assert Chained(k);
      }
    }

    /** Links a fresh, empty index page behind the last one. */
    method Extend(ind: IndexPage) returns (added: IndexPage)
      requires Valid() && pages != [] && ind == pages[|pages| - 1]
      modifies this`pages, this`rows, ind`next
      ensures Valid() && table == old(table)
      ensures pages == old(pages) + [added] && fresh(added) && fresh(added.slots) && added.count == 0
    {
      hide Book;
      added := new IndexPage();
      ghost var k: nat := |pages| - 1;
      BookExtended(rows, table, place);
      ind.next := added;
      pages := pages + [added];
      rows := rows + [[]];
      forall i | 0 <= i < |pages| ensures Chained(i) {
        assert i < k ==> old(Chained(i));
      }
      forall i | 0 <= i < |pages| ensures Holds(i) {
        assert i <= k ==> old(Holds(i));
      }
    }

    /** Stores one more entry in the last index page. */
    method Append(ind: IndexPage, ptr: Ptr, size: nat)
      requires Valid() && pages != [] && ind == pages[|pages| - 1] && ind.count < LIMIT
      requires ptr !in table && ptr != Null && size > 0
      modifies this`rows, this`table, this`place, ind`count, ind.slots
      ensures Valid() && table == old(table)[ptr := size]
    {
      hide Book, IndexPage.Row;
      ghost var k: nat := |pages| - 1;
      assert Holds(k);
      BookAppended(rows, table, place, k, Entry(ptr, size));
      ind.Push(Entry(ptr, size));
      rows, table, place := rows[k := rows[k] + [Entry(ptr, size)]], table[ptr := size], place[ptr := (k, |rows[k]|)];
      forall i | 0 <= i < |pages| ensures Chained(i) {
        assert old(Chained(i));
      }
      forall i | 0 <= i < |pages| ensures Holds(i) {
        assert i != k ==> old(Holds(i));
      }
    }

    /** register_page_alloc: gives up only when the last page is full and no page is to be had. */
    method Register(ptr: Ptr, size: nat) returns (ok: bool)
      requires Valid() && pages != [] && ptr !in table && ptr != Null && size > 0
      modifies Repr()
      ensures Valid() && pages != [] && first == old(first) && fresh(Repr() - old(Repr()))
      ensures table == if ok then old(table)[ptr := size] else old(table)
    {
      var ind := LastPage();
      assert ind in pages && ind in Repr() && ind.slots in Repr();
      if ind.count >= LIMIT {
        var obtained := *;
        if !obtained {
          return false;
        }
        ind := Extend(ind);
      }
      Append(ind, ptr, size);
      ok := true;
    }

    /** Overwrites slot j of page k by the last of that page and drops the last. */
    method SwapOut(ind: IndexPage, ghost k: nat, j: nat)
      requires Valid() && k < |pages| && ind == pages[k] && j < ind.count
      modifies this`rows, this`table, this`place, ind`count, ind.slots
      ensures Valid() && table == old(table) - {old(ind.slots[j].ptr)}
    {
      hide Book;
      assert Holds(k);
      ghost var e, last := rows[k][j], rows[k][|rows[k]| - 1];
      BookMoved(rows, table, place, k, j);
      ind.Overwrite(j);
      rows, table, place := rows[k := Moved(rows[k], j)], table - {e.ptr}, place[last.ptr := (k, j)] - {e.ptr};
      forall i | 0 <= i < |pages| ensures Chained(i) {
        assert old(Chained(i));
      }
      forall i | 0 <= i < |pages| ensures Holds(i) {
        assert i != k ==> old(Holds(i));
      }
    }

    /** unregister_page_alloc: forgets ptr if it is recorded. */
    method Unregister(ptr: Ptr)
      requires Valid() && ptr != Null
      modifies Repr()
      ensures Valid() && table == old(table) - {ptr} && pages == old(pages) && Repr() == old(Repr())
    {
      var ind := first;
      ghost var k: nat := 0;
      assert ptr in table ==> Found(rows, place, ptr);
      while ind != null
        invariant k <= |pages| && ind == (if k < |pages| then pages[k] else null)
        invariant ptr in table ==> place[ptr].0 >= k
        invariant Valid() && table == old(table) && pages == old(pages)
        decreases |pages| - k
      {
        assert Holds(k);
        var i := 0;
        while i < ind.count
          invariant i <= ind.count
          invariant ptr in table ==> place[ptr].0 > k || place[ptr].1 >= i
        {
          assert ind.slots[i] == rows[k][i] && Entered(rows[k][i], table, place, k, i);
          if ind.slots[i].ptr == ptr {
            assert ind in pages && ind in Repr() && ind.slots in Repr();
            SwapOut(ind, k, i);
            return;
          }
          i := i + 1;
        }
        assert Chained(k);
        ind, k := ind.next, k + 1;
      }
    }
  }
}
