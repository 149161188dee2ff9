/** What the page chain promises its callers: a map from live pointers to payloads. */
module AllocHeap {
  import opened Basics
  import opened AllocMemory
  import opened AllocPage
  import opened AllocPtr

  type Blocks = map<nat, seq<Cell>>

  /** The blocks of all pages as one map from pointers to payloads. */
  ghost function HeapOf(small: map<Page, Blocks>): map<Ptr, seq<Cell>> {
    map p | p in (set q, o | q in small && o in small[q] :: InPage(q, o)) :: small[p.page][p.at]
  }

  lemma InHeap(small: map<Page, Blocks>, q: Page, o: nat)
    ensures InPage(q, o) in HeapOf(small) <==> q in small && o in small[q]
    ensures InPage(q, o) in HeapOf(small) ==> HeapOf(small)[InPage(q, o)] == small[q][o]
  {}

  lemma PutBlock(small: map<Page, Blocks>, q: Page, o: nat, d: seq<Cell>, b: Blocks)
    requires q in small && b == small[q][o := d]
    ensures HeapOf(small[q := b]) == HeapOf(small)[InPage(q, o) := d]
  {}

  lemma OnlyInPages(small: map<Page, Blocks>)
    ensures forall p :: p in HeapOf(small) ==> p.InPage?
  {}

  lemma DropBlock(small: map<Page, Blocks>, q: Page, o: nat, b: Blocks)
    requires q in small && b == small[q] - {o}
    ensures HeapOf(small[q := b]) == HeapOf(small) - {InPage(q, o)}
  {
    hide HeapOf;
    var was, now := HeapOf(small) - {InPage(q, o)}, HeapOf(small[q := b]);
    OnlyInPages(small);
    OnlyInPages(small[q := b]);
    forall r, a ensures InPage(r, a) in was <==> InPage(r, a) in now
      ensures InPage(r, a) in was ==> was[InPage(r, a)] == now[InPage(r, a)]
    {
      InHeap(small, r, a);
      InHeap(small[q := b], r, a);
    }
    SameHeap(was, now);
  }

  lemma SameHeap(a: map<Ptr, seq<Cell>>, b: map<Ptr, seq<Cell>>)
    requires forall p :: p in a ==> p.InPage?
    requires forall p :: p in b ==> p.InPage?
    requires forall r, o :: InPage(r, o) in a <==> InPage(r, o) in b
    requires forall r, o :: InPage(r, o) in a ==> a[InPage(r, o)] == b[InPage(r, o)]
    ensures a == b
  {
    forall p | p in a ensures p in b && a[p] == b[p] {
      assert p == InPage(p.page, p.at);
    }
    forall p | p in b ensures p in a {
      assert p == InPage(p.page, p.at);
    }
  }

  lemma NewPage(small: map<Page, Blocks>, q: Page)
    requires q !in small
    ensures HeapOf(small[q := map[]]) == HeapOf(small)
  {
    hide HeapOf;
    var was, now := HeapOf(small), HeapOf(small[q := map[]]);
    OnlyInPages(small);
    OnlyInPages(small[q := map[]]);
    forall r, a ensures InPage(r, a) in was <==> InPage(r, a) in now
      ensures InPage(r, a) in was ==> was[InPage(r, a)] == now[InPage(r, a)]
    {
      InHeap(small, r, a);
      InHeap(small[q := map[]], r, a);
    }
    SameHeap(was, now);
  }

  lemma EmptyPage(small: map<Page, Blocks>, q: Page)
    requires q in small && small[q] == map[]
    ensures HeapOf(small - {q}) == HeapOf(small)
  {}

  /** Freeing the last block of a page and giving the page back. */
  lemma DropPage(small: map<Page, Blocks>, q: Page, o: nat)
    requires q in small && o in small[q] && small[q] - {o} == map[]
    ensures HeapOf(small - {q}) == HeapOf(small) - {InPage(q, o)}
  {
    DropBlock(small, q, o, map[]);
    EmptyPage(small[q := map[]], q);
    assert small[q := map[]] - {q} == small - {q};
  }

  // ---------- The chain of pages ----------

  lemma WithoutMembers(chain: seq<Page>, k: nat)
    requires k < |chain| && forall i, j :: 0 <= i < j < |chain| ==> chain[i] != chain[j]
    ensures forall q :: q in Without(chain, k) <==> q in chain && q != chain[k]
  {
    var w := Without(chain, k);
    forall q | q in chain && q != chain[k] ensures q in w {
      var i :| 0 <= i < |chain| && chain[i] == q;
      assert w[if i < k then i else i - 1] == q;
    }
  }

  // ---------- Pages and large allocations together ----------

  ghost predicate AllInPages(m: map<Ptr, seq<Cell>>) {
    forall p :: p in m ==> p.InPage?
  }

  ghost predicate AllWhole(m: map<Ptr, seq<Cell>>) {
    forall p :: p in m ==> p.Whole?
  }

  lemma PutLeft(a: map<Ptr, seq<Cell>>, b: map<Ptr, seq<Cell>>, p: Ptr, d: seq<Cell>)
    requires AllWhole(b) && p.InPage?
    ensures a[p := d] + b == (a + b)[p := d] && (p in a <==> p in a + b) && (p in a ==> (a + b)[p] == a[p])
  {}

  lemma DropLeft(a: map<Ptr, seq<Cell>>, b: map<Ptr, seq<Cell>>, p: Ptr)
    requires AllWhole(b) && p.InPage?
    ensures (a - {p}) + b == (a + b) - {p}
  {}

  lemma PutRight(a: map<Ptr, seq<Cell>>, b: map<Ptr, seq<Cell>>, p: Ptr, d: seq<Cell>)
    ensures a + b[p := d] == (a + b)[p := d]
  {}

  lemma DropRight(a: map<Ptr, seq<Cell>>, b: map<Ptr, seq<Cell>>, p: Ptr)
    requires AllInPages(a) && p.Whole?
    ensures a + (b - {p}) == (a + b) - {p}
  {}

  // ---------- Moving a payload ----------

  /** The payload d, extended by zeroed cells to n if it is shorter. */
  ghost function Padded(d: seq<Cell>, n: nat): (r: seq<Cell>)
    ensures d <= r && (|r| == n || (|r| > n && r == d)) && forall i :: |d| <= i < |r| ==> r[i] == Cell(0, 0)
  {
    if |d| < n then d + Zeros(n - |d|) else d
  }

  lemma PaddedZeros(d: seq<Cell>, n: nat, len: nat)
    requires len == |d| <= n
    ensures d + Zeros(n)[len..] == Padded(d, n)
  {}

  lemma PutTwice(c: map<Ptr, seq<Cell>>, p: Ptr, r: Ptr, zeros: seq<Cell>, d: seq<Cell>)
    requires p != r
    ensures c[r := zeros][r := d] - {p} == (c - {p})[r := d]
  {}
}
