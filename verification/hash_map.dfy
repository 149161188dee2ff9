/** The chained hash map: linked entries in an array of buckets. */
module HashMaps {
  import opened Basics
  import opened Bits
  import opened HashCapacity
  import opened HashTables

  class Entry {
    const hash: nat
    const key: Key
    var value: Ptr
    var next: Entry?

    constructor (hash: nat, key: Key, value: Ptr, next: Entry?)
      ensures this.hash == hash && this.key == key && this.value == value && this.next == next
    {
      this.hash := hash;
      this.key := key;
      this.value := value;
      this.next := next;
    }
  }

  ghost predicate Follows(row: seq<Entry>, j: nat)
    requires j < |row|
    reads row
  {
    row[j].next == if j + 1 < |row| then row[j + 1] else null
  }

  ghost predicate Holds(e: Entry, s: Slot)
    reads e
  {
    e.hash == s.hash && e.key == s.key && e.value == s.value
  }

  /** The chain from head runs through row, whose entries hold the slots r. */
  ghost predicate Chain(head: Entry?, row: seq<Entry>, r: Row)
    reads row
  {
    |row| == |r| && head == (if row == [] then null else row[0]) &&
    (forall j {:trigger Follows(row, j)} :: 0 <= j < |row| ==> Follows(row, j)) &&
    (forall j {:trigger row[j]} :: 0 <= j < |row| ==> Holds(row[j], r[j]))
  }

  /** Keys are compared byte by byte. */
  method BytewiseEq(a: Key, b: Key) returns (eq: bool)
    ensures eq <==> a == b
  {
    if |a| != |b| {
      return false;
    }
    var i := 0;
    while i < |a|
      invariant i <= |a| && a[..i] == b[..i]
    {
      if a[i] != b[i] {
        return false;
      }
      i := i + 1;
    }
    assert a == a[..i] && b == b[..i];
    return true;
  }

  /** A new entry in front of a chain. */
  lemma ChainFront(head: Entry?, row: seq<Entry>, r: Row, e: Entry, s: Slot)
    requires Chain(head, row, r) && Holds(e, s) && e.next == head
    ensures Chain(e, [e] + row, [s] + r)
  {
    var longer := [e] + row;
    forall j | 0 <= j < |longer| ensures Follows(longer, j) {
      if j > 0 {
        assert Follows(row, j - 1);
      }
    }
  }

  lemma ChainHead(head: Entry?, row: seq<Entry>, r: Row)
    requires Chain(head, row, r)
    ensures |row| == |r| && (head == null <==> row == [])
  {
  }

  /** The rest of a chain. */
  lemma ChainRest(head: Entry?, row: seq<Entry>, r: Row)
    requires Chain(head, row, r) && row != []
    ensures head != null && head == row[0] && Chain(head.next, row[1..], r[1..])
    ensures Holds(head, r[0])
  {
    assert Follows(row, 0);
    forall j | 0 <= j < |row| - 1 ensures Follows(row[1..], j) {
      assert Follows(row, j + 1);
    }
  }

  ghost predicate IsCapacity(n: nat) {
    8 <= n && 8 * n < WORD64 && exists k: nat :: n == Pow2(k)
  }

  /** The bucket of a hash: its low bits. */
  lemma IndexIsRemainder(h: nat, n: nat)
    requires IsCapacity(n)
    ensures And(h, n - 1) == h % n
  {
    var k: nat :| n == Pow2(k);
    AndOnes(h, k);
    MaskIsRemainder(h, k);
  }

  /** No entry is on two chains or twice on one. */
  ghost predicate Apart(rows: seq<seq<Entry>>) {
    (forall i, k, e :: 0 <= i < |rows| && 0 <= k < |rows| && e in rows[i] && e in rows[k] ==> i == k) &&
    forall i :: 0 <= i < |rows| ==> Singly(rows[i])
  }

  ghost predicate Singly(row: seq<Entry>) {
    forall j, l :: 0 <= j < l < |row| ==> row[j] != row[l]
  }

  ghost function Entries(rows: seq<seq<Entry>>): set<Entry> {
    set i, j | 0 <= i < |rows| && 0 <= j < |rows[i]| :: rows[i][j]
  }

  lemma RowInside(rows: seq<seq<Entry>>, i: nat)
    requires i < |rows|
    ensures forall e :: e in rows[i] ==> e in Entries(rows)
  {
  }

  ghost predicate Chains(heads: seq<Entry?>, rows: seq<seq<Entry>>, t: Table)
    reads Entries(rows)
  {
    |heads| == |rows| == |t| && forall i :: 0 <= i < |rows| ==> (RowInside(rows, i); Chain(heads[i], rows[i], t[i]))
  }

  function Set(t: Table, i: nat, j: nat, value: Ptr): (u: Table)
    requires i < |t| && j < |t[i]|
    ensures |u| == |t|
  {
    t[i := t[i][j := t[i][j].(value := value)]]
  }

  /** Writing the value of one entry changes one slot. */
  method WriteValue(e: Entry, value: Ptr, ghost heads: seq<Entry?>, ghost rows: seq<seq<Entry>>, ghost t: Table,
                    ghost idx: nat, ghost j: nat)
    requires Chains(heads, rows, t) && Apart(rows) && idx < |rows| && j < |rows[idx]| && e == rows[idx][j]
    modifies e
    ensures Chains(heads, rows, Set(t, idx, j, value))
  {
    ghost var row, r := rows[idx], t[idx];
    assert Chain(heads[idx], row, r) && Holds(e, r[j]);
    assert Singly(row);
    label Before:
    e.value := value;
    ghost var u := Set(t, idx, j, value);
    forall k | 0 <= k < |row| ensures Follows(row, k) {
      assert old@Before(Follows(row, k));
    }
    forall k | 0 <= k < |row| ensures Holds(row[k], u[idx][k]) {
      assert k != j ==> row[k] != e;
      assert old@Before(Holds(row[k], r[k]));
    }
    assert Chain(heads[idx], row, u[idx]);
    forall i | 0 <= i < |rows| ensures Chain(heads[i], rows[i], u[i]) {
      assert i != idx ==> e !in rows[i];
      assert old@Before(Chain(heads[i], rows[i], t[i]));
    }
  }

  lemma DoubledCapacity(n: nat)
    requires IsCapacity(n)
    ensures Shl(n, 1) % WORD64 == 2 * n < WORD64 && NextPow2(2 * n) == 2 * n
  {
    hide NextPow2;
    var k: nat :| n == Pow2(k);
    Pow2Values();
    ShlIsProduct(n, 1);
    assert Pow2(k + 1) == 2 * n;
    if k + 1 < 3 {
      Pow2Mono(k + 1, 2);
    } else if 64 <= k + 1 {
      Pow2Mono(64, k + 1);
    }
    NextPow2OfPower(k + 1);
  }

  lemma PushedAdds(t: Table, hash: HashFn, i: nat, s: Slot)
    requires Good(t, hash) && s.hash == hash(s.key) && i == s.hash % |t| && s.key !in Contents(t, hash)
    ensures Good(Pushed(t, i, s), hash) && |Slots(Pushed(t, i, s))| == |Slots(t)| + 1
    ensures Contents(Pushed(t, i, s), hash) == Contents(t, hash)[s.key := s.value]
  {
    FoundInRow(t, hash, s.key);
    Added(t, hash, i, s);
  }

  // ----- relinking

  function Pushed<T>(rows: seq<seq<T>>, i: nat, x: T): (r: seq<seq<T>>)
    requires i < |rows|
    ensures |r| == |rows|
  {
    rows[i := [x] + rows[i]]
  }

  function Taken<T>(rows: seq<seq<T>>, i: nat, j: nat): (r: seq<seq<T>>)
    requires i < |rows| && j < |rows[i]|
    ensures |r| == |rows|
  {
    rows[i := rows[i][..j] + rows[i][j + 1..]]
  }

  lemma PushedApart(rows: seq<seq<Entry>>, i: nat, e: Entry)
    requires Apart(rows) && i < |rows| && e !in Entries(rows)
    ensures Apart(Pushed(rows, i, e)) && Entries(Pushed(rows, i, e)) == Entries(rows) + {e}
  {
    var more := Pushed(rows, i, e);
    forall k | 0 <= k < |rows| ensures Singly(more[k]) && e !in rows[k] {
      RowInside(rows, k);
      assert Singly(rows[k]);
    }
    PushedEntries(rows, i, e);
  }

  lemma PushedEntries(rows: seq<seq<Entry>>, i: nat, e: Entry)
    requires i < |rows|
    ensures Entries(Pushed(rows, i, e)) == Entries(rows) + {e}
  {
    var more := Pushed(rows, i, e);
    assert more[i][0] == e;
    forall x ensures x in Entries(rows) ==> x in Entries(more) {
      if x in Entries(rows) {
        var k, j :| 0 <= k < |rows| && 0 <= j < |rows[k]| && rows[k][j] == x;
        assert more[k][if k == i then j + 1 else j] == x;
      }
    }
  }

  lemma TakenApart(rows: seq<seq<Entry>>, i: nat, j: nat)
    requires Apart(rows) && i < |rows| && j < |rows[i]|
    ensures Apart(Taken(rows, i, j)) && Entries(Taken(rows, i, j)) == Entries(rows) - {rows[i][j]}
  {
    var e := rows[i][j];
    var less := Taken(rows, i, j);
    assert Singly(rows[i]);
    forall x ensures x in less[i] <==> x in rows[i] && x != e {
      if x in rows[i] && x != e {
        var k :| 0 <= k < |rows[i]| && rows[i][k] == x;
        assert x == if k < j then less[i][k] else less[i][k - 1];
      }
    }
    forall k | 0 <= k < |rows| ensures Singly(less[k]) {
      assert Singly(rows[k]);
    }
    forall k, x | 0 <= k < |rows| ensures x in less[k] <==> x in rows[k] && x != e {
      assert e in rows[k] ==> k == i;
    }
    forall x ensures x in Entries(less) <==> x in Entries(rows) && x != e {
      InEntries(rows, x);
      InEntries(less, x);
    }
  }

  lemma InEntries(rows: seq<seq<Entry>>, e: Entry)
    ensures e in Entries(rows) <==> exists i :: 0 <= i < |rows| && e in rows[i]
  {
    if i :| 0 <= i < |rows| && e in rows[i] {
      RowInside(rows, i);
    }
  }

  /** Link an entry that points at the head of chain i in front of it. */
  method LinkFront(heads: array<Entry?>, i: nat, e: Entry, ghost rows: seq<seq<Entry>>, ghost t: Table, ghost s: Slot)
    requires Chains(heads[..], rows, t) && i < |rows| && e.next == heads[i] && Holds(e, s)
    modifies heads
    ensures heads[..] == old(heads[..])[i := e]
    ensures Chains(heads[..], Pushed(rows, i, e), Pushed(t, i, s))
  {
    ChainFront(heads[..][i], rows[i], t[i], e, s);
    label Before:
    heads[i] := e;
    assert heads[..] == old(heads[..])[i := e];
    forall k | 0 <= k < |rows| ensures Chain(heads[..][k], Pushed(rows, i, e)[k], Pushed(t, i, s)[k]) {
      assert old@Before(Chain(heads[..][k], rows[k], t[k]));
    }
  }

  /** Take the first entry of chain i out of it, by letting the chain start at its successor. */
  method MoveEntry(nb: array<Entry?>, e: Entry, idx: nat, ghost heads: seq<Entry?>, ghost rest: seq<seq<Entry>>,
                   ghost t: Table, ghost i: nat, ghost rows: seq<seq<Entry>>, ghost u: Table)
    requires Chains(heads, rest, t) && Chains(nb[..], rows, u) && idx < |rows|
    requires Apart(rest) && Apart(rows) && Entries(rest) !! Entries(rows)
    requires i < |rest| && rest[i] != [] && e == rest[i][0]
    modifies nb, e`next
    ensures Chains(heads[i := old(e.next)], Taken(rest, i, 0), Taken(t, i, 0))
    ensures Chains(nb[..], Pushed(rows, idx, e), Pushed(u, idx, t[i][0]))
  {
    ghost var after := e.next;
    ghost var less, shorter := Taken(rest, i, 0), Taken(t, i, 0);
    RowInside(rest, i);
    TakenApart(rest, i, 0);
    assert Chain(heads[i], rest[i], t[i]);
    ChainRest(heads[i], rest[i], t[i]);
    assert less[i] == rest[i][1..] && shorter[i] == t[i][1..];
    assert Chains(heads[i := after], less, shorter) by {
      forall k | 0 <= k < |rest| ensures Chain(heads[i := after][k], less[k], shorter[k]) {
        assert Chain(heads[k], rest[k], t[k]);
      }
    }
    assert Holds(e, t[i][0]);
    assert e !in Entries(less) && e !in Entries(rows);
    e.next := nb[idx];
    LinkFront(nb, idx, e, rows, u, t[i][0]);
  }

  ghost predicate Split(rest: seq<seq<Entry>>, rows: seq<seq<Entry>>, all: set<Entry>) {
    Apart(rest) && Apart(rows) && Entries(rest) !! Entries(rows) && Entries(rest) + Entries(rows) == all
  }

  lemma SplitMoves(rest: seq<seq<Entry>>, rows: seq<seq<Entry>>, all: set<Entry>, i: nat, idx: nat)
    requires Split(rest, rows, all) && i < |rest| && rest[i] != [] && idx < |rows|
    ensures Split(Taken(rest, i, 0), Pushed(rows, idx, rest[i][0]), all)
    ensures rest[i][0] in Entries(rest)
  {
    RowInside(rest, i);
    TakenApart(rest, i, 0);
    PushedApart(rows, idx, rest[i][0]);
  }

  /** Move every entry of chain i to the front of the chain its hash selects among those of nb. */
  method MoveChain(nb: array<Entry?>, head: Entry?, ghost heads: seq<Entry?>, ghost rest: seq<seq<Entry>>,
                   ghost t: Table, ghost i: nat, ghost rows: seq<seq<Entry>>, ghost u: Table, ghost all: set<Entry>)
    returns (ghost rows': seq<seq<Entry>>)
    requires Chains(heads, rest, t) && Chains(nb[..], rows, u) && IsCapacity(nb.Length)
    requires i < |rest| == |heads| == |t| && head == heads[i] && Split(rest, rows, all) && 8 <= nb.Length == |rows| == |u|
    modifies nb, all
    ensures Chains(heads[i := null], rest[i := []], t[i := []])
    ensures |rows'| == |rows|
    ensures Chains(nb[..], rows', Spread(t[i], u)) && Split(rest[i := []], rows', all)
  {
    hide IsCapacity, Chain, Chains, Split, Pushed, Taken, Spread, And, Entries;
    var e := head;
    ghost var left, slots, u' := rest, t, u;
    rows' := rows;
    assert heads[i := e] == heads && rest[i := left[i]] == rest && t[i := slots[i]] == t;
    while e != null
      invariant |u'| == |rows'| == nb.Length && |left| == |rest| && |slots| == |t|
      invariant left == rest[i := left[i]] && slots == t[i := slots[i]]
      invariant Chains(heads[i := e], left, slots) && Chains(nb[..], rows', u') && Split(left, rows', all)
      invariant Spread(slots[i], u') == Spread(t[i], u)
      decreases |left[i]|
    {
      var f: Entry := e;
      ghost var now := heads[i := e];
      FirstOf(now, left, slots, i);
      SplitParts(left, rows', all);
      IndexIsRemainder(f.hash, nb.Length);
      var idx := And(f.hash, nb.Length - 1);
      SplitMoves(left, rows', all, i, idx);
      var next := f.next;
      MoveEntry(nb, f, idx, now, left, slots, i, rows', u');
      SpreadNext(slots[i], u', idx);
      TakenFirst(left, i);
      TakenFirst(slots, i);
      rows', u' := Pushed(rows', idx, f), Pushed(u', idx, slots[i][0]);
      left, slots := Taken(left, i, 0), Taken(slots, i, 0);
      assert now[i := next] == heads[i := next];
      e := next;
    }
    LastOf(heads[i := e], left, slots, i);
    SpreadNone(u');
  }

  lemma SpreadNone(u: Table)
    requires |u| >= 1
    ensures Spread([], u) == u
  {
  }

  lemma TakenFirst<T>(rows: seq<seq<T>>, i: nat)
    requires i < |rows| && rows[i] != []
    ensures Taken(rows, i, 0) == rows[i := rows[i][1..]]
  {
    assert rows[i][..0] + rows[i][1..] == rows[i][1..];
  }

  lemma SpreadNext(r: Row, u: Table, idx: nat)
    requires r != [] && |u| >= 1 && idx == r[0].hash % |u|
    ensures Spread(r, u) == Spread(r[1..], Pushed(u, idx, r[0]))
  {
  }

  lemma SplitParts(rest: seq<seq<Entry>>, rows: seq<seq<Entry>>, all: set<Entry>)
    requires Split(rest, rows, all)
    ensures Apart(rest) && Apart(rows) && Entries(rest) !! Entries(rows) && Entries(rest) <= all
  {
  }

  lemma FirstOf(heads: seq<Entry?>, rows: seq<seq<Entry>>, t: Table, i: nat)
    requires Chains(heads, rows, t) && i < |rows| && heads[i] != null
    ensures rows[i] != [] && heads[i] == rows[i][0] && t[i] != [] && t[i][0].hash == heads[i].hash
  {
    assert Chain(heads[i], rows[i], t[i]);
    ChainRest(heads[i], rows[i], t[i]);
  }

  lemma LastOf(heads: seq<Entry?>, rows: seq<seq<Entry>>, t: Table, i: nat)
    requires Chains(heads, rows, t) && i < |rows| && heads[i] == null
    ensures rows[i] == [] && t[i] == []
  {
    assert Chain(heads[i], rows[i], t[i]);
  }

  /** Chains with nothing on them. */
  function Nothing<T>(n: nat): (rows: seq<seq<T>>)
    ensures |rows| == n && forall i :: 0 <= i < n ==> rows[i] == []
  {
    seq(n, _ => [])
  }

  lemma NothingLinked(heads: seq<Entry?>, n: nat)
    requires |heads| == n && forall i :: 0 <= i < n ==> heads[i] == null
    ensures Chains(heads, Nothing(n), Empty(n)) && Apart(Nothing(n)) && Entries(Nothing(n)) == {}
  {
    var rows: seq<seq<Entry>> := Nothing(n);
    forall i | 0 <= i < n ensures Chain(heads[i], rows[i], Empty(n)[i]) {
    }
  }

  lemma NothingStored(hash: HashFn, n: nat)
    requires n >= 1
    ensures Good(Empty(n), hash) && Slots(Empty(n)) == {} && Contents(Empty(n), hash) == map[]
  {
    forall i | 0 <= i < n ensures RowOk(Empty(n)[i], hash, n, i) {
    }
    assert Slots(Empty(n)) == {};
    KeyedOnce(Empty(n), hash);
  }

  /** Rehash every chain of heads into nb. */
  method MoveAll(heads: array<Entry?>, nb: array<Entry?>, ghost rows: seq<seq<Entry>>, ghost t: Table)
    returns (ghost rows': seq<seq<Entry>>)
    requires Chains(heads[..], rows, t) && Apart(rows) && nb != heads && IsCapacity(nb.Length)
    requires forall k :: 0 <= k < nb.Length ==> nb[k] == null
    modifies nb, Entries(rows)
    ensures Chains(nb[..], rows', Rehashed(t, |t|, nb.Length)) && Apart(rows') && Entries(rows') == Entries(rows)
  {
    hide Chain, Chains, Apart, Entries, Spread, Rehashed, Pushed, Taken;
    ChainsLengths(heads[..], rows, t);
    CapacityIsPositive(nb.Length);
    ghost var all := Entries(rows);
    ghost var was, left, slots := heads[..], rows, t;
    rows' := Nothing(nb.Length);
    NothingLinked(nb[..], nb.Length);
    ghost var u := Empty(nb.Length);
    RehashedNone(t, nb.Length);
    var i := 0;
    while i < heads.Length
      invariant i <= heads.Length == |was| == |left| == |slots| == |t| && |rows'| == |u| == nb.Length
      invariant heads[..] == old(heads[..])
      invariant forall k :: i <= k < heads.Length ==> was[k] == heads[k] && slots[k] == t[k]
      invariant forall k :: 0 <= k < i ==> left[k] == []
      invariant Chains(was, left, slots) && Chains(nb[..], rows', u) && Split(left, rows', all)
      invariant u == Rehashed(t, i, nb.Length)
    {
      rows' := MoveChain(nb, heads[i], was, left, slots, i, rows', u, all);
      RehashedNext(t, i, nb.Length);
      u := Spread(slots[i], u);
      was, left, slots := was[i := null], left[i := []], slots[i := []];
      i := i + 1;
    }
    NoneLeft(left, rows', all);
  }

  lemma ChainsLengths(heads: seq<Entry?>, rows: seq<seq<Entry>>, t: Table)
    requires Chains(heads, rows, t)
    ensures |heads| == |rows| == |t|
  {
  }

  lemma CapacityIsPositive(n: nat)
    requires IsCapacity(n)
    ensures n >= 8
  {
  }

  lemma RehashedNone(t: Table, m: nat)
    requires m >= 1
    ensures Rehashed(t, 0, m) == Empty(m)
  {
  }

  lemma RehashedNext(t: Table, n: nat, m: nat)
    requires n < |t| && m >= 1
    ensures Rehashed(t, n + 1, m) == Spread(t[n], Rehashed(t, n, m))
  {
  }

  lemma NoneLeft(rest: seq<seq<Entry>>, rows: seq<seq<Entry>>, all: set<Entry>)
    requires Split(rest, rows, all) && forall k :: 0 <= k < |rest| ==> rest[k] == []
    ensures Apart(rows) && Entries(rows) == all
  {
    assert Entries(rest) == {};
  }

  /** Take entry j of chain idx out, given its predecessor. */
  method Unlink(heads: array<Entry?>, prev: Entry?, e: Entry, idx: nat, ghost j: nat, ghost rows: seq<seq<Entry>>,
                ghost t: Table)
    requires Chains(heads[..], rows, t) && Apart(rows) && idx < |rows| && j < |rows[idx]|
    requires e == rows[idx][j] && prev == if j == 0 then null else rows[idx][j - 1]
    modifies heads, Entries(rows)
    ensures Chains(heads[..], Taken(rows, idx, j), Taken(t, idx, j))
  {
    hide Entries;
    ghost var row, r := rows[idx], t[idx];
    ghost var less, shorter := Taken(rows, idx, j), Taken(t, idx, j);
    RowInside(rows, idx);
    assert Chain(heads[..][idx], row, r) && Singly(row) && Follows(row, j);
    label Before:
    if prev != null {
      prev.next := e.next;
    } else {
      heads[idx] := e.next;
    }
    forall k | 0 <= k < |less[idx]| ensures Follows(less[idx], k) {
      assert old@Before(Follows(row, if k < j then k else k + 1));
    }
    forall k | 0 <= k < |less[idx]| ensures Holds(less[idx][k], shorter[idx][k]) {
      assert old@Before(Holds(row[if k < j then k else k + 1], r[if k < j then k else k + 1]));
    }
    assert Chain(heads[..][idx], less[idx], shorter[idx]);
    forall i | 0 <= i < |rows| ensures Chain(heads[..][i], less[i], shorter[i]) {
      assert prev != null && i != idx ==> prev !in rows[i];
      assert old@Before(Chain(heads[..][i], rows[i], t[i]));
    }
  }

  class HashMap {
    var buckets: array<Entry?>
    var capacity: nat
    var size: nat
    var threshold: nat
    const hash: HashFn
    /** The entries on each chain, and what they hold. */
    ghost var rows: seq<seq<Entry>>
    ghost var table: Table
    ghost var repr: set<object>

    ghost predicate Shape()
      reads this
    {
      IsCapacity(capacity) && |rows| == |table| == buckets.Length == capacity && Good(table, hash) &&
      threshold == capacity * 3 / 4 && size == |Slots(table)| <= threshold
    }

    ghost predicate Owned()
      reads this
    {
      buckets in repr && this !in repr && Apart(rows) && Entries(rows) <= repr
    }

    ghost predicate Valid()
      reads this, repr
    {
      Shape() && Owned() && Chains(buckets[..], rows, table)
    }

    ghost function Map(): map<Key, Ptr>
      requires Valid()
      reads this, repr
    {
      Contents(table, hash)
    }

    /** The recorded size is the number of keys. */
    lemma SizeIsCount()
      requires Valid()
      ensures size == |Map()| && 4 * size <= 3 * capacity
    {
      ContentsSize(table, hash);
    }

    constructor (initialCapacity: nat, hash: HashFn)
      requires initialCapacity < WORD64 && IsCapacity(NextPow2(if initialCapacity != 0 then initialCapacity else 8))
      ensures Valid() && Map() == map[] && size == 0 && this.hash == hash && fresh(repr)
    {
      hide NextPow2, IsCapacity, Good, Slots, Contents, Apart, Chains, Entries, Nothing, Empty;
      var cap := NextPow2(if initialCapacity != 0 then initialCapacity else 8);
      CapacityIsPositive(cap);
      this.hash := hash;
      capacity := cap;
      size := 0;
      threshold := cap * 3 / 4;
      var nb := new Entry?[cap](_ => null);
      buckets := nb;
      rows := Nothing(cap);
      table := Empty(cap);
      repr := {nb};
      new;
      NothingLinked(buckets[..], cap);
      NothingStored(hash, cap);
    }

    /** Walk the chain of a key's bucket to its entry, keeping the predecessor. */
    method FindEntry(idx: nat, h: nat, key: Key) returns (e: Entry?, prev: Entry?, ghost j: nat)
      requires Valid() && h == hash(key) && idx == h % capacity
      ensures e != null <==> key in Map()
      ensures e != null ==> j < |rows[idx]| && rows[idx][j] == e && e.key == key && Map()[key] == e.value
      ensures e != null ==> e in repr && prev == if j == 0 then null else rows[idx][j - 1]
    {
      hide Contents, IsCapacity, Apart, Chain;
      FoundInRow(table, hash, key);
      assert Chain(buckets[..][idx], rows[idx], table[idx]);
      ghost var row, r := rows[idx], table[idx];
      e, prev, j := buckets[idx], null, 0;
      ChainHead(e, row, r);
      while e != null
        invariant j <= |row| == |r| && Chain(e, row[j..], r[j..])
        invariant prev == if j == 0 then null else row[j - 1]
        invariant forall k :: 0 <= k < j ==> r[k].key != key
        decreases |row| - j
      {
        ChainHead(e, row[j..], r[j..]);
        ChainRest(e, row[j..], r[j..]);
        var eq := BytewiseEq(e.key, key);
        if e.hash == h && eq {
          SlotGives(table, hash, idx, r[j]);
          RowInside(rows, idx);
          return;
        }
        assert RowOk(r, hash, capacity, idx) && r[j] in r;
        assert row[j..][1..] == row[j + 1..] && r[j..][1..] == r[j + 1..];
        prev := e;
        e := e.next;
        j := j + 1;
      }
      ChainHead(e, row[j..], r[j..]);
    }

    method HasKey(key: Key) returns (found: bool, value: Ptr)
      requires Valid()
      ensures found <==> key in Map()
      ensures found ==> value == Map()[key]
    {
      hide Good, Contents, Apart, IsCapacity, Slots, Entries, Chains;
      var h := hash(key);
      IndexIsRemainder(h, capacity);
      CapacityIsPositive(capacity);
      var e, _, _ := FindEntry(And(h, capacity - 1), h, key);
      if e == null {
        return false, 0;
      }
      return true, e.value;
    }

    /** Store a value in entry j of chain idx. */
    method SetValue(e: Entry, value: Ptr, ghost idx: nat, ghost j: nat)
      requires Valid() && idx < |rows| && j < |rows[idx]| && e == rows[idx][j]
      modifies e, `table
      ensures Valid() && Map() == old(Map())[e.key := value]
    {
      hide Good, Contents, Apart, IsCapacity;
      Revalued(table, hash, idx, j, table[idx][j].(value := value));
      assert Chain(buckets[..][idx], rows[idx], table[idx]) && Holds(e, table[idx][j]);
      RowInside(rows, idx);
      WriteValue(e, value, buckets[..], rows, table, idx, j);
      table := Set(table, idx, j, value);
    }

    /** Record new buckets, chains and contents. */
    method Adopt(nb: array<Entry?>, count: nat, ghost rows': seq<seq<Entry>>, ghost u: Table, ghost all: set<object>)
      requires IsCapacity(nb.Length) && Good(u, hash) && |rows'| == |u| == nb.Length && Apart(rows')
      requires count == |Slots(u)| <= nb.Length * 3 / 4
      requires Chains(nb[..], rows', u) && Entries(rows') <= all && this !in all
      modifies this
      ensures Valid() && Map() == Contents(u, hash) && repr == all + {nb} && capacity == nb.Length
      ensures size == count
    {
      hide Good, Contents, Apart, IsCapacity, Slots, Entries, Chains;
      rows := rows';
      table := u;
      buckets := nb;
      capacity := nb.Length;
      threshold := capacity * 3 / 4;
      size := count;
      repr := all + {nb};
    }

    /** Rehash into a table of at least newCapacity buckets, if one is granted. */
    method Resize(newCapacity: nat, granted: bool) returns (ok: bool)
      requires Valid() && newCapacity < WORD64 && (granted ==> IsCapacity(NextPow2(newCapacity)))
      requires granted ==> size <= NextPow2(newCapacity) * 3 / 4
      modifies this, repr
      ensures Valid() && Map() == old(Map()) && size == old(size) && fresh(repr - old(repr))
      ensures ok == granted && capacity == if ok then NextPow2(newCapacity) else old(capacity)
    {
      if !granted {
        return false;
      }
      hide Good, Contents, Apart, IsCapacity, Chains, Slots, Entries, NextPow2;
      var ncap := NextPow2(newCapacity);
      CapacityIsPositive(ncap);
      var nb := new Entry?[ncap](_ => null);
      RehashKeepsMap(table, hash, ncap);
      ghost var u := Rehashed(table, |table|, ncap);
      ghost var rows' := MoveAll(buckets, nb, rows, table);
      ChainsLengths(nb[..], rows', u);
      Adopt(nb, size, rows', u, repr);
      return true;
    }

    /** Double the buckets, if the larger table is granted. */
    method Grow(granted: bool) returns (ok: bool)
      requires Valid() && (granted ==> IsCapacity(2 * capacity))
      modifies this, repr
      ensures Valid() && Map() == old(Map()) && size == old(size) && fresh(repr - old(repr))
      ensures ok == granted && (ok ==> size < threshold) && capacity == if ok then 2 * old(capacity) else old(capacity)
    {
      hide Good, Contents, Apart, Slots, Entries, Chains, NextPow2;
      DoubledCapacity(capacity);
      ok := Resize(Shl(capacity, 1) % WORD64, granted);
    }

    /** Link a new entry for a key its chain lacks. */
    method Insert(idx: nat, h: nat, key: Key, value: Ptr)
      requires Valid() && h == hash(key) && idx == h % capacity && key !in Map() && size < threshold
      modifies this, buckets
      ensures Valid() && Map() == old(Map())[key := value] && size == old(size) + 1
      ensures capacity == old(capacity) && fresh(repr - old(repr))
    {
      hide Good, Contents, Apart, IsCapacity, Slots, Entries, Chains, Pushed;
      ghost var s := Slot(h, key, value);
      PushedAdds(table, hash, idx, s);
      var e := new Entry(h, key, value, buckets[idx]);
      PushedApart(rows, idx, e);
      LinkFront(buckets, idx, e, rows, table, s);
      Adopt(buckets, size + 1, Pushed(rows, idx, e), Pushed(table, idx, s), repr + {e});
    }

    /** The threshold is three quarters of the buckets. */
    lemma Fullness()
      requires Valid()
      ensures size >= threshold <==> 4 * size >= 3 * capacity
    {
      hide Good, Contents, Apart, Slots, Entries, Chains;
      var k: nat :| capacity == Pow2(k);
      assert k >= 2 && Pow2(k) == 2 * Pow2(k - 1) && Pow2(k - 1) == 2 * Pow2(k - 2);
    }

    /** Doubles the buckets when three of four are full. */
    method MakeRoom(tableOk: bool) returns (ok: bool)
      requires Valid() && (tableOk ==> IsCapacity(2 * capacity))
      modifies this, repr
      ensures Valid() && Map() == old(Map()) && size == old(size) && fresh(repr - old(repr))
      ensures ok == (tableOk || old(size < threshold)) && (ok ==> size < threshold)
      ensures capacity == if tableOk && 4 * old(size) >= 3 * old(capacity) then 2 * old(capacity) else old(capacity)
    {
      hide Good, Contents, Apart, IsCapacity, Slots, Entries, Chains, Chain;
      Fullness();
      ok := true;
      if size >= threshold {
        ok := Grow(tableOk);
      }
    }

    /**
     * 0 when the key was there, 1 when it is new, -1 when an allocation failed: of the larger table,
     * of the entry, or of the copy of a nonempty key.
     */
    method Put(key: Key, value: Ptr, tableOk: bool, entryOk: bool, keyOk: bool) returns (r: int)
      requires Valid() && (tableOk ==> IsCapacity(2 * capacity))
      modifies this, repr
      ensures Valid() && fresh(repr - old(repr))
      ensures r == (if old(size >= threshold) && !tableOk then 0 - 1
                    else if key in old(Map()) then 0
                    else if entryOk && (key == [] || keyOk) then 1 else 0 - 1)
      ensures Map() == if r == 0 - 1 then old(Map()) else old(Map())[key := value]
      ensures size == old(size) + if r == 1 then 1 else 0
      // The buckets double as soon as three of four are full.
      ensures capacity == if tableOk && 4 * old(size) >= 3 * old(capacity) then 2 * old(capacity) else old(capacity)
    {
      hide Good, Contents, Apart, IsCapacity, Slots, Entries, Chains, Chain;
      var ok := MakeRoom(tableOk);
      if !ok {
        return 0 - 1;
      }
      var h := hash(key);
      IndexIsRemainder(h, capacity);
      CapacityIsPositive(capacity);
      var idx := And(h, capacity - 1);
      var e, _, j := FindEntry(idx, h, key);
      if e != null {
        SetValue(e, value, idx, j);
        return 0;
      }
      if !entryOk || (key != [] && !keyOk) {
        return 0 - 1;
      }
      Insert(idx, h, key, value);
      return 1;
    }

    /** Unlink entry j of chain idx. */
    method Detach(e: Entry, prev: Entry?, idx: nat, ghost j: nat)
      requires Valid() && idx < |rows| && j < |rows[idx]| && e == rows[idx][j]
      requires prev == if j == 0 then null else rows[idx][j - 1]
      modifies this, repr
      ensures Valid() && Map() == old(Map()) - {e.key} && size == old(size) - 1 && repr == old(repr)
    {
      hide Good, Contents, Apart, IsCapacity, Slots, Entries;
      assert Chain(buckets[..][idx], rows[idx], table[idx]) && Holds(e, table[idx][j]);
      Dropped(table, hash, idx, j);
      TakenApart(rows, idx, j);
      hide Chains, Chain, Holds;
      Unlink(buckets, prev, e, idx, j, rows, table);
      Adopt(buckets, size - 1, Taken(rows, idx, j), Taken(table, idx, j), repr);
    }

    method Remove(key: Key) returns (found: bool, value: Ptr)
      requires Valid()
      modifies this, repr
      ensures Valid() && repr == old(repr)
      ensures found == (key in old(Map())) && Map() == old(Map()) - {key}
      ensures found ==> value == old(Map())[key] && size == old(size) - 1
    {
      hide Good, Contents, Apart, IsCapacity, Slots, Entries, Chains;
      var h := hash(key);
      IndexIsRemainder(h, capacity);
      CapacityIsPositive(capacity);
      var idx := And(h, capacity - 1);
      var e, prev, j := FindEntry(idx, h, key);
      if e == null {
        return false, 0;
      }
      value := e.value;
      Detach(e, prev, idx, j);
      found := true;
    }
  }
}
