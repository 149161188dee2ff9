/** A chained table as a value: one row of slots for each bucket. */
module HashTables {
  import opened Basics

  type Key = seq<Byte>
  /** A stored pointer. */
  type Ptr = nat
  type HashFn = Key -> nat

  datatype Slot = Slot(hash: nat, key: Key, value: Ptr)
  type Row = seq<Slot>
  type Table = seq<Row>

  /** Every slot carries the hash of its key. */
  ghost predicate Hashed(r: Row, hash: HashFn) {
    forall s :: s in r ==> s.hash == hash(s.key)
  }

  ghost predicate NoTwice(r: Row) {
    forall j, k :: 0 <= j < k < |r| ==> r[j].key != r[k].key
  }

  ghost predicate InRow(r: Row, n: nat, i: nat)
    requires n >= 1
  {
    forall s :: s in r ==> s.hash % n == i
  }

  ghost predicate RowOk(r: Row, hash: HashFn, n: nat, i: nat)
    requires n >= 1
  {
    Hashed(r, hash) && NoTwice(r) && InRow(r, n, i)
  }

  /** Each slot is in the row its hash selects, and no key is stored twice. */
  ghost predicate Good(t: Table, hash: HashFn) {
    |t| >= 1 && forall i :: 0 <= i < |t| ==> RowOk(t[i], hash, |t|, i)
  }

  ghost function Slots(t: Table): set<Slot> {
    set i, j | 0 <= i < |t| && 0 <= j < |t[i]| :: t[i][j]
  }

  ghost function Elems(r: Row): set<Slot> {
    set s | s in r
  }

  lemma SlotsAre(t: Table, s: Slot)
    ensures s in Slots(t) <==> exists i :: 0 <= i < |t| && s in t[i]
  {
    if i :| 0 <= i < |t| && s in t[i] {
      var j :| 0 <= j < |t[i]| && t[i][j] == s;
    }
  }

  /** A stored key is in the row of its hash. */
  lemma StoredInItsRow(t: Table, hash: HashFn, s: Slot)
    requires Good(t, hash)
    ensures s in Slots(t) <==> s in t[hash(s.key) % |t|]
    ensures s in Slots(t) ==> s.hash == hash(s.key)
  {
    SlotsAre(t, s);
    if s in Slots(t) {
      var i :| 0 <= i < |t| && s in t[i];
      assert RowOk(t[i], hash, |t|, i);
    }
  }

  ghost predicate Keyed(ss: set<Slot>) {
    forall s, u :: s in ss && u in ss && s.key == u.key ==> s == u
  }

  /** The finite map some slots stand for. */
  ghost function MapOf(ss: set<Slot>): map<Key, Ptr>
    requires Keyed(ss)
  {
    map s | s in ss :: s.key := s.value
  }

  lemma MapAdd(ss: set<Slot>, s: Slot)
    requires Keyed(ss) && forall u :: u in ss ==> u.key != s.key
    ensures Keyed(ss + {s}) && MapOf(ss + {s}) == MapOf(ss)[s.key := s.value]
    ensures s !in ss && s.key !in MapOf(ss)
  {
    var m, n := MapOf(ss + {s}), MapOf(ss)[s.key := s.value];
    assert s in ss + {s};
    forall k ensures k in m <==> k in n {
      if k in n && k != s.key {
        var u :| u in ss && u.key == k;
        assert u in ss + {s};
      }
    }
  }

  lemma MapDrop(ss: set<Slot>, s: Slot)
    requires Keyed(ss) && s in ss
    ensures Keyed(ss - {s}) && MapOf(ss - {s}) == MapOf(ss) - {s.key}
  {
    var m, n := MapOf(ss - {s}), MapOf(ss) - {s.key};
    forall k ensures k in m <==> k in n {
      if k in n {
        var u :| u in ss && u.key == k;
        assert u in ss - {s};
      }
    }
  }

  lemma KeyedOnce(t: Table, hash: HashFn)
    requires Good(t, hash)
    ensures Keyed(Slots(t))
  {
    forall s, u | s in Slots(t) && u in Slots(t) && s.key == u.key ensures s == u {
      StoredInItsRow(t, hash, s);
      StoredInItsRow(t, hash, u);
      var i := hash(s.key) % |t|;
      assert RowOk(t[i], hash, |t|, i);
      var j :| 0 <= j < |t[i]| && t[i][j] == s;
      var k :| 0 <= k < |t[i]| && t[i][k] == u;
    }
  }

  /** The finite map a table stands for. */
  ghost function Contents(t: Table, hash: HashFn): map<Key, Ptr>
    requires Good(t, hash)
  {
    KeyedOnce(t, hash);
    MapOf(Slots(t))
  }

  /** A key is in the map exactly when its row has a slot for it. */
  lemma FoundInRow(t: Table, hash: HashFn, k: Key)
    requires Good(t, hash)
    ensures k in Contents(t, hash) <==> exists s :: s in t[hash(k) % |t|] && s.key == k
  {
    KeyedOnce(t, hash);
    forall s: Slot | s.key == k ensures s in Slots(t) <==> s in t[hash(k) % |t|] {
      StoredInItsRow(t, hash, s);
    }
  }

  lemma SlotGives(t: Table, hash: HashFn, i: nat, s: Slot)
    requires Good(t, hash) && i < |t| && s in t[i]
    ensures s in Slots(t) && s.key in Contents(t, hash) && Contents(t, hash)[s.key] == s.value
  {
    SlotsAre(t, s);
    KeyedOnce(t, hash);
  }

  /** There are as many keys as slots. */
  lemma ContentsSize(t: Table, hash: HashFn)
    requires Good(t, hash)
    ensures |Contents(t, hash)| == |Slots(t)|
  {
    KeyedOnce(t, hash);
    var keys := set s | s in Slots(t) :: s.key;
    assert Contents(t, hash).Keys == keys;
    KeyCount(Slots(t));
  }

  lemma {:induction false} KeyCount(ss: set<Slot>)
    requires Keyed(ss)
    ensures |set s | s in ss :: s.key| == |ss|
  {
    if ss != {} {
      var s :| s in ss;
      var rest := ss - {s};
      KeyCount(rest);
      assert (set u | u in ss :: u.key) == (set u | u in rest :: u.key) + {s.key};
    }
  }

  lemma OnlyInItsRow(t: Table, hash: HashFn, s: Slot, i: nat, k: nat)
    requires Good(t, hash) && i < |t| && k < |t| && s in t[i] && s in t[k]
    ensures i == k
  {
    assert RowOk(t[i], hash, |t|, i) && RowOk(t[k], hash, |t|, k);
  }

  /** Replacing row i. */
  lemma RowReplaced(t: Table, i: nat, r: Row, hash: HashFn)
    requires Good(t, hash) && i < |t| && RowOk(r, hash, |t|, i)
    ensures Good(t[i := r], hash)
    ensures Slots(t[i := r]) == Slots(t) - Elems(t[i]) + Elems(r)
    ensures Elems(t[i]) <= Slots(t)
  {
    hide RowOk;
    var u := t[i := r];
    forall s ensures s in Slots(u) <==> s in Slots(t) - Elems(t[i]) + Elems(r) {
      SlotsAre(u, s);
      SlotsAre(t, s);
      if s in r {
        assert s in u[i];
      } else if s in Slots(t) {
        var k :| 0 <= k < |t| && s in t[k];
        if s in t[i] {
          forall l | 0 <= l < |u| ensures s !in u[l] {
            if l != i && s in t[l] {
              OnlyInItsRow(t, hash, s, i, l);
            }
          }
        } else {
          assert s in u[k];
        }
      }
    }
  }

  lemma FrontOk(r: Row, hash: HashFn, n: nat, i: nat, s: Slot)
    requires n >= 1 && RowOk(r, hash, n, i) && s.hash == hash(s.key) && s.hash % n == i
    requires forall u :: u in r ==> u.key != s.key
    ensures RowOk([s] + r, hash, n, i) && Elems([s] + r) == Elems(r) + {s}
  {
    assert forall j :: 0 <= j < |r| ==> r[j] in r;
  }

  /** A key that is not in its row is added at the front of it. */
  lemma Added(t: Table, hash: HashFn, i: nat, s: Slot)
    requires Good(t, hash) && s.hash == hash(s.key) && i == s.hash % |t|
    requires forall u :: u in t[i] ==> u.key != s.key
    ensures Good(t[i := [s] + t[i]], hash)
    ensures Slots(t[i := [s] + t[i]]) == Slots(t) + {s} && s !in Slots(t)
    ensures s.key !in Contents(t, hash)
    ensures Contents(t[i := [s] + t[i]], hash) == Contents(t, hash)[s.key := s.value]
  {
    var r := [s] + t[i];
    assert RowOk(t[i], hash, |t|, i);
    FrontOk(t[i], hash, |t|, i, s);
    RowReplaced(t, i, r, hash);
    KeyedOnce(t, hash);
    forall u | u in Slots(t) ensures u.key != s.key {
      StoredInItsRow(t, hash, u);
    }
    hide RowOk, Slots, Elems;
    assert Slots(t[i := r]) == Slots(t) + {s};
    MapAdd(Slots(t), s);
  }

  lemma RevaluedRow(r: Row, hash: HashFn, n: nat, i: nat, j: nat, s: Slot)
    requires n >= 1 && RowOk(r, hash, n, i) && j < |r| && s.hash == r[j].hash && s.key == r[j].key
    ensures RowOk(r[j := s], hash, n, i) && Elems(r[j := s]) == Elems(r) - {r[j]} + {s}
  {
    var u := r[j := s];
    assert r[j] in r;
    forall x ensures x in u <==> x == s || (x in r && x != r[j]) {
      assert u[j] == s;
      if x in r && x != r[j] {
        var k :| 0 <= k < |r| && r[k] == x;
        assert u[k] == x;
      }
    }
  }

  lemma MapSwap(ss: set<Slot>, was: Slot, s: Slot)
    requires Keyed(ss) && was in ss && s.key == was.key
    ensures Keyed(ss - {was} + {s}) && MapOf(ss - {was} + {s}) == MapOf(ss)[s.key := s.value]
    ensures |ss - {was} + {s}| == |ss|
  {
    MapDrop(ss, was);
    MapAdd(ss - {was}, s);
    assert MapOf(ss)[s.key := s.value] == (MapOf(ss) - {s.key})[s.key := s.value];
  }

  /** The value of slot j of row i is replaced. */
  lemma Revalued(t: Table, hash: HashFn, i: nat, j: nat, s: Slot)
    requires Good(t, hash) && i < |t| && j < |t[i]| && s.hash == t[i][j].hash && s.key == t[i][j].key
    ensures Good(t[i := t[i][j := s]], hash)
    ensures |Slots(t[i := t[i][j := s]])| == |Slots(t)|
    ensures Contents(t[i := t[i][j := s]], hash) == Contents(t, hash)[s.key := s.value]
  {
    var was := t[i][j];
    var r := t[i][j := s];
    assert RowOk(t[i], hash, |t|, i);
    RevaluedRow(t[i], hash, |t|, i, j, s);
    RowReplaced(t, i, r, hash);
    KeyedOnce(t, hash);
    assert was in Elems(t[i]);
    hide RowOk, Slots, Elems, Keyed, MapOf;
    SwapInside(Slots(t), Elems(t[i]), was, s);
    MapSwap(Slots(t), was, s);
  }

  lemma SwapInside(all: set<Slot>, part: set<Slot>, was: Slot, s: Slot)
    requires was in part && part <= all
    ensures all - part + (part - {was} + {s}) == all - {was} + {s}
  {
  }

  lemma DroppedRow(r: Row, hash: HashFn, n: nat, i: nat, j: nat)
    requires n >= 1 && RowOk(r, hash, n, i) && j < |r|
    ensures RowOk(r[..j] + r[j + 1..], hash, n, i) && Elems(r[..j] + r[j + 1..]) == Elems(r) - {r[j]}
  {
    var u := r[..j] + r[j + 1..];
    forall x ensures x in u <==> x in r && x != r[j] {
      if x in r && x != r[j] {
        var k :| 0 <= k < |r| && r[k] == x;
        assert x == if k < j then u[k] else u[k - 1];
      }
    }
  }

  /** Slot j of row i is taken out. */
  lemma Dropped(t: Table, hash: HashFn, i: nat, j: nat)
    requires Good(t, hash) && i < |t| && j < |t[i]|
    ensures Good(t[i := t[i][..j] + t[i][j + 1..]], hash)
    ensures |Slots(t[i := t[i][..j] + t[i][j + 1..]])| == |Slots(t)| - 1
    ensures Contents(t[i := t[i][..j] + t[i][j + 1..]], hash) == Contents(t, hash) - {t[i][j].key}
  {
    var s := t[i][j];
    var r := t[i][..j] + t[i][j + 1..];
    assert RowOk(t[i], hash, |t|, i);
    DroppedRow(t[i], hash, |t|, i, j);
    RowReplaced(t, i, r, hash);
    KeyedOnce(t, hash);
    assert s in Elems(t[i]);
    hide RowOk, Slots, Elems;
    assert Slots(t[i := r]) == Slots(t) - {s};
    MapDrop(Slots(t), s);
  }

  // ----- rehashing into more rows

  function Empty(n: nat): (t: Table)
    ensures |t| == n && forall i :: 0 <= i < n ==> t[i] == []
  {
    seq(n, _ => [])
  }

  /** Move the slots of a row one by one to the front of the row they select. */
  function Spread(r: Row, t: Table): (u: Table)
    requires |t| >= 1
    ensures |u| == |t|
    decreases |r|
  {
    if r == [] then t
    else
      var i := r[0].hash % |t|;
      Spread(r[1..], t[i := [r[0]] + t[i]])
  }

  /** The first n rows of t spread over m rows. */
  function Rehashed(t: Table, n: nat, m: nat): (u: Table)
    requires n <= |t| && m >= 1
    ensures |u| == m
  {
    if n == 0 then Empty(m) else Spread(t[n - 1], Rehashed(t, n - 1, m))
  }

  lemma TailKeeps(r: Row, hash: HashFn)
    requires Hashed(r, hash) && NoTwice(r) && r != []
    ensures Hashed(r[1..], hash) && NoTwice(r[1..]) && r[0].hash == hash(r[0].key)
    ensures Elems(r) == Elems(r[1..]) + {r[0]}
    ensures forall u :: u in r[1..] ==> u in r && u.key != r[0].key
  {
    assert r == [r[0]] + r[1..];
    forall u | u in r[1..] ensures u.key != r[0].key {
      var k :| 0 <= k < |r| - 1 && r[1..][k] == u;
      assert u == r[k + 1];
    }
  }

  /** Nothing in r has a key of t. */
  ghost predicate Foreign(r: Row, t: Table) {
    forall s, u :: s in r && u in Slots(t) ==> s.key != u.key
  }

  lemma {:induction false} SpreadKeeps(r: Row, t: Table, hash: HashFn)
    requires Good(t, hash) && Hashed(r, hash) && NoTwice(r) && Foreign(r, t)
    ensures Good(Spread(r, t), hash) && Slots(Spread(r, t)) == Slots(t) + Elems(r)
    decreases |r|
  {
    hide Slots, NoTwice, Contents, RowOk;
    if r != [] {
      var s := r[0];
      var i := s.hash % |t|;
      assert s in r;
      forall u | u in t[i] ensures u.key != s.key {
        SlotsAre(t, u);
      }
      TailKeeps(r, hash);
      Added(t, hash, i, s);
      SpreadKeeps(r[1..], t[i := [s] + t[i]], hash);
    }
  }

  lemma {:induction false} RehashKeeps(t: Table, hash: HashFn, n: nat, m: nat)
    requires Good(t, hash) && n <= |t| && m >= 1
    ensures Good(Rehashed(t, n, m), hash) && Slots(Rehashed(t, n, m)) == Slots(t[..n])
  {
    if n == 0 {
      assert Good(Empty(m), hash);
      assert Slots(Empty(m)) == {} == Slots(t[..0]);
    } else {
      RehashKeeps(t, hash, n - 1, m);
      var u := Rehashed(t, n - 1, m);
      var r := t[n - 1];
      assert RowOk(r, hash, |t|, n - 1);
      forall s, x | s in r && x in Slots(u) ensures s.key != x.key {
        SlotsAre(t[..n - 1], x);
        var i :| 0 <= i < n - 1 && x in t[..n - 1][i];
        assert RowOk(t[i], hash, |t|, i);
      }
      assert Foreign(r, u);
      SpreadKeeps(r, u, hash);
      RowAppended(t, n);
    }
  }

  lemma RowAppended(t: Table, n: nat)
    requires 0 < n <= |t|
    ensures Slots(t[..n]) == Slots(t[..n - 1]) + Elems(t[n - 1])
  {
    forall s ensures s in Slots(t[..n]) <==> s in Slots(t[..n - 1]) + Elems(t[n - 1]) {
      SlotsAre(t[..n], s);
      SlotsAre(t[..n - 1], s);
      if s in t[n - 1] {
        assert s in t[..n][n - 1];
      }
      if s in Slots(t[..n - 1]) {
        var i :| 0 <= i < n - 1 && s in t[..n - 1][i];
        assert s in t[..n][i];
      }
      if s in Slots(t[..n]) {
        var i :| 0 <= i < n && s in t[..n][i];
        assert i < n - 1 ==> s in t[..n - 1][i];
      }
    }
  }

  /** Rehashing every row, to any number of rows, loses and adds no entry. */
  lemma RehashKeepsMap(t: Table, hash: HashFn, m: nat)
    requires Good(t, hash) && m >= 1
    ensures Good(Rehashed(t, |t|, m), hash)
    ensures Slots(Rehashed(t, |t|, m)) == Slots(t)
    ensures Contents(Rehashed(t, |t|, m), hash) == Contents(t, hash)
  {
    assert t[..|t|] == t;
    RehashKeeps(t, hash, |t|, m);
    KeyedOnce(t, hash);
    KeyedOnce(Rehashed(t, |t|, m), hash);
  }
}
