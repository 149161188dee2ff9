/** memreverse: reversal from both ends at once, through four alignment regimes. */
module MemoryReverse {
  import opened Basics
  import opened MemoryWords
  import opened Bits

  /** Reversing the bytes of an n-byte word. */
  function Swapped(v: nat, n: nat): nat {
    FromBytes(Reversed(ToBytes(v, n)))
  }

  lemma SwappedWord(s: seq<Byte>)
    ensures Swapped(FromBytes(s), |s|) == FromBytes(Reversed(s))
  {
    StoredAsLoaded(s);
  }

  /**
   * The state between two swaps: the k outermost bytes on each side of p..e have changed places,
   * and what is between is still to be reversed.
   */
  ghost predicate Turned(m: seq<Byte>, now: seq<Byte>, p: nat, e: nat, l: nat, r: nat) {
    p <= l && l <= r && r <= e && e <= |m| && |now| == |m| && l - p == e - r &&
    (forall x :: 0 <= x < |m| && (x < p || l <= x < r || e <= x) ==> now[x] == m[x]) &&
    forall x :: 0 <= x < |m| && (p <= x < l || r <= x < e) ==> now[x] == m[p + e - 1 - x]
  }

  /** Memory with the bytes from p to e reversed. */
  function Flipped(m: seq<Byte>, p: nat, e: nat): (r: seq<Byte>)
    requires p <= e <= |m|
    ensures |r| == |m|
  {
    Put(m, p, Reversed(m[p..e]))
  }

  lemma TurnedNone(m: seq<Byte>, p: nat, e: nat)
    requires p <= e <= |m|
    ensures Turned(m, m, p, e, p, e)
  {
  }

  lemma FlippedAt(m: seq<Byte>, p: nat, e: nat, x: nat)
    requires p <= e <= |m| && x < |m|
    ensures Flipped(m, p, e)[x] == if p <= x < e then m[p + e - 1 - x] else m[x]
  {
    if p <= x < e {
      ReversedAt(m[p..e]);
      assert Reversed(m[p..e])[x - p] == m[p..e][e - 1 - x];
    }
  }

  lemma TurnedAll(m: seq<Byte>, now: seq<Byte>, p: nat, e: nat, l: nat, r: nat)
    requires Turned(m, now, p, e, l, r) && r <= l + 1
    ensures now == Flipped(m, p, e)
  {
    hide Flipped;
    forall x | 0 <= x < |m| ensures now[x] == Flipped(m, p, e)[x] {
      FlippedAt(m, p, e, x);
    }
  }

  lemma ReversedSlice(m: seq<Byte>, b: nat, r: nat)
    requires b <= r <= |m|
    ensures forall i {:trigger Reversed(m[b..r])[i]} :: 0 <= i < r - b ==> Reversed(m[b..r])[i] == m[r - 1 - i]
  {
    ReversedAt(m[b..r]);
  }

  /** Runs of equal length at both ends, reversed and exchanged, put every byte at the place facing its own. */
  lemma Exchanged(now: seq<Byte>, l: nat, a: nat, b: nat, r: nat, s: seq<Byte>, t: seq<Byte>)
    requires l <= a <= b <= r <= |now| && a - l == r - b
    requires s == Reversed(now[b..r]) && t == Reversed(now[l..a])
    ensures var after := Put(Put(now, l, s), b, t);
      forall x :: 0 <= x < |now| ==> after[x] == if l <= x < a || b <= x < r then now[l + r - 1 - x] else now[x]
  {
    hide Put;
    forall x | 0 <= x < |now|
      ensures Put(Put(now, l, s), b, t)[x] == if l <= x < a || b <= x < r then now[l + r - 1 - x] else now[x]
    {
      ExchangedAt(now, l, a, b, r, s, t, x);
    }
  }

  lemma ExchangedAt(now: seq<Byte>, l: nat, a: nat, b: nat, r: nat, s: seq<Byte>, t: seq<Byte>, x: nat)
    requires l <= a <= b <= r <= |now| && a - l == r - b && x < |now|
    requires s == Reversed(now[b..r]) && t == Reversed(now[l..a])
    ensures Put(Put(now, l, s), b, t)[x] == if l <= x < a || b <= x < r then now[l + r - 1 - x] else now[x]
  {
    hide Reversed, Put;
    if l <= x < a {
      ReversedSlice(now, b, r);
      assert Put(now, l, s)[x] == s[x - l];
    } else if b <= x < r {
      ReversedSlice(now, l, a);
      assert Put(Put(now, l, s), b, t)[x] == t[x - b];
    }
  }

  /** The step of every regime. */
  lemma TurnedNext(m: seq<Byte>, now: seq<Byte>, p: nat, e: nat, l: nat, r: nat, a: nat, b: nat,
                   s: seq<Byte>, t: seq<Byte>)
    requires Turned(m, now, p, e, l, r) && l <= a <= b <= r && a - l == r - b
    requires s == Reversed(now[b..r]) && t == Reversed(now[l..a])
    ensures Turned(m, Put(Put(now, l, s), b, t), p, e, a, b)
  {
    Exchanged(now, l, a, b, r, s, t);
    assert l + r == p + e;
    hide Put, Reversed;
  }

  lemma PutJoin(m: seq<Byte>, a: nat, b: nat, s: seq<Byte>, t: seq<Byte>)
    requires b == a + |s| && b + |t| <= |m|
    ensures Put(Put(m, a, s), b, t) == Put(m, a, s + t)
  {
  }

  // ----- words read and written backwards

  /** A 16-byte word is reversed by reversing its halves and exchanging them. */
  function ByteSwap(v: nat, n: nat): nat {
    if n == 16 then Or(Shl(Swapped(v % Pow2(64), 8), 64), Swapped(Shr(v, 64), 8)) else Swapped(v, n)
  }

  lemma ByteSwapReverses(s: seq<Byte>)
    ensures ByteSwap(FromBytes(s), |s|) == FromBytes(Reversed(s))
  {
    hide FromBytes, Shl, Shr, Or, Pow2, Swapped;
    if |s| == 16 {
      LongSwapReverses(s, FromBytes(s));
    } else {
      SwappedWord(s);
    }
  }

  lemma LongSwapReverses(s: seq<Byte>, v: nat)
    requires |s| == 16 && v == FromBytes(s)
    ensures Or(Shl(Swapped(v % Pow2(64), 8), 64), Swapped(Shr(v, 64), 8)) == FromBytes(Reversed(s))
  {
    hide FromBytes, Shl, Shr, Or, Pow2, Swapped, Reversed;
    var x, y := s[..8], s[8..];
    assert s == x + y;
    HalvesOf(s, x, y);
    SwappedWord(x);
    SwappedWord(y);
    ReversedJoin(x, y);
    HalvesSwapped(Reversed(x), Reversed(y));
  }

  lemma HalvesOf(s: seq<Byte>, x: seq<Byte>, y: seq<Byte>)
    requires s == x + y && |x| == 8
    ensures FromBytes(s) % Pow2(64) == FromBytes(x) && Shr(FromBytes(s), 64) == FromBytes(y)
  {
    hide FromBytes, Shr, Pow2;
    WordAppend(x, y);
    WordBound(x);
    ShiftedOut(s, 8, 64);
    assert s[8..] == y;
    Remainder(FromBytes(x), Pow2(64), FromBytes(y));
  }

  lemma HalvesSwapped(x: seq<Byte>, y: seq<Byte>)
    requires |y| == 8
    ensures Or(Shl(FromBytes(x), 64), FromBytes(y)) == FromBytes(y + x)
  {
    hide FromBytes, Shl, Pow2, Or;
    WordAppend(y, x);
    WordBound(y);
    ShlIsProduct(FromBytes(x), 64);
    OrSwap(FromBytes(y), FromBytes(x), 64, Shl(FromBytes(x), 64));
  }

  /** The bytes of a word, by shifting it. */
  lemma {:induction false} ByteOf(v: nat, n: nat, i: nat, j: nat)
    requires i < n && j == 8 * i
    ensures ToBytes(v, n)[i] == Shr(v, j) % 256
  {
    if i > 0 {
      ByteOf(v / 256, n - 1, i - 1, j - 8);
      ShrIsDivision(v, j);
      ShrIsDivision(v / 256, j - 8);
      Pow2Add(8, j - 8);
      assert Pow2(8) == 256;
      DivDiv(v, 256, Pow2(j - 8));
    }
  }

  /** Gathering a byte more, shifted past those gathered. */
  lemma GatherNext(v: nat, s: seq<Byte>, x: Byte, j: nat)
    requires v == FromBytes(s) && j == 8 * |s|
    ensures Or(v, Shl(x, j)) == FromBytes(s + [x])
  {
    hide FromBytes, Shl, Or, Pow2;
    WordBound(s);
    WordAppend(s, [x]);
    ShlIsProduct(x, j);
    assert FromBytes([x]) == x by {
      OneByte(x);
    }
    OrIsSum(v, x, j, x * Pow2(j));
  }

  lemma OneByte(x: Byte)
    ensures FromBytes([x]) == x
  {
    assert [x][1..] == [];
  }

  /** A word gathered byte by byte from its last byte downwards. */
  method GatherDown(mem: array<Byte>, a: nat, e: nat) returns (v: nat)
    requires e == a + 8 <= mem.Length
    ensures v == FromBytes(Reversed(mem[a..e]))
  {
    hide FromBytes, Shl, Or, Reversed;
    ReversedSlice(mem[..], a, e);
    assert mem[..][a..e] == mem[a..e];
    ghost var back := Reversed(mem[a..e]);
    v := mem[e - 1];
    OneByte(v);
    assert back[..1] == [v];
    var i := 1;
    while i < 8
      invariant 1 <= i <= 8 && v == FromBytes(back[..i])
    {
      GatherNext(v, back[..i], mem[e - 1 - i], 8 * i);
      assert back[..i + 1] == back[..i] + [mem[e - 1 - i]];
      v := Or(v, Shl(mem[e - 1 - i], 8 * i));
      i := i + 1;
    }
    assert back[..8] == back;
  }

  /** A word written byte by byte. */
  method Scatter(mem: array<Byte>, a: nat, v: nat)
    requires a + 8 <= mem.Length
    modifies mem
    ensures mem[..] == Put(old(mem[..]), a, ToBytes(v, 8))
  {
    hide ToBytes, Shr;
    ghost var s := ToBytes(v, 8);
    var i := 0;
    while i < 8
      invariant i <= 8
      invariant forall x :: 0 <= x < mem.Length ==> mem[x] == if a <= x < a + i then s[x - a] else old(mem[x])
    {
      ByteOf(v, 8, i, 8 * i);
      mem[a + i] := Shr(v, 8 * i) % 256;
      i := i + 1;
    }
  }

  /** The word at a with its bytes reversed: a swapped load, or a gather when the address is not known to be aligned. */
  method LoadReversed(mem: array<Byte>, a: nat, e: nat, n: nat, word: bool) returns (v: nat)
    requires e == a + n <= mem.Length && (if word then Aligned(a, n) else n == 8)
    ensures v == FromBytes(Reversed(mem[a..e]))
  {
    hide FromBytes, ByteSwap, Reversed;
    if word {
      v := Load(mem, a, n);
      ByteSwapReverses(mem[a..e]);
      v := ByteSwap(v, n);
    } else {
      v := GatherDown(mem, a, e);
    }
  }

  method StoreEither(mem: array<Byte>, a: nat, n: nat, v: nat, word: bool)
    requires a + n <= mem.Length && (if word then Aligned(a, n) else n == 8)
    modifies mem
    ensures mem[..] == Put(old(mem[..]), a, ToBytes(v, n))
  {
    if word {
      Store(mem, a, n, v);
    } else {
      Scatter(mem, a, v);
    }
  }

  /** Exchange and reverse n bytes on each side. */
  method SwapEnds(mem: array<Byte>, l: nat, r: nat, n: nat, leftWord: bool, rightWord: bool,
                  ghost m: seq<Byte>, ghost p: nat, ghost e: nat)
    requires Turned(m, mem[..], p, e, l, r) && l + 2 * n <= r
    requires (if leftWord then Aligned(l, n) else n == 8) && (if rightWord then Aligned(r - n, n) else n == 8)
    modifies mem
    ensures Turned(m, mem[..], p, e, l + n, r - n)
  {
    hide FromBytes, ToBytes, Reversed, Turned, Put, Aligned;
    TurnedBounds(m, mem[..], p, e, l, r);
    var a, b := l + n, r - n;
    var x := LoadReversed(mem, l, a, n, leftWord);
    var y := LoadReversed(mem, b, r, n, rightWord);
    ghost var now := mem[..];
    assert now[l..a] == mem[l..a] && now[b..r] == mem[b..r];
    StoredAsLoaded(Reversed(now[l..a]));
    StoredAsLoaded(Reversed(now[b..r]));
    TurnedNext(m, now, p, e, l, r, a, b, Reversed(now[b..r]), Reversed(now[l..a]));
    StoreEither(mem, l, n, y, leftWord);
    StoreEither(mem, b, n, x, rightWord);
  }

  lemma TurnedBounds(m: seq<Byte>, now: seq<Byte>, p: nat, e: nat, l: nat, r: nat)
    requires Turned(m, now, p, e, l, r)
    ensures p <= l <= r <= e <= |m| == |now|
  {
  }

  lemma ReversedOne(m: seq<Byte>, a: nat, b: nat)
    requires b == a + 1 <= |m|
    ensures Reversed(m[a..b]) == [m[a]]
  {
    assert m[a..b][1..] == [];
  }

  /** Exchange one byte on each side. */
  method SwapBytes(mem: array<Byte>, l: nat, r: nat, ghost m: seq<Byte>, ghost p: nat, ghost e: nat)
    requires Turned(m, mem[..], p, e, l, r) && l + 2 <= r
    modifies mem
    ensures Turned(m, mem[..], p, e, l + 1, r - 1)
  {
    hide Turned, Reversed;
    TurnedBounds(m, mem[..], p, e, l, r);
    var a, b := l + 1, r - 1;
    ghost var now := mem[..];
    ReversedOne(now, l, a);
    ReversedOne(now, b, r);
    TurnedNext(m, now, p, e, l, r, a, b, [now[b]], [now[l]]);
    var t := mem[l];
    mem[l] := mem[b];
    mem[b] := t;
    assert mem[..] == Put(Put(now, l, [now[b]]), b, [now[l]]);
  }

  /** Two reversed words are the reversal of both, the second one first. */
  lemma ReversedPair(now: seq<Byte>, a: nat, b: nat, c: nat)
    requires a <= b <= c <= |now|
    ensures Reversed(now[a..c]) == Reversed(now[b..c]) + Reversed(now[a..b])
  {
    assert now[a..c] == now[a..b] + now[b..c];
    ReversedJoin(now[a..b], now[b..c]);
  }

  /** Exchange and reverse two words on each side, all four loaded before any store. */
  method SwapPairs(mem: array<Byte>, l: nat, r: nat, leftWord: bool, rightWord: bool,
                   ghost m: seq<Byte>, ghost p: nat, ghost e: nat)
    requires Turned(m, mem[..], p, e, l, r) && l + 32 <= r
    requires (leftWord ==> Aligned(l, 8)) && (rightWord ==> Aligned(r, 8))
    modifies mem
    ensures Turned(m, mem[..], p, e, l + 16, r - 16)
  {
    hide FromBytes, ToBytes, Reversed, Turned, Put;
    TurnedBounds(m, mem[..], p, e, l, r);
    var l1, l2, r1, r2 := l + 8, l + 16, r - 16, r - 8;
    var x1 := LoadReversed(mem, l, l1, 8, leftWord);
    var x2 := LoadReversed(mem, l1, l2, 8, leftWord);
    var y1 := LoadReversed(mem, r1, r2, 8, rightWord);
    var y2 := LoadReversed(mem, r2, r, 8, rightWord);
    ghost var now := mem[..];
    assert now[l..l1] == mem[l..l1] && now[l1..l2] == mem[l1..l2];
    assert now[r1..r2] == mem[r1..r2] && now[r2..r] == mem[r2..r];
    ghost var a1, a2, b1, b2 := Reversed(now[l..l1]), Reversed(now[l1..l2]), Reversed(now[r1..r2]), Reversed(now[r2..r]);
    StoredAsLoaded(a1);
    StoredAsLoaded(a2);
    StoredAsLoaded(b1);
    StoredAsLoaded(b2);
    ReversedPair(now, l, l1, l2);
    ReversedPair(now, r1, r2, r);
    TurnedNext(m, now, p, e, l, r, l2, r1, b2 + b1, a2 + a1);
    StoreEither(mem, l, 8, y2, leftWord);
    StoreEither(mem, l1, 8, y1, leftWord);
    PutJoin(now, l, l1, b2, b1);
    ghost var mid := mem[..];
    StoreEither(mem, r1, 8, x2, rightWord);
    StoreEither(mem, r2, 8, x1, rightWord);
    PutJoin(mid, r1, r2, a2, a1);
  }

  /** Exchange k bytes on each side, or as many as there are. */
  method SwapBytewise(mem: array<Byte>, l: nat, r: nat, k: nat, ghost m: seq<Byte>, ghost p: nat, ghost e: nat)
    returns (l': nat, r': nat)
    requires Turned(m, mem[..], p, e, l, r)
    modifies mem
    ensures Turned(m, mem[..], p, e, l', r')
    ensures (l' == l + k && r' + k == r) || r' <= l' + 1
  {
    hide Turned;
    TurnedBounds(m, mem[..], p, e, l, r);
    l', r' := l, r;
    var left := k;
    while left > 0 && l' + 1 < r'
      invariant Turned(m, mem[..], p, e, l', r') && 0 <= left <= k && l' == l + (k - left) && r' + (k - left) == r
    {
      SwapBytes(mem, l', r', m, p, e);
      l', r', left := l' + 1, r' - 1, left - 1;
    }
  }

  /** The word loops of a regime: two words on each side while they fit, then one. */
  method SwapWords(mem: array<Byte>, l: nat, r: nat, leftWord: bool, rightWord: bool,
                   ghost m: seq<Byte>, ghost p: nat, ghost e: nat)
    returns (l': nat, r': nat)
    requires Turned(m, mem[..], p, e, l, r)
    requires r > l + 1 ==> (leftWord ==> Aligned(l, 8)) && (rightWord ==> Aligned(r, 8))
    modifies mem
    ensures Turned(m, mem[..], p, e, l', r')
  {
    hide Turned;
    TurnedBounds(m, mem[..], p, e, l, r);
    l', r' := l, r;
    while l' + 32 <= r'
      invariant Turned(m, mem[..], p, e, l', r')
      invariant r' > l' + 1 ==> (leftWord ==> Aligned(l', 8)) && (rightWord ==> Aligned(r', 8))
    {
      SwapPairs(mem, l', r', leftWord, rightWord, m, p, e);
      l', r' := l' + 16, r' - 16;
    }
    while l' + 16 <= r'
      invariant Turned(m, mem[..], p, e, l', r')
      invariant r' > l' + 1 ==> (leftWord ==> Aligned(l', 8)) && (rightWord ==> Aligned(r', 8))
    {
      SwapEnds(mem, l', r', 8, leftWord, rightWord, m, p, e);
      l', r' := l' + 8, r' - 8;
    }
  }

  /** Both ends can be aligned to 16 bytes together. */
  method SwapLong(mem: array<Byte>, l: nat, r: nat, k: nat, ghost m: seq<Byte>, ghost p: nat, ghost e: nat)
    returns (l': nat, r': nat)
    requires Turned(m, mem[..], p, e, l, r) && k == (16 - l % 16) % 16 == r % 16
    modifies mem
    ensures Turned(m, mem[..], p, e, l', r')
  {
    hide Turned;
    l', r' := SwapBytewise(mem, l, r, k, m, p, e);
    TurnedBounds(m, mem[..], p, e, l', r');
    while l' + 32 <= r'
      invariant Turned(m, mem[..], p, e, l', r')
      invariant r' > l' + 1 ==> Aligned(l', 16) && Aligned(r', 16)
    {
      SwapEnds(mem, l', r', 16, true, true, m, p, e);
      l', r' := l' + 16, r' - 16;
    }
  }

  /** The three regimes of 8-byte words: both ends aligned together, the left one first, or the right one. */
  method SwapShort(mem: array<Byte>, l: nat, r: nat, ghost m: seq<Byte>, ghost p: nat, ghost e: nat)
    returns (l': nat, r': nat)
    requires Turned(m, mem[..], p, e, l, r)
    modifies mem
    ensures Turned(m, mem[..], p, e, l', r')
  {
    hide Turned;
    var left, right := l % 8, r % 8;
    var alignLeft := (8 - left) % 8;
    if right == alignLeft {
      l', r' := SwapBytewise(mem, l, r, alignLeft, m, p, e);
      l', r' := SwapWords(mem, l', r', true, true, m, p, e);
    } else if alignLeft <= right {
      l', r' := SwapBytewise(mem, l, r, alignLeft, m, p, e);
      l', r' := SwapWords(mem, l', r', true, false, m, p, e);
    } else {
      l', r' := SwapBytewise(mem, l, r, right, m, p, e);
      l', r' := SwapWords(mem, l', r', false, true, m, p, e);
    }
  }

  /** Reverses n bytes in place, whatever the alignment of either end. */
  method MemReverse(mem: array<Byte>, at: nat, n: nat)
    requires at + n <= mem.Length
    modifies mem
    ensures mem[..] == Flipped(old(mem[..]), at, at + n)
    ensures forall x :: 0 <= x < mem.Length ==> mem[..][x] == old(mem[..])[if at <= x < at + n then at + n - 1 - (x - at) else x]
  {
    hide Turned, Flipped;
    ghost var m := mem[..];
    ghost var e: nat := at + n;
    forall x: nat | x < |m| ensures Flipped(m, at, e)[x] == m[if at <= x < at + n then at + n - 1 - (x - at) else x] {
      FlippedAt(m, at, e, x);
    }
    TurnedNone(m, at, e);
    var l: nat, r: nat := at, at + n;
    if n > 1 {
      var right := r % 16;
      var alignLeft := (16 - l % 16) % 16;
      if right == alignLeft {
        l, r := SwapLong(mem, l, r, alignLeft, m, at, e);
      }
      l, r := SwapShort(mem, l, r, m, at, e);
      while l + 1 < r
        invariant Turned(m, mem[..], at, e, l, r)
      {
        SwapBytes(mem, l, r, m, at, e);
        l, r := l + 1, r - 1;
      }
      TurnedBounds(m, mem[..], at, e, l, r);
    }
    TurnedAll(m, mem[..], at, e, l, r);
  }
}
