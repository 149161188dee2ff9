/** memcmp and memmem. */
module MemorySearch {
  import opened Basics
  import opened MemoryWords

  /** The difference of the first two bytes that differ, or 0. */
  function Difference(s: seq<Byte>, t: seq<Byte>): int
    requires |s| == |t|
  {
    if s == [] then 0 else if s[0] != t[0] then s[0] - t[0] else Difference(s[1..], t[1..])
  }

  /** s comes before t, byte by byte. */
  predicate Below(s: seq<Byte>, t: seq<Byte>)
    requires |s| == |t|
  {
    s != [] && (s[0] < t[0] || (s[0] == t[0] && Below(s[1..], t[1..])))
  }

  /** The sign of the difference is the lexicographic order. */
  lemma {:induction false} DifferenceOrders(s: seq<Byte>, t: seq<Byte>)
    requires |s| == |t|
    ensures Difference(s, t) == 0 <==> s == t
    ensures Difference(s, t) < 0 <==> Below(s, t)
    ensures Difference(s, t) > 0 <==> Below(t, s)
  {
    if s != [] && s[0] == t[0] {
      DifferenceOrders(s[1..], t[1..]);
      assert s == [s[0]] + s[1..] && t == [t[0]] + t[1..];
    }
  }

  lemma {:induction false} EqualPrefix(s: seq<Byte>, t: seq<Byte>, k: nat)
    requires |s| == |t| && k <= |s| && s[..k] == t[..k]
    ensures Difference(s, t) == Difference(s[k..], t[k..])
  {
    if k > 0 {
      assert s[0] == s[..k][0] == t[..k][0] == t[0];
      assert s[1..][..k - 1] == s[..k][1..] && t[1..][..k - 1] == t[..k][1..];
      EqualPrefix(s[1..], t[1..], k - 1);
      assert s[1..][k - 1..] == s[k..] && t[1..][k - 1..] == t[k..];
    }
  }

  /** What comparing the bytes from a and from b should give. */
  function Comparison(m: seq<Byte>, a: nat, b: nat, count: nat): int
    requires a + count <= |m| && b + count <= |m|
  {
    Difference(m[a..a + count], m[b..b + count])
  }

  lemma ComparisonStep(m: seq<Byte>, a: nat, b: nat, count: nat, u: nat, e: nat, f: nat)
    requires u <= count && a + count <= |m| && b + count <= |m| && e == a + u && f == b + u && m[a..e] == m[b..f]
    ensures Comparison(m, a, b, count) == Comparison(m, e, f, count - u)
  {
    var s, t := m[a..a + count], m[b..b + count];
    assert s[..u] == m[a..e] && t[..u] == m[b..f];
    EqualPrefix(s, t, u);
    assert s[u..] == m[e..e + (count - u)] && t[u..] == m[f..f + (count - u)];
  }

  lemma ComparisonFound(m: seq<Byte>, a: nat, b: nat, count: nat, i: nat, e: nat, f: nat)
    requires i < count && a + count <= |m| && b + count <= |m| && e == a + i && f == b + i
    requires m[a..e] == m[b..f] && m[e] != m[f]
    ensures Comparison(m, a, b, count) == (m[e] as int) - m[f] != 0
  {
    ComparisonStep(m, a, b, count, i, e, f);
    assert m[e..e + (count - i)][0] == m[e] && m[f..f + (count - i)][0] == m[f];
  }

  /** Compare two words, and byte by byte if they differ. */
  method CompareWord(mem: array<Byte>, a: nat, b: nat, u: nat, ghost count: nat) returns (r: int)
    requires Aligned(a, u) && Aligned(b, u) && 0 < u <= count && a + count <= mem.Length && b + count <= mem.Length
    ensures r == 0 ==> mem[a..a + u] == mem[b..b + u]
    ensures r != 0 ==> r == Comparison(mem[..], a, b, count)
  {
    hide FromBytes, Comparison, Aligned;
    ghost var m := mem[..];
    var va := Load(mem, a, u);
    var vb := Load(mem, b, u);
    if va != vb {
      var i: nat := 0;
      while i < u
        invariant i <= u && m[a..a + i] == m[b..b + i]
      {
        if mem[a + i] != mem[b + i] {
          ComparisonFound(m, a, b, count, i, a + i, b + i);
          return (mem[a + i] as int) - mem[b + i];
        }
        assert m[a..a + (i + 1)] == m[a..a + i] + [m[a + i]] && m[b..b + (i + 1)] == m[b..b + i] + [m[b + i]];
        i := i + 1;
      }
    } else {
      LoadsTellApart(mem[a..a + u], mem[b..b + u]);
    }
    return 0;
  }

  /** Compare a block of words in order. */
  method CompareRun(mem: array<Byte>, a: nat, b: nat, u: nat, block: nat, ghost count: nat) returns (r: int)
    requires Aligned(a, u) && Aligned(b, u) && Aligned(block, u) && u > 0
    requires block <= count && a + count <= mem.Length && b + count <= mem.Length
    ensures r != 0 ==> r == Comparison(mem[..], a, b, count)
    ensures r == 0 ==> Comparison(mem[..], a, b, count) == Comparison(mem[..], a + block, b + block, count - block)
    ensures r == 0 ==> Aligned(a + block, u) && Aligned(b + block, u)
  {
    hide Comparison, Aligned;
    var left, p: nat, q: nat := block, a, b;
    ghost var c: nat := count;
    while left > 0
      invariant 0 <= left <= block && p == a + (block - left) && q == b + (block - left) && c == count - (block - left)
      invariant Aligned(p, u) && Aligned(q, u) && Aligned(left, u)
      invariant Comparison(mem[..], a, b, count) == Comparison(mem[..], p, q, c)
    {
      AlignedLeft(left, u);
      r := CompareWord(mem, p, q, u, c);
      if r != 0 {
        return;
      }
      ghost var e: nat, f: nat := p + u, q + u;
      assert mem[..][p..e] == mem[p..e] && mem[..][q..f] == mem[q..f];
      ComparisonStep(mem[..], p, q, c, u, e, f);
      AlignedNext(p, u);
      AlignedNext(q, u);
      left, p, q, c := left - u, p + u, q + u, c - u;
    }
    return 0;
  }

  /** While a block of words is left, compare one. */
  method CompareBlocks(mem: array<Byte>, a: nat, b: nat, count: nat, u: nat, block: nat)
    returns (r: int, a': nat, b': nat, count': nat)
    requires Aligned(a, u) && Aligned(b, u) && Aligned(block, u) && u > 0 && block > 0
    requires a + count <= mem.Length && b + count <= mem.Length
    ensures count' <= count && a' == a + (count - count') && b' == b + (count - count')
    ensures r != 0 ==> r == Comparison(mem[..], a, b, count)
    ensures r == 0 ==> Aligned(a', u) && Aligned(b', u) && count' < block
    ensures r == 0 ==> Comparison(mem[..], a, b, count) == Comparison(mem[..], a', b', count')
  {
    hide Comparison, Aligned;
    r, a', b', count' := 0, a, b, count;
    while count' >= block
      invariant count' <= count && a' == a + (count - count') && b' == b + (count - count')
      invariant Aligned(a', u) && Aligned(b', u)
      invariant Comparison(mem[..], a, b, count) == Comparison(mem[..], a', b', count')
    {
      r := CompareRun(mem, a', b', u, block, count');
      if r != 0 {
        return;
      }
      a', b', count' := a' + block, b' + block, count' - block;
    }
    r := 0;
  }

  /** Two addresses equally far past a multiple of u. */
  predicate SameOffset(a: nat, b: nat, u: nat) {
    (u == 8 && a % 8 == b % 8) || (u == 16 && a % 16 == b % 16)
  }

  lemma SameOffsetNext(a: nat, b: nat, u: nat)
    requires SameOffset(a, b, u)
    ensures SameOffset(a + 1, b + 1, u) && (Aligned(a, u) ==> Aligned(b, u)) && Aligned(32, u) && Aligned(u, u) && u > 0
  {
    if u == 8 {
      SameOffset8(a, b);
    } else {
      SameOffset16(a, b);
    }
  }

  lemma SameOffset8(a: nat, b: nat)
    requires a % 8 == b % 8
    ensures (a + 1) % 8 == (b + 1) % 8
  {
  }

  lemma SameOffset16(a: nat, b: nat)
    requires a % 16 == b % 16
    ensures (a + 1) % 16 == (b + 1) % 16
  {
  }

  /** Bytes until the addresses are aligned, then blocks of 32 bytes, then words. */
  method CompareAligned(mem: array<Byte>, a: nat, b: nat, count: nat, u: nat)
    returns (r: int, a': nat, b': nat, count': nat)
    requires SameOffset(a, b, u) && a + count <= mem.Length && b + count <= mem.Length
    ensures count' <= count && a' == a + (count - count') && b' == b + (count - count')
    ensures r != 0 ==> r == Comparison(mem[..], a, b, count)
    ensures r == 0 ==> Comparison(mem[..], a, b, count) == Comparison(mem[..], a', b', count')
  {
    hide Comparison, Aligned, SameOffset;
    r, a', b', count' := 0, a, b, count;
    while !Aligned(a', u) && count' > 0
      invariant count' <= count && a' == a + (count - count') && b' == b + (count - count') && SameOffset(a', b', u)
      invariant Comparison(mem[..], a, b, count) == Comparison(mem[..], a', b', count')
      decreases count'
    {
      SameOffsetNext(a', b', u);
      r := CompareByte(mem, a', b', count');
      if r != 0 {
        return;
      }
      a', b', count' := a' + 1, b' + 1, count' - 1;
    }
    r := 0;
    SameOffsetNext(a', b', u);
    if count' > 0 {
      r, a', b', count' := CompareBlocks(mem, a', b', count', u, 32);
      if r == 0 {
        r, a', b', count' := CompareBlocks(mem, a', b', count', u, u);
      }
    }
  }

  method CompareByte(mem: array<Byte>, a: nat, b: nat, ghost count: nat) returns (r: int)
    requires 0 < count && a + count <= mem.Length && b + count <= mem.Length
    ensures r != 0 ==> r == Comparison(mem[..], a, b, count)
    ensures r == 0 ==> Comparison(mem[..], a, b, count) == Comparison(mem[..], a + 1, b + 1, count - 1)
  {
    r := CompareRun(mem, a, b, 1, 1, count);
  }

  /** The first place where the bytes from a and from b differ. */
  predicate DiffersAt(m: seq<Byte>, a: nat, b: nat, k: nat)
    requires a + k < |m| && b + k < |m|
  {
    m[a..a + k] == m[b..b + k] && m[a + k] != m[b + k]
  }

  lemma DifferenceAt(m: seq<Byte>, a: nat, b: nat, count: nat, k: nat)
    requires k < count && a + count <= |m| && b + count <= |m| && DiffersAt(m, a, b, k)
    ensures Difference(m[a..a + count], m[b..b + count]) + m[b + k] == m[a + k]
  {
    var s, t := m[a..a + count], m[b..b + count];
    SliceFront(m, a, a + count, k);
    SliceFront(m, b, b + count, k);
    EqualPrefix(s, t, k);
  }

  lemma DifferencePlace(m: seq<Byte>, a: nat, b: nat, count: nat)
    requires a + count <= |m| && b + count <= |m|
    ensures Difference(m[a..a + count], m[b..b + count]) == 0 <==> m[a..a + count] == m[b..b + count]
    ensures forall k: nat :: k < count && DiffersAt(m, a, b, k) ==> Difference(m[a..a + count], m[b..b + count]) + m[b + k] == m[a + k]
  {
    hide Difference, Below;
    DifferenceOrders(m[a..a + count], m[b..b + count]);
    forall k: nat | k < count && DiffersAt(m, a, b, k)
      ensures Difference(m[a..a + count], m[b..b + count]) + m[b + k] == m[a + k]
    {
      DifferenceAt(m, a, b, count, k);
    }
  }

  method MemCmp(mem: array<Byte>, a: nat, b: nat, count: nat) returns (r: int)
    requires a + count <= mem.Length && b + count <= mem.Length
    ensures r == Difference(mem[a..a + count], mem[b..b + count]) && (r == 0 <==> mem[a..a + count] == mem[b..b + count])
    ensures forall k: nat :: k < count && DiffersAt(mem[..], a, b, k) ==> r + mem[b + k] == mem[a + k]
  {
    DifferencePlace(mem[..], a, b, count);
    var p, q, left := a, b, count;
    r := 0;
    assert mem[..][a..a + count] == mem[a..a + count] && mem[..][b..b + count] == mem[b..b + count];
    assert Comparison(mem[..], a, b, count) == Difference(mem[a..a + count], mem[b..b + count]);
    hide Comparison;
    if a % 16 == b % 16 {
      r, p, q, left := CompareAligned(mem, p, q, left, 16);
    } else if a % 8 == b % 8 {
      r, p, q, left := CompareAligned(mem, p, q, left, 8);
    }
    if r == 0 {
      r, p, q, left := CompareBlocks(mem, p, q, left, 1, 1);
      NothingToCompare(mem[..], p, q);
    }
  }

  lemma NothingToCompare(m: seq<Byte>, a: nat, b: nat)
    requires a <= |m| && b <= |m|
    ensures Comparison(m, a, b, 0) == 0
  {
  }

  // ----- searching

  /** The needle stands at offset i of the haystack. */
  predicate OccursAt(hay: seq<Byte>, needle: seq<Byte>, i: nat) {
    i + |needle| <= |hay| && hay[i..i + |needle|] == needle
  }

  /** The needle stands nowhere before offset i. */
  ghost predicate NoneBefore(hay: seq<Byte>, needle: seq<Byte>, i: nat) {
    forall j: nat :: j < i ==> !OccursAt(hay, needle, j)
  }

  lemma OneMore(hay: seq<Byte>, needle: seq<Byte>, i: nat)
    requires NoneBefore(hay, needle, i) && !OccursAt(hay, needle, i)
    ensures NoneBefore(hay, needle, i + 1)
  {
  }

  /** Past the last offset there is no room. */
  lemma NowhereElse(hay: seq<Byte>, needle: seq<Byte>, i: nat)
    requires NoneBefore(hay, needle, i) && i + |needle| > |hay|
    ensures forall j: nat :: !OccursAt(hay, needle, j)
  {
  }

  lemma OccursByte(hay: seq<Byte>, needle: seq<Byte>, i: nat, j: nat)
    requires OccursAt(hay, needle, i) && j < |needle|
    ensures hay[i + j] == needle[j]
  {
    assert hay[i..i + |needle|][j] == hay[i + j];
  }

  /**
   * The skip of a byte is at most the needle's length and at least 1, and the byte is not among the
   * skip - 1 bytes before the needle's last.
   */
  ghost predicate SkipOk(needle: seq<Byte>, k: nat, c: Byte, d: nat)
    requires k <= |needle|
  {
    1 <= d <= |needle| && forall p: nat :: p < k && |needle| < p + 1 + d ==> needle[p] != c
  }

  ghost predicate SkipsOk(needle: seq<Byte>, k: nat, skip: seq<nat>)
    requires k <= |needle|
  {
    |skip| == 256 && forall c: Byte :: SkipOk(needle, k, c, skip[c])
  }

  /** No skip passes over a place where the needle stands. */
  lemma SkipPassesNone(hay: seq<Byte>, needle: seq<Byte>, i: nat, c: Byte, d: nat)
    requires needle != [] && i + |needle| <= |hay| && c == hay[i + |needle| - 1]
    requires SkipOk(needle, |needle| - 1, c, d)
    requires NoneBefore(hay, needle, i) && !OccursAt(hay, needle, i)
    ensures NoneBefore(hay, needle, i + d)
  {
    forall j: nat | j < i + d ensures !OccursAt(hay, needle, j) {
      if i < j && OccursAt(hay, needle, j) {
        var p := |needle| - 1 - (j - i);
        OccursByte(hay, needle, j, p);
      }
    }
  }

  /** What a search should find: the first place, or that there is none. */
  ghost predicate Answer(hay: seq<Byte>, needle: seq<Byte>, found: bool, i: nat) {
    if found then OccursAt(hay, needle, i) && NoneBefore(hay, needle, i)
    else forall j: nat :: !OccursAt(hay, needle, j)
  }

  /** A place is one when its first bytes, those in the middle and the last ones agree. */
  lemma OccursInParts(hay: seq<Byte>, needle: seq<Byte>, i: nat, a: nat, b: nat)
    requires a <= b <= |needle| && i + |needle| <= |hay|
    ensures OccursAt(hay, needle, i) <==>
            hay[i..i + a] == needle[..a] && hay[i + a..i + b] == needle[a..b] && hay[i + b..i + |needle|] == needle[b..]
  {
    var e := i + |needle|;
    var s := hay[i..e];
    SliceOfSlice(hay, i, e, 0, a);
    SliceOfSlice(hay, i, e, a, b);
    SliceOfSlice(hay, i, e, b, |needle|);
    assert s == s[..a] + s[a..b] + s[b..] && needle == needle[..a] + needle[a..b] + needle[b..];
  }

  lemma Ones(s: seq<Byte>, i: nat, j: nat)
    requires i < |s| && j == i + 1
    ensures s[i..j] == [s[i]]
  {
  }

  method FindByte(mem: array<Byte>, h: nat, hlen: nat, n: nat) returns (found: bool, i: nat)
    requires h + hlen <= mem.Length && n + 1 <= mem.Length && hlen > 0
    ensures Answer(mem[h..h + hlen], mem[n..n + 1], found, i)
  {
    ghost var hay, needle := mem[h..h + hlen], mem[n..n + 1];
    var c := mem[n];
    i := 0;
    while i < hlen
      invariant i <= hlen && NoneBefore(hay, needle, i)
    {
      Ones(hay, i, i + 1);
      if mem[h + i] == c {
        return true, i;
      }
      OneMore(hay, needle, i);
      i := i + 1;
    }
    NowhereElse(hay, needle, i);
    return false, 0;
  }

  method FindPair(mem: array<Byte>, h: nat, hlen: nat, n: nat) returns (found: bool, i: nat)
    requires h + hlen <= mem.Length && n + 2 <= mem.Length && hlen >= 2
    ensures Answer(mem[h..h + hlen], mem[n..n + 2], found, i)
  {
    ghost var hay, needle := mem[h..h + hlen], mem[n..n + 2];
    var c0, c1 := mem[n], mem[n + 1];
    i := 0;
    while i <= hlen - 2
      invariant i <= hlen - 1 && NoneBefore(hay, needle, i)
    {
      assert hay[i..i + 2] == [hay[i], hay[i + 1]] && needle == [c0, c1];
      if mem[h + i] == c0 && mem[h + i + 1] == c1 {
        return true, i;
      }
      OneMore(hay, needle, i);
      i := i + 1;
    }
    NowhereElse(hay, needle, i);
    return false, 0;
  }

  /** memcmp finds no difference exactly when the bytes are the same. */
  method SameBytes(mem: array<Byte>, a: nat, b: nat, count: nat, ghost e: nat, ghost f: nat) returns (yes: bool)
    requires e == a + count <= mem.Length && f == b + count <= mem.Length
    ensures yes == (mem[..][a..e] == mem[..][b..f])
  {
    hide Difference, Below;
    var r := MemCmp(mem, a, b, count);
    DifferenceOrders(mem[a..e], mem[b..f]);
    assert mem[..][a..e] == mem[a..e] && mem[..][b..f] == mem[b..f];
    return r == 0;
  }

  /** The first byte, the last one and those between decide. */
  lemma DecidedOutside(m: seq<Byte>, h: nat, he: nat, n: nat, ne: nat, i: nat, len: nat)
    requires h <= he <= |m| && n + len == ne <= |m| && len >= 2 && h + i + len <= he
    ensures OccursAt(m[h..he], m[n..ne], i) <==>
            m[h + i] == m[n] && m[h + i + len - 1] == m[ne - 1] && m[h + i + 1..h + i + len - 1] == m[n + 1..ne - 1]
  {
    hide OccursAt;
    var hay, needle, l: nat := m[h..he], m[n..ne], len - 1;
    OccursInParts(hay, needle, i, 1, l);
    Ones(hay, i, i + 1);
    Ones(hay, i + l, i + len);
    Ones(needle, l, len);
    Ones(needle, 0, 1);
    SliceOfSlice(m, h, he, i + 1, i + l);
    SliceOfSlice(m, n, ne, 1, l);
  }

  /** Whether the needle stands at i: its first byte, its last one, then those between. */
  method MatchOutside(mem: array<Byte>, h: nat, hlen: nat, n: nat, len: nat, i: nat) returns (yes: bool)
    requires h + hlen <= mem.Length && n + len <= mem.Length && len >= 2 && i + len <= hlen
    ensures yes == OccursAt(mem[h..h + hlen], mem[n..n + len], i)
  {
    hide OccursAt;
    ghost var m := mem[..];
    assert m[h..h + hlen] == mem[h..h + hlen] && m[n..n + len] == mem[n..n + len];
    DecidedOutside(m, h, h + hlen, n, n + len, i, len);
    if mem[h + i] != mem[n] {
      return false;
    }
    if mem[h + i + len - 1] != mem[n + len - 1] {
      return false;
    }
    yes := SameBytes(mem, h + i + 1, n + 1, len - 2, h + i + len - 1, n + len - 1);
  }

  method FindShort(mem: array<Byte>, h: nat, hlen: nat, n: nat, len: nat) returns (found: bool, i: nat)
    requires h + hlen <= mem.Length && n + len <= mem.Length && 2 <= len <= hlen
    ensures Answer(mem[h..h + hlen], mem[n..n + len], found, i)
  {
    hide OccursAt, NoneBefore;
    ghost var hay, needle := mem[h..h + hlen], mem[n..n + len];
    i := 0;
    NoneAtAll(hay, needle);
    while i <= hlen - len
      invariant i <= hlen - len + 1 && NoneBefore(hay, needle, i)
    {
      var yes := MatchOutside(mem, h, hlen, n, len, i);
      if yes {
        return true, i;
      }
      OneMore(hay, needle, i);
      i := i + 1;
    }
    NowhereElse(hay, needle, i);
    return false, 0;
  }

  lemma NoneAtAll(hay: seq<Byte>, needle: seq<Byte>)
    ensures NoneBefore(hay, needle, 0)
  {
  }

  /** A table entry: a byte, or a word. */
  function Entry(x: nat, narrow: bool): nat {
    if narrow then x % 256 else x % WORD64
  }

  /** The skip table. In the table of bytes, for needles of at most 255 bytes, every entry fits. */
  method BuildSkips(mem: array<Byte>, n: nat, len: nat, narrow: bool) returns (skip: array<nat>)
    requires n + len <= mem.Length && 1 <= len < (if narrow then 256 else WORD64)
    ensures fresh(skip) && SkipsOk(mem[n..n + len], len - 1, skip[..])
  {
    ghost var needle := mem[n..n + len];
    skip := new nat[256];
    for i := 0 to 256
      invariant forall c :: 0 <= c < i ==> skip[c] == len
    {
      skip[i] := Entry(len, narrow);
    }
    assert SkipsOk(needle, 0, skip[..]);
    var i: nat := 0;
    while i < len - 1
      invariant i <= len - 1 && SkipsOk(needle, i, skip[..])
    {
      ghost var was := skip[..];
      skip[mem[n + i]] := Entry(len - 1 - i, narrow);
      SkipsNext(needle, i, was, skip[..]);
      i := i + 1;
    }
  }

  lemma SkipsNext(needle: seq<Byte>, i: nat, was: seq<nat>, now: seq<nat>)
    requires i + 1 < |needle| && SkipsOk(needle, i, was) && now == was[needle[i] := |needle| - 1 - i]
    ensures SkipsOk(needle, i + 1, now)
  {
    forall c: Byte ensures SkipOk(needle, i + 1, c, now[c]) {
      assert SkipOk(needle, i, c, was[c]);
    }
  }

  /** The last byte and those before it decide. */
  lemma DecidedFromEnd(m: seq<Byte>, h: nat, he: nat, n: nat, ne: nat, i: nat, len: nat)
    requires h <= he <= |m| && n + len == ne <= |m| && len >= 1 && h + i + len <= he
    ensures OccursAt(m[h..he], m[n..ne], i) <==>
            m[h + i + len - 1] == m[ne - 1] && m[h + i..h + i + len - 1] == m[n..ne - 1]
  {
    hide OccursAt;
    var hay, needle, l: nat := m[h..he], m[n..ne], len - 1;
    OccursInParts(hay, needle, i, l, l);
    Ones(hay, i + l, i + len);
    Ones(needle, l, len);
    SliceOfSlice(m, h, he, i, i + l);
    SliceOfSlice(m, n, ne, 0, l);
  }

  /** Whether the needle stands at i: its last byte, then the others. */
  method MatchFromEnd(mem: array<Byte>, h: nat, hlen: nat, n: nat, len: nat, i: nat) returns (yes: bool)
    requires h + hlen <= mem.Length && n + len <= mem.Length && len >= 1 && i + len <= hlen
    ensures yes == OccursAt(mem[h..h + hlen], mem[n..n + len], i)
  {
    hide OccursAt;
    ghost var m := mem[..];
    assert m[h..h + hlen] == mem[h..h + hlen] && m[n..n + len] == mem[n..n + len];
    DecidedFromEnd(m, h, h + hlen, n, n + len, i, len);
    if mem[h + i + len - 1] != mem[n + len - 1] {
      return false;
    }
    yes := SameBytes(mem, h + i, n, len - 1, h + i + len - 1, n + len - 1);
  }

  /** Horspool's search: on a mismatch, skip as far as the byte under the needle's end allows. */
  method FindLong(mem: array<Byte>, h: nat, hlen: nat, n: nat, len: nat, narrow: bool) returns (found: bool, i: nat)
    requires h + hlen <= mem.Length && n + len <= mem.Length && 1 <= len <= hlen && len < (if narrow then 256 else WORD64)
    ensures Answer(mem[h..h + hlen], mem[n..n + len], found, i)
  {
    hide OccursAt, NoneBefore, SkipOk;
    ghost var hay, needle := mem[h..h + hlen], mem[n..n + len];
    var skip := BuildSkips(mem, n, len, narrow);
    ghost var skips := skip[..];
    i := 0;
    NoneAtAll(hay, needle);
    while i <= hlen - len
      invariant NoneBefore(hay, needle, i) && skip[..] == skips
      decreases hlen - i
    {
      var c := mem[h + i + len - 1];
      var yes := MatchFromEnd(mem, h, hlen, n, len, i);
      if yes {
        return true, i;
      }
      assert skip[c] == skips[c] && SkipOk(needle, len - 1, c, skips[c]);
      SkipPassesNone(hay, needle, i, c, skip[c]);
      SkipMoves(needle, len - 1, c, skip[c]);
      i := i + skip[c];
    }
    NowhereElse(hay, needle, i);
    return false, 0;
  }

  lemma SkipMoves(needle: seq<Byte>, k: nat, c: Byte, d: nat)
    requires k <= |needle| && SkipOk(needle, k, c, d)
    ensures d >= 1
  {
  }

  /** Whether and where the needle first stands in the haystack; a null haystack or needle is address 0. */
  method MemMem(mem: array<Byte>, h: nat, hlen: nat, n: nat, len: nat) returns (r: nat)
    requires h + hlen <= mem.Length && n + len <= mem.Length && len < WORD64
    ensures h == 0 || n == 0 ==> r == 0
    ensures h != 0 && n != 0 ==> Answer(mem[h..h + hlen], mem[n..n + len], r != 0, if r < h then 0 else r - h)
    ensures r != 0 ==> r >= h
  {
    if h == 0 || n == 0 {
      return 0;
    }
    ghost var hay, needle := mem[h..h + hlen], mem[n..n + len];
    if len == 0 {
      assert hay[0..0] == needle;
      return h;
    }
    if hlen < len {
      NoneAtAll(hay, needle);
      NowhereElse(hay, needle, 0);
      return 0;
    }
    hide OccursAt, NoneBefore;
    var found, i;
    if len == 1 {
      found, i := FindByte(mem, h, hlen, n);
    } else if len == 2 {
      found, i := FindPair(mem, h, hlen, n);
    } else if hlen < 128 || len < 4 {
      found, i := FindShort(mem, h, hlen, n, len);
    } else if len <= 255 {
      found, i := FindLong(mem, h, hlen, n, len, true);
    } else {
      found, i := FindLong(mem, h, hlen, n, len, false);
    }
    return if found then h + i else 0;
  }
}
