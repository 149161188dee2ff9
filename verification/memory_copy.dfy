/** memcpy and memmove: word-at-a-time copies against a one-line specification. */
module MemoryCopy {
  import opened Basics
  import opened Bits
  import opened MemoryWords

  /** Memory after the n bytes from src on were written at dest, as they were. */
  function Moved(m: seq<Byte>, dest: nat, src: nat, n: nat): (r: seq<Byte>)
    requires dest + n <= |m| && src + n <= |m|
    ensures |r| == |m|
  {
    Put(m, dest, m[src..src + n])
  }

  lemma MovedAt(m: seq<Byte>, dest: nat, src: nat, n: nat)
    requires dest + n <= |m| && src + n <= |m|
    ensures forall x :: 0 <= x < |m| ==> Moved(m, dest, src, n)[x] == m[if dest <= x < dest + n then src + (x - dest) else x]
  {}

  lemma MovedToItself(m: seq<Byte>, dest: nat, n: nat)
    requires dest + n <= |m|
    ensures Moved(m, dest, dest, n) == m
  {
  }

  /** What a copy is to do: the memory it starts from, where to, where from and how much. */
  datatype Job = Job(m: seq<Byte>, dest: nat, src: nat, n: nat) {
    predicate Valid() {
      dest + n <= |m| && src + n <= |m|
    }

    /** Going forwards never overwrites what is still to be read. */
    predicate Forward() {
      Valid() && (dest <= src || src + n <= dest)
    }

    /** Memory when the first k bytes have been copied. */
    predicate At(now: seq<Byte>, k: nat) {
      Valid() && k <= n && now == Moved(m, dest, src, k)
    }

    /** Memory when all but the first k bytes have been copied. */
    predicate Back(now: seq<Byte>, k: nat) {
      Valid() && k <= n && now == Put(m, dest + k, m[src + k..src + n])
    }
  }

  /** Source bytes from x to y not yet copied are still what they were. */
  lemma Ahead(job: Job, now: seq<Byte>, k: nat, x: nat, y: nat)
    requires job.Forward() && job.At(now, k) && job.src + k <= x <= y <= job.src + job.n
    ensures |now| == |job.m| && now[x..y] == job.m[x..y]
  {
  }

  /** Storing the next bytes of the source at d takes the copy on by as many. */
  lemma Advance(job: Job, now: seq<Byte>, k: nat, d: nat, s: nat, e: nat, u: nat)
    requires job.Forward() && job.At(now, k) && k + u <= job.n
    requires d == job.dest + k && s == job.src + k && e == s + u
    ensures d + |job.m[s..e]| <= |now| && job.At(Put(now, d, job.m[s..e]), k + u)
  {
    hide Put, Moved;
    ghost var l := k + u;
    MovedNext(job.m, job.dest, job.src, k, l, job.m[s..e]);
  }

  lemma MovedNext(m: seq<Byte>, dest: nat, src: nat, k: nat, l: nat, s: seq<Byte>)
    requires k <= l && dest + l <= |m| && src + l <= |m| && s == m[src + k..src + l]
    ensures Put(Moved(m, dest, src, k), dest + k, s) == Moved(m, dest, src, l)
  {
  }

  lemma JobBounds(job: Job)
    requires job.Forward()
    ensures job.Valid() && job.dest + job.n <= |job.m| && job.src + job.n <= |job.m|
  {
  }

  /** Copy one word of u bytes. */
  method CopyWord(mem: array<Byte>, d: nat, s: nat, u: nat, ghost job: Job, ghost k: nat)
    requires Aligned(d, u) && Aligned(s, u) && job.Forward() && job.At(mem[..], k) && k + u <= job.n
    requires |job.m| == mem.Length && d == job.dest + k && s == job.src + k
    modifies mem
    ensures job.At(mem[..], k + u)
  {
    hide Moved, Put, FromBytes, ToBytes, Aligned, Job.At, Job.Forward;
    JobBounds(job);
    var e := s + u;
    Ahead(job, mem[..], k, s, e);
    assert mem[..][s..e] == mem[s..e];
    var v := Load(mem, s, u);
    StoredAsLoaded(job.m[s..e]);
    Advance(job, mem[..], k, d, s, e, u);
    Store(mem, d, u, v);
  }

  /** The bytes in some words of u bytes. */
  function Bytes(u: nat, words: nat): nat {
    u * words
  }

  lemma OneMoreWord(u: nat, words: nat)
    ensures Bytes(u, words + 1) == Bytes(u, words) + u
  {
  }

  lemma NoWords(u: nat)
    ensures Bytes(u, 0) == 0
  {
  }

  /** Copy words of u bytes one after the other. */
  method CopyRun(mem: array<Byte>, d: nat, s: nat, u: nat, words: nat, ghost job: Job, ghost k: nat)
    requires Aligned(d, u) && Aligned(s, u) && job.Forward() && job.At(mem[..], k) && k + Bytes(u, words) <= job.n
    requires |job.m| == mem.Length && d == job.dest + k && s == job.src + k
    modifies mem
    ensures job.At(mem[..], k + Bytes(u, words))
    ensures Aligned(d + Bytes(u, words), u) && Aligned(s + Bytes(u, words), u)
  {
    hide Bytes, Aligned, Job.At, Job.Forward;
    NoWords(u);
    var p: nat, q: nat, left := d, s, words;
    ghost var j: nat := k;
    while left > 0
      invariant j + Bytes(u, left) == k + Bytes(u, words) && j <= job.n
      invariant p == job.dest + j && q == job.src + j && Aligned(p, u) && Aligned(q, u)
      invariant job.At(mem[..], j)
    {
      OneMoreWord(u, left - 1);
      CopyWord(mem, p, q, u, job, j);
      AlignedNext(p, u);
      AlignedNext(q, u);
      p, q, j, left := p + u, q + u, j + u, left - 1;
    }
  }

  /** While a block of words is left to copy, copy one. */
  method CopyBlocks(mem: array<Byte>, d: nat, s: nat, count: nat, u: nat, words: nat, ghost job: Job)
    returns (d': nat, s': nat, count': nat)
    requires Aligned(d, u) && Aligned(s, u) && job.Forward() && count <= job.n && Bytes(u, words) > 0
    requires |job.m| == mem.Length && d == job.dest + (job.n - count) && s == job.src + (job.n - count)
    requires job.At(mem[..], job.n - count)
    modifies mem
    ensures count' <= count && d' == d + (count - count') && s' == s + (count - count') && job.At(mem[..], job.n - count')
    ensures Aligned(d', u) && Aligned(s', u) && count' < Bytes(u, words)
  {
    hide Bytes, Aligned, Job.At, Job.Forward;
    d', s', count' := d, s, count;
    while count' >= Bytes(u, words)
      invariant count' <= count && d' == d + (count - count') && s' == s + (count - count')
      invariant job.At(mem[..], job.n - count') && Aligned(d', u) && Aligned(s', u)
    {
      CopyRun(mem, d', s', u, words, job, job.n - count');
      d', s', count' := d' + Bytes(u, words), s' + Bytes(u, words), count' - Bytes(u, words);
    }
  }

  /** Copy bytes until d is a multiple of u or nothing is left. */
  method CopyToAlign(mem: array<Byte>, d: nat, s: nat, count: nat, u: nat, ghost job: Job)
    returns (d': nat, s': nat, count': nat)
    requires (u == 8 || u == 16) && job.Forward() && count <= job.n
    requires |job.m| == mem.Length && d == job.dest + (job.n - count) && s == job.src + (job.n - count)
    requires job.At(mem[..], job.n - count)
    modifies mem
    ensures count' <= count && d' == d + (count - count') && s' == s + (count - count') && job.At(mem[..], job.n - count')
    ensures count' == 0 || d' % u == 0
  {
    hide Job.At, Job.Forward;
    d', s', count' := d, s, count;
    while d' % u != 0 && count' > 0
      invariant count' <= count && d' == d + (count - count') && s' == s + (count - count')
      invariant job.At(mem[..], job.n - count')
      decreases count'
    {
      CopyWord(mem, d', s', 1, job, job.n - count');
      d', s', count' := d' + 1, s' + 1, count' - 1;
    }
  }

  /** lo's bytes from k on, shifted down, are the source bytes from s to the next word at w. */
  ghost predicate Holding(job: Job, lo: nat, shift: nat, s: nat, w: nat) {
    s <= w <= |job.m| && shift <= 64 && Shr(lo, shift) == FromBytes(job.m[s..w])
  }

  /** A whole aligned word holds its own top bytes. */
  lemma HoldingWord(job: Job, now: seq<Byte>, w: nat, off: nat, shift: nat, s: nat, e: nat)
    requires off <= 8 && shift == 8 * off && s == w + off && e == w + 8 <= |now| == |job.m|
    requires now[s..e] == job.m[s..e]
    ensures Holding(job, FromBytes(now[w..e]), shift, s, e)
  {
    ShiftedOut(now[w..e], off, shift);
    assert now[w..e][off..] == now[s..e];
  }

  /** The words of the source in order, each merged from two neighbouring aligned words. */
  lemma MergeGives(job: Job, lo: nat, hi: seq<Byte>, off: nat, shift: nat, s: nat, w: nat, e: nat)
    requires 0 < off < 8 && shift == 8 * off && Holding(job, lo, shift, s, w) && w == s + (8 - off) && e == s + 8
    requires |hi| == 8 && w + 8 <= |job.m| && hi == job.m[w..w + 8]
    ensures Merged(lo, FromBytes(hi), shift) == FromBytes(job.m[s..e]) && |job.m[s..e]| == 8
  {
    hide Merged, FromBytes, Shr;
    MergedIsBetween(lo, job.m[s..w], hi, off, shift);
    assert job.m[s..w] + hi[..off] == job.m[s..e];
  }

  /** Load the next words, all of them before any store, merge neighbours, store the results in order. */
  method MergeRun(mem: array<Byte>, d: nat, s: nat, w: nat, lo: nat, off: nat, words: nat, ghost job: Job, ghost k: nat)
    returns (lo': nat)
    requires 0 < off < 8 && Aligned(d, 8) && Aligned(w, 8) && job.Forward() && job.At(mem[..], k)
    requires |job.m| == mem.Length && d == job.dest + k && s == job.src + k && w == s + (8 - off)
    requires w + 8 * words <= job.src + job.n && Holding(job, lo, 8 * off, s, w)
    modifies mem
    ensures job.At(mem[..], k + 8 * words)
    ensures Holding(job, lo', 8 * off, s + 8 * words, w + 8 * words)
  {
    hide Job.At, Job.Forward, FromBytes, ToBytes, Holding, Merged, Put, Aligned;
    JobBounds(job);
    var shift := 8 * off;
    var his: seq<nat> := [];
    var i: nat := 0;
    var q: nat := w;
    while i < words
      invariant i <= words && |his| == i && q == w + 8 * i && Aligned(q, 8) && job.At(mem[..], k)
      invariant forall j :: 0 <= j < i ==> WordOf(job, his[j], w + 8 * j)
    {
      var e := q + 8;
      Ahead(job, mem[..], k, q, e);
      assert mem[..][q..e] == mem[q..e];
      var hi := Load(mem, q, 8);
      AlignedNext(q, 8);
      his := his + [hi];
      i, q := i + 1, e;
    }
    lo' := lo;
    var p: nat := d;
    ghost var t: nat, v: nat, h: nat := s, w, k;
    i := 0;
    while i < words
      invariant i <= words && p == d + 8 * i && t == s + 8 * i && v == w + 8 * i && h == k + 8 * i && Aligned(p, 8)
      invariant job.At(mem[..], h) && Holding(job, lo', shift, t, v)
    {
      ghost var e: nat := t + 8;
      ghost var z: nat := v + 8;
      assert WordOf(job, his[i], v);
      MergeGives(job, lo', job.m[v..z], off, shift, t, v, e);
      StoredAsLoaded(job.m[t..e]);
      Advance(job, mem[..], h, p, t, e, 8);
      Store(mem, p, 8, Merged(lo', his[i], shift));
      HoldingWord(job, job.m, v, off, shift, e, z);
      AlignedNext(p, 8);
      lo' := his[i];
      i, p, t, v, h := i + 1, p + 8, t + 8, v + 8, h + 8;
    }
  }

  ghost predicate WordOf(job: Job, x: nat, a: nat) {
    a + 8 <= |job.m| && x == FromBytes(job.m[a..a + 8])
  }

  lemma {:induction false} WordsOn(a: nat, words: nat)
    requires Aligned(a, 8)
    ensures Aligned(a + 8 * words, 8)
    decreases words
  {
    hide Aligned;
    if words > 0 {
      AlignedNext(a, 8);
      WordsOn(a + 8, words - 1);
    }
  }

  /** While the words of a block can be merged without reading past the source, merge them. */
  method MergeBlocks(mem: array<Byte>, d: nat, s: nat, w: nat, lo: nat, count: nat, off: nat, words: nat, ghost job: Job)
    returns (d': nat, s': nat, w': nat, lo': nat, count': nat)
    requires 0 < off < 8 && words > 0 && Aligned(d, 8) && Aligned(w, 8) && job.Forward() && count <= job.n
    requires |job.m| == mem.Length && d == job.dest + (job.n - count) && s == job.src + (job.n - count)
    requires w == s + (8 - off) && job.At(mem[..], job.n - count) && Holding(job, lo, 8 * off, s, w)
    modifies mem
    ensures count' <= count && d' == d + (count - count') && s' == s + (count - count') && w' == s' + (8 - off)
    ensures job.At(mem[..], job.n - count') && Aligned(d', 8) && Aligned(w', 8) && Holding(job, lo', 8 * off, s', w')
  {
    hide Job.At, Job.Forward, Holding, Aligned;
    d', s', w', lo', count' := d, s, w, lo, count;
    while count' >= 16 - off + 8 * (words - 1)
      invariant count' <= count && d' == d + (count - count') && s' == s + (count - count') && w' == s' + (8 - off)
      invariant job.At(mem[..], job.n - count') && Aligned(d', 8) && Aligned(w', 8) && Holding(job, lo', 8 * off, s', w')
    {
      var block := 8 * words;
      lo' := MergeRun(mem, d', s', w', lo', off, words, job, job.n - count');
      WordsOn(d', words);
      WordsOn(w', words);
      d', s', w', count' := d' + block, s' + block, w' + block, count' - block;
    }
  }

  /** The words from an aligned d on: plain copies when s is aligned too, else merges of neighbours. */
  method CopyWords(mem: array<Byte>, d: nat, s: nat, count: nat, wide: bool, ghost job: Job)
    returns (d': nat, s': nat, count': nat)
    requires Aligned(d, 8) && job.Forward() && count <= job.n
    requires |job.m| == mem.Length && d == job.dest + (job.n - count) && s == job.src + (job.n - count)
    requires job.At(mem[..], job.n - count)
    modifies mem
    ensures count' <= count && d' == d + (count - count') && s' == s + (count - count') && job.At(mem[..], job.n - count')
  {
    hide Job.At, Job.Forward, Holding, FromBytes, Put;
    d', s', count' := d, s, count;
    if s % 8 == 0 {
      d', s', count' := CopyBlocks(mem, d', s', count', 8, 16, job);
      d', s', count' := CopyBlocks(mem, d', s', count', 8, 4, job);
      d', s', count' := CopyBlocks(mem, d', s', count', 8, 1, job);
    } else if count >= 16 {
      var off := s % 8;
      var a: nat := s - off;
      var w := a + 8;
      JobBounds(job);
      var lo := Load(mem, a, 8);
      Ahead(job, mem[..], job.n - count, s, w);
      assert mem[..][a..w] == mem[a..w];
      HoldingWord(job, mem[..], a, off, 8 * off, s, w);
      if wide {
        d', s', w, lo, count' := MergeBlocks(mem, d', s', w, lo, count', off, 8, job);
      }
      d', s', w, lo, count' := MergeBlocks(mem, d', s', w, lo, count', off, 4, job);
      d', s', w, lo, count' := MergeBlocks(mem, d', s', w, lo, count', off, 1, job);
    }
  }

  /** What is left, byte by byte. */
  method CopyRest(mem: array<Byte>, d: nat, s: nat, count: nat, ghost job: Job)
    requires job.Forward() && count <= job.n
    requires |job.m| == mem.Length && d == job.dest + (job.n - count) && s == job.src + (job.n - count)
    requires job.At(mem[..], job.n - count)
    modifies mem
    ensures job.At(mem[..], job.n)
  {
    hide Job.At, Job.Forward;
    var d', s', left := CopyBlocks(mem, d, s, count, 1, 16, job);
    d', s', left := CopyBlocks(mem, d', s', left, 1, 1, job);
  }

  /** The words of 16 bytes, when both addresses are equally far past a multiple of 16. */
  method CopyWide(mem: array<Byte>, d: nat, s: nat, count: nat, ghost job: Job)
    returns (d': nat, s': nat, count': nat)
    requires d % 16 == s % 16 && job.Forward() && count <= job.n
    requires |job.m| == mem.Length && d == job.dest + (job.n - count) && s == job.src + (job.n - count)
    requires job.At(mem[..], job.n - count)
    modifies mem
    ensures count' <= count && d' == d + (count - count') && s' == s + (count - count') && job.At(mem[..], job.n - count')
  {
    hide Job.At, Job.Forward;
    d', s', count' := CopyToAlign(mem, d, s, count, 16, job);
    if count' >= 16 {
      SameRest(d, s, d', s', 16);
      d', s', count' := CopyBlocks(mem, d', s', count', 16, 8, job);
      d', s', count' := CopyBlocks(mem, d', s', count', 16, 2, job);
      d', s', count' := CopyBlocks(mem, d', s', count', 16, 1, job);
    }
  }

  /** Copies between regions that are the same or do not overlap. */
  method MemCpy(mem: array<Byte>, dest: nat, src: nat, count: nat) returns (r: nat)
    requires dest + count <= mem.Length && src + count <= mem.Length
    requires dest == src || dest + count <= src || src + count <= dest
    modifies mem
    ensures r == dest && mem[..] == Moved(old(mem[..]), dest, src, count)
    ensures forall x :: 0 <= x < mem.Length ==> mem[..][x] == old(mem[..])[if dest <= x < dest + count then src + (x - dest) else x]
  {
    hide Job.At, Job.Back, Job.Forward, Job.Valid, Put, Moved;
    MovedAt(mem[..], dest, src, count);
    MovedToItself(mem[..], dest, count);
    if count == 0 || dest == src {
      MovedNone(mem[..], dest, src);
      return dest;
    }
    ghost var job := Job(mem[..], dest, src, count);
    Started(job);
    var d, s, left := dest, src, count;
    if dest % 16 == src % 16 {
      d, s, left := CopyWide(mem, d, s, left, job);
    }
    d, s, left := CopyToAlign(mem, d, s, left, 8, job);
    if left >= 8 {
      d, s, left := CopyWords(mem, d, s, left, false, job);
    }
    CopyRest(mem, d, s, left, job);
    Arrived(job, mem[..]);
    return dest;
  }

  lemma MovedNone(m: seq<Byte>, dest: nat, src: nat)
    requires dest <= |m| && src <= |m|
    ensures Moved(m, dest, src, 0) == m
  {
  }

  lemma Started(job: Job)
    requires job.dest + job.n <= |job.m| && job.src + job.n <= |job.m|
    ensures job.dest <= job.src || job.src + job.n <= job.dest ==> job.Forward() && job.At(job.m, 0)
    ensures job.src <= job.dest ==> job.Valid() && job.Back(job.m, job.n)
  {
  }

  lemma SameRest(dest: nat, src: nat, d: nat, s: nat, u: nat)
    requires u == 16 && dest % u == src % u && d >= dest && s - src == d - dest
    ensures d % u == s % u
  {
    OffsetRest(dest, d - dest, d);
    OffsetRest(src, d - dest, s);
  }

  lemma OffsetRest(a: nat, k: nat, b: nat)
    requires b == a + k
    ensures b % 16 == (a % 16 + k) % 16
  {
  }

  lemma Arrived(job: Job, now: seq<Byte>)
    requires job.At(now, job.n)
    ensures job.Valid() && now == Moved(job.m, job.dest, job.src, job.n)
  {
  }

  // ----- backwards

  /** Source bytes below src + k are still what they were. */
  lemma Behind(job: Job, now: seq<Byte>, k: nat, x: nat, y: nat)
    requires job.Back(now, k) && job.src <= job.dest && job.src <= x <= y <= job.src + k
    ensures |now| == |job.m| && now[x..y] == job.m[x..y]
  {
  }

  /** Storing the u source bytes before s below dest + k takes the copy back by as many. */
  lemma Retreat(job: Job, now: seq<Byte>, k: nat, d: nat, s: nat, e: nat, u: nat)
    requires job.Back(now, k) && u <= k && d + u == job.dest + k && s + u == job.src + k && e == s + u
    ensures e <= |job.m| && d + |job.m[s..e]| <= |now| && job.Back(Put(now, d, job.m[s..e]), k - u)
  {
    hide Put;
    ghost var f := job.src + job.n;
    ghost var after := job.dest + k;
    SliceJoin(job.m, s, e, f);
    PutBefore(job.m, d, after, job.m[s..e], job.m[e..f]);
  }

  lemma SliceJoin(m: seq<Byte>, s: nat, e: nat, f: nat)
    requires s <= e <= f <= |m|
    ensures m[s..e] + m[e..f] == m[s..f]
  {
  }

  lemma PutBefore(m: seq<Byte>, a: nat, b: nat, s: seq<Byte>, t: seq<Byte>)
    requires b == a + |s| && b + |t| <= |m|
    ensures Put(Put(m, b, t), a, s) == Put(m, a, s + t)
  {
  }

  method BackWord(mem: array<Byte>, d: nat, s: nat, u: nat, ghost job: Job, ghost k: nat)
    requires Aligned(d, u) && Aligned(s, u) && job.Back(mem[..], k) && job.src <= job.dest && u <= k
    requires |job.m| == mem.Length && d + u == job.dest + k && s + u == job.src + k
    modifies mem
    ensures job.Back(mem[..], k - u)
  {
    hide Put, FromBytes, ToBytes, Aligned, Job.Back;
    BackBounds(job, mem[..], k);
    var e := s + u;
    Behind(job, mem[..], k, s, e);
    assert mem[..][s..e] == mem[s..e];
    var v := Load(mem, s, u);
    StoredAsLoaded(job.m[s..e]);
    Retreat(job, mem[..], k, d, s, e, u);
    Store(mem, d, u, v);
  }

  lemma BackBounds(job: Job, now: seq<Byte>, k: nat)
    requires job.Back(now, k)
    ensures k <= job.n && job.dest + job.n <= |job.m| && job.src + job.n <= |job.m|
  {
  }

  method BackRun(mem: array<Byte>, d: nat, s: nat, u: nat, words: nat, ghost job: Job, ghost k: nat)
    requires Aligned(d, u) && Aligned(s, u) && job.Back(mem[..], k) && job.src <= job.dest && Bytes(u, words) <= k
    requires |job.m| == mem.Length && d == job.dest + k && s == job.src + k
    modifies mem
    ensures job.Back(mem[..], k - Bytes(u, words))
    ensures Aligned(d - Bytes(u, words), u) && Aligned(s - Bytes(u, words), u)
  {
    hide Bytes, Aligned, Job.Back;
    NoWords(u);
    var p: nat, q: nat, left := d, s, words;
    ghost var j: nat := k;
    while left > 0
      invariant j - Bytes(u, left) == k - Bytes(u, words)
      invariant p == job.dest + j && q == job.src + j && Aligned(p, u) && Aligned(q, u)
      invariant job.Back(mem[..], j)
    {
      OneMoreWord(u, left - 1);
      AlignedBack(p, u);
      AlignedBack(q, u);
      p, q := p - u, q - u;
      BackWord(mem, p, q, u, job, j);
      j, left := j - u, left - 1;
    }
  }

  method BackBlocks(mem: array<Byte>, d: nat, s: nat, count: nat, u: nat, words: nat, ghost job: Job)
    returns (d': nat, s': nat, count': nat)
    requires Aligned(d, u) && Aligned(s, u) && job.Back(mem[..], count) && job.src <= job.dest && Bytes(u, words) > 0
    requires |job.m| == mem.Length && d == job.dest + count && s == job.src + count
    modifies mem
    ensures count' <= count && d' == job.dest + count' && s' == job.src + count' && job.Back(mem[..], count')
    ensures Aligned(d', u) && Aligned(s', u) && count' < Bytes(u, words)
  {
    hide Bytes, Aligned, Job.Back;
    d', s', count' := d, s, count;
    while count' >= Bytes(u, words)
      invariant count' <= count && d' == job.dest + count' && s' == job.src + count'
      invariant job.Back(mem[..], count') && Aligned(d', u) && Aligned(s', u)
    {
      BackRun(mem, d', s', u, words, job, count');
      d', s', count' := d' - Bytes(u, words), s' - Bytes(u, words), count' - Bytes(u, words);
    }
  }

  method BackToAlign(mem: array<Byte>, d: nat, s: nat, count: nat, ghost job: Job)
    returns (d': nat, s': nat, count': nat)
    requires job.Back(mem[..], count) && job.src <= job.dest
    requires |job.m| == mem.Length && d == job.dest + count && s == job.src + count
    modifies mem
    ensures count' <= count && d' == job.dest + count' && s' == job.src + count' && job.Back(mem[..], count')
    ensures count' == 0 || d' % 8 == 0
  {
    hide Job.Back;
    d', s', count' := d, s, count;
    while d' % 8 != 0 && count' > 0
      invariant count' <= count && d' == job.dest + count' && s' == job.src + count' && job.Back(mem[..], count')
      decreases count'
    {
      d', s' := d' - 1, s' - 1;
      BackWord(mem, d', s', 1, job, count');
      count' := count' - 1;
    }
  }

  /** The unaligned word off bytes past an aligned address, from the two words it straddles. */
  method LoadBetween(mem: array<Byte>, a: nat, off: nat) returns (v: nat)
    requires 0 < off < 8 && Aligned(a, 8) && a + 16 <= mem.Length
    ensures v == FromBytes(mem[a + off..a + off + 8])
  {
    hide FromBytes, Merged;
    var b := a + 8;
    var lo := Load(mem, a, 8);
    var hi := Load(mem, b, 8);
    v := Merged(lo, hi, 8 * off);
    ghost var p, q, e := a + off, b + off, b + 8;
    ShiftedOut(mem[a..b], off, 8 * off);
    assert mem[a..b][off..] == mem[p..b];
    MergedIsBetween(lo, mem[p..b], mem[b..e], off, 8 * off);
    assert mem[p..b] + mem[b..e][..off] == mem[p..q];
  }

  /** The words before s, each from its two neighbours. */
  method LoadBack(mem: array<Byte>, s: nat, off: nat, words: nat, ghost job: Job, ghost k: nat) returns (vs: seq<nat>)
    requires 0 < off < 8 && off == s % 8 && job.Back(mem[..], k) && job.src <= job.dest
    requires |job.m| == mem.Length && mem.Length % 8 == 0 && s == job.src + k && 8 * words <= k
    ensures |vs| == words && forall j {:trigger vs[j]} :: 0 <= j < words ==> WordOf(job, vs[j], s - 8 * j - 8)
  {
    hide Job.Back, FromBytes, WordOf;
    BackBounds(job, mem[..], k);
    vs := [];
    var i: nat := 0;
    var q: nat := s;
    while i < words
      invariant i <= words && |vs| == i && q == s - 8 * i
      invariant forall j {:trigger vs[j]} :: 0 <= j < i ==> WordOf(job, vs[j], s - 8 * j - 8)
    {
      var p: nat := q - 8;
      var v := LoadBetween(mem, p - off, off);
      Behind(job, mem[..], k, p, q);
      assert mem[..][p..q] == mem[p..q];
      IsWordOf(job, v, p, q);
      vs := vs + [v];
      i, q := i + 1, p;
    }
  }

  /** Load the words before s, all of them before any store, then store them. */
  method BackMergeRun(mem: array<Byte>, d: nat, s: nat, off: nat, words: nat, ghost job: Job, ghost k: nat)
    requires 0 < off < 8 && off == s % 8 && Aligned(d, 8) && job.Back(mem[..], k) && job.src <= job.dest
    requires |job.m| == mem.Length && mem.Length % 8 == 0 && d == job.dest + k && s == job.src + k && 8 * words <= k
    modifies mem
    ensures job.Back(mem[..], k - 8 * words)
  {
    hide Job.Back, FromBytes, ToBytes, Put, WordOf, Aligned;
    BackBounds(job, mem[..], k);
    var vs := LoadBack(mem, s, off, words, job, k);
    var i: nat, t: nat := 0, d;
    ghost var h: nat, g: nat := k, s;
    while i < words
      invariant i <= words && t == d - 8 * i && h == k - 8 * i && g == s - 8 * i && Aligned(t, 8)
      invariant job.Back(mem[..], h)
    {
      ghost var p: nat := g - 8;
      assert WordOf(job, vs[i], p);
      GetWordOf(job, vs[i], p, g);
      StoredAsLoaded(job.m[p..g]);
      AlignedBack(t, 8);
      t := t - 8;
      Retreat(job, mem[..], h, t, p, g, 8);
      Store(mem, t, 8, vs[i]);
      i, h, g := i + 1, h - 8, p;
    }
  }

  lemma IsWordOf(job: Job, x: nat, a: nat, e: nat)
    requires e == a + 8 <= |job.m| && x == FromBytes(job.m[a..e])
    ensures WordOf(job, x, a)
  {
  }

  lemma GetWordOf(job: Job, x: nat, a: nat, e: nat)
    requires e == a + 8 && WordOf(job, x, a)
    ensures e <= |job.m| && x == FromBytes(job.m[a..e])
  {
  }

  method BackMergeBlocks(mem: array<Byte>, d: nat, s: nat, count: nat, off: nat, words: nat, ghost job: Job)
    returns (d': nat, s': nat, count': nat)
    requires 0 < off < 8 && off == s % 8 && Aligned(d, 8) && job.Back(mem[..], count) && job.src <= job.dest && words > 0
    requires |job.m| == mem.Length && mem.Length % 8 == 0 && d == job.dest + count && s == job.src + count
    modifies mem
    ensures count' <= count && d' == job.dest + count' && s' == job.src + count' && job.Back(mem[..], count')
    ensures off == s' % 8 && Aligned(d', 8)
  {
    hide Job.Back, Aligned;
    d', s', count' := d, s, count;
    while count' >= 8 * words
      invariant count' <= count && d' == job.dest + count' && s' == job.src + count' && job.Back(mem[..], count')
      invariant off == s' % 8 && Aligned(d', 8)
    {
      var block := 8 * words;
      BackMergeRun(mem, d', s', off, words, job, count');
      WordsBack(s', d', words);
      d', s', count' := d' - block, s' - block, count' - block;
    }
  }

  lemma WordsBack(s: nat, d: nat, words: nat)
    requires 8 * words <= s && 8 * words <= d && Aligned(d, 8)
    ensures (s - 8 * words) % 8 == s % 8 && Aligned(d - 8 * words, 8)
  {
  }

  method BackWords(mem: array<Byte>, d: nat, s: nat, count: nat, ghost job: Job)
    returns (d': nat, s': nat, count': nat)
    requires Aligned(d, 8) && job.Back(mem[..], count) && job.src <= job.dest
    requires |job.m| == mem.Length && mem.Length % 8 == 0 && d == job.dest + count && s == job.src + count
    modifies mem
    ensures count' <= count && d' == job.dest + count' && s' == job.src + count' && job.Back(mem[..], count')
  {
    hide Job.Back;
    d', s', count' := d, s, count;
    if s % 8 == 0 {
      d', s', count' := BackBlocks(mem, d', s', count', 8, 16, job);
      d', s', count' := BackBlocks(mem, d', s', count', 8, 4, job);
      d', s', count' := BackBlocks(mem, d', s', count', 8, 1, job);
    } else {
      var off := s % 8;
      d', s', count' := BackMergeBlocks(mem, d', s', count', off, 8, job);
      d', s', count' := BackMergeBlocks(mem, d', s', count', off, 4, job);
      d', s', count' := BackMergeBlocks(mem, d', s', count', off, 1, job);
    }
  }

  lemma BackArrived(job: Job, now: seq<Byte>)
    requires job.Back(now, 0)
    ensures job.Valid() && now == Moved(job.m, job.dest, job.src, job.n)
  {
  }

  /** Copies between any two regions, in memory made of whole words. */
  method MemMove(mem: array<Byte>, dest: nat, src: nat, count: nat) returns (r: nat)
    requires dest + count <= mem.Length && src + count <= mem.Length && mem.Length % 8 == 0
    modifies mem
    ensures r == dest && mem[..] == Moved(old(mem[..]), dest, src, count)
    ensures forall x :: 0 <= x < mem.Length ==> mem[..][x] == old(mem[..])[if dest <= x < dest + count then src + (x - dest) else x]
  {
    hide Job.At, Job.Back, Job.Forward, Job.Valid, Put, Moved;
    MovedAt(mem[..], dest, src, count);
    MovedToItself(mem[..], dest, count);
    if dest == src || count == 0 {
      MovedNone(mem[..], dest, src);
      return dest;
    }
    ghost var job := Job(mem[..], dest, src, count);
    Started(job);
    var d, s, left := dest, src, count;
    if d < s {
      if s - d >= count {
        r := MemCpy(mem, dest, src, count);
        return;
      }
      d, s, left := CopyToAlign(mem, d, s, left, 8, job);
      if left >= 8 {
        d, s, left := CopyWords(mem, d, s, left, true, job);
      }
      CopyRest(mem, d, s, left, job);
      Arrived(job, mem[..]);
      return dest;
    }
    if d - s >= count {
      r := MemCpy(mem, dest, src, count);
      return;
    }
    d, s := d + count, s + count;
    d, s, left := BackToAlign(mem, d, s, left, job);
    if left >= 8 {
      d, s, left := BackWords(mem, d, s, left, job);
    }
    d, s, left := BackBlocks(mem, d, s, left, 1, 1, job);
    BackArrived(job, mem[..]);
    return dest;
  }
}
