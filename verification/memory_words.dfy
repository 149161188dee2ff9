/** Bytes in memory and the little-endian words loaded from and stored to them. */
module MemoryWords {
  import opened Basics
  import opened Bits

  /** The word some bytes load as. */
  function FromBytes(s: seq<Byte>): nat {
    if s == [] then 0 else s[0] + 256 * FromBytes(s[1..])
  }

  /** The bytes a word of n bytes is stored as. */
  function ToBytes(v: nat, n: nat): (s: seq<Byte>)
    ensures |s| == n
  {
    if n == 0 then [] else [v % 256] + ToBytes(v / 256, n - 1)
  }

  lemma {:induction false} StoredAsLoaded(s: seq<Byte>)
    ensures ToBytes(FromBytes(s), |s|) == s
  {
    if s != [] {
      StoredAsLoaded(s[1..]);
      ByteSplit(s[0], FromBytes(s[1..]));
    }
  }

  lemma ByteSplit(b: Byte, v: nat)
    ensures (b + 256 * v) % 256 == b && (b + 256 * v) / 256 == v
  {
  }

  /** Two runs of bytes load the same word only if they are the same. */
  lemma LoadsTellApart(s: seq<Byte>, t: seq<Byte>)
    requires |s| == |t| && FromBytes(s) == FromBytes(t)
    ensures s == t
  {
    StoredAsLoaded(s);
    StoredAsLoaded(t);
  }

  /** 2 to the number of bits in n bytes. */
  function Span(n: nat): (r: nat)
    ensures r >= 1
  {
    Pow2(8 * n)
  }

  lemma SpanNext(n: nat)
    ensures Span(n + 1) == 256 * Span(n)
  {
    Pow2Add(8, 8 * n);
    assert Pow2(8) == 256;
  }

  lemma {:induction false} WordBound(s: seq<Byte>)
    ensures FromBytes(s) < Span(|s|)
  {
    if s != [] {
      WordBound(s[1..]);
      SpanNext(|s| - 1);
    }
  }

  lemma {:induction false} WordAppend(s: seq<Byte>, t: seq<Byte>)
    ensures FromBytes(s + t) == FromBytes(s) + Span(|s|) * FromBytes(t)
  {
    if s == [] {
      assert s + t == t;
    } else {
      WordAppend(s[1..], t);
      assert (s + t)[1..] == s[1..] + t;
      SpanNext(|s| - 1);
      Scale256(Span(|s| - 1), FromBytes(t));
    }
  }

  lemma Scale256(a: nat, b: nat)
    ensures 256 * (a * b) == (256 * a) * b
  {
  }

  /** What shifting a word right by k bytes leaves. */
  lemma ShiftedOut(s: seq<Byte>, k: nat, b: nat)
    requires k <= |s| && b == 8 * k
    ensures Shr(FromBytes(s), b) == FromBytes(s[k..])
  {
    hide FromBytes, Shr, Pow2;
    assert s == s[..k] + s[k..];
    WordAppend(s[..k], s[k..]);
    WordBound(s[..k]);
    ShrIsDivision(FromBytes(s), b);
    DivUnique(FromBytes(s), Span(k), FromBytes(s[k..]), Span(k) * FromBytes(s[k..]));
  }

  /** What shifting a word of 8 bytes left, by all but k of them, leaves in 64 bits. */
  lemma ShiftedIn(s: seq<Byte>, k: nat, b: nat)
    requires k <= 8 == |s| && b == 64 - 8 * k
    ensures Shl(FromBytes(s), b) % Pow2(64) == FromBytes(s[..k]) * Pow2(b)
  {
    hide FromBytes, Shl, Pow2;
    var x, z := FromBytes(s[..k]), FromBytes(s[k..]);
    assert s == s[..k] + s[k..];
    WordAppend(s[..k], s[k..]);
    WordBound(s[..k]);
    ShlIsProduct(FromBytes(s), b);
    Pow2Add(8 * k, b);
    Parts(x, Span(k), z, Pow2(b));
    Remainder(x * Pow2(b), Pow2(64), z);
  }

  lemma Parts(x: nat, a: nat, z: nat, p: nat)
    requires x < a && p >= 1
    ensures (x + a * z) * p == x * p + (a * p) * z
    ensures x * p < a * p
  {
    assert (a - x) * p >= 1;
  }

  lemma Remainder(y: nat, m: nat, z: nat)
    requires y < m
    ensures (y + m * z) % m == y
  {
    DivUnique(y + m * z, m, z, m * z);
    DivMod(y + m * z, m);
  }

  /**
   * The shift-and-merge of two neighbouring words, in 64 bits. With lo's bytes from k on and hi's k low
   * bytes it is the unaligned word in between.
   */
  function Merged(lo: nat, hi: nat, shift: nat): nat
    requires shift <= 64
  {
    Or(Shr(lo, shift), Shl(hi, 64 - shift) % Pow2(64))
  }

  lemma MergedIsBetween(lo: nat, top: seq<Byte>, hi: seq<Byte>, k: nat, shift: nat)
    requires k <= 8 == |hi| && |top| == 8 - k && shift == 8 * k && Shr(lo, shift) == FromBytes(top)
    ensures Merged(lo, FromBytes(hi), shift) == FromBytes(top + hi[..k])
  {
    hide FromBytes, Shl, Shr, Or, Pow2;
    var b := 64 - shift;
    ShiftedIn(hi, k, b);
    WordBound(top);
    WordAppend(top, hi[..k]);
    OrIsSum(FromBytes(top), FromBytes(hi[..k]), b, FromBytes(hi[..k]) * Pow2(b));
  }

  // ----- memory as an array of bytes, addressed from 0

  /** Memory with s written at a. */
  function Put(m: seq<Byte>, a: nat, s: seq<Byte>): (r: seq<Byte>)
    requires a + |s| <= |m|
    ensures |r| == |m|
    ensures forall x :: 0 <= x < |m| ==> r[x] == if a <= x < a + |s| then s[x - a] else m[x]
  {
    m[..a] + s + m[a + |s|..]
  }

  /** A byte, or a word of 8 or 16 bytes at a multiple of its size. */
  predicate Aligned(a: nat, n: nat) {
    n == 1 || (n == 8 && a % 8 == 0) || (n == 16 && a % 16 == 0)
  }

  lemma AlignedNext(a: nat, u: nat)
    requires Aligned(a, u)
    ensures Aligned(a + u, u)
  {
  }

  lemma AlignedBack(a: nat, u: nat)
    requires Aligned(a, u) && u <= a
    ensures Aligned(a - u, u)
  {
  }

  lemma AlignedLeft(a: nat, u: nat)
    requires Aligned(a, u) && a > 0
    ensures u <= a && Aligned(a - u, u)
  {
  }

  /** Load an aligned word of n bytes. */
  method Load(mem: array<Byte>, a: nat, n: nat) returns (v: nat)
    requires Aligned(a, n) && a + n <= mem.Length
    ensures v == FromBytes(mem[a..a + n])
  {
    v := FromBytes(mem[a..a + n]);
  }

  /** Store an aligned word of n bytes. */
  method Store(mem: array<Byte>, a: nat, n: nat, v: nat)
    requires Aligned(a, n) && a + n <= mem.Length
    modifies mem
    ensures mem[..] == Put(old(mem[..]), a, ToBytes(v, n))
  {
    var s := ToBytes(v, n);
    forall i | 0 <= i < n {
      mem[a + i] := s[i];
    }
    assert forall x :: 0 <= x < mem.Length ==> mem[x] == Put(old(mem[..]), a, s)[x] by {
      forall x | 0 <= x < mem.Length ensures mem[x] == Put(old(mem[..]), a, s)[x] {
        if a <= x < a + n {
          assert mem[a + (x - a)] == s[x - a];
        }
      }
    }
  }
}
