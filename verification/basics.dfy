/** Machine words and sequences, as several parts of the library use them. */
module Basics {

  type Byte = x: nat | x < 256

  /** One more than the largest 32-bit and 64-bit word. */
  const WORD32: nat := 0x1_0000_0000
  const WORD64: nat := 0x1_0000_0000_0000_0000

  predicate IsHex(c: char) {
    '0' <= c <= '9' || 'a' <= c <= 'f' || 'A' <= c <= 'F'
  }

  lemma SliceOfSlice<X>(s: seq<X>, a: nat, b: nat, k: nat, l: nat)
    requires k <= l && a + l <= b <= |s|
    ensures s[a..b][k..l] == s[a + k..a + l]
  {
    forall x | 0 <= x < l - k ensures s[a..b][k..l][x] == s[a + k..a + l][x] {
      assert s[a..b][k + x] == s[a + (k + x)];
    }
  }

  lemma SliceFront<X>(s: seq<X>, a: nat, b: nat, l: nat)
    requires a + l <= b <= |s|
    ensures s[a..b][..l] == s[a..a + l]
  {
    SliceOfSlice(s, a, b, 0, l);
  }

  /** s without its i-th element. */
  function Without<X>(s: seq<X>, i: nat): (r: seq<X>)
    requires i < |s|
    ensures |r| == |s| - 1
  {
    s[..i] + s[i + 1..]
  }

  lemma WithoutAt<X>(s: seq<X>, i: nat)
    requires i < |s|
    ensures forall k :: 0 <= k < |s| - 1 ==> Without(s, i)[k] == s[if k < i then k else k + 1]
  {}

  function Reversed<X>(s: seq<X>): (r: seq<X>)
    ensures |r| == |s|
  {
    if s == [] then [] else Reversed(s[1..]) + [s[0]]
  }

  lemma {:induction false} ReversedAt<X>(s: seq<X>)
    ensures forall k :: 0 <= k < |s| ==> Reversed(s)[k] == s[|s| - 1 - k]
  {
    if s != [] {
      ReversedAt(s[1..]);
    }
  }

  lemma ReversedTwice<X>(s: seq<X>)
    ensures Reversed(Reversed(s)) == s
  {
    ReversedAt(s);
    ReversedAt(Reversed(s));
  }

  lemma {:induction false} ReversedJoin<X>(s: seq<X>, t: seq<X>)
    ensures Reversed(s + t) == Reversed(t) + Reversed(s)
  {
    if s == [] {
      assert s + t == t;
    } else {
      assert (s + t)[1..] == s[1..] + t;
      ReversedJoin(s[1..], t);
    }
  }

  lemma ReversedNext<X>(s: seq<X>, x: X)
    ensures Reversed(s + [x]) == [x] + Reversed(s)
  {
    ReversedJoin(s, [x]);
    assert [x][1..] == [];
  }
}
