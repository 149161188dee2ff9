/** Rounding a capacity up to a power of two by smearing its highest bit downwards. */
module HashCapacity {
  import opened Basics
  import opened Bits

  /** One line of the smearing, x |= x >> s. */
  function Smear(x: nat, s: nat): nat {
    Or(x, Shr(x, s))
  }

  function Smeared(x: nat): nat {
    Smear(Smear(Smear(Smear(Smear(Smear(x, 1), 2), 4), 8), 16), 32)
  }

  /** In 64-bit words, so the last increment may wrap. */
  function NextPow2(x: nat): nat
    requires x < WORD64
  {
    if x < 8 then 8 else (Smeared(x - 1) + 1) % WORD64
  }

  /** x has n bits, and its highest w bits, or all of them, are ones. */
  ghost predicate TopOnes(x: nat, n: nat, w: nat) {
    x < Pow2(n) && forall k: nat :: k < n <= k + w ==> Bit(x, k)
  }

  lemma ShrBelow(x: nat, s: nat)
    ensures Shr(x, s) <= x
  {
    ShrIsDivision(x, s);
    DivMod(x, Pow2(s));
    MulMono(x / Pow2(s), 1, Pow2(s));
  }

  /** Each line doubles the run of ones at the top. */
  lemma SmearDoubles(x: nat, n: nat, w: nat)
    requires TopOnes(x, n, w)
    ensures TopOnes(Smear(x, w), n, 2 * w)
  {
    ShrBelow(x, w);
    OrBelow(x, Shr(x, w), n);
    forall k: nat | k < n <= k + 2 * w ensures Bit(Smear(x, w), k) {
      BitOr(x, Shr(x, w), k);
      BitShr(x, w, k);
    }
  }

  /** A number of n bits that are all ones. */
  lemma {:induction false} AllOnes(x: nat, n: nat)
    requires x < Pow2(n) && forall k: nat :: k < n ==> Bit(x, k)
    ensures x == Pow2(n) - 1
  {
    if n > 0 {
      assert Bit(x, 0);
      forall k: nat | k < n - 1 ensures Bit(x / 2, k) {
        assert Bit(x, k + 1);
      }
      AllOnes(x / 2, n - 1);
    }
  }

  /** The highest bit of x is bit n - 1. */
  lemma {:induction false} TopBit(x: nat, n: nat)
    requires n > 0 && Pow2(n - 1) <= x < Pow2(n)
    ensures TopOnes(x, n, 1)
    decreases n
  {
    if n > 1 {
      TopBit(x / 2, n - 1);
      assert Bit(x / 2, n - 2);
    }
    assert Bit(x, n - 1);
  }

  lemma SmearedIsOnes(x: nat, n: nat)
    requires 0 < n <= 64 && Pow2(n - 1) <= x < Pow2(n)
    ensures Smeared(x) == Pow2(n) - 1
  {
    hide Smear;
    TopBit(x, n);
    var a := Smear(x, 1);
    SmearDoubles(x, n, 1);
    var b := Smear(a, 2);
    SmearDoubles(a, n, 2);
    var c := Smear(b, 4);
    SmearDoubles(b, n, 4);
    var d := Smear(c, 8);
    SmearDoubles(c, n, 8);
    var e := Smear(d, 16);
    SmearDoubles(d, n, 16);
    var f := Smear(e, 32);
    SmearDoubles(e, n, 32);
    AllOnes(f, n);
  }

  lemma {:induction false} HasTopBit(x: nat, m: nat) returns (n: nat)
    requires 0 < x < Pow2(m)
    ensures 0 < n <= m && Pow2(n - 1) <= x < Pow2(n)
    decreases m
  {
    n := m;
    if x < Pow2(m - 1) {
      n := HasTopBit(x, m - 1);
    }
  }

  /** The result is the least power of two not below x and 8, except that it wraps to 0 above 2^63. */
  lemma NextPow2IsLeast(x: nat) returns (n: nat)
    requires x < WORD64
    ensures 3 <= n <= 64 && NextPow2(x) == (if n == 64 then 0 else Pow2(n))
    ensures x <= Pow2(n) && (n == 3 || Pow2(n - 1) < x)
    ensures NextPow2(x) == 0 <==> x > Pow2(63)
  {
    hide Smeared;
    Pow2Values();
    if x < 8 {
      n := 3;
    } else {
      n := HasTopBit(x - 1, 64);
      SmearedIsOnes(x - 1, n);
      if n < 3 {
        Pow2Mono(n, 2);
      } else if n < 64 {
        Pow2Mono(n, 63);
      }
    }
  }

  /** A power of two from 8 up is its own rounding. */
  lemma NextPow2OfPower(n: nat)
    requires 3 <= n < 64
    ensures Pow2(n) < WORD64 && NextPow2(Pow2(n)) == Pow2(n)
  {
    hide NextPow2;
    Pow2Values();
    Pow2Mono(n, 63);
    assert Pow2(n) < WORD64;
    var m := NextPow2IsLeast(Pow2(n));
    if m < n {
      Pow2Mono(m, n - 1);
    } else if n < m {
      Pow2Mono(n, m - 1);
    }
  }
}
