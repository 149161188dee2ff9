/** Powers of two, bits of numbers and numbers from bits. */
module Bits {

  function Pow2(n: nat): (r: nat)
    ensures r >= 1
  {
    if n == 0 then 1 else 2 * Pow2(n - 1)
  }

  lemma {:induction false} Pow2Mono(a: nat, b: nat)
    requires a <= b
    ensures Pow2(a) <= Pow2(b)
  {
    if a < b {
      Pow2Mono(a, b - 1);
    }
  }

  lemma Cancel(a: nat, x: nat, y: nat)
    requires a >= 1 && a * x <= a * y
    ensures x <= y
  {
    var d := x - y;
    assert a * x - a * y == a * d;
    assert d >= 1 ==> a * d >= 1;
  }

  lemma Regroup(a: nat, b: nat, c: nat)
    ensures a * (b * c) == (a * b) * c
  {}

  lemma {:induction false} Pow2Add(a: nat, b: nat)
    ensures Pow2(a + b) == Pow2(a) * Pow2(b)
  {
    if a > 0 {
      Pow2Add(a - 1, b);
      assert Pow2(a + b) == 2 * Pow2(a - 1 + b);
      assert 2 * (Pow2(a - 1) * Pow2(b)) == (2 * Pow2(a - 1)) * Pow2(b);
    }
  }

  /** The k-th bit of x. */
  function Bit(x: nat, k: nat): bool {
    if k == 0 then x % 2 == 1 else Bit(x / 2, k - 1)
  }

  /** The number whose bits, least significant first, are s. */
  function Value(s: seq<bool>): (r: nat)
    ensures r < Pow2(|s|)
  {
    if s == [] then 0 else (if s[0] then 1 else 0) + 2 * Value(s[1..])
  }

  lemma MulMono(a: nat, x: nat, y: nat)
    requires x <= y
    ensures a * x <= a * y
  {
    assert a * y - a * x == a * (y - x);
  }

  lemma DivBounds(x: nat, d: nat)
    requires d >= 1
    ensures d * (x / d) <= x < d * (x / d) + d
  {}

  /** The quotient is the only number with its bounds. */
  lemma DivUnique(x: nat, d: nat, q: nat, p: nat)
    requires d >= 1 && p == d * q && p <= x < p + d
    ensures x / d == q
  {
    var r := x / d;
    DivBounds(x, d);
    if r < q {
      MulMono(d, r + 1, q);
    } else if q < r {
      MulMono(d, q + 1, r);
    }
  }

  lemma DivDiv(x: nat, a: nat, b: nat)
    requires a >= 1 && b >= 1
    ensures x / a / b == x / (a * b)
  {
    var q := x / a;
    var u := q / b;
    DivBounds(x, a);
    DivBounds(q, b);
    DivDivBounds(x, a, b, q, u);
    DivUnique(x, a * b, u, a * (b * u));
  }

  lemma DivDivBounds(x: nat, a: nat, b: nat, q: nat, u: nat)
    requires a >= 1 && b >= 1 && a * q <= x < a * q + a && b * u <= q < b * u + b
    ensures a * b >= 1 && (a * b) * u == a * (b * u) <= x < a * (b * u) + a * b
  {
    MulMono(a, b * u, q);
    MulMono(a, q + 1, b * u + b);
    Regroup(a, b, u);
    Distribute(a, b * u, b);
    Distribute(a, q, 1);
    MulMono(a, 1, b);
  }

  lemma Distribute(a: nat, x: nat, y: nat)
    ensures a * (x + y) == a * x + a * y
  {}

  // ---------- Shifts, masks and unions, bit by bit ----------

  function Shr(x: nat, j: nat): nat {
    if j == 0 then x else Shr(x / 2, j - 1)
  }

  function Shl(x: nat, j: nat): nat {
    if j == 0 then x else 2 * Shl(x, j - 1)
  }

  /** The low a bits of x. */
  function Mask(x: nat, a: nat): (r: nat)
    ensures r < Pow2(a)
  {
    if a == 0 then 0 else x % 2 + 2 * Mask(x / 2, a - 1)
  }

  /** Bitwise or. */
  function Or(x: nat, y: nat): nat
    decreases x + y
  {
    if x == 0 && y == 0 then 0 else 2 * Or(x / 2, y / 2) + if x % 2 == 1 || y % 2 == 1 then 1 else 0
  }

  /** Bitwise and. */
  function And(x: nat, y: nat): nat {
    if x == 0 || y == 0 then 0 else 2 * And(x / 2, y / 2) + if x % 2 == 1 && y % 2 == 1 then 1 else 0
  }

  /** And with a run of a ones keeps the low a bits. */
  lemma {:induction false} AndOnes(x: nat, a: nat)
    ensures And(x, Pow2(a) - 1) == Mask(x, a)
    decreases a
  {
    if x == 0 {
      MaskIsRemainder(0, a);
    } else if a > 0 {
      assert (Pow2(a) - 1) / 2 == Pow2(a - 1) - 1;
      AndOnes(x / 2, a - 1);
    }
  }

  lemma {:induction false} ShrIsDivision(x: nat, j: nat)
    ensures Shr(x, j) == x / Pow2(j)
  {
    if j > 0 {
      ShrIsDivision(x / 2, j - 1);
      DivDiv(x, 2, Pow2(j - 1));
    }
  }

  lemma {:induction false} ShlIsProduct(x: nat, j: nat)
    ensures Shl(x, j) == x * Pow2(j)
  {
    if j > 0 {
      ShlIsProduct(x, j - 1);
      Regroup(2, x, Pow2(j - 1));
      Regroup(x, 2, Pow2(j - 1));
    }
  }

  lemma {:induction false} MaskIsRemainder(x: nat, a: nat)
    ensures Mask(x, a) == x % Pow2(a)
  {
    if a > 0 {
      MaskIsRemainder(x / 2, a - 1);
      HalfMod(x, Pow2(a - 1), Pow2(a));
    }
  }

  lemma HalfMod(x: nat, p: nat, d: nat)
    requires p >= 1 && d == 2 * p
    ensures x % d / 2 == x / 2 % p && x % d % 2 == x % 2
  {
    DivMod(x, d);
    HalfRest(x, p, d, x / d, x % d);
  }

  lemma HalfRest(x: nat, p: nat, d: nat, q: nat, y: nat)
    requires p >= 1 && d == 2 * p && x == d * q + y && y < d
    ensures y / 2 == x / 2 % p && y % 2 == x % 2
  {
    var t := p * q;
    Regroup(2, p, q);
    Halves(x, t, y, p);
    DivUnique(x / 2, p, q, t);
    DivMod(x / 2, p);
  }

  lemma Halves(x: nat, t: nat, y: nat, p: nat)
    requires x == 2 * t + y && y < 2 * p
    ensures x / 2 == t + y / 2 && y / 2 < p && x % 2 == y % 2
  {}

  lemma DivMod(x: nat, d: nat)
    requires d >= 1
    ensures x == d * (x / d) + x % d && x % d < d
  {}

  lemma {:induction false} BitShr(x: nat, j: nat, k: nat)
    ensures Bit(Shr(x, j), k) == Bit(x, j + k)
    decreases j
  {
    if j > 0 {
      BitShr(x / 2, j - 1, k);
    }
  }

  lemma {:induction false} BitShl(x: nat, j: nat, k: nat)
    ensures Bit(Shl(x, j), k) == (k >= j && Bit(x, k - j))
    decreases j
  {
    if j > 0 && k > 0 {
      BitShl(x, j - 1, k - 1);
    }
  }

  lemma {:induction false} BitMask(x: nat, a: nat, k: nat)
    ensures Bit(Mask(x, a), k) == (k < a && Bit(x, k))
    decreases k
  {
    if a == 0 {
      BitsAbove(0, 0, k);
    } else if k > 0 {
      BitMask(x / 2, a - 1, k - 1);
    }
  }

  lemma OrHalves(x: nat, y: nat)
    ensures Or(x, y) / 2 == Or(x / 2, y / 2) && (Or(x, y) % 2 == 1 <==> x % 2 == 1 || y % 2 == 1)
  {}

  lemma {:induction false} BitOr(x: nat, y: nat, k: nat)
    ensures Bit(Or(x, y), k) == (Bit(x, k) || Bit(y, k))
    decreases k
  {
    hide Or;
    OrHalves(x, y);
    if k > 0 {
      BitOr(x / 2, y / 2, k - 1);
    }
  }

  lemma {:induction false} OrBelow(x: nat, y: nat, a: nat)
    requires x < Pow2(a) && y < Pow2(a)
    ensures Or(x, y) < Pow2(a)
    decreases a
  {
    if x > 0 || y > 0 {
      OrBelow(x / 2, y / 2, a - 1);
    }
  }

  lemma {:induction false} OrNothing(m: nat)
    ensures Or(0, m) == m
    decreases m
  {
    if m > 0 {
      OrNothing(m / 2);
    }
  }

  lemma OrEven(x: nat, z: nat)
    ensures Or(x, 2 * z) == 2 * Or(x / 2, z) + x % 2
  {
    if x == 0 && z == 0 {
    } else {
      assert 2 * z / 2 == z;
    }
  }

  /** Or of a number below 2^a and a multiple of it is their sum. */
  lemma {:induction false} OrIsSum(x: nat, m: nat, a: nat, y: nat)
    requires x < Pow2(a) && y == m * Pow2(a)
    ensures Or(x, y) == x + y
    decreases a
  {
    hide Or;
    if a == 0 {
      OrNothing(m);
    } else {
      var z := m * Pow2(a - 1);
      Regroup(m, 2, Pow2(a - 1));
      Regroup(2, m, Pow2(a - 1));
      assert y == 2 * z;
      OrIsSum(x / 2, m, a - 1, z);
      OrEven(x, z);
    }
  }

  lemma OrSwap(x: nat, m: nat, a: nat, y: nat)
    requires x < Pow2(a) && y == m * Pow2(a)
    ensures Or(y, x) == x + Pow2(a) * m
  {
    OrCommutes(x, y);
    OrIsSum(x, m, a, y);
  }

  lemma {:induction false} OrCommutes(x: nat, y: nat)
    ensures Or(x, y) == Or(y, x)
    decreases x + y
  {
    if x != 0 || y != 0 {
      OrCommutes(x / 2, y / 2);
    }
  }

  /** A number below 2^a has no bits from a on. */
  lemma {:induction false} BitsAbove(x: nat, a: nat, k: nat)
    requires x < Pow2(a) && a <= k
    ensures !Bit(x, k)
    decreases k
  {
    if k > 0 {
      BitsAbove(x / 2, if a > 0 then a - 1 else 0, k - 1);
    }
  }

  /** A number is known by its bits. */
  lemma {:induction false} FromBits(x: nat, s: seq<bool>)
    requires x < Pow2(|s|) && forall k :: 0 <= k < |s| ==> Bit(x, k) == s[k]
    ensures x == Value(s)
    decreases |s|
  {
    if s != [] {
      assert Bit(x, 0) == s[0];
      forall k | 0 <= k < |s| - 1 ensures Bit(x / 2, k) == s[1..][k] {
        assert Bit(x, k + 1) == s[k + 1];
      }
      FromBits(x / 2, s[1..]);
    }
  }

  lemma Pow2Small()
    ensures Pow2(1) == 2 && Pow2(3) == 8
  {
  }

  lemma Pow2Values()
    ensures Pow2(3) == 8 && Pow2(63) == 0x8000_0000_0000_0000 && Pow2(64) == 0x1_0000_0000_0000_0000
  {
    hide Pow2;
    Pow2Small();
    Pow2Add(3, 3);
    Pow2Add(6, 6);
    Pow2Add(12, 12);
    Pow2Add(24, 24);
    Pow2Add(48, 12);
    Pow2Add(60, 3);
    Pow2Add(63, 1);
  }
}
