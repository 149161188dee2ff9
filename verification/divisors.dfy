/** Greatest common divisors and the multiples they span. */
module Divisors {
  import opened Bits

  function Gcd(a: nat, b: nat): (g: nat)
    ensures a > 0 || b > 0 ==> g > 0
    decreases b
  {
    if b == 0 then a else Gcd(b, a % b)
  }

  lemma Linear(a: nat, b: nat, q: nat, r: nat, x: int, y: int)
    requires a == b * q + r
    ensures b * x + r * y == a * y + b * (x - q * y)
  {
    assert a * y == b * q * y + r * y;
    assert b * (x - q * y) == b * x - b * (q * y);
    assert b * q * y == b * (q * y);
  }

  /** The divisor is a combination of both numbers. */
  lemma {:induction false} Bezout(a: nat, b: nat) returns (x: int, y: int)
    ensures a * x + b * y == Gcd(a, b)
    decreases b
  {
    if b == 0 {
      x, y := 1, 0;
    } else {
      DivMod(a, b);
      var u, v := Bezout(b, a % b);
      Linear(a, b, a / b, a % b, u, v);
      x, y := v, u - a / b * v;
    }
  }

  lemma Combine(g: nat, p: nat, q: nat, b: nat, r: nat, k: nat)
    requires b == g * p && r == g * q
    ensures b * k + r == g * (p * k + q)
  {
    assert g * (p * k + q) == g * (p * k) + g * q;
    assert g * p * k == g * (p * k);
  }

  /** The divisor divides both. */
  lemma {:induction false} Divides(a: nat, b: nat) returns (p: nat, q: nat)
    ensures a == Gcd(a, b) * p && b == Gcd(a, b) * q
    decreases b
  {
    if b == 0 {
      p, q := 1, 0;
    } else {
      DivMod(a, b);
      var u, v := Divides(b, a % b);
      Combine(Gcd(a, b), u, v, b, a % b, a / b);
      p, q := u * (a / b) + v, u;
    }
  }
}
