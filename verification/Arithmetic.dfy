/** Facts about products, quotients and remainders that the verifier does not find by itself. */
module Arithmetic {

  function Abs(n: int): nat {
    if n < 0 then 0 - n else n
  }

  lemma Commute(a: int, b: int)
    ensures a * b == b * a
  {
  }

  lemma Distribute(a: int, b: int, c: int)
    ensures a * (b + c) == a * b + a * c
  {
  }

  /** Distinct multiples of n are at least n apart. */
  lemma FactorGap(n: nat, q: int, p: int)
    requires q < p
    ensures n * q + n <= n * p
  {
    Distribute(n, q, p - q);
    assert n * (p - q - 1) >= 0;
    Distribute(n, p - q - 1, 1);
  }

  lemma FactorOrder(n: nat, q: int, p: int)
    requires q <= p
    ensures n * q <= n * p
  {
    if q < p {
      FactorGap(n, q, p);
    }
  }

  /** Quotient and remainder are the only decomposition of their kind. */
  lemma DivModUnique(a: int, n: nat, q: int, r: int)
    requires 0 <= r < n && a == n * q + r
    ensures a / n == q && a % n == r
  {
    if q < a / n {
      FactorGap(n, q, a / n);
      assert false;
    }
    if a / n < q {
      FactorGap(n, a / n, q);
      assert false;
    }
  }

  lemma ModuloShift(a: int, n: nat)
    requires 0 < n
    ensures (a + n) % n == a % n
  {
    Distribute(n, a / n, 1);
    DivModUnique(a + n, n, a / n + 1, a % n);
  }

  lemma ModuloOne(a: int)
    ensures a % 1 == 0
  {
  }

  lemma SumModulo(a: nat, b: nat, n: nat)
    requires 0 < n
    ensures (a % n + b) % n == (a + b) % n
  {
    var q, r := (a % n + b) / n, (a % n + b) % n;
    Distribute(n, a / n, q);
    DivModUnique(a + b, n, a / n + q, r);
  }

  /** A multiple below another one is at least one factor below it. */
  lemma FactorBelow(g: nat, a: int, b: int)
    requires g * a < g * b
    ensures g * a + g <= g * b
  {
    if b <= a {
      FactorOrder(g, b, a);
      assert false;
    }
    FactorGap(g, a, b);
  }

  /** The greatest common divisor. */
  function Gcd(a: nat, b: nat): nat
    decreases b
  {
    if b == 0 then a else Gcd(b, a % b)
  }

  /** The greatest common divisor as a combination of the two numbers. */
  lemma {:induction false} Bezout(a: nat, b: nat) returns (x: int, y: int)
    ensures a * x + b * y == Gcd(a, b)
    decreases b
  {
    if b == 0 {
      x, y := 1, 0;
    } else {
      var u, v := Bezout(b, a % b);
      x, y := v, u - a / b * v;
      BezoutStep(a, b, a / b, a % b, u, v);
    }
  }

  lemma BezoutStep(a: int, b: int, q: int, r: int, u: int, v: int)
    requires a == b * q + r
    ensures a * v + b * (u - q * v) == b * u + r * v
  {
  }

  /** It divides both numbers. */
  lemma {:induction false} GcdDivides(a: nat, b: nat) returns (s: nat, t: nat)
    requires 0 < a || 0 < b
    ensures 0 < Gcd(a, b) && a == Gcd(a, b) * s && b == Gcd(a, b) * t
    decreases b
  {
    if b == 0 {
      s, t := 1, 0;
    } else {
      var u, v := GcdDivides(b, a % b);
      s, t := a / b * u + v, u;
      MultipleStep(a, b, a / b, a % b, Gcd(a, b), u, v);
    }
  }

  lemma MultipleStep(a: int, b: int, q: int, r: int, g: int, u: int, v: int)
    requires a == b * q + r && b == g * u && r == g * v
    ensures a == g * (q * u + v)
  {
    Distribute(g, q * u, v);
  }
}
