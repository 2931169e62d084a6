/** Machine integers and the number theory the RSA helpers rely on:
    powers, remainders, divisibility and the greatest common divisor. */
module Arithmetic {

  const UINT32_MAX: int := 0xFFFF_FFFF
  const INT32_MAX: int := 0x7FFF_FFFF

  /** Rust's `u32`. Arithmetic on it is done on unbounded integers; an
      intermediate product is stored in a `uint32` local so that the
      verifier checks it does not overflow. */
  type uint32 = x: int | 0 <= x <= UINT32_MAX

  /** The bit pattern of a signed 32-bit value read as unsigned (`x as u32`). */
  function Wrap32(x: int): (r: uint32)
    ensures -INT32_MAX - 1 <= x < 0 ==> r == x + UINT32_MAX + 1
    ensures 0 <= x <= UINT32_MAX ==> r == x
  {
    x % (UINT32_MAX + 1)
  }

  /** a^k over the unbounded naturals. */
  function Pow(a: nat, k: nat): (r: nat)
    ensures a > 0 ==> r > 0
  {
    if k == 0 then 1 else a * Pow(a, k - 1)
  }

  lemma {:induction false} PowAdd(a: nat, i: nat, j: nat)
    ensures Pow(a, i + j) == Pow(a, i) * Pow(a, j)
  {
    if i > 0 {
      PowAdd(a, i - 1, j);
      calc {
        Pow(a, i + j);
        a * Pow(a, i - 1 + j);
        a * (Pow(a, i - 1) * Pow(a, j));
        (a * Pow(a, i - 1)) * Pow(a, j);
      }
    }
  }

  lemma PowMonotone(a: nat, i: nat, j: nat)
    requires a > 0
    ensures i <= j ==> Pow(a, i) <= Pow(a, j)
  {
    if i <= j {
      PowAdd(a, i, j - i);
      MulMonotone(Pow(a, i), 1, Pow(a, i), Pow(a, j - i));
    }
  }

  // ---------------------------------------------------------------------
  // Euclidean division and remainder

  /** Quotient and remainder are unique. */
  lemma DivModUnique(x: int, d: int, q: int, r: int)
    requires d > 0 && 0 <= r < d && x == d * q + r
    ensures x / d == q && x % d == r
  {
    var k := q - x / d;
    assert d * k == x % d - r;
    assert k >= 1 ==> d * k >= d;
    assert k <= -1 ==> d * k <= -d;
  }

  /** Adding a multiple of the modulus does not change the remainder. */
  lemma AddMultipleMod(v: int, k: int, d: int)
    requires d > 0
    ensures (v + d * k) % d == v % d
  {
    DivModUnique(v + d * k, d, v / d + k, v % d);
  }

  lemma ModIdempotent(x: int, n: int)
    requires n > 0
    ensures (x % n) % n == x % n
  {
    DivModUnique(x % n, n, 0, x % n);
  }

  /** Reducing the left factor first does not change the remainder of a product. */
  lemma MulModLeft(x: int, y: int, n: int)
    requires n > 0
    ensures (x * y) % n == ((x % n) * y) % n
  {
    var q, r := x / n, x % n;
    assert x * y == r * y + n * (q * y) by {
      assert x == n * q + r;
    }
    AddMultipleMod(r * y, q * y, n);
  }

  /** Remainders of products depend only on the remainders of the factors. */
  lemma MulModCongruent(x: int, y: int, u: int, v: int, n: int)
    requires n > 0 && x % n == u % n && y % n == v % n
    ensures (x * y) % n == (u * v) % n
  {
    MulModLeft(x, y, n);
    MulModLeft(y, x % n, n);
    MulModLeft(u, v, n);
    MulModLeft(v, u % n, n);
    assert (x % n) * y == y * (x % n) && (u % n) * v == v * (u % n);
    assert (y % n) * (x % n) == (v % n) * (u % n);
  }

  /** x / (u * v) == (x / u) / v: shifting right twice is one longer shift. */
  lemma DivDiv(x: nat, u: nat, v: nat)
    requires u > 0 && v > 0
    ensures x / (u * v) == (x / u) / v
  {
    var q1, r1 := x / u, x % u;
    var q2, r2 := q1 / v, q1 % v;
    assert x == u * q1 + r1;
    assert q1 == v * q2 + r2;
    assert u * q1 == u * (v * q2) + u * r2;
    assert u * (v * q2) == (u * v) * q2;
    MulMonotone(u, r2, u, v - 1);
    assert u * (v - 1) + u == u * v;
    DivModUnique(x, u * v, q2, u * r2 + r1);
  }

  lemma MulMonotone(x: nat, y: nat, xMax: nat, yMax: nat)
    requires x <= xMax && y <= yMax
    ensures x * y <= xMax * yMax
  {
    assert x * y <= xMax * y;
  }

  // ---------------------------------------------------------------------
  // Divisibility and the greatest common divisor

  /** d is a positive divisor of x. */
  predicate Divides(d: int, x: int)
  {
    d > 0 && x % d == 0
  }

  /** The pairs (x, y) and (u, v) have the same common divisors, and
      hence the same greatest common divisor. */
  ghost predicate SameCommonDivisors(x: int, y: int, u: int, v: int)
  {
    forall d :: Divides(d, x) && Divides(d, y) <==> Divides(d, u) && Divides(d, v)
  }

  /** g is the greatest common divisor of a and b: a common divisor that
      every common divisor divides. */
  ghost predicate IsGcd(g: int, a: int, b: int)
  {
    Divides(g, a) && Divides(g, b) &&
    forall d :: Divides(d, a) && Divides(d, b) ==> Divides(d, g)
  }

  /** a and b have no common divisor but 1. */
  ghost predicate Coprime(a: int, b: int)
  {
    forall d :: Divides(d, a) && Divides(d, b) ==> d == 1
  }

  /** A divisor of a positive number is at most that number. */
  lemma DividesBound(d: int, x: int)
    requires Divides(d, x) && x > 0
    ensures d <= x
  {
    var k := x / d;
    assert x == d * k;
    assert k >= 1;
    assert d * k >= d * 1;
  }

  lemma DividesSelf(x: int)
    requires x > 0
    ensures Divides(x, x)
  {
    DivModUnique(x, x, 1, 0);
  }

  /** If d divides y, it divides x + k * y exactly when it divides x. */
  lemma DividesCombination(d: int, x: int, y: int, k: int)
    requires Divides(d, y)
    ensures Divides(d, x + k * y) <==> Divides(d, x)
  {
    var j := y / d;
    assert k * y == d * (k * j) by {
      assert y == d * j;
    }
    AddMultipleMod(x, k * j, d);
  }

  /** Replacing (x, y) by (y, x - q * y) keeps the common divisors: the
      step shared by both Euclidean algorithms. */
  lemma RemainderStep(x: int, y: int, q: int)
    ensures SameCommonDivisors(y, x - q * y, x, y)
  {
    forall d
      ensures Divides(d, y) && Divides(d, x - q * y) <==> Divides(d, x) && Divides(d, y)
    {
      if Divides(d, y) {
        DividesCombination(d, x, y, -q);
        assert x + -q * y == x - q * y;
      }
    }
  }

  /** The greatest common divisor, by Euclid's recurrence. */
  function Gcd(a: nat, b: nat): nat
    decreases b
  {
    if b == 0 then a else Gcd(b, a % b)
  }

  /** Euclid's recurrence computes the greatest common divisor. */
  lemma {:induction false} GcdIsGreatest(a: nat, b: nat)
    requires a > 0 || b > 0
    ensures IsGcd(Gcd(a, b), a, b)
    ensures forall d :: Divides(d, a) && Divides(d, b) ==> d <= Gcd(a, b)
    decreases b
  {
    var g := Gcd(a, b);
    if b == 0 {
      DividesSelf(a);
    } else {
      GcdIsGreatest(b, a % b);
      RemainderStep(a, b, a / b);
      assert a - a / b * b == a % b;
    }
    forall d | Divides(d, a) && Divides(d, b)
      ensures d <= g
    {
      DividesBound(d, g);
    }
  }

  /** The greatest common divisor is unique. */
  lemma GcdUnique(g: int, h: int, a: int, b: int)
    requires IsGcd(g, a, b) && IsGcd(h, a, b)
    ensures g == h
  {
    DividesBound(g, h);
    DividesBound(h, g);
  }

  /** The greatest common divisor does not depend on the order of its
      arguments. */
  lemma GcdSymmetric(a: nat, b: nat)
    requires a > 0 || b > 0
    ensures Gcd(a, b) == Gcd(b, a)
  {
    GcdIsGreatest(a, b);
    GcdIsGreatest(b, a);
    GcdUnique(Gcd(a, b), Gcd(b, a), a, b);
  }

  /** The only positive divisor of 1 is 1. */
  lemma DividesOne(d: int)
    requires Divides(d, 1)
    ensures d == 1
  {
    DividesBound(d, 1);
  }

  /** Coprimality is the greatest common divisor being 1. */
  lemma CoprimeIffGcdOne(a: nat, b: nat)
    requires a > 0 || b > 0
    ensures Coprime(a, b) <==> Gcd(a, b) == 1
  {
    GcdIsGreatest(a, b);
    var g := Gcd(a, b);
    if g == 1 {
      forall d | Divides(d, a) && Divides(d, b)
        ensures d == 1
      {
        DividesOne(d);
      }
    }
  }
}
