/** `extended_euclid`: the extended Euclidean algorithm over two signed
    triples, used to find the private exponent as the inverse of e modulo
    phi(n) (src/main.rs:89-118). */
module ExtendedEuclid {
  import opened Wrappers
  import opened Arithmetic

  /** Rust's `/` on `i32`, which truncates toward zero. */
  function TruncDiv(x: int, y: int): (q: int)
    requires y != 0
    ensures x >= 0 && y > 0 ==> q == x / y
  {
    var magnitude := (if x < 0 then -x else x) / (if y < 0 then -y else y);
    if (x < 0) == (y < 0) then magnitude else -magnitude
  }

  /** On non-negative operands the truncated quotient leaves the Euclidean
      remainder. */
  lemma TruncRemainder(x: int, y: int)
    requires x >= 0 && y > 0
    ensures x - TruncDiv(x, y) * y == x % y
  {
    assert x == y * (x / y) + x % y;
  }

  /** What holds of the two triples (a1, a2, a3) and (b1, b2, b3) at the
      head of every iteration for inputs (m, b): each is a Bézout
      combination x1 * m + x2 * b == x3, the remainders are non-negative,
      and (a3, b3) has the common divisors of (m, b), so the same gcd. */
  ghost predicate Invariant(m: nat, b: nat, a1: int, a2: int, a3: int, b1: int, b2: int, b3: int)
  {
    a1 * m + a2 * b == a3 && b1 * m + b2 * b == b3 &&
    a3 >= 0 && b3 >= 0 &&
    SameCommonDivisors(a3, b3, m, b)
  }

  /** What the loop returns when started from the given triples: the
      coefficient b2 once b3 reaches 1, nothing once b3 reaches 0. */
  function Solve(a1: int, a2: int, a3: nat, b1: int, b2: int, b3: nat): Option<int>
    decreases b3
  {
    if b3 == 0 then None
    else if b3 == 1 then Some(b2)
    else
      var q := TruncDiv(a3, b3);
      Solve(b1, b2, b3, a1 - q * b1, a2 - q * b2, a3 - q * b3)
  }

  lemma InitialInvariant(m: nat, b: nat)
    ensures Invariant(m, b, 1, 0, m, 0, 1, b)
  {
  }

  /** One iteration keeps the invariant, and the new b3 = a3 mod b3 is
      smaller than the old one. */
  lemma StepKeepsInvariant(m: nat, b: nat, a1: int, a2: int, a3: int, b1: int, b2: int, b3: int)
    requires Invariant(m, b, a1, a2, a3, b1, b2, b3) && b3 > 0
    ensures var q := TruncDiv(a3, b3);
      Invariant(m, b, b1, b2, b3, a1 - q * b1, a2 - q * b2, a3 - q * b3) && a3 - q * b3 < b3
  {
    var q := TruncDiv(a3, b3);
    RemainderStep(a3, b3, q);
    assert (a1 - q * b1) * m + (a2 - q * b2) * b == (a1 * m + a2 * b) - q * (b1 * m + b2 * b);
  }

  /** From any state satisfying the invariant, the loop gives up exactly
      when m and b are not coprime (or in the one state (a3, b3) == (1, 0),
      which only the inputs m == 1, b == 0 start in), and otherwise returns
      an x with b * x == 1 modulo m. */
  lemma {:induction false} SolveCorrect(m: nat, b: nat, a1: int, a2: int, a3: nat, b1: int, b2: int, b3: nat)
    requires Invariant(m, b, a1, a2, a3, b1, b2, b3)
    ensures var r := Solve(a1, a2, a3, b1, b2, b3);
      && (r.None? <==> !Coprime(m, b) || (a3 == 1 && b3 == 0))
      && (r.Some? && m > 0 ==> (b * r.value) % m == 1 % m)
      && (r.Some? && m == 0 ==> r.value == 1)
    decreases b3
  {
    if b3 == 0 {
      if a3 == 1 {
        forall d | Divides(d, m) && Divides(d, b)
          ensures d == 1
        {
          DividesOne(d);
        }
      } else if a3 == 0 {
        assert Divides(2, a3) && Divides(2, b3);
      } else {
        DividesSelf(a3);
        assert Divides(a3, a3) && Divides(a3, b3);
      }
    } else if b3 == 1 {
      forall d | Divides(d, m) && Divides(d, b)
        ensures d == 1
      {
        DividesOne(d);
      }
      if m > 0 {
        assert b * b2 == 1 + m * -b1;
        AddMultipleMod(1, -b1, m);
      }
    } else {
      StepKeepsInvariant(m, b, a1, a2, a3, b1, b2, b3);
      var q := TruncDiv(a3, b3);
      SolveCorrect(m, b, b1, b2, b3, a1 - q * b1, a2 - q * b2, a3 - q * b3);
    }
  }

  /** The value `extended_euclid(m, b)` computes before its final cast: the
      coefficient of b in Bézout's identity, that is an inverse of b modulo
      m, or None when there is none. The inputs m == 1, b == 0 also give
      None although they are coprime: b3 is 0 before anything is tried. */
  function Bezout(m: nat, b: nat): (r: Option<int>)
    ensures r.None? <==> !Coprime(m, b) || (m == 1 && b == 0)
    ensures r.Some? && m > 0 ==> (b * r.value) % m == 1 % m
    ensures r.Some? && m == 0 ==> r.value == 1
  {
    InitialInvariant(m, b);
    SolveCorrect(m, b, 1, 0, m, 0, 1, b);
    Solve(1, 0, m, 0, 1, b)
  }

  /** The loop of `extended_euclid`, returning the signed coefficient b2.
      The `as i32` casts of the inputs need m and b below 2^31. */
  method BezoutCoefficient(m: uint32, b: uint32) returns (r: Option<int>)
    requires m <= INT32_MAX && b <= INT32_MAX
    ensures r == Bezout(m, b)
  {
    var a1, a2, a3 := 1, 0, m as int;
    var b1, b2, b3 := 0, 1, b as int;
    while true
      invariant a3 >= 0 && b3 >= 0
      invariant Solve(a1, a2, a3, b1, b2, b3) == Bezout(m, b)
      decreases b3
    {
      if b3 == 0 {
        return None;
      }
      if b3 == 1 {
        return Some(b2);
      }
      var q := TruncDiv(a3, b3);
      var t1 := a1 - q * b1;
      var t2 := a2 - q * b2;
      TruncRemainder(a3, b3);
      var t3 := a3 - q * b3;
      a1, a2, a3 := b1, b2, b3;
      b1, b2, b3 := t1, t2, t3;
    }
  }

  /** The value `extended_euclid(m, b)` returns as written: the coefficient
      is cast with `b2 as u32` and not reduced modulo m, so a negative
      coefficient comes back as b2 + 2^32, which is in general not an
      inverse of b modulo m (see `CastBreaksInverse`). */
  function CastCoefficient(m: uint32, b: uint32): (r: Option<uint32>)
    ensures r.None? <==> !Coprime(m, b) || (m == 1 && b == 0)
    ensures r.Some? ==> Bezout(m, b).Some? && r.value == Wrap32(Bezout(m, b).value)
  {
    match Bezout(m, b)
    case None => None
    case Some(x) => Some(Wrap32(x))
  }

  /** The cast does no harm when the coefficient already lies in [0, m):
      then the as-written and the corrected result agree. */
  lemma CastAgreesInRange(m: uint32, b: uint32)
    requires Bezout(m, b).Some? && 0 <= Bezout(m, b).value < m
    ensures CastCoefficient(m, b) == Inverse(m, b)
  {
    var x := Bezout(m, b).value;
    DivModUnique(x, m, 0, x);
  }

  /** `extended_euclid` as written: the loop, then the unreduced cast. */
  method ExtendedEuclid(m: uint32, b: uint32) returns (r: Option<uint32>)
    requires m <= INT32_MAX && b <= INT32_MAX
    ensures r == CastCoefficient(m, b)
  {
    var x := BezoutCoefficient(m, b);
    match x
    case None => r := None;
    case Some(b2) => r := Some(Wrap32(b2));
  }

  /** The inverse the decrypting caller needs: the Bézout coefficient
      reduced into [0, m). */
  function Inverse(m: uint32, b: uint32): (r: Option<uint32>)
    ensures r.None? <==> !Coprime(m, b) || (m == 1 && b == 0)
    ensures r.Some? && m > 0 ==> r.value < m && (b * r.value) % m == 1 % m
  {
    match Bezout(m, b)
    case None => None
    case Some(x) =>
      if m == 0 then Some(x)
      else
        ReducedInverse(b, x, m);
        Some(x % m)
  }

  /** Reducing an inverse modulo m leaves an inverse. */
  lemma ReducedInverse(b: int, x: int, m: int)
    requires m > 0 && (b * x) % m == 1 % m
    ensures (b * (x % m)) % m == 1 % m
  {
    ModIdempotent(x, m);
    MulModCongruent(b, x % m, b, x, m);
  }

  /** `extended_euclid` with the coefficient reduced modulo m before it
      leaves the function. */
  method ModInverse(m: uint32, b: uint32) returns (r: Option<uint32>)
    requires m <= INT32_MAX && b <= INT32_MAX
    ensures r == Inverse(m, b)
  {
    var x := BezoutCoefficient(m, b);
    match x
    case None => r := None;
    case Some(b2) => r := if m == 0 then Some(b2) else Some(b2 % m);
  }

  /** extended_euclid(60, 13) ends with b2 == -23. Cast to u32 this is
      4294967273, and 13 * 4294967273 is 29, not 1, modulo 60; reduced
      modulo 60 it is 37, an inverse of 13. */
  lemma CastBreaksInverse()
    ensures Bezout(60, 13) == Some(-23)
    ensures Wrap32(-23) == 4294967273 && (13 * Wrap32(-23)) % 60 == 29
    ensures Inverse(60, 13) == Some(37) && (13 * 37) % 60 == 1
  {
    calc {
      Bezout(60, 13);
      Solve(1, 0, 60, 0, 1, 13);
      Solve(0, 1, 13, 1, -4, 8);
      Solve(1, -4, 8, -1, 5, 5);
      Solve(-1, 5, 5, 2, -9, 3);
      Solve(2, -9, 3, -3, 14, 2);
      Solve(-3, 14, 2, 5, -23, 1);
      Some(-23);
    }
  }
}
