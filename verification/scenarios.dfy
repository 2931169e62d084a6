/** Concrete runs: the unit tests of the source (src/main.rs:120-135) and
    small key sets that exercise each path of the driver. */
module Scenarios {
  import opened Wrappers
  import opened Arithmetic
  import opened SquareMultiply
  import Euclid
  import opened ExtendedEuclid
  import opened Rsa

  /** `sqr_mult(4, 10, 15) == 1`, `gcd(1, 1) == 1` and `gcd(20, 45) == 5`,
      from the contracts of the methods alone. */
  method SourceTests()
  {
    var c := SqrMult(4, 10, 15);
    assert c == 1;
    var g := Euclid.Gcd(1, 1);
    assert g == 1;
    g := Euclid.Gcd(20, 45);
    assert g == 5;
  }

  /** a^(i + j) mod n from a^i mod n and a^j mod n. */
  lemma PowModSplit(a: nat, i: nat, j: nat, n: nat)
    requires n > 0
    ensures Pow(a, i + j) % n == ((Pow(a, i) % n) * (Pow(a, j) % n)) % n
  {
    PowAdd(a, i, j);
    ModIdempotent(Pow(a, i), n);
    ModIdempotent(Pow(a, j), n);
    MulModCongruent(Pow(a, i), Pow(a, j), Pow(a, i) % n, Pow(a, j) % n, n);
  }

  /** One step of a chain of residues: from a^i == x and a^j == y modulo n,
      a^(i+j) == x * y modulo n. */
  lemma PowModStep(a: nat, i: nat, j: nat, n: nat, x: nat, y: nat, z: nat)
    requires n > 0 && Pow(a, i) % n == x && Pow(a, j) % n == y && (x * y) % n == z
    ensures Pow(a, i + j) % n == z
  {
    PowModSplit(a, i, j, n);
  }

  /** Powers of 26 modulo 77 that the runs below need. The base is a
      parameter so that the powers are built from the chain of steps, not
      expanded. */
  lemma PowersOf26(a: nat)
    requires a == 26
    ensures Pow(a, 37) % 77 == 5
    ensures Pow(a, 30) % 77 == 1
    ensures Pow(a, 23) % 77 == 31
  {
    assert Pow(a, 1) == a;
    PowModStep(a, 1, 1, 77, 26, 26, 60);
    PowModStep(a, 2, 2, 77, 60, 60, 58);
    PowModStep(a, 4, 2, 77, 58, 60, 15);
    PowModStep(a, 6, 6, 77, 15, 15, 71);
    PowModStep(a, 12, 1, 77, 71, 26, 75);
    PowModStep(a, 12, 12, 77, 71, 71, 36);
    PowModStep(a, 24, 6, 77, 36, 15, 1);
    PowModStep(a, 24, 13, 77, 36, 75, 5);
    PowModStep(a, 6, 4, 77, 15, 58, 23);
    PowModStep(a, 10, 1, 77, 23, 26, 59);
    PowModStep(a, 12, 11, 77, 71, 59, 31);
  }

  /** 5^13 modulo 77, built up the same way. */
  lemma PowersOf5(a: nat)
    requires a == 5
    ensures Pow(a, 13) % 77 == 26
  {
    assert Pow(a, 1) == a;
    PowModStep(a, 1, 1, 77, 5, 5, 25);
    PowModStep(a, 2, 2, 77, 25, 25, 9);
    PowModStep(a, 4, 4, 77, 9, 9, 4);
    PowModStep(a, 8, 4, 77, 4, 9, 36);
    PowModStep(a, 12, 1, 77, 36, 5, 26);
  }

  /** If a^t == 1 modulo n, exponents can be reduced modulo t. */
  lemma {:induction false} PowPeriodic(a: nat, n: nat, t: nat, k: nat, r: nat)
    requires n > 1 && Pow(a, t) % n == 1
    ensures Pow(a, k * t + r) % n == Pow(a, r) % n
  {
    if k > 0 {
      PowPeriodic(a, n, t, k - 1, r);
      assert k * t + r == t + ((k - 1) * t + r);
      PowModSplit(a, t, (k - 1) * t + r, n);
      ModIdempotent(Pow(a, r), n);
    }
  }

  /** p = 7, q = 11: n = 77, phi = 60, and e = 13 is coprime to 60.
      The message 5 encrypts to 26, and the corrected driver decrypts 26
      with d = 37 back to 5. */
  lemma TextbookRoundTrip()
    ensures Evaluate(7, 11, 13, 5, Encrypt) == Success(26)
    ensures EvaluateCorrected(7, 11, 13, 26, Decrypt) == Success(5)
  {
    assert Gcd(60, 13) == 1;
    CoprimeIffGcdOne(60, 13);
    EncryptionIsModularPower(7, 11, 13, 5);
    DecryptionUsesInverse(7, 11, 13, 26);
    CastBreaksInverse();
    PowersOf5(5);
    PowersOf26(26);
  }

  /** `main` as written decrypts the ciphertext 26 of the run above to 31,
      not to the message 5: its private exponent is 2^32 - 23 instead
      of 37. */
  lemma CastBreaksDecryption()
    ensures Evaluate(7, 11, 13, 26, Decrypt) == Success(31)
    ensures EvaluateCorrected(7, 11, 13, 26, Decrypt) == Success(5)
  {
    assert Gcd(60, 13) == 1;
    CoprimeIffGcdOne(60, 13);
    DecryptionAsWritten(7, 11, 13, 26);
    CastBreaksInverse();
    TextbookRoundTrip();
    DecryptWithExponent(Wrap32(Bezout(60, 13).value));
  }

  /** 26^d mod 77 for d == 2^32 - 23, by reducing d modulo the period 30. */
  lemma DecryptWithExponent(d: nat)
    requires d == 143165575 * 30 + 23
    ensures ModPow(26, d, 77) == 31
  {
    PowersOf26(26);
    PowPeriodic(26, 77, 30, 143165575, 23);
  }

  /** p = 5, q = 11: phi = 40 and e = 4 shares the factor 4 with it. */
  lemma SharedFactorRejected(message: uint32, mode: Mode)
    ensures Evaluate(5, 11, 4, message, mode) == Failure(InvalidExponent)
  {
    assert Gcd(40, 4) == 4;
  }

  /** p = 5, q = 11, e = 50: gcd(40, 50) == 10, but e > phi escapes the
      check, so encryption goes ahead and decryption finds no inverse. */
  lemma LargeExponentEscapesCheck(message: uint32)
    requires 54 * message <= UINT32_MAX
    ensures Evaluate(5, 11, 50, message, Encrypt).Success?
    ensures Evaluate(5, 11, 50, message, Decrypt) == Failure(NotInvertible)
  {
    assert Gcd(40, 50) == 10;
    assert Divides(10, 40) && Divides(10, 50);
  }
}
