/** The RSA driver of `main` (src/main.rs:19-42): textbook, unpadded RSA
    encryption c = m^e mod n and decryption m = c^d mod n (the RSAEP and
    RSADP primitives of sections 5.1.1 and 5.1.2 of RFC 8017, without their
    range check on the message), after checking the key parameters. */
module Rsa {
  import opened Wrappers
  import opened Arithmetic
  import opened SquareMultiply
  import Euclid
  import opened ExtendedEuclid

  /** Encryption, or decryption when the `-d` flag is given. */
  datatype Mode = Encrypt | Decrypt

  /** The ways a run ends without printing a number. */
  datatype Error =
    | EqualFactors     // p == q
    | InvalidExponent  // e shares a factor with phi(n) and 1 < e < phi(n)
    | NotInvertible    // decryption: `extended_euclid` returns None and `unwrap` panics

  /** phi(n) = (p - 1)(q - 1) for n = p * q: for positive factors it lies
      in [0, n). */
  function Totient(p: nat, q: nat): (phi: int)
    ensures p >= 1 && q >= 1 ==> 0 <= phi < p * q
  {
    if p >= 1 && q >= 1 then
      MulMonotone(0, 0, p - 1, q - 1);
      assert p * q == (p - 1) * (q - 1) + (p - 1) + (q - 1) + 1;
      (p - 1) * (q - 1)
    else (p - 1) * (q - 1)
  }

  /** The exponent check: e is refused when gcd(phi, e) != 1 and 1 < e < phi,
      that is, when it shares a factor with phi and lies strictly between 1
      and phi. */
  predicate ExponentRejected(phi: nat, e: nat)
    ensures ExponentRejected(phi, e) <==> 1 < e < phi && !Coprime(phi, e)
  {
    e > 1 && e < phi && (CoprimeIffGcdOne(phi, e); Gcd(phi, e) != 1)
  }

  /** Inputs on which no `u32` step of `main` panics or overflows: p - 1 and
      q - 1 do not underflow, n = p * q fits in a `u32`, the gcd does not
      divide by e == 0, the products of `sqr_mult` fit, and the `as i32`
      casts of phi(n) and e keep their values. The `i32` counter `c` inside
      `sqr_mult` is not covered: it overflows for exponents of 2^31 and
      above, although its value is never read. */
  predicate Supported(p: uint32, q: uint32, e: uint32, message: uint32, mode: Mode)
  {
    p != q ==>
      && p >= 1 && q >= 1
      && (MulMonotone(0, 0, p, q); p * q <= UINT32_MAX)
      && e >= 1
      && (!ExponentRejected(Totient(p, q), e) ==>
            && ProductsFit(message, p * q)
            && (mode == Decrypt ==> Totient(p, q) <= INT32_MAX && e <= INT32_MAX))
  }

  /** The modulus of two distinct positive factors is at least 2. */
  lemma ModulusBounds(p: nat, q: nat)
    requires p >= 1 && q >= 1 && p != q
    ensures 2 <= p * q && 0 <= Totient(p, q) < p * q
  {
    if p >= 2 {
      MulMonotone(2, 1, p, q);
    } else {
      MulMonotone(1, 2, p, q);
    }
  }

  /** The steps of `main` after p != q has been checked, given the private
      exponent d that the inverse computation returns for (phi(n), e). */
  function Outcome(p: uint32, q: uint32, e: uint32, message: uint32, mode: Mode, d: Option<uint32>): (r: Result<uint32, Error>)
    requires Supported(p, q, e, message, mode) && p != q
    ensures r.Success? ==> r.value < p * q
  {
    ModulusBounds(p, q);
    var n, phi := p * q, Totient(p, q);
    if ExponentRejected(phi, e) then Failure(InvalidExponent)
    else
      match mode
      case Encrypt => Success(ModPow(message, e, n))
      case Decrypt =>
        match d
        case None => Failure(NotInvertible)
        case Some(x) => Success(ModPow(message, x, n))
  }

  /** What a run of `main` prints, or why it stops: `C: c` with
      c = message^e mod n, or with `-d` `M: m` with m = message^d mod n,
      where d is the unreduced value `extended_euclid(phi(n), e)` returns. */
  function Evaluate(p: uint32, q: uint32, e: uint32, message: uint32, mode: Mode): (r: Result<uint32, Error>)
    requires Supported(p, q, e, message, mode)
    ensures r.Success? ==> p != q && r.value < p * q
  {
    if p == q then Failure(EqualFactors)
    else
      ModulusBounds(p, q);
      Outcome(p, q, e, message, mode, CastCoefficient(Totient(p, q), e))
  }

  /** The driver with the private exponent reduced modulo phi(n): what
      `main` evidently intends. */
  function EvaluateCorrected(p: uint32, q: uint32, e: uint32, message: uint32, mode: Mode): (r: Result<uint32, Error>)
    requires Supported(p, q, e, message, mode)
    ensures r.Success? ==> p != q && r.value < p * q
  {
    if p == q then Failure(EqualFactors)
    else
      ModulusBounds(p, q);
      Outcome(p, q, e, message, mode, Inverse(Totient(p, q), e))
  }

  /** `main`: the helpers run in its order, including the encryption at
      line 35 that decryption computes and discards, and decryption uses
      `extended_euclid` as written. */
  method Run(p: uint32, q: uint32, e: uint32, message: uint32, mode: Mode) returns (r: Result<uint32, Error>)
    requires Supported(p, q, e, message, mode)
    ensures r == Evaluate(p, q, e, message, mode)
  {
    if p == q {
      return Failure(EqualFactors);
    }
    ModulusBounds(p, q);
    var n: uint32 := p * q;
    var phi: uint32 := (p - 1) * (q - 1);
    var g := Euclid.Gcd(phi, e);
    if g != 1 && e > 1 && e < phi {
      return Failure(InvalidExponent);
    }
    var c := SqrMult(message, e, n);
    if mode == Decrypt {
      var d := ExtendedEuclid.ExtendedEuclid(phi, e);
      if d.None? {
        return Failure(NotInvertible);
      }
      var m := SqrMult(message, d.value, n);
      return Success(m);
    }
    return Success(c);
  }

  lemma CoprimeToOne(x: int)
    ensures Coprime(x, 1)
  {
    forall d | Divides(d, x) && Divides(d, 1)
      ensures d == 1
    {
      DividesOne(d);
    }
  }

  /** Each error of `main` arises exactly when: the factors are equal; e
      shares a factor with phi(n) and lies strictly between 1 and phi(n); or,
      when decrypting, e shares a factor with phi(n) but is at least phi(n),
      so the check let it through and `extended_euclid` finds no inverse. */
  lemma ErrorConditions(p: uint32, q: uint32, e: uint32, message: uint32, mode: Mode)
    requires Supported(p, q, e, message, mode)
    ensures Evaluate(p, q, e, message, mode) == Failure(EqualFactors) <==> p == q
    ensures Evaluate(p, q, e, message, mode) == Failure(InvalidExponent) <==>
      p != q && 1 < e < Totient(p, q) && !Coprime(Totient(p, q), e)
    ensures Evaluate(p, q, e, message, mode) == Failure(NotInvertible) <==>
      p != q && mode == Decrypt && e >= Totient(p, q) && !Coprime(Totient(p, q), e)
  {
    if p != q {
      ModulusBounds(p, q);
      CoprimeToOne(Totient(p, q));
    }
  }

  /** Reducing the private exponent changes nothing but the decrypted
      value: the same runs fail, with the same error, and encryption is
      unaffected. */
  lemma CorrectionOnlyChangesExponent(p: uint32, q: uint32, e: uint32, message: uint32, mode: Mode)
    requires Supported(p, q, e, message, mode)
    ensures Evaluate(p, q, e, message, mode).Success? <==> EvaluateCorrected(p, q, e, message, mode).Success?
    ensures mode == Encrypt || Evaluate(p, q, e, message, mode).Failure? ==>
      EvaluateCorrected(p, q, e, message, mode) == Evaluate(p, q, e, message, mode)
  {
  }

  /** An accepted exponent encrypts to message^e mod n, a value below n. */
  lemma EncryptionIsModularPower(p: uint32, q: uint32, e: uint32, message: uint32)
    requires Supported(p, q, e, message, Encrypt) && p != q
    requires Coprime(Totient(p, q), e) || e <= 1 || e >= Totient(p, q)
    ensures Evaluate(p, q, e, message, Encrypt) == Success(Pow(message, e) % (p * q))
    ensures Pow(message, e) % (p * q) < p * q
  {
    ModulusBounds(p, q);
  }

  /** Decryption as written, with e coprime to phi(n): the message is raised
      to the Bezout coefficient x of e, an inverse of e modulo phi(n), but
      cast to `u32` unreduced, so a negative x becomes x + 2^32. */
  lemma DecryptionAsWritten(p: uint32, q: uint32, e: uint32, message: uint32)
    requires Supported(p, q, e, message, Decrypt) && p != q
    requires Coprime(Totient(p, q), e)
    ensures Bezout(Totient(p, q), e).Some?
    ensures var x := Bezout(Totient(p, q), e).value;
      && Evaluate(p, q, e, message, Decrypt) == Success(ModPow(message, Wrap32(x), p * q))
      && (Totient(p, q) > 0 ==> (e * x) % Totient(p, q) == 1)
  {
    ModulusBounds(p, q);
    TotientNotOne(p, q);
    var phi := Totient(p, q);
    assert !ExponentRejected(phi, e);
    if phi > 1 {
      DivModUnique(1, phi, 0, 1);
    }
  }

  /** When the Bezout coefficient already lies in [0, phi(n)), the run as
      written decrypts exactly as the corrected one. */
  lemma CastHarmlessInRange(p: uint32, q: uint32, e: uint32, message: uint32)
    requires Supported(p, q, e, message, Decrypt) && p != q
    requires Bezout(Totient(p, q), e).Some? && 0 <= Bezout(Totient(p, q), e).value < Totient(p, q)
    ensures Evaluate(p, q, e, message, Decrypt) == EvaluateCorrected(p, q, e, message, Decrypt)
  {
    ModulusBounds(p, q);
    CastAgreesInRange(Totient(p, q), e);
  }

  /** Corrected decryption with an exponent coprime to phi(n) raises the
      message to the inverse d of e modulo phi(n), reduced into
      [0, phi(n)). */
  lemma DecryptionUsesInverse(p: uint32, q: uint32, e: uint32, message: uint32)
    requires Supported(p, q, e, message, Decrypt) && p != q
    requires Coprime(Totient(p, q), e)
    ensures Inverse(Totient(p, q), e).Some?
    ensures var d := Inverse(Totient(p, q), e).value;
      && EvaluateCorrected(p, q, e, message, Decrypt) == Success(Pow(message, d) % (p * q))
      && (Totient(p, q) > 0 ==> d < Totient(p, q) && (e * d) % Totient(p, q) == 1)
  {
    ModulusBounds(p, q);
    TotientNotOne(p, q);
    var phi := Totient(p, q);
    assert !ExponentRejected(phi, e);
    DivModUnique(1, p * q, 0, 1);
    if phi > 1 {
      DivModUnique(1, phi, 0, 1);
    }
  }

  /** phi(n) == 1 would need p == q == 2. */
  lemma TotientNotOne(p: nat, q: nat)
    requires p >= 1 && q >= 1 && p != q
    ensures Totient(p, q) != 1
  {
    if p >= 3 && q >= 2 {
      MulMonotone(2, 1, p - 1, q - 1);
    } else if p >= 2 && q >= 3 {
      MulMonotone(1, 2, p - 1, q - 1);
    }
  }
}
