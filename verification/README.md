# Textbook RSA over `u32`: a verified model

This project models the small RSA command-line tool of `src/main.rs`. It
performs textbook, unpadded RSA encryption c = m^e mod n and decryption
m = c^d mod n. These are the RSAEP and RSADP primitives of sections 5.1.1
and 5.1.2 of RFC 8017, without their range check on the message. The tool
has four parts, and each becomes one Dafny module:

- `SquareMultiply` models `sqr_mult`, a left-to-right square-and-multiply
  loop over the bits of the exponent. It is a method with a `for ... downto`
  loop, proved against the specification function `ModPow`.
- `Euclid` models `gcd`, the Euclidean algorithm by repeated remainder. It is
  a method with a `while` loop, proved against the recursive reference
  `Arithmetic.Gcd` and the divisibility predicate `Arithmetic.IsGcd`.
- `ExtendedEuclid` models `extended_euclid`, the extended Euclidean algorithm
  over two signed triples.
  - The loop is the method `BezoutCoefficient`, proved against the function
    `Solve`, which runs the same iteration as a recursion.
  - The method `ExtendedEuclid` and its function `CastCoefficient` are
    `extended_euclid` as written, with the unreduced `as u32` cast.
    `Inverse` and `ModInverse` are the corrected version (see Findings).
- `Rsa` models the checks and the encryption or decryption of `main`.
  - The function `Evaluate` gives the printed number or the reason the run
    stops. It decrypts with the unreduced value of `extended_euclid`, as
    `main` does.
  - The method `Run` calls the helper methods in the order of `main`,
    including `extended_euclid` as written, and is proved equal to
    `Evaluate`.
  - `EvaluateCorrected` is the same driver with the private exponent
    reduced modulo phi(n). The lemmas relate the two.

`Arithmetic` holds the shared mathematics: powers, modular arithmetic,
divisibility and the greatest common divisor. `Scenarios` replays the
source's unit tests and small key sets.

Fixed-width arithmetic is handled with preconditions, not modelled
wrap-around. The `u32` products, the subtractions p - 1 and q - 1, and the
`as i32` casts of the inputs must stay in range. A division by zero (`gcd`
with e == 0, `sqr_mult` with n == 0) is also excluded by a precondition.
`SquareMultiply.ProductsFit` and `Rsa.Supported` state these conditions.
The `unwrap` of `None` in decryption mode is a modelled error,
`Rsa.Error.NotInvertible`.

The doc comment of `sqr_mult` (src/main.rs:47-49) promises a^b mod n. The
code differs for b == 0: `sqr_mult(a, 0, n)` returns the initial
accumulator 1 without reducing it, so `sqr_mult(a, 0, 1)` is 1 and not
0 = a^0 mod 1. The model follows the code, and `SquareMultiply.ModPow`
states this.

## Model

| member | source | states |
|---|---|---|
| Arithmetic.Wrap32 | src/main.rs:104 | the `as u32` cast of an `i32`: a negative value comes back as itself plus 2^32, a value in range comes back unchanged |
| Arithmetic.PowAdd | src/main.rs:59-67 | a^(i+j) == a^i * a^j, the law that makes doubling the shadow exponent a squaring |
| Arithmetic.MulModCongruent | src/main.rs:59-67 | products of numbers congruent modulo n are congruent, so reducing d after every step keeps d == a^c mod n |
| Arithmetic.GcdIsGreatest | src/main.rs:74-87 | Euclid's recurrence gives a common divisor of a and b that every common divisor divides, and no common divisor exceeds it |
| Arithmetic.RemainderStep | src/main.rs:79-85 | replacing (a, b) by (b, a - q*b) keeps exactly the same common divisors |
| Arithmetic.CoprimeIffGcdOne | src/main.rs:30 | gcd(a, b) == 1 exactly when a and b have no common divisor but 1 |
| Arithmetic.GcdSymmetric | src/main.rs:74-87 | gcd(a, b) == gcd(b, a) |
| SquareMultiply.Shr | src/main.rs:63 | `b >> i` is at most b, and 0 exactly when b < 2^i |
| SquareMultiply.BitLength | src/main.rs:55 | b_len is the bit length of b: b < 2^b_len, and 2^(b_len-1) <= b when b > 0 |
| SquareMultiply.BitLengthOfUint32 | src/main.rs:55 | a `u32` has at most 32 significant bits |
| SquareMultiply.TopBit | src/main.rs:55-63 | b >> b_len is 0, and bit b_len - 1 of a non-zero b is 1, so the shadow counter c ends equal to b |
| SquareMultiply.ShrStep | src/main.rs:59-66 | b >> i is twice b >> (i+1) plus bit i, which is how c is rebuilt one bit at a time |
| SquareMultiply.ModPow | src/main.rs:50-72 | the value of `sqr_mult`: congruent to a^b modulo n, and below n except for the unreduced 1 returned when b == 0 and n == 1 |
| SquareMultiply.SquareStep | src/main.rs:59-60 | squaring the accumulator modulo n doubles the exponent it stands for |
| SquareMultiply.MultiplyStep | src/main.rs:65-67 | multiplying the accumulator by a modulo n adds one to the exponent |
| SquareMultiply.SquareFits | src/main.rs:60 | under `ProductsFit`, d * d does not overflow `u32` |
| SquareMultiply.ProductFits | src/main.rs:67 | under `ProductsFit`, d * a does not overflow `u32` |
| SquareMultiply.SqrMult | src/main.rs:50-72 | returns a^b mod n, below n, for b > 0 and 1 for b == 0; the loop keeps c == b >> i and d == a^c mod n |
| Euclid.Gcd | src/main.rs:74-87 | for b > 0, returns the greatest common divisor of a and b: positive, dividing both, divided by every common divisor and at least as large as any |
| ExtendedEuclid.TruncDiv | src/main.rs:107 | Rust's truncating `/` agrees with Euclidean division on non-negative operands |
| ExtendedEuclid.TruncRemainder | src/main.rs:107-110 | t3 = a3 - (a3 / b3) * b3 is a3 mod b3 |
| ExtendedEuclid.StepKeepsInvariant | src/main.rs:107-116 | one iteration keeps x1*m + x2*b == x3 for both triples, keeps the remainders non-negative and the common divisors of (a3, b3) equal to those of (m, b), and makes b3 strictly smaller |
| ExtendedEuclid.InitialInvariant | src/main.rs:91-96 | the starting triples (1, 0, m) and (0, 1, b) satisfy the loop invariant |
| ExtendedEuclid.Solve | src/main.rs:98-117 | the loop as a recursion on b3: the state after one more iteration, None at b3 == 0, b2 at b3 == 1; its contract is `SolveCorrect` |
| ExtendedEuclid.SolveCorrect | src/main.rs:98-117 | from any state satisfying the invariant, the loop gives up exactly when m and b share a divisor other than 1 (or the state is a3 == 1, b3 == 0), and otherwise returns x with b*x == 1 modulo m |
| ExtendedEuclid.Bezout | src/main.rs:90-117 | the coefficient before the cast is None exactly when gcd(m, b) != 1 or (m, b) == (1, 0), and otherwise an inverse of b modulo m |
| ExtendedEuclid.BezoutCoefficient | src/main.rs:91-117 | the loop of `extended_euclid` returns the coefficient `Bezout` describes |
| ExtendedEuclid.CastCoefficient | src/main.rs:90-118 | the value of `extended_euclid` as written: None exactly when m and b are not coprime or (m, b) == (1, 0); otherwise the Bezout coefficient cast with `as u32`, unreduced |
| ExtendedEuclid.ExtendedEuclid | src/main.rs:90-118 | the loop followed by the unreduced cast returns `CastCoefficient` |
| ExtendedEuclid.CastAgreesInRange | src/main.rs:104 | when the coefficient already lies in [0, m), the as-written and the corrected result agree |
| ExtendedEuclid.Inverse | src/main.rs:90-118 | corrected: None in the same cases, otherwise the inverse of b modulo m, in [0, m) |
| ExtendedEuclid.ReducedInverse | src/main.rs:104 | reducing an inverse modulo m leaves an inverse |
| ExtendedEuclid.ModInverse | src/main.rs:90-118 | the loop followed by the reduction returns `Inverse` |
| ExtendedEuclid.CastBreaksInverse | src/main.rs:104 | for (60, 13) the coefficient is -23; cast to `u32` it is 4294967273, which times 13 is 29 and not 1 modulo 60; the corrected inverse is 37 |
| Rsa.Totient | src/main.rs:27 | for positive factors, phi(n) = (p - 1)(q - 1) lies in [0, p*q) |
| Rsa.ExponentRejected | src/main.rs:30 | e is refused exactly when 1 < e < phi(n) and e shares a factor with phi(n) |
| Rsa.ModulusBounds | src/main.rs:26-27 | for distinct positive factors, n = p*q >= 2 and 0 <= phi(n) < n |
| Rsa.TotientNotOne | src/main.rs:27 | distinct positive factors never give phi(n) == 1 |
| Rsa.Outcome | src/main.rs:26-42 | the steps after p != q, for a given private exponent: any printed number is below n |
| Rsa.Evaluate | src/main.rs:19-42 | `main` as written, decrypting with the unreduced `extended_euclid` value: any printed number is below n, and p == q never succeeds |
| Rsa.EvaluateCorrected | src/main.rs:19-42 | `main` with the private exponent reduced modulo phi(n): any printed number is below n, and p == q never succeeds |
| Rsa.Run | src/main.rs:19-42 | the driver, calling gcd, sqr_mult and `extended_euclid` as written in the order of `main`, ends as `Evaluate` says |
| Rsa.ErrorConditions | src/main.rs:20-38 | p == q is rejected exactly when the factors are equal; e is rejected exactly when it shares a factor with phi(n) and 1 < e < phi(n); decryption fails exactly when e shares a factor with phi(n) but e >= phi(n) |
| Rsa.CorrectionOnlyChangesExponent | src/main.rs:35-42 | the as-written and the corrected driver fail on the same inputs with the same error, and agree on encryption |
| Rsa.EncryptionIsModularPower | src/main.rs:35-42 | an accepted exponent encrypts to message^e mod n, a value below n |
| Rsa.DecryptionAsWritten | src/main.rs:37-40 | with e coprime to phi(n), `main` decrypts to message^x mod n, computed by `sqr_mult`, where x is the Bezout coefficient of e (an inverse of e modulo phi(n)) cast to `u32` without reduction |
| Rsa.CastHarmlessInRange | src/main.rs:37-40 | when the Bezout coefficient already lies in [0, phi(n)), `main` as written decrypts exactly as the corrected driver |
| Rsa.DecryptionUsesInverse | src/main.rs:37-40 | in the corrected driver, with e coprime to phi(n), decryption yields message^d mod n where d < phi(n) and e*d == 1 modulo phi(n) |
| Scenarios.SourceTests | src/main.rs:124-133 | the unit tests: sqr_mult(4, 10, 15) == 1, gcd(1, 1) == 1, gcd(20, 45) == 5 |
| Scenarios.PowModSplit | src/main.rs:59-67 | a^(i+j) mod n is the product of a^i mod n and a^j mod n, reduced |
| Scenarios.PowPeriodic | src/main.rs:39 | if a^t == 1 modulo n, then a^(k*t + r) == a^r modulo n, which evaluates line 39 with the cast exponent |
| Scenarios.TextbookRoundTrip | src/main.rs:19-42 | with p = 7, q = 11, e = 13, `main` encrypts the message 5 to 26, and the corrected driver decrypts 26 back to 5 |
| Scenarios.CastBreaksDecryption | src/main.rs:37-40 | `main` as written decrypts the ciphertext 26 to 31 under p = 7, q = 11, e = 13, because its exponent is 4294967273; the corrected driver gives 5 |
| Scenarios.SharedFactorRejected | src/main.rs:30-33 | p = 5, q = 11, e = 4 is rejected as an invalid exponent in both modes |
| Scenarios.LargeExponentEscapesCheck | src/main.rs:30-42 | p = 5, q = 11, e = 50 shares the factor 10 with phi(n) = 40 but passes the check; encryption succeeds and decryption finds no inverse |

## Left out

- Argument handling is left out: reading the command line, the argument-count check, parsing with `from_str_radix(...).unwrap()`, `exit(0)` and the printed output (src/main.rs:5-17 and the print and exit calls). `Rsa.Mode` stands for the `-d` flag, and the result of `Rsa.Evaluate` stands for the line printed.
- The misspelt `eprintnln!` macro at src/main.rs:21 is not modelled; the model performs the intended rejection of p == q.
- `u32` wrap-around of `p * q`, `(p - 1) * (q - 1)`, `d * d` and `d * a` is not modelled. Preconditions require these values to fit: `Rsa.Supported` and `SquareMultiply.ProductsFit`.
- SquareMultiply.ProductsFit: bounds the residues by n - 1, which is sufficient but not exact. Some inputs whose actual products happen to fit are excluded.
- The `as i32` casts of the inputs of `extended_euclid` are covered by a precondition that m and b are below 2^31. That the coefficients a1, a2, b1 and b2 stay within `i32` during the loop is not proved: the model computes them as unbounded integers.
- Division by zero (`gcd` with e == 0, `sqr_mult` with n == 0) and the underflow of p - 1 or q - 1 for a zero factor are excluded by preconditions rather than modelled as panics.
- Primality of p and q is not checked by the tool and is not modelled.
- The full RSA round trip (decryption inverts encryption for all keys) is not proved. It needs the Euler–Fermat theorem, and the tool never checks the primality it depends on. `Scenarios.TextbookRoundTrip` shows one concrete round trip.
- SquareMultiply.SqrMult: does not model the shadow counter `c` as an `i32`. `c` is an unannotated integer literal (src/main.rs:51), so Rust types it `i32`, and `c = 2 * c` (src/main.rs:59) overflows for exponents b >= 2^31. A build with overflow checks panics there; a build without them wraps `c`, whose value is never read. The model keeps `c` unbounded and proves the result as if no overflow check fired. This covers encryption with e >= 2^31 and the unreduced exponent of the finding below.
- Rsa.DecryptionUsesInverse: states decryption for the corrected driver `EvaluateCorrected`, not for `main` as written. `Rsa.DecryptionAsWritten` states what `main` computes.
- Scenarios.TextbookRoundTrip: its decryption half is about the corrected driver. `main` as written decrypts 26 to 31, as `Scenarios.CastBreaksDecryption` states.

## Findings

| source | as written | input that shows it | evidently intended | confidence | as-written member | corrected member |
|---|---|---|---|---|---|---|
| src/main.rs:104 | `extended_euclid` returns the Bezout coefficient `b2 as u32` without reducing it modulo m, so a negative coefficient becomes b2 + 2^32 | m = 60, b = 13: b2 = -23 and the result is 4294967273, with 13 * 4294967273 mod 60 == 29; the RSA key p = 7, q = 11, e = 13 then decrypts 26 to 31 instead of 5, in a build without overflow checks; with them, the `i32` counter `c` of `sqr_mult` overflows on this exponent and the run panics | the inverse of b modulo m in [0, m), here 37 | not executed | ExtendedEuclid.CastCoefficient, ExtendedEuclid.CastBreaksInverse, Rsa.Evaluate, Scenarios.CastBreaksDecryption | ExtendedEuclid.Inverse, ExtendedEuclid.ModInverse, Rsa.EvaluateCorrected |
