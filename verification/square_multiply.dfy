/** `sqr_mult`: a^b mod n by left-to-right square-and-multiply over the bits
    of the exponent (src/main.rs:50-72). */
module SquareMultiply {
  import opened Arithmetic

  /** `b >> i`: never more than b, and 0 exactly when b < 2^i. */
  function Shr(b: nat, i: nat): (r: nat)
    ensures r <= b
    ensures r == 0 <==> b < Pow(2, i)
  {
    QuotientBounds(b, Pow(2, i));
    b / Pow(2, i)
  }

  lemma QuotientBounds(b: nat, d: nat)
    requires d > 0
    ensures b / d <= b
    ensures b / d == 0 <==> b < d
  {
    var q := b / d;
    assert b == d * q + b % d;
    MulMonotone(1, q, d, q);
    if b < d {
      DivModUnique(b, d, 0, b);
    }
  }

  /** Shifting one place further halves the value, so the bits of b seen
      from the top rebuild it: Shr(b, i) == 2 * Shr(b, i + 1) + bit i. */
  lemma ShrStep(b: nat, i: nat)
    ensures Shr(b, i + 1) == Shr(b, i) / 2
    ensures Shr(b, i) == 2 * Shr(b, i + 1) + Shr(b, i) % 2
  {
    assert Pow(2, i + 1) == Pow(2, i) * 2;
    DivDiv(b, Pow(2, i), 2);
  }

  /** The number of significant bits of b: `(b.count_ones() + b.count_zeros())
      - b.leading_zeros()`, that is 32 minus the leading zeros. */
  function BitLength(b: nat): (len: nat)
    ensures b < Pow(2, len)
    ensures b > 0 ==> len > 0 && Pow(2, len - 1) <= b
  {
    if b == 0 then 0 else 1 + BitLength(b / 2)
  }

  /** A `u32` has at most 32 significant bits. */
  lemma BitLengthOfUint32(b: nat)
    requires b <= UINT32_MAX
    ensures BitLength(b) <= 32
  {
    var len := BitLength(b);
    assert Pow(2, 8) == 0x100;
    assert Pow(2, 16) == 0x1_0000 by {
      PowAdd(2, 8, 8);
    }
    assert Pow(2, 32) == UINT32_MAX + 1 by {
      PowAdd(2, 16, 16);
    }
    if len > 0 {
      PowMonotone(2, 32, len - 1);
    }
  }

  /** Every bit from BitLength(b) up is 0, and bit BitLength(b) - 1 is the
      highest 1 bit. */
  lemma TopBit(b: nat)
    ensures Shr(b, BitLength(b)) == 0
    ensures b > 0 ==> Shr(b, BitLength(b) - 1) == 1
  {
    var len := BitLength(b);
    DivModUnique(b, Pow(2, len), 0, b);
    if b > 0 {
      assert Pow(2, len) == 2 * Pow(2, len - 1);
      DivModUnique(b, Pow(2, len - 1), 1, b - Pow(2, len - 1));
    }
  }

  /** The value `sqr_mult(a, b, n)` returns. For b == 0 the loop never runs
      and the initial accumulator 1 is returned unreduced, even when n == 1. */
  function ModPow(a: nat, b: nat, n: nat): (r: nat)
    requires n > 0
    ensures r % n == Pow(a, b) % n
    ensures r < n || (b == 0 && n == 1)
  {
    if b == 0 then 1
    else
      ModIdempotent(Pow(a, b), n);
      Pow(a, b) % n
  }

  /** No product formed by `sqr_mult` overflows `u32`: the square of a
      residue, and a residue times the base. */
  predicate ProductsFit(a: nat, n: nat)
  {
    n > 0 && (n - 1) * (n - 1) <= UINT32_MAX && (n - 1) * a <= UINT32_MAX
  }

  /** The square of the accumulator fits in a `u32`. */
  lemma SquareFits(a: nat, d: nat, n: nat)
    requires ProductsFit(a, n) && (d < n || d == 1)
    ensures 0 <= d * d <= UINT32_MAX
  {
    if d != 1 {
      MulMonotone(d, d, n - 1, n - 1);
    }
  }

  /** The accumulator times the base fits in a `u32`. */
  lemma ProductFits(a: nat, d: nat, n: nat)
    requires ProductsFit(a, n) && d < n
    ensures 0 <= d * a <= UINT32_MAX
  {
    MulMonotone(d, a, n - 1, a);
  }

  /** Squaring the accumulator doubles the exponent it stands for. */
  lemma SquareStep(a: nat, c: nat, d: nat, n: nat)
    requires n > 0 && d % n == Pow(a, c) % n
    ensures (d * d) % n == Pow(a, 2 * c) % n
  {
    MulModCongruent(d, d, Pow(a, c), Pow(a, c), n);
    PowAdd(a, c, c);
  }

  /** Multiplying the accumulator by the base adds one to the exponent. */
  lemma MultiplyStep(a: nat, c: nat, d: nat, n: nat)
    requires n > 0 && d == Pow(a, c) % n
    ensures (d * a) % n == Pow(a, c + 1) % n
  {
    MulModLeft(Pow(a, c), a, n);
    assert Pow(a, c + 1) == Pow(a, c) * a;
  }

  method SqrMult(a: uint32, b: uint32, n: uint32) returns (r: uint32)
    requires ProductsFit(a, n)
    ensures r == ModPow(a, b, n)
    ensures b > 0 ==> r < n && r == Pow(a, b) % n
    ensures b == 0 ==> r == 1
  {
    var c: nat := 0;
    var d: uint32 := 1;
    var bLen := BitLength(b);
    TopBit(b);
    for i := bLen downto 0
      invariant c == Shr(b, i)
      invariant i == bLen ==> d == 1
      invariant i < bLen ==> d == Pow(a, c) % n
    {
      ShrStep(b, i);
      // Square: the exponent c doubles.
      if i + 1 < bLen {
        ModIdempotent(Pow(a, c), n);
      }
      SquareStep(a, c, d, n);
      SquareFits(a, d, n);
      var square: uint32 := d * d;
      c := 2 * c;
      d := square % n;
      // Multiply when bit i of b, `(b >> i) & 1`, is set.
      var bit := Shr(b, i) % 2;
      if bit == 1 {
        MultiplyStep(a, c, d, n);
        ProductFits(a, d, n);
        var product: uint32 := d * a;
        c := c + 1;
        d := product % n;
      }
    }
    r := d;
  }
}
