/** `gcd`: the iterative Euclidean algorithm by repeated remainder
    (src/main.rs:74-87). */
module Euclid {
  import opened Arithmetic

  /** Replaces (a, b) by (b, a % b) until the remainder is 0 and returns the
      last divisor. A zero divisor panics in the source, so b > 0 is the
      caller's obligation. */
  method Gcd(a: uint32, b: uint32) returns (g: uint32)
    requires b > 0
    ensures g == Arithmetic.Gcd(a, b)
    ensures g > 0 && IsGcd(g, a, b)
    ensures forall d :: Divides(d, a) && Divides(d, b) ==> d <= g
  {
    var x, y := a, b;
    GcdIsGreatest(a, b);
    while true
      invariant y > 0
      invariant Arithmetic.Gcd(x, y) == Arithmetic.Gcd(a, b)
      decreases y
    {
      var t := x % y;
      if t == 0 {
        return y;
      }
      x := y;
      y := t;
    }
  }
}
