/** Numeric helper: exponentiation by squaring over an exact scalar type
    (the C++ template parameter ScalarT modelled as `real`), and the size_t
    decrement that the callers apply to buffer extents. */
module MathHelper {

  /** The largest value of `std::size_t` on the 64-bit targets the code is built for. */
  const SIZE_MAX: nat := 0xFFFF_FFFF_FFFF_FFFF

  /** `n - 1` computed in `std::size_t`: an empty extent wraps around to SIZE_MAX.
      For every representable extent this is subtraction modulo 2^64. */
  function SizeMinusOne(n: nat): (r: nat)
    ensures n <= SIZE_MAX ==> r == (n + SIZE_MAX) % (SIZE_MAX + 1)
  {
    if n == 0 then SIZE_MAX else n - 1
  }

  /** Mathematical power b^e for a natural exponent; the reference for `fast_pow`. */
  function Pow(b: real, e: nat): real
  {
    if e == 0 then 1.0 else b * Pow(b, e - 1)
  }

  /** Number of binary digits of `e` (0 for 0): how often halving reaches 0. */
  function BitLength(e: nat): nat
  {
    if e == 0 then 0 else 1 + BitLength(e / 2)
  }

  lemma {:induction false} PowAdd(b: real, m: nat, n: nat)
    ensures Pow(b, m + n) == Pow(b, m) * Pow(b, n)
  {
    if m > 0 {
      PowAdd(b, m - 1, n);
      calc {
        Pow(b, m + n);
        b * Pow(b, (m - 1) + n);
        b * (Pow(b, m - 1) * Pow(b, n));
        (b * Pow(b, m - 1)) * Pow(b, n);
        Pow(b, m) * Pow(b, n);
      }
    }
  }

  /** Squaring the base halves the exponent: (b*b)^k == b^(2k). */
  lemma {:induction false} PowSquare(b: real, k: nat)
    ensures Pow(b * b, k) == Pow(b, 2 * k)
  {
    if k > 0 {
      PowSquare(b, k - 1);
      calc {
        Pow(b * b, k);
        (b * b) * Pow(b * b, k - 1);
        (b * b) * Pow(b, 2 * k - 2);
        b * (b * Pow(b, 2 * k - 2));
        { assert Pow(b, 2 * k - 1) == b * Pow(b, 2 * k - 2); }
        b * Pow(b, 2 * k - 1);
        Pow(b, 2 * k);
      }
    }
  }

  /** One step of the squaring loop keeps result * base^exp unchanged. */
  lemma HalvingStep(b: real, e: nat)
    ensures Pow(b, e) == (if e % 2 == 1 then b else 1.0) * Pow(b * b, e / 2)
  {
    PowSquare(b, e / 2);
    if e % 2 == 1 {
      assert e == 2 * (e / 2) + 1;
    } else {
      assert e == 2 * (e / 2);
    }
  }

  /** The squaring loop's update of (result, base, exp) keeps result * base^exp. */
  lemma SquaringStep(result: real, b: real, e: nat)
    ensures (if e % 2 == 1 then result * b else result) * Pow(b * b, e / 2) == result * Pow(b, e)
  {
    HalvingStep(b, e);
    var x := Pow(b * b, e / 2);
    if e % 2 == 1 {
      assert (result * b) * x == result * (b * x);
    }
  }

  /** Powers of a base above one grow strictly with the exponent. */
  lemma {:induction false} PowStrictlyIncreasing(q: real, a: nat, b: nat)
    requires q > 1.0
    requires a < b
    ensures 1.0 <= Pow(q, a) < Pow(q, b)
  {
    PowAtLeastOne(q, a);
    if b == a + 1 {
      assert Pow(q, b) == q * Pow(q, a);
    } else {
      PowStrictlyIncreasing(q, a, b - 1);
      PowAtLeastOne(q, b - 1);
      assert Pow(q, b) == q * Pow(q, b - 1);
    }
  }

  /** Every power of 1 is 1. */
  lemma {:induction false} PowOfOne(e: nat)
    ensures Pow(1.0, e) == 1.0
  {
    if e > 0 {
      PowOfOne(e - 1);
    }
  }

  /** A positive power of a ratio above 1 is above 1. */
  lemma PowAboveOne(q: real, e: nat)
    ensures q > 1.0 && e >= 1 ==> Pow(q, e) > 1.0
  {
    if q > 1.0 && e >= 1 {
      PowStrictlyIncreasing(q, 0, e);
    }
  }

  lemma {:induction false} PowAtLeastOne(q: real, a: nat)
    requires q >= 1.0
    ensures Pow(q, a) >= 1.0
  {
    if a > 0 {
      PowAtLeastOne(q, a - 1);
      assert Pow(q, a) == q * Pow(q, a - 1);
    }
  }

  /** `math_helper::fast_pow`: exponentiation by squaring. The loop runs
      BitLength(exp) times; `steps` counts the iterations. */
  method FastPow(base: real, exp: nat) returns (r: real, ghost steps: nat)
    ensures r == Pow(base, exp)
    ensures steps == BitLength(exp)
  {
    if exp == 0 {
      return 1.0, 0;
    }
    var result := 1.0;
    var b := base;
    var e := exp;
    steps := 0;
    while e > 0
      invariant result * Pow(b, e) == Pow(base, exp)
      invariant steps + BitLength(e) == BitLength(exp)
      decreases e
    {
      ghost var r0, b0, e0 := result, b, e;
      SquaringStep(result, b, e);
      if e % 2 == 1 {
        result := result * b;
      }
      b := b * b;
      e := e / 2;
      steps := steps + 1;
      assert result * Pow(b, e) == r0 * Pow(b0, e0);
    }
    r := result;
  }
}
