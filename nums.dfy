/**
 * Rounding helpers of src/nums.rs.
 *
 * The `Round` trait has a floating-point instance (mathematical round, ceil
 * and floor) and an integer instance (all three are the identity).
 * `RoundToUsize` follows each of them with an `as usize` cast.  Floating
 * values are modelled as exact reals; a float-to-usize cast saturates
 * negative values at 0, an integer-to-usize cast wraps modulo 2^64.
 */
module Nums {

  const UsizeModulus: int := 0x1_0000_0000_0000_0000

  // ---------------------------------------------------------------------
  // `Round` for f32 / f64

  /** `f64::floor`: the greatest integer not above `x`. */
  function FloatFloor(x: real): (r: int)
    ensures r as real <= x < r as real + 1.0
  {
    x.Floor
  }

  /** `f64::ceil`: the least integer not below `x`. */
  function FloatCeil(x: real): (r: int)
    ensures x <= r as real < x + 1.0
  {
    -((-x).Floor)
  }

  /** `f64::round`: the nearest integer, half-way cases away from zero. */
  function FloatRound(x: real): (r: int)
    ensures -0.5 <= r as real - x <= 0.5
    ensures r as real - x == 0.5 ==> x > 0.0
    ensures r as real - x == -0.5 ==> x < 0.0
  {
    if x >= 0.0 then (x + 0.5).Floor else -((-x + 0.5).Floor)
  }

  // ---------------------------------------------------------------------
  // `Round` for i32 / i64 / u32 / u64: every operation is the identity

  function IntRound(n: int): int { n }
  function IntCeil(n: int): int { n }
  function IntFloor(n: int): int { n }

  /** On an integral value the float instance computes what the integer
      instance computes: the identity. */
  lemma IntInstanceAgreesWithFloat(n: int)
    ensures FloatRound(n as real) == IntRound(n)
    ensures FloatCeil(n as real) == IntCeil(n)
    ensures FloatFloor(n as real) == IntFloor(n)
  {
  }

  // ---------------------------------------------------------------------
  // `as usize`

  /** `f as usize` for an integral float: negative values saturate at 0.
      (Saturation at usize::MAX is not modelled.) */
  function FloatAsUsize(n: int): (r: nat)
    ensures n >= 0 ==> r == n
    ensures n < 0 ==> r == 0
  {
    if n < 0 then 0 else n
  }

  /** `i as usize` for a 64-bit-or-narrower integer: wrap-around modulo 2^64. */
  function IntAsUsize(n: int): (r: nat)
    ensures r < UsizeModulus
    ensures 0 <= n < UsizeModulus ==> r == n
    ensures -UsizeModulus <= n < 0 ==> r == n + UsizeModulus
  {
    n % UsizeModulus
  }

  // ---------------------------------------------------------------------
  // `RoundToUsize`: the cast of the matching `*_to_self`

  function RoundToUsize(x: real): nat { FloatAsUsize(FloatRound(x)) }
  function CeilToUsize(x: real): nat { FloatAsUsize(FloatCeil(x)) }
  function FloorToUsize(x: real): nat { FloatAsUsize(FloatFloor(x)) }

  function IntRoundToUsize(n: int): nat { IntAsUsize(IntRound(n)) }
  function IntCeilToUsize(n: int): nat { IntAsUsize(IntCeil(n)) }
  function IntFloorToUsize(n: int): nat { IntAsUsize(IntFloor(n)) }

  /** A saturated ceiling is at most a column `c` exactly when the value is. */
  lemma CeilToUsizeAtMost(x: real, c: nat)
    ensures CeilToUsize(x) <= c <==> x <= c as real
  {
  }

  /** The saturated ceiling is monotone. */
  lemma CeilToUsizeMonotone(x: real, y: real)
    requires x <= y
    ensures CeilToUsize(x) <= CeilToUsize(y)
  {
  }

  /** A saturated floor is at least a positive row `r` exactly when the value is. */
  lemma FloorToUsizeAtLeast(x: real, r: nat)
    requires r > 0
    ensures FloorToUsize(x) >= r <==> x >= r as real
  {
  }

  /** For non-negative values the float and integer casts agree. */
  lemma UsizeCastsAgree(n: int)
    requires 0 <= n < UsizeModulus
    ensures FloatAsUsize(n) == IntAsUsize(n)
  {
  }

  /** 5.7 rounds to 6, ceils to 6 and floors to 5. */
  lemma RoundingOfFivePointSeven()
    ensures RoundToUsize(5.7) == 6
    ensures CeilToUsize(5.7) == 6
    ensures FloorToUsize(5.7) == 5
  {
  }

  /** Integers such as 42 and 100 are left unchanged by every operation. */
  lemma IntegersUnchanged()
    ensures IntRoundToUsize(42) == 42 && IntCeilToUsize(42) == 42 && IntFloorToUsize(42) == 42
    ensures IntRoundToUsize(100) == 100 && IntCeilToUsize(100) == 100 && IntFloorToUsize(100) == 100
  {
  }
}
