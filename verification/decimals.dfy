/** `java.math.BigDecimal` values with a non-negative scale. */
module Decimals {

  /** The number `unscaled / 10^scale`. */
  datatype Decimal = Decimal(unscaled: int, scale: nat)

  /** `10^n`; it is positive, so `Value` never divides by zero. */
  function Pow10(n: nat): (p: nat)
    ensures p >= 1
  {
    if n == 0 then 1 else 10 * Pow10(n - 1)
  }

  /** The number a decimal denotes. */
  function Value(d: Decimal): real
  {
    d.unscaled as real / Pow10(d.scale) as real
  }

  /** The number is at least zero. */
  predicate NonNegative(d: Decimal)
  {
    d.unscaled >= 0
  }

  /**
   * `@Digits(integer, fraction)` on a `BigDecimal`: the scale itself is at
   * most `fraction`, trailing zeros included (1.000 has three fraction
   * digits), and precision minus scale is at most `integer`, that is, the
   * magnitude is below `10^integer`.
   */
  predicate FitsDigits(d: Decimal, integer: nat, fraction: nat)
  {
    && d.scale <= fraction
    && -(Pow10(integer + d.scale) as int) < d.unscaled < Pow10(integer + d.scale)
  }
}
