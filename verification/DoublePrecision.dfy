/** The double-precision arithmetic of jitter (section 4.3.1 of IEEE 754), on natural numbers. */
module DoublePrecision {

  function Pow2(n: nat): (r: nat)
    ensures r >= 1
  {
    if n == 0 then 1 else 2 * Pow2(n - 1)
  }

  /** `rand.Float64` draws a multiple of 2^-53 below one: one of 2^53 values. */
  const DRAWS: nat := 9_007_199_254_740_992

  function BitLength(n: nat): (bits: nat)
    ensures n < Pow2(bits)
    ensures bits > 0 ==> Pow2(bits - 1) <= n
  {
    if n == 0 then 0 else 1 + BitLength(n / 2)
  }

  /** How many bits of `n` lie beyond the `precision` significant ones. */
  function SpareBits(precision: nat, n: nat): nat {
    if BitLength(n) > precision then BitLength(n) - precision else 0
  }

  /** `n / unit`, to the nearest and to even on a tie. */
  function RoundedQuotient(n: nat, unit: nat): nat
    requires unit > 0
  {
    var q, r := n / unit, n % unit;
    if 2 * r > unit || (2 * r == unit && q % 2 == 1) then q + 1 else q
  }

  /** The multiple of `unit` nearest to `n`. */
  function RoundToUnit(n: nat, unit: nat): nat
    requires unit > 0
  {
    RoundedQuotient(n, unit) * unit
  }

  /** The number nearest to `n` among those with `precision` significant bits. */
  function Round(precision: nat, n: nat): nat {
    RoundToUnit(n, Pow2(SpareBits(precision, n)))
  }

  function Product(a: nat, b: nat): nat {
    a * b
  }

  function Quotient(a: nat, b: nat): nat
    requires b > 0
  {
    a / b
  }

  /** A draw of `draw` parts in 2^precision times the float of `span`: a rounded product, truncated. */
  function Scaled(precision: nat, draw: nat, span: nat): nat {
    Quotient(Round(precision, Product(draw, Round(precision, span))), Pow2(precision))
  }

  lemma {:induction false} Pow2Adds(m: nat, n: nat)
    ensures Pow2(m + n) == Pow2(m) * Pow2(n)
  {
    if m > 0 {
      Pow2Adds(m - 1, n);
      assert Pow2(m + n) == 2 * (Pow2(m - 1) * Pow2(n));
    }
  }

  lemma {:induction false} Pow2Monotone(m: nat, n: nat)
    requires m <= n
    ensures Pow2(m) <= Pow2(n)
  {
    if m < n {
      Pow2Monotone(m, n - 1);
    }
  }

  lemma MultiplyMonotone(a: nat, b: nat, c: nat)
    ensures a <= b ==> a * c <= b * c
  {
  }

  lemma MultiplyAssociative(a: nat, b: nat, c: nat)
    ensures a * (b * c) == a * b * c
  {
  }

  /** Rounding a quotient never passes a whole number. */
  lemma RoundedQuotientBound(n: nat, unit: nat, bound: nat)
    requires unit > 0 && n <= bound * unit
    ensures RoundedQuotient(n, unit) <= bound
  {
    var q, r := n / unit, n % unit;
    assert n == q * unit + r;
    MultiplyMonotone(bound + 1, q, unit);
    MultiplyMonotone(bound, q, unit);
    assert (bound + 1) * unit == bound * unit + unit;
  }

  lemma SpareBitsBound(precision: nat, n: nat)
    requires n < Pow2(precision + precision)
    ensures SpareBits(precision, n) <= precision
  {
    if BitLength(n) > precision + precision {
      Pow2Monotone(precision + precision, BitLength(n) - 1);
    }
  }

  lemma ProductFits(span: nat, precision: nat, limit: nat)
    requires span < Pow2(precision) && limit == span * Pow2(precision)
    ensures limit < Pow2(precision + precision)
  {
    var one := Pow2(precision);
    Pow2Adds(precision, precision);
    MultiplyMonotone(span + 1, one, one);
    assert (span + 1) * one == span * one + one;
  }

  lemma SpanSplits(span: nat, precision: nat, spare: nat, limit: nat) returns (bound: nat)
    requires spare <= precision && limit == span * Pow2(precision)
    ensures limit == bound * Pow2(spare)
  {
    Pow2Adds(precision - spare, spare);
    assert precision - spare + spare == precision;
    MultiplyAssociative(span, Pow2(precision - spare), Pow2(spare));
    bound := span * Pow2(precision - spare);
  }

  /** A number below 2^precision, scaled by 2^precision, is representable, so rounding does not pass it. */
  lemma RoundingStaysBelow(precision: nat, n: nat, span: nat, limit: nat)
    requires span < Pow2(precision) && limit == span * Pow2(precision) && n <= limit
    ensures Round(precision, n) <= limit
  {
    ProductFits(span, precision, limit);
    SpareBitsBound(precision, n);
    var spare := SpareBits(precision, n);
    var bound := SpanSplits(span, precision, spare, limit);
    RoundToUnitBound(n, Pow2(spare), bound, limit);
  }

  lemma RoundToUnitBound(n: nat, unit: nat, bound: nat, limit: nat)
    requires unit > 0 && limit == bound * unit && n <= limit
    ensures RoundToUnit(n, unit) <= limit
  {
    RoundedQuotientBound(n, unit, bound);
    MultiplyMonotone(RoundedQuotient(n, unit), bound, unit);
  }

  lemma SmallIsExact(precision: nat, n: nat)
    requires n < Pow2(precision)
    ensures Round(precision, n) == n
  {
    if BitLength(n) > precision {
      Pow2Monotone(precision, BitLength(n) - 1);
    }
    assert SpareBits(precision, n) == 0 && Pow2(0) == 1;
    assert RoundedQuotient(n, 1) == n;
  }

  /** A representable span times a draw below one stays within the span, rounding included. */
  lemma ScaledBound(precision: nat, draw: nat, span: nat)
    requires draw < Pow2(precision) && span < Pow2(precision)
    ensures Scaled(precision, draw, span) <= span
  {
    var one := Pow2(precision);
    SmallIsExact(precision, span);
    MultiplyMonotone(draw, one, span);
    RoundingStaysBelow(precision, Product(draw, span), span, span * one);
    QuotientBound(Round(precision, Product(draw, span)), span, one);
  }

  lemma QuotientBound(n: nat, bound: nat, unit: nat)
    requires unit > 0 && n <= bound * unit
    ensures Quotient(n, unit) <= bound
  {
    MultiplyMonotone(bound + 1, n / unit, unit);
    assert (bound + 1) * unit == bound * unit + unit;
    assert n == n / unit * unit + n % unit;
  }

  lemma Pow2Times32(m: nat)
    ensures Pow2(m + 5) == 32 * Pow2(m)
  {
    assert Pow2(m + 2) == 4 * Pow2(m);
    assert Pow2(m + 4) == 16 * Pow2(m);
  }

  lemma Pow2Times1024(m: nat)
    ensures Pow2(m + 10) == 1024 * Pow2(m)
  {
    Pow2Times32(m);
    Pow2Times32(m + 5);
  }

  lemma Pow2Plus53(m: nat)
    ensures Pow2(m + 53) == DRAWS * Pow2(m)
  {
    Pow2Times1024(m);
    Pow2Times1024(m + 10);
    Pow2Times1024(m + 20);
    Pow2Times1024(m + 30);
    Pow2Times1024(m + 40);
    assert Pow2(m + 51) == 2 * Pow2(m + 50);
    assert Pow2(m + 52) == 2 * Pow2(m + 51);
  }

  lemma DrawsIsPow2()
    ensures DRAWS == Pow2(53)
  {
    Pow2Plus53(0);
  }
}
