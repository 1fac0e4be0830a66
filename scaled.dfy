/** The three scaled-arithmetic helpers of the oscillator (src/osc.rs):
    each tries the exact computation with a checked operation and falls
    back to dividing first when the checked operation overflows. */
module Scaled {
  import opened Int32

  /** mult_div does not panic: the divisor is not zero, and the division in
      the branch taken is not MIN / -1. */
  predicate MultDivDefined(a: i32, b: i32, c: i32) {
    c != 0 && (c == -1 ==> if InRange(a * b) then a * b != MIN else a != MIN)
  }

  /** mult_div: a*b/c, or (a/c)*b saturated when a*b overflows. The result
      is exact when the product fits, is never larger in magnitude than the
      exact quotient, and carries the sign of a*b*c. */
  function MultDiv(a: i32, b: i32, c: i32): (r: i32)
    requires MultDivDefined(a, b, c)
    ensures InRange(a * b) ==> r == Quot(a * b, c)
    ensures Abs(r) <= Abs(a * b) / Abs(c)
    ensures r == 0 || Signum(r) == Signum(a) * Signum(b) * Signum(c)
  {
    AbsMul(a, b);
    QuotFacts(a * b, c);
    match CheckedMul(a, b)
    case Some(ab) => QuotInRange(ab, c); Quot(ab, c)
    case None =>
      QuotFacts(a, c);
      QuotInRange(a, c);
      AbsMul(Quot(a, c), b);
      SaturateFacts(Quot(a, c) * b);
      DivMulLe(Abs(a), Abs(b), Abs(c));
      SaturatingMul(Quot(a, c), b)
  }

  /** mult_div2 does not panic: in the exact branch c*c fits; in the
      fallback neither division is MIN / -1 and the product of the quotients
      fits. */
  predicate MultDiv2Defined(a: i32, b: i32, c: i32) {
    c != 0 &&
    if InRange(a * b) then InRange(c * c)
    else (c == -1 ==> a != MIN && b != MIN) && InRange(Quot(a, c) * Quot(b, c))
  }

  /** mult_div2: a*b/(c*c), or (a/c)*(b/c) when a*b overflows. Exact when
      the product fits, never larger in magnitude than the exact quotient,
      and with the sign of a*b. */
  function MultDiv2(a: i32, b: i32, c: i32): (r: i32)
    requires MultDiv2Defined(a, b, c)
    ensures c * c > 0
    ensures InRange(a * b) ==> r == Quot(a * b, c * c)
    ensures Abs(r) <= Abs(a * b) / (c * c)
    ensures r == 0 || Signum(r) == Signum(a) * Signum(b)
  {
    AbsMul(a, b);
    AbsMul(c, c);
    match CheckedMul(a, b)
    case Some(ab) =>
      QuotFacts(ab, c * c);
      QuotInRange(ab, c * c);
      Quot(ab, c * c)
    case None =>
      QuotFacts(a, c);
      QuotFacts(b, c);
      QuotInRange(a, c);
      QuotInRange(b, c);
      AbsMul(Quot(a, c), Quot(b, c));
      DivDivMulLe(Abs(a), Abs(b), Abs(c));
      Quot(a, c) * Quot(b, c)
  }

  /** add_div does not panic: the divisor is not zero, and no division in
      the branch taken is MIN / -1. */
  predicate AddDivDefined(a: i32, b: i32, c: i32) {
    c != 0 && (c == -1 ==> if InRange(a + b) then a + b != MIN else a != MIN && b != MIN)
  }

  /** add_div: (a+b)/c, or a/c + b/c saturated when a+b overflows. Exact
      when the sum fits, never larger in magnitude than the exact quotient,
      with its sign, and at most one unit short of it unless the fallback
      saturates. */
  function AddDiv(a: i32, b: i32, c: i32): (r: i32)
    requires AddDivDefined(a, b, c)
    ensures InRange(a + b) ==> r == Quot(a + b, c)
    ensures Abs(r) <= Abs(a + b) / Abs(c)
    ensures r == 0 || Signum(r) == Signum(a + b) * Signum(c)
    ensures InRange(Quot(a, c) + Quot(b, c)) ==> Abs(a + b) / Abs(c) <= Abs(r) + 1
  {
    QuotFacts(a + b, c);
    match CheckedAdd(a, b)
    case Some(ab) => QuotInRange(ab, c); Quot(ab, c)
    case None =>
      QuotInRange(a, c);
      QuotInRange(b, c);
      AddDivFallback(a, b, c);
      SaturatingAdd(Quot(a, c), Quot(b, c))
  }

  /** The fallback of add_div, a/c + b/c saturated, taken when a + b
      overflows: never larger than the exact quotient, with its sign, and at
      most one unit short of it unless it saturates. */
  lemma AddDivFallback(a: i32, b: i32, c: i32)
    requires c != 0 && !InRange(a + b) && InRange(Quot(a, c)) && InRange(Quot(b, c))
    ensures var r := SaturatingAdd(Quot(a, c), Quot(b, c));
      Abs(r) <= Abs(a + b) / Abs(c) && (r == 0 || Signum(r) == Signum(a + b) * Signum(c)) &&
      (InRange(Quot(a, c) + Quot(b, c)) ==> Abs(a + b) / Abs(c) <= Abs(r) + 1)
  {
    // an i32 sum overflows only when both operands have the same sign
    assert (a > 0 && b > 0) || (a < 0 && b < 0);
    QuotFacts(a, c);
    QuotFacts(b, c);
    DivAddBounds(Abs(a), Abs(b), Abs(c));
    SaturateFacts(Quot(a, c) + Quot(b, c));
  }
}
