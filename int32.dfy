/** 32-bit signed integer semantics shared by the Rust and C code:
    the i32 range, truncating division, checked operations (an unchecked
    operation that overflows panics in a Rust debug build and is undefined
    behaviour in C, so both are modelled as a failed check), saturating
    operations and signum. */
module Int32 {

  const MIN: int := -0x8000_0000
  const MAX: int := 0x7fff_ffff

  predicate InRange(x: int) { MIN <= x <= MAX }

  type i32 = x: int | MIN <= x <= MAX

  /** Option with the failure-compatible members, so that `:-` propagates an overflow. */
  datatype Option<+T> = None | Some(value: T) {
    predicate IsFailure() { None? }

    function PropagateFailure<U>(): Option<U>
      requires None?
    {
      None
    }

    function Extract(): T
      requires Some?
    {
      value
    }
  }

  function Abs(x: int): nat { if x < 0 then -x else x }

  /** i32::signum */
  function Signum(x: int): int { if x < 0 then -1 else if x == 0 then 0 else 1 }

  /** Integer division rounding toward zero, as `/` in Rust and in C99. */
  function Quot(a: int, b: int): int
    requires b != 0
  {
    if a >= 0 then (if b > 0 then a / b else -(a / -b))
    else (if b > 0 then -(-a / b) else -a / -b)
  }

  function CheckedAdd(a: i32, b: i32): Option<i32> {
    if InRange(a + b) then Some(a + b) else None
  }

  function CheckedSub(a: i32, b: i32): Option<i32> {
    if InRange(a - b) then Some(a - b) else None
  }

  function CheckedMul(a: i32, b: i32): Option<i32> {
    if InRange(a * b) then Some(a * b) else None
  }

  /** `a / b`, which fails on a zero divisor and on MIN / -1. */
  function CheckedDiv(a: i32, b: i32): Option<i32> {
    if b != 0 && InRange(Quot(a, b)) then Some(Quot(a, b)) else None
  }

  /** Clamp to [MIN, MAX]. */
  function Saturate(x: int): i32 {
    if x < MIN then MIN else if x > MAX then MAX else x
  }

  function SaturatingAdd(a: i32, b: i32): i32 { Saturate(a + b) }

  function SaturatingMul(a: i32, b: i32): i32 { Saturate(a * b) }

  // ---------------------------------------------------------------------
  // Facts about the operations above, used by the scaled-arithmetic proofs.

  lemma QuotFacts(a: int, b: int)
    requires b != 0
    ensures Abs(Quot(a, b)) == Abs(a) / Abs(b)
    ensures Quot(a, b) == 0 || Signum(Quot(a, b)) == Signum(a) * Signum(b)
    ensures Abs(Quot(a, b)) <= Abs(a)
  {
    DivLe(Abs(a), Abs(b));
  }

  /** Truncating division commutes with negation (floor or Euclidean division does not). */
  lemma QuotOdd(a: int, b: int)
    requires b != 0
    ensures Quot(-a, b) == -Quot(a, b)
  {
    assert Abs(-a) == Abs(a);
    if a == 0 {
      assert Quot(a, b) == 0 == Quot(-a, b);
    }
  }

  /** The quotient of an i32 fits unless it is MIN / -1. */
  lemma QuotInRange(a: i32, b: int)
    requires b != 0 && (b != -1 || a != MIN)
    ensures InRange(Quot(a, b))
  {
    QuotFacts(a, b);
    if Abs(b) >= 2 {
      DivMono(Abs(a), 0x8000_0000, Abs(b));
      DivMono2(0x8000_0000, 2, Abs(b));
    }
  }

  lemma SaturateFacts(x: int)
    ensures Abs(Saturate(x)) <= Abs(x)
    ensures Signum(Saturate(x)) == Signum(x)
    ensures InRange(x) ==> Saturate(x) == x
  {
  }

  lemma AbsMul(a: int, b: int)
    ensures Abs(a * b) == Abs(a) * Abs(b)
    ensures Signum(a * b) == Signum(a) * Signum(b)
  {
    if a < 0 && b < 0 {
      assert a * b == (-a) * (-b);
    } else if a < 0 && b > 0 {
      assert -(a * b) == (-a) * b;
    } else if a > 0 && b < 0 {
      assert -(a * b) == a * (-b);
    }
  }

  lemma MulMono(a: nat, b: nat, d: nat)
    requires a <= b
    ensures a * d <= b * d
  {
    assert b * d == a * d + (b - a) * d;
  }

  lemma DivLe(n: nat, d: nat)
    requires d > 0
    ensures n / d <= n
  {
    if n / d > n {
      MulMono(1, d, n / d);
      assert false;
    }
  }

  /** Division by a fixed positive divisor is monotone. */
  lemma DivMono(x: nat, y: nat, d: nat)
    requires x <= y && d > 0
    ensures x / d <= y / d
  {
    if x / d > y / d {
      MulMono(y / d + 1, x / d, d);
      assert false;
    }
  }

  /** Dividing by a larger divisor gives a smaller quotient. */
  lemma DivMono2(n: nat, d1: nat, d2: nat)
    requires 0 < d1 <= d2
    ensures n / d2 <= n / d1
  {
    MulMono(d1, d2, n / d2);
    MulLeDiv(n / d2, d1, n);
  }

  /** m * d <= n implies m <= n / d. */
  lemma MulLeDiv(m: nat, d: nat, n: nat)
    requires d > 0 && m * d <= n
    ensures m <= n / d
  {
    if m > n / d {
      MulMono(n / d + 1, m, d);
      assert false;
    }
  }

  /** Dividing before multiplying never gives more than dividing after. */
  lemma DivMulLe(x: nat, y: nat, d: nat)
    requires d > 0
    ensures (x / d) * y <= (x * y) / d
  {
    MulMono((x / d) * d, x, y);
    assert (x / d) * y * d == (x / d) * d * y;
    MulLeDiv((x / d) * y, d, x * y);
  }

  /** Same with both factors divided first. */
  lemma DivDivMulLe(x: nat, y: nat, d: nat)
    requires d > 0
    ensures (x / d) * (y / d) <= (x * y) / (d * d)
  {
    var p, q := x / d, y / d;
    MulMono(p * d, x, q * d);
    MulMono(q * d, y, x);
    assert (p * q) * (d * d) == (p * d) * (q * d);
    assert x * (q * d) == (q * d) * x;
    MulLeDiv(p * q, d * d, x * y);
  }

  /** n = q*d + r with 0 <= r < d makes q the quotient n / d. */
  lemma DivUnique(n: nat, q: nat, r: nat, d: nat)
    requires 0 <= r < d && n == q * d + r
    ensures n / d == q
  {
    MulLeDiv(q, d, n);
    if n / d > q {
      MulMono(q + 1, n / d, d);
      assert false;
    }
  }

  /** Euclidean division by a positive divisor. */
  lemma Euclid(x: nat, d: nat)
    requires d > 0
    ensures x == (x / d) * d + x % d && 0 <= x % d < d
  {
  }

  lemma Distrib(a: int, b: int, d: int)
    ensures (a + b) * d == a * d + b * d
  {
  }

  /** Two quotients added lose at most one unit against the quotient of the sum. */
  lemma DivAddBounds(x: nat, y: nat, d: nat)
    requires d > 0
    ensures x / d + y / d <= (x + y) / d <= x / d + y / d + 1
  {
    Euclid(x, d);
    Euclid(y, d);
    SumQuotient(x + y, x / d, x % d, y / d, y % d, d);
  }

  /** The sum of qx*d + rx and qy*d + ry, with both remainders below d,
      has quotient qx + qy or qx + qy + 1. */
  lemma SumQuotient(n: nat, qx: nat, rx: nat, qy: nat, ry: nat, d: nat)
    requires rx < d && ry < d && n == (qx * d + rx) + (qy * d + ry)
    ensures qx + qy <= n / d <= qx + qy + 1
  {
    Distrib(qx, qy, d);
    if rx + ry < d {
      DivUnique(n, qx + qy, rx + ry, d);
    } else {
      Distrib(qx + qy, 1, d);
      DivUnique(n, qx + qy + 1, rx + ry - d, d);
    }
  }
}
