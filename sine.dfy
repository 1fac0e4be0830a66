/** The C integrator of sine.c: `n` advances a damped oscillator
      y0' = y1
      y1' = x - y0 / f2inv - y1 / rq * rp
    by one classical fourth-order Runge-Kutta step over int32_t, with the
    forcing sampled at the start (x) and the end (xp) of the step and their
    average in the middle. The state lives in a `struct st` that `n` updates
    in place.

    The arithmetic of `n` is stated in exact integers with truncating
    division (StageSlopes, Next); `Defined` says that every int32_t value
    `n` computes along the way fits, no divisor is zero and no division is
    INT_MIN / -1, which is exactly when `n` has no undefined behaviour and
    the exact values are the ones C computes. */
module SineC {
  import opened Int32

  /** The fields of `struct st`: position, velocity, the inverse of the
      squared frequency, and the damping factor rp / rq. */
  datatype St = St(y0: i32, y1: i32, f2inv: i32, rp: i32, rq: i32)

  /** One Runge-Kutta stage: the slope of y0 (a velocity) and the slope of
      y1 (an acceleration). */
  datatype Slope = Slope(vel: int, acc: int)

  /** The four stages k1 .. k4 of one step (k1_0 .. k4_1 in sine.c). */
  datatype Slopes = Slopes(k1: Slope, k2: Slope, k3: Slope, k4: Slope)

  const NoSlope := Slope(0, 0)

  /** b is a with both components negated. */
  predicate Opposite(a: Slope, b: Slope) { b.vel == -a.vel && b.acc == -a.acc }

  /** Both components halved, truncating toward zero as C does. */
  function Halved(k: Slope): (r: Slope)
    ensures Abs(r.vel) <= Abs(k.vel) && Abs(r.acc) <= Abs(k.acc)
  {
    QuotFacts(k.vel, 2);
    QuotFacts(k.acc, 2);
    Slope(Quot(k.vel, 2), Quot(k.acc, 2))
  }

  predicate DivisorsNonZero(st: St) { st.f2inv != 0 && st.rq != 0 }

  /** The acceleration y1' for forcing `force`, position `pos` and velocity
      `vel`: force - pos / f2inv - vel / rq * rp. */
  function Accel(st: St, force: int, pos: int, vel: int): int
    requires DivisorsNonZero(st)
  {
    force - Quot(pos, st.f2inv) - Quot(vel, st.rq) * st.rp
  }

  /** `Accel` evaluated as `n` does it, in int32_t steps (the position and
      velocity are themselves computed sums): nothing overflows and no
      division is INT_MIN / -1. */
  predicate AccelDefined(st: St, force: int, pos: int, vel: int)
    requires DivisorsNonZero(st)
  {
    InRange(pos) && InRange(vel) &&
    InRange(Quot(pos, st.f2inv)) && InRange(force - Quot(pos, st.f2inv)) &&
    InRange(Quot(vel, st.rq)) && InRange(Quot(vel, st.rq) * st.rp) &&
    InRange(Accel(st, force, pos, vel))
  }

  /** The forcing in the middle of the step, x / 2 + xp / 2; it always fits. */
  function Midpoint(x: i32, xp: i32): (xi: i32)
    ensures Abs(xi) <= Abs(x) / 2 + Abs(xp) / 2
  {
    QuotFacts(x, 2);
    QuotFacts(xp, 2);
    Quot(x, 2) + Quot(xp, 2)
  }

  /** The stage evaluated at the state advanced by d (d.vel added to the
      position, d.acc to the velocity) under forcing `force`: the advanced
      velocity and the acceleration there. */
  function Stage(st: St, force: int, d: Slope): Slope
    requires DivisorsNonZero(st)
  {
    Slope(st.y1 + d.acc, Accel(st, force, st.y0 + d.vel, st.y1 + d.acc))
  }

  /** `Stage` evaluated in int32_t without undefined behaviour. */
  predicate StageDefined(st: St, force: int, d: Slope)
    requires DivisorsNonZero(st)
  {
    InRange(st.y1 + d.acc) && AccelDefined(st, force, st.y0 + d.vel, st.y1 + d.acc)
  }

  /** The Runge-Kutta chaining of four stages: the first at no advance
      under forcing x, the second and third advanced by half the previous
      stage under the midpoint forcing xi, the last advanced by the whole
      third stage under forcing xp. */
  function Chain(stage: (int, Slope) -> Slope, x: int, xi: int, xp: int): Slopes {
    var k1 := stage(x, NoSlope);
    var k2 := stage(xi, Halved(k1));
    var k3 := stage(xi, Halved(k2));
    Slopes(k1, k2, k3, stage(xp, k3))
  }

  /** The four Runge-Kutta stages of `n`, on the stages of st. */
  function StageSlopes(st: St, x: i32, xp: i32): (k: Slopes)
    requires DivisorsNonZero(st)
    ensures k.k1.vel == st.y1
    ensures k.k2.vel == st.y1 + Quot(k.k1.acc, 2) && k.k3.vel == st.y1 + Quot(k.k2.acc, 2)
    ensures k.k4.vel == st.y1 + k.k3.acc
  {
    Chain((force, d) => Stage(st, force, d), x, Midpoint(x, xp), xp)
  }

  /** The classical Runge-Kutta weighting of four slopes, truncated:
      (a + 2*b + 2*c + d) / 6. */
  function Mean(a: int, b: int, c: int, d: int): int {
    Quot(a + 2 * b + 2 * c + d, 6)
  }

  /** `a + 2 * b + 2 * c + d`, evaluated left to right in int32_t, does not overflow. */
  predicate MeanDefined(a: int, b: int, c: int, d: int) {
    InRange(2 * b) && InRange(2 * c) && InRange(a + 2 * b) &&
    InRange(a + 2 * b + 2 * c) && InRange(a + 2 * b + 2 * c + d)
  }

  /** What one step adds to the position (vel) and to the velocity (acc):
      the weighted means of the four stages. */
  function Increment(st: St, x: i32, xp: i32): (inc: Slope)
    requires DivisorsNonZero(st)
  {
    var k := StageSlopes(st, x, xp);
    Slope(Mean(k.k1.vel, k.k2.vel, k.k3.vel, k.k4.vel), Mean(k.k1.acc, k.k2.acc, k.k3.acc, k.k4.acc))
  }

  /** `n` has no undefined behaviour on st with forcing x, xp. */
  predicate Defined(st: St, x: i32, xp: i32) {
    DivisorsNonZero(st) &&
    var k := StageSlopes(st, x, xp);
    var xi := Midpoint(x, xp);
    StageDefined(st, x, NoSlope) && StageDefined(st, xi, Halved(k.k1)) &&
    StageDefined(st, xi, Halved(k.k2)) && StageDefined(st, xp, k.k3) &&
    MeanDefined(k.k1.vel, k.k2.vel, k.k3.vel, k.k4.vel) &&
    MeanDefined(k.k1.acc, k.k2.acc, k.k3.acc, k.k4.acc) &&
    InRange(st.y0 + Increment(st, x, xp).vel) && InRange(st.y1 + Increment(st, x, xp).acc)
  }

  /** The state after `n`: position and velocity each grow by their
      increment; the parameters are unchanged. */
  function Next(st: St, x: i32, xp: i32): (r: St)
    requires Defined(st, x, xp)
    ensures r.f2inv == st.f2inv && r.rp == st.rp && r.rq == st.rq
  {
    var inc := Increment(st, x, xp);
    St(st.y0 + inc.vel, st.y1 + inc.acc, st.f2inv, st.rp, st.rq)
  }

  /** `struct st`, updated in place by `n`. */
  class Sine {
    var y0: i32
    var y1: i32
    var f2inv: i32
    var rp: i32
    var rq: i32

    constructor(y0: i32, y1: i32, f2inv: i32, rp: i32, rq: i32)
      ensures Value() == St(y0, y1, f2inv, rp, rq)
    {
      this.y0, this.y1, this.f2inv, this.rp, this.rq := y0, y1, f2inv, rp, rq;
    }

    function Value(): St
      reads this
    {
      St(y0, y1, f2inv, rp, rq)
    }

    /** `n`: one Runge-Kutta step with forcing x at the start and xp at the
        end; only y0 and y1 are written, and the new y0 is returned. */
    method N(x: i32, xp: i32) returns (r: i32)
      requires Defined(Value(), x, xp)
      modifies this
      ensures Value() == Next(old(Value()), x, xp)
      ensures r == y0
    {
      var k := StageSlopes(Value(), x, xp);
      y0 := y0 + Mean(k.k1.vel, k.k2.vel, k.k3.vel, k.k4.vel);
      y1 := y1 + Mean(k.k1.acc, k.k2.acc, k.k3.acc, k.k4.acc);
      r := y0;
    }
  }

  // ---------------------------------------------------------------------
  // Properties

  /** Rest without forcing is a fixed point of `n` for any parameters with
      nonzero divisors. */
  lemma RestIsFixedPoint(f2inv: i32, rp: i32, rq: i32)
    requires f2inv != 0 && rq != 0
    ensures Defined(St(0, 0, f2inv, rp, rq), 0, 0)
    ensures Next(St(0, 0, f2inv, rp, rq), 0, 0) == St(0, 0, f2inv, rp, rq)
  {
    var st := St(0, 0, f2inv, rp, rq);
    StageAtRest(st);
    assert Halved(NoSlope) == NoSlope;
    assert StageSlopes(st, 0, 0) == Slopes(NoSlope, NoSlope, NoSlope, NoSlope);
    assert Increment(st, 0, 0) == NoSlope;
  }

  /** At rest, without forcing and without advance, a stage is zero and defined. */
  lemma StageAtRest(st: St)
    requires DivisorsNonZero(st) && st.y0 == 0 && st.y1 == 0
    ensures Stage(st, 0, NoSlope) == NoSlope && StageDefined(st, 0, NoSlope)
  {
    assert Quot(0, st.f2inv) == 0 && Quot(0, st.rq) == 0;
  }

  /** Without damping (rp == 0) the term vel / rq * rp is 0 at every stage,
      so the slopes do not depend on rq. */
  lemma UndampedSlopesIgnoreRq(st: St, rq': i32, x: i32, xp: i32)
    requires st.rp == 0 && DivisorsNonZero(st) && rq' != 0
    ensures StageSlopes(st.(rq := rq'), x, xp) == StageSlopes(st, x, xp)
  {
    var st' := st.(rq := rq');
    forall force: int, d: Slope
      ensures Stage(st', force, d) == Stage(st, force, d)
    {
    }
  }

  /** Without damping, the steps with two divisors rq agree wherever both
      are defined: the step depends on f2inv, the forcing and the state
      only. */
  lemma UndampedIgnoresRq(st: St, rq': i32, x: i32, xp: i32)
    requires st.rp == 0 && Defined(st, x, xp) && Defined(st.(rq := rq'), x, xp)
    ensures Next(st.(rq := rq'), x, xp) == Next(st, x, xp).(rq := rq')
  {
    UndampedSlopesIgnoreRq(st, rq', x, xp);
  }

  /** (a + 2b + 2c + d) / 6, truncated, lies between the least and the
      greatest of a, b, c, d. */
  lemma MeanBetween(a: int, b: int, c: int, d: int, lo: int, hi: int)
    requires lo <= a <= hi && lo <= b <= hi && lo <= c <= hi && lo <= d <= hi
    ensures lo <= Mean(a, b, c, d) <= hi
  {
    var sum := a + 2 * b + 2 * c + d;
    assert 6 * lo <= sum <= 6 * hi;
    if sum < 0 {
      assert Mean(a, b, c, d) == -((-sum) / 6);
    } else {
      assert Mean(a, b, c, d) == sum / 6;
    }
  }

  /** Each step moves the position by a weighted mean of the four stage
      velocities: never below the least of them nor above the greatest. */
  lemma PositionStepBetweenSlopes(st: St, x: i32, xp: i32, lo: int, hi: int)
    requires Defined(st, x, xp)
    requires var k := StageSlopes(st, x, xp);
      lo <= k.k1.vel <= hi && lo <= k.k2.vel <= hi && lo <= k.k3.vel <= hi && lo <= k.k4.vel <= hi
    ensures lo <= Next(st, x, xp).y0 - st.y0 <= hi
  {
    var k := StageSlopes(st, x, xp);
    MeanBetween(k.k1.vel, k.k2.vel, k.k3.vel, k.k4.vel, lo, hi);
  }

  /** Likewise the velocity moves by a weighted mean of the four stage
      accelerations. */
  lemma VelocityStepBetweenSlopes(st: St, x: i32, xp: i32, lo: int, hi: int)
    requires Defined(st, x, xp)
    requires var k := StageSlopes(st, x, xp);
      lo <= k.k1.acc <= hi && lo <= k.k2.acc <= hi && lo <= k.k3.acc <= hi && lo <= k.k4.acc <= hi
    ensures lo <= Next(st, x, xp).y1 - st.y1 <= hi
  {
    var k := StageSlopes(st, x, xp);
    MeanBetween(k.k1.acc, k.k2.acc, k.k3.acc, k.k4.acc, lo, hi);
  }

  /** The struct with position and velocity negated. */
  function Negated(st: St): (r: St)
    requires st.y0 != MIN && st.y1 != MIN
    ensures r.y0 == -st.y0 && r.y1 == -st.y1
    ensures r.f2inv == st.f2inv && r.rp == st.rp && r.rq == st.rq
  {
    St(-st.y0, -st.y1, st.f2inv, st.rp, st.rq)
  }

  /** The acceleration is odd in force, position and velocity together. */
  lemma AccelOdd(st: St, st': St, force: int, pos: int, vel: int)
    requires DivisorsNonZero(st) && st'.f2inv == st.f2inv && st'.rp == st.rp && st'.rq == st.rq
    ensures Accel(st', -force, -pos, -vel) == -Accel(st, force, pos, vel)
  {
    QuotOdd(pos, st.f2inv);
    QuotOdd(vel, st.rq);
    assert -Quot(vel, st.rq) * st.rp == -(Quot(vel, st.rq) * st.rp);
  }

  /** Halving commutes with negation, because C division truncates toward zero. */
  lemma HalvedOdd(d: Slope, d': Slope)
    requires Opposite(d, d')
    ensures Opposite(Halved(d), Halved(d'))
  {
    QuotOdd(d.vel, 2);
    QuotOdd(d.acc, 2);
  }

  /** A stage is odd: negating the state, the forcing and the advance
      negates the stage. */
  lemma StageOdd(st: St, st': St, force: int, d: Slope, d': Slope)
    requires DivisorsNonZero(st) && st'.f2inv == st.f2inv && st'.rp == st.rp && st'.rq == st.rq
    requires st'.y0 + st.y0 == 0 && st'.y1 + st.y1 == 0 && Opposite(d, d')
    ensures Opposite(Stage(st, force, d), Stage(st', -force, d'))
  {
    AccelOdd(st, st', force, st.y0 + d.vel, st.y1 + d.acc);
  }

  /** Chaining odd stages gives odd slopes: if stage' maps negated
      arguments to the negated result of stage, the chain of stage' on the
      negated forcing is the negated chain of stage. */
  lemma ChainOdd(stage: (int, Slope) -> Slope, stage': (int, Slope) -> Slope, x: int, xi: int, xp: int)
    requires forall force, force', d, d' | force' == -force && Opposite(d, d') ::
      Opposite(stage(force, d), stage'(force', d'))
    ensures var k := Chain(stage, x, xi, xp); var k' := Chain(stage', -x, -xi, -xp);
      Opposite(k.k1, k'.k1) && Opposite(k.k2, k'.k2) && Opposite(k.k3, k'.k3) && Opposite(k.k4, k'.k4)
  {
    var k := Chain(stage, x, xi, xp);
    var k' := Chain(stage', -x, -xi, -xp);
    assert Opposite(k.k1, k'.k1);
    HalvedOdd(k.k1, k'.k1);
    assert Opposite(k.k2, k'.k2);
    HalvedOdd(k.k2, k'.k2);
    assert Opposite(k.k3, k'.k3);
  }

  /** Negating the state and both forcing samples negates every stage. */
  lemma SlopesOdd(st: St, x: i32, xp: i32)
    requires DivisorsNonZero(st) && st.y0 != MIN && st.y1 != MIN && x != MIN && xp != MIN
    ensures var k := StageSlopes(st, x, xp); var k' := StageSlopes(Negated(st), -x, -xp);
      Opposite(k.k1, k'.k1) && Opposite(k.k2, k'.k2) && Opposite(k.k3, k'.k3) && Opposite(k.k4, k'.k4)
  {
    var st' := Negated(st);
    QuotOdd(x, 2);
    QuotOdd(xp, 2);
    assert Midpoint(-x, -xp) == -Midpoint(x, xp);
    forall force: int, force': int, d: Slope, d': Slope | force' == -force && Opposite(d, d')
      ensures Opposite(Stage(st, force, d), Stage(st', force', d'))
    {
      StageOdd(st, st', force, d, d');
    }
    ChainOdd((force, d) => Stage(st, force, d), (force, d) => Stage(st', force, d), x, Midpoint(x, xp), xp);
  }

  /** The weighted mean is odd, because C division truncates toward zero. */
  lemma MeanOdd(a: int, b: int, c: int, d: int)
    ensures Mean(-a, -b, -c, -d) == -Mean(a, b, c, d)
  {
    QuotOdd(a + 2 * b + 2 * c + d, 6);
    assert -a + 2 * -b + 2 * -c + -d == -(a + 2 * b + 2 * c + d);
  }

  /** `n` is odd: from the negated state with negated forcing it moves
      position and velocity by the negated increments, so wherever both
      steps are defined it reaches the negated state. */
  lemma StepIsOdd(st: St, x: i32, xp: i32)
    requires DivisorsNonZero(st) && st.y0 != MIN && st.y1 != MIN && x != MIN && xp != MIN
    ensures Opposite(Increment(st, x, xp), Increment(Negated(st), -x, -xp))
  {
    SlopesOdd(st, x, xp);
    var k := StageSlopes(st, x, xp);
    MeanOdd(k.k1.vel, k.k2.vel, k.k3.vel, k.k4.vel);
    MeanOdd(k.k1.acc, k.k2.acc, k.k3.acc, k.k4.acc);
  }
}
