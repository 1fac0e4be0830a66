/** The base oscillator of src/osc.rs: a damped harmonic oscillator
      y0' = y1
      y1' = x0 - zeta*omega*y1 - omega^2*y0
    advanced by one fourth-order Runge-Kutta step per sample, in i32
    fixed point (omega and zeta carry a 2^16 scale). */
module Osc {
  import opened Int32
  import opened Scaled
  import opened Trajectory

  /** Position y0 and velocity y1. */
  datatype OscState = OscState(y0: i32, y1: i32)

  const Rest := OscState(0, 0)

  /** `k / 2` on an i32 (truncating; never overflows). */
  function Half(k: i32): i32 { Quot(k, 2) }

  datatype Oscillator = Oscillator(zeta: i32, omega: i32) {

    /** Oscillator::from_omega: an undamped oscillator. */
    static function FromOmega(omega: i32): (o: Oscillator)
      ensures o.omega == omega && o.zeta == 0
    {
      Oscillator(0, omega)
    }

    /** omega^2 and omega*zeta, rescaled by mult_div2(_, _, 256), can be computed. */
    predicate CoefficientsDefined() {
      MultDiv2Defined(omega, omega, 256) && MultDiv2Defined(omega, zeta, 256)
    }

    /** Oscillator::step as a debug build runs it: None exactly where one of
        its unchecked additions, subtractions or multiplications overflows
        (and the Rust code panics). */
    function TryStep(s: OscState, x0: i32): Option<OscState> {
      if !CoefficientsDefined() then None
      else
        var omega2 := MultDiv2(omega, omega, 256);
        var omegazeta := MultDiv2(omega, zeta, 256);
        var k1_0 := s.y1;
        var a1 :- CheckedSub(x0, MultDiv(s.y1, omegazeta, 65536));
        var k1_1 :- CheckedSub(a1, MultDiv(s.y0, omega2, 65536));
        var k2_0 :- CheckedAdd(k1_0, Half(k1_1));
        // the source recomputes `state.y1 + k1_1 / 2`, which is k2_0 (k1_0 is state.y1)
        var a2 :- CheckedSub(x0, MultDiv(k2_0, omegazeta, 65536));
        var b2 :- CheckedSub(a2, MultDiv(s.y0, omega2, 65536));
        var k2_1 :- CheckedSub(b2, MultDiv(Half(k1_0), omega2, 65536));
        var k3_0 :- CheckedAdd(k1_0, Half(k2_1));
        var a3 :- CheckedSub(x0, MultDiv(k3_0, omegazeta, 65536));
        var b3 :- CheckedSub(a3, MultDiv(s.y0, omega2, 65536));
        var k3_1 :- CheckedSub(b3, MultDiv(Half(k2_0), omega2, 65536));
        var k4_0 :- CheckedAdd(k1_0, k3_1);
        var a4 :- CheckedSub(x0, MultDiv(k4_0, omegazeta, 65536));
        var b4 :- CheckedSub(a4, MultDiv(s.y0, omega2, 65536));
        var k4_1 :- CheckedSub(b4, MultDiv(k3_0, omega2, 65536));
        // position: saturating; velocity: plain (checked) addition
        var y0 := SaturatingAdd(SaturatingAdd(s.y0, AddDiv(k1_0, k4_0, 3)), AddDiv(k2_0, k3_0, 6));
        var w :- CheckedAdd(s.y1, AddDiv(k1_1, k4_1, 3));
        var y1 :- CheckedAdd(w, AddDiv(k2_1, k3_1, 6));
        Some(OscState(y0, y1))
    }

    predicate CanStep(s: OscState, x0: i32) { TryStep(s, x0).Some? }

    /** Oscillator::step, where it does not overflow. */
    function Step(s: OscState, x0: i32): OscState
      requires CanStep(s, x0)
    {
      TryStep(s, x0).value
    }

    /** `omega * 32768` does not overflow. */
    predicate HasInitialState() { InRange(omega * 32768) }

    /** Oscillator::initial_state: at the origin, moving with velocity
        omega in 2^15 scale. */
    function InitialState(): (s: OscState)
      requires HasInitialState()
      ensures s.y0 == 0 && s.y1 == omega * 32768
    {
      OscState(0, omega * 32768)
    }

    /** Oscillator::many_steps: fold step over x0s, collecting every new
        state; element i is the step with forcing x0s[i] from element i-1,
        or from s when i = 0. */
    method ManySteps(s: OscState, x0s: seq<i32>) returns (res: seq<OscState>)
      requires Runs(TryStep, s, x0s)
      ensures res == Run(TryStep, s, x0s)
      ensures |res| == |x0s|
      ensures forall i :: 0 <= i < |x0s| ==>
        TryStep(if i == 0 then s else res[i - 1], x0s[i]) == Some(res[i])
    {
      var state := s;
      res := [];
      assert x0s[0..] == x0s;
      for i := 0 to |x0s|
        invariant Runs(TryStep, state, x0s[i..])
        invariant Run(TryStep, s, x0s) == res + Run(TryStep, state, x0s[i..])
      {
        RunAdvance(TryStep, s, x0s, i, res, state);
        state := Step(state, x0s[i]);
        res := res + [state];
      }
      forall i | 0 <= i < |x0s|
        ensures TryStep(if i == 0 then s else res[i - 1], x0s[i]) == Some(res[i])
      {
        RunAt(TryStep, s, x0s, i);
      }
    }
  }

  // ---------------------------------------------------------------------
  // Properties

  /** Rest with no forcing is a fixed point of every oscillator whose coefficients can be computed. */
  lemma RestIsFixedPoint(o: Oscillator)
    requires o.CoefficientsDefined()
    ensures o.CanStep(Rest, 0) && o.Step(Rest, 0) == Rest
  {
  }

  /** Every state of a run from rest without forcing is rest. */
  lemma RestRunStaysAtRest(o: Oscillator, xs: seq<i32>)
    requires o.CoefficientsDefined()
    requires forall i :: 0 <= i < |xs| ==> xs[i] == 0
    ensures Runs(o.TryStep, Rest, xs)
    ensures forall i :: 0 <= i < |xs| ==> Run(o.TryStep, Rest, xs)[i] == Rest
  {
    RestIsFixedPoint(o);
    RunKeeps(o.TryStep, a => a == Rest, Rest, xs);
  }

  /** A zero factor gives a zero product, so mult_div returns 0 on its exact path. */
  lemma MultDivByZero(a: i32, b: i32, c: i32)
    requires c != 0
    ensures MultDiv(a, 0, c) == 0 && MultDiv(0, b, c) == 0
  {
  }

  /** v lies between a and b, in either order. */
  predicate Between(a: int, v: int, b: int) {
    (a <= v <= b) || (b <= v <= a)
  }

  /** Without a spring (omega = 0) and without forcing, a step never fails
      from any state: the velocity is kept, and the position moves from y0
      towards y0 + y1, no further. */
  lemma FreeStepCoasts(s: OscState)
    ensures Oscillator.FromOmega(0).CanStep(s, 0)
    ensures Oscillator.FromOmega(0).Step(s, 0).y1 == s.y1
    ensures Between(s.y0, Oscillator.FromOmega(0).Step(s, 0).y0, s.y0 + s.y1)
  {
    var far := AddDiv(s.y1, s.y1, 3);
    var near := AddDiv(s.y1, s.y1, 6);
    FreeStep(s);
    CoastingDisplacement(s.y1, far, near);
    var mid := SaturatingAdd(s.y0, far);
    SaturateFacts(s.y0 as int + far);
    SaturateFacts(mid as int + near);
  }

  /** A free step in closed form: every acceleration is zero, so the
      velocity is kept and the position takes both add_div increments. */
  lemma FreeStep(s: OscState)
    ensures Oscillator.FromOmega(0).TryStep(s, 0)
      == Some(OscState(SaturatingAdd(SaturatingAdd(s.y0, AddDiv(s.y1, s.y1, 3)), AddDiv(s.y1, s.y1, 6)), s.y1))
  {
    var o := Oscillator.FromOmega(0);
    assert o.CoefficientsDefined() && MultDiv2(0, 0, 256) == 0;
    MultDivByZero(s.y0, 0, 65536);
    MultDivByZero(s.y1, 0, 65536);
    MultDivByZero(Half(s.y1), 0, 65536);
    // every acceleration is the forcing 0, so every stage velocity is y1
    assert CheckedSub(0, 0) == Some(0) && Half(0) == 0;
    assert CheckedAdd(s.y1, 0) == Some(s.y1);
    assert AddDiv(0, 0, 3) == 0 && AddDiv(0, 0, 6) == 0;
  }

  /** The two position increments of a free step, (2*y1)/3 and (2*y1)/6
      as add_div computes them, both have the sign of y1 and together are
      at most y1 in magnitude. */
  lemma CoastingDisplacement(y1: i32, far: i32, near: i32)
    requires far == AddDiv(y1, y1, 3) && near == AddDiv(y1, y1, 6)
    ensures Between(0, far, y1) && Between(0, near, y1) && Between(0, far + near, y1)
  {
  }

  /** The oscillator with omega = 0 starts at rest and, without forcing,
      stays there. */
  lemma StillOscillatorStaysAtRest(xs: seq<i32>)
    requires forall i :: 0 <= i < |xs| ==> xs[i] == 0
    ensures Oscillator.FromOmega(0).HasInitialState() && Oscillator.FromOmega(0).InitialState() == Rest
    ensures Runs(Oscillator.FromOmega(0).TryStep, Rest, xs)
    ensures forall i :: 0 <= i < |xs| ==> Run(Oscillator.FromOmega(0).TryStep, Rest, xs)[i] == Rest
  {
    RestRunStaysAtRest(Oscillator.FromOmega(0), xs);
  }
}
