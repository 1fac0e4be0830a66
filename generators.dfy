/** The waveform generators of src/osc.rs built on one oscillator: a
    rectangle (the sign of the oscillator's position at full scale), a
    triangle (a saturating integral of that rectangle) and a sawtooth (the
    triangle folded by the same sign). Each wraps the state of the generator
    it is built on and steps it first. */
module Generators {
  import opened Int32
  import opened Osc
  import opened Trajectory

  // ---------------------------------------------------------------------
  // Rectangle

  datatype RectangleState = RectangleState(y0: i32, osc: OscState)

  datatype Rectangle = Rectangle(base: Oscillator) {

    predicate CanStep(s: RectangleState, x0: i32) { base.CanStep(s.osc, x0) }

    /** Rectangle::step: full scale with the sign of the oscillator's new
        position; zero exactly when that position is zero. */
    function Step(s: RectangleState, x0: i32): (r: RectangleState)
      requires CanStep(s, x0)
      ensures r.osc == base.Step(s.osc, x0)
      ensures r.y0 == MAX || r.y0 == 0 || r.y0 == -MAX
      ensures r.y0 == 0 <==> r.osc.y0 == 0
      ensures r.y0 > 0 <==> r.osc.y0 > 0
    {
      var osc := base.Step(s.osc, x0);
      RectangleState(Signum(osc.y0) * MAX, osc)
    }

    /** The step as a partial function, for driving the generator over a sequence of forcing values. */
    function TryStep(s: RectangleState, x0: i32): Option<RectangleState> {
      if CanStep(s, x0) then Some(Step(s, x0)) else None
    }

    /** Rectangle::initial_state: output 0 and the oscillator's initial state. */
    function InitialState(): (r: RectangleState)
      requires base.HasInitialState()
      ensures r.y0 == 0 && r.osc == base.InitialState()
    {
      RectangleState(0, base.InitialState())
    }
  }

  // ---------------------------------------------------------------------
  // Triangle

  /** The full-scale slope of the triangle per unit of omega. */
  const TriangleScale := 10430

  datatype TriangleState = TriangleState(y0: i32, osc: OscState)

  datatype Triangle = Triangle(base: Oscillator) {

    /** Triangle::from_omega: a triangle on an undamped oscillator. */
    static function FromOmega(omega: i32): (t: Triangle)
      ensures t.base == Oscillator.FromOmega(omega)
    {
      Triangle(Oscillator(0, omega))
    }

    /** `omega * 10430` does not overflow and the oscillator can step. */
    predicate CanStep(s: TriangleState, x0: i32) {
      InRange(base.omega * TriangleScale) && base.CanStep(s.osc, x0)
    }

    /** Triangle::step: add the amplitude omega * 10430 with the sign of the
        oscillator's new position, saturating. The output moves in the
        direction of that sign times omega, by at most the amplitude, by
        exactly the signed amplitude unless that would leave the i32 range,
        and otherwise stops at the bound it would cross. */
    function Step(s: TriangleState, x0: i32): (r: TriangleState)
      requires CanStep(s, x0)
      ensures r.osc == base.Step(s.osc, x0)
      ensures var dir := Signum(r.osc.y0) * Signum(base.omega);
        (dir > 0 ==> s.y0 <= r.y0) && (dir < 0 ==> r.y0 <= s.y0) && (dir == 0 ==> r.y0 == s.y0)
      ensures Abs(r.y0 - s.y0) <= Abs(base.omega * TriangleScale)
      ensures var target := s.y0 + Signum(r.osc.y0) * (base.omega * TriangleScale);
        (InRange(target) ==> r.y0 == target) &&
        (target > MAX ==> r.y0 == MAX) && (target < MIN ==> r.y0 == MIN)
    {
      var amplitude := base.omega * TriangleScale;
      var osc := base.Step(s.osc, x0);
      AmplitudeFacts(base.omega, osc.y0);
      TriangleState(SaturatingAdd(s.y0, Signum(osc.y0) * amplitude), osc)
    }

    function TryStep(s: TriangleState, x0: i32): Option<TriangleState> {
      if CanStep(s, x0) then Some(Step(s, x0)) else None
    }

    /** Triangle::initial_state: output 0 and the oscillator's initial state. */
    function InitialState(): (r: TriangleState)
      requires base.HasInitialState()
      ensures r.y0 == 0 && r.osc == base.InitialState()
    {
      TriangleState(0, base.InitialState())
    }
  }

  /** The signed amplitude never overflows: omega * 10430 is never i32::MIN
      (2^31 is not a multiple of 10430), so its negation fits. */
  lemma AmplitudeFacts(omega: i32, y: i32)
    requires InRange(omega * TriangleScale)
    ensures InRange(Signum(y) * (omega * TriangleScale))
    ensures Signum(Signum(y) * (omega * TriangleScale)) == Signum(y) * Signum(omega)
    ensures Abs(Signum(y) * (omega * TriangleScale)) <= Abs(omega * TriangleScale)
  {
    assert omega * TriangleScale != MIN;
  }

  // ---------------------------------------------------------------------
  // Sawtooth

  datatype SawtoothState = SawtoothState(y0: i32, triangle: TriangleState)

  datatype Sawtooth = Sawtooth(base: Triangle) {

    /** Sawtooth::from_omega: a sawtooth on Triangle::from_omega(omega). */
    static function FromOmega(omega: i32): (w: Sawtooth)
      ensures w.base == Triangle.FromOmega(omega)
    {
      Sawtooth(Triangle.FromOmega(omega))
    }

    /** The triangle can step, and the product of its new output with the
        sign of its oscillator's position is not -i32::MIN. */
    predicate CanStep(s: SawtoothState, x0: i32) {
      base.CanStep(s.triangle, x0) &&
      var t := base.Step(s.triangle, x0);
      !(t.y0 == MIN && t.osc.y0 < 0)
    }

    /** Sawtooth::step: the triangle's new output, negated while the
        oscillator's position is negative and zero while it is zero. */
    function Step(s: SawtoothState, x0: i32): (r: SawtoothState)
      requires CanStep(s, x0)
      ensures r.triangle == base.Step(s.triangle, x0)
      ensures r.triangle.osc.y0 > 0 ==> r.y0 == r.triangle.y0
      ensures r.triangle.osc.y0 == 0 ==> r.y0 == 0
      ensures r.triangle.osc.y0 < 0 ==> r.y0 == -r.triangle.y0
    {
      var t := base.Step(s.triangle, x0);
      SignFold(t.y0, t.osc.y0);
      SawtoothState(t.y0 * Signum(t.osc.y0), t)
    }

    function TryStep(s: SawtoothState, x0: i32): Option<SawtoothState> {
      if CanStep(s, x0) then Some(Step(s, x0)) else None
    }

    /** Sawtooth::initial_state: output 0 and the triangle's initial state. */
    function InitialState(): (r: SawtoothState)
      requires base.base.HasInitialState()
      ensures r.y0 == 0 && r.triangle == base.InitialState()
    {
      SawtoothState(0, base.InitialState())
    }
  }

  /** Multiplying by a sign fits unless it negates i32::MIN. */
  lemma SignFold(y: i32, p: i32)
    requires !(y == MIN && p < 0)
    ensures InRange(y * Signum(p))
    ensures p > 0 ==> y * Signum(p) == y
    ensures p == 0 ==> y * Signum(p) == 0
    ensures p < 0 ==> y * Signum(p) == -y
  {
  }

  // ---------------------------------------------------------------------
  // Runs

  /** Driven from its initial state, a rectangle runs exactly as long as its
      oscillator does, its oscillator visits the same states, and its output
      is always full scale with the sign of the oscillator's position. */
  lemma RectangleFollowsOscillator(rect: Rectangle, xs: seq<i32>)
    requires rect.base.HasInitialState()
    ensures Runs(rect.TryStep, rect.InitialState(), xs) <==> Runs(rect.base.TryStep, rect.base.InitialState(), xs)
    ensures Runs(rect.base.TryStep, rect.base.InitialState(), xs) ==> forall i :: 0 <= i < |xs| ==>
      var r := Run(rect.TryStep, rect.InitialState(), xs)[i];
      r.osc == Run(rect.base.TryStep, rect.base.InitialState(), xs)[i] && r.y0 == Signum(r.osc.y0) * MAX
  {
    if Runs(rect.TryStep, rect.InitialState(), xs) {
      var carried := (r: RectangleState, o: OscState) => r.osc == o;
      forall a, b, x | carried(a, b) && rect.TryStep(a, x).Some?
        ensures rect.base.TryStep(b, x).Some? && carried(rect.TryStep(a, x).value, rect.base.TryStep(b, x).value)
      {
      }
      Simulation(rect.TryStep, rect.base.TryStep, carried, rect.InitialState(), rect.base.InitialState(), xs);
    }
    if Runs(rect.base.TryStep, rect.base.InitialState(), xs) {
      var related := (o: OscState, r: RectangleState) => r.osc == o && r.y0 == Signum(o.y0) * MAX;
      forall a, b, x | related(a, b) && rect.base.TryStep(a, x).Some?
        ensures rect.TryStep(b, x).Some? && related(rect.base.TryStep(a, x).value, rect.TryStep(b, x).value)
      {
      }
      Simulation(rect.base.TryStep, rect.TryStep, related, rect.base.InitialState(), rect.InitialState(), xs);
    }
  }

  /** A triangle's oscillator visits the same states as the oscillator run
      on its own, from any start. */
  lemma TriangleFollowsOscillator(tri: Triangle, s: TriangleState, xs: seq<i32>)
    requires InRange(tri.base.omega * TriangleScale)
    requires Runs(tri.base.TryStep, s.osc, xs)
    ensures Runs(tri.TryStep, s, xs)
    ensures forall i :: 0 <= i < |xs| ==>
      Run(tri.TryStep, s, xs)[i].osc == Run(tri.base.TryStep, s.osc, xs)[i]
  {
    var related := (o: OscState, t: TriangleState) => t.osc == o;
    forall a, b, x | related(a, b) && tri.base.TryStep(a, x).Some?
      ensures tri.TryStep(b, x).Some? && related(tri.base.TryStep(a, x).value, tri.TryStep(b, x).value)
    {
    }
    Simulation(tri.base.TryStep, tri.TryStep, related, s.osc, s, xs);
  }

  /** A sawtooth's run carries a triangle run on the same forcing values:
      wherever the sawtooth can step, so can its triangle, and its triangle
      visits the same states as the triangle run on its own. */
  lemma SawtoothFollowsTriangle(saw: Sawtooth, s: SawtoothState, xs: seq<i32>)
    requires Runs(saw.TryStep, s, xs)
    ensures Runs(saw.base.TryStep, s.triangle, xs)
    ensures forall i :: 0 <= i < |xs| ==>
      Run(saw.TryStep, s, xs)[i].triangle == Run(saw.base.TryStep, s.triangle, xs)[i]
  {
    var related := (w: SawtoothState, t: TriangleState) => w.triangle == t;
    forall a, b, x | related(a, b) && saw.TryStep(a, x).Some?
      ensures saw.base.TryStep(b, x).Some? && related(saw.TryStep(a, x).value, saw.base.TryStep(b, x).value)
    {
    }
    Simulation(saw.TryStep, saw.base.TryStep, related, s, s.triangle, xs);
  }
}
