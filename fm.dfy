/** Frequency modulation in src/osc.rs: a carrier oscillator whose omega is
    shifted, at every step, by the position of a free-running modulator
    oscillator scaled by a modulation index. */
module FreqMod {
  import opened Int32
  import opened Scaled
  import opened Osc
  import opened Trajectory

  datatype FMState = FMState(y0: i32, carrier: OscState, modulator: OscState)

  /** The shift of the carrier's omega for a modulator position m:
      mult_div(m / 32768, index, 65536). It is never larger in magnitude than
      the index, is zero when the index is, and has the sign of m times the
      index. */
  function Deviation(m: i32, index: i32): (d: i32)
    ensures Abs(d) <= Abs(index)
    ensures index == 0 ==> d == 0
    ensures d == 0 || Signum(d) == Signum(m) * Signum(index)
  {
    var q := Quot(m, 32768);
    QuotFacts(m, 32768);
    DeviationBound(Abs(q), Abs(index));
    AbsMul(q, index);
    MultDiv(q, index, 65536)
  }

  /** |m / 32768| <= 65536 for every i32 m, so the rescaled product is at most |index|. */
  lemma DeviationBound(q: nat, index: nat)
    requires q <= 0x8000_0000 / 32768
    ensures (q * index) / 65536 <= index
  {
    MulMono(q, 65536, index);
    DivMono(q * index, 65536 * index, 65536);
  }

  datatype FM = FM(carrier: Oscillator, modulator: Oscillator, index: i32) {

    /** The carrier as it steps with the modulator at position m: its omega
        shifted by the deviation, its zeta unchanged. */
    function Instantaneous(m: i32): (o: Oscillator)
      requires InRange(carrier.omega + Deviation(m, index))
      ensures o.zeta == carrier.zeta
      ensures carrier.omega - Abs(index) <= o.omega <= carrier.omega + Abs(index)
    {
      Oscillator(carrier.zeta, carrier.omega + Deviation(m, index))
    }

    /** FM::step as a debug build runs it: None where the modulator's step,
        the shifted omega or the carrier's step overflows. */
    function TryStep(s: FMState, x0: i32): Option<FMState> {
      var m :- modulator.TryStep(s.modulator, 0);
      // the checked addition carrier.omega + deviation
      if !InRange(carrier.omega + Deviation(m.y0, index)) then None
      else
        var c :- Instantaneous(m.y0).TryStep(s.carrier, x0);
        Some(FMState(c.y0, c, m))
    }

    predicate CanStep(s: FMState, x0: i32) { TryStep(s, x0).Some? }

    /** FM::step, where it does not overflow: the modulator takes an unforced
        step, the carrier takes the forced step at the omega the modulator's
        new position sets, and the output is the carrier's new position. */
    function Step(s: FMState, x0: i32): (r: FMState)
      requires CanStep(s, x0)
      ensures modulator.TryStep(s.modulator, 0) == Some(r.modulator)
      ensures InRange(carrier.omega + Deviation(r.modulator.y0, index))
      ensures Instantaneous(r.modulator.y0).TryStep(s.carrier, x0) == Some(r.carrier)
      ensures r.y0 == r.carrier.y0
    {
      var m := modulator.TryStep(s.modulator, 0).value;
      var c := Instantaneous(m.y0).TryStep(s.carrier, x0).value;
      FMState(c.y0, c, m)
    }

    /** The modulator's step as seen by the FM generator: it ignores the forcing value. */
    function ModulatorStep(m: OscState, x0: i32): Option<OscState> {
      modulator.TryStep(m, 0)
    }

    /** FM::initial_state: output 0, both oscillators at their initial state. */
    function InitialState(): (r: FMState)
      requires carrier.HasInitialState() && modulator.HasInitialState()
      ensures r.y0 == 0 && r.carrier == carrier.InitialState() && r.modulator == modulator.InitialState()
    {
      FMState(0, carrier.InitialState(), modulator.InitialState())
    }
  }

  // ---------------------------------------------------------------------
  // Properties

  /** With index 0 the modulator has no effect: an FM step succeeds exactly
      when the modulator's and the carrier's own steps do, and then the
      carrier moves as it would alone. */
  lemma ZeroIndexStep(fm: FM, s: FMState, x0: i32)
    requires fm.index == 0
    ensures fm.CanStep(s, x0) <==>
      fm.modulator.TryStep(s.modulator, 0).Some? && fm.carrier.TryStep(s.carrier, x0).Some?
    ensures fm.CanStep(s, x0) ==>
      fm.carrier.TryStep(s.carrier, x0) == Some(fm.Step(s, x0).carrier) && fm.Step(s, x0).y0 == fm.Step(s, x0).carrier.y0
  {
    var m := fm.modulator.TryStep(s.modulator, 0);
    if m.Some? {
      assert fm.Instantaneous(m.value.y0) == fm.carrier;
    }
  }

  /** With index 0, an FM run is a run of the carrier alone on the same
      forcing values. */
  lemma ZeroIndexFollowsCarrier(fm: FM, s: FMState, xs: seq<i32>)
    requires fm.index == 0
    requires Runs(fm.TryStep, s, xs)
    ensures Runs(fm.carrier.TryStep, s.carrier, xs)
    ensures forall i :: 0 <= i < |xs| ==>
      Run(fm.TryStep, s, xs)[i].carrier == Run(fm.carrier.TryStep, s.carrier, xs)[i]
  {
    var related := (a: FMState, c: OscState) => a.carrier == c;
    forall a, b, x | related(a, b) && fm.TryStep(a, x).Some?
      ensures fm.carrier.TryStep(b, x).Some? && related(fm.TryStep(a, x).value, fm.carrier.TryStep(b, x).value)
    {
      ZeroIndexStep(fm, a, x);
    }
    Simulation(fm.TryStep, fm.carrier.TryStep, related, s, s.carrier, xs);
  }

  /** Conversely, with index 0, wherever the carrier runs alone and the
      modulator runs free, FM runs, and its carrier visits the carrier's
      own states. */
  lemma {:induction false} CarrierRunsZeroIndex(fm: FM, s: FMState, xs: seq<i32>)
    requires fm.index == 0
    requires Runs(fm.carrier.TryStep, s.carrier, xs)
    requires Runs(fm.ModulatorStep, s.modulator, xs)
    ensures Runs(fm.TryStep, s, xs)
    ensures forall i :: 0 <= i < |xs| ==>
      Run(fm.TryStep, s, xs)[i].carrier == Run(fm.carrier.TryStep, s.carrier, xs)[i]
    decreases |xs|
  {
    if xs != [] {
      ZeroIndexStep(fm, s, xs[0]);
      var next := fm.Step(s, xs[0]);
      assert fm.TryStep(s, xs[0]) == Some(next);
      assert next.carrier == fm.carrier.TryStep(s.carrier, xs[0]).value;
      assert next.modulator == fm.ModulatorStep(s.modulator, xs[0]).value;
      CarrierRunsZeroIndex(fm, next, xs[1..]);
    }
    ZeroIndexFollowsCarrier(fm, s, xs);
  }

  /** Whatever the forcing values, the modulator of an FM run visits the
      states of the modulator running free (forcing 0 at every step). */
  lemma ModulatorRunsFree(fm: FM, s: FMState, xs: seq<i32>)
    requires Runs(fm.TryStep, s, xs)
    ensures Runs(fm.ModulatorStep, s.modulator, xs)
    ensures forall i :: 0 <= i < |xs| ==>
      Run(fm.TryStep, s, xs)[i].modulator == Run(fm.ModulatorStep, s.modulator, xs)[i]
  {
    var related := (a: FMState, m: OscState) => a.modulator == m;
    forall a, b, x | related(a, b) && fm.TryStep(a, x).Some?
      ensures fm.ModulatorStep(b, x).Some? && related(fm.TryStep(a, x).value, fm.ModulatorStep(b, x).value)
    {
    }
    Simulation(fm.TryStep, fm.ModulatorStep, related, s, s.modulator, xs);
  }
}
