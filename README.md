# lowpass oscillators in Dafny

A model of the signal generators of the `lowpass` synthesiser, with proofs.
Every generator is a damped harmonic oscillator

    y0' = y1
    y1' = x0 - zeta*omega*y1 - omega^2*y0

that takes one fourth-order Runge-Kutta step per sample in 32-bit fixed point.

The model covers two programs.

- `src/osc.rs`, the Rust core:
  - the scaled-arithmetic helpers `mult_div`, `mult_div2` and `add_div`;
  - the base `Oscillator` (`from_omega`, `step`, `many_steps`, `initial_state`);
  - the `Rectangle`, `Triangle` and `Sawtooth` generators built on one oscillator;
  - the frequency-modulation generator `FM` built on two oscillators.
- `sine.c`, the C integrator: the function `n`, which updates a
  `struct st` in place.

Modules, one file each:

- `Int32` (`int32.dfy`): the i32 range, division truncating toward zero (`Quot`), checked and saturating operations, and arithmetic facts.
- `Scaled` (`scaled.dfy`): `mult_div`, `mult_div2`, `add_div`.
- `Trajectory` (`trajectory.dfy`): driving any step function over a sequence of forcing values (`Runs`, `Run`), and the lemmas that relate two such runs.
- `Osc` (`oscillator.dfy`): the oscillator.
- `Generators` (`generators.dfy`): rectangle, triangle and sawtooth.
- `FreqMod` (`fm.dfy`): FM.
- `SineC` (`sine.dfy`): `n` as the method `Sine.N` of a class whose fields are the fields of `struct st`.

An unchecked Rust operation that overflows panics in a debug build. The model therefore makes every step partial:

- `TryStep` returns `None` exactly where one of the step's operations overflows.
- `CanStep` says it does not.
- `Step` is the step under `requires CanStep`.

In C, an overflowing `int32_t` operation is undefined behaviour. `n` is therefore stated on exact integers with truncating division. Its precondition `Defined` says that every intermediate value fits, that no divisor is zero and that no division is `INT_MIN / -1`.

## Model

| member | source | states |
|---|---|---|
| Int32.QuotFacts | src/osc.rs:17 | `/` truncates toward zero: the quotient's magnitude is the quotient of the magnitudes, its sign is the product of the signs, and it is never larger in magnitude than the dividend |
| Int32.QuotOdd | sine.c:27-28 | truncating division is odd in the dividend: (-a)/b == -(a/b) |
| Int32.SaturateFacts | src/osc.rs:18 | saturation keeps the sign, never increases the magnitude, and is the identity on the i32 range |
| Scaled.MultDiv | src/osc.rs:15-20 | mult_div is exactly a*b/c when a*b fits; on both branches (the body takes (a/c)*b saturated when a*b overflows) the result is never larger in magnitude than \|a*b\|/\|c\| and has the sign of a*b*c (or is zero) |
| Scaled.MultDiv2 | src/osc.rs:22-27 | mult_div2 is exactly a*b/(c*c) when a*b fits; on both branches (the body takes (a/c)*(b/c) when a*b overflows) the result is never larger in magnitude than \|a*b\|/(c*c) and has the sign of a*b (or is zero) |
| Scaled.AddDiv | src/osc.rs:29-34 | add_div is exactly (a+b)/c when a+b fits; the fallback a/c + b/c is never larger than the exact quotient, has its sign, and falls at most one unit short unless it saturates |
| Scaled.AddDivFallback | src/osc.rs:32 | when a+b overflows, a/c + b/c saturated is never larger in magnitude than \|a+b\|/\|c\|, has the sign of (a+b)*c (or is zero), and is at most one unit short unless it saturates |
| Trajectory.Run | src/osc.rs:75-82 | a run over n forcing values yields exactly n states |
| Trajectory.RunAt | src/osc.rs:77-80 | element i of a run is one step, with forcing value i, from element i-1 (from the start state when i = 0) |
| Trajectory.Simulation | src/osc.rs:77-80 | a step-by-step relation between two generators carries over to whole runs: the second runs wherever the first does, and related states appear at every index |
| Trajectory.RunKeeps | src/osc.rs:77-80 | a property that every step keeps holds at every state of a run, and no step fails |
| Osc.Oscillator.FromOmega | src/osc.rs:37-42 | the oscillator has the given omega and zeta = 0 |
| Osc.Oscillator.ManySteps | src/osc.rs:75-82 | the loop returns one state per forcing value; state i is the step from state i-1 (from the start state for i = 0) with forcing x0s[i] |
| Osc.Oscillator.InitialState | src/osc.rs:84-89 | position 0 and velocity omega*32768 |
| Osc.RestIsFixedPoint | src/osc.rs:43-73 | wherever omega^2 and omega*zeta can be rescaled, the step from rest without forcing succeeds and returns rest |
| Osc.RestRunStaysAtRest | src/osc.rs:75-82 | a run from rest with all forcing values zero never fails and visits only rest |
| Osc.MultDivByZero | src/osc.rs:15-20 | mult_div with a zero factor is zero |
| Osc.FreeStep | src/osc.rs:43-73 | with omega = 0 and no forcing, the step succeeds from every state, keeps the velocity, and adds add_div(y1, y1, 3) and then add_div(y1, y1, 6) to the position, each addition saturating |
| Osc.FreeStepCoasts | src/osc.rs:43-73 | with omega = 0 and no forcing, the step succeeds from every state, keeps the velocity, and moves the position from y0 towards y0 + y1, never past it |
| Osc.CoastingDisplacement | src/osc.rs:70 | the two position increments add_div(y1, y1, 3) and add_div(y1, y1, 6) each lie between 0 and y1, and so does their sum |
| Osc.StillOscillatorStaysAtRest | src/osc.rs:37-89 | the oscillator from from_omega(0) starts at rest and, without forcing, stays at rest at every step |
| Generators.Rectangle.Step | src/osc.rs:103-109 | the oscillator steps as on its own; the output is i32::MAX, 0 or -i32::MAX; it is zero exactly when the oscillator's position is zero and positive exactly when that position is positive |
| Generators.Rectangle.InitialState | src/osc.rs:111-116 | output 0 and the oscillator's initial state |
| Generators.Triangle.FromOmega | src/osc.rs:130-133 | a triangle on from_omega(omega) |
| Generators.Triangle.Step | src/osc.rs:135-142 | the oscillator steps as on its own; the output moves in the direction sign(position)*sign(omega), by at most \|omega*10430\|, by exactly the signed amplitude when the sum fits, and otherwise to the i32 bound it would cross |
| Generators.Triangle.InitialState | src/osc.rs:144-149 | output 0 and the oscillator's initial state |
| Generators.AmplitudeFacts | src/osc.rs:136-139 | sign(y)*omega*10430 never overflows, has the sign sign(y)*sign(omega), and is at most the amplitude in magnitude |
| Generators.Sawtooth.FromOmega | src/osc.rs:163-165 | a sawtooth on Triangle::from_omega(omega) |
| Generators.Sawtooth.Step | src/osc.rs:167-173 | the triangle steps as on its own; the output is the triangle's output while the oscillator's position is positive, zero while it is zero, and its negation while it is negative |
| Generators.Sawtooth.InitialState | src/osc.rs:175-180 | output 0 and the triangle's initial state |
| Generators.SignFold | src/osc.rs:170 | y * signum(p) fits unless it negates i32::MIN, and is y, 0 or -y by the sign of p |
| Generators.RectangleFollowsOscillator | src/osc.rs:103-116 | from its initial state, a rectangle runs exactly as long as its oscillator; its oscillator visits the oscillator's own states; its output is always signum(position)*i32::MAX |
| Generators.TriangleFollowsOscillator | src/osc.rs:135-142 | from any start, wherever the oscillator runs the triangle runs, and its oscillator visits the same states |
| Generators.SawtoothFollowsTriangle | src/osc.rs:167-173 | wherever a sawtooth runs, its triangle runs on its own, and the sawtooth's triangle visits the same states |
| FreqMod.Deviation | src/osc.rs:201 | the omega shift mult_div(m/32768, index, 65536) is at most \|index\| in magnitude, is zero when the index is, and has the sign of m*index |
| FreqMod.DeviationBound | src/osc.rs:201 | \|m/32768\| <= 65536 for an i32 m, so the rescaled product is at most the index |
| FreqMod.FM.Instantaneous | src/osc.rs:200-203 | the carrier used for this step keeps the carrier's zeta and has an omega within \|index\| of the carrier's |
| FreqMod.FM.Step | src/osc.rs:198-209 | the modulator takes an unforced step; the carrier steps at the omega set by the modulator's new position, and that omega fits; the output is the carrier's new position |
| FreqMod.FM.InitialState | src/osc.rs:211-217 | output 0 and both oscillators at their initial states |
| FreqMod.ZeroIndexStep | src/osc.rs:198-209 | with index 0, an FM step succeeds exactly when the modulator's and the carrier's own steps do, and the carrier then moves as it would alone |
| FreqMod.ZeroIndexFollowsCarrier | src/osc.rs:198-209 | with index 0, wherever FM runs the carrier runs alone on the same forcing, and FM's carrier visits the same states |
| FreqMod.CarrierRunsZeroIndex | src/osc.rs:198-209 | with index 0, wherever the carrier runs alone and the modulator runs free on the same forcing, FM runs, and its carrier visits the carrier's own states |
| FreqMod.ModulatorRunsFree | src/osc.rs:199 | whatever the forcing, FM's modulator visits the states of the modulator running free |
| SineC.Midpoint | sine.c:23 | the middle forcing x/2 + xp/2 never overflows, and its magnitude is at most \|x\|/2 + \|xp\|/2 |
| SineC.Halved | sine.c:30-33 | halving a stage (k/2 in C) never increases either component |
| SineC.StageSlopes | sine.c:25-43 | k1_0 is y1; k2_0, k3_0 and k4_0 are y1 plus k1_1/2, k2_1/2 and k3_1 |
| SineC.Next | sine.c:45-46 | the step changes only y0 and y1; f2inv, rp and rq are unchanged |
| SineC.Sine.constructor | sine.c:10-18 | the new struct holds the given fields |
| SineC.Sine.N | sine.c:21-51 | `n` writes y0 and y1 to the state the function Next gives, leaves f2inv, rp and rq alone, and returns the new y0 |
| SineC.RestIsFixedPoint | sine.c:21-51 | for any parameters with nonzero divisors, `n` from rest without forcing is defined and leaves the state at rest |
| SineC.UndampedSlopesIgnoreRq | sine.c:25-43 | with rp = 0, the four stages do not depend on rq |
| SineC.UndampedIgnoresRq | sine.c:21-46 | with rp = 0, two steps that differ only in rq reach the same y0 and y1 |
| SineC.MeanBetween | sine.c:45-46 | the truncated weighted mean (a + 2b + 2c + d)/6 lies between the least and the greatest of the four |
| SineC.PositionStepBetweenSlopes | sine.c:45 | the position moves by no less than the least of the four stage velocities and no more than the greatest |
| SineC.VelocityStepBetweenSlopes | sine.c:46 | the velocity moves by no less than the least of the four stage accelerations and no more than the greatest |
| SineC.AccelOdd | sine.c:26-28 | the acceleration x - y0/f2inv - y1/rq*rp is odd in x, y0 and y1 together |
| SineC.HalvedOdd | sine.c:30-33 | halving commutes with negation |
| SineC.StageOdd | sine.c:30-33 | negating the state, the forcing and the advance negates a stage |
| SineC.ChainOdd | sine.c:25-43 | chaining odd stages gives negated stages on negated forcing |
| SineC.SlopesOdd | sine.c:23-43 | negating y0, y1, x and xp negates all eight slopes k1_0 .. k4_1 |
| SineC.MeanOdd | sine.c:45-46 | the truncated weighted mean is odd |
| SineC.StepIsOdd | sine.c:21-46 | negating y0, y1, x and xp negates what `n` adds to y0 and to y1 |

## Left out

- `src/main.rs` and `src/bin/lp-sine.rs` are not part of this model. They parse the command line and write samples to an output stream.
- The `main` function of `sine.c` is not modelled. Neither is the `fprintf` of the new state in `n`; it is output only.
- A release build of the Rust code wraps on overflow. The model gives wrapping no meaning: a step that overflows is `None`, as in a debug build.
- Osc.Oscillator.Step: no bound on the oscillator's state is proved. The region where a step cannot overflow is characterised only for rest, and, for omega = 0 without forcing, everywhere. Any statement over symbolic states brings in every `mult_div` of the step at once.
- The Rust step combines its stages as (k1 + k4)/3 + (k2 + k3)/6. Those are not the classical Runge-Kutta weights (1, 2, 2, 1)/6 that `sine.c` uses. The model keeps each program's own weights.
- SineC.StepIsOdd: states the symmetry of the increments `n` adds to y0 and y1, not of the states `Next` returns. Relating two `Next` states needs `Defined` of both starts in one proof obligation, which is too costly for the solver. The states follow from the increments, because `Next` adds the increments to y0 and y1.
- SineC.UndampedIgnoresRq: holds only where `n` is defined for both values of rq. Whether one being defined implies the other is not proved.
- SineC.Sine.N: models the `struct st *` argument as one object. Aliasing between two such structs does not arise in `sine.c` and is not modelled.
