# Free-fall simulator: the integration engine, in Dafny

This project models the numerical core of a small free-fall simulator: the
class `ChuteLibre` of `main.py`. A simulator stores a mass `m`, a linear
drag coefficient `k`, an initial height `y0`, a time step `dt`, a maximum
duration `t_max` and the gravitational acceleration `g = 9.81`. It offers two
runs and one derived quantity:

- `simuler_avec_frottement` starts at rest at `y0` and repeats a
  semi-implicit Euler step while the height is positive and the time is below
  `t_max`. Each step computes the acceleration `a = g - (k/m)·v`, updates the
  velocity first, then moves the height by the NEW velocity, advances time by
  `dt` and clamps the height at the ground (`max(0, y)`). Every sample goes
  into three parallel lists (times, velocities, heights). The sample that
  fails the loop guard is kept.
- `simuler_sans_frottement` is the same loop with `a = g`.
- `vitesse_limite` returns infinity when `k == 0` and `m·g/k` otherwise.

It also models the step of the form handler that aligns the two runs for
comparison: every list is cut to the length of the shorter run
(`main.py:145-148`).

Files:

- `freefall.dfy`, module `FreeFall`: the simulator. The parameters are a
  datatype `Simulator`, because the constructor only stores them and nothing
  changes them afterwards; `g` is the constant `G`. The two loops are the
  methods `SimulateWithDrag` and `SimulateWithoutDrag`. Each is a `while` loop
  over the locals `t, v, y` that appends to three growing sequences, and each
  is proved equal to the specification function `Trajectory`.
  `Trajectory(s, d)` is the list of states `StateAt(s, d, 0..StopIndex(s, d))`.
  `StateAt` iterates the loop body `Step`, and `StopIndex` is the first index
  where the loop guard `Running` fails. The lemmas state what the source
  promises about these lists.
- `interface.dfy`, module `Interface`: the truncation to the common length
  (`Align`), and `CompareRuns`, which runs both loops and aligns them as the
  handler does.

All arithmetic is over `real`, so the model is exact. Rounding is discussed
under "Left out".

Where the program's own text and the code disagree, or where a common
expectation about falling bodies does not hold for the discrete loop, the
model follows the code:

- The constructor validates nothing and raises no error, so there is no
  `InvalidParameter` path. The conditions the loops need are preconditions.
- The result message states "Chute plus rapide sans frottement"
  (`main.py:160`): the fall is faster without drag. For the loop this is
  proved when one step covers at most twice the relaxation time,
  `k·dt ≤ 2m` (`DragSlowsFall`). That the drag velocity rises monotonically
  towards `m·g/k`, a common expectation, is proved only when
  `k·dt ≤ m` (`DragVelocityBounded`); for `m < k·dt ≤ 2m` the velocity
  oscillates around `m·g/k` inside `[0, 2·m·g/k]` (`DragVelocityInRange`).
  `CoarseStepOvershoots` shows both claims failing at `k·dt = 3m`
  (`m = 1, k = 3, dt = 1`).
- A common expectation is that a run holds
  `floor(min(fall time, t_max)/dt) + 1` samples. The model proves what the
  loop guarantees instead: at most `⌈t_max/dt⌉` iterations, and an early stop
  only when the ground is reached (`TrajectoryStops`).
- Velocity is not set to zero at ground contact. The last velocity sample is
  the value before the clamp, as in the code.

## Model

| member | source | states |
|---|---|---|
| `FreeFall.SimulateWithDrag` | main.py:21-36 | The drag loop returns exactly `Trajectory(s, WithDrag)`: the states reached by the loop body from `(0, 0, y0)`, up to and including the first one that fails `y > 0 and t < t_max`. |
| `FreeFall.SimulateWithoutDrag` | main.py:38-53 | The loop without drag returns exactly `Trajectory(s, WithoutDrag)`, with the same termination rule. |
| `FreeFall.StepHeight` | main.py:28-30 | After one loop body the height is never below the ground. A body at or above the ground whose new velocity is not negative does not rise. |
| `FreeFall.StepDependence` | main.py:26-29 | The new velocity depends on the old velocity alone (not on the height or the time). The new height depends only on the old height and velocity. The new time depends only on the old time. |
| `FreeFall.VelocityAtState` | main.py:26-27 | The velocity after `n` iterations is the velocity update applied `n` times from rest, whatever the heights and times along the way. |
| `FreeFall.StopIndex` | main.py:25 | The number of iterations is the first index where the guard fails, and the guard held at every earlier index. |
| `FreeFall.SampleAt` | main.py:23-34 | After `n` iterations the three lists are parallel, hold `n + 1` samples, and sample `i` is the state after `i` iterations. |
| `FreeFall.TrajectoryShape` | main.py:22-25 | The returned lists have equal length of at least 1. The first sample is `(0, 0, y0)`. When `y0 <= 0` or `t_max <= 0` the result is that one sample. |
| `FreeFall.TrajectoryRecurrence` | main.py:26-34 | Each sample after the first is one loop body applied to the sample before it. |
| `FreeFall.ElapsedIsMultiple` | main.py:29 | Adding `dt` to a clock `n` times from 0 gives exactly `n·dt`. |
| `FreeFall.ClockAt` | main.py:22-29 | After `n` iterations the loop's clock is `dt` added `n` times to 0. |
| `FreeFall.TimeAt` | main.py:22-29 | After `n` iterations the time is exactly `n·dt`. |
| `FreeFall.TrajectoryTimes` | main.py:29-32 | Sample `i` of a run has time `i·dt`. |
| `FreeFall.TrajectoryHeights` | main.py:30 | Every height after the first is at least 0; if `y0 >= 0` every height is. |
| `FreeFall.TrajectoryHeightFalls` | main.py:28-34 | In a run, a sample whose successor's velocity is not negative is followed by a height no greater than its own: once the body falls, its height does not increase. |
| `FreeFall.TrajectoryStops` | main.py:25-35 | Every sample but the last satisfies `y > 0 and t < t_max`, and the last does not. There are at most `⌈t_max/dt⌉` iterations. Stopping earlier than that means the last height is at or below the ground. |
| `FreeFall.BeforeDeadline` | main.py:25 | With `dt > 0`, the time test `n·dt < t_max` holds exactly when `n < ⌈t_max/dt⌉` (and never when `t_max <= 0`). |
| `FreeFall.SameStatesWithoutFriction` | main.py:26 | When `k == 0`, the drag loop passes through the same states as the loop without drag. |
| `FreeFall.FrictionlessStep` | main.py:26-27 | When `k == 0`, one drag step equals one step without drag. |
| `FreeFall.DragFreeRunsAgree` | main.py:21-53 | When `k == 0`, both runs return identical lists. |
| `FreeFall.FreeFallVelocity` | main.py:43-44 | Without drag, the velocity after `n` steps is `n·g·dt`. |
| `FreeFall.DropStep` | main.py:44-45 | Step `n` without drag lowers the height by `n·g·dt²`, which takes the drop from `g·dt²·(n−1)n/2` to `g·dt²·n(n+1)/2`. |
| `FreeFall.FreeFallHeight` | main.py:43-47 | Without drag, while the body is above the ground, the height after `n >= 1` steps is `max(0, y0 - g·dt²·n(n+1)/2)`. The `n(n+1)` rather than `n(n-1)` comes from using the updated velocity. |
| `FreeFall.TrajectoryFreeFall` | main.py:38-53 | In a run without drag, sample `i` has velocity `i·g·dt`, and every height after the first is `max(0, y0 - g·dt²·i(i+1)/2)`. |
| `FreeFall.TerminalVelocity` | main.py:55-58 | The result is infinite exactly when `k == 0`. Otherwise `k·v = m·g`, meaning drag balances weight. It is positive when `m, k > 0`. |
| `FreeFall.TerminalVelocityIsEquilibrium` | main.py:26-27 | At the terminal velocity `m·g/k` of main.py:58 the drag acceleration `g - (k/m)·v` is zero, so a drag step leaves the velocity unchanged. |
| `FreeFall.DragStepGap` | main.py:26-27 | A drag step multiplies the gap to the terminal velocity `vT` by `1 − k·dt/m`: `vT − v' = (1 − k·dt/m)·(vT − v)`. |
| `FreeFall.RelaxGap` | main.py:26-27 | Starting from rest, `n` moves that each multiply the gap to `vT` by `p` leave a gap of `pⁿ·vT`. |
| `FreeFall.VelocityRelaxes` | main.py:22-27 | The drag velocity after `n` steps is `n` such moves with `p = 1 − k·dt/m`. |
| `FreeFall.DragVelocityClosedForm` | main.py:22-27 | The drag velocity after `n` steps from rest satisfies `vT − v_n = (1 − k·dt/m)ⁿ·vT`. |
| `FreeFall.DragStepBounded` | main.py:26-27 | If `k·dt <= m`, a drag step from a velocity between 0 and the terminal velocity does not lower it and does not pass the terminal velocity. From rest it makes the velocity positive. |
| `FreeFall.DragVelocityBounded` | main.py:22-27 | If `k·dt <= m`, the drag velocity never decreases, stays between 0 and the terminal velocity, and is positive after the first step. |
| `FreeFall.DragVelocityInRange` | main.py:22-27 | If `k·dt <= 2m`, the drag velocity stays between 0 and twice the terminal velocity. |
| `FreeFall.StepCompare` | main.py:26-44 | From velocities `0 <= a <= b`, a drag step from `a` ends no faster than a free-fall step from `b`, and strictly slower when `a > 0` or `a < b`. |
| `FreeFall.DragSlowsFall` | main.py:22-44 | If `k·dt <= 2m`, the drag velocity at each step is at most the free-fall velocity, and strictly below it from step 2 on. |
| `FreeFall.CoarseStepOvershoots` | main.py:21-53 | For `m = 1, k = 3, dt = 1, y0 = 100`, the drag run's velocity list drops from sample 1 to sample 2. Sample 5 of the drag run is faster than sample 5 of the run without drag while still above the ground. |
| `Interface.Take` | main.py:146-148 | The slice `xs[:n]` has length `min(n, len(xs))` and is a prefix of `xs`. |
| `Interface.Align` | main.py:145-148 | Each of the five aligned lists is a prefix of its source list. The time list has length `min(len(t1), len(t2))`. For parallel runs all five lists have that length. |
| `Interface.CompareRuns` | main.py:140-148 | The two aligned runs have five non-empty lists of equal length, and sample `i` is at time `i·dt`. They coincide when `k == 0`. If `k·dt <= 2m`, the drag velocity never exceeds the free-fall velocity at the same time. |

## Left out

- `SimulateWithDrag`: requires `m ≠ 0`. The source divides by `m` at line 26 and raises `ZeroDivisionError` when the loop body runs with `m == 0`; the handler's catch-all reports it. That error path is not modelled.
- `SimulateWithDrag`, `SimulateWithoutDrag`: require `dt > 0`. With `dt == 0` and a running guard the source loops forever. With `dt < 0` termination depends on the physics. These calls are outside the model.
- Floating point: the model is exact-arithmetic over `real`. With IEEE doubles, `t += dt` accumulates rounding, so the number of iterations can differ by one from `⌈t_max/dt⌉`. `float('inf')` is the datatype case `Infinite`. The Python `max(0, y)` returns the integer `0` when it clamps, which is the same number in the model.
- Convergence claims stated as tolerances are not modelled. These include the final velocity lying within 1% of `m·g/k`, and the fall time lying within one `dt` of `√(2·y0/g)`. The model proves the exact closed forms they would start from, `DragVelocityClosedForm` and `FreeFallHeight`, and the bounds `DragVelocityBounded` and `DragVelocityInRange`. That `(1 − k·dt/m)ⁿ` tends to 0 as `n` grows, and any bound on the fall time, are not proved.
- `exporter_csv` (main.py:60-68): writes a CSV file through pandas. This is I/O.
- `tracer_graphiques` and `animer` (main.py:70-107): matplotlib plotting and animation. This is rendering.
- `InterfaceSimulation` (main.py:110-181), apart from lines 145-148: Tk widgets, the event loop, parsing text fields with `float`, result messages formatted with `round`, and catch-all error reporting. This is GUI code. `CompareRuns` takes the parsed parameters as its argument.
