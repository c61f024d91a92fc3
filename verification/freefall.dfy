/**
 The integration engine of the free-fall simulator: the class `ChuteLibre`.

 A simulator holds the parameters stored by its constructor. Each run starts
 at rest at the initial height and advances the state `(t, v, y)` by
 semi-implicit Euler steps: the velocity is updated first, the height then
 moves by the NEW velocity, time advances by one step, and the height is
 clamped at the ground. A run stops at the first sample whose height is not
 positive or whose time has reached the maximum; that sample is kept.

 All arithmetic is exact (`real`); see README.md for what that leaves out.
 */
module FreeFall {

  /** Gravitational acceleration set by the constructor (m/s²). */
  const G: real := 9.81

  /** The parameters the constructor stores, unvalidated: mass, drag
      coefficient, initial height, time step and maximum duration. */
  datatype Simulator = Simulator(m: real, k: real, y0: real, dt: real, tMax: real)

  /** Which of the two integration loops runs. */
  datatype Drag = WithDrag | WithoutDrag

  /** The loop variables of one sample: time, velocity (positive downwards)
      and height. */
  datatype State = State(t: real, v: real, y: real)

  /** The three parallel lists a run returns: times, velocities, heights. */
  datatype Series = Series(T: seq<real>, V: seq<real>, Y: seq<real>)

  /** The three lists have one entry per sample. */
  predicate Parallel(r: Series)
  {
    |r.T| == |r.V| == |r.Y|
  }

  /** A terminal velocity: unbounded without drag, a number otherwise. */
  datatype Speed = Infinite | Finite(value: real)

  /** What a caller of a run must provide: a positive time step (otherwise
      time does not advance towards the maximum), and for the drag loop a
      non-zero mass (it divides by it). */
  predicate Runnable(s: Simulator, d: Drag)
  {
    s.dt > 0.0 && (d == WithDrag ==> s.m != 0.0)
  }

  /** The acceleration of one step: gravity minus linear drag, or gravity. */
  function Accel(s: Simulator, d: Drag, v: real): real
    requires d == WithDrag ==> s.m != 0.0
  {
    match d
    case WithDrag => G - (s.k / s.m) * v
    case WithoutDrag => G
  }

  /** `max(0, y)`: the ground is at height 0. */
  function Clamp(y: real): real
  {
    if 0.0 >= y then 0.0 else y
  }

  /** The sample every run starts from. */
  function Initial(s: Simulator): State
  {
    State(0.0, 0.0, s.y0)
  }

  /** The first update of a loop body: `v += a·dt`. */
  function NextVelocity(s: Simulator, d: Drag, v: real): real
    requires d == WithDrag ==> s.m != 0.0
  {
    v + Accel(s, d, v) * s.dt
  }

  /** One iteration of a loop body: velocity first, then height with the
      updated velocity, then time, then the clamp. */
  function Step(s: Simulator, d: Drag, st: State): State
    requires d == WithDrag ==> s.m != 0.0
  {
    var v := NextVelocity(s, d, st.v);
    var y := st.y - v * s.dt;
    State(st.t + s.dt, v, Clamp(y))
  }

  /** The loop body's updates, made one variable at a time, amount to one
      `Step`; it lets the loops' proofs match their local updates against
      `Step` without redoing the arithmetic. */
  lemma StepParts(s: Simulator, d: Drag, st: State, a: real, t: real, v: real, y: real)
    requires d == WithDrag ==> s.m != 0.0
    requires a == Accel(s, d, st.v)
    requires v == st.v + a * s.dt
    requires y == Clamp(st.y - v * s.dt)
    requires t == st.t + s.dt
    ensures State(t, v, y) == Step(s, d, st)
  {
  }

  /** What one loop body guarantees about the height: the clamp keeps it at
      or above the ground, and a body on or above the ground whose new
      velocity points down (or is zero) does not rise. */
  lemma StepHeight(s: Simulator, d: Drag, st: State)
    requires d == WithDrag ==> s.m != 0.0
    ensures Step(s, d, st).y >= 0.0
    ensures st.y >= 0.0 && Step(s, d, st).v >= 0.0 && s.dt >= 0.0 ==>
              Step(s, d, st).y <= st.y
  {
    var w := NextVelocity(s, d, st.v);
    if w >= 0.0 && s.dt >= 0.0 {
      ProductSign(w, s.dt);
    }
  }

  /** The update order decides what each new field depends on: the
      velocity on the old velocity alone, the height on the old height and
      velocity, the time on the old time alone. */
  lemma StepDependence(s: Simulator, d: Drag, st: State, other: State)
    requires d == WithDrag ==> s.m != 0.0
    ensures other.v == st.v ==> Step(s, d, other).v == Step(s, d, st).v
    ensures other.v == st.v && other.y == st.y ==> Step(s, d, other).y == Step(s, d, st).y
    ensures other.t == st.t ==> Step(s, d, other).t == Step(s, d, st).t
  {
  }

  /** The loop guard: above the ground and before the maximum time. */
  predicate Running(s: Simulator, st: State)
  {
    st.y > 0.0 && st.t < s.tMax
  }

  /** The state after `n` iterations of the loop body, guard ignored. */
  function StateAt(s: Simulator, d: Drag, n: nat): State
    requires d == WithDrag ==> s.m != 0.0
  {
    if n == 0 then Initial(s) else Step(s, d, StateAt(s, d, n - 1))
  }

  /** The velocity after `n` iterations: the first update of the loop body
      applied `n` times from rest. */
  function VelocityAt(s: Simulator, d: Drag, n: nat): real
    requires d == WithDrag ==> s.m != 0.0
  {
    if n == 0 then 0.0 else NextVelocity(s, d, VelocityAt(s, d, n - 1))
  }

  /** The velocity never depends on the height or the time: the state after
      `n` iterations carries `VelocityAt(n)`. */
  lemma {:induction false} VelocityAtState(s: Simulator, d: Drag, n: nat)
    requires d == WithDrag ==> s.m != 0.0
    ensures StateAt(s, d, n).v == VelocityAt(s, d, n)
  {
    if n > 0 {
      VelocityAtState(s, d, n - 1);
    }
  }

  /** The least integer not below `x`. */
  function Ceil(x: real): (c: int)
    ensures x <= c as real < x + 1.0
  {
    -((-x).Floor)
  }

  /** The most iterations a run can make: ⌈tMax/dt⌉, or none when the
      maximum time is not positive. */
  function MaxSteps(s: Simulator): nat
    requires s.dt > 0.0
  {
    if s.tMax <= 0.0 then 0 else Ceil(s.tMax / s.dt)
  }

  /** The clock after `n` additions of `dt`, as the loop accumulates it. */
  function Elapsed(dt: real, n: nat): real
  {
    if n == 0 then 0.0 else Elapsed(dt, n - 1) + dt
  }

  /** Accumulating `dt` `n` times gives exactly `n·dt`. */
  lemma {:induction false} ElapsedIsMultiple(dt: real, n: nat)
    ensures Elapsed(dt, n) == n as real * dt
  {
    if n > 0 {
      ElapsedIsMultiple(dt, n - 1);
      NextMultiple(Elapsed(dt, n - 1), dt, n - 1);
    }
  }

  /** One more step after `k` of them makes `k + 1`. */
  lemma NextMultiple(t: real, dt: real, k: nat)
    requires t == k as real * dt
    ensures t + dt == (k + 1) as real * dt
  {
  }

  /** A loop body advances time by exactly one step. */
  lemma StepTime(s: Simulator, d: Drag, st: State)
    requires d == WithDrag ==> s.m != 0.0
    ensures Step(s, d, st).t == st.t + s.dt
  {
  }

  /** The loop's clock after `n` iterations is `dt` accumulated `n` times. */
  lemma {:induction false} ClockAt(s: Simulator, d: Drag, n: nat)
    requires d == WithDrag ==> s.m != 0.0
    ensures StateAt(s, d, n).t == Elapsed(s.dt, n)
  {
    if n > 0 {
      ClockAt(s, d, n - 1);
      StepTime(s, d, StateAt(s, d, n - 1));
    }
  }

  /** Time after `n` iterations is exactly `n·dt`. */
  lemma TimeAt(s: Simulator, d: Drag, n: nat)
    requires d == WithDrag ==> s.m != 0.0
    ensures StateAt(s, d, n).t == n as real * s.dt
  {
    ClockAt(s, d, n);
    ElapsedIsMultiple(s.dt, n);
  }

  /** Multiplying by a positive factor keeps a strict order. */
  lemma ScaleStrict(a: real, b: real, c: real)
    requires c > 0.0
    ensures a < b <==> a * c < b * c
  {
  }

  /** For a positive step, `n·dt < tMax` exactly when `n` is below
      ⌈tMax/dt⌉: the guard's time test counts iterations. */
  lemma BeforeDeadline(s: Simulator, n: nat)
    requires s.dt > 0.0
    ensures n as real * s.dt < s.tMax <==> n < MaxSteps(s)
  {
    var q := s.tMax / s.dt;
    assert q * s.dt == s.tMax;
    ScaleStrict(n as real, q, s.dt);
  }

  /** A state where the loop continues lies strictly before the bound. */
  lemma RunningBelowBound(s: Simulator, d: Drag, n: nat)
    requires Runnable(s, d)
    requires Running(s, StateAt(s, d, n))
    ensures n < MaxSteps(s)
  {
    TimeAt(s, d, n);
    BeforeDeadline(s, n);
  }

  /** The first index, from `i` on, at which the loop guard fails. */
  function StopFrom(s: Simulator, d: Drag, i: nat): (n: nat)
    requires Runnable(s, d)
    requires i <= MaxSteps(s)
    requires forall j :: 0 <= j < i ==> Running(s, StateAt(s, d, j))
    ensures i <= n <= MaxSteps(s)
    ensures !Running(s, StateAt(s, d, n))
    ensures forall j :: 0 <= j < n ==> Running(s, StateAt(s, d, j))
    decreases MaxSteps(s) - i
  {
    if Running(s, StateAt(s, d, i)) then
      RunningBelowBound(s, d, i);
      StopFrom(s, d, i + 1)
    else
      i
  }

  /** The number of iterations a run makes: the index of its last sample. */
  function StopIndex(s: Simulator, d: Drag): (n: nat)
    requires Runnable(s, d)
    ensures !Running(s, StateAt(s, d, n))
    ensures forall j :: 0 <= j < n ==> Running(s, StateAt(s, d, j))
    ensures n <= MaxSteps(s)
  {
    StopFrom(s, d, 0)
  }

  /** The samples 0..n of a run, as three parallel lists: each iteration
      appends its state to all three. */
  function Samples(s: Simulator, d: Drag, n: nat): Series
    requires d == WithDrag ==> s.m != 0.0
  {
    var st := StateAt(s, d, n);
    if n == 0 then Series([st.t], [st.v], [st.y])
    else
      var prev := Samples(s, d, n - 1);
      Series(prev.T + [st.t], prev.V + [st.v], prev.Y + [st.y])
  }

  /** The lists built by `n` iterations are parallel and hold `n + 1`
      samples, and sample `i` is the state after `i` iterations. */
  lemma {:induction false} SampleAt(s: Simulator, d: Drag, n: nat, i: nat)
    requires d == WithDrag ==> s.m != 0.0
    requires i <= n
    ensures var r := Samples(s, d, n);
            |r.T| == |r.V| == |r.Y| == n + 1 &&
            State(r.T[i], r.V[i], r.Y[i]) == StateAt(s, d, i)
  {
    if i < n {
      SampleAt(s, d, n - 1, i);
    } else if n > 0 {
      SampleAt(s, d, n - 1, 0);
    }
  }

  /** What a run returns: the samples up to the first that fails the guard. */
  function Trajectory(s: Simulator, d: Drag): Series
    requires Runnable(s, d)
  {
    Samples(s, d, StopIndex(s, d))
  }

  /** `simuler_avec_frottement`: the loop with linear air drag. */
  method SimulateWithDrag(s: Simulator) returns (T: seq<real>, V: seq<real>, Y: seq<real>)
    requires s.m != 0.0 && s.dt > 0.0
    ensures Series(T, V, Y) == Trajectory(s, WithDrag)
  {
    var t, v, y := 0.0, 0.0, s.y0;
    T, V, Y := [t], [v], [y];
    ghost var n: nat := 0;
    while y > 0.0 && t < s.tMax
      invariant n <= StopIndex(s, WithDrag)
      invariant State(t, v, y) == StateAt(s, WithDrag, n)
      invariant Series(T, V, Y) == Samples(s, WithDrag, n)
      decreases StopIndex(s, WithDrag) - n
    {
      ghost var before := State(t, v, y);
      var a := G - (s.k / s.m) * v;
      v := v + a * s.dt;
      y := y - v * s.dt;
      t := t + s.dt;
      y := Clamp(y);
      StepParts(s, WithDrag, before, a, t, v, y);
      T, V, Y := T + [t], V + [v], Y + [y];
      n := n + 1;
    }
  }

  /** `simuler_sans_frottement`: the same loop with gravity alone. */
  method SimulateWithoutDrag(s: Simulator) returns (T: seq<real>, V: seq<real>, Y: seq<real>)
    requires s.dt > 0.0
    ensures Series(T, V, Y) == Trajectory(s, WithoutDrag)
  {
    var t, v, y := 0.0, 0.0, s.y0;
    T, V, Y := [t], [v], [y];
    ghost var n: nat := 0;
    while y > 0.0 && t < s.tMax
      invariant n <= StopIndex(s, WithoutDrag)
      invariant State(t, v, y) == StateAt(s, WithoutDrag, n)
      invariant Series(T, V, Y) == Samples(s, WithoutDrag, n)
      decreases StopIndex(s, WithoutDrag) - n
    {
      ghost var before := State(t, v, y);
      var a := G;
      v := v + a * s.dt;
      y := y - v * s.dt;
      t := t + s.dt;
      y := Clamp(y);
      StepParts(s, WithoutDrag, before, a, t, v, y);
      T, V, Y := T + [t], V + [v], Y + [y];
      n := n + 1;
    }
  }

  /** `vitesse_limite`: infinite without drag, otherwise the speed at which
      the drag force k·v balances the weight m·g. */
  function TerminalVelocity(s: Simulator): (r: Speed)
    ensures r == Infinite <==> s.k == 0.0
    ensures r.Finite? ==> s.k * r.value == s.m * G
    ensures s.m > 0.0 && s.k > 0.0 ==> r.Finite? && r.value > 0.0
  {
    if s.k == 0.0 then Infinite else Finite(s.m * G / s.k)
  }

  /** At the terminal velocity the drag acceleration `g − (k/m)·v` vanishes,
      so a drag step leaves that velocity unchanged. */
  lemma TerminalVelocityIsEquilibrium(s: Simulator, v: real)
    requires s.m != 0.0 && s.k != 0.0
    requires v == TerminalVelocity(s).value
    ensures Accel(s, WithDrag, v) == 0.0
    ensures NextVelocity(s, WithDrag, v) == v
  {
    assert (s.k / s.m) * (s.m * G / s.k) == G;
  }

  // ---------------------------------------------------------------------
  // What every run returns

  /** The three lists are parallel and non-empty, start at rest at the
      initial height, and hold that one sample alone when the loop guard
      fails at once. */
  lemma TrajectoryShape(s: Simulator, d: Drag)
    requires Runnable(s, d)
    ensures var r := Trajectory(s, d);
            |r.T| == |r.V| == |r.Y| == StopIndex(s, d) + 1 &&
            r.T[0] == 0.0 && r.V[0] == 0.0 && r.Y[0] == s.y0 &&
            ((s.y0 <= 0.0 || s.tMax <= 0.0) ==> |r.T| == 1)
  {
    SampleAt(s, d, StopIndex(s, d), 0);
  }

  /** Consecutive samples are one loop body apart (see `StepHeight` and
      `StepDependence` for what one body guarantees). */
  lemma TrajectoryRecurrence(s: Simulator, d: Drag, i: nat)
    requires Runnable(s, d)
    requires i + 1 < |Trajectory(s, d).T|
    ensures var r := Trajectory(s, d);
            i + 1 < |r.V| && i + 1 < |r.Y| &&
            State(r.T[i + 1], r.V[i + 1], r.Y[i + 1]) ==
              Step(s, d, State(r.T[i], r.V[i], r.Y[i]))
  {
    var n := StopIndex(s, d);
    SampleAt(s, d, n, 0);
    SampleAt(s, d, n, i);
    SampleAt(s, d, n, i + 1);
  }

  /** Sample `i` is taken at time `i·dt`. */
  lemma TrajectoryTimes(s: Simulator, d: Drag)
    requires Runnable(s, d)
    ensures var r := Trajectory(s, d);
            forall i :: 0 <= i < |r.T| ==> r.T[i] == i as real * s.dt
  {
    var n := StopIndex(s, d);
    var r := Trajectory(s, d);
    SampleAt(s, d, n, 0);
    forall i | 0 <= i < |r.T|
      ensures r.T[i] == i as real * s.dt
    {
      SampleAt(s, d, n, i);
      TimeAt(s, d, i);
    }
  }

  /** The clamp keeps every height after the first at or above the ground;
      the first is the initial height itself. */
  lemma TrajectoryHeights(s: Simulator, d: Drag)
    requires Runnable(s, d)
    ensures var r := Trajectory(s, d);
            (forall i :: 1 <= i < |r.Y| ==> r.Y[i] >= 0.0) &&
            (s.y0 >= 0.0 ==> forall i :: 0 <= i < |r.Y| ==> r.Y[i] >= 0.0)
  {
    var n := StopIndex(s, d);
    var r := Trajectory(s, d);
    SampleAt(s, d, n, 0);
    forall i | 1 <= i < |r.Y|
      ensures r.Y[i] >= 0.0
    {
      SampleAt(s, d, n, i);
      assert StateAt(s, d, i) == Step(s, d, StateAt(s, d, i - 1));
    }
  }

  /** Every sample but the last passed the loop guard and the last failed
      it; the loop made at most ⌈tMax/dt⌉ iterations, and if it made fewer
      it stopped because the height reached the ground. */
  lemma TrajectoryStops(s: Simulator, d: Drag)
    requires Runnable(s, d)
    ensures var r := Trajectory(s, d);
            var last := |r.T| - 1;
            |r.T| == |r.Y| &&
            (forall i :: 0 <= i < last ==> r.Y[i] > 0.0 && r.T[i] < s.tMax) &&
            (r.Y[last] <= 0.0 || r.T[last] >= s.tMax) &&
            last <= MaxSteps(s) &&
            (last < MaxSteps(s) ==> r.Y[last] <= 0.0)
  {
    var n := StopIndex(s, d);
    var r := Trajectory(s, d);
    SampleAt(s, d, n, n);
    forall i | 0 <= i < n
      ensures r.Y[i] > 0.0 && r.T[i] < s.tMax
    {
      SampleAt(s, d, n, i);
    }
    TimeAt(s, d, n);
    BeforeDeadline(s, n);
  }

  // ---------------------------------------------------------------------
  // The two loops compared

  /** Without a drag coefficient the drag acceleration `g − (k/m)·v` is
      gravity alone, so both loops pass through the same states. */
  lemma {:induction false} SameStatesWithoutFriction(s: Simulator, n: nat)
    requires s.m != 0.0 && s.k == 0.0
    ensures StateAt(s, WithDrag, n) == StateAt(s, WithoutDrag, n)
  {
    if n > 0 {
      SameStatesWithoutFriction(s, n - 1);
      var prev := StateAt(s, WithDrag, n - 1);
      assert StateAt(s, WithDrag, n) == Step(s, WithDrag, prev);
      assert StateAt(s, WithoutDrag, n) == Step(s, WithoutDrag, prev);
      FrictionlessStep(s, prev);
    }
  }

  /** With `k == 0` a step of the drag loop is a step of the other loop. */
  lemma FrictionlessStep(s: Simulator, st: State)
    requires s.m != 0.0 && s.k == 0.0
    ensures Step(s, WithDrag, st) == Step(s, WithoutDrag, st)
  {
    assert s.k / s.m == 0.0;
    assert Accel(s, WithDrag, st.v) == Accel(s, WithoutDrag, st.v);
  }

  /** With `k == 0` the two loops return identical lists. */
  lemma DragFreeRunsAgree(s: Simulator)
    requires s.m != 0.0 && s.dt > 0.0 && s.k == 0.0
    ensures Trajectory(s, WithDrag) == Trajectory(s, WithoutDrag)
  {
    var a, b := StopIndex(s, WithDrag), StopIndex(s, WithoutDrag);
    SameStatesWithoutFriction(s, a);
    SameStatesWithoutFriction(s, b);
    assert a == b;
    SameSamplesWithoutFriction(s, a);
  }

  /** The lists built by the two loops agree when `k == 0`. */
  lemma {:induction false} SameSamplesWithoutFriction(s: Simulator, n: nat)
    requires s.m != 0.0 && s.k == 0.0
    ensures Samples(s, WithDrag, n) == Samples(s, WithoutDrag, n)
  {
    SameStatesWithoutFriction(s, n);
    if n > 0 {
      SameSamplesWithoutFriction(s, n - 1);
    }
  }

  /** Without drag the velocity grows linearly: `v = n·g·dt`. */
  lemma {:induction false} FreeFallVelocity(s: Simulator, n: nat)
    ensures VelocityAt(s, WithoutDrag, n) == n as real * G * s.dt
  {
    if n > 0 {
      FreeFallVelocity(s, n - 1);
    }
  }

  /** The distance fallen without drag after `n` steps, before the clamp:
      g·dt²·(1 + 2 + … + n), since the height moves by the updated velocity. */
  function FreeFallDrop(s: Simulator, n: nat): real
  {
    G * s.dt * s.dt * ((n * (n + 1)) as real / 2.0)
  }

  /** Without drag, while the body stays above the ground, the height after
      `n ≥ 1` steps is the initial height less `FreeFallDrop(n)`, clamped. */
  lemma {:induction false} FreeFallHeight(s: Simulator, n: nat)
    requires forall j :: 0 <= j < n ==> StateAt(s, WithoutDrag, j).y > 0.0
    ensures n >= 1 ==> StateAt(s, WithoutDrag, n).y == Clamp(s.y0 - FreeFallDrop(s, n))
  {
    if n >= 1 {
      var prev := StateAt(s, WithoutDrag, n - 1);
      assert prev.y == s.y0 - FreeFallDrop(s, n - 1) by {
        if n - 1 >= 1 {
          FreeFallHeight(s, n - 1);
        }
      }
      VelocityAtState(s, WithoutDrag, n);
      FreeFallVelocity(s, n);
      DropStep(s, n);
    }
  }

  /** Step `n` adds `n·g·dt²` to the drop. */
  lemma DropStep(s: Simulator, n: nat)
    requires n >= 1
    ensures FreeFallDrop(s, n - 1) + n as real * G * s.dt * s.dt == FreeFallDrop(s, n)
  {
    var c := G * s.dt * s.dt;
    assert (n - 1) * n + 2 * n == n * (n + 1);
    assert ((n - 1) * n) as real / 2.0 + n as real == (n * (n + 1)) as real / 2.0;
    assert n as real * G * s.dt * s.dt == c * n as real;
  }

  /** A run without drag: sample `i` has velocity `i·g·dt` and, after the
      first, height `y0 − FreeFallDrop(i)` clamped at the ground. */
  lemma TrajectoryFreeFall(s: Simulator)
    requires s.dt > 0.0
    ensures var r := Trajectory(s, WithoutDrag);
            Parallel(r) &&
            (forall i :: 0 <= i < |r.V| ==> r.V[i] == i as real * G * s.dt) &&
            (forall i :: 1 <= i < |r.Y| ==> r.Y[i] == Clamp(s.y0 - FreeFallDrop(s, i)))
  {
    var n := StopIndex(s, WithoutDrag);
    var r := Trajectory(s, WithoutDrag);
    SampleAt(s, WithoutDrag, n, 0);
    forall i | 0 <= i < |r.V|
      ensures r.V[i] == i as real * G * s.dt
      ensures i >= 1 ==> r.Y[i] == Clamp(s.y0 - FreeFallDrop(s, i))
    {
      SampleAt(s, WithoutDrag, n, i);
      VelocityAtState(s, WithoutDrag, i);
      FreeFallVelocity(s, i);
      FreeFallHeight(s, i);
    }
  }

  // ---------------------------------------------------------------------
  // Drag and the terminal velocity

  /** `x` to the power `n`. */
  function Pow(x: real, n: nat): real
  {
    if n == 0 then 1.0 else x * Pow(x, n - 1)
  }

  /** A drag step closes the gap to the terminal velocity by the factor
      `1 − k·dt/m`. */
  lemma DragStepGap(s: Simulator, v: real)
    requires s.m != 0.0 && s.k != 0.0
    ensures var vT := TerminalVelocity(s).value;
            vT - NextVelocity(s, WithDrag, v) == (1.0 - s.k * s.dt / s.m) * (vT - v)
  {
    var vT := TerminalVelocity(s).value;
    var r := s.k / s.m;
    assert r * vT == G;
    assert r * s.dt == s.k * s.dt / s.m;
    assert Accel(s, WithDrag, v) == r * (vT - v);
  }

  /** Starting from rest, `n` moves that each shrink the gap to `vT` by the
      factor `p`. */
  function Relax(vT: real, p: real, n: nat): real
  {
    if n == 0 then 0.0 else vT - p * (vT - Relax(vT, p, n - 1))
  }

  /** After `n` such moves the gap is `pⁿ·vT`. */
  lemma {:induction false} RelaxGap(vT: real, p: real, n: nat)
    ensures vT - Relax(vT, p, n) == Pow(p, n) * vT
  {
    if n > 0 {
      RelaxGap(vT, p, n - 1);
    }
  }

  /** The drag loop's velocity relaxes towards the terminal velocity by the
      factor `1 − k·dt/m` per step. */
  lemma {:induction false} VelocityRelaxes(s: Simulator, n: nat)
    requires s.m != 0.0 && s.k != 0.0
    ensures VelocityAt(s, WithDrag, n) == Relax(TerminalVelocity(s).value, 1.0 - s.k * s.dt / s.m, n)
  {
    if n > 0 {
      VelocityRelaxes(s, n - 1);
      DragStepGap(s, VelocityAt(s, WithDrag, n - 1));
    }
  }

  /** The velocity of the drag loop in closed form: after `n` steps from
      rest the gap to the terminal velocity `vT` is `(1 − k·dt/m)ⁿ·vT`. */
  lemma DragVelocityClosedForm(s: Simulator, n: nat)
    requires s.m != 0.0 && s.k != 0.0
    ensures var vT := TerminalVelocity(s).value;
            vT - VelocityAt(s, WithDrag, n) == Pow(1.0 - s.k * s.dt / s.m, n) * vT
  {
    VelocityRelaxes(s, n);
    RelaxGap(TerminalVelocity(s).value, 1.0 - s.k * s.dt / s.m, n);
  }

  /** One drag step of a velocity between rest and the terminal velocity,
      when `k·dt ≤ m`: the velocity moves a fraction `k·dt/m` of the way to
      the terminal velocity, so it neither falls nor overshoots. */
  lemma DragStepBounded(s: Simulator, v: real)
    requires s.m > 0.0 && s.k > 0.0 && s.dt > 0.0 && s.k * s.dt <= s.m
    requires 0.0 <= v <= TerminalVelocity(s).value
    ensures var w := NextVelocity(s, WithDrag, v);
            v <= w <= TerminalVelocity(s).value &&
            (v == 0.0 ==> w > 0.0)
  {
    var vT := TerminalVelocity(s).value;
    var c := s.k * s.dt / s.m;
    assert 0.0 < c <= 1.0 by {
      assert c * s.m == s.k * s.dt;
    }
    DragStepGap(s, v);
    PartialMove(v, NextVelocity(s, WithDrag, v), vT, c);
  }

  /** Moving a fraction `c` in (0, 1] of the way from `v` up to `vT` neither
      falls back nor overshoots, and leaves 0 when `vT` is positive. */
  lemma PartialMove(v: real, w: real, vT: real, c: real)
    requires 0.0 < c <= 1.0 && 0.0 <= v <= vT
    requires vT - w == (1.0 - c) * (vT - v)
    ensures v <= w <= vT
    ensures v == 0.0 && vT > 0.0 ==> w > 0.0
  {
    ProductSign(1.0 - c, vT - v);
    ProductSign(c, vT - v);
    assert (1.0 - c) * (vT - v) == (vT - v) - c * (vT - v);
  }

  /** With drag, when one step covers at most the relaxation time
      (`k·dt ≤ m`), the velocity rises monotonically from rest, stays
      positive after the first step and never passes the terminal velocity. */
  lemma {:induction false} DragVelocityBounded(s: Simulator, n: nat)
    requires s.m > 0.0 && s.k > 0.0 && s.dt > 0.0 && s.k * s.dt <= s.m
    ensures var v, w := VelocityAt(s, WithDrag, n), VelocityAt(s, WithDrag, n + 1);
            0.0 <= v <= w <= TerminalVelocity(s).value &&
            (n >= 1 ==> v > 0.0)
  {
    if n > 0 {
      DragVelocityBounded(s, n - 1);
    }
    DragStepBounded(s, VelocityAt(s, WithDrag, n));
  }

  /** A product of non-negative factors is non-negative, and positive
      when both are. */
  lemma ProductSign(a: real, b: real)
    requires a >= 0.0 && b >= 0.0
    ensures a * b >= 0.0
    ensures a > 0.0 && b > 0.0 ==> a * b > 0.0
  {
  }

  /** The product of two numbers in [-1, 1] stays in [-1, 1]. */
  lemma UnitProduct(x: real, y: real)
    requires -1.0 <= x <= 1.0 && -1.0 <= y <= 1.0
    ensures -1.0 <= x * y <= 1.0
  {
    var xy := x * y;
    ProductSign(1.0 + x, 1.0 - y);
    assert (1.0 + x) * (1.0 - y) == 1.0 + x - y - xy;
    ProductSign(1.0 - x, 1.0 + y);
    assert (1.0 - x) * (1.0 + y) == 1.0 - x + y - xy;
    assert xy <= 1.0;
    ProductSign(1.0 + x, 1.0 + y);
    assert (1.0 + x) * (1.0 + y) == 1.0 + x + y + xy;
    ProductSign(1.0 - x, 1.0 - y);
    assert (1.0 - x) * (1.0 - y) == 1.0 - x - y + xy;
    assert xy >= -1.0;
  }

  /** Powers of a number in [-1, 1] stay in [-1, 1]. */
  lemma {:induction false} PowInUnit(x: real, n: nat)
    requires -1.0 <= x <= 1.0
    ensures -1.0 <= Pow(x, n) <= 1.0
  {
    if n > 0 {
      PowInUnit(x, n - 1);
      UnitProduct(x, Pow(x, n - 1));
    }
  }

  /** When one step covers at most twice the relaxation time
      (`k·dt ≤ 2m`), the drag velocity may oscillate around the terminal
      velocity `vT` but never leaves [0, 2·vT]. */
  lemma DragVelocityInRange(s: Simulator, n: nat)
    requires s.m > 0.0 && s.k > 0.0 && s.dt > 0.0 && s.k * s.dt <= 2.0 * s.m
    ensures 0.0 <= VelocityAt(s, WithDrag, n) <= 2.0 * TerminalVelocity(s).value
  {
    var vT := TerminalVelocity(s).value;
    var c := s.k * s.dt / s.m;
    assert 0.0 < c <= 2.0 by {
      assert c * s.m == s.k * s.dt;
    }
    DragVelocityClosedForm(s, n);
    PowInUnit(1.0 - c, n);
    UnitScaled(VelocityAt(s, WithDrag, n), vT, Pow(1.0 - c, n));
  }

  /** A value `v` whose gap to a non-negative `w` is `q·w` with `q` in
      [-1, 1] lies in [0, 2·w]. */
  lemma UnitScaled(v: real, w: real, q: real)
    requires -1.0 <= q <= 1.0 && w >= 0.0
    requires w - v == q * w
    ensures 0.0 <= v <= 2.0 * w
  {
    ProductSign(1.0 - q, w);
    assert (1.0 - q) * w == w - q * w;
    ProductSign(1.0 + q, w);
    assert (1.0 + q) * w == w + q * w;
  }

  /** One drag step against one free-fall step from a velocity at least as
      large: the drag step ends no faster, and strictly slower when it
      started from a positive velocity or from a slower one. */
  lemma StepCompare(s: Simulator, a: real, b: real)
    requires s.m > 0.0 && s.k > 0.0 && s.dt > 0.0
    requires 0.0 <= a <= b
    ensures NextVelocity(s, WithDrag, a) <= NextVelocity(s, WithoutDrag, b)
    ensures a > 0.0 || a < b ==> NextVelocity(s, WithDrag, a) < NextVelocity(s, WithoutDrag, b)
  {
    var r := s.k / s.m;
    assert r > 0.0;
    assert NextVelocity(s, WithDrag, a) == a + G * s.dt - r * a * s.dt;
    ProductSign(r * a, s.dt);
  }

  /** Drag never makes the fall faster as long as one step covers at most
      twice the relaxation time (`k·dt ≤ 2m`): at every step the drag
      velocity is at most the free-fall velocity, and strictly below it from
      the second step on. */
  lemma {:induction false} DragSlowsFall(s: Simulator, n: nat)
    requires s.m > 0.0 && s.k > 0.0 && s.dt > 0.0 && s.k * s.dt <= 2.0 * s.m
    ensures VelocityAt(s, WithDrag, n) <= VelocityAt(s, WithoutDrag, n)
    ensures n >= 2 ==> VelocityAt(s, WithDrag, n) < VelocityAt(s, WithoutDrag, n)
  {
    if n > 0 {
      DragSlowsFall(s, n - 1);
      var a, b := VelocityAt(s, WithDrag, n - 1), VelocityAt(s, WithoutDrag, n - 1);
      DragVelocityInRange(s, n - 1);
      if n == 2 {
        assert a == NextVelocity(s, WithDrag, 0.0);
        assert a == G * s.dt;
      }
      StepCompare(s, a, b);
    }
  }

  /** A run whose first `k` states all pass the loop guard makes at least
      `k` iterations. */
  lemma StopsNoEarlierThan(s: Simulator, d: Drag, k: nat)
    requires Runnable(s, d)
    requires forall j :: 0 <= j < k ==> Running(s, StateAt(s, d, j))
    ensures k <= StopIndex(s, d)
  {
  }

  /** The simulator of `CoarseStepOvershoots`: `m = 1`, `k = 3`, `y0 = 100`,
      `dt = 1`, `tMax = 10`. */
  function Coarse(): Simulator
  {
    Simulator(1.0, 3.0, 100.0, 1.0, 10.0)
  }

  /** The first six states of the coarse drag run: the velocity swings
      around the terminal velocity `g/3` with growing amplitude. */
  lemma CoarseDragStates()
    ensures StateAt(Coarse(), WithDrag, 0) == State(0.0, 0.0, 100.0)
    ensures StateAt(Coarse(), WithDrag, 1) == State(1.0, 9.81, 90.19)
    ensures StateAt(Coarse(), WithDrag, 2) == State(2.0, -9.81, 100.0)
    ensures StateAt(Coarse(), WithDrag, 3) == State(3.0, 29.43, 70.57)
    ensures StateAt(Coarse(), WithDrag, 4) == State(4.0, -49.05, 119.62)
    ensures StateAt(Coarse(), WithDrag, 5) == State(5.0, 107.91, 11.71)
  {
    var s := Coarse();
    assert StateAt(s, WithDrag, 1) == State(1.0, 9.81, 90.19);
    assert StateAt(s, WithDrag, 2) == State(2.0, -9.81, 100.0);
    assert StateAt(s, WithDrag, 3) == State(3.0, 29.43, 70.57);
    assert StateAt(s, WithDrag, 4) == State(4.0, -49.05, 119.62);
  }

  /** The first five states of the coarse run without drag. */
  lemma CoarseFreeStates()
    ensures StateAt(Coarse(), WithoutDrag, 0) == State(0.0, 0.0, 100.0)
    ensures StateAt(Coarse(), WithoutDrag, 1) == State(1.0, 9.81, 90.19)
    ensures StateAt(Coarse(), WithoutDrag, 2) == State(2.0, 19.62, 70.57)
    ensures StateAt(Coarse(), WithoutDrag, 3) == State(3.0, 29.43, 41.14)
    ensures StateAt(Coarse(), WithoutDrag, 4) == State(4.0, 39.24, 1.9)
    ensures StateAt(Coarse(), WithoutDrag, 5).v == 49.05
  {
    var s := Coarse();
    assert StateAt(s, WithoutDrag, 1) == State(1.0, 9.81, 90.19);
    assert StateAt(s, WithoutDrag, 2) == State(2.0, 19.62, 70.57);
    assert StateAt(s, WithoutDrag, 3) == State(3.0, 29.43, 41.14);
  }

  /** The coarse drag run makes at least six iterations. */
  lemma CoarseDragRuns()
    ensures 6 <= StopIndex(Coarse(), WithDrag)
  {
    var s := Coarse();
    CoarseDragStates();
    forall j | 0 <= j < 6
      ensures Running(s, StateAt(s, WithDrag, j))
    {
      assert j == 0 || j == 1 || j == 2 || j == 3 || j == 4 || j == 5;
    }
    StopsNoEarlierThan(s, WithDrag, 6);
  }

  /** The coarse run without drag makes at least five iterations. */
  lemma CoarseFreeRuns()
    ensures 5 <= StopIndex(Coarse(), WithoutDrag)
  {
    var s := Coarse();
    CoarseFreeStates();
    forall j | 0 <= j < 5
      ensures Running(s, StateAt(s, WithoutDrag, j))
    {
      assert j == 0 || j == 1 || j == 2 || j == 3 || j == 4;
    }
    StopsNoEarlierThan(s, WithoutDrag, 5);
  }

  /** The step conditions of the lemmas above are needed: with `m = 1`,
      `k = 3` and `dt = 1` the drag run's velocity falls at the second
      sample, and its fifth sample, still above the ground, is faster than
      the fifth sample of the run without drag (11·g against 5·g). */
  lemma CoarseStepOvershoots()
    ensures var drag, free := Trajectory(Coarse(), WithDrag), Trajectory(Coarse(), WithoutDrag);
            5 < |drag.V| && 5 < |drag.Y| && 5 < |free.V| &&
            drag.V[2] < drag.V[1] && drag.V[5] > free.V[5] && drag.Y[5] > 0.0
  {
    var s := Coarse();
    CoarseDragStates();
    CoarseFreeStates();
    CoarseDragRuns();
    CoarseFreeRuns();
    var a, b := StopIndex(s, WithDrag), StopIndex(s, WithoutDrag);
    SampleAt(s, WithDrag, a, 1);
    SampleAt(s, WithDrag, a, 2);
    SampleAt(s, WithDrag, a, 5);
    SampleAt(s, WithoutDrag, b, 5);
  }

  /** A sample after which the run goes on and whose next velocity points
      down is followed by a height no greater than its own: once the body
      falls, its height never increases. */
  lemma TrajectoryHeightFalls(s: Simulator, d: Drag, i: nat)
    requires Runnable(s, d)
    requires i + 1 < |Trajectory(s, d).T|
    ensures var r := Trajectory(s, d);
            i + 1 < |r.Y| && i + 1 < |r.V| &&
            (r.V[i + 1] >= 0.0 ==> r.Y[i + 1] <= r.Y[i])
  {
    var r := Trajectory(s, d);
    TrajectoryRecurrence(s, d, i);
    TrajectoryStops(s, d);
    StepHeight(s, d, State(r.T[i], r.V[i], r.Y[i]));
  }
}
