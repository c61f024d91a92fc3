/**
 The step of the desktop form's handler (`InterfaceSimulation.simuler`) that
 lines up the run with drag and the run without drag for side-by-side
 plotting and export: every list is cut to the length of the shorter run.
 */
module Interface {
  import opened FreeFall

  /** The five aligned lists handed on to plotting and export: the times of
      the drag run, then velocity and height with and without drag. */
  datatype Aligned = Aligned(t: seq<real>, v1: seq<real>, v2: seq<real>, y1: seq<real>, y2: seq<real>)

  function Min(a: nat, b: nat): nat
  {
    if a <= b then a else b
  }

  /** A slice `xs[:n]` with `n ≥ 0`: the first `n` elements, or the whole
      list when it is shorter. */
  function Take(xs: seq<real>, n: nat): (r: seq<real>)
    ensures |r| == Min(n, |xs|)
    ensures r <= xs
  {
    if n <= |xs| then xs[..n] else xs
  }

  /** Cuts both runs to the shorter time list. Each result is a prefix of
      the list it comes from; when both runs are parallel lists, all five
      results have the common length. */
  function Align(withDrag: Series, withoutDrag: Series): (a: Aligned)
    ensures a.t <= withDrag.T && a.v1 <= withDrag.V && a.y1 <= withDrag.Y
    ensures a.v2 <= withoutDrag.V && a.y2 <= withoutDrag.Y
    ensures |a.t| == Min(|withDrag.T|, |withoutDrag.T|)
    ensures Parallel(withDrag) && Parallel(withoutDrag) ==>
              |a.v1| == |a.v2| == |a.y1| == |a.y2| == |a.t|
  {
    var n := Min(|withDrag.T|, |withoutDrag.T|);
    Aligned(Take(withDrag.T, n), Take(withDrag.V, n), Take(withoutDrag.V, n),
            Take(withDrag.Y, n), Take(withoutDrag.Y, n))
  }

  /** Runs both loops on one simulator and aligns them. The five lists are
      non-empty and of equal length, sample `i` is taken at `i·dt`, the two
      runs coincide without drag, and when `k·dt ≤ 2m` the drag velocity
      never exceeds the free-fall velocity at the same time. */
  method CompareRuns(s: Simulator) returns (a: Aligned)
    requires s.m != 0.0 && s.dt > 0.0
    ensures a == Align(Trajectory(s, WithDrag), Trajectory(s, WithoutDrag))
    ensures 1 <= |a.t| && |a.t| == |a.v1| == |a.v2| == |a.y1| == |a.y2|
    ensures forall i :: 0 <= i < |a.t| ==> a.t[i] == i as real * s.dt
    ensures s.k == 0.0 ==> a.v1 == a.v2 && a.y1 == a.y2
    ensures s.m > 0.0 && s.k > 0.0 && s.k * s.dt <= 2.0 * s.m ==>
              forall i :: 0 <= i < |a.t| ==> a.v1[i] <= a.v2[i]
  {
    var t1, v1, y1 := SimulateWithDrag(s);
    var t2, v2, y2 := SimulateWithoutDrag(s);
    TrajectoryShape(s, WithDrag);
    TrajectoryShape(s, WithoutDrag);
    var tMin := Min(|t1|, |t2|);
    a := Aligned(t1[..tMin], v1[..tMin], v2[..tMin], y1[..tMin], y2[..tMin]);
    TrajectoryTimes(s, WithDrag);
    if s.k == 0.0 {
      DragFreeRunsAgree(s);
    }
    if s.m > 0.0 && s.k > 0.0 && s.k * s.dt <= 2.0 * s.m {
      forall i | 0 <= i < |a.t|
        ensures a.v1[i] <= a.v2[i]
      {
        SampleAt(s, WithDrag, StopIndex(s, WithDrag), i);
        SampleAt(s, WithoutDrag, StopIndex(s, WithoutDrag), i);
        VelocityAtState(s, WithDrag, i);
        VelocityAtState(s, WithoutDrag, i);
        DragSlowsFall(s, i);
      }
    }
  }
}
