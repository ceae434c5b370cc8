/**
  Elkan's accelerated k-means.

  Distances are reals and come from an arbitrary metric. The pruned loop keeps, for every
  sample, lower bounds to all centers and an upper bound to the assigned center, and skips
  distance computations on the strength of those bounds. The module proves that the skipping
  is invisible: a whole run is a run of Lloyd's iteration with exact nearest-center assignment.
 */
module Elkan {

  /** Stands for the largest finite float; running minima start from it. */
  const FLT_MAX: real := 340282346638528859811704183484516925440.0

  const MAX_ITERATIONS: nat := 500

  /** The metric axioms. They are consulted one corner at a time, by naming the corner. */
  ghost predicate IsMetric<P(!new)>(d: (P, P) -> real) {
    forall x, y, z {:trigger Corner(x, y, z)} :: Corner(x, y, z) ==>
      && d(x, y) == d(y, x)
      && d(x, z) <= d(x, y) + d(y, z)
      && 0.0 <= d(x, y) <= FLT_MAX
  }

  ghost predicate Corner<P>(x: P, y: P, z: P) { true }

  /** Center `a` is at least as close to `x` as any other: what brute-force assignment guarantees. */
  ghost predicate Nearest<P(!new)>(d: (P, P) -> real, x: P, centers: seq<P>, a: nat) {
    a < |centers| && forall k :: 0 <= k < |centers| ==> d(x, centers[a]) <= d(x, centers[k])
  }

  ghost predicate AllNearest<P(!new)>(d: (P, P) -> real, samples: seq<P>, centers: seq<P>, assign: seq<nat>) {
    |assign| == |samples| && forall j :: 0 <= j < |samples| ==> Nearest(d, samples[j], centers, assign[j])
  }

  /** Row `j` of the lower-bound table never exceeds the true distances. */
  ghost predicate LowerRowOk<P(!new)>(d: (P, P) -> real, x: P, centers: seq<P>, lower: array2<real>, j: nat)
    requires j < lower.Length0 && lower.Length1 == |centers|
    reads lower
  {
    forall k :: 0 <= k < |centers| ==> lower[j, k] <= d(x, centers[k])
  }

  /** Lower bounds hold from below and upper bounds from above for every sample. */
  ghost predicate BoundsOk<P(!new)>(d: (P, P) -> real, samples: seq<P>, centers: seq<P>,
                                    lower: array2<real>, upper: array<real>, closest: array<nat>)
    requires lower.Length0 == |samples| == upper.Length == closest.Length && lower.Length1 == |centers|
    reads lower, upper, closest
  {
    forall j :: 0 <= j < |samples| ==>
      && LowerRowOk(d, samples[j], centers, lower, j)
      && closest[j] < |centers|
      && d(samples[j], centers[closest[j]]) <= upper[j]
  }

  /** Every upper bound is the exact distance to the assigned center. */
  ghost predicate UpperExact<P(!new)>(d: (P, P) -> real, samples: seq<P>, centers: seq<P>,
                                      upper: array<real>, closest: array<nat>)
    requires |samples| == upper.Length == closest.Length
    reads upper, closest
  {
    forall j :: 0 <= j < |samples| ==> closest[j] < |centers| && upper[j] == d(samples[j], centers[closest[j]])
  }

  /** `half` holds half the inter-center distances and `s[a]` is below all of row `a`. */
  ghost predicate HalfOk<P(!new)>(d: (P, P) -> real, centers: seq<P>, half: array2<real>, s: array<real>)
    requires half.Length0 == half.Length1 == s.Length == |centers|
    reads half, s
  {
    forall a, b :: 0 <= a < |centers| && 0 <= b < |centers| && a != b ==>
      half[a, b] == 0.5 * d(centers[a], centers[b]) && s[a] <= half[a, b]
  }

  /** Lemma 1 of Elkan's paper: a center no nearer than twice the upper bound cannot win. */
  lemma FarCenterLoses<P(!new)>(d: (P, P) -> real, x: P, c: P, other: P, u: real)
    requires IsMetric(d)
    requires d(x, c) <= u <= 0.5 * d(c, other)
    ensures d(x, c) <= d(x, other)
  {
    assert Corner(c, x, other);
  }

  /** Fills the distance table (the part of k-means++ seeding the bounds start from). */
  method FillDistances<P(!new)>(d: (P, P) -> real, samples: seq<P>, centers: seq<P>, lower: array2<real>)
    requires lower.Length0 == |samples| && lower.Length1 == |centers|
    modifies lower
    ensures forall j, k :: 0 <= j < |samples| && 0 <= k < |centers| ==> lower[j, k] == d(samples[j], centers[k])
  {
    for i := 0 to |centers|
      invariant forall j, k :: 0 <= j < |samples| && 0 <= k < i ==> lower[j, k] == d(samples[j], centers[k])
    {
      for j := 0 to |samples|
        invariant forall j', k :: 0 <= j' < |samples| && 0 <= k < i ==> lower[j', k] == d(samples[j'], centers[k])
        invariant forall j' :: 0 <= j' < j ==> lower[j', i] == d(samples[j'], centers[i])
      {
        lower[j, i] := d(samples[j], centers[i]);
      }
    }
  }

  /** Assigns each sample to its closest initial center. */
  method AssignInitial<P(!new)>(d: (P, P) -> real, samples: seq<P>, centers: seq<P>,
                                lower: array2<real>, upper: array<real>, closest: array<nat>)
    requires IsMetric(d) && |centers| > 0
    requires lower.Length0 == |samples| == upper.Length == closest.Length && lower.Length1 == |centers|
    requires forall j, k :: 0 <= j < |samples| && 0 <= k < |centers| ==> lower[j, k] == d(samples[j], centers[k])
    modifies upper, closest
    ensures UpperExact(d, samples, centers, upper, closest)
    ensures AllNearest(d, samples, centers, closest[..])
  {
    for j := 0 to |samples|
      invariant forall i :: 0 <= i < j ==> Nearest(d, samples[i], centers, closest[i])
      invariant forall i :: 0 <= i < j ==> upper[i] == d(samples[i], centers[closest[i]])
    {
      var minDistance := FLT_MAX;
      var closestCenter := 0;
      assert Corner(samples[j], centers[0], samples[j]);
      for k := 0 to |centers|
        invariant closestCenter < |centers|
        invariant d(samples[j], centers[closestCenter]) <= minDistance
        invariant k > 0 ==> minDistance == d(samples[j], centers[closestCenter])
        invariant k == 0 ==> minDistance == FLT_MAX && closestCenter == 0
        invariant forall i :: 0 <= i < k ==> minDistance <= d(samples[j], centers[i])
      {
        assert lower[j, k] == d(samples[j], centers[k]) && Corner(samples[j], centers[k], samples[j]);
        if lower[j, k] < minDistance {
          minDistance := lower[j, k];
          closestCenter := k;
        }
      }
      upper[j] := minDistance;
      closest[j] := closestCenter;
    }
  }

  /** Step 1: half the distance between any two centers, and the smallest of them per center. */
  method HalfDistances<P(!new)>(d: (P, P) -> real, centers: seq<P>, half: array2<real>, s: array<real>)
    requires IsMetric(d) && half.Length0 == half.Length1 == s.Length == |centers|
    modifies half, s
    ensures HalfOk(d, centers, half, s)
  {
    var n := |centers|;
    for j := 0 to n
      invariant forall a, b :: 0 <= a < n && 0 <= b < n && a != b && (a < j || b < j) ==>
        half[a, b] == 0.5 * d(centers[a], centers[b])
    {
      for k := j + 1 to n
        invariant forall a, b :: 0 <= a < n && 0 <= b < n && a != b && (a < j || b < j) ==>
          half[a, b] == 0.5 * d(centers[a], centers[b])
        invariant forall b :: j < b < k ==>
          half[j, b] == 0.5 * d(centers[j], centers[b]) && half[b, j] == 0.5 * d(centers[b], centers[j])
      {
        assert Corner(centers[j], centers[k], centers[j]);
        var distance := 0.5 * d(centers[j], centers[k]);
        half[j, k] := distance;
        half[k, j] := distance;
      }
    }
    for j := 0 to n
      modifies s
      invariant forall a, b :: 0 <= a < j && 0 <= b < n && a != b ==> s[a] <= half[a, b]
    {
      var minDistance := FLT_MAX;
      for k := 0 to n
        invariant forall b :: 0 <= b < k && b != j ==> minDistance <= half[j, b]
      {
        if j != k && half[j, k] < minDistance {
          minDistance := half[j, k];
        }
      }
      s[j] := minDistance;
    }
  }

  /**
    Steps 2 and 3 for sample `j`. `rj` says that the upper bound may be stale and must be
    recomputed before it is used as a distance; when it is false the bound is exact.
   */
  method ReassignSample<P(!new)>(d: (P, P) -> real, x: P, centers: seq<P>,
                                 lower: array2<real>, upper: array<real>, closest: array<nat>,
                                 half: array2<real>, s: array<real>, j: nat, rjreset: bool) returns (changes: nat)
    requires IsMetric(d)
    requires j < lower.Length0 == upper.Length == closest.Length && lower.Length1 == |centers|
    requires half.Length0 == half.Length1 == s.Length == |centers|
    requires lower != half && upper != s
    requires HalfOk(d, centers, half, s)
    requires LowerRowOk(d, x, centers, lower, j)
    requires closest[j] < |centers| && d(x, centers[closest[j]]) <= upper[j]
    requires !rjreset ==> upper[j] == d(x, centers[closest[j]])
    modifies lower, upper, closest
    ensures forall i, k :: 0 <= i < lower.Length0 && 0 <= k < |centers| && i != j ==> lower[i, k] == old(lower[i, k])
    ensures forall i :: 0 <= i < upper.Length && i != j ==> upper[i] == old(upper[i]) && closest[i] == old(closest[i])
    ensures LowerRowOk(d, x, centers, lower, j)
    ensures Nearest(d, x, centers, closest[j]) && d(x, centers[closest[j]]) <= upper[j]
    ensures changes == 0 <==> closest[j] == old(closest[j])
  {
    changes := 0;
    ghost var start := closest[j];
    if upper[j] <= s[closest[j]] {
      forall k | 0 <= k < |centers| && k != start
        ensures d(x, centers[start]) <= d(x, centers[k])
      {
        assert half[start, k] == 0.5 * d(centers[start], centers[k]) && s[start] <= half[start, k];
        FarCenterLoses(d, x, centers[start], centers[k], upper[j]);
      }
      return;
    }
    var rj := rjreset;
    for k := 0 to |centers|
      invariant forall i, b :: 0 <= i < lower.Length0 && 0 <= b < |centers| && i != j ==> lower[i, b] == old(lower[i, b])
      invariant forall i :: 0 <= i < upper.Length && i != j ==> upper[i] == old(upper[i]) && closest[i] == old(closest[i])
      invariant LowerRowOk(d, x, centers, lower, j)
      invariant closest[j] < |centers| && d(x, centers[closest[j]]) <= upper[j]
      invariant !rj ==> upper[j] == d(x, centers[closest[j]])
      invariant forall b :: 0 <= b < k ==> d(x, centers[closest[j]]) <= d(x, centers[b])
      invariant changes == 0 ==> closest[j] == start
      invariant changes > 0 ==> d(x, centers[closest[j]]) < d(x, centers[start])
    {
      var c := closest[j];
      if k == c {
        continue;
      }
      if upper[j] <= lower[j, k] {
        continue;
      }
      assert half[c, k] == 0.5 * d(centers[c], centers[k]);
      if upper[j] <= half[c, k] {
        FarCenterLoses(d, x, centers[c], centers[k], upper[j]);
        continue;
      }
      var dxcx: real;
      if rj {
        dxcx := d(x, centers[c]);
        lower[j, c] := dxcx;
        upper[j] := dxcx;
        rj := false;
      } else {
        dxcx := upper[j];
      }
      if dxcx > lower[j, k] || dxcx > half[c, k] {
        var dxc := d(x, centers[k]);
        lower[j, k] := dxc;
        if dxc < dxcx {
          closest[j] := k;
          upper[j] := dxc;
          changes := changes + 1;
        }
      }
    }
  }

  /** Steps 2 and 3 over all samples. */
  method Reassign<P(!new)>(d: (P, P) -> real, samples: seq<P>, centers: seq<P>,
                           lower: array2<real>, upper: array<real>, closest: array<nat>,
                           half: array2<real>, s: array<real>, rjreset: bool) returns (changes: nat)
    requires IsMetric(d)
    requires lower.Length0 == |samples| == upper.Length == closest.Length && lower.Length1 == |centers|
    requires half.Length0 == half.Length1 == s.Length == |centers|
    requires lower != half && upper != s
    requires HalfOk(d, centers, half, s) && BoundsOk(d, samples, centers, lower, upper, closest)
    requires !rjreset ==> UpperExact(d, samples, centers, upper, closest)
    modifies lower, upper, closest
    ensures BoundsOk(d, samples, centers, lower, upper, closest)
    ensures AllNearest(d, samples, centers, closest[..])
    ensures changes == 0 <==> closest[..] == old(closest[..])
  {
    changes := 0;
    for j := 0 to |samples|
      invariant BoundsOk(d, samples, centers, lower, upper, closest)
      invariant !rjreset ==> forall i :: j <= i < |samples| ==> upper[i] == d(samples[i], centers[closest[i]])
      invariant forall i :: 0 <= i < j ==> Nearest(d, samples[i], centers, closest[i])
      invariant forall i :: j <= i < |samples| ==> closest[i] == old(closest[i])
      invariant changes == 0 <==> forall i :: 0 <= i < j ==> closest[i] == old(closest[i])
    {
      var moved := ReassignSample(d, samples[j], centers, lower, upper, closest, half, s, j, rjreset);
      changes := changes + moved;
    }
  }

  /** Step 5: lower each bound by the distance its center moved, down to zero. */
  method SlideLowerBounds<P(!new)>(d: (P, P) -> real, samples: seq<P>, centers: seq<P>, newCenters: seq<P>,
                                   lower: array2<real>, newcdist: array<real>)
    requires IsMetric(d) && |newCenters| == |centers| == newcdist.Length
    requires lower.Length0 == |samples| && lower.Length1 == |centers|
    requires forall k :: 0 <= k < |centers| ==> newcdist[k] == d(centers[k], newCenters[k])
    requires forall j :: 0 <= j < |samples| ==> LowerRowOk(d, samples[j], centers, lower, j)
    modifies lower
    ensures forall j :: 0 <= j < |samples| ==> LowerRowOk(d, samples[j], newCenters, lower, j)
  {
    for j := 0 to |samples|
      invariant forall i :: 0 <= i < j ==> LowerRowOk(d, samples[i], newCenters, lower, i)
      invariant forall i :: j <= i < |samples| ==> LowerRowOk(d, samples[i], centers, lower, i)
    {
      for k := 0 to |centers|
        invariant forall i :: 0 <= i < j ==> LowerRowOk(d, samples[i], newCenters, lower, i)
        invariant forall b :: 0 <= b < k ==> lower[j, b] <= d(samples[j], newCenters[b])
        invariant forall b :: k <= b < |centers| ==> lower[j, b] <= d(samples[j], centers[b])
        invariant forall i :: j < i < |samples| ==> LowerRowOk(d, samples[i], centers, lower, i)
      {
        var distance := lower[j, k] - newcdist[k];
        SlideLower(d, samples[j], centers[k], newCenters[k]);
        lower[j, k] := if distance < 0.0 then 0.0 else distance;
      }
    }
  }

  /** Step 6: raise each upper bound by the distance the assigned center moved. */
  method SlideUpperBounds<P(!new)>(d: (P, P) -> real, samples: seq<P>, centers: seq<P>, newCenters: seq<P>,
                                   upper: array<real>, closest: array<nat>, newcdist: array<real>)
    requires IsMetric(d) && |newCenters| == |centers| == newcdist.Length && newcdist != upper
    requires |samples| == upper.Length == closest.Length
    requires forall k :: 0 <= k < |centers| ==> newcdist[k] == d(centers[k], newCenters[k])
    requires forall i :: 0 <= i < |samples| ==> closest[i] < |centers| && d(samples[i], centers[closest[i]]) <= upper[i]
    modifies upper
    ensures forall i :: 0 <= i < |samples| ==> d(samples[i], newCenters[closest[i]]) <= upper[i]
  {
    for j := 0 to |samples|
      invariant forall i :: 0 <= i < j ==> d(samples[i], newCenters[closest[i]]) <= upper[i]
      invariant forall i :: j <= i < |samples| ==> d(samples[i], centers[closest[i]]) <= upper[i]
    {
      SlideUpper(d, samples[j], centers[closest[j]], newCenters[closest[j]]);
      upper[j] := upper[j] + newcdist[closest[j]];
    }
  }

  /** Steps 5 and 6: slide the bounds along with the centers. */
  method SlideBounds<P(!new)>(d: (P, P) -> real, samples: seq<P>, centers: seq<P>, newCenters: seq<P>,
                              lower: array2<real>, upper: array<real>, closest: array<nat>, newcdist: array<real>)
    requires IsMetric(d) && |newCenters| == |centers| == newcdist.Length && newcdist != upper
    requires lower.Length0 == |samples| == upper.Length == closest.Length && lower.Length1 == |centers|
    requires BoundsOk(d, samples, centers, lower, upper, closest)
    modifies lower, upper, newcdist
    ensures BoundsOk(d, samples, newCenters, lower, upper, closest)
  {
    for j := 0 to |centers|
      modifies newcdist
      invariant forall k :: 0 <= k < j ==> newcdist[k] == d(centers[k], newCenters[k])
    {
      newcdist[j] := d(centers[j], newCenters[j]);
    }
    SlideLowerBounds(d, samples, centers, newCenters, lower, newcdist);
    SlideUpperBounds(d, samples, centers, newCenters, upper, closest, newcdist);
  }

  lemma SlideLower<P(!new)>(d: (P, P) -> real, x: P, c: P, c': P)
    requires IsMetric(d)
    ensures d(x, c) - d(c, c') <= d(x, c') && 0.0 <= d(x, c')
  {
    assert Corner(x, c', c) && Corner(c', c, c);
  }

  lemma SlideUpper<P(!new)>(d: (P, P) -> real, x: P, c: P, c': P)
    requires IsMetric(d)
    ensures d(x, c') <= d(x, c) + d(c, c')
  {
    assert Corner(x, c, c');
  }

  /** One iteration, Steps 1 to 7; `assign` is the assignment it settled on. */
  method Iterate<P(!new)>(d: (P, P) -> real, samples: seq<P>, centers: seq<P>,
                          recenter: (nat, seq<nat>) -> seq<P>, iteration: nat,
                          lower: array2<real>, upper: array<real>, closest: array<nat>,
                          half: array2<real>, s: array<real>, newcdist: array<real>)
    returns (changes: nat, assign: seq<nat>, newCenters: seq<P>)
    requires IsMetric(d)
    requires forall i, a :: |recenter(i, a)| == |centers|
    requires lower.Length0 == |samples| == upper.Length == closest.Length && lower.Length1 == |centers|
    requires half.Length0 == half.Length1 == s.Length == newcdist.Length == |centers|
    requires lower != half && upper != s && newcdist != upper
    requires BoundsOk(d, samples, centers, lower, upper, closest)
    requires iteration == 0 ==> UpperExact(d, samples, centers, upper, closest)
    modifies lower, upper, closest, half, s, newcdist
    ensures assign == closest[..] && newCenters == recenter(iteration, assign)
    ensures AllNearest(d, samples, centers, assign)
    ensures BoundsOk(d, samples, newCenters, lower, upper, closest)
    ensures changes == 0 <==> assign == old(closest[..])
  {
    HalfDistances(d, centers, half, s);
    changes := Reassign(d, samples, centers, lower, upper, closest, half, s, iteration != 0);
    assign := closest[..];
    newCenters := recenter(iteration, assign);
    SlideBounds(d, samples, centers, newCenters, lower, upper, closest, newcdist);
  }

  /** One iteration of Lloyd's algorithm: the centers it started from and the assignment it chose. */
  datatype Round<P> = Round(centers: seq<P>, assign: seq<nat>)

  /**
    A run of brute-force Lloyd iteration: every round assigns each sample to a nearest center and
    the next round's centers are the recomputed ones, whatever `recenter` does.
   */
  ghost predicate IsLloydRun<P(!new)>(d: (P, P) -> real, samples: seq<P>, initial: seq<P>,
                                      recenter: (nat, seq<nat>) -> seq<P>, run: seq<Round<P>>) {
    && (|run| > 0 ==> run[0].centers == initial)
    && (forall i :: 0 <= i < |run| ==> AllNearest(d, samples, run[i].centers, run[i].assign))
    && (forall i :: 0 <= i < |run| - 1 ==> run[i + 1].centers == recenter(i, run[i].assign))
  }

  /** No two consecutive rounds among the first `n` agree. */
  ghost predicate NoFixpointAmong<P>(run: seq<Round<P>>, n: int) {
    forall i :: 1 <= i < n && i < |run| ==> run[i].assign != run[i - 1].assign
  }

  /** The centers the round after `run` starts from. */
  ghost function NextCenters<P>(initial: seq<P>, recenter: (nat, seq<nat>) -> seq<P>, run: seq<Round<P>>): seq<P> {
    if run == [] then initial else recenter(|run| - 1, run[|run| - 1].assign)
  }

  /** `run` is a Lloyd run that ended with `assign` and continues from `centers`. */
  ghost predicate Reached<P(!new)>(d: (P, P) -> real, samples: seq<P>, initial: seq<P>, recenter: (nat, seq<nat>) -> seq<P>,
                                   run: seq<Round<P>>, centers: seq<P>, assign: seq<nat>) {
    && IsLloydRun(d, samples, initial, recenter, run)
    && centers == NextCenters(initial, recenter, run)
    && (run != [] ==> assign == run[|run| - 1].assign)
  }

  lemma ExtendRun<P(!new)>(d: (P, P) -> real, samples: seq<P>, initial: seq<P>, recenter: (nat, seq<nat>) -> seq<P>,
                           run: seq<Round<P>>, centers: seq<P>, assign: seq<nat>, settled: seq<nat>)
    requires Reached(d, samples, initial, recenter, run, centers, assign) && NoFixpointAmong(run, |run|)
    requires AllNearest(d, samples, centers, settled)
    ensures var longer := run + [Round(centers, settled)];
      && Reached(d, samples, initial, recenter, longer, recenter(|run|, settled), settled)
      && NoFixpointAmong(longer, |run|)
      && (run == [] || settled != assign ==> NoFixpointAmong(longer, |longer|))
      && (run != [] ==> longer[|longer| - 2].assign == assign)
  {
  }

  /** The tables of a run, with tight bounds for the initial centers. */
  method Setup<P(!new,0)>(d: (P, P) -> real, samples: seq<P>, initial: seq<P>)
    returns (lower: array2<real>, upper: array<real>, closest: array<nat>)
    requires IsMetric(d) && |initial| > 0
    ensures fresh(lower) && fresh(upper) && fresh(closest)
    ensures lower.Length0 == |samples| == upper.Length == closest.Length && lower.Length1 == |initial|
    ensures BoundsOk(d, samples, initial, lower, upper, closest) && UpperExact(d, samples, initial, upper, closest)
  {
    lower := new real[|samples|, |initial|];
    upper := new real[|samples|];
    closest := new nat[|samples|];
    FillDistances(d, samples, initial, lower);
    AssignInitial(d, samples, initial, lower, upper, closest);
  }

  /** Centers and assignment are where a Lloyd run ends that stops exactly when an assignment repeats, or after 500 rounds. */
  ghost predicate LloydResult<P(!new)>(d: (P, P) -> real, samples: seq<P>, initial: seq<P>, recenter: (nat, seq<nat>) -> seq<P>,
                                       centers: seq<P>, assign: seq<nat>) {
    exists run :: EndsLloydRun(d, samples, initial, recenter, centers, assign, run)
  }

  ghost predicate EndsLloydRun<P(!new)>(d: (P, P) -> real, samples: seq<P>, initial: seq<P>, recenter: (nat, seq<nat>) -> seq<P>,
                                        centers: seq<P>, assign: seq<nat>, run: seq<Round<P>>) {
    && 1 <= |run| <= MAX_ITERATIONS
    && IsLloydRun(d, samples, initial, recenter, run) && NoFixpointAmong(run, |run| - 1)
    && assign == run[|run| - 1].assign && centers == recenter(|run| - 1, assign)
    && (|run| < MAX_ITERATIONS ==> |run| > 1 && run[|run| - 2].assign == assign)
  }

  /**
    The whole algorithm. `recenter` is the recomputation of the centers, which may depend on the
    iteration and the assignment in any way. The result is that of a Lloyd run which ends exactly
    when an assignment repeats or after 500 rounds.
   */
  method ElkanKmeans<P(!new,0)>(d: (P, P) -> real, samples: seq<P>, initial: seq<P>,
                                recenter: (nat, seq<nat>) -> seq<P>)
    returns (centers: seq<P>, assign: seq<nat>)
    requires IsMetric(d) && |initial| > 0
    requires forall i, a :: |recenter(i, a)| == |initial|
    ensures LloydResult(d, samples, initial, recenter, centers, assign)
  {
    centers := initial;
    var m := |initial|;
    var lower, upper, closest := Setup(d, samples, initial);
    var half, s, newcdist := new real[m, m], new real[m], new real[m];
    ghost var run: seq<Round<P>> := [];
    assign := closest[..];
    for iteration := 0 to MAX_ITERATIONS
      invariant |run| == iteration && |centers| == m
      invariant Reached(d, samples, initial, recenter, run, centers, assign) && NoFixpointAmong(run, iteration)
      invariant closest[..] == assign
      invariant BoundsOk(d, samples, centers, lower, upper, closest)
      invariant iteration == 0 ==> UpperExact(d, samples, centers, upper, closest)
    {
      var changes, settled, newCenters :=
        Iterate(d, samples, centers, recenter, iteration, lower, upper, closest, half, s, newcdist);
      ExtendRun(d, samples, initial, recenter, run, centers, assign, settled);
      run := run + [Round(centers, settled)];
      assign, centers := settled, newCenters;
      if changes == 0 && iteration != 0 {
        break;
      }
    }
    assert EndsLloydRun(d, samples, initial, recenter, centers, assign, run);
  }
}
