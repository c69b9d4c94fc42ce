/**
 * Time-range queries of the timeseries package: the Extent value, the
 * step-aligned normalisation of a query's extent, the delta calculation
 * against the extents a cache already holds, and the query descriptor with
 * its deep copy and canonical text.
 *
 * Timestamps and steps are whole epoch seconds; "now" is a parameter.
 */
module Timeseries {
  import opened Wrappers
  import opened Decimal

  /** A closed interval [start, end] of timestamps. */
  datatype Extent = Extent(start: int, end: int)

  /** The origin request template a query carries; opaque to this core. */
  datatype TemplateUrl = NoTemplate | Template(raw: string)

  function Min(a: int, b: int): int {
    if a <= b then a else b
  }

  // ---------------------------------------------------------------------------
  // Step-aligned normalisation
  // ---------------------------------------------------------------------------

  /** The grid point at or below `t`: the largest multiple of `step` not after `t`. */
  function Floor(t: int, step: int): (r: int)
    requires step > 0
    ensures r <= t < r + step
    ensures r % step == 0
  {
    MultipleMod(t / step, step);
    (t / step) * step
  }

  /** A multiple of `step` leaves no remainder. */
  lemma MultipleMod(q: int, step: int)
    requires step > 0
    ensures (q * step) % step == 0
  {
    var d, m := (q * step) / step, (q * step) % step;
    assert (q - d) * step == m;
    if q - d >= 1 {
      MulAtLeast(q - d, step);
    } else if q - d <= -1 {
      MulAtLeast(d - q, step);
    }
  }

  lemma MulAtLeast(a: int, b: int)
    requires a >= 1 && b > 0
    ensures a * b >= b
  {
  }

  /**
   * The extent NormalizeExtent leaves behind: the end clamped to `now`, then
   * both edges floored to the step grid.
   */
  function Normalize(e: Extent, step: int, now: int): (r: Extent)
    requires step > 0
    ensures r.start % step == 0 && r.end % step == 0
    ensures r.start <= e.start < r.start + step
    ensures r.end <= e.end && r.end <= now
    ensures e.end < r.end + step || now < r.end + step
  {
    Extent(Floor(e.start, step), Floor(Min(e.end, now), step))
  }

  /** Normalising an already normalised extent changes nothing. */
  lemma NormalizeIdempotent(e: Extent, step: int, now: int)
    requires step > 0
    ensures Normalize(Normalize(e, step, now), step, now) == Normalize(e, step, now)
  {
    var r := Normalize(e, step, now);
    FloorOfGridPoint(r.start, step);
    FloorOfGridPoint(r.end, step);
  }

  lemma FloorOfGridPoint(t: int, step: int)
    requires step > 0 && t % step == 0
    ensures Floor(t, step) == t
  {
  }

  /**
   * Grid stability: extents whose edges fall in the same step cells normalise
   * to the same extent (ends compared once both are clamped to `now`).
   */
  lemma NormalizeGridStable(a: Extent, b: Extent, step: int, now: int)
    requires step > 0
    requires a.start / step == b.start / step
    requires Min(a.end, now) / step == Min(b.end, now) / step
    ensures Normalize(a, step, now) == Normalize(b, step, now)
  {
  }

  /**
   * The cases of TestNormalizeExtent. The clock is the real one there, so the
   * first two hold for any `now` past the requested end, and the third is the
   * end of tomorrow clamped to `now` and floored to the 10 second grid.
   */
  lemma NormalizeTable(now: int, tomorrow: int)
    requires now >= 103 && tomorrow > now
    ensures Normalize(Extent(1, 100), 1, now) == Extent(1, 100)
    ensures Normalize(Extent(1, 103), 10, now) == Extent(0, 100)
    ensures Normalize(Extent(1, tomorrow), 10, now) == Extent(0, (now / 10) * 10)
  {
  }

  // ---------------------------------------------------------------------------
  // Delta calculation: a walk over the grid points of the extent
  // ---------------------------------------------------------------------------

  /** Timestamp `t` lies inside one of the covered extents. */
  predicate Covered(t: int, have: seq<Extent>) {
    exists c :: c in have && c.start <= t <= c.end
  }

  /** The `i`-th grid point of a walk that starts at `s`. */
  function Point(s: int, step: int, i: int): int {
    s + i * step
  }

  /** How many grid points `e.start, e.start + step, ...` do not pass `e.end`. */
  function GridCount(e: Extent, step: int): nat
    requires step > 0
  {
    if e.end < e.start then 0 else (e.end - e.start) / step + 1
  }

  lemma PointNext(s: int, step: int, i: int)
    ensures Point(s, step, i + 1) == Point(s, step, i) + step
  {
  }

  /** Grid points increase by at least one step. */
  lemma {:induction false} PointMonotone(s: int, step: int, i: int, j: int)
    requires step > 0 && i < j
    ensures Point(s, step, i) + step <= Point(s, step, j)
    decreases j - i
  {
    PointNext(s, step, i);
    if i + 1 < j {
      PointMonotone(s, step, i + 1, j);
    }
  }

  /** The `k`-th grid point lies inside the extent exactly when `k` is below GridCount. */
  lemma GridCountBound(e: Extent, step: int, k: nat)
    requires step > 0
    ensures Point(e.start, step, k) <= e.end <==> k < GridCount(e, step)
  {
    if e.end < e.start {
      if k > 0 {
        PointMonotone(e.start, step, 0, k);
      }
    } else {
      var q := (e.end - e.start) / step;
      assert Point(e.start, step, q) <= e.end;
      if k < q {
        PointMonotone(e.start, step, k, q);
      } else if k > q {
        PointMonotone(e.start, step, q, k);
      }
    }
  }

  /**
   * The missing runs among the first `n` grid points of a walk from `s`: a
   * point is missing when no covered extent contains it, and a missing point
   * one step after the end of the last run extends that run.
   */
  function Runs(s: int, step: int, have: seq<Extent>, n: nat): seq<Extent>
    requires step > 0
    decreases n
  {
    if n == 0 then []
    else
      var r := Runs(s, step, have, n - 1);
      var t := Point(s, step, n - 1);
      if Covered(t, have) then r
      else if r != [] && r[|r| - 1].end + step == t then r[..|r| - 1] + [Extent(r[|r| - 1].start, t)]
      else r + [Extent(t, t)]
  }

  /** The deltas of `e` against `have`: the missing runs of all its grid points. */
  function Deltas(e: Extent, step: int, have: seq<Extent>): seq<Extent>
    requires step > 0
  {
    Runs(e.start, step, have, GridCount(e, step))
  }

  /** Runs lie between the first and the last grid point and ascend with a gap between them. */
  lemma {:induction false} RunsBounds(s: int, step: int, have: seq<Extent>, n: nat)
    requires step > 0
    ensures forall k :: 0 <= k < |Runs(s, step, have, n)| ==>
      s <= Runs(s, step, have, n)[k].start <= Runs(s, step, have, n)[k].end <= Point(s, step, n - 1)
    ensures forall k :: 0 <= k < |Runs(s, step, have, n)| - 1 ==>
      Runs(s, step, have, n)[k].end + step < Runs(s, step, have, n)[k + 1].start
  {
    if n > 0 {
      RunsBounds(s, step, have, n - 1);
      PointNext(s, step, n - 2);
      if n > 1 {
        PointMonotone(s, step, 0, n - 1);
      }
    }
  }

  /** Every grid point among the first `n` that lies inside a run of `r` is missing. */
  ghost predicate RunsAvoidCovered(s: int, step: int, have: seq<Extent>, n: nat, r: seq<Extent>) {
    forall k, i :: 0 <= k < |r| && 0 <= i < n && r[k].start <= Point(s, step, i) <= r[k].end ==>
      !Covered(Point(s, step, i), have)
  }

  /** Every grid point inside a run is missing from the covered extents. */
  lemma {:induction false} RunsUncovered(s: int, step: int, have: seq<Extent>, n: nat)
    requires step > 0
    ensures RunsAvoidCovered(s, step, have, n, Runs(s, step, have, n))
  {
    if n > 0 {
      RunsUncovered(s, step, have, n - 1);
      RunsBounds(s, step, have, n - 1);
      PointNext(s, step, n - 2);
      EarlierPoints(s, step, n - 1);
      RunsUncoveredStep(s, step, have, n, Runs(s, step, have, n - 1));
    }
  }

  /** The inductive step of RunsUncovered, one case of the walk at a time. */
  lemma RunsUncoveredStep(s: int, step: int, have: seq<Extent>, n: nat, r: seq<Extent>)
    requires step > 0 && n > 0 && r == Runs(s, step, have, n - 1)
    requires RunsAvoidCovered(s, step, have, n - 1, r)
    requires forall k :: 0 <= k < |r| ==> r[k].end < Point(s, step, n - 1)
    requires forall i :: 0 <= i < n - 1 ==> Point(s, step, i) + step <= Point(s, step, n - 1)
    ensures RunsAvoidCovered(s, step, have, n, Runs(s, step, have, n))
  {
    var t := Point(s, step, n - 1);
    if Covered(t, have) {
      AvoidSkip(s, step, have, n, r);
    } else if r != [] && r[|r| - 1].end + step == t {
      AvoidExtend(s, step, have, n, r);
    } else {
      AvoidAppend(s, step, have, n, r);
    }
  }

  /** A covered grid point lies in no earlier run, so skipping it keeps the runs missing. */
  lemma AvoidSkip(s: int, step: int, have: seq<Extent>, n: nat, r: seq<Extent>)
    requires step > 0 && n > 0
    requires RunsAvoidCovered(s, step, have, n - 1, r)
    requires forall k :: 0 <= k < |r| ==> r[k].end < Point(s, step, n - 1)
    ensures RunsAvoidCovered(s, step, have, n, r)
  {
    forall k, i | 0 <= k < |r| && 0 <= i < n && r[k].start <= Point(s, step, i) <= r[k].end
      ensures !Covered(Point(s, step, i), have)
    {
      assert i < n - 1;
    }
  }

  /** A missing grid point one step past the last run stretches that run. */
  lemma AvoidExtend(s: int, step: int, have: seq<Extent>, n: nat, r: seq<Extent>)
    requires step > 0 && n > 0 && r != []
    requires r[|r| - 1].end + step == Point(s, step, n - 1)
    requires !Covered(Point(s, step, n - 1), have)
    requires RunsAvoidCovered(s, step, have, n - 1, r)
    requires forall i :: 0 <= i < n - 1 ==> Point(s, step, i) + step <= Point(s, step, n - 1)
    ensures RunsAvoidCovered(s, step, have, n, r[..|r| - 1] + [Extent(r[|r| - 1].start, Point(s, step, n - 1))])
  {
    var r' := r[..|r| - 1] + [Extent(r[|r| - 1].start, Point(s, step, n - 1))];
    forall k, i | 0 <= k < |r'| && 0 <= i < n && r'[k].start <= Point(s, step, i) <= r'[k].end
      ensures !Covered(Point(s, step, i), have)
    {
      if i < n - 1 {
        assert r[k].start <= Point(s, step, i) <= r[k].end;
      }
    }
  }

  /** A missing grid point with a gap before it opens a run of its own. */
  lemma AvoidAppend(s: int, step: int, have: seq<Extent>, n: nat, r: seq<Extent>)
    requires step > 0 && n > 0
    requires !Covered(Point(s, step, n - 1), have)
    requires RunsAvoidCovered(s, step, have, n - 1, r)
    requires forall i :: 0 <= i < n - 1 ==> Point(s, step, i) + step <= Point(s, step, n - 1)
    ensures RunsAvoidCovered(s, step, have, n, r + [Extent(Point(s, step, n - 1), Point(s, step, n - 1))])
  {
    var r' := r + [Extent(Point(s, step, n - 1), Point(s, step, n - 1))];
    forall k, i | 0 <= k < |r'| && 0 <= i < n && r'[k].start <= Point(s, step, i) <= r'[k].end
      ensures !Covered(Point(s, step, i), have)
    {
      if i < n - 1 {
        assert k < |r|;
      }
    }
  }

  /** The grid points before the `n`-th lie at least one step below it. */
  lemma EarlierPoints(s: int, step: int, n: nat)
    requires step > 0
    ensures forall i :: 0 <= i < n ==> Point(s, step, i) + step <= Point(s, step, n)
  {
    forall i | 0 <= i < n
      ensures Point(s, step, i) + step <= Point(s, step, n)
    {
      PointMonotone(s, step, i, n);
    }
  }

  /** `t` is a grid point of a walk from `s`: a whole number of steps away. */
  predicate OnGrid(t: int, s: int, step: int)
    requires step > 0
  {
    (t - s) % step == 0
  }

  /** A grid point at or after `s` is the point with index `(t - s) / step`. */
  lemma GridIndex(t: int, s: int, step: int)
    requires step > 0 && OnGrid(t, s, step) && s <= t
    ensures (t - s) / step >= 0 && Point(s, step, (t - s) / step) == t
  {
    var q := (t - s) / step;
    assert t - s == q * step + (t - s) % step;
    if q < 0 {
      MulAtLeast(-q, step);
    }
  }

  /** Both edges of every run are grid points. */
  lemma {:induction false} RunsOnGrid(s: int, step: int, have: seq<Extent>, n: nat)
    requires step > 0
    ensures forall k :: 0 <= k < |Runs(s, step, have, n)| ==>
      OnGrid(Runs(s, step, have, n)[k].start, s, step) && OnGrid(Runs(s, step, have, n)[k].end, s, step)
  {
    if n > 0 {
      RunsOnGrid(s, step, have, n - 1);
      MultipleMod(n - 1, step);
      assert Point(s, step, n - 1) - s == (n - 1) * step;
    }
  }

  /** Every missing grid point among the first `n` lies inside some run of `r`. */
  ghost predicate RunsHoldMissing(s: int, step: int, have: seq<Extent>, n: nat, r: seq<Extent>) {
    forall i :: 0 <= i < n && !Covered(Point(s, step, i), have) ==>
      exists k :: 0 <= k < |r| && r[k].start <= Point(s, step, i) <= r[k].end
  }

  /** Every missing grid point lies inside some run. */
  lemma {:induction false} RunsComplete(s: int, step: int, have: seq<Extent>, n: nat)
    requires step > 0
    ensures RunsHoldMissing(s, step, have, n, Runs(s, step, have, n))
  {
    if n > 0 {
      RunsComplete(s, step, have, n - 1);
      RunsBounds(s, step, have, n - 1);
      PointNext(s, step, n - 2);
      EarlierPoints(s, step, n - 1);
      RunsCompleteStep(s, step, have, n, Runs(s, step, have, n - 1));
    }
  }

  /** The inductive step of RunsComplete. */
  lemma RunsCompleteStep(s: int, step: int, have: seq<Extent>, n: nat, r: seq<Extent>)
    requires step > 0 && n > 0 && r == Runs(s, step, have, n - 1)
    requires RunsHoldMissing(s, step, have, n - 1, r)
    requires forall k :: 0 <= k < |r| ==> r[k].start <= r[k].end
    requires forall i :: 0 <= i < n - 1 ==> Point(s, step, i) + step <= Point(s, step, n - 1)
    ensures RunsHoldMissing(s, step, have, n, Runs(s, step, have, n))
  {
    var t := Point(s, step, n - 1);
    var r' := Runs(s, step, have, n);
    forall i | 0 <= i < n && !Covered(Point(s, step, i), have)
      ensures exists k :: 0 <= k < |r'| && r'[k].start <= Point(s, step, i) <= r'[k].end
    {
      if i == n - 1 {
        if r != [] && r[|r| - 1].end + step == t {
          assert r' == r[..|r| - 1] + [Extent(r[|r| - 1].start, t)];
          assert r'[|r| - 1].start <= t <= r'[|r| - 1].end;
        } else {
          assert r' == r + [Extent(t, t)];
          assert r'[|r|] == Extent(t, t);
        }
      } else {
        var k :| 0 <= k < |r| && r[k].start <= Point(s, step, i) <= r[k].end;
        if Covered(t, have) {
          assert r' == r;
        } else if r != [] && r[|r| - 1].end + step == t {
          assert r' == r[..|r| - 1] + [Extent(r[|r| - 1].start, t)];
          assert r'[k].start <= Point(s, step, i) <= r'[k].end;
        } else {
          assert r' == r + [Extent(t, t)];
          assert r'[k] == r[k];
        }
      }
    }
  }

  /**
   * The deltas of an extent: they lie inside it, ascend with at least one
   * grid point between neighbours, hold only grid points no covered extent
   * contains, and hold every such grid point. Together the deltas and the
   * covered grid points partition the grid points of the extent.
   */
  lemma DeltasSpec(e: Extent, step: int, have: seq<Extent>)
    requires step > 0
    ensures forall k :: 0 <= k < |Deltas(e, step, have)| ==>
      e.start <= Deltas(e, step, have)[k].start <= Deltas(e, step, have)[k].end <= e.end
    ensures forall k :: 0 <= k < |Deltas(e, step, have)| - 1 ==>
      Deltas(e, step, have)[k].end + step < Deltas(e, step, have)[k + 1].start
    ensures RunsAvoidCovered(e.start, step, have, GridCount(e, step), Deltas(e, step, have))
    ensures RunsHoldMissing(e.start, step, have, GridCount(e, step), Deltas(e, step, have))
    ensures forall k :: 0 <= k < |Deltas(e, step, have)| ==>
      OnGrid(Deltas(e, step, have)[k].start, e.start, step) && OnGrid(Deltas(e, step, have)[k].end, e.start, step)
  {
    var n := GridCount(e, step);
    RunsOnGrid(e.start, step, have, n);
    RunsBounds(e.start, step, have, n);
    RunsUncovered(e.start, step, have, n);
    RunsComplete(e.start, step, have, n);
    if n > 0 {
      GridCountBound(e, step, n - 1);
    }
  }

  /**
   * With a one-second step every timestamp is a grid point, so no timestamp
   * of a delta lies inside a covered extent.
   */
  lemma DeltasDisjointUnitStep(e: Extent, have: seq<Extent>)
    ensures forall k, t ::
      (0 <= k < |Deltas(e, 1, have)| && Deltas(e, 1, have)[k].start <= t <= Deltas(e, 1, have)[k].end) ==>
      !Covered(t, have)
  {
    var d := Deltas(e, 1, have);
    DeltasSpec(e, 1, have);
    forall k, t | 0 <= k < |d| && d[k].start <= t <= d[k].end
      ensures !Covered(t, have)
    {
      var i := t - e.start;
      assert Point(e.start, 1, i) == t;
      GridCountBound(e, 1, i);
    }
  }

  /** A grid point inside a delta is covered by no extent of `have`. */
  lemma GridPointsMissing(e: Extent, step: int, have: seq<Extent>, t: int)
    requires step > 0 && OnGrid(t, e.start, step)
    ensures forall k :: 0 <= k < |Deltas(e, step, have)| && Deltas(e, step, have)[k].start <= t <= Deltas(e, step, have)[k].end ==>
      !Covered(t, have)
  {
    var d := Deltas(e, step, have);
    DeltasSpec(e, step, have);
    forall k | 0 <= k < |d| && d[k].start <= t <= d[k].end
      ensures !Covered(t, have)
    {
      GridIndex(t, e.start, step);
      GridCountBound(e, step, (t - e.start) / step);
    }
  }

  /**
   * For any step, no delta overlaps a covered extent that starts on the
   * grid of the query: the deltas are exactly what the cache lacks.
   */
  lemma DeltasMissGridCovered(e: Extent, step: int, have: seq<Extent>, c: Extent)
    requires step > 0 && c in have && c.start <= c.end && OnGrid(c.start, e.start, step)
    ensures forall k :: 0 <= k < |Deltas(e, step, have)| ==>
      Deltas(e, step, have)[k].end < c.start || c.end < Deltas(e, step, have)[k].start
  {
    var d := Deltas(e, step, have);
    DeltasSpec(e, step, have);
    GridPointsMissing(e, step, have, c.start);
    forall k | 0 <= k < |d|
      ensures d[k].end < c.start || c.end < d[k].start
    {
      GridPointsMissing(e, step, have, d[k].start);
    }
  }

  /** An inverted extent has no grid points, hence no deltas, whatever is covered. */
  lemma DeltasInverted(e: Extent, step: int, have: seq<Extent>)
    requires step > 0 && e.end < e.start
    ensures Deltas(e, step, have) == []
  {
  }

  /** When none of the first `n` grid points is covered they form a single run. */
  lemma {:induction false} RunsNoneCovered(s: int, step: int, have: seq<Extent>, n: nat)
    requires step > 0 && n > 0
    requires forall i :: 0 <= i < n ==> !Covered(Point(s, step, i), have)
    ensures Runs(s, step, have, n) == [Extent(s, Point(s, step, n - 1))]
  {
    if n > 1 {
      RunsNoneCovered(s, step, have, n - 1);
      PointNext(s, step, n - 2);
    }
  }

  /** Covered grid points after the `m`-th add no run. */
  lemma {:induction false} RunsCoveredTail(s: int, step: int, have: seq<Extent>, m: nat, n: nat)
    requires step > 0 && m <= n
    requires forall i :: m <= i < n ==> Covered(Point(s, step, i), have)
    ensures Runs(s, step, have, n) == Runs(s, step, have, m)
    decreases n - m
  {
    if m < n {
      RunsCoveredTail(s, step, have, m, n - 1);
    }
  }

  /** With no covered extents the delta is the whole extent. */
  lemma DeltasNothingCovered(e: Extent, step: int)
    requires step > 0 && e.start <= e.end
    ensures Deltas(e, step, []) == [Extent(e.start, Floor(e.end - e.start, step) + e.start)]
  {
    var n := GridCount(e, step);
    RunsNoneCovered(e.start, step, [], n);
  }

  /**
   * With nothing cached, the deltas of a normalised, non-inverted extent are
   * that extent itself: both edges are grid points, so the walk ends exactly
   * on the end.
   */
  lemma DeltasOfNormalizedEmptyCover(e: Extent, step: int, now: int)
    requires step > 0
    requires Normalize(e, step, now).start <= Normalize(e, step, now).end
    ensures Deltas(Normalize(e, step, now), step, []) == [Normalize(e, step, now)]
  {
    var r := Normalize(e, step, now);
    DeltasNothingCovered(r, step);
    var qs, qe := e.start / step, Min(e.end, now) / step;
    assert r == Extent(qs * step, qe * step);
    MulSub(qe, qs, step);
    MultipleMod(qe - qs, step);
    FloorOfGridPoint(r.end - r.start, step);
  }

  lemma MulSub(a: int, b: int, step: int)
    ensures a * step - b * step == (a - b) * step
  {
  }

  /**
   * The cases of TestCalculateDeltas, after NormalizeExtent with a one-second
   * step against a clock past the extent. First: nothing covered, the delta
   * is the whole extent.
   */
  lemma CalculateDeltasEmptyCover(now: int)
    requires now >= 100
    ensures Deltas(Normalize(Extent(1, 100), 1, now), 1, []) == [Extent(1, 100)]
  {
    assert Normalize(Extent(1, 100), 1, now) == Extent(1, 100);
    RunsNoneCovered(1, 1, [], 100);
  }

  /** A gap before a covered extent ends one step before its start. */
  lemma CalculateDeltasGapBefore(now: int)
    requires now >= 100
    ensures Deltas(Normalize(Extent(1, 100), 1, now), 1, [Extent(50, 100)]) == [Extent(1, 49)]
  {
    var half := [Extent(50, 100)];
    assert Normalize(Extent(1, 100), 1, now) == Extent(1, 100);
    HalfCovered(half);
    RunsCoveredTail(1, 1, half, 49, 100);
  }

  /** The grid points 1..49 of a one-second walk from 1 are missing from [50,100], 50..100 are covered. */
  lemma HalfCovered(half: seq<Extent>)
    requires half == [Extent(50, 100)]
    ensures Runs(1, 1, half, 49) == [Extent(1, 49)]
    ensures forall i :: 49 <= i < 100 ==> Covered(Point(1, 1, i), half)
    ensures !Covered(Point(1, 1, 100), half)
  {
    HalfMissing(half);
    forall i | 49 <= i < 100 ensures Covered(Point(1, 1, i), half) {
      assert half[0] in half && half[0].start <= Point(1, 1, i) <= half[0].end;
    }
  }

  /** The grid points 1..49 form one run in front of [50,100]. */
  lemma HalfMissing(half: seq<Extent>)
    requires half == [Extent(50, 100)]
    ensures Runs(1, 1, half, 49) == [Extent(1, 49)]
  {
    forall i | 0 <= i < 49 ensures !Covered(Point(1, 1, i), half) { }
    RunsNoneCovered(1, 1, half, 49);
  }

  /** Gaps on both sides of a covered extent, in ascending order; a one-point gap is legal. */
  lemma CalculateDeltasGapsAround(now: int)
    requires now >= 101
    ensures Deltas(Normalize(Extent(1, 101), 1, now), 1, [Extent(50, 100)]) == [Extent(1, 49), Extent(101, 101)]
  {
    assert Normalize(Extent(1, 101), 1, now) == Extent(1, 101);
    GapsAround([Extent(50, 100)]);
  }

  /** The one-second walk over 1..101 against [50,100] leaves a run on each side. */
  lemma GapsAround(half: seq<Extent>)
    requires half == [Extent(50, 100)]
    ensures Runs(1, 1, half, 101) == [Extent(1, 49), Extent(101, 101)]
  {
    HalfCovered(half);
    RunsCoveredTail(1, 1, half, 49, 100);
    var r := Runs(1, 1, half, 100);
    assert Point(1, 1, 100) == 101 && !Covered(101, half);
    assert Runs(1, 1, half, 101) == r + [Extent(101, 101)];
  }

  /** A covered prefix leaves only the trailing gap; covered points are not emitted again. */
  lemma CalculateDeltasCoveredPrefix(now: int)
    requires now >= 101
    ensures Deltas(Normalize(Extent(1, 101), 1, now), 1, [Extent(1, 100)]) == [Extent(101, 101)]
  {
    var most := [Extent(1, 100)];
    assert Normalize(Extent(1, 101), 1, now) == Extent(1, 101);
    forall i | 0 <= i < 100 ensures Covered(Point(1, 1, i), most) {
      assert most[0] in most;
    }
    RunsCoveredTail(1, 1, most, 0, 100);
    assert !Covered(Point(1, 1, 100), most);
    assert Runs(1, 1, most, 101) == Runs(1, 1, most, 100) + [Extent(101, 101)];
  }

  /** The search CalculateDeltas makes for one grid point: does a covered extent contain `t`? */
  method FindCovering(have: seq<Extent>, t: int) returns (found: bool)
    ensures found <==> Covered(t, have)
  {
    var j := 0;
    while j < |have|
      invariant 0 <= j <= |have|
      invariant forall k :: 0 <= k < j ==> !(have[k].start <= t <= have[k].end)
    {
      if have[j].start <= t <= have[j].end {
        return true;
      }
      j := j + 1;
    }
    return false;
  }

  // ---------------------------------------------------------------------------
  // The time range query descriptor
  // ---------------------------------------------------------------------------

  /**
   * Go's Duration.String for a whole number of seconds: "<s>s" under a
   * minute, "<m>m<s>s" under an hour, "<h>h<m>m<s>s" beyond, with a leading
   * minus sign for a negative duration.
   */
  function DurationString(secs: int): (r: string)
    ensures |r| > 1 && r[|r| - 1] == 's'
    ensures 0 <= secs < 60 ==> r[..|r| - 1] == NatToString(secs)
  {
    var u: nat := if secs < 0 then -secs else secs;
    var body :=
      if u < 60 then NatToString(u) + "s"
      else if u < 3600 then NatToString(u / 60) + "m" + NatToString(u % 60) + "s"
      else NatToString(u / 3600) + "h" + NatToString(u % 3600 / 60) + "m" + NatToString(u % 60) + "s";
    if secs < 0 then "-" + body else body
  }

  /** An extent as the query text writes it: `start-end` in epoch seconds. */
  function ExtentText(e: Extent): string {
    IntToString(e.start) + "-" + IntToString(e.end)
  }

  /**
   * The extent text determines the extent: for a start that is not
   * negative, the first `-` separates the two edges and each parses back.
   */
  lemma ExtentTextRoundTrip(e: Extent)
    requires 0 <= e.start <= Int64Max && Int64Min <= e.end <= Int64Max
    ensures var t, j := ExtentText(e), |IntToString(e.start)|;
      j < |t| && t[j] == '-' && '-' !in t[..j] &&
      ParseInt(t[..j]) == Some(e.start) && ParseInt(t[j + 1..]) == Some(e.end)
  {
    var a, b := IntToString(e.start), IntToString(e.end);
    var t := a + "-" + b;
    assert t[..|a|] == a;
    assert t[|a| + 1..] == b;
    assert forall i :: 0 <= i < |a| ==> IsDigit(a[i]);
    ParseIntOfIntToString(e.start);
    ParseIntOfIntToString(e.end);
  }

  class TimeRangeQuery {
    var statement: string
    var extent: Extent
    /** The sampling step, in seconds. */
    var step: int
    var templateUrl: TemplateUrl

    constructor (statement: string, extent: Extent, step: int, templateUrl: TemplateUrl)
      ensures this.statement == statement && this.extent == extent
      ensures this.step == step && this.templateUrl == templateUrl
    {
      this.statement := statement;
      this.extent := extent;
      this.step := step;
      this.templateUrl := templateUrl;
    }

    /** Clamps the end of the extent to `now`, then floors both edges to the step grid. */
    method NormalizeExtent(now: int)
      requires step > 0
      modifies this`extent
      ensures extent == Normalize(old(extent), step, now)
    {
      if extent.end > now {
        extent := extent.(end := now);
      }
      extent := extent.(start := Floor(extent.start, step), end := Floor(extent.end, step));
    }

    /**
     * Walks the grid points of the extent, keeps those no covered extent
     * contains and groups consecutive ones into extents.
     */
    method CalculateDeltas(have: seq<Extent>) returns (deltas: seq<Extent>)
      requires step > 0
      ensures deltas == Deltas(extent, step, have)
    {
      deltas := [];
      var t := extent.start;
      ghost var i: nat := 0;
      while t <= extent.end
        invariant t == Point(extent.start, step, i)
        invariant i <= GridCount(extent, step)
        invariant deltas == Runs(extent.start, step, have, i)
        decreases extent.end - t
      {
        GridCountBound(extent, step, i);
        var found := FindCovering(have, t);
        if !found {
          if deltas != [] && deltas[|deltas| - 1].end + step == t {
            deltas := deltas[..|deltas| - 1] + [Extent(deltas[|deltas| - 1].start, t)];
          } else {
            deltas := deltas + [Extent(t, t)];
          }
        }
        PointNext(extent.start, step, i);
        t := t + step;
        i := i + 1;
      }
      GridCountBound(extent, step, i);
    }

    /** A new query equal to this one field by field; it shares no mutable state. */
    method Clone() returns (c: TimeRangeQuery)
      ensures fresh(c)
      ensures c.statement == statement && c.extent == extent
      ensures c.step == step && c.templateUrl == templateUrl
    {
      c := new TimeRangeQuery(statement, extent, step, templateUrl);
    }

    /**
     * The canonical text: the statement, the step with its unit, and the
     * extent in epoch seconds; it opens with the statement and closes with
     * the extent.
     */
    function String(): (r: string)
      reads this
      ensures var head := "{ \"statement\": \"" + statement + "\", \"step\": \"";
        |head| <= |r| && r[..|head|] == head
      ensures var tail := "\", \"extent\": \"" + ExtentText(extent) + "\" }";
        |tail| <= |r| && r[|r| - |tail|..] == tail
      ensures var head := "{ \"statement\": \"" + statement + "\", \"step\": \"";
        var tail := "\", \"extent\": \"" + ExtentText(extent) + "\" }";
        |head| + |tail| <= |r| && r[|head|..|r| - |tail|] == DurationString(step)
    {
      var head := "{ \"statement\": \"" + statement + "\", \"step\": \"";
      var tail := "\", \"extent\": \"" + ExtentText(extent) + "\" }";
      assert (head + DurationString(step)) + tail == head + (DurationString(step) + tail);
      head + DurationString(step) + tail
    }
  }

  lemma TableTexts()
    ensures DurationString(5) == "5s" && IntToString(5) == "5" && IntToString(10) == "10"
  {
    assert NatToString(10) == NatToString(1) + "0";
  }

  /** The case of TestStringTRQ. */
  lemma StringTable(q: TimeRangeQuery)
    requires q.statement == "1234" && q.step == 5 && q.extent == Extent(5, 10)
    ensures q.String() == "{ \"statement\": \"1234\", \"step\": \"5s\", \"extent\": \"5-10\" }"
  {
    TableTexts();
    var head := "{ \"statement\": \"" + "1234" + "\", \"step\": \"";
    assert head == "{ \"statement\": \"1234\", \"step\": \"";
    var middle := head + "5s" + "\", \"extent\": \"";
    assert middle == "{ \"statement\": \"1234\", \"step\": \"5s\", \"extent\": \"";
    assert q.String() == middle + "5" + "-" + "10" + "\" }";
  }

  /**
   * TestClone and the independence of a clone: the copy equals the original,
   * and normalising the copy leaves the original as it was.
   */
  method CloneIsIndependent(now: int) returns (original: Extent, copy: Extent)
    ensures original == Extent(5, 10)
    ensures copy == Normalize(Extent(5, 10), 5, now)
  {
    var q := new TimeRangeQuery("1234", Extent(5, 10), 5, Template("http://127.0.0.1/"));
    var c := q.Clone();
    assert c.statement == q.statement && c.extent == q.extent;
    assert c.step == q.step && c.templateUrl == q.templateUrl;
    c.NormalizeExtent(now);
    original, copy := q.extent, c.extent;
  }

  /**
   * A query normalised and then asked for its deltas, as TestCalculateDeltas
   * does, and the inverted extent, whose call simply returns.
   */
  method CalculateDeltasExamples(now: int) returns (d: seq<Extent>, inverted: seq<Extent>)
    requires now >= 101
    ensures d == [Extent(1, 49), Extent(101, 101)]
    ensures inverted == []
  {
    var q := new TimeRangeQuery("up", Extent(1, 101), 1, NoTemplate);
    q.NormalizeExtent(now);
    d := q.CalculateDeltas([Extent(50, 100)]);
    CalculateDeltasGapsAround(now);
    var backwards := new TimeRangeQuery("up", Extent(20, 10), 10, NoTemplate);
    inverted := backwards.CalculateDeltas([Extent(0, 0)]);
    DeltasInverted(Extent(20, 10), 10, [Extent(0, 0)]);
  }
}
