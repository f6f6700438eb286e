/** The interpolation engine (`interpolateGpsPoint` and
    `createInterpolatedPoint`): one estimated sample for a target time,
    found from the two samples that bracket it, with the dropout rule for
    invalid fixes. */
module Interpolation {
  import opened Common
  import opened Telemetry
  import opened Arith

  /** The position where the scan of the track stops: the index of the first
      sample strictly later than `target`, or the track length if there is
      none. The sample before it, if any, is the `before` neighbour; the
      sample at it, if any, is the `after` neighbour. */
  function FirstAfter(points: seq<Sample>, target: real): (k: nat)
    ensures k <= |points|
    ensures forall j | 0 <= j < k :: points[j].time as real <= target
    ensures k < |points| ==> target < points[k].time as real
    ensures SortedByTime(points) ==> forall j | k <= j < |points| :: target < points[j].time as real
    decreases |points|
  {
    if |points| == 0 then 0
    else if target < points[0].time as real then 0
    else 1 + FirstAfter(points[1..], target)
  }

  /** `v` lies between `x` and `y`, in whichever order those two come. */
  predicate InRange(x: real, y: real, v: real) {
    (x <= v <= y) || (y <= v <= x)
  }

  /** `createInterpolatedPoint`: a field-for-field copy of a sample. */
  function CopyPoint(s: Sample): (r: Sample)
    ensures r == s
  {
    Sample(s.time, s.lat, s.lon, s.ele, s.speed, s.isValid)
  }

  /** How far `target` has moved from the `before` time towards the `after`
      time. The neighbour search guarantees the bracket, so the denominator
      is positive. */
  function Ratio(beforeTime: int, afterTime: int, target: real): (r: real)
    requires beforeTime as real <= target < afterTime as real
    ensures 0.0 <= r < 1.0
    ensures r == 0.0 <==> target == beforeTime as real
    ensures r * (afterTime - beforeTime) as real == target - beforeTime as real
  {
    var part := target - beforeTime as real;
    var span := afterTime as real - beforeTime as real;
    FractionBelowOne(part, span);
    part / span
  }

  /** One coordinate moved a fraction `ratio` of the way from `x` to `y`. */
  function Lerp(x: real, y: real, ratio: real): (r: real)
    requires 0.0 <= ratio <= 1.0
    ensures InRange(x, y, r)
    ensures ratio == 0.0 ==> r == x
    ensures r - x == (y - x) * ratio
  {
    var d := y - x;
    ScaleWithin(d, ratio);
    x + d * ratio
  }

  /** Elevation or speed at the target: interpolated when both sides carry
      a value, otherwise whichever side does, otherwise missing. */
  function LerpOptional(x: Option<real>, y: Option<real>, ratio: real): (r: Option<real>)
    requires 0.0 <= ratio <= 1.0
    ensures r.None? <==> x.None? && y.None?
    ensures x.Some? && y.None? ==> r == x
    ensures x.None? && y.Some? ==> r == y
    ensures x.Some? && y.Some? ==> r.Some? && InRange(x.value, y.value, r.value)
    ensures x.Some? && y.Some? ==> r.Some? && r.value - x.value == (y.value - x.value) * ratio
    ensures x.Some? && ratio == 0.0 ==> r == x
  {
    if x.Some? && y.Some? then Some(Lerp(x.value, y.value, ratio))
    else if x.Some? then x
    else y
  }

  /** `v` lies on the segment from `x` to `y`, at the point reached after
      `part` of a span of length `span`: between the two ends, and on the
      straight line through them (stated without division). */
  predicate OnSegment(x: real, y: real, v: real, span: real, part: real) {
    InRange(x, y, v) && (v - x) * span == (y - x) * part
  }

  /** An optional field (elevation or speed) follows its two neighbours:
      on the segment between them when both carry a value, a copy of the one
      that does when only one does, and missing only when both are. */
  predicate OptionalOnSegment(x: Option<real>, y: Option<real>, v: Option<real>, span: real, part: real) {
    && (v.None? <==> x.None? && y.None?)
    && (x.Some? && y.None? ==> v == x)
    && (x.None? && y.Some? ==> v == y)
    && (x.Some? && y.Some? ==> v.Some? && OnSegment(x.value, y.value, v.value, span, part))
  }

  /** Linear interpolation at `ratio` lands on the segment at the part of the
      span the ratio stands for. */
  lemma LerpOnSegment(x: real, y: real, ratio: real, span: real, part: real)
    requires 0.0 <= ratio <= 1.0
    requires ratio * span == part
    ensures OnSegment(x, y, Lerp(x, y, ratio), span, part)
  {
    ScaleLine(y - x, ratio, span, part);
  }

  /** The same for an optional field. */
  lemma LerpOptionalOnSegment(x: Option<real>, y: Option<real>, ratio: real, span: real, part: real)
    requires 0.0 <= ratio <= 1.0
    requires ratio * span == part
    ensures OptionalOnSegment(x, y, LerpOptional(x, y, ratio), span, part)
  {
    if x.Some? && y.Some? {
      LerpOnSegment(x.value, y.value, ratio, span, part);
    }
  }

  /** The sample produced when both neighbours are valid fixes: every field
      lies on the straight line through the two samples at the target time. */
  function InterpolateBetween(b: Sample, a: Sample, target: real): (r: Sample)
    requires b.time as real <= target < a.time as real
    ensures r.isValid
    ensures r.time == TruncateMs(target)
    ensures OnSegment(b.lat, a.lat, r.lat, (a.time - b.time) as real, target - b.time as real)
    ensures OnSegment(b.lon, a.lon, r.lon, (a.time - b.time) as real, target - b.time as real)
    ensures OptionalOnSegment(b.ele, a.ele, r.ele, (a.time - b.time) as real, target - b.time as real)
    ensures OptionalOnSegment(b.speed, a.speed, r.speed, (a.time - b.time) as real, target - b.time as real)
    ensures target == b.time as real ==>
      r.time == b.time && r.lat == b.lat && r.lon == b.lon &&
      (b.ele.Some? ==> r.ele == b.ele) && (b.speed.Some? ==> r.speed == b.speed)
  {
    var ratio := Ratio(b.time, a.time, target);
    var span := (a.time - b.time) as real;
    var part := target - b.time as real;
    LerpOnSegment(b.lat, a.lat, ratio, span, part);
    LerpOnSegment(b.lon, a.lon, ratio, span, part);
    LerpOptionalOnSegment(b.ele, a.ele, ratio, span, part);
    LerpOptionalOnSegment(b.speed, a.speed, ratio, span, part);
    assert target == b.time as real ==> TruncateMs(target) == b.time by {
      TruncateWholeMs(b.time);
    }
    Sample(
      TruncateMs(target),
      Lerp(b.lat, a.lat, ratio),
      Lerp(b.lon, a.lon, ratio),
      LerpOptional(b.ele, a.ele, ratio),
      LerpOptional(b.speed, a.speed, ratio),
      true)
  }

  /** `interpolateGpsPoint`: the estimated sample at `target`, or `None`
      (JavaScript's `null`) when the track is empty or the target falls in
      a gap between two invalid fixes. */
  function InterpolateAt(target: real, points: seq<Sample>): (r: Option<Sample>)
    ensures |points| == 0 ==> r.None?
    ensures |points| > 0 && target < points[0].time as real ==> r == Some(points[0])
    ensures |points| > 0 && (forall j | 0 <= j < |points| :: points[j].time as real <= target) ==>
      r == Some(points[|points| - 1])
    ensures r.None? ==> |points| == 0 || exists i | 0 <= i < |points| - 1 ::
      !points[i].isValid && !points[i + 1].isValid &&
      points[i].time as real <= target < points[i + 1].time as real
    ensures r.Some? && !r.value.isValid ==> r.value in points
  {
    var k := FirstAfter(points, target);
    if k == 0 && k == |points| then None
    else if k == 0 then Some(CopyPoint(points[k]))
    else if k == |points| then Some(CopyPoint(points[k - 1]))
    else
      var before := points[k - 1];
      var after := points[k];
      if !before.isValid && !after.isValid then None
      else if !before.isValid && after.isValid then Some(CopyPoint(after))
      else if before.isValid && !after.isValid then Some(CopyPoint(before))
      else Some(InterpolateBetween(before, after, target))
  }

  /** Inside a time-sorted track, the result is decided by the two samples
      that bracket the target: no fix when both are invalid, a copy of the
      valid one when exactly one is valid, a linear interpolation when both
      are valid. */
  lemma InterpolateInsideTrack(points: seq<Sample>, i: nat, target: real)
    requires SortedByTime(points)
    requires i + 1 < |points|
    requires points[i].time as real <= target < points[i + 1].time as real
    ensures var r := InterpolateAt(target, points);
      var b := points[i];
      var a := points[i + 1];
      && (r.None? <==> !b.isValid && !a.isValid)
      && (!b.isValid && a.isValid ==> r == Some(a))
      && (b.isValid && !a.isValid ==> r == Some(b))
      && (b.isValid && a.isValid ==> r == Some(InterpolateBetween(b, a, target)))
  {
  }

  /** A track of valid fixes never produces a null result, and what it
      produces is a valid fix. */
  lemma AllValidNeverNull(points: seq<Sample>, target: real)
    requires |points| > 0
    requires forall j | 0 <= j < |points| :: points[j].isValid
    ensures InterpolateAt(target, points).Some?
    ensures InterpolateAt(target, points).value.isValid
  {
  }

  /** Two valid fixes a minute apart, at (10, 20) and (20, 40): half way
      between them in time the estimate is the midpoint (15, 30). */
  lemma MidpointExample(t0: int)
    ensures var b := Sample(t0, 10.0, 20.0, None, None, true);
      var a := Sample(t0 + 60000, 20.0, 40.0, None, None, true);
      var r := InterpolateAt((t0 + 30000) as real, [b, a]);
      r.Some? && r.value.lat == 15.0 && r.value.lon == 30.0 && r.value.time == t0 + 30000
  {
    var b := Sample(t0, 10.0, 20.0, None, None, true);
    var a := Sample(t0 + 60000, 20.0, 40.0, None, None, true);
    InterpolateInsideTrack([b, a], 0, (t0 + 30000) as real);
    TruncateWholeMs(t0 + 30000);
    var r := InterpolateBetween(b, a, (t0 + 30000) as real);
    assert (r.lat - 10.0) * 60000.0 == 10.0 * 30000.0;
    assert (r.lon - 20.0) * 60000.0 == 20.0 * 30000.0;
  }
}
