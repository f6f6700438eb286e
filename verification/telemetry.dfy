/** The track store: telemetry samples as the track parser delivers them,
    the time order the parser establishes, and the derived list of valid
    fixes. */
module Telemetry {
  import opened Common

  /** One telemetry sample. `time` is the timestamp in integer milliseconds;
      `lat`/`lon` are degrees and are only meaningful when `isValid` holds;
      elevation (metres) and speed (metres per second) may be missing. */
  datatype Sample = Sample(
    time: int,
    lat: real,
    lon: real,
    ele: Option<real>,
    speed: Option<real>,
    isValid: bool)

  /** A map position, as the marker state stores it. */
  datatype LatLon = LatLon(lat: real, lon: real)

  function PositionOf(s: Sample): LatLon {
    LatLon(s.lat, s.lon)
  }

  /** The parser sorts the points ascending by time; equal times may occur. */
  predicate SortedByTime(points: seq<Sample>) {
    forall i, j | 0 <= i < j < |points| :: points[i].time <= points[j].time
  }

  /** The `validPoints` list: the samples whose `isValid` flag is set, in
      track order. */
  function ValidPoints(points: seq<Sample>): (r: seq<Sample>)
    ensures |r| <= |points|
    ensures forall k | 0 <= k < |r| :: r[k].isValid && r[k] in points
    ensures forall k | 0 <= k < |points| :: points[k].isValid ==> points[k] in r
  {
    if |points| == 0 then []
    else
      var last := points[|points| - 1];
      ValidPoints(points[..|points| - 1]) + (if last.isValid then [last] else [])
  }

  /** Filtering commutes with concatenation, so the valid list keeps the
      relative order of the track. */
  lemma {:induction false} ValidPointsAppend(a: seq<Sample>, b: seq<Sample>)
    ensures ValidPoints(a + b) == ValidPoints(a) + ValidPoints(b)
    decreases |b|
  {
    if |b| == 0 {
      assert a + b == a;
    } else {
      var b' := b[..|b| - 1];
      assert (a + b)[..|a + b| - 1] == a + b';
      assert b[..|b| - 1] == b';
      ValidPointsAppend(a, b');
    }
  }

  /** A track without valid samples has an empty valid list. */
  lemma {:induction false} NoValidPoints(points: seq<Sample>)
    requires forall j | 0 <= j < |points| :: !points[j].isValid
    ensures ValidPoints(points) == []
    decreases |points|
  {
    if |points| > 0 {
      NoValidPoints(points[..|points| - 1]);
    }
  }

  /** Sample `i` is the earliest valid sample of the track. */
  predicate FirstValidAt(points: seq<Sample>, i: nat)
  {
    i < |points| && points[i].isValid && forall j | 0 <= j < i :: !points[j].isValid
  }

  /** The first entry of the valid list is the earliest valid sample of the
      track. */
  lemma FirstValidPoint(points: seq<Sample>, i: nat)
    requires FirstValidAt(points, i)
    ensures |ValidPoints(points)| > 0 && ValidPoints(points)[0] == points[i]
  {
    var before := points[..i];
    var rest := points[i + 1..];
    assert points == before + [points[i]] + rest;
    NoValidPoints(before);
    ValidPointsAppend(before + [points[i]], rest);
    ValidPointsAppend(before, [points[i]]);
    assert ValidPoints([points[i]]) == [points[i]] by {
      assert [points[i]][..0] == [];
    }
  }

  /** The great-circle distance between (lat1, lon1) and (lat2, lon2), in
      metres. Its trigonometry is not part of the model, so it is a parameter. */
  type Metric = (real, real, real, real) -> real

  /** What the model assumes of the metric: it never returns a negative value. */
  ghost predicate NonNegative(dist: Metric) {
    forall a, b, c, d :: dist(a, b, c, d) >= 0.0
  }
}
