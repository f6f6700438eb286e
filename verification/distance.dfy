/** Total track distance (the loop in `processGpsData`): the sum of the legs
    between consecutive valid fixes. */
module Distance {
  import opened Telemetry

  /** The metric length of one leg. */
  function Leg(dist: Metric, p: Sample, q: Sample): real {
    dist(p.lat, p.lon, q.lat, q.lon)
  }

  /** The length of the path through `ps` in order: the sum of `Leg` over
      consecutive pairs. */
  function PathLength(dist: Metric, ps: seq<Sample>): real
    decreases |ps|
  {
    if |ps| < 2 then 0.0
    else PathLength(dist, ps[..|ps| - 1]) + Leg(dist, ps[|ps| - 2], ps[|ps| - 1])
  }

  /** With a non-negative metric, no path is shorter than zero. */
  lemma {:induction false} PathLengthNonNegative(dist: Metric, ps: seq<Sample>)
    requires NonNegative(dist)
    ensures PathLength(dist, ps) >= 0.0
    decreases |ps|
  {
    if |ps| >= 2 {
      PathLengthNonNegative(dist, ps[..|ps| - 1]);
      assert Leg(dist, ps[|ps| - 2], ps[|ps| - 1]) >= 0.0;
    }
  }

  /** Joining two paths adds the leg that connects them: the total is the
      length along the way, not the straight distance between the ends. */
  lemma {:induction false} PathLengthAppend(dist: Metric, a: seq<Sample>, b: seq<Sample>)
    requires |a| > 0 && |b| > 0
    ensures PathLength(dist, a + b) == PathLength(dist, a) + Leg(dist, a[|a| - 1], b[0]) + PathLength(dist, b)
    decreases |b|
  {
    var ab := a + b;
    if |b| == 1 {
      assert ab[..|ab| - 1] == a;
    } else {
      var b' := b[..|b| - 1];
      assert ab[..|ab| - 1] == a + b';
      assert ab[|ab| - 2] == b'[|b'| - 1] && ab[|ab| - 1] == b[|b| - 1];
      PathLengthAppend(dist, a, b');
    }
  }

  /** The total distance of a track: the path length through its valid fixes. */
  function TrackDistance(dist: Metric, points: seq<Sample>): real {
    PathLength(dist, ValidPoints(points))
  }

  /** An invalid sample anywhere in the track contributes no distance and
      does not break the sum: removing it leaves the total unchanged. */
  lemma InvalidSampleAddsNoDistance(dist: Metric, a: seq<Sample>, x: Sample, b: seq<Sample>)
    requires !x.isValid
    ensures TrackDistance(dist, a + [x] + b) == TrackDistance(dist, a + b)
  {
    ValidPointsAppend(a + [x], b);
    ValidPointsAppend(a, [x]);
    ValidPointsAppend(a, b);
    assert ValidPoints([x]) == [] by {
      assert [x][..0] == [];
    }
    assert ValidPoints(a + [x]) == ValidPoints(a);
  }

  /** The distance loop of `processGpsData` over the valid fixes. */
  method TotalDistance(dist: Metric, points: seq<Sample>) returns (total: real)
    ensures total == TrackDistance(dist, points)
    ensures |ValidPoints(points)| < 2 ==> total == 0.0
    ensures NonNegative(dist) ==> total >= 0.0
  {
    var validPoints := ValidPoints(points);
    total := 0.0;
    if |validPoints| < 2 {
      return;
    }
    var i := 1;
    while i < |validPoints|
      invariant 1 <= i <= |validPoints|
      invariant total == PathLength(dist, validPoints[..i])
    {
      var d := dist(validPoints[i - 1].lat, validPoints[i - 1].lon, validPoints[i].lat, validPoints[i].lon);
      total := total + d;
      assert validPoints[..i + 1][..i] == validPoints[..i];
      i := i + 1;
    }
    assert validPoints[..i] == validPoints;
    if NonNegative(dist) {
      PathLengthNonNegative(dist, validPoints);
    }
  }
}
