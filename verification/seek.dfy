/** Click-to-seek resolution (`seekToMapPosition`): the projected entry
    nearest to a clicked map position, among valid entries only. */
module Seek {
  import opened Common
  import opened Telemetry
  import opened Projection

  /** The metric distance from the click to an entry's position. */
  function DistanceTo(dist: Metric, lat: real, lon: real, p: ProjectedPoint): real {
    dist(lat, lon, p.sample.lat, p.sample.lon)
  }

  /** `k` is the entry the scan over the first `n` entries settles on: a
      valid entry no valid entry is closer than, and strictly closer than
      every earlier valid entry (the comparison is a strict `<`, so the
      earliest of equally near entries wins). */
  predicate NearestAmong(projected: seq<ProjectedPoint>, n: nat, dist: Metric, lat: real, lon: real, k: nat)
    requires n <= |projected|
  {
    && k < n
    && projected[k].sample.isValid
    && (forall j | 0 <= j < n && projected[j].sample.isValid ::
          DistanceTo(dist, lat, lon, projected[k]) <= DistanceTo(dist, lat, lon, projected[j]))
    && (forall j | 0 <= j < k && projected[j].sample.isValid ::
          DistanceTo(dist, lat, lon, projected[k]) < DistanceTo(dist, lat, lon, projected[j]))
  }

  predicate IsNearestValid(projected: seq<ProjectedPoint>, dist: Metric, lat: real, lon: real, k: nat) {
    NearestAmong(projected, |projected|, dist, lat, lon, k)
  }

  /** The strict comparison against the best distance so far, where no best
      yet stands for the initial `Infinity`. */
  predicate Closer(d: real, closest: Option<real>) {
    closest.None? || d < closest.value
  }

  /** The argmin loop of `seekToMapPosition`: the index of the nearest valid
      entry, or `None` when no entry is valid. */
  method NearestValidIndex(projected: seq<ProjectedPoint>, dist: Metric, lat: real, lon: real) returns (best: Option<nat>)
    ensures best.None? <==> forall j | 0 <= j < |projected| :: !projected[j].sample.isValid
    ensures best.Some? ==> IsNearestValid(projected, dist, lat, lon, best.value)
  {
    best := None;
    var closest: Option<real> := None;
    var i := 0;
    while i < |projected|
      invariant 0 <= i <= |projected|
      invariant best.None? <==> forall j | 0 <= j < i :: !projected[j].sample.isValid
      invariant best.None? <==> closest.None?
      invariant best.Some? ==> NearestAmong(projected, i, dist, lat, lon, best.value)
      invariant best.Some? ==> closest.value == DistanceTo(dist, lat, lon, projected[best.value])
    {
      var point := projected[i];
      if point.sample.isValid {
        var d := dist(lat, lon, point.sample.lat, point.sample.lon);
        if Closer(d, closest) {
          closest := Some(d);
          best := Some(i);
        }
      }
      i := i + 1;
    }
  }

  /** The contract of the scan names exactly one entry. */
  lemma NearestUnique(projected: seq<ProjectedPoint>, dist: Metric, lat: real, lon: real, k1: nat, k2: nat)
    requires IsNearestValid(projected, dist, lat, lon, k1)
    requires IsNearestValid(projected, dist, lat, lon, k2)
    ensures k1 == k2
  {
  }

  /** The video position of a chosen entry, in seconds. */
  function SeekTime(p: ProjectedPoint): (seconds: real)
    ensures seconds * 1000.0 == p.videoTime
  {
    p.videoTime / 1000.0
  }
}
