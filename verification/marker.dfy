/** The marker state of `updateMarkerPosition`: where the map marker is
    heading (`target`), where it is drawn (`current`) and the last valid fix
    seen (`lastValid`). An invalid frame holds the last valid fix, so the
    displayed position never regresses to null once a fix has been seen. */
module Marker {
  import opened Common
  import opened Telemetry
  import opened Projection

  /** `hasMarker` records whether the map marker exists at all; the
      application only creates it when the track has a valid fix. */
  datatype MarkerState = MarkerState(
    hasMarker: bool,
    target: Option<LatLon>,
    current: Option<LatLon>,
    lastValid: Option<LatLon>)

  /** The state before any track is drawn. */
  const NoMarker := MarkerState(false, None, None, None)

  /** The state invariant: once the marker exists, all three positions are
      present. */
  predicate Holding(m: MarkerState) {
    m.hasMarker ==> m.target.Some? && m.current.Some? && m.lastValid.Some?
  }

  /** `find(p => p.frame === frame)`: the first entry tagged with `frame`. */
  function FindFrame(projected: seq<ProjectedPoint>, frame: int): (r: Option<ProjectedPoint>)
    ensures r.None? <==> forall k | 0 <= k < |projected| :: projected[k].frame != frame
    ensures r.Some? ==> r.value.frame == frame && r.value in projected
    ensures r.Some? ==> exists k | 0 <= k < |projected| ::
      projected[k] == r.value && forall j | 0 <= j < k :: projected[j].frame != frame
    decreases |projected|
  {
    if |projected| == 0 then None
    else if projected[0].frame == frame then Some(projected[0])
    else
      var r := FindFrame(projected[1..], frame);
      assert forall k | 1 <= k < |projected| :: projected[k] == projected[1..][k - 1];
      assert r.Some? ==> exists k | 0 <= k < |projected| ::
        projected[k] == r.value && forall j | 0 <= j < k :: projected[j].frame != frame by {
        if r.Some? {
          var k :| 0 <= k < |projected[1..]| && projected[1..][k] == r.value &&
            forall j | 0 <= j < k :: projected[1..][j].frame != frame;
          assert projected[k + 1] == r.value;
          assert forall j | 0 <= j < k + 1 :: projected[j].frame != frame by {
            forall j | 0 <= j < k + 1
              ensures projected[j].frame != frame
            {
              if j > 0 {
                assert projected[j] == projected[1..][j - 1];
              }
            }
          }
        }
      }
      r
  }

  /** When frame numbers are strictly increasing, as in every projection,
      looking a frame up yields the one entry that carries it. */
  lemma {:induction false} FindFrameUnique(projected: seq<ProjectedPoint>, k: nat)
    requires k < |projected|
    requires forall i, j | 0 <= i < j < |projected| :: projected[i].frame < projected[j].frame
    ensures FindFrame(projected, projected[k].frame) == Some(projected[k])
    decreases k
  {
    if k > 0 {
      assert projected[0].frame != projected[k].frame;
      assert projected[1..][k - 1] == projected[k];
      FindFrameUnique(projected[1..], k - 1);
    }
  }

  /** The marker jumps straight to its target when the video is paused or
      the marker is being dragged; otherwise the animation eases towards it. */
  predicate Jumps(isPlaying: bool, isDragging: bool) {
    !isPlaying || isDragging
  }

  /** `updateMarkerPosition(frame)`, position and hold logic. */
  function UpdateMarkerPosition(m: MarkerState, projected: seq<ProjectedPoint>, frame: int, isPlaying: bool, isDragging: bool): (r: MarkerState)
    ensures r.hasMarker == m.hasMarker
    ensures !m.hasMarker || FindFrame(projected, frame).None? ==> r == m
    ensures m.lastValid.Some? ==> r.lastValid.Some?
    ensures Holding(m) ==> Holding(r)
    ensures r != m ==> r.target == r.lastValid && r.target.Some?
    ensures (&& m.hasMarker && Jumps(isPlaying, isDragging) && FindFrame(projected, frame).Some?
             && (FindFrame(projected, frame).value.sample.isValid || m.lastValid.Some?))
            ==> r.current == r.target
    ensures !Jumps(isPlaying, isDragging) ==> r.current == m.current
  {
    if !m.hasMarker || |projected| == 0 then m
    else
      match FindFrame(projected, frame)
      case None => m
      case Some(point) =>
        if point.sample.isValid then
          var pos := PositionOf(point.sample);
          m.(target := Some(pos),
             lastValid := Some(pos),
             current := if Jumps(isPlaying, isDragging) then Some(pos) else m.current)
        else if m.lastValid.Some? then
          m.(target := m.lastValid,
             current := if Jumps(isPlaying, isDragging) then m.lastValid else m.current)
        else m
  }

  /** Updating twice for the same frame changes nothing more than updating
      once: re-applying a sync offset at the same frame is stable. */
  lemma UpdateMarkerIdempotent(m: MarkerState, projected: seq<ProjectedPoint>, frame: int, isPlaying: bool, isDragging: bool)
    ensures var once := UpdateMarkerPosition(m, projected, frame, isPlaying, isDragging);
      UpdateMarkerPosition(once, projected, frame, isPlaying, isDragging) == once
  {
  }

  /** A valid entry for the frame becomes both the target and the last valid
      fix; an invalid one shows the last valid fix and keeps it; a frame with
      no entry, or an invalid one before any fix, changes nothing. */
  lemma UpdateMarkerCases(m: MarkerState, projected: seq<ProjectedPoint>, frame: int, isPlaying: bool, isDragging: bool)
    requires m.hasMarker
    ensures var r := UpdateMarkerPosition(m, projected, frame, isPlaying, isDragging);
      var p := FindFrame(projected, frame);
      && (p.Some? && p.value.sample.isValid ==>
            r.target == Some(PositionOf(p.value.sample)) && r.lastValid == Some(PositionOf(p.value.sample)))
      && (p.Some? && !p.value.sample.isValid ==>
            r.lastValid == m.lastValid && (m.lastValid.Some? ==> r.target == m.lastValid) && (m.lastValid.None? ==> r == m))
  {
  }

  /** `drawTrackOnMap`: the marker is created at the first valid fix of the
      track; a track without valid fixes leaves the state as it was. */
  function DrawTrack(m: MarkerState, points: seq<Sample>): (r: MarkerState)
    ensures |ValidPoints(points)| == 0 ==> r == m
    ensures |ValidPoints(points)| > 0 ==> r.hasMarker && Holding(r)
    ensures forall i: nat | FirstValidAt(points, i) ::
      r.target == Some(PositionOf(points[i])) && r.current == r.target && r.lastValid == r.target
  {
    var valid := ValidPoints(points);
    if |valid| == 0 then m
    else
      assert forall i: nat | FirstValidAt(points, i) :: valid[0] == points[i] by {
        forall i: nat | FirstValidAt(points, i)
          ensures valid[0] == points[i]
        {
          FirstValidPoint(points, i);
        }
      }
      var pos := PositionOf(valid[0]);
      MarkerState(true, Some(pos), Some(pos), Some(pos))
  }

  /** The marker after the frames in `frames` were shown, one after another. */
  function UpdateAll(m: MarkerState, projected: seq<ProjectedPoint>, frames: seq<int>, isPlaying: bool, isDragging: bool): (r: MarkerState)
    ensures r.hasMarker == m.hasMarker
    ensures Holding(m) ==> Holding(r)
    ensures m.lastValid.Some? ==> r.lastValid.Some?
    decreases |frames|
  {
    if |frames| == 0 then m
    else
      var before := UpdateAll(m, projected, frames[..|frames| - 1], isPlaying, isDragging);
      UpdateMarkerPosition(before, projected, frames[|frames| - 1], isPlaying, isDragging)
  }

  /** Whether frame `f` has an entry and that entry is a valid fix. */
  predicate ShowsFix(projected: seq<ProjectedPoint>, f: int) {
    FindFrame(projected, f).Some? && FindFrame(projected, f).value.sample.isValid
  }

  /** Hold-last-valid over a run of frames: after a frame with a valid fix,
      any number of frames that are missing or invalid leave both the target
      and the last valid fix at that frame's position. */
  lemma {:induction false} HoldLastValid(m: MarkerState, projected: seq<ProjectedPoint>, frames: seq<int>, isPlaying: bool, isDragging: bool, i: nat)
    requires m.hasMarker
    requires i < |frames|
    requires ShowsFix(projected, frames[i])
    requires forall j | i < j < |frames| :: !ShowsFix(projected, frames[j])
    ensures var r := UpdateAll(m, projected, frames, isPlaying, isDragging);
      var pos := Some(PositionOf(FindFrame(projected, frames[i]).value.sample));
      r.target == pos && r.lastValid == pos
    decreases |frames|
  {
    var front := frames[..|frames| - 1];
    if i < |frames| - 1 {
      assert front[i] == frames[i];
      assert forall j | i < j < |front| :: front[j] == frames[j];
      HoldLastValid(m, projected, front, isPlaying, isDragging, i);
      assert !ShowsFix(projected, frames[|frames| - 1]);
    }
  }
}
