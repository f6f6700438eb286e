/** The playback session of `TelemetryApp`: the loaded track and video
    parameters, the current sync offset, the projected list and the marker
    state, with the events that change them (load, sync offset, video time
    update, click-to-seek). */
module Session {
  import opened Common
  import opened Telemetry
  import opened Projection
  import opened Marker
  import opened Seek
  import opened Distance
  import opened Arith

  /** The application state the core reads and writes. `totalDistance` is
      the computed total distance in metres, `None` while never computed. */
  datatype Session = Session(
    points: seq<Sample>,
    fps: real,
    duration: real,
    syncOffset: int,
    projected: seq<ProjectedPoint>,
    marker: MarkerState,
    currentFrame: int,
    isPlaying: bool,
    isDragging: bool,
    totalDistance: Option<real>)

  /** The session invariant: the projected list is the projection of the
      track at the current offset (empty when the track is), and the marker
      state holds its positions. */
  predicate Consistent(s: Session) {
    && (|s.points| > 0 ==> Project(s.points, s.fps, s.duration, s.syncOffset) == Success(s.projected))
    && (|s.points| == 0 ==> s.projected == [])
    && Holding(s.marker)
  }

  /** A projected list whose frame numbers are strictly increasing and
      whose entries sit at their frames' video times. */
  predicate WellTimed(projected: seq<ProjectedPoint>, fps: real) {
    && (forall i, j | 0 <= i < j < |projected| :: projected[i].frame < projected[j].frame)
    && (forall k | 0 <= k < |projected| :: fps != 0.0 && projected[k].videoTime == VideoTimeMs(projected[k].frame, fps))
  }

  /** A consistent session's projected list is well timed. */
  lemma ConsistentFrames(s: Session)
    requires Consistent(s)
    ensures WellTimed(s.projected, s.fps)
  {
    if |s.points| > 0 {
      ProjectedTimes(s.points, s.fps, s.duration, s.syncOffset);
    }
  }

  /** The frame shown at a video position: `Math.floor(currentTime * fps)`. */
  function CurrentFrame(currentTime: real, fps: real): (f: int)
    ensures f as real <= currentTime * fps < f as real + 1.0
  {
    (currentTime * fps).Floor
  }

  /** Seeking to an entry's video time and reading the frame back yields the
      entry's own frame: click-to-seek lands on the chosen frame. */
  lemma SeekLandsOnFrame(projected: seq<ProjectedPoint>, fps: real, k: nat)
    requires WellTimed(projected, fps)
    requires k < |projected|
    ensures CurrentFrame(SeekTime(projected[k]), fps) == projected[k].frame
    ensures FindFrame(projected, projected[k].frame) == Some(projected[k])
  {
    var p := projected[k];
    assert fps != 0.0 && p.videoTime == VideoTimeMs(p.frame, fps);
    SeekTimeFrame(p, fps);
    FindFrameUnique(projected, k);
  }

  /** Seeking to one entry's video time shows that entry's frame. */
  lemma SeekTimeFrame(p: ProjectedPoint, fps: real)
    requires fps != 0.0 && p.videoTime == VideoTimeMs(p.frame, fps)
    ensures CurrentFrame(SeekTime(p), fps) == p.frame
  {
    assert SeekTime(p) == p.videoTime / 1000.0;
    FrameAtVideoTime(p.videoTime, p.frame, fps);
  }

  /** Reading the frame back from a frame's own video time gives that frame. */
  lemma FrameAtVideoTime(videoTime: real, frame: nat, fps: real)
    requires fps != 0.0
    requires videoTime == VideoTimeMs(frame, fps)
    ensures CurrentFrame(videoTime / 1000.0, fps) == frame
  {
    PerFrameRoundTrip(frame as real, fps);
    var x := (videoTime / 1000.0) * fps;
    assert x == frame as real;
    assert x.Floor == frame;
  }

  /** `loadAndSync` once the track, video metadata and offset are at hand:
      `processGpsData` (distance, projection) and `drawTrackOnMap` (marker).
      An empty track returns early and leaves everything unset. */
  method Load(points: seq<Sample>, fps: real, duration: real, syncOffset: int, dist: Metric) returns (s: Session)
    ensures Consistent(s)
    ensures s.points == points && s.fps == fps && s.duration == duration && s.syncOffset == syncOffset
    ensures !s.isPlaying && !s.isDragging && s.currentFrame == 0
    ensures |points| == 0 ==> s.totalDistance.None? && s.marker == NoMarker
    ensures |points| > 0 ==> s.totalDistance == Some(TrackDistance(dist, points))
    ensures s.marker.hasMarker <==> |ValidPoints(points)| > 0
    ensures |points| > 0 ==> s.marker == DrawTrack(NoMarker, points)
  {
    s := Session(points, fps, duration, syncOffset, [], NoMarker, 0, false, false, None);
    if |points| > 0 {
      var total := TotalDistance(dist, points);
      var projected := Project(points, fps, duration, syncOffset).value;
      s := s.(totalDistance := Some(total), projected := projected, marker := DrawTrack(NoMarker, points));
    } else {
      assert |ValidPoints(points)| == 0;
    }
  }

  /** `applySyncOffset`: store the new offset, recompute the projection and
      show the frame at the video's current position. On an empty track the
      recomputation throws after the offset is stored, so nothing else
      changes. */
  function ApplySyncOffset(s: Session, syncOffset: int, currentTime: real): (r: Session)
    ensures r.syncOffset == syncOffset
    ensures r.points == s.points && r.fps == s.fps && r.duration == s.duration
    ensures r.isPlaying == s.isPlaying && r.isDragging == s.isDragging && r.currentFrame == s.currentFrame
    ensures Consistent(s) ==> Consistent(r)
    ensures |s.points| == 0 ==> r == s.(syncOffset := syncOffset)
    ensures r.totalDistance == s.totalDistance
    ensures |s.points| > 0 ==> Project(s.points, s.fps, s.duration, syncOffset) == Success(r.projected)
    ensures |s.points| > 0 ==>
      r.marker == UpdateMarkerPosition(s.marker, r.projected, CurrentFrame(currentTime, s.fps), s.isPlaying, s.isDragging)
  {
    var stored := s.(syncOffset := syncOffset);
    match Project(s.points, s.fps, s.duration, syncOffset)
    case Failure(_) => stored
    case Success(projected) =>
      var frame := CurrentFrame(currentTime, s.fps);
      stored.(projected := projected,
              marker := UpdateMarkerPosition(s.marker, projected, frame, s.isPlaying, s.isDragging))
  }

  /** Applying the same offset twice gives the same session as applying it
      once: the projection is a pure function of track, video and offset. */
  lemma ApplySyncOffsetIdempotent(s: Session, syncOffset: int, currentTime: real)
    ensures var once := ApplySyncOffset(s, syncOffset, currentTime);
      ApplySyncOffset(once, syncOffset, currentTime) == once
  {
    var once := ApplySyncOffset(s, syncOffset, currentTime);
    if |s.points| > 0 {
      var projected := Project(s.points, s.fps, s.duration, syncOffset).value;
      UpdateMarkerIdempotent(s.marker, projected, CurrentFrame(currentTime, s.fps), s.isPlaying, s.isDragging);
    }
  }

  /** `onVideoTimeUpdate`: ignored while the marker is dragged; otherwise the
      frame at the new position becomes current and the marker follows it. */
  function OnVideoTimeUpdate(s: Session, currentTime: real): (r: Session)
    ensures s.isDragging ==> r == s
    ensures !s.isDragging ==>
      r.currentFrame as real <= currentTime * s.fps < r.currentFrame as real + 1.0
    ensures Consistent(s) ==> Consistent(r)
    ensures r.projected == s.projected && r.syncOffset == s.syncOffset
    ensures s.marker.lastValid.Some? ==> r.marker.lastValid.Some?
    ensures !s.isDragging ==>
      r == s.(currentFrame := r.currentFrame,
              marker := UpdateMarkerPosition(s.marker, s.projected, r.currentFrame, s.isPlaying, s.isDragging))
  {
    if s.isDragging then s
    else
      var frame := CurrentFrame(currentTime, s.fps);
      s.(currentFrame := frame,
         marker := UpdateMarkerPosition(s.marker, s.projected, frame, s.isPlaying, s.isDragging))
  }

  /** `seekToMapPosition`: find the nearest valid entry to the clicked
      position; if there is one, return the video position (seconds) to seek
      to and move the marker to that entry's frame. */
  method SeekToMapPosition(s: Session, dist: Metric, lat: real, lon: real) returns (r: Session, seekTo: Option<real>)
    ensures seekTo.None? <==> forall j | 0 <= j < |s.projected| :: !s.projected[j].sample.isValid
    ensures seekTo.None? ==> r == s
    ensures seekTo.Some? ==> exists k: nat | k < |s.projected| ::
      && IsNearestValid(s.projected, dist, lat, lon, k)
      && seekTo.value == SeekTime(s.projected[k])
      && r == s.(marker := UpdateMarkerPosition(s.marker, s.projected, s.projected[k].frame, s.isPlaying, s.isDragging))
    ensures Consistent(s) ==> Consistent(r)
    ensures Consistent(s) && s.marker.hasMarker && seekTo.Some? ==> exists k: nat | k < |s.projected| ::
      && IsNearestValid(s.projected, dist, lat, lon, k)
      && r.marker.target == Some(PositionOf(s.projected[k].sample))
      && r.marker.lastValid == r.marker.target
      && CurrentFrame(seekTo.value, s.fps) == s.projected[k].frame
  {
    if |s.projected| == 0 {
      return s, None;
    }
    var best := NearestValidIndex(s.projected, dist, lat, lon);
    if best.None? {
      return s, None;
    }
    var k := best.value;
    var point := s.projected[k];
    seekTo := Some(SeekTime(point));
    r := s.(marker := UpdateMarkerPosition(s.marker, s.projected, point.frame, s.isPlaying, s.isDragging));
    if Consistent(s) {
      ConsistentFrames(s);
      SeekLandsOnFrame(s.projected, s.fps, k);
    }
  }

  /** After a seek, the video time update that follows shows the frame the
      seek chose, and with a marker present, its position. */
  lemma SeekThenTimeUpdate(s: Session, k: nat)
    requires WellTimed(s.projected, s.fps)
    requires k < |s.projected| && s.projected[k].sample.isValid
    requires s.marker.hasMarker && !s.isDragging
    ensures var r := OnVideoTimeUpdate(s, SeekTime(s.projected[k]));
      r.currentFrame == s.projected[k].frame &&
      r.marker.target == Some(PositionOf(s.projected[k].sample))
  {
    SeekLandsOnFrame(s.projected, s.fps, k);
  }
}
