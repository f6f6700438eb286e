/** The timeline projector (`interpolateGpsPoints`): every video frame is
    mapped to a telemetry time, and the samples interpolated there are
    collected, tagged with their frame and video time. */
module Projection {
  import opened Common
  import opened Telemetry
  import opened Interpolation
  import opened Arith

  /** One entry of the projected list: an interpolated sample tagged with the
      frame it belongs to and that frame's video time in milliseconds. */
  datatype ProjectedPoint = ProjectedPoint(sample: Sample, frame: nat, videoTime: real)

  /** Why a projection could not be built: the track has no first sample to
      take the start time from. */
  datatype ProjectionError = EmptyTrack

  /** The video time of a frame, in milliseconds. */
  function VideoTimeMs(frame: nat, fps: real): (t: real)
    requires fps != 0.0
    ensures t * fps == frame as real * 1000.0
  {
    PerFrameRoundTrip(frame as real, fps);
    frame as real / fps * 1000.0
  }

  /** The telemetry time a video time is aligned with. */
  function GpsTime(startTime: int, videoTime: real, syncOffset: int): (t: real)
    ensures t - startTime as real - videoTime == syncOffset as real
  {
    startTime as real + videoTime + syncOffset as real
  }

  /** The number of frames the projection visits: `Math.floor(duration * fps)`,
      read as zero when that is negative since the loop then never runs. */
  function TotalFrames(duration: real, fps: real): (n: nat)
    ensures n > 0 ==> fps != 0.0 && n as real <= duration * fps < n as real + 1.0
    ensures n == 0 <==> duration * fps < 1.0
  {
    var f := (duration * fps).Floor;
    if f > 0 then f else 0
  }

  /** The entry for one frame, or `None` when interpolation yields null. */
  function FrameEntry(points: seq<Sample>, fps: real, startTime: int, syncOffset: int, frame: nat): (r: Option<ProjectedPoint>)
    requires fps != 0.0
    ensures r.None? <==> InterpolateAt(GpsTime(startTime, VideoTimeMs(frame, fps), syncOffset), points).None?
    ensures r.Some? ==> r.value.frame == frame && r.value.videoTime * fps == frame as real * 1000.0
    ensures r.Some? ==> Some(r.value.sample) == InterpolateAt(GpsTime(startTime, r.value.videoTime, syncOffset), points)
  {
    var videoTime := VideoTimeMs(frame, fps);
    match InterpolateAt(GpsTime(startTime, videoTime, syncOffset), points)
    case None => None
    case Some(s) => Some(ProjectedPoint(s, frame, videoTime))
  }

  /** Some entry of `r` is tagged with frame `f`, looking from the back. */
  predicate HasFrame(r: seq<ProjectedPoint>, f: nat)
    decreases |r|
  {
    |r| > 0 && (r[|r| - 1].frame == f || HasFrame(r[..|r| - 1], f))
  }

  /** `HasFrame` holds exactly when some position of `r` carries `f`. */
  lemma {:induction false} HasFrameMeaning(r: seq<ProjectedPoint>, f: nat)
    ensures HasFrame(r, f) <==> exists k | 0 <= k < |r| :: r[k].frame == f
    decreases |r|
  {
    if |r| > 0 {
      var front := r[..|r| - 1];
      HasFrameMeaning(front, f);
      assert forall k | 0 <= k < |front| :: front[k] == r[k];
      if !HasFrame(r, f) {
        forall k | 0 <= k < |r|
          ensures r[k].frame != f
        {
          if k < |front| {
            assert front[k] == r[k];
          }
        }
      }
    }
  }

  /** Pushing an entry adds exactly its frame to the frames present. */
  lemma HasFrameAppend(front: seq<ProjectedPoint>, e: ProjectedPoint)
    ensures forall f: nat :: HasFrame(front + [e], f) <==> HasFrame(front, f) || e.frame == f
  {
    assert (front + [e])[..|front|] == front;
  }

  /** The loop's output after `n` frames: frames strictly increasing and
      below `n`, each entry the one its frame yields, and a frame present
      exactly when it yields an entry. */
  predicate Collected(entry: nat -> Option<ProjectedPoint>, n: nat, r: seq<ProjectedPoint>) {
    && |r| <= n
    && (forall k | 0 <= k < |r| :: r[k].frame < n)
    && (forall k, l | 0 <= k < l < |r| :: r[k].frame < r[l].frame)
    && (forall k | 0 <= k < |r| :: entry(r[k].frame) == Some(r[k]))
    && (forall f: nat | f < n :: entry(f).Some? <==> HasFrame(r, f))
  }

  /** A frame that yields nothing is skipped. */
  lemma SkipFrame(entry: nat -> Option<ProjectedPoint>, n: nat, front: seq<ProjectedPoint>)
    requires n > 0 && entry(n - 1).None?
    requires Collected(entry, n - 1, front)
    ensures Collected(entry, n, front)
  {
    assert !HasFrame(front, n - 1) by {
      HasFrameMeaning(front, n - 1);
    }
  }

  /** A frame that yields an entry has it pushed at the end. */
  lemma PushFrame(entry: nat -> Option<ProjectedPoint>, n: nat, front: seq<ProjectedPoint>)
    requires forall f: nat :: entry(f).Some? ==> entry(f).value.frame == f
    requires n > 0 && entry(n - 1).Some?
    requires Collected(entry, n - 1, front)
    ensures Collected(entry, n, front + [entry(n - 1).value])
  {
    var e := entry(n - 1).value;
    var r := front + [e];
    assert forall k | 0 <= k < |front| :: r[k] == front[k];
    assert r[|front|] == e;
    HasFrameAppend(front, e);
  }

  /** The projection loop after it has visited frames `0 .. n-1`, given what
      each frame yields: the non-null results are pushed in frame order and
      the null ones are skipped. */
  function CollectFrames(entry: nat -> Option<ProjectedPoint>, n: nat): (r: seq<ProjectedPoint>)
    requires forall f: nat :: entry(f).Some? ==> entry(f).value.frame == f
    ensures |r| <= n
    ensures forall k | 0 <= k < |r| :: r[k].frame < n
    ensures forall k, l | 0 <= k < l < |r| :: r[k].frame < r[l].frame
    ensures forall k | 0 <= k < |r| :: entry(r[k].frame) == Some(r[k])
    ensures forall f: nat | f < n :: entry(f).Some? <==> HasFrame(r, f)
    decreases n
  {
    if n == 0 then []
    else
      var front := CollectFrames(entry, n - 1);
      assert Collected(entry, n - 1, front);
      if entry(n - 1).None? then
        SkipFrame(entry, n, front);
        front
      else
        PushFrame(entry, n, front);
        front + [entry(n - 1).value]
  }

  /** What a projected entry is: the sample interpolated at the telemetry
      time its frame is aligned with, and that frame's video time. */
  lemma EntryMeaning(points: seq<Sample>, fps: real, startTime: int, syncOffset: int, e: ProjectedPoint)
    requires fps != 0.0
    requires FrameEntry(points, fps, startTime, syncOffset, e.frame) == Some(e)
    ensures e.videoTime == VideoTimeMs(e.frame, fps)
    ensures e.videoTime * fps == e.frame as real * 1000.0
    ensures InterpolateAt(GpsTime(startTime, e.videoTime, syncOffset), points) == Some(e.sample)
  {
    var t := VideoTimeMs(e.frame, fps);
    assert InterpolateAt(GpsTime(startTime, t, syncOffset), points).Some?;
    assert e.videoTime == t;
  }

  /** The projected list for frames `0 .. n-1` of a video at `fps`. */
  function ProjectFrames(points: seq<Sample>, fps: real, startTime: int, syncOffset: int, n: nat): (r: seq<ProjectedPoint>)
    requires n > 0 ==> fps != 0.0
  {
    if n == 0 then [] else CollectFrames(Entries(points, fps, startTime, syncOffset), n)
  }

  /** What each frame yields, as one value the loop can be handed. */
  function Entries(points: seq<Sample>, fps: real, startTime: int, syncOffset: int): nat -> Option<ProjectedPoint>
    requires fps != 0.0
  {
    (f: nat) => FrameEntry(points, fps, startTime, syncOffset, f)
  }

  /** `interpolateGpsPoints`: the projection of the whole video; it throws
      when the track is empty, since the start time is read from its first
      sample. */
  function Project(points: seq<Sample>, fps: real, duration: real, syncOffset: int): (r: Result<seq<ProjectedPoint>, ProjectionError>)
    ensures r.Failure? <==> |points| == 0
    ensures r.Success? ==> |r.value| <= TotalFrames(duration, fps)
    ensures r.Success? ==> forall k | 0 <= k < |r.value| :: r.value[k].frame < TotalFrames(duration, fps)
    ensures r.Success? ==> forall k, l | 0 <= k < l < |r.value| :: r.value[k].frame < r.value[l].frame
    ensures r.Success? ==> forall k | 0 <= k < |r.value| ::
      fps != 0.0 && FrameEntry(points, fps, points[0].time, syncOffset, r.value[k].frame) == Some(r.value[k])
    ensures r.Success? ==> forall f: nat | f < TotalFrames(duration, fps) ::
      FrameEntry(points, fps, points[0].time, syncOffset, f).Some? <==> HasFrame(r.value, f)
  {
    if |points| == 0 then Failure(EmptyTrack)
    else Success(ProjectFrames(points, fps, points[0].time, syncOffset, TotalFrames(duration, fps)))
  }

  /** Every entry of a projection sits at its frame's video time, and the
      frame numbers are strictly increasing. */
  lemma ProjectedTimes(points: seq<Sample>, fps: real, duration: real, syncOffset: int)
    requires |points| > 0
    ensures var r := Project(points, fps, duration, syncOffset).value;
      && (forall i, j | 0 <= i < j < |r| :: r[i].frame < r[j].frame)
      && (forall k | 0 <= k < |r| :: fps != 0.0 && r[k].videoTime == VideoTimeMs(r[k].frame, fps))
  {
  }

  /** A frame that yields an entry pushes it at the end of the list. */
  lemma CollectFramesStep(entry: nat -> Option<ProjectedPoint>, n: nat)
    requires forall f: nat :: entry(f).Some? ==> entry(f).value.frame == f
    requires 0 < n && entry(n - 1).Some?
    ensures CollectFrames(entry, n) == CollectFrames(entry, n - 1) + [entry(n - 1).value]
  {
  }

  /** When no frame's entry is null, the loop makes exactly one entry per
      frame, at the position of its frame number. */
  lemma {:induction false} CollectAllFrames(entry: nat -> Option<ProjectedPoint>, n: nat)
    requires forall f: nat :: entry(f).Some? ==> entry(f).value.frame == f
    requires forall f: nat | f < n :: entry(f).Some?
    ensures |CollectFrames(entry, n)| == n
    ensures forall k | 0 <= k < n :: CollectFrames(entry, n)[k].frame == k
    decreases n
  {
    if n > 0 {
      CollectAllFrames(entry, n - 1);
      CollectFramesStep(entry, n);
      var front := CollectFrames(entry, n - 1);
      var e := entry(n - 1).value;
      var r := CollectFrames(entry, n);
      assert r == front + [e];
      forall k | 0 <= k < n
        ensures r[k].frame == k
      {
        if k < n - 1 {
          assert r[k] == front[k];
        } else {
          assert r[k] == e;
        }
      }
    }
  }

  /** A non-empty track of valid fixes projects to one valid entry per frame:
      the output is then exactly `floor(duration * fps)` long, frame `k` at
      position `k`. */
  lemma ProjectAllValid(points: seq<Sample>, fps: real, duration: real, syncOffset: int)
    requires |points| > 0
    requires forall j | 0 <= j < |points| :: points[j].isValid
    ensures Project(points, fps, duration, syncOffset).Success?
    ensures var r := Project(points, fps, duration, syncOffset).value;
      && |r| == TotalFrames(duration, fps)
      && forall k | 0 <= k < |r| :: r[k].frame == k && r[k].sample.isValid
  {
    var n := TotalFrames(duration, fps);
    if n > 0 {
      var entry := Entries(points, fps, points[0].time, syncOffset);
      AllValidFramesYield(points, fps, points[0].time, syncOffset);
      CollectAllFrames(entry, n);
      var r := Project(points, fps, duration, syncOffset).value;
      assert r == CollectFrames(entry, n);
      forall k | 0 <= k < |r|
        ensures r[k].sample.isValid
      {
        assert entry(r[k].frame) == Some(r[k]);
      }
    }
  }

  /** On a track of valid fixes every frame yields a valid entry. */
  lemma AllValidFramesYield(points: seq<Sample>, fps: real, startTime: int, syncOffset: int)
    requires |points| > 0 && fps != 0.0
    requires forall j | 0 <= j < |points| :: points[j].isValid
    ensures var entry := Entries(points, fps, startTime, syncOffset);
      forall f: nat :: entry(f).Some? && entry(f).value.sample.isValid
  {
    var entry := Entries(points, fps, startTime, syncOffset);
    forall f: nat
      ensures entry(f).Some? && entry(f).value.sample.isValid
    {
      AllValidNeverNull(points, GpsTime(startTime, VideoTimeMs(f, fps), syncOffset));
      assert entry(f) == FrameEntry(points, fps, startTime, syncOffset, f);
    }
  }

  /** There is no range check: a frame aligned before the first sample
      gets a copy of that sample, valid or not, and is kept. */
  lemma FramesBeforeTrackStart(points: seq<Sample>, fps: real, duration: real, syncOffset: int, f: nat)
    requires |points| > 0 && fps != 0.0
    requires f < TotalFrames(duration, fps)
    requires GpsTime(points[0].time, VideoTimeMs(f, fps), syncOffset) < points[0].time as real
    ensures FrameEntry(points, fps, points[0].time, syncOffset, f) == Some(ProjectedPoint(points[0], f, VideoTimeMs(f, fps)))
    ensures HasFrame(Project(points, fps, duration, syncOffset).value, f)
  {
  }

  /** Likewise a frame aligned at or after the last sample of a sorted track
      gets a copy of the last sample, valid or not, and is kept. */
  lemma FramesAfterTrackEnd(points: seq<Sample>, fps: real, duration: real, syncOffset: int, f: nat)
    requires |points| > 0 && SortedByTime(points) && fps != 0.0
    requires f < TotalFrames(duration, fps)
    requires points[|points| - 1].time as real <= GpsTime(points[0].time, VideoTimeMs(f, fps), syncOffset)
    ensures FrameEntry(points, fps, points[0].time, syncOffset, f) == Some(ProjectedPoint(points[|points| - 1], f, VideoTimeMs(f, fps)))
    ensures HasFrame(Project(points, fps, duration, syncOffset).value, f)
  {
  }
}
