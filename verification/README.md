# Telemetry-to-video alignment engine

A Dafny model of the core of the `TelemetryApp` viewer (`app.js`), which plays
a video next to a GPS track and keeps a map marker in step with the video.
The model covers:

- the **interpolation engine** (`interpolateGpsPoint`, `createInterpolatedPoint`).
  For a target time it finds the `before` and `after` neighbours in the
  time-sorted track. It copies a neighbour at the track's ends. It returns
  null when both neighbours are invalid fixes, copies the valid neighbour when
  only one is valid, and interpolates linearly when both are valid;
- the **timeline projector** (`interpolateGpsPoints`). Every frame `f` of the
  video is aligned with telemetry time `start + f/fps·1000 + syncOffset`.
  The non-null interpolated samples are collected, tagged with `frame` and
  `videoTime`;
- the **marker state** of `updateMarkerPosition`: `targetPosition`,
  `currentPosition` and `lastValidPosition`. An invalid frame holds the last
  valid fix;
- **click-to-seek** (`seekToMapPosition`): the nearest valid projected entry,
  where ties go to the earliest;
- the **total distance** of `processGpsData`: the sum of the legs between
  consecutive valid fixes;
- the **session events** that tie these together: load, `applySyncOffset`,
  `onVideoTimeUpdate` and click-to-seek;
- `formatTime` over whole seconds.

Modules, one per component: `Common` (option/result, millisecond truncation),
`Telemetry` (samples, time order, valid list, the distance metric),
`Arith` (real-arithmetic facts), `Interpolation`, `Projection`, `Marker`,
`Seek`, `Distance`, `Session`, `TimeFormat`.

Modelling choices:

- Timestamps are integer milliseconds. The target time of a frame is a real.
  An interpolated sample's time is that target truncated toward zero, as a
  `Date` built from a fractional millisecond count keeps it. Coordinates,
  ratio, fps and duration are reals, so floating-point rounding is absent.
- Elevation and speed are `Option<real>`, with `None` for the parser's `null`.
  Latitude and longitude are reals. The core reads them only from samples
  flagged `isValid`, and copies them unchanged otherwise.
- The haversine distance is a parameter `dist: (lat1, lon1, lat2, lon2) -> real`.
  Where a result depends on it, the model assumes only `dist >= 0`.
- The projection throws on an empty track, because it reads the start time
  from `points[0]`. It is a `Result` with the error `EmptyTrack`. In
  `applySyncOffset` the new offset is stored before that throw, so only the
  offset changes.
- `validPoints` is the `isValid` filter of `points`, in track order.

The model follows the code as written:

- The code makes **no range check**. A frame aligned before the first sample
  gets a copy of that sample, and one aligned after the last sample gets a copy
  of the last. Either copy may be invalid.
- **Null results are omitted.** No placeholder entry is made, so the output
  has at most `floor(duration·fps)` entries rather than exactly that many. It
  has exactly that many when no interpolation is null, for example when every
  fix is valid (`Projection.ProjectAllValid`).
- Speed is interpolated from `before` towards `after`, like every other field
  (app.js:377).

## Model

| member | source | states |
|---|---|---|
| `Common.TruncateMs` | app.js:379 | the interpolated time keeps the integer millisecond of the target, truncated toward zero, within one millisecond of it |
| `Telemetry.ValidPoints` | app.js:278 | the valid list contains exactly the track's valid samples, each one a track sample |
| `Telemetry.ValidPointsAppend` | app.js:278-288 | filtering keeps track order: the valid list of a concatenation is the concatenation of the valid lists |
| `Telemetry.FirstValidPoint` | app.js:426-428 | the first entry of the valid list is the earliest valid sample of the track |
| `Interpolation.FirstAfter` | app.js:333-342 | the scan stops at the first sample later than the target: every sample before it is at or before the target; on a sorted track, every sample from it on is later, so `before` is the last sample at or before the target and `after` is the first one after it |
| `Interpolation.CopyPoint` | app.js:384-393 | a copy preserves every field, including `isValid` and the time |
| `Interpolation.Ratio` | app.js:366-368 | for a bracketing pair the denominator is positive and the ratio lies in [0, 1), zero exactly at the `before` time |
| `Interpolation.Lerp` | app.js:371-372 | an interpolated coordinate lies between the two neighbours' values and equals `before`'s at ratio 0 |
| `Interpolation.LerpOptional` | app.js:373-378 | elevation/speed are `before + (after − before)·ratio` when both sides are present (so between them), otherwise take the present side, and are null only when both sides are null |
| `Interpolation.LerpOnSegment` | app.js:371-372 | a coordinate interpolated at ratio `part/span` lies on the segment between the neighbours at that fraction |
| `Interpolation.LerpOptionalOnSegment` | app.js:373-378 | the same for elevation and speed, with a one-sided value copied and a null kept only when both sides are null |
| `Interpolation.InterpolateBetween` | app.js:365-381 | two valid neighbours give a valid sample at the target time whose lat, lon and (when both sides have them) elevation and speed lie on the straight line through both samples and between them (stated as `OnSegment`/`OptionalOnSegment`, cross-multiplied, no division), equal to `before`'s at `before`'s time; a one-sided elevation or speed is copied from the side that has it |
| `Interpolation.InterpolateAt` | app.js:328-363 | empty track gives null; a target before the first sample gives a copy of the first; a target at or after every sample gives a copy of the last; null only inside a gap between two invalid fixes; an invalid result is a copy of a track sample |
| `Interpolation.InterpolateInsideTrack` | app.js:348-381 | inside a sorted track the bracketing pair decides the result: both invalid is null, exactly one valid is a copy of it, both valid is the interpolation |
| `Interpolation.AllValidNeverNull` | app.js:352-381 | a non-empty track of valid fixes never yields null, and yields a valid sample |
| `Interpolation.MidpointExample` | app.js:365-381 | valid fixes (10, 20) and (20, 40) one minute apart give (15, 30) half a minute in |
| `Projection.GpsTime` | app.js:314 | the aligned telemetry time exceeds the track start plus the video time by exactly the sync offset |
| `Projection.VideoTimeMs` | app.js:313 | a frame's video time in milliseconds times the frame rate is the frame number times 1000 |
| `Projection.TotalFrames` | app.js:308 | the number of frames visited is `floor(duration·fps)`, zero when that is below one |
| `Projection.FrameEntry` | app.js:313-321 | a frame yields no entry exactly when the interpolation at its aligned time is null; otherwise the entry is tagged with the frame, carries the frame's video time (`frame/fps` seconds in milliseconds) and holds the sample interpolated at `start + videoTime + offset` |
| `Projection.HasFrameMeaning` | app.js:523 | a frame is listed exactly when some entry of the projection carries it |
| `Projection.CollectFrames` | app.js:310-323 | the loop's output lists frames in strictly increasing order, each below the frame count, each entry the one its frame yields, and a frame is missing exactly when its interpolation is null |
| `Projection.Project` | app.js:299-326 | the projection fails exactly on an empty track; otherwise it has at most `floor(duration·fps)` entries, with strictly increasing frames, each the interpolation at `start + videoTime + offset` |
| `Projection.EntryMeaning` | app.js:313-321 | an entry carries its frame's video time and the sample interpolated at the aligned telemetry time |
| `Projection.ProjectedTimes` | app.js:312-321 | every projected entry sits at its frame's video time, and frame numbers strictly increase |
| `Projection.CollectAllFrames` | app.js:312-323 | when no frame yields null the loop makes one entry per frame, frame `k` at position `k` |
| `Projection.ProjectAllValid` | app.js:306-323 | a non-empty all-valid track projects to exactly `floor(duration·fps)` valid entries |
| `Projection.FramesBeforeTrackStart` | app.js:306-321 | with no range check, a frame aligned before the first sample is kept, and its entry is a copy of that sample |
| `Projection.FramesAfterTrackEnd` | app.js:306-321 | on a sorted track, a frame aligned at or after the last sample is kept, and its entry is a copy of the last sample |
| `Marker.FindFrame` | app.js:523 | the lookup finds the first entry tagged with the frame, and finds none exactly when no entry carries it |
| `Marker.FindFrameUnique` | app.js:523 | with strictly increasing frames the lookup returns the one entry with that frame |
| `Marker.UpdateMarkerPosition` | app.js:520-546 | no marker or no entry for the frame changes nothing; `lastValid` never regresses to null; the positions stay present; any change sets target and last valid fix to the same position; a paused or dragged marker with a valid entry, or with an invalid entry and a last valid fix, is drawn at its target; a playing one keeps its drawn position |
| `Marker.UpdateMarkerCases` | app.js:525-546 | a valid entry becomes both target and last valid fix; an invalid entry shows the last valid fix and keeps it, or changes nothing when there is none |
| `Marker.UpdateMarkerIdempotent` | app.js:520-546 | updating twice for the same frame equals updating once |
| `Marker.DrawTrack` | app.js:404-442 | without valid fixes nothing changes; otherwise the marker is created with target, drawn and last valid position all at the earliest valid fix |
| `Marker.UpdateAll` | app.js:520-546 | over a run of frames the marker's existence is kept and its positions never become null |
| `Marker.HoldLastValid` | app.js:536-545 | after a valid frame, any run of missing or invalid frames leaves target and last valid fix at that frame's position |
| `Seek.SeekTime` | app.js:485 | the seek target in seconds is the entry's video time in milliseconds divided by 1000 |
| `Seek.NearestValidIndex` | app.js:466-481 | no result exactly when no entry is valid; otherwise a valid entry no valid entry is nearer than, strictly nearer than every earlier valid entry |
| `Seek.NearestUnique` | app.js:476 | the strict comparison makes the chosen entry unique |
| `Distance.PathLengthNonNegative` | app.js:281-288 | with a non-negative metric the summed distance is non-negative |
| `Distance.PathLengthAppend` | app.js:282-288 | the sum along a joined path adds the connecting leg, so it is the length along the way, not the distance between the ends |
| `Distance.InvalidSampleAddsNoDistance` | app.js:278-288 | removing an invalid sample anywhere leaves the total distance unchanged |
| `Distance.TotalDistance` | app.js:278-288 | the loop computes the leg sum over consecutive valid fixes: zero with fewer than two, non-negative with a non-negative metric |
| `Session.ConsistentFrames` | app.js:299-326 | a consistent session's projected list has increasing frames at their video times |
| `Session.CurrentFrame` | app.js:505 | the current frame is the largest whole frame at or before `currentTime·fps` |
| `Session.FrameAtVideoTime` | app.js:505 | reading the frame back from a frame's own video time gives that frame |
| `Session.SeekTimeFrame` | app.js:485 | the frame read back from a seek to an entry's time is that entry's frame |
| `Session.SeekLandsOnFrame` | app.js:483-486 | seeking to an entry's video time shows that entry's frame, and the lookup for that frame finds that entry |
| `Session.Load` | app.js:275-297 | loading yields a consistent session; an empty track leaves distance and marker unset; otherwise the computed total distance in metres is the valid-fix path length, and the marker is the one `drawTrackOnMap` creates, at the earliest valid fix, so it exists exactly when the track has a valid fix |
| `Session.ApplySyncOffset` | app.js:626-640 | the new offset is stored; the track, video, play state, frame and total distance are kept; on a non-empty track the projection is recomputed for the new offset and the marker is updated for the frame `floor(currentTime·fps)`; consistency is preserved |
| `Session.ApplySyncOffsetIdempotent` | app.js:626-636 | applying the same offset twice gives the same session as applying it once |
| `Session.OnVideoTimeUpdate` | app.js:500-518 | while dragging nothing changes; otherwise the current frame becomes `floor(currentTime·fps)`, the marker is updated for that frame, every other field is kept, and the last valid fix is never lost |
| `Session.SeekToMapPosition` | app.js:466-488 | no seek exactly when no entry is valid; otherwise the seek goes to the nearest valid entry's time in seconds, the marker moves to that entry's position, and the frame shown there is that entry's |
| `Session.SeekThenTimeUpdate` | app.js:483-486 | on a well-timed projection, the time update after a seek shows the chosen frame and moves the marker to its position |
| `TimeFormat.Decimal` | app.js:593 | `toString()` gives one or more decimal digits with no leading zero: one digit exactly below ten, two between 10 and 99, three or more from 100 |
| `TimeFormat.PadTwo` | app.js:593 | `padStart(2, '0')` gives at least two characters and keeps digits digits |
| `TimeFormat.DecimalRoundTrip` | app.js:593 | reading a number's decimal text gives the number back |
| `TimeFormat.FormatTime` | app.js:588-594 | the clock text is digits, a colon, two digits; it is exactly five characters below 100 minutes, and from ten minutes on it has no leading zero |
| `TimeFormat.FormatTimeRoundTrip` | app.js:588-594 | reading the clock text back gives the number of seconds it was made from, and its seconds field is below 60 |

## Left out

- Track parsing (GPX via fast-xml-parser), FIT-to-GPX conversion with GPSBabel and video probing with ffprobe (main.js). These are I/O over external tools. The model takes their output as input: points sorted by time (main.js:203) where a property needs the order, and integer-millisecond timestamps instead of ISO strings.
- The `isValid` flag and the `validPoints` list are not produced by the parser shown in main.js. The model takes `isValid` as a field of each sample and `validPoints` as its filter.
- Parsing the offset input (`parseInt(...) || 0`): the offset enters the model as an integer.
- The haversine formula (trigonometry on floats): only its non-negativity is assumed.
- Floating-point rounding: frame times, ratios and coordinates are exact reals. So `Session.FrameAtVideoTime` holds exactly, where float rounding could land one frame early.
- The eased marker animation `updateSmoothPosition` and its `requestAnimationFrame` loop. They only move `currentPosition` towards `targetPosition` for display.
- Leaflet map, tiles, polyline, popups and DOM readouts (`updateTelemetryDisplay`, `updateVideoStats`, `updateTimeDisplay`), the splitter, the play/pause button, and the mouse wiring that sets `isDragging` and `isPlaying`. The two flags are session fields that callers set.
- Session events before anything is loaded (`applySyncOffset` with no track or video metadata): the model starts from a loaded session.
- Re-loading over an earlier session: `Session.Load` starts from an empty state, so an earlier marker is not carried over when the new track has no valid fix.
- The distance readout shows `(totalDistance / 1000).toFixed(2)` (app.js:290), kilometres rounded to two decimals; the model keeps the exact total in metres and leaves the display formatting out, as it does all DOM text.
- TimeFormat.FormatTime: takes whole non-negative seconds. The `NaN` case (`'00:00'`) and the flooring of a fractional time are not modelled.
- Seek.NearestValidIndex: does not model a `NaN` distance, which the strict `<` comparison would never pick.
