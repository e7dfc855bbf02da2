# Speeding detection: the per-frame analytics core

This project models, in Dafny, the frame loop of `detect_speeding` and the two
helpers it calls on every frame:

- `detect_and_track_objects`: the confidence filter over the detector's raw
  rows and the centroid table of the kept detections;
- `categorize_movements`: the fixed label-to-bucket mapping.

Each frame arrives as a `FrameDetections` record (`shapes.dfy`), the record
the detector adapter builds:
- the boxes of the candidates that passed the filter;
- their labels;
- the indexes kept by duplicate suppression.

A run is the sequence of frames actually read. The loop may stop early on a
failed read or a quit key, so that sequence can be shorter than the frame
count the video announces.

Modules, one per source concern:

- `Shapes` (`shapes.dfy`): boxes, centroids, the per-frame record and its
  well-formedness: every kept index addresses a box and a label.
- `Categorize` (`categorize.dfy`): `categorize_movements`. It is a loop
  (`CategorizeMovements`) proved equal to a reference function (`Categorized`):
  three order-preserving filters of the kept boxes.
- `Detection` (`object_detection_and_tracking.py`):
  - the nested loops that append to the four parallel lists, proved against a
    reference filter (`Admitted`) of the candidates whose first-maximal class
    score is strictly above 0.5;
  - the loop that fills `current_positions` with floor-halved centroids;
  - `DetectAndTrack`, which chains the two around a duplicate-suppression
    function given as a parameter.
- `HeatmapPlane` (`heatmap.dfy`): the heatmap as a class over an
  `array2<int>`, with a ghost `plane` that its `Valid()` ties to the cells.
  - `AddBox` performs `heatmap[y:y+h, x:x+w] += 1` in place, with numpy's
    slice-bound rules: a negative bound counts back from the end of the axis,
    and every bound is clipped to the axis.
  - Cells have numpy's `uint8` type, so an increment wraps 255 to 0.
- `Segments` (`segments.dfy`): the segment extractor.
  - `Step`, `Run`, `Flush` and `Extract` form the state machine over
    `segment_start` and `segments`.
  - The `SegmentTracker` class holds those two variables. Its methods are
    proved to perform exactly one `Step` or `Flush`.
  - Lemmas prove the shape of the output: ordered, disjoint, non-empty
    segments; each starts on a speeding frame; every speeding frame lies in a
    segment; and a segment ends right before the first frame without kept
    detections after its start, or at `frame_count - 1` when no such frame
    was read.
- `SpeedDetection` (`speed_detection.dfy`): the frame loop itself.
  - Reference functions over the whole run, indexed by frame number, give the
    value of every table after n frames: `Prev` (the previous position
    table), `SpeedsAfter`, `LastCategorized`, `PlaneAfter`, and `Run` of
    `Signals` for the extractor.
  - The loop is split into `RunFrames`, `ProcessFrame`, `TrackDetections`
    and `TrackIndex`. Each has a contract that advances those functions by
    one frame or one kept index.
  - `DetectSpeeding` returns the source's three results plus the heatmap
    plane. Each is stated as one of those functions.
  - Lemmas then state what the functions mean:
    - the previous table holds exactly the last frame's kept indexes;
    - `speeds[i]` exists iff i was continued in some frame, and holds the
      speed of the last such frame;
    - the returned categorisation is that of the last frame with a continued
      detection, or three empty buckets when there is none;
    - every cell counts, modulo 256, the kept boxes whose slice covers it;
    - the segments start and end as the extractor's lemmas say, in terms of
      frames and speeds.

Points where the code behaves differently from what a reader might expect,
all modelled as the code does them:

- An open segment closes only on a frame with no kept detection
  (`speed_detection.py:67-70`). It does not close on a frame where detections
  remain but none is over the limit.
- A segment still open after the loop ends at `frame_count - 1`, even when the
  loop stopped earlier.
- Heatmap cells are 8-bit. `np.zeros_like(frame[:, :, 0])` has the frame's
  `uint8` type, so counts wrap modulo 256; they are not wide counters.
- numpy's reading of negative slice bounds is modelled, not excluded by a
  precondition.

## Model

The rows for methods and lemmas state their contracts through the reference
functions that define the source's steps: `Segments.Step` (`speed_detection.py:43-45`
and `67-70`), `Segments.Run` over the frames read (`26-70`), `Segments.Flush`
(`86-87`), `Segments.Extract` (the returned `segments`), `HeatmapPlane.SliceBound`,
`Covers` and `AddedBox` (line 65), and the tables of `SpeedDetection`
(`SpeedsAfter`, `LastCategorized`, `PlaneAfter`, `Prev`).

| member | source | states |
|---|---|---|
| Categorize.CategorizeMovements | CSY3010_21422135_RUPESHTHAPA_ASSIGNMENT_SOURCECODE/categorize.py:1-16 | the loop returns exactly the three order-preserving filters of the kept boxes by label category, and the empty buckets for an empty index list |
| Categorize.SelectExactly | CSY3010_21422135_RUPESHTHAPA_ASSIGNMENT_SOURCECODE/categorize.py:5-14 | an index is selected into bucket c iff it is kept and its label maps to c |
| Categorize.PersonLandsInHuman | CSY3010_21422135_RUPESHTHAPA_ASSIGNMENT_SOURCECODE/categorize.py:9-10 | a kept "person" box is in the human bucket |
| Categorize.TwoWheelersLandInBike | CSY3010_21422135_RUPESHTHAPA_ASSIGNMENT_SOURCECODE/categorize.py:11-12 | a kept "bicycle" or "motorbike" box is in the bike bucket |
| Categorize.VehicleLabelsLandInVehicle | CSY3010_21422135_RUPESHTHAPA_ASSIGNMENT_SOURCECODE/categorize.py:13-14 | a kept "car", "bus" or "truck" box is in the vehicle bucket |
| Categorize.UnknownLabelsDropped | CSY3010_21422135_RUPESHTHAPA_ASSIGNMENT_SOURCECODE/categorize.py:9-14 | a label outside the six, case variants included, is selected into no bucket |
| Categorize.BucketTotal | CSY3010_21422135_RUPESHTHAPA_ASSIGNMENT_SOURCECODE/categorize.py:2-14 | the three buckets together hold one box per kept index with a known label; no kept index gives three empty buckets |
| Detection.FirstArgMax | SpeedDetecting/object_detection_and_tracking.py:29 | the class id is a valid index whose score is maximal and strictly above every earlier score (numpy's first argmax) |
| Detection.FilterCandidates | SpeedDetecting/object_detection_and_tracking.py:20-41 | boxes, confidences, class ids and labels have equal length, and position j of each holds the j-th admitted candidate |
| Detection.FlattenMembers | SpeedDetecting/object_detection_and_tracking.py:26-27 | a candidate is visited by the nested loops iff it is a row of some output layer |
| Detection.AdmittedEveryPassingRow | SpeedDetecting/object_detection_and_tracking.py:26-41 | row d of output layer o whose best score is strictly above 0.5 contributes its entry to the parallel lists |
| Detection.FilterLayer | SpeedDetecting/object_detection_and_tracking.py:27-41 | the loop over one layer's rows extends the parallel lists by exactly the admitted rows of that layer, in order |
| Detection.AdmittedSound | SpeedDetecting/object_detection_and_tracking.py:28-41 | every admitted entry comes from a candidate whose best score is above 0.5, with that candidate's box, best score, first maximal class and class name |
| Detection.AdmittedComplete | SpeedDetecting/object_detection_and_tracking.py:28-31 | every candidate whose best score is above 0.5 is admitted |
| Detection.AdmittedSnoc | SpeedDetecting/object_detection_and_tracking.py:31 | a candidate adds an entry iff its best score is strictly above 0.5; a score of exactly 0.5 adds nothing |
| Detection.Centroid | SpeedDetecting/object_detection_and_tracking.py:47 | the centroid is the floor of x + w/2 and y + h/2: 2(cx - x) <= w < 2(cx - x) + 2, and likewise for y |
| Detection.PositionTable | SpeedDetecting/object_detection_and_tracking.py:45-47 | the table's keys are exactly the kept indexes (none when nothing is kept), each mapped to its box's centroid |
| Detection.BuildPositions | SpeedDetecting/object_detection_and_tracking.py:24-47 | the loop builds exactly the reference position table |
| Detection.DetectAndTrack | SpeedDetecting/object_detection_and_tracking.py:14-49 | the record holds the admitted boxes and labels, the indexes suppression returns for the admitted boxes and confidences, and is well formed; the position table is built from them; prev_positions plays no part in the result |
| HeatmapPlane.CoversInside | CSY3010_21422135_RUPESHTHAPA_ASSIGNMENT_SOURCECODE/speed_detection.py:65 | for a box inside the plane the slice is exactly rows y..y+h-1 and columns x..x+w-1 |
| HeatmapPlane.SliceBound | CSY3010_21422135_RUPESHTHAPA_ASSIGNMENT_SOURCECODE/speed_detection.py:65 | the bound numpy reads for a slice end is within the axis: a negative one counts back from its end and is clipped at 0, one past the axis is clipped to its length |
| HeatmapPlane.CoversClipped | CSY3010_21422135_RUPESHTHAPA_ASSIGNMENT_SOURCECODE/speed_detection.py:65 | for a box whose start and end are not negative, the slice is rows y..min(y+h, height)-1 and columns x..min(x+w, width)-1, so a box running past an edge is cut there and one starting past it covers nothing |
| HeatmapPlane.AddedBoxCells | CSY3010_21422135_RUPESHTHAPA_ASSIGNMENT_SOURCECODE/speed_detection.py:65 | adding a box keeps a uint8 plane and changes exactly the cells of its slice, each by one modulo 256 |
| HeatmapPlane.Heatmap.constructor | CSY3010_21422135_RUPESHTHAPA_ASSIGNMENT_SOURCECODE/speed_detection.py:31-32 | a fresh height x width plane of zeros |
| HeatmapPlane.Heatmap.AddBox | CSY3010_21422135_RUPESHTHAPA_ASSIGNMENT_SOURCECODE/speed_detection.py:65 | the in-place increment leaves the plane equal to the old plane with the box added, and keeps the cells and plane in step |
| Segments.StepFacts | CSY3010_21422135_RUPESHTHAPA_ASSIGNMENT_SOURCECODE/speed_detection.py:43-45 | a frame with detections never closes a segment; a non-speeding one changes nothing; a second speeding detection in the same frame changes nothing |
| Segments.StepShaped | CSY3010_21422135_RUPESHTHAPA_ASSIGNMENT_SOURCECODE/speed_detection.py:43-70 | one frame keeps the closed segments ordered, before the current frame, and before the open start |
| Segments.StepWitnessed | CSY3010_21422135_RUPESHTHAPA_ASSIGNMENT_SOURCECODE/speed_detection.py:43-70 | one frame keeps every closed segment starting on a speeding frame and followed by a frame without detections, and the open start on a speeding frame |
| Segments.StepCovered | CSY3010_21422135_RUPESHTHAPA_ASSIGNMENT_SOURCECODE/speed_detection.py:43-70 | one frame keeps every speeding frame so far inside a closed segment or at or after the open start |
| Segments.RunShaped | CSY3010_21422135_RUPESHTHAPA_ASSIGNMENT_SOURCECODE/speed_detection.py:26-70 | the shape invariant holds after every prefix of frames |
| Segments.RunWitnessed | CSY3010_21422135_RUPESHTHAPA_ASSIGNMENT_SOURCECODE/speed_detection.py:26-70 | the witness invariant holds after every prefix of frames |
| Segments.RunCovered | CSY3010_21422135_RUPESHTHAPA_ASSIGNMENT_SOURCECODE/speed_detection.py:26-70 | the coverage invariant holds after every prefix of frames |
| Segments.RunReachable | CSY3010_21422135_RUPESHTHAPA_ASSIGNMENT_SOURCECODE/speed_detection.py:26-70 | all three invariants hold after every prefix of frames |
| Segments.StepUnbroken | CSY3010_21422135_RUPESHTHAPA_ASSIGNMENT_SOURCECODE/speed_detection.py:36-70 | one frame keeps every frame without detections outside the closed segments and before the open start |
| Segments.RunUnbroken | CSY3010_21422135_RUPESHTHAPA_ASSIGNMENT_SOURCECODE/speed_detection.py:26-70 | no frame without detections read so far lies inside a closed segment or at or after the open start |
| Segments.FlushOrdered | CSY3010_21422135_RUPESHTHAPA_ASSIGNMENT_SOURCECODE/speed_detection.py:86-87 | the final flush keeps the segments ordered and disjoint and every end below frame_count |
| Segments.FlushStarts | CSY3010_21422135_RUPESHTHAPA_ASSIGNMENT_SOURCECODE/speed_detection.py:86-87 | after the flush every segment starts on a speeding frame read |
| Segments.FlushCovers | CSY3010_21422135_RUPESHTHAPA_ASSIGNMENT_SOURCECODE/speed_detection.py:86-87 | after the flush every speeding frame read lies in a segment |
| Segments.ExtractProperties | CSY3010_21422135_RUPESHTHAPA_ASSIGNMENT_SOURCECODE/speed_detection.py:22-87 | the returned segments are non-empty, ordered, disjoint, end before frame_count, start on speeding frames and cover every speeding frame |
| Segments.SpeedingFrameCovered | CSY3010_21422135_RUPESHTHAPA_ASSIGNMENT_SOURCECODE/speed_detection.py:43-45 | a given speeding frame lies in some returned segment |
| Segments.FlushClosedBeforeEmptyFrame | CSY3010_21422135_RUPESHTHAPA_ASSIGNMENT_SOURCECODE/speed_detection.py:67-70 | a flushed segment ending before the last frame read was closed by the frame without detections right after it |
| Segments.ClosedBeforeEmptyFrame | CSY3010_21422135_RUPESHTHAPA_ASSIGNMENT_SOURCECODE/speed_detection.py:67-70 | a returned segment ending before the last frame read is followed by a frame without detections |
| Segments.SegmentBounds | CSY3010_21422135_RUPESHTHAPA_ASSIGNMENT_SOURCECODE/speed_detection.py:43-87 | every returned segment starts at a frame number of at least 0, is non-empty and ends before frame_count |
| Segments.SegmentHasNoEmptyFrame | CSY3010_21422135_RUPESHTHAPA_ASSIGNMENT_SOURCECODE/speed_detection.py:36-70 | no frame read inside a returned segment is without detections |
| Segments.OnlyFlushedReachesEnd | CSY3010_21422135_RUPESHTHAPA_ASSIGNMENT_SOURCECODE/speed_detection.py:67-87 | a returned segment reaching the last frame read is the last segment and ends at frame_count - 1 |
| Segments.SegmentEnd | CSY3010_21422135_RUPESHTHAPA_ASSIGNMENT_SOURCECODE/speed_detection.py:36-87 | a segment ends at the frame before the first frame without detections after its start, or at frame_count - 1 when no such frame was read |
| Segments.ExampleTwoSegments | CSY3010_21422135_RUPESHTHAPA_ASSIGNMENT_SOURCECODE/speed_detection.py:43-70 | flags F,F,T,T,T,F,T,F (F = no detections) give exactly (2,4) and (6,6) |
| Segments.ExampleFlushedAtEnd | CSY3010_21422135_RUPESHTHAPA_ASSIGNMENT_SOURCECODE/speed_detection.py:86-87 | flags F,T,T give exactly (1,2) |
| Segments.ExampleNotSpeedingDoesNotClose | CSY3010_21422135_RUPESHTHAPA_ASSIGNMENT_SOURCECODE/speed_detection.py:36-70 | frames with detections none over the limit leave a segment open until a frame without detections |
| Segments.ExampleEarlyStop | CSY3010_21422135_RUPESHTHAPA_ASSIGNMENT_SOURCECODE/speed_detection.py:86-87 | when the loop stops after 2 of 10 frames, the open segment ends at frame 9 |
| Segments.ExampleClosedAtFirstEmpty | CSY3010_21422135_RUPESHTHAPA_ASSIGNMENT_SOURCECODE/speed_detection.py:67-70 | flags T,N,F with N meaning no detections give exactly (0,0): the segment closes at the first frame without detections |
| Segments.SegmentTracker.constructor | CSY3010_21422135_RUPESHTHAPA_ASSIGNMENT_SOURCECODE/speed_detection.py:15-22 | no open segment and no segments |
| Segments.SegmentTracker.OnSpeeding | CSY3010_21422135_RUPESHTHAPA_ASSIGNMENT_SOURCECODE/speed_detection.py:43-45 | the tracker takes exactly one speeding step: it records the frame as start iff none is open |
| Segments.SegmentTracker.OnEmptyFrame | CSY3010_21422135_RUPESHTHAPA_ASSIGNMENT_SOURCECODE/speed_detection.py:67-70 | the tracker takes exactly one empty-frame step: an open segment is appended ending at the previous frame, and the start is cleared |
| Segments.SegmentTracker.Finish | CSY3010_21422135_RUPESHTHAPA_ASSIGNMENT_SOURCECODE/speed_detection.py:86-87 | the segments become the flush of the state: an open one is appended ending at frame_count - 1, nothing else is added; the open start is left as it was |
| SpeedDetection.FrameTime | CSY3010_21422135_RUPESHTHAPA_ASSIGNMENT_SOURCECODE/speed_detection.py:20 | frame_time is the inverse of the frame rate and is nonzero |
| SpeedDetection.AddKeptBoxesCount | CSY3010_21422135_RUPESHTHAPA_ASSIGNMENT_SOURCECODE/speed_detection.py:37-65 | adding a frame's kept boxes adds to each cell, modulo 256, the number of those boxes covering it |
| SpeedDetection.PlaneCountsCoverage | CSY3010_21422135_RUPESHTHAPA_ASSIGNMENT_SOURCECODE/speed_detection.py:31-65 | after n frames each cell holds, modulo 256, the number of kept boxes of those frames whose slice covers it |
| SpeedDetection.UnitBoxCoverage | CSY3010_21422135_RUPESHTHAPA_ASSIGNMENT_SOURCECODE/speed_detection.py:65 | n frames of the unit box (0,0,1,1) cover cell (0,0) n times and no other cell |
| SpeedDetection.UnitBoxPlane | CSY3010_21422135_RUPESHTHAPA_ASSIGNMENT_SOURCECODE/speed_detection.py:65 | after n frames of the unit box, cell (0,0) holds n modulo 256 and every other cell is zero |
| SpeedDetection.SpeedingStep | CSY3010_21422135_RUPESHTHAPA_ASSIGNMENT_SOURCECODE/speed_detection.py:37-45 | one more kept index adds to "some continued index is over the limit" exactly its own case |
| SpeedDetection.NextFrame | CSY3010_21422135_RUPESHTHAPA_ASSIGNMENT_SOURCECODE/speed_detection.py:26-72 | every table advances by exactly one frame's update; a frame without kept detections leaves speeds, categorisation and plane unchanged |
| SpeedDetection.PreviousIsLastTable | CSY3010_21422135_RUPESHTHAPA_ASSIGNMENT_SOURCECODE/speed_detection.py:38-72 | the previous table in frame k+1 has exactly frame k's kept indexes as keys, is empty after a frame without detections, and an index has a speed only if it was kept in the frame just before |
| SpeedDetection.UpdateSpeedsExactly | CSY3010_21422135_RUPESHTHAPA_ASSIGNMENT_SOURCECODE/speed_detection.py:37-41 | after some kept indexes, the table holds the old entries plus one per continued index among them, at distance / frame_time; other entries are unchanged |
| SpeedDetection.FrameSpeeds | CSY3010_21422135_RUPESHTHAPA_ASSIGNMENT_SOURCECODE/speed_detection.py:36-41 | one frame writes speeds[i] iff i is kept and continued, with its speed, and leaves every other entry |
| SpeedDetection.SpeedsKeys | CSY3010_21422135_RUPESHTHAPA_ASSIGNMENT_SOURCECODE/speed_detection.py:38-41 | speeds has an entry for i iff i was continued in some frame read |
| SpeedDetection.SpeedsHoldLatest | CSY3010_21422135_RUPESHTHAPA_ASSIGNMENT_SOURCECODE/speed_detection.py:38-41 | speeds[i] is the speed of the last frame in which i was continued |
| SpeedDetection.CategorizedNone | CSY3010_21422135_RUPESHTHAPA_ASSIGNMENT_SOURCECODE/speed_detection.py:16 | with no frame holding a continued detection, the result is the three empty buckets |
| SpeedDetection.CategorizedIsLast | CSY3010_21422135_RUPESHTHAPA_ASSIGNMENT_SOURCECODE/speed_detection.py:56 | the result is categorize_movements of the last frame with a continued detection |
| SpeedDetection.RunSegmentsOrdered | CSY3010_21422135_RUPESHTHAPA_ASSIGNMENT_SOURCECODE/speed_detection.py:43-87 | the run's segments are non-empty, ordered and disjoint |
| SpeedDetection.SegmentStartsSpeeding | CSY3010_21422135_RUPESHTHAPA_ASSIGNMENT_SOURCECODE/speed_detection.py:38-45 | each segment starts on a frame read that has a continued detection strictly over the limit, and ends before frame_count |
| SpeedDetection.SpeedingFrameInSegment | CSY3010_21422135_RUPESHTHAPA_ASSIGNMENT_SOURCECODE/speed_detection.py:38-45 | every frame read with a continued detection strictly over the limit lies in a segment |
| SpeedDetection.SegmentClosedByEmptyFrame | CSY3010_21422135_RUPESHTHAPA_ASSIGNMENT_SOURCECODE/speed_detection.py:67-70 | a segment ending before the last frame read is followed by a frame with no kept detections |
| SpeedDetection.SegmentEndsAtFirstEmptyFrame | CSY3010_21422135_RUPESHTHAPA_ASSIGNMENT_SOURCECODE/speed_detection.py:36-87 | every frame read inside a segment has kept detections, the frame after it has none, and a segment reaching the last frame read is the last one and ends at frame_count - 1 |
| SpeedDetection.AtLimitNoSegment | CSY3010_21422135_RUPESHTHAPA_ASSIGNMENT_SOURCECODE/speed_detection.py:43 | if no continued speed is strictly above the limit, equality included, there is no segment |
| SpeedDetection.TrackIndex | CSY3010_21422135_RUPESHTHAPA_ASSIGNMENT_SOURCECODE/speed_detection.py:37-65 | one kept index: a continued one has its speed stored, opens a segment if over the limit and none is open, and recomputes the categorisation; its box is added to the plane |
| SpeedDetection.TrackDetections | CSY3010_21422135_RUPESHTHAPA_ASSIGNMENT_SOURCECODE/speed_detection.py:36-65 | a frame with kept detections updates speeds, the tracker, the categorisation and the plane exactly as the reference functions of one frame |
| SpeedDetection.ProcessFrame | CSY3010_21422135_RUPESHTHAPA_ASSIGNMENT_SOURCECODE/speed_detection.py:34-72 | one frame moves every table from its value after n frames to its value after n+1, and hands the new position table on as previous |
| SpeedDetection.RunFrames | CSY3010_21422135_RUPESHTHAPA_ASSIGNMENT_SOURCECODE/speed_detection.py:24-84 | after the frames read, the tracker, speeds, categorisation and plane hold their values after all those frames; the plane exists iff a frame was read |
| SpeedDetection.DetectSpeeding | CSY3010_21422135_RUPESHTHAPA_ASSIGNMENT_SOURCECODE/speed_detection.py:7-92 | returns the extracted segments, the last categorisation, the speed table, and the plane with its dimensions; a frame count of zero or below reads no frame and gives no segment |

## Left out

- Video I/O: opening the capture, the early return when it cannot be opened (`speed_detection.py:9-11`), and reading frames. The frames read are the input sequence; a failed read ends that sequence.
- The quit key (`speed_detection.py:83-84`): it ends the loop after the current frame, so it also just shortens the input sequence.
- Drawing and display: colours, rectangles and captions (`speed_detection.py:47-50, 53-54, 58, 60-62`), and normalisation, colour map, blending and `imshow` (`speed_detection.py:75-84`). None of this feeds the returned values.
- The neural detector: loading the model, the class-name file read at import, the forward pass and the `blobFromImage` preprocessing. The detector's rows are an input; the class names are a parameter.
- Duplicate suppression (`NMSBoxes`) is a foreign call. It is a function parameter whose results must index the boxes it is given.
- The float conversion of normalised detector rows to pixel boxes (`object_detection_and_tracking.py:32-37`): candidates carry integer boxes.
- `calculate_distance` comes from a helper module that is not part of this model. It is an uninterpreted function of two centroids.
- Floating point: scores, confidences, distances and speeds are real numbers, not IEEE doubles, so rounding is not modelled.
- SpeedDetection.DetectSpeeding: requires a nonzero frame rate and well-formed frame records. The source divides by the frame rate (`speed_detection.py:20`). The records are what `Detection.DetectAndTrack` produces.
- Detection.DetectAndTrack: requires every candidate to have a score and every passing best class to have a name; the source would fail on an empty score list or an out-of-range class index.
- Multiple cameras, threads and the GUI that starts a run are outside the frame loop.
