# Gesture browser control — verified model of its core logic

The application turns a webcam into a pointing device. A hand tracker smooths
the index fingertip into a screen cursor and detects pinches. The application
loop turns pinch releases into left and right clicks. A calibration hook finds
a white sheet of paper in the camera frame and maps points on it onto an
on-screen grid. A touch detector watches fingertip depth for taps on that
sheet.

This project models those four pieces in Dafny and proves what each one
promises. Each module follows the form of its source file:

- `types.dfy` (module `Types`): the shared records. These are points, boxes, the calibration bounds, hand landmarks, the hand record and the gesture kinds.
- `arith.dfy` (module `RealFacts`): real-arithmetic facts used by the geometric proofs, plus `RealMax`, `RealMin` and `Abs`.
- `surface.dfy` (module `SurfaceDetection`): surface detection on one RGBA frame, with two-dimensional arrays and loops as in the source:
  - the whiteness mask;
  - a stack-based 4-connected flood fill over a `visited` array;
  - the 10-pixel seed scan that keeps the first largest region;
  - the 3-pixel sampled fallback with padding;
  - the 1% minimum-area decision.

  The flood fill is proved to mark exactly the unvisited white cells 4-connected to the seed. Its area is the size of that region, and its pixel bounds are the tightest box around it.
  The seed scan is proved to follow a reference scan, seed for seed: each white lattice point still open closes its 4-connected component. Detection as a whole equals a reference function of the frame's white pixels. A fully white frame is detected as the whole frame.
- `calibration.dfy` (module `Calibration`): the calibration state record and its start, detection-tick, cancel, confirm, toggle and reset transitions. It also holds:
  - the aspect-corrected on-screen box;
  - the surface-to-screen map, with its inverse and a round-trip proof;
  - the carry-over of an on-screen edit to the camera-space box, with clamping.
- `pointer.dfy` (module `PointerTracking`): the tracker that updates the hand record in place, as a class `HandTracker` with one method per processed result. The model covers:
  - the mirrored target;
  - linear-interpolation smoothing, proved never to overshoot and to converge;
  - the pinch test on squared distances.
- `touch.dfy` (module `TouchDetection`): the per-frame touch detector, as a class `TouchDetector` whose fields are the detector's refs and outputs. Its method is proved against a pure step function. The lemmas cover:
  - the consecutive-frame confirmation counters, in both directions;
  - index-over-middle priority;
  - the latched output.
- `clicks.dfy` (module `PinchClicks`): the click debouncer of the application loop, as a class `ClickController`. It covers:
  - the release edge;
  - the click counter;
  - the single replaceable double-click timer;
  - the left/right decision;
  - the gesture display;
  - the five-entry feedback log.

  Lemmas over bursts of frames show that any burst yields one click, at the last release. The click is left for one release and right for more.

Camera frames, landmark lists, window sizes and clock readings are parameters.
A timer firing is an input event: a method whose precondition says the timer
is pending and its delay has passed.

The application component does not use the touch detector. The hand record
that the tracker publishes never carries landmarks, so a detector fed from it
would see only unreadable frames (`TouchDetection.TrackedRecordsNeverTouch`).

## Model

| member | source | states |
|---|---|---|
| SurfaceDetection.BuildMask | hooks/useSurfaceCalibration.ts:64-87 | every mask cell is true exactly when its pixel (RGBA at index `(y*width+x)*4`) has luminance or channel average at or above the threshold |
| SurfaceDetection.IsWhite | hooks/useSurfaceCalibration.ts:76-83 | a pixel with all channels at the threshold is white, and a white pixel has some channel at the threshold |
| SurfaceDetection.MaskHoldsWhitePixels | hooks/useSurfaceCalibration.ts:64-87 | the white cells of the built mask are exactly the frame's white pixels |
| SurfaceDetection.AllWhitePixels | hooks/useSurfaceCalibration.ts:64-87 | when every pixel passes the whiteness test, the white pixels are the whole frame |
| SurfaceDetection.PixelIndexInRange | hooks/useSurfaceCalibration.ts:70-73 | the three channel reads of an in-frame pixel fall inside the `width*height*4` data |
| SurfaceDetection.ExtendKeepsBounds | hooks/useSurfaceCalibration.ts:118-121 | growing the running min/max by a cell keeps covering every earlier cell, covers the new one, and stays tight |
| SurfaceDetection.DiscardStep | hooks/useSurfaceCalibration.ts:112-114 | popping an off-frame, visited or non-white entry keeps the fill invariant |
| SurfaceDetection.MarkStep | hooks/useSurfaceCalibration.ts:116-124 | marking a fresh white cell, growing area and bounds, and pushing its four neighbours keeps the fill invariant and shrinks the unmarked region |
| SurfaceDetection.FinishFill | hooks/useSurfaceCalibration.ts:111-125 | with the stack empty, the marked cells are exactly the seed's 4-connected component, the area is their number, and the bounds are tight around them |
| SurfaceDetection.Visit | hooks/useSurfaceCalibration.ts:116 | marks one cell visited and changes no other flag |
| SurfaceDetection.Spread | hooks/useSurfaceCalibration.ts:106-125 | the fill loop marks exactly the seed's component in `visited`, counts it as the area, and returns its tight pixel bounds |
| SurfaceDetection.FloodFill | hooks/useSurfaceCalibration.ts:102-136 | `None` with `visited` unchanged for an out-of-frame, visited or non-white seed; otherwise the area is the component size (at least 1), `visited` gains exactly the component, and the box is the normalised pixel bounds, so a one-pixel region has width 0 |
| SurfaceDetection.NormalizedBox | hooks/useSurfaceCalibration.ts:128-133 | the box times the frame size gives back the pixel origin and the pixel extents `maxX - minX` and `maxY - minY` |
| SurfaceDetection.NormalizedBoxInUnitSquare | hooks/useSurfaceCalibration.ts:128-133 | the normalised box of in-frame bounds has non-negative sides and lies in the unit square |
| SurfaceDetection.Keep | hooks/useSurfaceCalibration.ts:144-147 | the kept area is at least the running best's and the fill's, and the result is either the running best or the fill |
| SurfaceDetection.Best | hooks/useSurfaceCalibration.ts:138-150 | the folded best has non-negative area and is at least every fill's area |
| SurfaceDetection.BestIsFirstLargest | hooks/useSurfaceCalibration.ts:144-147 | keeping a strictly larger area selects the first largest region in seed order; no region is kept exactly when no area is positive |
| SurfaceDetection.TrySeed | hooks/useSurfaceCalibration.ts:142-147 | one lattice point: the arrays keep agreeing with the reference scan one seed further on. The open white cells are the unvisited ones, the fills report the regions the scan closed, and the running best is the first-largest fold of them |
| SurfaceDetection.FillSeed | hooks/useSurfaceCalibration.ts:142-147 | a white, unvisited seed adds the fill of its component among the open cells, and `visited` gains exactly that component; any other seed changes nothing |
| SurfaceDetection.ScanRow | hooks/useSurfaceCalibration.ts:141-149 | one lattice row, left to right, keeps the arrays in step with the reference scan up to the next row |
| SurfaceDetection.ScanRows | hooks/useSurfaceCalibration.ts:140-149 | all lattice rows, top to bottom, keep the arrays in step with the reference scan over every lattice seed |
| SurfaceDetection.Unvisited | hooks/useSurfaceCalibration.ts:94-100 | a fresh visited array of the mask's shape: nothing visited, every white cell open, nothing found yet |
| SurfaceDetection.NextRow | hooks/useSurfaceCalibration.ts:140-141 | finishing a row puts the scan at the start of the next lattice row with nothing else changed |
| SurfaceDetection.ScanPartitions | hooks/useSurfaceCalibration.ts:138-150 | the regions of the reference scan are non-empty, white and pairwise disjoint, and a white cell is still open exactly when no region holds it |
| SurfaceDetection.BoundsOfIsTight | hooks/useSurfaceCalibration.ts:118-121 | the reference bounds of a non-empty set of cells are tight around it |
| SurfaceDetection.TightIsBoundsOf | hooks/useSurfaceCalibration.ts:118-121 | tight bounds of a set are its reference bounds |
| SurfaceDetection.TightBoundsUnique | hooks/useSurfaceCalibration.ts:118-121 | two tight boxes around the same non-empty set are equal |
| SurfaceDetection.ScanFinish | hooks/useSurfaceCalibration.ts:138-150 | past the last lattice row the fills are the reports of the reference scan over every lattice seed, each a good fill, and the running best is their first-largest fold |
| SurfaceDetection.FoundBox | hooks/useSurfaceCalibration.ts:138-150 | the scan finds a box exactly when some lattice point is white, and that box has non-negative sides in the unit square |
| SurfaceDetection.ScanSeeds | hooks/useSurfaceCalibration.ts:138-150 | over a fresh visited array, the fills are the reports of the reference scan: each lattice seed in row-major order closes the 4-connected component of the still-open white cells it lies in. The result is the first largest of them. A box is found exactly when some lattice point is white, and it lies in the unit square |
| SurfaceDetection.SampleOne | hooks/useSurfaceCalibration.ts:162-169 | one 3-pixel sample keeps the sampled-bounds invariant |
| SurfaceDetection.SampleWhiteBounds | hooks/useSurfaceCalibration.ts:155-171 | the result is the reference bounds of the white cells on the 3-pixel lattice, `None` exactly when there are none; otherwise the bounds are tight around those cells and lie in the frame |
| SurfaceDetection.PaddedBox | hooks/useSurfaceCalibration.ts:179-186 | the sampled box grown by the 0.02 padding: the origin is 0.02 before the sampled box's origin, or 0 when that would be negative; each side is 0.04 longer than the sampled box's, or 1 when that would exceed 1 |
| SurfaceDetection.PaddedBoxCovers | hooks/useSurfaceCalibration.ts:179-186 | the padded box starts at or after the origin, has sides in (0, 1], and covers the sampled box |
| SurfaceDetection.Fallback | hooks/useSurfaceCalibration.ts:173-190 | the fallback succeeds exactly when some sample is white and the sampled box is over 3% wide and over 3% tall; the result is then the padded box of the sampled bounds, with sides over 3% and origin at or after (0, 0) |
| SurfaceDetection.ChooseSurface | hooks/useSurfaceCalibration.ts:152-200 | a result always covers at least 1% and is the scan's box or the fallback. A scan box of at least a tenth of `minSize` stands, subject to the 1% check. A missing or smaller scan box is replaced by a successful fallback, again subject to the 1% check. When the fallback fails, the scan box, if any, is kept subject to the same check |
| SurfaceDetection.ChooseSurfaceSound | hooks/useSurfaceCalibration.ts:194-200 | an accepted surface has positive sides, covers at least 1%, starts inside the frame and has sides of at most 1 |
| SurfaceDetection.DetectSurface | hooks/useSurfaceCalibration.ts:47-210 | the result is the reference detection over the frame's white pixels: the first-largest scan region, the 3-pixel fallback and the 1% check. An empty frame or one without a white pixel yields nothing. A fully white frame of at least 2 by 2 pixels yields `(0, 0, (w-1)/w, (h-1)/h)`. A detection has positive sides, covers at least 1%, starts at or after (0, 0) and has sides of at most 1 |
| SurfaceDetection.FrameConnected | hooks/useSurfaceCalibration.ts:102-125 | in a fully white frame every pixel is 4-connected to the top-left pixel |
| SurfaceDetection.FirstSeed | hooks/useSurfaceCalibration.ts:139-142 | the first lattice seed is the top-left pixel |
| SurfaceDetection.ScanOfEmptied | hooks/useSurfaceCalibration.ts:138-150 | once the first seed has closed every white cell, later seeds change nothing |
| SurfaceDetection.FullFrameScan | hooks/useSurfaceCalibration.ts:138-150 | on a fully white frame the scan finds exactly one region, the whole frame |
| SurfaceDetection.FullFrameBest | hooks/useSurfaceCalibration.ts:128-147 | that region's box is the normalised box of the whole frame's pixel bounds |
| SurfaceDetection.FullFrameArea | hooks/useSurfaceCalibration.ts:128-133 | that box is `(0, 0, (w-1)/w, (h-1)/h)`, with area at least 0.25 |
| SurfaceDetection.FullFrameDetected | hooks/useSurfaceCalibration.ts:152-200 | a fully white frame of at least 2 by 2 pixels is detected as that box whenever `minSize` is at most 2.5 |
| Calibration.Initial | hooks/useSurfaceCalibration.ts:39-44 | the initial state is idle and satisfies the invariant |
| Calibration.StartCalibration | hooks/useSurfaceCalibration.ts:213-230 | ignored until the camera is ready; otherwise calibrating, grid mode off, the first detection stored, the stored calibration kept |
| Calibration.DetectionTick | hooks/useSurfaceCalibration.ts:221-229 | while polling, a found surface replaces the stored detection and nothing else changes; no surface keeps it |
| Calibration.CancelCalibration | hooks/useSurfaceCalibration.ts:233-240 | calibration and polling stop, the detection is dropped, the stored calibration and grid mode stay |
| Calibration.AspectScreenBox | hooks/useSurfaceCalibration.ts:248-276 | the on-screen box is centred on both axes and fills the 5% margin box along one of them |
| Calibration.AspectScreenBoxFits | hooks/useSurfaceCalibration.ts:248-276 | the confirmed screen box has the surface's aspect ratio, lies inside the 5% margin box, is centred on both axes, and fills the margin box along one axis |
| Calibration.ConfirmedBounds | hooks/useSurfaceCalibration.ts:278-282 | the stored bounds hold the surface box, the aspect-corrected screen box and aspect ratio `width/height` |
| Calibration.ConfirmCalibration | hooks/useSurfaceCalibration.ts:243-292 | a no-op without a detection; otherwise the bounds are stored, grid mode is on, calibrating and polling are off |
| Calibration.ToggleGridMode | hooks/useSurfaceCalibration.ts:317-321 | without a calibration nothing changes; otherwise exactly the grid-mode flag flips, and the phase goes from grid active to grid inactive and back |
| Calibration.ResetCalibration | hooks/useSurfaceCalibration.ts:324-333 | any state returns to the initial, idle state |
| Calibration.MapToGrid | hooks/useSurfaceCalibration.ts:295-313 | no calibration maps nothing; with one, a point maps exactly when it lies on the closed surface box, so the edges count as on it |
| Calibration.MapToGridCornerAndCentre | hooks/useSurfaceCalibration.ts:302-313 | the surface's top-left corner maps to the screen box's origin in pixels and its centre to the screen box's centre |
| Calibration.MapToGridInsideScreenBox | hooks/useSurfaceCalibration.ts:309-313 | a mapped point lies inside the screen box's pixel rectangle |
| Calibration.MapToGridRoundTrip | hooks/useSurfaceCalibration.ts:302-313 | mapping a surface point to the screen and back with the inverse map gives the point again |
| Calibration.MovedBox | hooks/useSurfaceCalibration.ts:343-362 | the surface box moved and scaled like the screen box keeps positive sides |
| Calibration.ClampBox | hooks/useSurfaceCalibration.ts:366-369 | clamping puts the box in the unit square, keeps positive sides positive, and leaves a box already in the unit square alone |
| Calibration.CarrySurfaceBox | hooks/useSurfaceCalibration.ts:343-369 | the carried surface box lies in the unit square, keeps positive sides, and equals the moved box whenever that needs no clamping |
| Calibration.UpdateGridBounds | hooks/useSurfaceCalibration.ts:337-381 | without a calibration the argument is stored unchanged; otherwise only the bounds change: the edited screen box is committed, the surface box is the old one moved and scaled like the screen box and then clamped, and the aspect ratio is its width over height |
| Calibration.AxisMappingKept | hooks/useSurfaceCalibration.ts:343-362 | on one axis, a camera coordinate projects to the same pixel through the moved surface span and the new screen span as through the old ones |
| Calibration.UpdateKeepsPointMapping | hooks/useSurfaceCalibration.ts:356-362 | when the moved surface box needs no clamping, every camera point on both surface boxes maps to the same screen pixel before and after the edit |
| Calibration.UpdateGridBoundsNoOpEdit | hooks/useSurfaceCalibration.ts:343-381 | an edit that keeps the screen box leaves an in-square calibration unchanged |
| Calibration.UpdateGridBoundsIdempotent | hooks/useSurfaceCalibration.ts:337-381 | committing the same edit twice equals committing it once |
| PointerTracking.Lerp | hooks/useMediaPipe.ts:28 | the remaining gap to the end shrinks by the factor `1 - factor` |
| PointerTracking.LerpBetween | hooks/useMediaPipe.ts:28 | with a factor in [0, 1] the result lies between start and end |
| PointerTracking.DistanceSq | hooks/useMediaPipe.ts:31-33 | the squared planar distance is non-negative and zero for coinciding points |
| PointerTracking.IsPinch | hooks/useMediaPipe.ts:134-136 | coinciding tips pinch, and tips at least the pinch threshold apart along either axis do not |
| PointerTracking.PinchBySquares | hooks/useMediaPipe.ts:134-136 | the distance is below the pinch threshold exactly when its square is below the threshold squared |
| PointerTracking.InitialHandData | hooks/useMediaPipe.ts:15-19 | the first record is the screen centre, not pinching, with distance 1 |
| PointerTracking.Target | hooks/useMediaPipe.ts:122-125 | the target mirrors the fingertip horizontally across the window width and scales it vertically; a fingertip in the unit square targets a point inside the window |
| PointerTracking.NextHandData | hooks/useMediaPipe.ts:113-144 | no hand, or a hand too short for the fingertip lookup, leaves the record; otherwise the cursor closes 15% of the gap to the mirrored target, the pinch flag is the threshold test on landmarks 8 and 4, and landmarks and video position are absent |
| PointerTracking.SmoothGap | hooks/useMediaPipe.ts:128-132 | after n steps toward a fixed target the gap is `0.85^n` times the starting gap |
| PointerTracking.NeverOvershoots | hooks/useMediaPipe.ts:128-132 | smoothing toward a fixed target stays between the start and the target |
| PointerTracking.ApproachIsMonotone | hooks/useMediaPipe.ts:128-132 | each further step is no farther from the target |
| PointerTracking.Converges | hooks/useMediaPipe.ts:128-132 | after enough steps the cursor is within any chosen distance of the target |
| PointerTracking.TrackIsSmooth | hooks/useMediaPipe.ts:113-144 | frames that show the same hand smooth each cursor coordinate toward its fixed target, exactly as the smoothing sequence the convergence lemmas are about |
| PointerTracking.HandTracker.constructor | hooks/useMediaPipe.ts:15-19 | the tracker starts with the initial record |
| PointerTracking.HandTracker.ProcessResults | hooks/useMediaPipe.ts:113-144 | the record becomes the next record for the detection result |
| TouchDetection.Confirm | hooks/useTouchDetection.ts:87-95 | a non-candidate frame resets the counter; a candidate frame fires exactly when the count reaches the confirmation number, and a firing counter restarts at zero |
| TouchDetection.CountWithinRun | hooks/useTouchDetection.ts:87-95 | from zero the counter never exceeds the current run of candidate frames, and it fires only at the end of a run of at least the confirmation number |
| TouchDetection.FireNeedsConsecutiveFrames | hooks/useTouchDetection.ts:87-95 | a counter that fires on frame i saw that many consecutive candidate frames ending at i |
| TouchDetection.ConsecutiveFramesFire | hooks/useTouchDetection.ts:87-95 | from any count, the missing number of consecutive candidate frames fires on the last of them and on no earlier one, leaving the counter at zero |
| TouchDetection.ShortRunThenResetIsSilent | hooks/useTouchDetection.ts:87-95 | a run one or more frames short of confirmation followed by a non-candidate frame fires nothing and leaves the counter at zero |
| TouchDetection.Step | hooks/useTouchDetection.ts:42-119 | an unreadable frame detects nothing and clears the outputs; a detection sets touching with that type and the latch; a touch newly switched on always comes with a detection |
| TouchDetection.UnreadableClears | hooks/useTouchDetection.ts:46-64 | a frame with fewer than 13 landmarks or a missing tip depth clears the outputs and leaves depths, velocities, counters and the latch untouched |
| TouchDetection.DepthsTracked | hooks/useTouchDetection.ts:66-74 | the last depths become the absolute tip depths; velocities are the absolute depth changes once a previous depth exists and are kept otherwise |
| TouchDetection.CountersFollowCandidacy | hooks/useTouchDetection.ts:77-105 | the index counter confirms the index candidacy; the middle counter confirms the middle candidacy only when the index did not fire, and is reset when it does; the detection is index exactly when the index fires, middle exactly when the middle fires |
| TouchDetection.OutputsLatch | hooks/useTouchDetection.ts:108-119 | a detection sets the outputs and the latch; with neither finger a candidate and the latch set they clear; otherwise they stay |
| TouchDetection.InitialConsistent | hooks/useTouchDetection.ts:24-30 | the initial state satisfies the detector invariant |
| TouchDetection.StepKeepsConsistent | hooks/useTouchDetection.ts:42-119 | every frame keeps the invariant: a type exactly while touching, touching only while latched, counters below the confirmation number |
| TouchDetection.TrackedRecordsNeverTouch | hooks/useTouchDetection.ts:43-52 | a frame read from a record the tracker produced is unreadable, so it clears the outputs and detects nothing |
| TouchDetection.GridModeOff | hooks/useTouchDetection.ts:34-38 | grid mode off clears the outputs and keeps depths, velocities, counters and latch |
| TouchDetection.TouchDetector.constructor | hooks/useTouchDetection.ts:24-30 | the detector starts in the initial state |
| TouchDetection.TouchDetector.DetectTouch | hooks/useTouchDetection.ts:42-122 | the fields become the step function's next state for the frame |
| TouchDetection.TouchDetector.SwitchOffGridMode | hooks/useTouchDetection.ts:34-38 | the fields become the grid-mode-off state |
| PinchClicks.Round | App.tsx:85 | the rounded coordinate is within half a pixel, rounding halves up |
| PinchClicks.AddLog | App.tsx:25 | the new line comes first, followed by the newest earlier lines; the log holds one more line than before, up to five |
| PinchClicks.OnFrame | App.tsx:36-69 | a frame counts a release exactly on a true-to-false pinch change and then arms the timer for that position; otherwise the count and timer stay; `wasPinching` takes the frame's value; log and gesture are untouched |
| PinchClicks.TriggerClick | App.tsx:79-85 | the click's gesture is shown and a display reset is queued for 500 ms later. Its line heads the log, followed by the newest earlier lines, and the log grows by one line up to five. Nothing else changes |
| PinchClicks.OnClickTimer | App.tsx:69-77 | no pending timer changes nothing. Otherwise one release clicks left and more click right, at the pending position. That line heads the log, which grows by one line up to five. The display reset is queued, and no count and no timer are left. The cursor, the pinch flags and every other field stay as they were |
| PinchClicks.OnGestureReset | App.tsx:83 | the oldest queued display reset clears whatever gesture is shown; with none queued nothing changes |
| PinchClicks.InitialConsistent | App.tsx:28-30 | the initial state satisfies the engine invariant |
| PinchClicks.FrameKeepsConsistent | App.tsx:46-69 | frames keep the invariant: a timer is pending exactly while releases are counted, and the log holds at most five lines |
| PinchClicks.GestureResetKeepsConsistent | App.tsx:83 | a display reset keeps the invariant |
| PinchClicks.LastRelease | App.tsx:46-51 | there is a last release exactly when a burst has at least one release, and it is a non-pinching frame of the burst |
| PinchClicks.FramesAccumulate | App.tsx:46-69 | a burst of frames adds its number of releases to the count and leaves the timer armed for its last release; log and gesture do not change |
| PinchClicks.BurstClicks | App.tsx:61-77 | from no counted release, a burst with one release clicks left and a burst with more clicks right, once, at the last release's position |
| PinchClicks.ClickController.constructor | App.tsx:18-30 | the engine starts with no release, no timer, no gesture and an empty log |
| PinchClicks.ClickController.Frame | App.tsx:36-51 | the fields become the next state for the frame |
| PinchClicks.ClickController.HandlePinchRelease | App.tsx:61-69 | the count grows by one and the pending timer is replaced by one for this position |
| PinchClicks.ClickController.ClickTimerFires | App.tsx:69-76 | the fields become the state after the timer's decision |
| PinchClicks.ClickController.TriggerClickAt | App.tsx:79-85 | the gesture, the queued display reset and the log line are set for the click |
| PinchClicks.ClickController.GestureResetFires | App.tsx:83 | the fields become the state after the oldest display reset |

## Left out

- Camera, canvas, MediaPipe and DOM I/O are outside the model. The pixel buffer, the landmark lists, the window size and the clock are parameters. Detection's early exits without a frame (hooks/useSurfaceCalibration.ts:48-54) and the synthetic click and context-menu events (App.tsx:88-105) are not modelled.
- `console.log` diagnostics and the `whitePixelCount` they report are left out. The count only feeds log text, so no result depends on it.
- All numbers are exact reals. Floating-point rounding is not modelled, and the fallback's pixel bounds are normalised with exact division.
- PointerTracking.NextHandData: it stores the squared pinch distance rather than the distance, because the model has no square root. `PinchBySquares` shows that the pinch test is unchanged.
- The whiteness threshold, the minimum surface size, the detection interval and the three touch constants are not defined in the constants file. They are parameters of the model.
- Scheduling is not modelled: animation frames, the detection interval and the timeouts are input events. Event order and delays are left to the caller, apart from the preconditions that a timer is pending and due.
- Calibration.StartCalibration: a second start while already calibrating replaces the interval handle without clearing the first interval. The model keeps a single `polling` flag, so a leaked interval that keeps ticking after cancel is not captured.
- Calibration.ToggleGridMode: it requires not calibrating, to keep grid mode and calibration exclusive in the invariant `Valid`. The source would let a toggle during calibration turn grid mode on.
- Calibration.MapToGrid: it requires a surface box with positive sides. The source would divide by zero (infinite or NaN coordinates) on a degenerate box.
- Calibration.UpdateGridBounds: it requires an edit with positive sides and a stored calibration satisfying `Valid`. A degenerate box would divide by zero in the source.
- SurfaceDetection.DetectSurface: it proves that the origin is at or after (0, 0) and that each side is at most 1, which is what the padding clamps. The padded fallback box may extend past the right or bottom edge of the frame, by up to 0.02.
- SurfaceDetection.DetectSurface: the 3-pixel sampling runs on every frame. The source samples only when the scan's box is missing or small. The samples are used only in that case, so the result is the same.
- Calibration.UpdateKeepsPointMapping: the same-pixel promise is proved only when the moved surface box needs no clamping. A clamped box no longer matches the screen box, in the source as in the model.
- PinchClicks.ClickTimerFires: the source does not clear the timer handle after the callback runs, so the next release calls `clearTimeout` on a spent handle, which has no effect. The model records no pending timer.
- The drag and resize handles and their 100-pixel minimum size belong to components outside the core.
- The rendering of the cursor, grid and calibration overlays is not modelled.
