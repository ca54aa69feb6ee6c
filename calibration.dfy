// Calibration and grid mapping: the calibration state record and its
// transitions, the aspect-corrected on-screen box built on confirmation,
// the surface-to-screen map, and the carry-over of on-screen edits to the
// camera-space surface box.

module Calibration {
  import opened Types
  import opened RealFacts

  /** Fraction of the screen left free on each side of the grid. */
  const Margin: real := 0.05

  /**
   * The hook's state. `polling` stands for the detection interval handle
   * being held; the detection results that arrive while it is held are
   * given to DetectionTick.
   */
  datatype CalibrationState = CalibrationState(
    isCalibrating: bool,
    isGridMode: bool,
    gridBounds: Option<GridBounds>,
    detectedSurface: Option<BoundingBox>,
    polling: bool)

  /** The user-visible phase of the calibration. */
  datatype Phase = Idle | Calibrating | GridActive | GridInactive

  function PhaseOf(s: CalibrationState): Phase
  {
    if s.isCalibrating then Calibrating
    else if s.gridBounds.None? then Idle
    else if s.isGridMode then GridActive
    else GridInactive
  }

  /**
   * The state invariant: a detected surface and the stored calibration
   * have area, grid mode needs a calibration, calibration and grid mode
   * exclude each other, and detection polls exactly while calibrating.
   */
  predicate Valid(s: CalibrationState)
  {
    && (s.detectedSurface.Some? ==> HasArea(s.detectedSurface.value))
    && (s.gridBounds.Some? ==> WellFormed(s.gridBounds.value))
    && (s.isGridMode ==> s.gridBounds.Some?)
    && !(s.isCalibrating && s.isGridMode)
    && s.polling == s.isCalibrating
  }

  function Initial(): (s: CalibrationState)
    ensures Valid(s) && PhaseOf(s) == Idle
  {
    CalibrationState(false, false, None, None, false)
  }

  /**
   * Start calibrating: ignored until the camera is ready; otherwise grid
   * mode goes off, the previous detection is dropped, one detection runs at
   * once (`firstDetection`) and polling begins. A stored calibration is kept.
   */
  function StartCalibration(s: CalibrationState, isCameraReady: bool, firstDetection: Option<BoundingBox>): (r: CalibrationState)
    requires Valid(s)
    requires firstDetection.Some? ==> HasArea(firstDetection.value)
    ensures Valid(r)
    ensures !isCameraReady ==> r == s
    ensures isCameraReady ==>
      && PhaseOf(r) == Calibrating
      && r.detectedSurface == firstDetection
      && r.gridBounds == s.gridBounds
  {
    if !isCameraReady then s
    else s.(isCalibrating := true, isGridMode := false, detectedSurface := firstDetection, polling := true)
  }

  /** One tick of the detection interval: a found surface replaces the previous one; none keeps it. */
  function DetectionTick(s: CalibrationState, detection: Option<BoundingBox>): (r: CalibrationState)
    requires Valid(s)
    requires detection.Some? ==> HasArea(detection.value)
    ensures Valid(r)
    ensures r.detectedSurface == if s.polling && detection.Some? then detection else s.detectedSurface
    ensures r.(detectedSurface := s.detectedSurface) == s
  {
    if s.polling && detection.Some? then s.(detectedSurface := detection) else s
  }

  /** Cancel: stop calibrating and polling, drop the detection; a stored calibration stays. */
  function CancelCalibration(s: CalibrationState): (r: CalibrationState)
    requires Valid(s)
    ensures Valid(r)
    ensures PhaseOf(r) == (if s.gridBounds.None? then Idle else if s.isGridMode then GridActive else GridInactive)
    ensures r.detectedSurface.None? && r.gridBounds == s.gridBounds
  {
    s.(isCalibrating := false, detectedSurface := None, polling := false)
  }

  /**
   * The on-screen box for a surface: the 5%-margin box with one side
   * shrunk, around the centre, to give it the surface's aspect ratio.
   */
  function AspectScreenBox(surface: BoundingBox): (b: BoundingBox)
    requires HasArea(surface)
    ensures b.x + b.width / 2.0 == 0.5 && b.y + b.height / 2.0 == 0.5
    ensures b.width == 1.0 - 2.0 * Margin || b.height == 1.0 - 2.0 * Margin
  {
    var screenBox := BoundingBox(Margin, Margin, 1.0 - 2.0 * Margin, 1.0 - 2.0 * Margin);
    var surfaceAspect := surface.width / surface.height;
    var screenAspect := screenBox.width / screenBox.height;
    if surfaceAspect > screenAspect then
      var newHeight := screenBox.width / surfaceAspect;
      screenBox.(y := (1.0 - newHeight) / 2.0, height := newHeight)
    else
      var newWidth := screenBox.height * surfaceAspect;
      screenBox.(x := (1.0 - newWidth) / 2.0, width := newWidth)
  }

  /**
   * The confirmed screen box has the surface's aspect ratio, lies inside
   * the margin box, is centred on both axes, and fills the margin box
   * along one of them.
   */
  lemma AspectScreenBoxFits(surface: BoundingBox)
    requires HasArea(surface)
    ensures var b := AspectScreenBox(surface);
      && HasArea(b)
      && b.width * surface.height == b.height * surface.width
      && Margin <= b.x && b.x + b.width <= 1.0 - Margin
      && Margin <= b.y && b.y + b.height <= 1.0 - Margin
      && b.x + b.width / 2.0 == 0.5 && b.y + b.height / 2.0 == 0.5
      && (b.width == 1.0 - 2.0 * Margin || b.height == 1.0 - 2.0 * Margin)
  {
    var a := surface.width / surface.height;
    DivIsPositive(surface.width, surface.height);
    assert a * surface.height == surface.width;
    assert 0.9 / 0.9 == 1.0;
    if a > 1.0 {
      var nh := 0.9 / a;
      DivIsPositive(0.9, a);
      assert nh * a == 0.9;
      MulStrict(1.0, a, nh);
      assert nh < 0.9;
      // b.width * h == 0.9 * h == nh * a * h == nh * w
      calc {
        0.9 * surface.height;
        (nh * a) * surface.height;
        nh * (a * surface.height);
        nh * surface.width;
      }
    } else {
      var nw := 0.9 * a;
      MulMonotone(a, 1.0, 0.9);
      calc {
        nw * surface.height;
        0.9 * (a * surface.height);
        0.9 * surface.width;
      }
    }
  }

  /** The calibration a confirmation stores for a detected surface. */
  function ConfirmedBounds(surface: BoundingBox): (g: GridBounds)
    requires HasArea(surface)
    ensures WellFormed(g)
    ensures g.surfaceBox == surface && g.aspectRatio == surface.width / surface.height
    ensures g.screenBox == AspectScreenBox(surface)
  {
    AspectScreenBoxFits(surface);
    GridBounds(surface, AspectScreenBox(surface), surface.width / surface.height)
  }

  /** Confirm: a no-op without a detected surface; otherwise store the calibration and enter grid mode. */
  function ConfirmCalibration(s: CalibrationState): (r: CalibrationState)
    requires Valid(s)
    ensures Valid(r)
    ensures s.detectedSurface.None? ==> r == s
    ensures s.detectedSurface.Some? ==>
      && r.gridBounds == Some(ConfirmedBounds(s.detectedSurface.value))
      && PhaseOf(r) == GridActive && !r.polling
      && r.detectedSurface == s.detectedSurface
  {
    match s.detectedSurface
    case None => s
    case Some(surface) =>
      s.(gridBounds := Some(ConfirmedBounds(surface)), isCalibrating := false, isGridMode := true, polling := false)
  }

  /** Toggle grid mode; only possible once a calibration is stored. */
  function ToggleGridMode(s: CalibrationState): (r: CalibrationState)
    requires Valid(s) && !s.isCalibrating
    ensures Valid(r)
    ensures s.gridBounds.None? ==> r == s
    ensures s.gridBounds.Some? ==> r == s.(isGridMode := !s.isGridMode)
    ensures PhaseOf(s) == GridActive ==> PhaseOf(r) == GridInactive
    ensures PhaseOf(s) == GridInactive ==> PhaseOf(r) == GridActive
    ensures r.gridBounds == s.gridBounds
  {
    if s.gridBounds.Some? then s.(isGridMode := !s.isGridMode) else s
  }

  /** Reset: back to the initial state from anywhere. */
  function ResetCalibration(s: CalibrationState): (r: CalibrationState)
    ensures r == Initial()
    ensures PhaseOf(r) == Idle
  {
    CalibrationState(false, false, None, None, false)
  }

  /** The point lies on the closed box. */
  predicate OnSurface(b: BoundingBox, p: ScreenPoint)
  {
    b.x <= p.x <= b.x + b.width && b.y <= p.y <= b.y + b.height
  }

  /** Where `v` lies along a span starting at `start`, as a fraction of its length. */
  function Fraction(start: real, span: real, v: real): real
    requires span != 0.0
  {
    (v - start) / span
  }

  /** The pixel at fraction `rel` along a normalised span, on a window side of `size` pixels. */
  function Project(start: real, span: real, rel: real, size: real): real
  {
    start * size + rel * span * size
  }

  /**
   * Where a normalised camera point falls on the screen, in pixels; None
   * with no calibration or when the point is off the surface box (its
   * edges count as on it).
   */
  function MapToGrid(gridBounds: Option<GridBounds>, p: ScreenPoint, innerWidth: real, innerHeight: real): (q: Option<ScreenPoint>)
    requires gridBounds.Some? ==> HasArea(gridBounds.value.surfaceBox)
    ensures gridBounds.None? ==> q.None?
    ensures gridBounds.Some? ==> (q.Some? <==> OnSurface(gridBounds.value.surfaceBox, p))
  {
    match gridBounds
    case None => None
    case Some(g) =>
      var surfaceBox, screenBox := g.surfaceBox, g.screenBox;
      UnitInterval(p.x - surfaceBox.x, surfaceBox.width);
      UnitInterval(p.y - surfaceBox.y, surfaceBox.height);
      var relativeX := Fraction(surfaceBox.x, surfaceBox.width, p.x);
      var relativeY := Fraction(surfaceBox.y, surfaceBox.height, p.y);
      if relativeX < 0.0 || relativeX > 1.0 || relativeY < 0.0 || relativeY > 1.0 then None
      else Some(ScreenPoint(Project(screenBox.x, screenBox.width, relativeX, innerWidth),
                            Project(screenBox.y, screenBox.height, relativeY, innerHeight)))
  }

  function Centre(b: BoundingBox): ScreenPoint
  {
    ScreenPoint(b.x + 0.5 * b.width, b.y + 0.5 * b.height)
  }

  /** The surface box's top-left corner lands on the screen box's origin, its centre on the screen box's centre. */
  lemma MapToGridCornerAndCentre(g: GridBounds, innerWidth: real, innerHeight: real)
    requires HasArea(g.surfaceBox)
    ensures var q := MapToGrid(Some(g), ScreenPoint(g.surfaceBox.x, g.surfaceBox.y), innerWidth, innerHeight);
      q.Some? && q.value.x == g.screenBox.x * innerWidth && q.value.y == g.screenBox.y * innerHeight
    ensures var q := MapToGrid(Some(g), Centre(g.surfaceBox), innerWidth, innerHeight);
      q.Some? && q.value.x == Centre(g.screenBox).x * innerWidth && q.value.y == Centre(g.screenBox).y * innerHeight
  {
    var s, b := g.surfaceBox, g.screenBox;
    AxisCornerAndCentre(s.x, s.width, b.x, b.width, innerWidth);
    AxisCornerAndCentre(s.y, s.height, b.y, b.height, innerHeight);
    assert MapToGrid(Some(g), ScreenPoint(s.x, s.y), innerWidth, innerHeight)
        == Some(ScreenPoint(Project(b.x, b.width, 0.0, innerWidth), Project(b.y, b.height, 0.0, innerHeight)));
    var c := Centre(s);
    assert MapToGrid(Some(g), c, innerWidth, innerHeight)
        == Some(ScreenPoint(Project(b.x, b.width, 0.5, innerWidth), Project(b.y, b.height, 0.5, innerHeight)));
  }

  /** One axis of MapToGridCornerAndCentre. */
  lemma AxisCornerAndCentre(s0: real, sw: real, b0: real, bw: real, size: real)
    requires sw > 0.0
    ensures Fraction(s0, sw, s0) == 0.0 && Project(b0, bw, 0.0, size) == b0 * size
    ensures Fraction(s0, sw, s0 + 0.5 * sw) == 0.5 && Project(b0, bw, 0.5, size) == (b0 + 0.5 * bw) * size
  {
    DivExact(s0 - s0, sw, 0.0);
    DivExact(s0 + 0.5 * sw - s0, sw, 0.5);
    Distribute(b0, 0.5 * bw, size);
  }

  /** A mapped point lies inside the screen box's pixel rectangle. */
  lemma MapToGridInsideScreenBox(g: GridBounds, p: ScreenPoint, innerWidth: real, innerHeight: real)
    requires WellFormed(g) && innerWidth >= 0.0 && innerHeight >= 0.0
    requires MapToGrid(Some(g), p, innerWidth, innerHeight).Some?
    ensures var q, b := MapToGrid(Some(g), p, innerWidth, innerHeight).value, g.screenBox;
      && b.x * innerWidth <= q.x <= b.x * innerWidth + b.width * innerWidth
      && b.y * innerHeight <= q.y <= b.y * innerHeight + b.height * innerHeight
  {
    var s, b := g.surfaceBox, g.screenBox;
    ProjectInside(b.x, b.width, Fraction(s.x, s.width, p.x), innerWidth);
    ProjectInside(b.y, b.height, Fraction(s.y, s.height, p.y), innerHeight);
  }

  /** A fraction in [0,1] of a span projects between the span's ends. */
  lemma ProjectInside(start: real, span: real, rel: real, size: real)
    requires span > 0.0 && 0.0 <= rel <= 1.0 && size >= 0.0
    ensures start * size <= Project(start, span, rel, size) <= start * size + span * size
  {
    FractionOfSpan(rel, span, size);
  }

  /** The inverse map, from screen pixels back to a normalised camera point. */
  function GridToSurface(g: GridBounds, q: ScreenPoint, innerWidth: real, innerHeight: real): ScreenPoint
    requires HasArea(g.screenBox) && innerWidth > 0.0 && innerHeight > 0.0
  {
    var s, b := g.surfaceBox, g.screenBox;
    ScreenPoint(Unproject(s.x, s.width, b.x, b.width, q.x, innerWidth),
                Unproject(s.y, s.height, b.y, b.height, q.y, innerHeight))
  }

  /** One axis of the inverse map. */
  function Unproject(s0: real, sw: real, b0: real, bw: real, q: real, size: real): real
    requires bw != 0.0 && size != 0.0
  {
    s0 + (q / size - b0) / bw * sw
  }

  /** Mapping a surface point to the screen and back gives the point again. */
  lemma MapToGridRoundTrip(g: GridBounds, p: ScreenPoint, innerWidth: real, innerHeight: real)
    requires WellFormed(g) && innerWidth > 0.0 && innerHeight > 0.0
    requires MapToGrid(Some(g), p, innerWidth, innerHeight).Some?
    ensures GridToSurface(g, MapToGrid(Some(g), p, innerWidth, innerHeight).value, innerWidth, innerHeight) == p
  {
    var s, b := g.surfaceBox, g.screenBox;
    AxisRoundTrip(p.x, s.x, s.width, b.x, b.width, innerWidth);
    AxisRoundTrip(p.y, s.y, s.height, b.y, b.height, innerHeight);
  }

  /** One axis of the round trip. */
  lemma AxisRoundTrip(v: real, s0: real, sw: real, b0: real, bw: real, size: real)
    requires sw > 0.0 && bw > 0.0 && size > 0.0
    ensures Unproject(s0, sw, b0, bw, Project(b0, bw, Fraction(s0, sw, v), size), size) == v
  {
    var rel := Fraction(s0, sw, v);
    var q := Project(b0, bw, rel, size);
    Distribute(b0, rel * bw, size);
    DivExact(q, size, b0 + rel * bw);
    DivExact(q / size - b0, bw, rel);
    DivCancel(v - s0, sw);
  }

  /** Scaling a positive side by the ratio of two positive sides keeps it positive. */
  lemma ScaledSidePositive(side: real, newSide: real, oldSide: real)
    requires oldSide > 0.0
    ensures side > 0.0 && newSide > 0.0 ==> side * (newSide / oldSide) > 0.0
  {
    if side > 0.0 && newSide > 0.0 {
      DivIsPositive(newSide, oldSide);
      MulStrict(0.0, side, newSide / oldSide);
    }
  }

  /**
   * The surface box moved like the screen box was: its offset grows by the
   * screen box's move, and its sides by the screen box's scale, both
   * measured in units of the old screen box.
   */
  function MovedBox(oldSurface: BoundingBox, oldScreen: BoundingBox, newScreen: BoundingBox): (r: BoundingBox)
    requires HasArea(oldScreen)
    ensures HasArea(oldSurface) && HasArea(newScreen) ==> HasArea(r)
  {
    var scaleX := newScreen.width / oldScreen.width;
    var scaleY := newScreen.height / oldScreen.height;
    var offsetX := (newScreen.x - oldScreen.x) / oldScreen.width;
    var offsetY := (newScreen.y - oldScreen.y) / oldScreen.height;
    ScaledSidePositive(oldSurface.width, newScreen.width, oldScreen.width);
    ScaledSidePositive(oldSurface.height, newScreen.height, oldScreen.height);
    BoundingBox(oldSurface.x + offsetX * oldSurface.width,
                oldSurface.y + offsetY * oldSurface.height,
                oldSurface.width * scaleX,
                oldSurface.height * scaleY)
  }

  /**
   * Clamping a box into the unit square: the origin is pulled into [0, 1 - side]
   * (and to 0 when the side exceeds 1), then each side is cut at the edge.
   * The result lies in the unit square, positive sides stay positive, and a
   * box already in the unit square is left alone.
   */
  function ClampBox(b: BoundingBox): (r: BoundingBox)
    ensures InUnitSquare(r)
    ensures HasArea(b) ==> HasArea(r)
    ensures InUnitSquare(b) ==> r == b
  {
    var x := RealMax(0.0, RealMin(1.0 - b.width, b.x));
    var y := RealMax(0.0, RealMin(1.0 - b.height, b.y));
    BoundingBox(x, y, RealMin(b.width, 1.0 - x), RealMin(b.height, 1.0 - y))
  }

  /**
   * The surface box after an on-screen edit from `oldScreen` to
   * `newScreen`: moved like the screen box, then clamped. It always lies
   * in the unit square, keeps positive sides, and is the moved box itself
   * whenever that already lies in the unit square.
   */
  function CarrySurfaceBox(oldSurface: BoundingBox, oldScreen: BoundingBox, newScreen: BoundingBox): (r: BoundingBox)
    requires HasArea(oldScreen)
    ensures InUnitSquare(r)
    ensures HasArea(oldSurface) && HasArea(newScreen) ==> HasArea(r)
    ensures InUnitSquare(MovedBox(oldSurface, oldScreen, newScreen)) ==> r == MovedBox(oldSurface, oldScreen, newScreen)
  {
    ClampBox(MovedBox(oldSurface, oldScreen, newScreen))
  }

  /**
   * Commit an edited calibration. Without a stored one the argument is
   * stored as given; otherwise its screen box is committed, the surface box
   * follows the edit and is clamped, and the aspect ratio is recomputed.
   */
  function UpdateGridBounds(s: CalibrationState, newGridBounds: GridBounds): (r: CalibrationState)
    requires Valid(s) && WellFormed(newGridBounds)
    ensures Valid(r)
    ensures s.gridBounds.None? ==> r == s.(gridBounds := Some(newGridBounds))
    ensures s.gridBounds.Some? ==> r.gridBounds.Some? && (var g, current := r.gridBounds.value, s.gridBounds.value;
      && r == s.(gridBounds := Some(g))
      && g.screenBox == newGridBounds.screenBox
      && g.surfaceBox == CarrySurfaceBox(current.surfaceBox, current.screenBox, newGridBounds.screenBox)
      && InUnitSquare(g.surfaceBox)
      && g.aspectRatio == g.surfaceBox.width / g.surfaceBox.height)
  {
    match s.gridBounds
    case None => s.(gridBounds := Some(newGridBounds))
    case Some(current) =>
      var surface := CarrySurfaceBox(current.surfaceBox, current.screenBox, newGridBounds.screenBox);
      s.(gridBounds := Some(GridBounds(surface, newGridBounds.screenBox, surface.width / surface.height)))
  }

  /**
   * One axis of the edit: a coordinate `v` projects to the same pixel
   * through the old surface span and screen span as through the moved
   * surface span and the new screen span.
   */
  lemma AxisMappingKept(v: real, s0: real, sw: real, b0: real, bw: real, s0': real, sw': real, b0': real, bw': real, size: real)
    requires sw > 0.0 && bw > 0.0 && bw' > 0.0
    requires s0' == s0 + (b0' - b0) / bw * sw && sw' == sw * (bw' / bw)
    ensures sw' > 0.0 && Project(b0', bw', Fraction(s0', sw', v), size) == Project(b0, bw, Fraction(s0, sw, v), size)
  {
    var rel, o, k := (v - s0) / sw, (b0' - b0) / bw, bw' / bw;
    DivCancel(v - s0, sw);
    DivCancel(b0' - b0, bw);
    DivCancel(bw', bw);
    ScaledSidePositive(sw, bw', bw);
    DivIsPositive(bw', bw);
    assert v - s0' == (rel - o) * sw;
    var rel' := (rel - o) / k;
    DivCancel(rel - o, k);
    assert rel' * sw' == (rel - o) * sw;
    DivExact(v - s0', sw', rel');
    assert rel' * bw' == (rel - o) * bw by {
      assert rel' * bw' == rel' * (k * bw);
      assert rel' * (k * bw) == (rel' * k) * bw;
    }
    assert (rel - o) * bw == rel * bw - (b0' - b0);
    Distribute(b0', rel' * bw', size);
    Distribute(b0, rel * bw, size);
  }

  /**
   * The edit keeps the camera and the screen in step: unless the moved
   * surface box had to be clamped, every camera point that both the old
   * and the edited calibration map lands on the same screen pixel.
   */
  lemma UpdateKeepsPointMapping(s: CalibrationState, e: GridBounds, p: ScreenPoint, innerWidth: real, innerHeight: real)
    requires Valid(s) && WellFormed(e) && s.gridBounds.Some?
    requires var g := s.gridBounds.value; InUnitSquare(MovedBox(g.surfaceBox, g.screenBox, e.screenBox))
    requires MapToGrid(s.gridBounds, p, innerWidth, innerHeight).Some?
    requires MapToGrid(UpdateGridBounds(s, e).gridBounds, p, innerWidth, innerHeight).Some?
    ensures MapToGrid(UpdateGridBounds(s, e).gridBounds, p, innerWidth, innerHeight) == MapToGrid(s.gridBounds, p, innerWidth, innerHeight)
  {
    var g := s.gridBounds.value;
    var g' := UpdateGridBounds(s, e).gridBounds.value;
    assert g'.surfaceBox == MovedBox(g.surfaceBox, g.screenBox, e.screenBox) && g'.screenBox == e.screenBox;
    MovedProjectsAlike(g.surfaceBox, g.screenBox, e.screenBox, p, innerWidth, innerHeight);
    MappedPoint(g, p, innerWidth, innerHeight);
    MappedPoint(g', p, innerWidth, innerHeight);
  }

  /** Both axes of AxisMappingKept for a moved surface box. */
  lemma MovedProjectsAlike(sb: BoundingBox, b: BoundingBox, n: BoundingBox, p: ScreenPoint, innerWidth: real, innerHeight: real)
    requires HasArea(sb) && HasArea(b) && HasArea(n)
    ensures var m := MovedBox(sb, b, n);
      && Project(n.x, n.width, Fraction(m.x, m.width, p.x), innerWidth) == Project(b.x, b.width, Fraction(sb.x, sb.width, p.x), innerWidth)
      && Project(n.y, n.height, Fraction(m.y, m.height, p.y), innerHeight) == Project(b.y, b.height, Fraction(sb.y, sb.height, p.y), innerHeight)
  {
    var m := MovedBox(sb, b, n);
    AxisMappingKept(p.x, sb.x, sb.width, b.x, b.width, m.x, m.width, n.x, n.width, innerWidth);
    AxisMappingKept(p.y, sb.y, sb.height, b.y, b.height, m.y, m.height, n.y, n.height, innerHeight);
  }

  /** The pixel a mapped point lands on, axis by axis. */
  lemma MappedPoint(g: GridBounds, p: ScreenPoint, innerWidth: real, innerHeight: real)
    requires HasArea(g.surfaceBox) && MapToGrid(Some(g), p, innerWidth, innerHeight).Some?
    ensures MapToGrid(Some(g), p, innerWidth, innerHeight).value ==
      ScreenPoint(Project(g.screenBox.x, g.screenBox.width, Fraction(g.surfaceBox.x, g.surfaceBox.width, p.x), innerWidth),
                  Project(g.screenBox.y, g.screenBox.height, Fraction(g.surfaceBox.y, g.surfaceBox.height, p.y), innerHeight))
  {
  }

  /**
   * An edit whose screen box equals the stored one leaves an in-square
   * calibration with a consistent aspect ratio exactly as it was.
   */
  lemma UpdateGridBoundsNoOpEdit(s: CalibrationState, e: GridBounds)
    requires Valid(s) && WellFormed(e) && s.gridBounds.Some?
    requires s.gridBounds.value.screenBox == e.screenBox
    requires InUnitSquare(s.gridBounds.value.surfaceBox)
    requires s.gridBounds.value.aspectRatio == s.gridBounds.value.surfaceBox.width / s.gridBounds.value.surfaceBox.height
    ensures UpdateGridBounds(s, e) == s
  {
    var g := s.gridBounds.value;
    var b := g.screenBox;
    assert b.width / b.width == 1.0 && b.height / b.height == 1.0;
    assert (b.x - b.x) / b.width == 0.0 && (b.y - b.y) / b.height == 0.0;
    assert MovedBox(g.surfaceBox, b, b) == g.surfaceBox;
  }

  /** Committing the same edit twice is the same as committing it once. */
  lemma UpdateGridBoundsIdempotent(s: CalibrationState, e: GridBounds)
    requires Valid(s) && WellFormed(e) && s.gridBounds.Some?
    ensures UpdateGridBounds(UpdateGridBounds(s, e), e) == UpdateGridBounds(s, e)
  {
    UpdateGridBoundsNoOpEdit(UpdateGridBounds(s, e), e);
  }
}
