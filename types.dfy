// Shared value types of the gesture pointer: points, boxes, calibration
// bounds, hand landmarks and the per-frame hand record.

module Types {

  datatype Option<+T> = None | Some(value: T)

  /** A point in screen pixels, or a normalised point in camera space. */
  datatype ScreenPoint = ScreenPoint(x: real, y: real)

  /** A rectangle; normalised to [0,1] relative to a camera frame or the screen. */
  datatype BoundingBox = BoundingBox(x: real, y: real, width: real, height: real)

  /** The persistent calibration: a camera-space surface box, its on-screen box, and the surface aspect. */
  datatype GridBounds = GridBounds(surfaceBox: BoundingBox, screenBox: BoundingBox, aspectRatio: real)

  /** One hand keypoint; `z` may be absent. */
  datatype Landmark = Landmark(x: real, y: real, z: Option<real>)

  /**
   * The tracker's published record. `pinchDistanceSq` holds the square of
   * the thumb-to-index distance (the model has no square root).
   */
  datatype HandData = HandData(
    cursor: ScreenPoint,
    isPinching: bool,
    pinchDistanceSq: real,
    landmarks: Option<seq<Landmark>>,
    videoPosition: Option<ScreenPoint>)

  datatype TouchType = Index | Middle

  datatype GestureType = NoGesture | Move | PinchStart | ClickLeft | ClickRight

  /** A box with room inside it: both sides strictly positive. */
  predicate HasArea(b: BoundingBox)
  {
    b.width > 0.0 && b.height > 0.0
  }

  /** Both boxes of a calibration have strictly positive sides. */
  predicate WellFormed(g: GridBounds)
  {
    HasArea(g.surfaceBox) && HasArea(g.screenBox)
  }

  /** The box lies inside the unit square. */
  predicate InUnitSquare(b: BoundingBox)
  {
    0.0 <= b.x && 0.0 <= b.y && b.x + b.width <= 1.0 && b.y + b.height <= 1.0
  }
}
