// Pointer tracker: the mirrored, exponentially smoothed cursor and the pinch
// test computed from one hand's landmarks per processed video frame.

module PointerTracking {
  import opened Types
  import opened RealFacts

  /** Normalised thumb-to-index distance below which the hand is pinching. */
  const PinchThreshold: real := 0.05
  /** Fraction of the remaining distance the cursor moves each frame. */
  const MovementSmoothing: real := 0.15

  const IndexTip: nat := 8
  const ThumbTip: nat := 4

  /** Linear interpolation from `start` towards `end`: the remaining gap shrinks by (1 - factor). */
  function Lerp(start: real, end: real, factor: real): (r: real)
    ensures r - end == (1.0 - factor) * (start - end)
  {
    start + (end - start) * factor
  }

  /** With a factor in [0,1] the interpolated value lies between the two ends. */
  lemma LerpBetween(start: real, end: real, factor: real)
    requires 0.0 <= factor <= 1.0
    ensures start <= end ==> start <= Lerp(start, end, factor) <= end
    ensures end <= start ==> end <= Lerp(start, end, factor) <= start
  {
    var step := (end - start) * factor;
    assert Lerp(start, end, factor) == start + step;
    if start <= end {
      ScaleDown(end - start, factor);
    } else {
      ScaleDown(start - end, factor);
      Negate(start - end, factor);
      assert step == -((start - end) * factor);
    }
  }

  /** Square of the planar distance between two landmarks (depth ignored). */
  function DistanceSq(p1: Landmark, p2: Landmark): (r: real)
    ensures r >= 0.0
    ensures p1.x == p2.x && p1.y == p2.y ==> r == 0.0
  {
    Square(p1.x - p2.x) + Square(p1.y - p2.y)
  }

  function Square(d: real): (r: real)
    ensures r >= 0.0
    ensures d == 0.0 ==> r == 0.0
  {
    SquareNonNegative(d);
    d * d
  }

  /** A coordinate at least `t` away from zero has a square of at least `t * t`. */
  lemma SquareAtLeast(d: real, t: real)
    requires t >= 0.0
    ensures Abs(d) >= t ==> Square(d) >= t * t
  {
    if Abs(d) >= t {
      var a := Abs(d);
      MulMonotone(t, a, t);
      MulMonotone(t, a, a);
      assert a * t == t * a;
      assert t * t <= a * a;
      assert a * a == d * d;
      assert Square(d) == d * d;
      assert Square(d) >= t * t;
    }
  }

  /**
   * The pinch test, stated on squares so that no square root is needed:
   * coinciding tips pinch, and tips at least the threshold apart along
   * either axis do not.
   */
  function IsPinch(indexTip: Landmark, thumbTip: Landmark): (pinching: bool)
    ensures indexTip.x == thumbTip.x && indexTip.y == thumbTip.y ==> pinching
    ensures Abs(indexTip.x - thumbTip.x) >= PinchThreshold || Abs(indexTip.y - thumbTip.y) >= PinchThreshold ==> !pinching
  {
    SquareAtLeast(indexTip.x - thumbTip.x, PinchThreshold);
    SquareAtLeast(indexTip.y - thumbTip.y, PinchThreshold);
    DistanceSq(indexTip, thumbTip) < PinchThreshold * PinchThreshold
  }

  /**
   * Comparing squares is the same as comparing the distance itself: for the
   * non-negative `d` whose square is the squared distance, `d < PinchThreshold`
   * exactly when the squared test holds.
   */
  lemma PinchBySquares(indexTip: Landmark, thumbTip: Landmark, d: real)
    requires d >= 0.0 && d * d == DistanceSq(indexTip, thumbTip)
    ensures d < PinchThreshold <==> IsPinch(indexTip, thumbTip)
  {
    if d < PinchThreshold {
      assert d * d <= d * PinchThreshold;
      assert d * PinchThreshold < PinchThreshold * PinchThreshold;
    } else {
      assert d * d >= d * PinchThreshold;
      assert d * PinchThreshold >= PinchThreshold * PinchThreshold;
    }
  }

  /** The record before any hand is seen: screen centre, not pinching, distance 1. */
  function InitialHandData(innerWidth: real, innerHeight: real): (r: HandData)
    ensures r.cursor == ScreenPoint(innerWidth / 2.0, innerHeight / 2.0)
    ensures !r.isPinching && r.pinchDistanceSq == 1.0
    ensures r.landmarks.None? && r.videoPosition.None?
  {
    HandData(ScreenPoint(innerWidth / 2.0, innerHeight / 2.0), false, 1.0, None, None)
  }

  /** A fraction in [0,1] of a non-negative size lies between zero and the size. */
  lemma UnitScale(f: real, size: real)
    ensures 0.0 <= f <= 1.0 && size >= 0.0 ==> 0.0 <= f * size <= size
  {
    if 0.0 <= f <= 1.0 && size >= 0.0 {
      ScaleDown(size, f);
    }
  }

  /**
   * The cursor target for an index fingertip: mirrored horizontally, scaled
   * to the window. The left edge of the camera image is the right edge of
   * the window, and a fingertip inside the image targets a point inside
   * the window.
   */
  function Target(indexTip: Landmark, innerWidth: real, innerHeight: real): (t: ScreenPoint)
    ensures t.x + indexTip.x * innerWidth == innerWidth && t.y == indexTip.y * innerHeight
    ensures 0.0 <= indexTip.x <= 1.0 && 0.0 <= indexTip.y <= 1.0 && innerWidth >= 0.0 && innerHeight >= 0.0 ==>
      0.0 <= t.x <= innerWidth && 0.0 <= t.y <= innerHeight
  {
    UnitScale(1.0 - indexTip.x, innerWidth);
    UnitScale(indexTip.y, innerHeight);
    ScreenPoint((1.0 - indexTip.x) * innerWidth, indexTip.y * innerHeight)
  }

  /**
   * One processed detection result. `hands` lists the detected hands; only
   * the first is used. With no hand, or a hand too short to hold the
   * fingertips (the lookup throws and the frame's exception is swallowed),
   * the record stays as it was.
   */
  function NextHandData(current: HandData, hands: seq<seq<Landmark>>, innerWidth: real, innerHeight: real): (r: HandData)
    ensures |hands| == 0 ==> r == current
    ensures |hands| > 0 && |hands[0]| <= IndexTip ==> r == current
    ensures |hands| > 0 && |hands[0]| > IndexTip ==>
      var tip, thumb := hands[0][IndexTip], hands[0][ThumbTip];
      var target := Target(tip, innerWidth, innerHeight);
      && r.cursor.x - target.x == (1.0 - MovementSmoothing) * (current.cursor.x - target.x)
      && r.cursor.y - target.y == (1.0 - MovementSmoothing) * (current.cursor.y - target.y)
      && r.isPinching == IsPinch(tip, thumb)
      && r.pinchDistanceSq == DistanceSq(tip, thumb)
      && r.landmarks.None? && r.videoPosition.None?
  {
    if |hands| > 0 && |hands[0]| > IndexTip then
      var tip, thumb := hands[0][IndexTip], hands[0][ThumbTip];
      var target := Target(tip, innerWidth, innerHeight);
      var cursor := ScreenPoint(Lerp(current.cursor.x, target.x, MovementSmoothing),
                                Lerp(current.cursor.y, target.y, MovementSmoothing));
      var distSq := DistanceSq(tip, thumb);
      HandData(cursor, distSq < PinchThreshold * PinchThreshold, distSq, None, None)
    else
      current
  }

  /** `n` smoothing steps toward a fixed target coordinate. */
  function Smooth(current: real, target: real, n: nat): real
    decreases n
  {
    if n == 0 then current else Smooth(Lerp(current, target, MovementSmoothing), target, n - 1)
  }

  function Pow(b: real, n: nat): real
  {
    if n == 0 then 1.0 else b * Pow(b, n - 1)
  }

  /** Each step shrinks the remaining distance by the factor (1 - MovementSmoothing). */
  lemma {:induction false} SmoothGap(current: real, target: real, n: nat)
    ensures Smooth(current, target, n) - target == Pow(1.0 - MovementSmoothing, n) * (current - target)
    decreases n
  {
    if n > 0 {
      var next := Lerp(current, target, MovementSmoothing);
      SmoothGap(next, target, n - 1);
      calc {
        Smooth(current, target, n) - target;
        Pow(0.85, n - 1) * (next - target);
        Pow(0.85, n - 1) * (0.85 * (current - target));
        (0.85 * Pow(0.85, n - 1)) * (current - target);
      }
    }
  }

  lemma {:induction false} PowBounds(n: nat)
    ensures 0.0 < Pow(1.0 - MovementSmoothing, n) <= 1.0
    ensures Pow(1.0 - MovementSmoothing, n) * (1.0 + MovementSmoothing * n as real) <= 1.0
  {
    if n > 0 {
      PowBounds(n - 1);
      var q := Pow(0.85, n - 1);
      assert q * (1.0 + 0.15 * (n - 1) as real) <= 1.0;
      calc {
        Pow(0.85, n) * (1.0 + 0.15 * n as real);
        0.85 * (q * (1.0 + 0.15 * (n - 1) as real)) + 0.85 * 0.15 * q;
      <= 0.85 + 0.1275 * q;
      <= 1.0;
      }
    }
  }

  /** Smoothing toward a fixed target never crosses it: the cursor stays on its starting side. */
  lemma NeverOvershoots(current: real, target: real, n: nat)
    ensures current <= target ==> current <= Smooth(current, target, n) <= target
    ensures target <= current ==> target <= Smooth(current, target, n) <= current
  {
    SmoothGap(current, target, n);
    PowBounds(n);
    var q := Pow(1.0 - MovementSmoothing, n);
    if current <= target {
      assert q * (current - target) >= current - target;
    } else {
      assert q * (current - target) <= current - target;
    }
  }

  /** Every further step is no farther from the target than the previous one. */
  lemma ApproachIsMonotone(current: real, target: real, n: nat)
    ensures current <= target ==> Smooth(current, target, n) <= Smooth(current, target, n + 1) <= target
    ensures target <= current ==> target <= Smooth(current, target, n + 1) <= Smooth(current, target, n)
  {
    SmoothGap(current, target, n);
    SmoothGap(current, target, n + 1);
    PowBounds(n);
    var q := Pow(1.0 - MovementSmoothing, n);
    assert Pow(1.0 - MovementSmoothing, n + 1) == 0.85 * q;
    if current <= target {
      assert 0.85 * q * (current - target) >= q * (current - target);
    } else {
      assert 0.85 * q * (current - target) <= q * (current - target);
    }
  }

  /**
   * Convergence: after `n` steps with `n * MovementSmoothing * eps` at least
   * the starting distance, the cursor is within `eps` of the target.
   */
  lemma Converges(current: real, target: real, n: nat, eps: real)
    requires eps > 0.0
    requires MovementSmoothing * n as real * eps >= Abs(current - target)
    ensures Abs(Smooth(current, target, n) - target) <= eps
  {
    SmoothGap(current, target, n);
    PowBounds(n);
    var q := Pow(1.0 - MovementSmoothing, n);
    ScaledGap(q, current - target);
    Distribute(1.0, MovementSmoothing * n as real, eps);
    ShrunkWithin(q, 1.0 + MovementSmoothing * n as real, Abs(current - target), eps);
  }

  /** A non-negative factor comes out of the absolute value. */
  lemma ScaledGap(q: real, g: real)
    requires q >= 0.0
    ensures Abs(q * g) == q * Abs(g)
  {
    if g < 0.0 {
      assert q * g == -(q * Abs(g));
    }
  }

  /** A distance of at most `k * eps`, scaled by a factor `q` with `q * k <= 1`, is at most `eps`. */
  lemma ShrunkWithin(q: real, k: real, d: real, eps: real)
    requires q >= 0.0 && eps > 0.0 && q * k <= 1.0 && d <= k * eps
    ensures q * d <= eps
  {
    MulMonotone(d, k * eps, q);
    assert q * (k * eps) == (q * k) * eps;
    MulMonotone(q * k, 1.0, eps);
  }

  /** The record after `n` frames that each show the same hand. */
  function Track(current: HandData, hand: seq<Landmark>, innerWidth: real, innerHeight: real, n: nat): HandData
    decreases n
  {
    if n == 0 then current else Track(NextHandData(current, [hand], innerWidth, innerHeight), hand, innerWidth, innerHeight, n - 1)
  }

  /**
   * Frame after frame the tracker smooths each cursor coordinate toward the
   * fixed target of a hand that holds still, so the smoothing lemmas above
   * (never overshooting, monotone approach, convergence) hold for the
   * published cursor.
   */
  lemma {:induction false} TrackIsSmooth(current: HandData, hand: seq<Landmark>, innerWidth: real, innerHeight: real, n: nat)
    requires |hand| > IndexTip
    ensures var target := Target(hand[IndexTip], innerWidth, innerHeight);
      Track(current, hand, innerWidth, innerHeight, n).cursor ==
        ScreenPoint(Smooth(current.cursor.x, target.x, n), Smooth(current.cursor.y, target.y, n))
    decreases n
  {
    if n > 0 {
      TrackIsSmooth(NextHandData(current, [hand], innerWidth, innerHeight), hand, innerWidth, innerHeight, n - 1);
    }
  }

  /** The tracker's owner of the published hand record, overwritten per frame. */
  class HandTracker {
    var handData: HandData

    constructor (innerWidth: real, innerHeight: real)
      ensures handData == InitialHandData(innerWidth, innerHeight)
    {
      handData := HandData(ScreenPoint(innerWidth / 2.0, innerHeight / 2.0), false, 1.0, None, None);
    }

    /** One detection result processed: the record is replaced wholesale or left alone. */
    method ProcessResults(hands: seq<seq<Landmark>>, innerWidth: real, innerHeight: real)
      modifies this
      ensures handData == NextHandData(old(handData), hands, innerWidth, innerHeight)
    {
      if |hands| > 0 && |hands[0]| > IndexTip {
        var landmarks := hands[0];
        var indexTip := landmarks[IndexTip];
        var thumbTip := landmarks[ThumbTip];
        var target := Target(indexTip, innerWidth, innerHeight);
        var newX := Lerp(handData.cursor.x, target.x, MovementSmoothing);
        var newY := Lerp(handData.cursor.y, target.y, MovementSmoothing);
        var distanceSq := DistanceSq(indexTip, thumbTip);
        var isPinching := distanceSq < PinchThreshold * PinchThreshold;
        handData := HandData(ScreenPoint(newX, newY), isPinching, distanceSq, None, None);
      }
    }
  }
}
