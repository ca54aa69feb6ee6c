// Pinch clicks: the application's per-frame gesture engine. A pinch release
// (pinching on one frame, not on the next) counts a click and restarts a
// double-click timer; when the timer fires, one counted release makes a
// left click and two or more make a right click, at the position of the
// last release. A click shows its gesture for a while and adds a line to a
// five-entry feedback log, newest first.

module PinchClicks {
  import opened Types

  /** Milliseconds the timer waits for another release. */
  const DoubleClickTimeout: int := 300
  /** Milliseconds a click gesture stays on display. */
  const GestureDisplay: int := 500
  /** The feedback log keeps this many entries. */
  const LogCapacity: nat := 5

  datatype Button = Left | Right

  /** One feedback line: the button and the click position rounded to whole pixels. */
  datatype LogEntry = LogEntry(button: Button, x: int, y: int)

  /** The scheduled double-click callback: the release position it will click at and when it runs. */
  datatype PendingClick = PendingClick(pos: ScreenPoint, due: int)

  /** What the engine reads from the shared hand record on one animation frame, and when. */
  datatype Sample = Sample(now: int, isPinching: bool, cursor: ScreenPoint)

  datatype ClickState = ClickState(
    cursorPos: ScreenPoint,
    isPinching: bool,
    gesture: GestureType,
    logs: seq<LogEntry>,
    wasPinching: bool,
    clickCount: nat,
    pending: Option<PendingClick>,
    gestureResets: seq<int>)

  function Initial(): ClickState
  {
    ClickState(ScreenPoint(0.0, 0.0), false, NoGesture, [], false, 0, None, [])
  }

  /** Rounding half up to an integer, as the log text does. */
  function Round(x: real): (r: int)
    ensures x - 0.5 < r as real <= x + 0.5
  {
    (x + 0.5).Floor
  }

  /** Prepends a log line and keeps the five newest. */
  function AddLog(logs: seq<LogEntry>, e: LogEntry): (r: seq<LogEntry>)
    ensures 1 <= |r| <= LogCapacity && |r| <= |logs| + 1
    ensures r[0] == e
    ensures r[1..] == logs[..|r| - 1]
    ensures |logs| < LogCapacity ==> |r| == |logs| + 1
    ensures |r| == if |logs| < LogCapacity then |logs| + 1 else LogCapacity
  {
    var all := [e] + logs;
    if |all| > LogCapacity then all[..LogCapacity] else all
  }

  /**
   * One animation frame: the displayed cursor and pinch mirror the record;
   * a frame counts a release exactly on a falling edge of the pinch, and
   * then the pending timer is replaced by the one for this release's
   * position; the log and the shown gesture are untouched by frames.
   */
  function OnFrame(s: ClickState, f: Sample): (r: ClickState)
    ensures r.wasPinching == f.isPinching && r.cursorPos == f.cursor && r.isPinching == f.isPinching
    ensures r.clickCount == s.clickCount + 1 <==> s.wasPinching && !f.isPinching
    ensures r.clickCount == s.clickCount <==> !(s.wasPinching && !f.isPinching)
    ensures s.wasPinching && !f.isPinching ==> r.pending == Some(PendingClick(f.cursor, f.now + DoubleClickTimeout))
    ensures !(s.wasPinching && !f.isPinching) ==> r.pending == s.pending
    ensures r.logs == s.logs && r.gesture == s.gesture && r.gestureResets == s.gestureResets
  {
    var shown := s.(cursorPos := f.cursor, isPinching := f.isPinching);
    var counted :=
      if s.wasPinching && !f.isPinching then
        shown.(clickCount := s.clickCount + 1, pending := Some(PendingClick(f.cursor, f.now + DoubleClickTimeout)))
      else shown;
    counted.(wasPinching := f.isPinching)
  }

  /**
   * A click: its gesture shown, a display reset scheduled for the display
   * time from now, and its line at the head of the log, which keeps at
   * most five lines; the count, the timer and the pinch tracking stay.
   */
  function TriggerClick(s: ClickState, pos: ScreenPoint, button: Button, now: int): (r: ClickState)
    ensures r.gesture == (if button == Left then ClickLeft else ClickRight)
    ensures r.gestureResets == s.gestureResets + [now + GestureDisplay]
    ensures 1 <= |r.logs| <= LogCapacity && |r.logs| <= |s.logs| + 1
    ensures |r.logs| == if |s.logs| < LogCapacity then |s.logs| + 1 else LogCapacity
    ensures r.logs[0] == LogEntry(button, Round(pos.x), Round(pos.y))
    ensures r.logs[1..] == s.logs[..|r.logs| - 1]
    ensures r.(gesture := s.gesture, gestureResets := s.gestureResets, logs := s.logs) == s
  {
    s.(gesture := if button == Left then ClickLeft else ClickRight,
       gestureResets := s.gestureResets + [now + GestureDisplay],
       logs := AddLog(s.logs, LogEntry(button, Round(pos.x), Round(pos.y))))
  }

  /**
   * The double-click timer runs: with one release counted it clicks left,
   * with two or more right, always at the pending release position; the
   * log gains that line in front, the display reset is queued, and the
   * engine is back to no releases and no timer.
   */
  function OnClickTimer(s: ClickState, now: int): (r: ClickState)
    ensures s.pending.None? ==> r == s
    ensures Consistent(s) && s.pending.Some? ==>
      var p := s.pending.value.pos;
      && Consistent(r)
      && r.clickCount == 0 && r.pending.None?
      && 1 <= |r.logs| <= |s.logs| + 1
      && |r.logs| == (if |s.logs| < LogCapacity then |s.logs| + 1 else LogCapacity)
      && (s.clickCount == 1 ==> r.gesture == ClickLeft && r.logs[0] == LogEntry(Left, Round(p.x), Round(p.y)))
      && (s.clickCount >= 2 ==> r.gesture == ClickRight && r.logs[0] == LogEntry(Right, Round(p.x), Round(p.y)))
      && r.logs[1..] == s.logs[..|r.logs| - 1]
      && r.gestureResets == s.gestureResets + [now + GestureDisplay]
      && r.wasPinching == s.wasPinching
      && r.(logs := s.logs, gesture := s.gesture, gestureResets := s.gestureResets,
            clickCount := s.clickCount, pending := s.pending) == s
  {
    match s.pending
    case None => s
    case Some(p) =>
      var base := s.(pending := None, clickCount := 0);
      if s.clickCount == 1 then TriggerClick(base, p.pos, Left, now)
      else if s.clickCount >= 2 then TriggerClick(base, p.pos, Right, now)
      else base
  }

  /**
   * The oldest display reset runs and clears whatever gesture is shown:
   * a reset queued by an earlier click also clears the gesture of a later
   * one. With none queued nothing happens.
   */
  function OnGestureReset(s: ClickState): (r: ClickState)
    ensures |s.gestureResets| > 0 ==> r == s.(gesture := NoGesture, gestureResets := s.gestureResets[1..])
    ensures |s.gestureResets| == 0 ==> r == s
  {
    if |s.gestureResets| == 0 then s
    else s.(gesture := NoGesture, gestureResets := s.gestureResets[1..])
  }

  // ---------------------------------------------------------------- single steps

  /**
   * The engine's invariant: a timer is pending exactly while releases are
   * counted, and the log never holds more than five lines.
   */
  predicate Consistent(s: ClickState)
  {
    (s.pending.Some? <==> s.clickCount >= 1) && |s.logs| <= LogCapacity
  }

  lemma InitialConsistent()
    ensures Consistent(Initial())
  {
  }

  lemma FrameKeepsConsistent(s: ClickState, f: Sample)
    requires Consistent(s)
    ensures Consistent(OnFrame(s, f))
  {
  }

  lemma GestureResetKeepsConsistent(s: ClickState)
    requires Consistent(s)
    ensures Consistent(OnGestureReset(s))
  {
  }

  // ---------------------------------------------------------------- bursts

  /** The frames of a burst applied in order. */
  function RunFrames(s: ClickState, frames: seq<Sample>): ClickState
    decreases |frames|
  {
    if |frames| == 0 then s else RunFrames(OnFrame(s, frames[0]), frames[1..])
  }

  /** The number of pinch releases in `frames`, given whether the hand was pinching before them. */
  function Releases(wasPinching: bool, frames: seq<Sample>): nat
    decreases |frames|
  {
    if |frames| == 0 then 0
    else (if wasPinching && !frames[0].isPinching then 1 else 0) + Releases(frames[0].isPinching, frames[1..])
  }

  /** The frame of the last pinch release in `frames`, if there is one. */
  function LastRelease(wasPinching: bool, frames: seq<Sample>): (r: Option<Sample>)
    ensures r.Some? <==> Releases(wasPinching, frames) >= 1
    ensures r.Some? ==> !r.value.isPinching && r.value in frames
    decreases |frames|
  {
    if |frames| == 0 then None
    else
      var rest := LastRelease(frames[0].isPinching, frames[1..]);
      if rest.Some? then rest
      else if wasPinching && !frames[0].isPinching then Some(frames[0])
      else None
  }

  /**
   * A burst of frames with no timer running in between: every release adds
   * one to the count, the pending timer is the one for the last release
   * (or unchanged without one), and the log and gesture do not change.
   */
  lemma {:induction false} FramesAccumulate(s: ClickState, frames: seq<Sample>)
    ensures var t := RunFrames(s, frames);
      && t.clickCount == s.clickCount + Releases(s.wasPinching, frames)
      && t.pending == (match LastRelease(s.wasPinching, frames)
                       case Some(f) => Some(PendingClick(f.cursor, f.now + DoubleClickTimeout))
                       case None => s.pending)
      && t.logs == s.logs && t.gesture == s.gesture && t.gestureResets == s.gestureResets
      && (|frames| > 0 ==> t.wasPinching == frames[|frames| - 1].isPinching)
      && (|frames| == 0 ==> t == s)
    decreases |frames|
  {
    if |frames| > 0 {
      var s1 := OnFrame(s, frames[0]);
      FramesAccumulate(s1, frames[1..]);
      if |frames| > 1 {
        assert frames[1..][|frames[1..]| - 1] == frames[|frames| - 1];
      }
    }
  }

  /**
   * Single versus double click: starting with no release counted, a burst
   * with exactly one release clicks left when the timer fires, a burst with
   * two or more clicks right, and either way at the last release's position.
   */
  lemma BurstClicks(s: ClickState, frames: seq<Sample>, now: int)
    requires Consistent(s) && s.clickCount == 0
    requires Releases(s.wasPinching, frames) >= 1
    ensures var t := RunFrames(s, frames);
      var r := OnClickTimer(t, now);
      var last := LastRelease(s.wasPinching, frames).value;
      && t.pending == Some(PendingClick(last.cursor, last.now + DoubleClickTimeout))
      && (r.gesture == ClickLeft <==> Releases(s.wasPinching, frames) == 1)
      && (r.gesture == ClickRight <==> Releases(s.wasPinching, frames) >= 2)
      && |r.logs| >= 1 && r.logs[0].x == Round(last.cursor.x) && r.logs[0].y == Round(last.cursor.y)
      && r.clickCount == 0 && r.pending.None?
  {
    FramesAccumulate(s, frames);
    var t := RunFrames(s, frames);
    assert Consistent(t);
  }

  /**
   * The engine object: the displayed state and the refs as fields, with
   * one method per frame and one per timer callback.
   */
  class ClickController {
    var cursorPos: ScreenPoint
    var isPinching: bool
    var gesture: GestureType
    var logs: seq<LogEntry>
    var wasPinching: bool
    var clickCount: nat
    var pending: Option<PendingClick>
    var gestureResets: seq<int>

    function State(): ClickState
      reads this
    {
      ClickState(cursorPos, isPinching, gesture, logs, wasPinching, clickCount, pending, gestureResets)
    }

    constructor ()
      ensures State() == Initial()
    {
      cursorPos := ScreenPoint(0.0, 0.0);
      isPinching := false;
      gesture := NoGesture;
      logs := [];
      wasPinching := false;
      clickCount := 0;
      pending := None;
      gestureResets := [];
    }

    /** The animation-frame loop body. */
    method Frame(f: Sample)
      modifies this
      ensures State() == OnFrame(old(State()), f)
    {
      cursorPos := f.cursor;
      isPinching := f.isPinching;
      if wasPinching && !f.isPinching {
        HandlePinchRelease(f.cursor, f.now);
      }
      wasPinching := f.isPinching;
    }

    /** Counts a release and replaces the pending timer. */
    method HandlePinchRelease(pos: ScreenPoint, now: int)
      modifies this
      ensures State() == old(State()).(clickCount := old(clickCount) + 1,
                                       pending := Some(PendingClick(pos, now + DoubleClickTimeout)))
    {
      clickCount := clickCount + 1;
      pending := Some(PendingClick(pos, now + DoubleClickTimeout));
    }

    /** The double-click callback, run by the browser once its delay has passed. */
    method ClickTimerFires(now: int)
      requires pending.Some? && now >= pending.value.due
      modifies this
      ensures State() == OnClickTimer(old(State()), now)
    {
      var pos := pending.value.pos;
      pending := None;
      if clickCount == 1 {
        TriggerClickAt(pos, Left, now);
      } else if clickCount >= 2 {
        TriggerClickAt(pos, Right, now);
      }
      clickCount := 0;
    }

    method TriggerClickAt(pos: ScreenPoint, button: Button, now: int)
      modifies this
      ensures State() == TriggerClick(old(State()), pos, button, now)
    {
      gesture := if button == Left then ClickLeft else ClickRight;
      gestureResets := gestureResets + [now + GestureDisplay];
      logs := AddLog(logs, LogEntry(button, Round(pos.x), Round(pos.y)));
    }

    /** The oldest gesture-display callback, run once its delay has passed. */
    method GestureResetFires(now: int)
      requires |gestureResets| > 0 && now >= gestureResets[0]
      modifies this
      ensures State() == OnGestureReset(old(State()))
    {
      gesture := NoGesture;
      gestureResets := gestureResets[1..];
    }
  }
}
