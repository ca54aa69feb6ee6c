// Touch detector: a per-frame state machine over the index and middle
// fingertips' depths. A finger is a candidate when it is close (small |z|)
// and moving in depth; a touch is reported after a run of consecutive
// candidate frames, index before middle, and the reported touch latches
// until both fingers stop being candidates.

module TouchDetection {
  import opened Types
  import opened RealFacts
  import PointerTracking

  const IndexTip: nat := 8
  const MiddleTip: nat := 12

  /** A per-finger pair of depth quantities. */
  datatype Depths = Depths(index: real, middle: real)

  /** The thresholds the detector is built with. */
  datatype Thresholds = Thresholds(zThreshold: real, velocityThreshold: real, confirmationFrames: nat)

  /** Everything the detector remembers between frames, plus its two outputs. */
  datatype TouchState = TouchState(
    lastZ: Option<Depths>,
    velocity: Depths,
    indexCount: nat,
    middleCount: nat,
    wasTouching: bool,
    isTouching: bool,
    touchType: Option<TouchType>)

  function Initial(): TouchState
  {
    TouchState(None, Depths(0.0, 0.0), 0, 0, false, false, None)
  }

  // ---------------------------------------------------------------- counters

  /** One frame of a confirmation counter: the new count and whether it fired. */
  datatype Counted = Counted(count: nat, fired: bool)

  /**
   * A candidate frame advances the counter, which fires and starts over on
   * reaching `n`; any other frame resets it.
   */
  function Confirm(count: nat, candidate: bool, n: nat): (r: Counted)
    ensures !candidate ==> r == Counted(0, false)
    ensures candidate ==> (r.fired <==> count + 1 >= n)
    ensures r.fired ==> r.count == 0
    ensures candidate && !r.fired ==> r.count == count + 1
  {
    if candidate then
      if count + 1 >= n then Counted(0, true) else Counted(count + 1, false)
    else
      Counted(0, false)
  }

  /** A counter fed a sequence of frames: its final count and the frames on which it fired. */
  function ConfirmRun(count: nat, candidates: seq<bool>, n: nat): (r: (nat, seq<bool>))
    ensures |r.1| == |candidates|
    decreases |candidates|
  {
    if |candidates| == 0 then (count, [])
    else
      var r := Confirm(count, candidates[0], n);
      var rest := ConfirmRun(r.count, candidates[1..], n);
      (rest.0, [r.fired] + rest.1)
  }

  /** The number of consecutive candidate frames at the end of `candidates`. */
  function TrailingRun(candidates: seq<bool>): nat
    decreases |candidates|
  {
    if |candidates| == 0 || !candidates[|candidates| - 1] then 0
    else TrailingRun(candidates[..|candidates| - 1]) + 1
  }

  /** The fold of `ConfirmRun` seen from the end: one more frame is one more `Confirm`. */
  lemma {:induction false} ConfirmRunSnoc(count: nat, candidates: seq<bool>, c: bool, n: nat)
    ensures var before := ConfirmRun(count, candidates, n);
      var r := Confirm(before.0, c, n);
      ConfirmRun(count, candidates + [c], n) == (r.count, before.1 + [r.fired])
    decreases |candidates|
  {
    if |candidates| == 0 {
      assert candidates + [c] == [c] && [c][1..] == [];
      var r := Confirm(count, c, n);
      assert ConfirmRun(r.count, [], n) == (r.count, []);
      assert [r.fired] + [] == [] + [r.fired];
    } else {
      var r0 := Confirm(count, candidates[0], n);
      assert (candidates + [c])[0] == candidates[0];
      assert (candidates + [c])[1..] == candidates[1..] + [c];
      ConfirmRunSnoc(r0.count, candidates[1..], c, n);
      var tail := ConfirmRun(r0.count, candidates[1..], n);
      var r := Confirm(tail.0, c, n);
      assert [r0.fired] + (tail.1 + [r.fired]) == ([r0.fired] + tail.1) + [r.fired];
    }
  }

  /**
   * Started from zero, the counter never holds more than the current run of
   * consecutive candidate frames, and it fires only on a frame that ends a
   * run of at least `n` of them.
   */
  lemma {:induction false} CountWithinRun(candidates: seq<bool>, n: nat)
    ensures ConfirmRun(0, candidates, n).0 <= TrailingRun(candidates)
    ensures var fired := ConfirmRun(0, candidates, n).1;
      |fired| == |candidates| &&
      forall i :: 0 <= i < |fired| && fired[i] ==> TrailingRun(candidates[..i + 1]) >= n
    decreases |candidates|
  {
    if |candidates| > 0 {
      var init, c := candidates[..|candidates| - 1], candidates[|candidates| - 1];
      assert candidates == init + [c];
      CountWithinRun(init, n);
      ConfirmRunSnoc(0, init, c, n);
      var before := ConfirmRun(0, init, n);
      var fired := ConfirmRun(0, candidates, n).1;
      forall i | 0 <= i < |fired| && fired[i]
        ensures TrailingRun(candidates[..i + 1]) >= n
      {
        if i < |init| {
          assert candidates[..i + 1] == init[..i + 1];
        } else {
          assert candidates[..i + 1] == candidates;
        }
      }
    }
  }

  /** A run of at least `k` at the end means the last `k` frames are all candidates. */
  lemma {:induction false} TrailingRunAllCandidates(candidates: seq<bool>, k: nat)
    requires TrailingRun(candidates) >= k
    ensures k <= |candidates|
    ensures forall j :: |candidates| - k <= j < |candidates| ==> candidates[j]
    decreases |candidates|
  {
    if k > 0 {
      var init := candidates[..|candidates| - 1];
      TrailingRunAllCandidates(init, k - 1);
      forall j | |candidates| - k <= j < |candidates|
        ensures candidates[j]
      {
        if j < |candidates| - 1 {
          assert candidates[j] == init[j];
        }
      }
    }
  }

  /**
   * No touch without confirmation: started from zero, a counter that fires
   * on frame `i` saw `n` consecutive candidate frames ending at `i`.
   */
  lemma FireNeedsConsecutiveFrames(candidates: seq<bool>, n: nat, i: nat)
    requires i < |candidates| && ConfirmRun(0, candidates, n).1[i]
    ensures i + 1 >= n
    ensures forall j :: i + 1 - n <= j <= i ==> candidates[j]
  {
    CountWithinRun(candidates, n);
    var prefix := candidates[..i + 1];
    TrailingRunAllCandidates(prefix, n);
    forall j | i + 1 - n <= j <= i
      ensures candidates[j]
    {
      assert prefix[j] == candidates[j];
    }
  }

  /**
   * The converse: from any count below `n`, `n - count` consecutive
   * candidate frames fire exactly on the last of them, and the counter is
   * back at zero.
   */
  lemma {:induction false} ConsecutiveFramesFire(count: nat, k: nat, n: nat)
    requires count + k == n && k >= 1
    ensures var run := ConfirmRun(count, Repeat(true, k), n);
      && run.0 == 0
      && run.1 == Repeat(false, k - 1) + [true]
    decreases k
  {
    if k > 1 {
      ConsecutiveFramesFire(count + 1, k - 1, n);
      assert Repeat(true, k)[1..] == Repeat(true, k - 1);
      assert [false] + Repeat(false, k - 2) + [true] == Repeat(false, k - 1) + [true];
    }
  }

  /**
   * One frame short of confirmation followed by a non-candidate frame
   * gives no touch and leaves the counter at zero.
   */
  lemma {:induction false} ShortRunThenResetIsSilent(count: nat, k: nat, n: nat)
    requires count + k < n
    ensures var run := ConfirmRun(count, Repeat(true, k) + [false], n);
      run.0 == 0 && run.1 == Repeat(false, k + 1)
    decreases k
  {
    if k > 0 {
      ShortRunThenResetIsSilent(count + 1, k - 1, n);
      assert (Repeat(true, k) + [false])[1..] == Repeat(true, k - 1) + [false];
    }
  }

  function Repeat(b: bool, k: nat): (r: seq<bool>)
    ensures |r| == k && forall j :: 0 <= j < k ==> r[j] == b
    decreases k
  {
    if k == 0 then [] else [b] + Repeat(b, k - 1)
  }

  // ---------------------------------------------------------------- frame step

  /** A frame the detector can read: at least 13 landmarks, both tips with a depth. */
  predicate Readable(landmarks: Option<seq<Landmark>>)
  {
    landmarks.Some? && |landmarks.value| > MiddleTip
    && landmarks.value[IndexTip].z.Some? && landmarks.value[MiddleTip].z.Some?
  }

  /** The outputs after a frame, and the touch it detected, if any. */
  datatype Frame = Frame(state: TouchState, detected: Option<TouchType>)

  /**
   * One detector frame. An unreadable frame only clears the outputs.
   * Otherwise the depths are made absolute, the velocities are the change
   * from the previous depths (kept when there are none), each finger is
   * tested against the thresholds, the index counter runs, the middle
   * counter runs only when the index did not fire, and the outputs latch.
   */
  function Step(s: TouchState, landmarks: Option<seq<Landmark>>, t: Thresholds): (r: Frame)
    ensures !Readable(landmarks) ==> r.detected.None? && !r.state.isTouching && r.state.touchType.None?
    ensures r.detected.Some? ==> r.state.isTouching && r.state.touchType == r.detected && r.state.wasTouching
    ensures r.state.isTouching && !s.isTouching ==> r.detected.Some?
  {
    if !Readable(landmarks) then
      Frame(s.(isTouching := false, touchType := None), None)
    else
      var indexZ := Abs(landmarks.value[IndexTip].z.value);
      var middleZ := Abs(landmarks.value[MiddleTip].z.value);
      var velocity :=
        if s.lastZ.Some? then Depths(Abs(indexZ - s.lastZ.value.index), Abs(middleZ - s.lastZ.value.middle))
        else s.velocity;
      var isIndex := indexZ < t.zThreshold && velocity.index > t.velocityThreshold;
      var isMiddle := middleZ < t.zThreshold && velocity.middle > t.velocityThreshold;
      var index := Confirm(s.indexCount, isIndex, t.confirmationFrames);
      var middle := Confirm(s.middleCount, isMiddle && !index.fired, t.confirmationFrames);
      var detected := if index.fired then Some(Index) else if middle.fired then Some(Middle) else None;
      var counted := s.(lastZ := Some(Depths(indexZ, middleZ)), velocity := velocity,
                        indexCount := index.count, middleCount := middle.count);
      var latched :=
        if detected.Some? then counted.(isTouching := true, touchType := detected, wasTouching := true)
        else if !isIndex && !isMiddle && s.wasTouching then counted.(isTouching := false, touchType := None, wasTouching := false)
        else counted;
      Frame(latched, detected)
  }

  /** Whether a readable frame makes the index (resp. middle) finger a candidate, given the state before it. */
  predicate IndexCandidate(s: TouchState, landmarks: Option<seq<Landmark>>, t: Thresholds)
    requires Readable(landmarks)
  {
    var z := Abs(landmarks.value[IndexTip].z.value);
    z < t.zThreshold && (if s.lastZ.Some? then Abs(z - s.lastZ.value.index) else s.velocity.index) > t.velocityThreshold
  }

  predicate MiddleCandidate(s: TouchState, landmarks: Option<seq<Landmark>>, t: Thresholds)
    requires Readable(landmarks)
  {
    var z := Abs(landmarks.value[MiddleTip].z.value);
    z < t.zThreshold && (if s.lastZ.Some? then Abs(z - s.lastZ.value.middle) else s.velocity.middle) > t.velocityThreshold
  }

  /** An unreadable frame clears the outputs and touches nothing else. */
  lemma UnreadableClears(s: TouchState, landmarks: Option<seq<Landmark>>, t: Thresholds)
    requires !Readable(landmarks)
    ensures var r := Step(s, landmarks, t);
      && !r.state.isTouching && r.state.touchType.None? && r.detected.None?
      && r.state.lastZ == s.lastZ && r.state.velocity == s.velocity
      && r.state.indexCount == s.indexCount && r.state.middleCount == s.middleCount
      && r.state.wasTouching == s.wasTouching
  {
  }

  /**
   * Depth bookkeeping on a readable frame: the new last depths are the
   * absolute tip depths; the velocities are the absolute changes when there
   * were previous depths, and are kept (zero at first) otherwise.
   */
  lemma DepthsTracked(s: TouchState, landmarks: Option<seq<Landmark>>, t: Thresholds)
    requires Readable(landmarks)
    ensures var r := Step(s, landmarks, t).state;
      var iz, mz := Abs(landmarks.value[IndexTip].z.value), Abs(landmarks.value[MiddleTip].z.value);
      && r.lastZ == Some(Depths(iz, mz))
      && (s.lastZ.Some? ==> r.velocity == Depths(Abs(iz - s.lastZ.value.index), Abs(mz - s.lastZ.value.middle)))
      && (s.lastZ.None? ==> r.velocity == s.velocity)
  {
  }

  /**
   * The counters on a readable frame: the index counter follows `Confirm`
   * on the index candidacy; the middle counter follows `Confirm` on the
   * middle candidacy gated by the index not firing, so a frame where the
   * index fires resets the middle counter.
   */
  lemma CountersFollowCandidacy(s: TouchState, landmarks: Option<seq<Landmark>>, t: Thresholds)
    requires Readable(landmarks)
    ensures var r := Step(s, landmarks, t);
      var index := Confirm(s.indexCount, IndexCandidate(s, landmarks, t), t.confirmationFrames);
      var middle := Confirm(s.middleCount, MiddleCandidate(s, landmarks, t) && !index.fired, t.confirmationFrames);
      && r.state.indexCount == index.count && r.state.middleCount == middle.count
      && (index.fired ==> r.state.middleCount == 0)
      && (r.detected == Some(Index) <==> index.fired)
      && (r.detected == Some(Middle) <==> middle.fired)
  {
  }

  /**
   * The latch: a detection sets the outputs to that touch; with neither
   * finger a candidate and a touch latched, the outputs clear; otherwise
   * they stay as they were.
   */
  lemma OutputsLatch(s: TouchState, landmarks: Option<seq<Landmark>>, t: Thresholds)
    requires Readable(landmarks)
    ensures var r := Step(s, landmarks, t);
      var quiet := !IndexCandidate(s, landmarks, t) && !MiddleCandidate(s, landmarks, t);
      && (r.detected.Some? ==> r.state.isTouching && r.state.touchType == r.detected && r.state.wasTouching)
      && (r.detected.None? && quiet && s.wasTouching ==>
            !r.state.isTouching && r.state.touchType.None? && !r.state.wasTouching)
      && (r.detected.None? && !(quiet && s.wasTouching) ==>
            r.state.isTouching == s.isTouching && r.state.touchType == s.touchType && r.state.wasTouching == s.wasTouching)
  {
  }

  /**
   * The detector's invariant: the type is present exactly while touching,
   * a touch is always remembered as latched, and with at least one
   * confirmation frame required both counters stay below it.
   */
  predicate Consistent(s: TouchState, t: Thresholds)
  {
    && (s.isTouching <==> s.touchType.Some?)
    && (s.isTouching ==> s.wasTouching)
    && (t.confirmationFrames >= 1 ==> s.indexCount < t.confirmationFrames && s.middleCount < t.confirmationFrames)
  }

  lemma InitialConsistent(t: Thresholds)
    requires t.confirmationFrames >= 1
    ensures Consistent(Initial(), t)
  {
  }

  lemma StepKeepsConsistent(s: TouchState, landmarks: Option<seq<Landmark>>, t: Thresholds)
    requires Consistent(s, t)
    ensures Consistent(Step(s, landmarks, t).state, t)
  {
  }

  /**
   * The tracker publishes records without landmarks, so every frame the
   * detector reads from a tracked record is unreadable: it clears the
   * outputs and never detects a touch, whatever the tracker was given.
   */
  lemma TrackedRecordsNeverTouch(s: TouchState, current: HandData, hands: seq<seq<Landmark>>,
                                 innerWidth: real, innerHeight: real, t: Thresholds)
    requires current.landmarks.None?
    ensures var record := PointerTracking.NextHandData(current, hands, innerWidth, innerHeight);
      var r := Step(s, record.landmarks, t);
      r.detected.None? && !r.state.isTouching && r.state.touchType.None?
  {
    var record := PointerTracking.NextHandData(current, hands, innerWidth, innerHeight);
    assert record.landmarks.None?;
    UnreadableClears(s, record.landmarks, t);
  }

  /** Grid mode switched off: the outputs clear and the remembered depths and counters stay. */
  function GridModeOff(s: TouchState): (r: TouchState)
    ensures !r.isTouching && r.touchType.None?
    ensures r.lastZ == s.lastZ && r.velocity == s.velocity && r.wasTouching == s.wasTouching
    ensures r.indexCount == s.indexCount && r.middleCount == s.middleCount
  {
    s.(isTouching := false, touchType := None)
  }

  /**
   * The detector object: the refs and the two outputs as fields, one
   * method per frame and one for grid mode switching off.
   */
  class TouchDetector {
    const thresholds: Thresholds
    var lastZ: Option<Depths>
    var velocity: Depths
    var indexCount: nat
    var middleCount: nat
    var wasTouching: bool
    var isTouching: bool
    var touchType: Option<TouchType>

    function State(): TouchState
      reads this
    {
      TouchState(lastZ, velocity, indexCount, middleCount, wasTouching, isTouching, touchType)
    }

    constructor (t: Thresholds)
      ensures thresholds == t && State() == Initial()
    {
      thresholds := t;
      lastZ := None;
      velocity := Depths(0.0, 0.0);
      indexCount, middleCount := 0, 0;
      wasTouching, isTouching, touchType := false, false, None;
    }

    /** One animation frame reading the shared hand record's landmarks. */
    method DetectTouch(landmarks: Option<seq<Landmark>>)
      modifies this
      ensures State() == Step(old(State()), landmarks, thresholds).state
    {
      if !Readable(landmarks) {
        isTouching := false;
        touchType := None;
        return;
      }
      var indexZ := Abs(landmarks.value[IndexTip].z.value);
      var middleZ := Abs(landmarks.value[MiddleTip].z.value);
      if lastZ.Some? {
        velocity := Depths(Abs(indexZ - lastZ.value.index), Abs(middleZ - lastZ.value.middle));
      }
      lastZ := Some(Depths(indexZ, middleZ));

      var isIndexTouching := indexZ < thresholds.zThreshold && velocity.index > thresholds.velocityThreshold;
      var isMiddleTouching := middleZ < thresholds.zThreshold && velocity.middle > thresholds.velocityThreshold;

      var detectedTouch: Option<TouchType> := None;
      if isIndexTouching {
        indexCount := indexCount + 1;
        if indexCount >= thresholds.confirmationFrames {
          detectedTouch := Some(Index);
          indexCount := 0;
        }
      } else {
        indexCount := 0;
      }
      if isMiddleTouching && detectedTouch.None? {
        middleCount := middleCount + 1;
        if middleCount >= thresholds.confirmationFrames {
          detectedTouch := Some(Middle);
          middleCount := 0;
        }
      } else {
        middleCount := 0;
      }

      if detectedTouch.Some? {
        isTouching := true;
        touchType := detectedTouch;
        wasTouching := true;
      } else if !isIndexTouching && !isMiddleTouching {
        if wasTouching {
          isTouching := false;
          touchType := None;
          wasTouching := false;
        }
      }
    }

    /** The grid-mode effect's early exit: outputs cleared, refs untouched. */
    method SwitchOffGridMode()
      modifies this
      ensures State() == GridModeOff(old(State()))
    {
      isTouching := false;
      touchType := None;
    }
  }
}
