/** The spin controller: `spin` and the `animate` callback it schedules, as
    an explicit Idle/Spinning state and pure transition functions. The
    frame scheduler is not modelled: each call of `Step` is one animation
    frame, given the frame's timestamp. */
module SpinControl {
  import opened Wrappers
  import opened Angles

  /** `extraSpins`: full turns added to every spin. */
  const ExtraSpins: nat := 5

  /** `animationDuration`, in the timestamp's unit (milliseconds). */
  const Duration: real := 5000.0

  /** `isSpinning`, together with the running animation's `startTime`, which
      is unset until the first frame. */
  datatype Phase = Idle | Spinning(startTime: Option<real>)

  /** `isSpinning`, `currentRotation` and `targetRotation`. */
  datatype SpinState = SpinState(phase: Phase, current: real, target: real)

  /** The state when the page loads. */
  const Initial: SpinState := SpinState(Idle, 0.0, 0.0)

  /** While a spin runs, the wheel has not passed its target. */
  predicate Inv(s: SpinState)
  {
    s.phase.Spinning? ==> s.current <= s.target
  }

  /** `spin()` with `random` the value `Math.random()` returned. The call is
      ignored while spinning or with fewer than two options; otherwise a new
      session starts whose target is five full turns plus a random part of a
      turn ahead. */
  function Spin(s: SpinState, optionCount: nat, random: real): (r: SpinState)
    requires 0.0 <= random < 1.0
    ensures s.phase.Spinning? || optionCount < 2 ==> r == s
    ensures s.phase.Idle? && optionCount >= 2 ==>
      && r.phase == Spinning(None)
      && r.current == s.current
      && 10.0 * Pi <= r.target - r.current < 12.0 * Pi
    ensures Inv(s) ==> Inv(r)
  {
    if s.phase.Spinning? || optionCount < 2 then s
    else
      var randomSlice := random * TwoPi;
      SpinState(Spinning(None), s.current, s.current + TwoPi * (ExtraSpins as real) + randomSlice)
  }

  /** A second `spin()` while the first session runs changes nothing, so at
      most one session is ever active. */
  lemma SpinIgnoredWhileSpinning(s: SpinState, optionCount: nat, random1: real, random2: real)
    requires 0.0 <= random1 < 1.0 && 0.0 <= random2 < 1.0
    ensures Spin(Spin(s, optionCount, random1), optionCount, random2) == Spin(s, optionCount, random1)
  {
  }

  /** The part of a turn beyond the five full ones is `random` of a turn, so
      the random draw can be read back from the target. */
  lemma SpinOffsetIsRandomTurn(s: SpinState, optionCount: nat, random: real)
    requires 0.0 <= random < 1.0
    requires s.phase.Idle? && optionCount >= 2
    ensures var r := Spin(s, optionCount, random);
      (r.target - r.current) / TwoPi - (ExtraSpins as real) == random
  {
    var r := Spin(s, optionCount, random);
    assert r.target - r.current == TwoPi * ((ExtraSpins as real) + random);
  }

  /** `if (!startTime) startTime = currentTime`: the first frame fixes the
      session's start. A stored start of 0 is falsy in JavaScript, so it is
      replaced by the next frame's timestamp as well. */
  function SessionStart(startTime: Option<real>, now: real): (t: real)
    ensures startTime.Some? && startTime.value != 0.0 ==> t == startTime.value
    ensures startTime.None? || startTime.value == 0.0 ==> t == now
  {
    if startTime.None? || startTime.value == 0.0 then now else startTime.value
  }

  /** `Math.min(elapsed / animationDuration, 1)`: never above 1, not negative
      for a frame no earlier than the start, exactly 1 once the duration has
      elapsed, and the elapsed fraction before that. */
  function Progress(start: real, now: real): (p: real)
    ensures p <= 1.0
    ensures start <= now ==> 0.0 <= p
    ensures p == 1.0 <==> now - start >= Duration
    ensures p < 1.0 ==> p * Duration == now - start
  {
    var fraction := (now - start) / Duration;
    if fraction < 1.0 then fraction else 1.0
  }

  function Cube(x: real): real
  {
    x * x * x
  }

  /** `1 - Math.pow(1 - progress, 3)`, the cubic ease-out. On [0, 1] it
      stays in [0, 1], starts at 0 and reaches 1 exactly at 1; it is never
      above 1 for any progress `Progress` can produce. */
  function EaseOut(p: real): (e: real)
    ensures p <= 1.0 ==> e <= 1.0
    ensures 0.0 <= p <= 1.0 ==> 0.0 <= e
    ensures 0.0 <= p <= 1.0 ==> (e == 1.0 <==> p == 1.0)
    ensures p == 0.0 ==> e == 0.0
  {
    CubeBounds(1.0 - p);
    1.0 - Cube(1.0 - p)
  }

  /** The cube of a non-negative real is non-negative, zero only at zero,
      and at most 1 on [0, 1]. */
  lemma CubeBounds(q: real)
    ensures 0.0 <= q ==> 0.0 <= Cube(q)
    ensures 0.0 < q ==> 0.0 < Cube(q)
    ensures 0.0 <= q <= 1.0 ==> Cube(q) <= 1.0
    ensures Cube(q) == 1.0 && 0.0 <= q <= 1.0 ==> q == 1.0
  {
    if 0.0 < q {
      assert 0.0 < q * q;
    }
    if 0.0 <= q <= 1.0 {
      assert q * q <= 1.0;
      if q < 1.0 {
        assert q * q <= q;
        assert q * q * q <= q * q;
      }
    }
  }

  /** Cubes of non-negative reals keep their order. */
  lemma CubeMonotonic(x: real, y: real)
    requires 0.0 <= x <= y
    ensures Cube(x) <= Cube(y)
  {
    assert x * x <= y * y by {
      assert x * x <= x * y;
      assert x * y <= y * y;
    }
    assert x * x * x <= y * y * x;
    assert y * y * x <= y * y * y;
  }

  /** The later the frame, the further the ease-out has gone. */
  lemma EaseOutMonotonic(p: real, q: real)
    requires p <= q <= 1.0
    ensures EaseOut(p) <= EaseOut(q)
  {
    CubeMonotonic(1.0 - q, 1.0 - p);
  }

  /** The frame's timestamp is not before the session's recorded start. */
  predicate FrameInOrder(s: SpinState, now: real)
  {
    s.phase.Spinning? ==> s.phase.startTime.None? || s.phase.startTime.value <= now
  }

  /** One call of `animate(now)`. The rotation moves the eased fraction of the
      remaining way to the target; when progress reaches 1 the session ends. */
  function Step(s: SpinState, now: real): (r: SpinState)
    requires s.phase.Spinning?
    ensures r.target == s.target
    ensures Inv(s) ==> Inv(r)
    ensures Inv(s) && FrameInOrder(s, now) ==> s.current <= r.current <= s.target
    ensures r.phase.Idle? <==> now - SessionStart(s.phase.startTime, now) >= Duration
    ensures r.phase.Idle? ==> r.current == s.target
    ensures r.phase.Spinning? ==> r.phase.startTime == Some(SessionStart(s.phase.startTime, now))
  {
    var start := SessionStart(s.phase.startTime, now);
    var progress := Progress(start, now);
    var eased := EaseOut(progress);
    var remaining := s.target - s.current;
    var current := s.current + remaining * eased;
    ScaledBetween(remaining, eased);
    if progress < 1.0 then SpinState(Spinning(Some(start)), current, s.target)
    else SpinState(Idle, current, s.target)
  }

  /** A non-negative distance scaled by at most 1 is at most that distance,
      and by a non-negative factor is non-negative. */
  lemma ScaledBetween(d: real, e: real)
    ensures 0.0 <= d && e <= 1.0 ==> d * e <= d
    ensures 0.0 <= d && 0.0 <= e ==> 0.0 <= d * e
  {
    if 0.0 <= d && e <= 1.0 {
      assert d * e <= d * 1.0;
    }
  }

  /** The rotation approaches the target geometrically: after a frame at
      progress p only `(1 - p)^3` of the remaining distance is left. */
  lemma RemainingDistance(s: SpinState, now: real)
    requires s.phase.Spinning?
    ensures var p := Progress(SessionStart(s.phase.startTime, now), now);
      s.target - Step(s, now).current == (s.target - s.current) * Cube(1.0 - p)
  {
  }

  /** The animation from `s` through the frames at `frames`: frames after the
      session has ended have no callback to run. */
  function RunFrames(s: SpinState, frames: seq<real>): SpinState
    decreases |frames|
  {
    if frames == [] || s.phase.Idle? then s else RunFrames(Step(s, frames[0]), frames[1..])
  }

  predicate Ascending(frames: seq<real>)
  {
    forall i, j :: 0 <= i <= j < |frames| ==> frames[i] <= frames[j]
  }

  /** Over frames with non-decreasing timestamps the rotation only moves
      forward, never passes the target, and the target stays fixed. */
  lemma {:induction false} RunFramesBounded(s: SpinState, frames: seq<real>)
    requires Inv(s) && Ascending(frames)
    requires frames != [] ==> FrameInOrder(s, frames[0])
    ensures var r := RunFrames(s, frames);
      && Inv(r) && r.target == s.target
      && (s.phase.Spinning? ==> s.current <= r.current <= s.target)
    decreases |frames|
  {
    if frames != [] && s.phase.Spinning? {
      var next := Step(s, frames[0]);
      if |frames| > 1 {
        assert frames[0] <= frames[1];
      }
      RunFramesBounded(next, frames[1..]);
    }
  }

  /** Once a frame arrives `Duration` after the first one, the session is over
      and the wheel rests exactly on its target. The first timestamp must be
      non-zero, since a zero start is re-taken at the next frame. */
  lemma {:induction false} RunFramesFinishes(s: SpinState, frames: seq<real>)
    requires s.phase.Spinning? && frames != [] && Ascending(frames)
    requires SessionStart(s.phase.startTime, frames[0]) != 0.0
    requires frames[|frames| - 1] - SessionStart(s.phase.startTime, frames[0]) >= Duration
    ensures RunFrames(s, frames) == SpinState(Idle, s.target, s.target)
    decreases |frames|
  {
    var start := SessionStart(s.phase.startTime, frames[0]);
    var next := Step(s, frames[0]);
    if next.phase.Spinning? {
      assert |frames| > 1;
      assert frames[1..][|frames| - 2] == frames[|frames| - 1];
      RunFramesFinishes(next, frames[1..]);
    }
  }
}
