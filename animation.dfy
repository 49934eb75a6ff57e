/**
 * The animation clock of one move: when it started, how long it lasts,
 * the snake before and after the move, and the pause bookkeeping.
 * The wall clock is a parameter `now` (milliseconds).
 */
module Animations {

  datatype Animation = Animation(
    startTime: int,
    duration: int,
    startPosition: seq<int>,
    endPosition: seq<int>,
    isPaused: bool,
    pauseStartTime: int,
    pauseEndTime: int)

  /** Every move animation lasts this many milliseconds. */
  const AnimationDuration: int := 200

  /** Time the animation has run at `now`: wall time minus the recorded pause span. */
  function Elapsed(a: Animation, now: int): (t: int)
    ensures a.pauseEndTime == a.pauseStartTime ==> t == now - a.startTime
  {
    var pauseDuration := a.pauseEndTime - a.pauseStartTime;
    now - pauseDuration - a.startTime
  }

  /** Finished: the elapsed time has reached the duration. */
  predicate Done(a: Animation, now: int)
    ensures a.pauseEndTime == a.pauseStartTime ==> (Done(a, now) <==> now >= a.startTime + a.duration)
  {
    Elapsed(a, now) >= a.duration
  }

  /** Elapsed time follows the wall clock, so a finished animation stays finished. */
  lemma DoneStaysDone(a: Animation, now: int, later: int)
    requires now <= later
    ensures Elapsed(a, later) == Elapsed(a, now) + (later - now)
    ensures Done(a, now) ==> Done(a, later)
  {
  }

  /**
   * Pausing marks the animation paused; the pause start is recorded only if
   * none was recorded before (the field is still 0).  Pausing a paused
   * animation changes nothing.
   */
  function Pause(a: Animation, now: int): (r: Animation)
    ensures r.isPaused
    ensures a.isPaused ==> r == a
    ensures !a.isPaused ==> r.pauseStartTime == (if a.pauseStartTime == 0 then now else a.pauseStartTime)
    ensures r.startTime == a.startTime && r.duration == a.duration && r.pauseEndTime == a.pauseEndTime
    ensures r.startPosition == a.startPosition && r.endPosition == a.endPosition
  {
    if a.isPaused then a
    else
      var started := if a.pauseStartTime == 0 then now else a.pauseStartTime;
      a.(pauseStartTime := started, isPaused := true)
  }

  /** Unpausing records the pause end; unpausing a running animation changes nothing. */
  function Unpause(a: Animation, now: int): (r: Animation)
    ensures !r.isPaused
    ensures !a.isPaused ==> r == a
    ensures a.isPaused ==> r.pauseEndTime == now
    ensures r.startTime == a.startTime && r.duration == a.duration && r.pauseStartTime == a.pauseStartTime
    ensures r.startPosition == a.startPosition && r.endPosition == a.endPosition
  {
    if !a.isPaused then a else a.(pauseEndTime := now, isPaused := false)
  }

  /** The animation a key action creates: running, no pause recorded. */
  function Fresh(now: int, startPosition: seq<int>, endPosition: seq<int>): (a: Animation)
    ensures !a.isPaused && a.duration == AnimationDuration
    ensures forall t :: Elapsed(a, t) == t - now
  {
    Animation(now, AnimationDuration, startPosition, endPosition, false, 0, 0)
  }

  lemma PauseIdempotent(a: Animation, t1: int, t2: int)
    ensures Pause(Pause(a, t1), t2) == Pause(a, t1)
  {
  }

  /**
   * One pause at t0 followed by one unpause at t1: the animation runs as if
   * the interval [t0, t1] had not happened.
   */
  lemma PauseThenUnpause(a: Animation, t0: int, t1: int, t: int)
    requires !a.isPaused && a.pauseStartTime == 0 && a.pauseEndTime == 0
    ensures Elapsed(Unpause(Pause(a, t0), t1), t) == (t - a.startTime) - (t1 - t0)
    ensures Done(Unpause(Pause(a, t0), t1), t) <==> (t - a.startTime) - (t1 - t0) >= a.duration
  {
    var p := Pause(a, t0);
    assert p.pauseStartTime == t0;
    var u := Unpause(p, t1);
    assert u.pauseEndTime == t1 && u.pauseStartTime == t0;
  }

  /**
   * A second pause keeps the first pause start, so after pausing at t0,
   * resuming at t1, pausing at t2 and resuming at t3 the whole span
   * [t0, t3] counts as paused, including the running interval [t1, t2].
   */
  lemma SecondPauseKeepsFirstStart(a: Animation, t0: int, t1: int, t2: int, t3: int, t: int)
    requires !a.isPaused && a.pauseStartTime == 0 && a.pauseEndTime == 0 && t0 != 0
    ensures Elapsed(Unpause(Pause(Unpause(Pause(a, t0), t1), t2), t3), t) == (t - a.startTime) - (t3 - t0)
  {
    var p := Pause(a, t0);
    assert p.pauseStartTime == t0;
    var u := Unpause(p, t1);
    var p2 := Pause(u, t2);
    assert p2.pauseStartTime == t0;
    var u2 := Unpause(p2, t3);
    assert u2.pauseEndTime == t3;
  }

  /** The loop that pauses every queued animation, in place. */
  method PauseEach(animations: seq<Animation>, now: int) returns (r: seq<Animation>)
    ensures |r| == |animations|
    ensures forall i :: 0 <= i < |r| ==> r[i] == Pause(animations[i], now)
  {
    r := animations;
    var i := 0;
    while i < |r|
      invariant 0 <= i <= |r| == |animations|
      invariant forall j :: 0 <= j < i ==> r[j] == Pause(animations[j], now)
      invariant forall j :: i <= j < |r| ==> r[j] == animations[j]
    {
      r := r[i := Pause(r[i], now)];
      i := i + 1;
    }
  }

  /** The loop that unpauses every queued animation, in place. */
  method UnpauseEach(animations: seq<Animation>, now: int) returns (r: seq<Animation>)
    ensures |r| == |animations|
    ensures forall i :: 0 <= i < |r| ==> r[i] == Unpause(animations[i], now)
  {
    r := animations;
    var i := 0;
    while i < |r|
      invariant 0 <= i <= |r| == |animations|
      invariant forall j :: 0 <= j < i ==> r[j] == Unpause(animations[j], now)
      invariant forall j :: i <= j < |r| ==> r[j] == animations[j]
    {
      r := r[i := Unpause(r[i], now)];
      i := i + 1;
    }
  }
}
