/**
 * What one frame does, phase by phase, as functions of the state before
 * the phase: the queued animations that finish, where the head lands when
 * they do, the body copied from a running animation, the snake a new game
 * starts with, and the key codes the game listens to.
 */
module Phases {
  import opened Geometry
  import opened Field
  import opened Animations
  import opened Movement
  import opened Rules

  // ---------------------------------------------------------------- keys

  /** What a key code means to the game. */
  datatype Key = Arrow(d: Direction) | Space | Other

  /** w/W/up-arrow, s/S/down-arrow, d/D/right-arrow, a/A/left-arrow, space; the rest is ignored. */
  function KeyOf(code: int): (k: Key)
    ensures k == Arrow(Up) <==> code in {119, 87, 38}
    ensures k == Arrow(Down) <==> code in {115, 83, 40}
    ensures k == Arrow(Right) <==> code in {100, 68, 39}
    ensures k == Arrow(Left) <==> code in {97, 65, 37}
    ensures k == Space <==> code == 32
  {
    if code == 119 || code == 87 || code == 38 then Arrow(Up)
    else if code == 115 || code == 83 || code == 40 then Arrow(Down)
    else if code == 100 || code == 68 || code == 39 then Arrow(Right)
    else if code == 97 || code == 65 || code == 37 then Arrow(Left)
    else if code == 32 then Space
    else Other
  }

  // ------------------------------------------------------ starting snake

  /** Anchor of the head of a new snake: the cell nearest the centre of the field. */
  const StartX: int := FieldWidth / 2 / BoxWidth * BoxWidth
  const StartY: int := FieldHeight / 2 / BoxHeight * BoxHeight

  /** The first n segments of a new snake, laid out to the right of the centre cell. */
  function StartingSnake(n: nat): (s: seq<int>)
    ensures |s| == BoxLen * n
  {
    if n == 0 then [] else StartingSnake(n - 1) + CreateBox(StartX + (n - 1) * BoxWidth, StartY, BoxWidth, BoxHeight)
  }

  /** The source's loop that lays out a new snake, one segment to the right at a time. */
  method LayOutSnake(n: nat) returns (s: seq<int>)
    ensures s == StartingSnake(n)
  {
    s := [];
    var i := 0;
    while i < n
      invariant 0 <= i <= n
      invariant s == StartingSnake(i)
    {
      s := s + CreateBox(StartX + i * BoxWidth, StartY, BoxWidth, BoxHeight);
      i := i + 1;
    }
  }

  /**
   * Up to eight segments fit to the right of the centre: each is the cell
   * k steps right of the centre, and all of them lie inside the field.
   */
  lemma {:induction false} StartingSnakeCells(n: nat)
    requires n <= GridWidth / 2
    ensures Segments(StartingSnake(n))
    ensures forall k :: 0 <= k < n ==>
              Chunk(StartingSnake(n), k) == CreateBox(StartX + k * BoxWidth, StartY, BoxWidth, BoxHeight)
  {
    if n > 0 {
      StartingSnakeCells(n - 1);
      var prev := StartingSnake(n - 1);
      StartingStep(prev, n);
      assert StartingSnake(n)
             == prev + CreateBox(StartX + (n - 1) * BoxWidth, StartY, BoxWidth, BoxHeight);
    }
  }

  /** Appending the next cell right of the centre to the first n - 1 cells keeps the layout. */
  lemma StartingStep(prev: seq<int>, n: int)
    requires 1 <= n <= GridWidth / 2 && |prev| == BoxLen * (n - 1) && Segments(prev)
    requires forall k :: 0 <= k < n - 1 ==>
               Chunk(prev, k) == CreateBox(StartX + k * BoxWidth, StartY, BoxWidth, BoxHeight)
    ensures Segments(prev + CreateBox(StartX + (n - 1) * BoxWidth, StartY, BoxWidth, BoxHeight))
    ensures forall k :: 0 <= k < n ==>
              Chunk(prev + CreateBox(StartX + (n - 1) * BoxWidth, StartY, BoxWidth, BoxHeight), k)
              == CreateBox(StartX + k * BoxWidth, StartY, BoxWidth, BoxHeight)
  {
    var cell := CreateBox(StartX + (n - 1) * BoxWidth, StartY, BoxWidth, BoxHeight);
    assert |prev| / BoxLen == n - 1;
    StartingCell(n - 1);
    SegmentsOfCell(cell);
    SegmentsAppend(prev, cell);
    forall k | 0 <= k < n
      ensures Chunk(prev + cell, k) == CreateBox(StartX + k * BoxWidth, StartY, BoxWidth, BoxHeight)
    {
      ChunkAppend(prev, cell, k);
      if k == n - 1 {
        assert Chunk(cell, 0) == cell;
      }
    }
  }

  /** The i-th cell right of the centre is an in-field cell while i < 8. */
  lemma StartingCell(i: int)
    requires 0 <= i < GridWidth / 2
    ensures GridCell(CreateBox(StartX + i * BoxWidth, StartY, BoxWidth, BoxHeight))
  {
    assert StartX + i * BoxWidth == BoxWidth * (8 + i);
  }

  /** A new game: four segments, head at the centre cell, score 0, no self-collision. */
  lemma NewSnake()
    ensures |StartingSnake(StartingLen)| == StartingLen * BoxLen
    ensures Segments(StartingSnake(StartingLen))
    ensures StartingSnake(StartingLen)[0] == 640 && StartingSnake(StartingLen)[1] == 400
    ensures Score(StartingSnake(StartingLen)) == 0
    ensures !SelfCollision(StartingSnake(StartingLen))
  {
    StartingSnakeOfFour(StartingLen);
  }

  /**
   * NewSnake's facts for a length that is not a literal. This lemma exists only
   * to keep verification cheap: with the literal the verifier unfolds StartingSnake four times.
   */
  lemma StartingSnakeOfFour(n: nat)
    requires n == StartingLen
    ensures |StartingSnake(n)| == StartingLen * BoxLen
    ensures Segments(StartingSnake(n))
    ensures StartingSnake(n)[0] == 640 && StartingSnake(n)[1] == 400
    ensures Score(StartingSnake(n)) == 0
    ensures !SelfCollision(StartingSnake(n))
  {
    var s := StartingSnake(n);
    StartingSnakeCells(n);
    assert Chunk(s, 0)[0] == s[0] && Chunk(s, 0)[1] == s[1];
    assert Chunk(s, 3)[0] == 880 && Chunk(s, 3)[1] == 400;
    assert !HeadHits(s, 3);
  }

  // ---------------------------------------------------------- animations

  /** `end` holds the start's head moved one step in some direction. */
  ghost predicate HeadStep(start: seq<int>, end: seq<int>)
    requires |start| >= 2 && |end| >= BoxLen
  {
    exists d: Direction :: end[..BoxLen] == CreateBox(start[0] + DeltaX(d), start[1] + DeltaY(d), BoxWidth, BoxHeight)
  }

  /**
   * An animation that a key action queued for a snake of at most `len`
   * numbers: it starts from a snake of grid cells, ends with the head one
   * step further and a body of grid cells, and both positions have the same
   * length.
   */
  ghost predicate AnimationFits(a: Animation, len: int)
  {
    Segments(a.startPosition) && BoxLen <= |a.startPosition| <= len
    && |a.endPosition| == |a.startPosition|
    && Segments(a.endPosition[BoxLen..])
    && HeadStep(a.startPosition, a.endPosition)
  }

  /** The animation a key action queues fits the snake it was made from. */
  lemma FreshFits(snake: seq<int>, key: Direction, now: int)
    requires Segments(snake) && |snake| >= BoxLen
    ensures AnimationFits(Fresh(now, snake, Target(snake, key)), |snake|)
  {
    var n := |snake| - BoxLen;
    DropBlock(|snake|);
    SegmentsSlice(snake, 0, n);
    assert snake[0..n] == snake[..n];
    var t := Target(snake, key);
    TargetParts(snake, key);
    HeadStepBy(snake, t, key);
    var a := Fresh(now, snake, t);
    assert a.startPosition == snake && a.endPosition == t;
  }

  /** A head moved one step in direction d is a head step. */
  lemma HeadStepBy(start: seq<int>, end: seq<int>, d: Direction)
    requires |start| >= 2 && |end| >= BoxLen
    requires end[..BoxLen] == CreateBox(start[0] + DeltaX(d), start[1] + DeltaY(d), BoxWidth, BoxHeight)
    ensures HeadStep(start, end)
  {
  }

  /** The target is the moved head followed by the snake without its last segment. */
  lemma TargetParts(snake: seq<int>, key: Direction)
    requires Segments(snake) && |snake| >= BoxLen
    ensures Target(snake, key)[..BoxLen]
            == CreateBox(snake[0] + DeltaX(key), snake[1] + DeltaY(key), BoxWidth, BoxHeight)
    ensures Target(snake, key)[BoxLen..] == snake[..|snake| - BoxLen]
  {
    var t := Target(snake, key);
    var h := HeadMovement(snake, key);
    HeadMovementBox(snake, key);
    assert t == h[..BoxLen] + snake[..|snake| - BoxLen];
  }

  /** The animations that are still running at `now`, in queue order. */
  function Survivors(anims: seq<Animation>, now: int): (r: seq<Animation>)
    ensures |r| <= |anims|
    ensures forall a :: a in r <==> a in anims && !Done(a, now)
    decreases |anims|
  {
    if |anims| == 0 then []
    else
      var init, last := anims[..|anims| - 1], anims[|anims| - 1];
      assert anims == init + [last];
      Survivors(init, now) + (if Done(last, now) then [] else [last])
  }

  /**
   * Retiring distributes over a split of the queue: the running animations
   * keep their queue order.
   */
  lemma {:induction false} SurvivorsAppend(front: seq<Animation>, back: seq<Animation>, now: int)
    ensures Survivors(front + back, now) == Survivors(front, now) + Survivors(back, now)
    decreases |back|
  {
    if |back| == 0 {
      assert front + back == front;
    } else {
      var init, last := back[..|back| - 1], back[|back| - 1];
      var x, y, tail := Survivors(front, now), Survivors(init, now), if Done(last, now) then [] else [last];
      calc {
        Survivors(front + back, now);
        { assert front + back == (front + init) + [last]; SurvivorsSnoc(front + init, last, now); }
        Survivors(front + init, now) + tail;
        { SurvivorsAppend(front, init, now); }
        (x + y) + tail;
        x + (y + tail);
        { assert back == init + [last]; SurvivorsSnoc(init, last, now); }
        x + Survivors(back, now);
      }
    }
  }

  /** One more animation at the back of the queue is kept exactly when it is still running. */
  lemma SurvivorsSnoc(init: seq<Animation>, last: Animation, now: int)
    ensures Survivors(init + [last], now) == Survivors(init, now) + if Done(last, now) then [] else [last]
  {
    var all := init + [last];
    assert all[..|all| - 1] == init && all[|all| - 1] == last;
  }

  /** Every end position has at least a head. */
  ghost predicate HaveHeads(anims: seq<Animation>)
  {
    forall a :: a in anims ==> |a.endPosition| >= BoxLen
  }

  /** The head after the finished animations, in order, have each put their end head in place and wrapped it. */
  function RetiredHead(anims: seq<Animation>, now: int, head: seq<int>): (r: seq<int>)
    requires HaveHeads(anims)
    ensures |head| == BoxLen ==> |r| == BoxLen
    decreases |anims|
  {
    if |anims| == 0 then head
    else
      var init, last := anims[..|anims| - 1], anims[|anims| - 1];
      if Done(last, now) then Relocated(last.endPosition[..BoxLen]) else RetiredHead(init, now, head)
  }

  /** The slivers the finished animations' heads add to the render buffer. */
  function RetireSlivers(anims: seq<Animation>, now: int): seq<int>
    requires HaveHeads(anims)
    decreases |anims|
  {
    if |anims| == 0 then []
    else
      var init, last := anims[..|anims| - 1], anims[|anims| - 1];
      RetireSlivers(init, now) + (if Done(last, now) then Slivers(last.endPosition[0], last.endPosition[1]) else [])
  }

  /** A head that has stepped one cell from an in-field cell wraps back onto an in-field cell. */
  lemma StepWrapsIntoField(start: seq<int>, end: seq<int>)
    requires |start| >= BoxLen && GridCell(start[..BoxLen]) && |end| >= BoxLen && HeadStep(start, end)
    ensures GridCell(Relocated(end[..BoxLen]))
  {
    var d :| end[..BoxLen] == CreateBox(start[0] + DeltaX(d), start[1] + DeltaY(d), BoxWidth, BoxHeight);
    var x, y := start[0] + DeltaX(d), start[1] + DeltaY(d);
    assert start[..BoxLen][0] == start[0] && start[..BoxLen][1] == start[1];
    assert InField(start[0], start[1]);
    StepStaysOnGrid(start[0], DeltaX(d));
    StepStaysOnGrid(start[1], DeltaY(d));
    assert DeltaX(d) == 0 || DeltaY(d) == 0;
    assert NearField(x, y);
    RelocatedIsTorus(x, y);
  }

  /** A grid coordinate moved by at most one cell is still a grid coordinate. */
  lemma StepStaysOnGrid(v: int, delta: int)
    requires v % BoxWidth == 0 && (delta == 0 || delta == BoxWidth || delta == -BoxWidth)
    ensures (v + delta) % BoxWidth == 0
  {
    var q := v / BoxWidth;
    assert v == BoxWidth * q;
    assert v + delta == BoxWidth * (q + delta / BoxWidth);
  }

  /** Whatever finishes, the head stays a cell inside the field. */
  lemma {:induction false} RetiredHeadInField(anims: seq<Animation>, now: int, head: seq<int>, len: int)
    requires forall a :: a in anims ==> AnimationFits(a, len)
    requires GridCell(head)
    ensures HaveHeads(anims)
    ensures GridCell(RetiredHead(anims, now, head))
    decreases |anims|
  {
    if |anims| > 0 {
      var init, last := anims[..|anims| - 1], anims[|anims| - 1];
      assert forall a :: a in init ==> a in anims;
      RetiredHeadInField(init, now, head, len);
      assert AnimationFits(last, len);
      assert Chunk(last.startPosition, 0) == last.startPosition[..BoxLen];
      StepWrapsIntoField(last.startPosition, last.endPosition);
    }
  }

  /**
   * One running animation drawn over the snake's end position: the head is
   * put at the cell its interpolation moves toward and the body, up to the
   * animation's length, is taken from the animation's end position; a tail
   * grown since the animation started is kept.
   */
  function Overlay(e: seq<int>, a: Animation): (r: seq<int>)
    requires BoxLen <= |a.startPosition| <= |e| && |a.endPosition| == |a.startPosition|
    ensures |r| == |e|
  {
    a.endPosition + e[|a.startPosition|..]
  }

  /** The animations all fit a snake of length `len`. */
  ghost predicate FitAll(anims: seq<Animation>, len: int)
  {
    forall a :: a in anims ==> BoxLen <= |a.startPosition| <= len && |a.endPosition| == |a.startPosition|
  }

  /** The end position after every running animation has been drawn over `e`, in queue order. */
  function Overlays(anims: seq<Animation>, now: int, e: seq<int>): (r: seq<int>)
    requires FitAll(anims, |e|)
    ensures |r| == |e|
    decreases |anims|
  {
    if |anims| == 0 then e
    else
      var init, last := anims[..|anims| - 1], anims[|anims| - 1];
      assert forall a :: a in init ==> a in anims;
      var p := Overlays(init, now, e);
      if Done(last, now) then p else Overlay(p, last)
  }

  /** The body tiles the running animations push to the render buffer, in queue order. */
  function OverlayRender(anims: seq<Animation>, now: int): seq<int>
    requires HaveHeads(anims)
    decreases |anims|
  {
    if |anims| == 0 then []
    else
      var init, last := anims[..|anims| - 1], anims[|anims| - 1];
      assert forall a :: a in init ==> a in anims;
      OverlayRender(init, now) + (if Done(last, now) then [] else last.endPosition[BoxLen..])
  }

  /**
   * A snake whose body is grid cells and whose head, which may have stepped
   * one cell past an edge, wraps back onto a cell inside the field.
   */
  ghost predicate WrapsToSegments(s: seq<int>)
  {
    |s| >= BoxLen && Segments(s[BoxLen..]) && GridCell(Relocated(s[..BoxLen]))
  }

  /** A snake of grid cells is one whose head wraps onto itself. */
  lemma SegmentsWrap(e: seq<int>)
    requires Segments(e) && |e| >= BoxLen
    ensures WrapsToSegments(e)
  {
    SegmentsSlice(e, BoxLen, |e|);
    assert e[BoxLen..|e|] == e[BoxLen..];
    assert Chunk(e, 0) == e[..BoxLen];
    GridCellStays(e[..BoxLen]);
  }

  /** A running animation drawn over a snake whose head wraps into the field leaves such a snake. */
  lemma OverlayWraps(e: seq<int>, a: Animation)
    requires WrapsToSegments(e) && |e| % BoxLen == 0 && AnimationFits(a, |e|)
    ensures WrapsToSegments(Overlay(e, a))
  {
    var n := |a.startPosition|;
    var r := Overlay(e, a);
    assert Chunk(a.startPosition, 0) == a.startPosition[..BoxLen];
    StepWrapsIntoField(a.startPosition, a.endPosition);
    assert r[..BoxLen] == a.endPosition[..BoxLen];
    var body := e[BoxLen..];
    DropBlock(n);
    SegmentsSlice(body, n - BoxLen, |body|);
    var rest := body[n - BoxLen..|body|];
    assert rest == e[n..];
    SegmentsAppend(a.endPosition[BoxLen..], rest);
    assert r[BoxLen..] == a.endPosition[BoxLen..] + rest;
  }

  /** However many animations run, the end position is a snake whose head wraps into the field. */
  lemma {:induction false} OverlaysWrap(anims: seq<Animation>, now: int, e: seq<int>)
    requires Segments(e) && |e| >= BoxLen
    requires forall a :: a in anims ==> AnimationFits(a, |e|)
    ensures FitAll(anims, |e|)
    ensures WrapsToSegments(Overlays(anims, now, e))
    decreases |anims|
  {
    if |anims| == 0 {
      SegmentsWrap(e);
    } else {
      var init, last := anims[..|anims| - 1], anims[|anims| - 1];
      assert forall a :: a in init ==> a in anims;
      OverlaysWrap(init, now, e);
      assert AnimationFits(last, |e|);
      if !Done(last, now) {
        OverlayWraps(Overlays(init, now, e), last);
      }
    }
  }

  /** Wrapping such a snake relocates its head only, and leaves a snake of in-field cells. */
  lemma WrapLands(s: seq<int>)
    requires WrapsToSegments(s) && |s| % BoxLen == 0
    ensures RelocatedAll(s) == Relocated(s[..BoxLen]) + s[BoxLen..]
    ensures Segments(RelocatedAll(s))
  {
    RelocatedAllKeepsSegments(s[BoxLen..]);
    SegmentsOfCell(Relocated(s[..BoxLen]));
    SegmentsAppend(Relocated(s[..BoxLen]), s[BoxLen..]);
  }

  /** A head cell in front of the rest of a snake of grid cells is a snake of grid cells. */
  lemma NewHead(head: seq<int>, snake: seq<int>)
    requires GridCell(head) && Segments(snake) && |snake| >= BoxLen
    ensures Segments(head + snake[BoxLen..])
  {
    SegmentsOfCell(head);
    SegmentsSlice(snake, BoxLen, |snake|);
    assert snake[BoxLen..|snake|] == snake[BoxLen..];
    SegmentsAppend(head, snake[BoxLen..]);
  }

  // ---------------------------------------------------------- key action

  /**
   * The direction and queue after a key action: nothing happens while an
   * animation is queued or when the key reverses the current direction;
   * otherwise the key becomes the direction and a move animation is queued.
   */
  function KeyAction(direction: Direction, anims: seq<Animation>, snake: seq<int>, key: Direction, now: int)
    : (r: (Direction, seq<Animation>))
    requires |snake| % BoxLen == 0 && |snake| >= BoxLen
    ensures anims != [] || direction == Opposite(key) ==> r == (direction, anims)
    ensures anims == [] && direction != Opposite(key) ==>
              r.0 == key && |r.1| == 1 && !Done(r.1[0], now) && !r.1[0].isPaused
              && r.1[0].startPosition == snake && r.1[0].endPosition == Target(snake, key)
  {
    if anims != [] || direction == Opposite(key) then (direction, anims)
    else (key, [Fresh(now, snake, Target(snake, key))])
  }

  /**
   * A key that is not the reverse of the direction keeps the key and
   * direction consistent, the queue at most one long, every queued
   * animation fitting the snake and every new one running.
   */
  lemma KeyActionKeeps(direction: Direction, anims: seq<Animation>, snake: seq<int>, key: Direction, now: int)
    requires Segments(snake) && |snake| >= BoxLen
    requires key != Opposite(direction) && |anims| <= 1
    requires forall a :: a in anims ==> AnimationFits(a, |snake|)
    ensures var (d, q) := KeyAction(direction, anims, snake, key, now);
            key != Opposite(d) && |q| <= 1
            && (forall a :: a in q ==> AnimationFits(a, |snake|))
            && (forall a :: a in q && a !in anims ==> !a.isPaused)
            && (anims == [] ==> d == key && q == [Fresh(now, snake, Target(snake, key))])
            && (anims != [] ==> d == direction && q == anims)
  {
    OppositeInvolutive(key);
    OppositeInvolutive(direction);
    FreshFits(snake, key, now);
  }

  // ---------------------------------------------------------- one frame

  /**
   * The snake, direction and queue after the retain pass and the key action
   * of a frame: finished animations put their end head in place, and the
   * pending key acts on the animations still running.
   */
  function Settled(snake: seq<int>, anims: seq<Animation>, direction: Direction, key: Direction, now: int)
    : (r: (seq<int>, Direction, seq<Animation>))
    requires |snake| % BoxLen == 0 && |snake| >= BoxLen && FitAll(anims, |snake|)
    ensures |r.0| == |snake| && FitAll(r.2, |snake|)
  {
    var s := RetiredHead(anims, now, snake[..BoxLen]) + snake[BoxLen..];
    var (d, q) := KeyAction(direction, Survivors(anims, now), s, key, now);
    (s, d, q)
  }

  /**
   * A frame after the collision test and the apple: the snake settles, then
   * every running animation is drawn over it and every block is wrapped.
   */
  function Framed(snake: seq<int>, anims: seq<Animation>, direction: Direction, key: Direction, now: int)
    : (r: (seq<int>, Direction, seq<Animation>))
    requires |snake| % BoxLen == 0 && |snake| >= BoxLen && FitAll(anims, |snake|)
    ensures |r.0| == |snake|
  {
    var (s, d, q) := Settled(snake, anims, direction, key, now);
    (RelocatedAll(Overlays(q, now, s)), d, q)
  }

  /** A frame after the collision test: the apple test, then the rest of the frame. */
  function FrameFrom(snake: seq<int>, apple: Option<(int, int)>, anims: seq<Animation>,
                     direction: Direction, key: Direction, now: int): (r: (seq<int>, Direction, seq<Animation>))
    requires |snake| % BoxLen == 0 && |snake| >= BoxLen && FitAll(anims, |snake|)
    ensures |r.0| == |Eaten(snake, apple)|
  {
    var fed := Eaten(snake, apple);
    Framed(fed, anims, direction, key, now)
  }

  /** The same frame for a new game: four segments, nothing queued, heading left. */
  function RestartFrame(apple: Option<(int, int)>, now: int): (r: (seq<int>, Direction, seq<Animation>))
  {
    FrameFrom(StartingSnake(StartingLen), apple, [], Left, Left, now)
  }

  /**
   * A frame whose queue runs empty already shows the snake at the pending
   * key's target, wrapped: a target whose head lands on segment 3 or later
   * is a self-collision the next frame reports.
   */
  lemma MoveShowsTarget(snake: seq<int>, anims: seq<Animation>, direction: Direction, key: Direction, now: int)
    requires Segments(snake) && |snake| >= BoxLen
    requires forall a :: a in anims ==> AnimationFits(a, |snake|)
    requires Survivors(anims, now) == [] && key != Opposite(direction)
    ensures FitAll(anims, |snake|)
    ensures var s := Settled(snake, anims, direction, key, now).0;
            Framed(snake, anims, direction, key, now).0 == RelocatedAll(Target(s, key))
            && (SelfCollision(Target(s, key)) ==> SelfCollision(Framed(snake, anims, direction, key, now).0))
  {
    OverlaysWrap(anims, now, snake);
    assert Chunk(snake, 0) == snake[..BoxLen];
    RetiredHeadInField(anims, now, snake[..BoxLen], |snake|);
    var s := RetiredHead(anims, now, snake[..BoxLen]) + snake[BoxLen..];
    NewHead(RetiredHead(anims, now, snake[..BoxLen]), snake);
    assert Settled(snake, anims, direction, key, now).0 == s;
    var t := Target(s, key);
    var a := Fresh(now, s, t);
    assert Settled(snake, anims, direction, key, now).2 == [a];
    OverlayOfOne(a, now, s);
    assert Overlays([a], now, s) == t;
    if SelfCollision(t) {
      TargetCollisionInField(s, key);
    }
  }

  /** One running animation drawn over the snake it started from gives its end position. */
  lemma OverlayOfOne(a: Animation, now: int, s: seq<int>)
    requires BoxLen <= |a.startPosition| == |s| && |a.endPosition| == |a.startPosition| && !Done(a, now)
    ensures FitAll([a], |s|) && Overlays([a], now, s) == a.endPosition
  {
    assert [a][..0] == [];
    assert a.endPosition + s[|s|..] == a.endPosition;
  }

  /**
   * A target that collides has its head on a segment's cell, inside the
   * field, so wrapping leaves it as it is.
   */
  lemma TargetCollisionInField(s: seq<int>, key: Direction)
    requires Segments(s) && |s| >= BoxLen && SelfCollision(Target(s, key))
    ensures Segments(Target(s, key)) && RelocatedAll(Target(s, key)) == Target(s, key)
  {
    var t := Target(s, key);
    var h := t[..BoxLen];
    TargetHeadInField(s, key);
    FreshFits(s, key, 0);
    SegmentsOfCell(h);
    SegmentsAppend(h, t[BoxLen..]);
    assert t == h + t[BoxLen..];
    RelocatedAllKeepsSegments(t);
  }

  /** A target whose head hits one of its segments has its head on that segment's in-field cell. */
  lemma TargetHeadInField(s: seq<int>, key: Direction)
    requires Segments(s) && |s| >= BoxLen && SelfCollision(Target(s, key))
    ensures GridCell(Target(s, key)[..BoxLen])
  {
    var t := Target(s, key);
    var k :| 3 <= k < |t| / BoxLen && HeadHits(t, k);
    TargetParts(s, key);
    HeadAnchorOnGrid(s);
    MovedChunks(s, HeadMovement(s, key), k);
    assert GridCell(Chunk(s, k - 1));
    CollidingHeadInField(s[0], s[1], key, t, k);
  }

  /** A head one step from a grid anchor that hits an in-field cell sits on that cell. */
  lemma CollidingHeadInField(x: int, y: int, key: Direction, t: seq<int>, k: int)
    requires x % BoxWidth == 0 && y % BoxHeight == 0
    requires |t| >= BoxLen && t[..BoxLen] == CreateBox(x + DeltaX(key), y + DeltaY(key), BoxWidth, BoxHeight)
    requires 1 <= k && BoxLen * k + BoxLen <= |t| && HeadHits(t, k)
    requires GridCell(Chunk(t, k))
    ensures GridCell(t[..BoxLen])
  {
    SteppedCellOnGrid(x, y, key, t[..BoxLen]);
    GridCollisionIsSameCell(t[..BoxLen], Chunk(t, k));
  }

  /** A cell one step from a grid anchor is a cell anchored on the grid, possibly outside the field. */
  lemma SteppedCellOnGrid(x: int, y: int, key: Direction, h: seq<int>)
    requires x % BoxWidth == 0 && y % BoxHeight == 0
    requires h == CreateBox(x + DeltaX(key), y + DeltaY(key), BoxWidth, BoxHeight)
    ensures IsCell(h) && h[0] % BoxWidth == 0 && h[1] % BoxHeight == 0
  {
    StepStaysOnGrid(x, DeltaX(key));
    StepStaysOnGrid(y, DeltaY(key));
  }

  /**
   * The copy loop of a running animation: every number of the body, from
   * the second segment up to the animation's length, is pushed to the render
   * buffer and written over the end position.
   */
  method CopyBody(a: Animation, render: seq<int>, e: seq<int>) returns (rendered: seq<int>, r: seq<int>)
    requires BoxLen <= |a.startPosition| <= |e| && |a.endPosition| == |a.startPosition|
    ensures rendered == render + a.endPosition[BoxLen..]
    ensures r == e[..BoxLen] + a.endPosition[BoxLen..] + e[|a.startPosition|..]
  {
    rendered, r := render, e;
    var i := BoxLen;
    while i < |a.startPosition|
      invariant BoxLen <= i <= |a.startPosition|
      invariant rendered == render + a.endPosition[BoxLen..i]
      invariant |r| == |e|
      invariant forall j :: 0 <= j < |e| ==> r[j] == if BoxLen <= j < i then a.endPosition[j] else e[j]
    {
      assert a.endPosition[BoxLen..i + 1] == a.endPosition[BoxLen..i] + [a.endPosition[i]];
      rendered := rendered + [a.endPosition[i]];
      r := r[i := a.endPosition[i]];
      i := i + 1;
    }
    assert a.endPosition[BoxLen..i] == a.endPosition[BoxLen..];
  }

  /** One more animation of the queue drawn over the end position and the render buffer. */
  lemma OverlaysStep(q: seq<Animation>, i: int, now: int, e: seq<int>)
    requires 0 <= i < |q| && FitAll(q, |e|)
    ensures FitAll(q[..i], |e|) && FitAll(q[..i + 1], |e|)
    ensures HaveHeads(q[..i]) && HaveHeads(q[..i + 1])
    ensures BoxLen <= |q[i].startPosition| <= |e| && |q[i].endPosition| == |q[i].startPosition|
    ensures Overlays(q[..i + 1], now, e)
            == if Done(q[i], now) then Overlays(q[..i], now, e) else Overlay(Overlays(q[..i], now, e), q[i])
    ensures OverlayRender(q[..i + 1], now)
            == OverlayRender(q[..i], now) + if Done(q[i], now) then [] else q[i].endPosition[BoxLen..]
  {
    assert q[..i + 1][..i] == q[..i] && q[..i + 1][i] == q[i];
    assert q[i] in q;
    assert forall a :: a in q[..i + 1] ==> a in q;
  }

  /** One more animation of the queue retired. */
  lemma RetireStep(q: seq<Animation>, i: int, now: int, head: seq<int>)
    requires 0 <= i < |q| && HaveHeads(q)
    ensures HaveHeads(q[..i]) && HaveHeads(q[..i + 1]) && |q[i].endPosition| >= BoxLen
    ensures Survivors(q[..i + 1], now) == Survivors(q[..i], now) + if Done(q[i], now) then [] else [q[i]]
    ensures RetiredHead(q[..i + 1], now, head)
            == if Done(q[i], now) then Relocated(q[i].endPosition[..BoxLen]) else RetiredHead(q[..i], now, head)
    ensures RetireSlivers(q[..i + 1], now)
            == RetireSlivers(q[..i], now) + if Done(q[i], now) then Slivers(q[i].endPosition[0], q[i].endPosition[1]) else []
  {
    assert q[..i + 1][..i] == q[..i] && q[..i + 1][i] == q[i];
    assert q[i] in q;
    assert forall a :: a in q[..i + 1] ==> a in q;
  }

  /**
   * The retain pass over the queue: a finished animation puts its end head
   * on the snake and wraps it; a running one is kept.
   */
  method Retire(queue: seq<Animation>, snake: seq<int>, now: int, render: seq<int>)
    returns (kept: seq<Animation>, current: seq<int>, rendered: seq<int>)
    requires |snake| >= BoxLen && HaveHeads(queue)
    ensures kept == Survivors(queue, now)
    ensures current == RetiredHead(queue, now, snake[..BoxLen]) + snake[BoxLen..]
    ensures rendered == render + RetireSlivers(queue, now)
  {
    kept, current, rendered := [], snake, render;
    var i := 0;
    while i < |queue|
      invariant 0 <= i <= |queue|
      invariant HaveHeads(queue[..i])
      invariant kept == Survivors(queue[..i], now)
      invariant current == RetiredHead(queue[..i], now, snake[..BoxLen]) + snake[BoxLen..]
      invariant rendered == render + RetireSlivers(queue[..i], now)
    {
      var a := queue[i];
      RetireStep(queue, i, now, snake[..BoxLen]);
      if Done(a, now) {
        var head;
        head, rendered := ExceedsScreenEdge(a.endPosition[..BoxLen], rendered);
        AppendAssoc(render, RetireSlivers(queue[..i], now), Slivers(a.endPosition[0], a.endPosition[1]));
        assert current[BoxLen..] == snake[BoxLen..];
        current := head + current[BoxLen..];
      } else {
        kept := kept + [a];
      }
      i := i + 1;
    }
    assert queue[..i] == queue;
  }

  /**
   * The drawing pass over the queue: every running animation puts the
   * head at its end cell and copies its body over the end position and to
   * the render buffer.
   */
  method DrawRunning(queue: seq<Animation>, snake: seq<int>, now: int, render: seq<int>)
    returns (endPosition: seq<int>, rendered: seq<int>)
    requires FitAll(queue, |snake|)
    ensures endPosition == Overlays(queue, now, snake)
    ensures rendered == render + OverlayRender(queue, now)
  {
    endPosition, rendered := snake, render;
    var i := 0;
    while i < |queue|
      invariant 0 <= i <= |queue|
      invariant FitAll(queue[..i], |snake|) && HaveHeads(queue[..i])
      invariant endPosition == Overlays(queue[..i], now, snake)
      invariant rendered == render + OverlayRender(queue[..i], now)
    {
      var a := queue[i];
      OverlaysStep(queue, i, now, snake);
      if !Done(a, now) {
        AppendAssoc(render, OverlayRender(queue[..i], now), a.endPosition[BoxLen..]);
        endPosition, rendered := DrawOne(a, endPosition, rendered);
      }
      i := i + 1;
    }
    assert queue[..i] == queue;
  }

  /** One running animation drawn: the head at its end cell, then the body copied. */
  method DrawOne(a: Animation, e: seq<int>, render: seq<int>) returns (r: seq<int>, rendered: seq<int>)
    requires BoxLen <= |a.startPosition| <= |e| && |a.endPosition| == |a.startPosition|
    ensures r == Overlay(e, a)
    ensures rendered == render + a.endPosition[BoxLen..]
  {
    // the head is put where its interpolation ends: the steps in between are not modelled
    r := a.endPosition[..BoxLen] + e[BoxLen..];
    HeadThenBody(e, a);
    rendered, r := CopyBody(a, render, r);
  }

  /** Setting the end head and then copying the body gives the overlay. */
  lemma HeadThenBody(e: seq<int>, a: Animation)
    requires BoxLen <= |a.startPosition| <= |e| && |a.endPosition| == |a.startPosition|
    ensures var h := a.endPosition[..BoxLen] + e[BoxLen..];
            |h| == |e| && h[..BoxLen] + a.endPosition[BoxLen..] + h[|a.startPosition|..] == Overlay(e, a)
  {
    var h := a.endPosition[..BoxLen] + e[BoxLen..];
    assert h[..BoxLen] == a.endPosition[..BoxLen];
    assert h[|a.startPosition|..] == e[|a.startPosition|..];
    assert a.endPosition[..BoxLen] + a.endPosition[BoxLen..] == a.endPosition;
  }

  /** Pausing or resuming animations leaves their positions, so each still fits the snake. */
  lemma SamePositionsFit(before: seq<Animation>, after: seq<Animation>, len: int)
    requires |after| == |before|
    requires forall i :: 0 <= i < |after| ==>
               after[i].startPosition == before[i].startPosition && after[i].endPosition == before[i].endPosition
    requires forall a :: a in before ==> AnimationFits(a, len)
    ensures forall a :: a in after ==> AnimationFits(a, len)
  {
    forall a | a in after
      ensures AnimationFits(a, len)
    {
      var i :| 0 <= i < |after| && after[i] == a;
      assert before[i] in before;
    }
  }
}
