/**
 * The game's global state and the operations that change it: starting a
 * game, a key press, the action a key starts, and one animation frame.
 *
 * The wall clock (`now`, milliseconds) and the random number that picks
 * the apple (`seed`) are parameters.  The page callbacks the game notifies
 * are recorded, in order, in `events`.
 */
module Game {
  import opened Geometry
  import opened Field
  import opened Animations
  import opened Movement
  import opened Rules
  import opened Spawner
  import opened Phases

  /** The page callbacks: game over and scored carry the score. */
  datatype Notification = GameOver(score: int) | Scored(score: int) | ClearScreen | PauseScreen

  /** What the page is told when a new game's snake reaches the apple in its first frame. */
  function RestartNotices(apple: Option<(int, int)>): seq<Notification>
  {
    var start := StartingSnake(StartingLen);
    if AteApple(start, apple) then [Scored(Score(Grown(start)))] else []
  }

  /** The apple a new game starts its first frame with, after its snake's eating test. */
  function RestartApple(apple: Option<(int, int)>): Option<(int, int)>
  {
    Uneaten(StartingSnake(StartingLen), apple)
  }

  class Game {
    var snake: seq<int>
    var apple: Option<(int, int)>
    var direction: Direction
    var keys: seq<Direction>
    var paused: bool
    var gameOver: bool
    var animations: seq<Animation>
    var events: seq<Notification>
    /** The apple spawner found no free cell; the frame loop has stopped. */
    var panicked: bool

    /**
     * Between events: exactly one pending key, never the reverse of the
     * direction; at most one queued animation, fitting the snake and paused
     * only while the game is; a snake of at least four in-field cells; an
     * apple, if any, on an in-field cell.
     */
    ghost predicate Valid()
      reads this
    {
      |keys| == 1 && keys[0] != Opposite(direction)
      && |animations| <= 1
      && (forall a :: a in animations ==> AnimationFits(a, |snake|))
      && (forall a :: a in animations && a.isPaused ==> paused)
      && Segments(snake) && |snake| >= StartingLen * BoxLen
      && (apple.Some? ==> InField(apple.value.0, apple.value.1))
      && !gameOver
    }

    /** Page load: an empty context, then a new game, paused. */
    constructor ()
      ensures Valid()
      ensures snake == StartingSnake(StartingLen) && apple == None
      ensures paused && animations == [] && keys == [Left] && direction == Left
      ensures events == [] && !panicked
    {
      snake := [];
      apple := None;
      direction := Left;
      keys := [];
      paused := true;
      gameOver := false;
      animations := [];
      events := [];
      panicked := false;
      new;
      InitiateGame();
      NewSnake();
    }

    /** A new game: paused, nothing queued, heading left, the four-segment snake; the apple stays. */
    method InitiateGame()
      modifies this
      ensures snake == StartingSnake(StartingLen)
      ensures paused && !gameOver && animations == [] && keys == [Left] && direction == Left
      ensures apple == old(apple) && events == old(events) && panicked == old(panicked)
    {
      paused := true;
      gameOver := false;
      animations := [];
      keys := [Left];
      direction := Left;
      snake := LayOutSnake(StartingLen);
    }

    /**
     * A key press: an arrow that does not reverse the direction replaces the
     * pending key unless that key is already on the same axis; space toggles
     * the pause, notifies the page and pauses or resumes every animation.
     */
    method KeyPressEvent(code: int, now: int)
      requires Valid()
      modifies this
      ensures Valid()
      ensures snake == old(snake) && apple == old(apple) && direction == old(direction)
      ensures panicked == old(panicked)
      ensures KeyOf(code).Arrow? ==>
                var d := KeyOf(code).d;
                keys == (if old(direction) != Opposite(d) && d !in old(keys) && Opposite(d) !in old(keys)
                         then [d] else old(keys))
                && paused == old(paused) && animations == old(animations) && events == old(events)
      ensures KeyOf(code) == Space ==>
                paused == !old(paused) && keys == old(keys) && |animations| == |old(animations)|
                && (old(paused) ==>
                      events == old(events) + [ClearScreen]
                      && forall i :: 0 <= i < |animations| ==> animations[i] == Unpause(old(animations)[i], now))
                && (!old(paused) ==>
                      events == old(events) + [PauseScreen]
                      && forall i :: 0 <= i < |animations| ==> animations[i] == Pause(old(animations)[i], now))
      ensures KeyOf(code) == Other ==> unchanged(this)
    {
      match KeyOf(code) {
        case Arrow(d) =>
          if direction == Opposite(d) {
            return;
          }
          if d !in keys && Opposite(d) !in keys {
            keys := [d];
            OppositeInvolutive(d);
          }
        case Space =>
          TogglePause(now);
        case Other =>
      }
    }

    /** The space key: toggles the pause, notifies the page and pauses or resumes every animation. */
    method TogglePause(now: int)
      requires Valid()
      modifies this
      ensures Valid()
      ensures snake == old(snake) && apple == old(apple) && direction == old(direction) && keys == old(keys)
      ensures panicked == old(panicked)
      ensures paused == !old(paused) && |animations| == |old(animations)|
      ensures old(paused) ==>
                events == old(events) + [ClearScreen]
                && forall i :: 0 <= i < |animations| ==> animations[i] == Unpause(old(animations)[i], now)
      ensures !old(paused) ==>
                events == old(events) + [PauseScreen]
                && forall i :: 0 <= i < |animations| ==> animations[i] == Pause(old(animations)[i], now)
    {
      var previouslyPaused := paused;
      paused := !paused;
      var before := animations;
      var after;
      if previouslyPaused {
        events := events + [ClearScreen];
        after := UnpauseEach(before, now);
      } else {
        events := events + [PauseScreen];
        after := PauseEach(before, now);
      }
      SamePositionsFit(before, after, |snake|);
      animations := after;
    }

    /** One key action: see KeyAction. */
    method HandleKeyAction(key: Direction, now: int)
      requires |snake| % BoxLen == 0 && |snake| >= BoxLen
      modifies this
      ensures (direction, animations) == KeyAction(old(direction), old(animations), old(snake), key, now)
      ensures snake == old(snake) && keys == old(keys) && paused == old(paused) && apple == old(apple)
      ensures events == old(events) && panicked == old(panicked) && gameOver == old(gameOver)
    {
      if |animations| > 0 || direction == Opposite(key) {
        return;
      }
      var endPosition: seq<int>;
      match key {
        case Up => endPosition := ShiftAxis(snake[..BoxLen], 1, Step);
        case Down => endPosition := ShiftAxis(snake, 1, -Step);
        case Left => endPosition := ShiftAxis(snake, 0, -Step);
        case Right => endPosition := ShiftAxis(snake, 0, Step);
      }
      assert endPosition == HeadMovement(snake, key);
      var resultingPosition := MoveSnake(snake, endPosition);
      assert resultingPosition == Target(snake, key);
      assert animations == [];
      direction := key;
      animations := animations + [Fresh(now, snake, resultingPosition)];
      assert direction == KeyAction(old(direction), old(animations), old(snake), key, now).0;
      assert animations == KeyAction(old(direction), old(animations), old(snake), key, now).1;
    }

    /** The frame's pass over the pending keys (there is always exactly one). */
    method ApplyKeys(now: int)
      requires |keys| == 1 && |snake| % BoxLen == 0 && |snake| >= BoxLen
      modifies this
      ensures (direction, animations) == KeyAction(old(direction), old(animations), old(snake), old(keys)[0], now)
      ensures snake == old(snake) && keys == old(keys) && paused == old(paused) && apple == old(apple)
      ensures events == old(events) && panicked == old(panicked) && gameOver == old(gameOver)
    {
      var i := 0;
      while i < |keys|
        invariant 0 <= i <= 1
        invariant snake == old(snake) && keys == old(keys) && paused == old(paused) && apple == old(apple)
        invariant events == old(events) && panicked == old(panicked) && gameOver == old(gameOver)
        invariant i == 0 ==> direction == old(direction) && animations == old(animations)
        invariant i == 1 ==>
                    (direction, animations) == KeyAction(old(direction), old(animations), old(snake), old(keys)[0], now)
      {
        HandleKeyAction(keys[i], now);
        i := i + 1;
      }
    }

    /**
     * Retire the finished animations: each one puts its end head in place,
     * wraps it at the field's edges (slivers go to the render buffer) and
     * leaves the queue; the running ones stay, in order.
     */
    method RetireFinished(now: int, render: seq<int>) returns (rendered: seq<int>)
      requires |snake| >= BoxLen && HaveHeads(animations)
      modifies this
      ensures animations == Survivors(old(animations), now)
      ensures snake == RetiredHead(old(animations), now, old(snake)[..BoxLen]) + old(snake)[BoxLen..]
      ensures rendered == render + RetireSlivers(old(animations), now)
      ensures keys == old(keys) && direction == old(direction) && paused == old(paused) && apple == old(apple)
      ensures events == old(events) && panicked == old(panicked) && gameOver == old(gameOver)
    {
      var kept, current;
      kept, current, rendered := Retire(animations, snake, now, render);
      animations, snake := kept, current;
    }

    /**
     * Draw and settle the snake: every running animation sets the head to
     * its end cell and copies its body over the end position (and to the
     * render buffer); the snake before the frame is drawn; then every block
     * of the end position is wrapped at the field's edges.
     */
    method SnakeMovement(now: int, render: seq<int>) returns (rendered: seq<int>)
      requires |snake| % BoxLen == 0 && FitAll(animations, |snake|)
      modifies this
      ensures snake == RelocatedAll(Overlays(old(animations), now, old(snake)))
      ensures rendered == render + OverlayRender(old(animations), now) + old(snake)
                          + SliversAll(Overlays(old(animations), now, old(snake)))
      ensures animations == old(animations) && keys == old(keys) && direction == old(direction)
      ensures paused == old(paused) && apple == old(apple)
      ensures events == old(events) && panicked == old(panicked) && gameOver == old(gameOver)
    {
      var endPosition;
      endPosition, rendered := DrawRunning(animations, snake, now, render);
      rendered := rendered + snake;
      endPosition, rendered := WrapBlocks(endPosition, rendered);
      snake := endPosition;
    }

    /** With no apple on the field, put one on a free cell chosen by the seed; with none free, stop. */
    method SpawnApple(seed: nat)
      requires |snake| % BoxLen == 0
      modifies this
      ensures old(apple).Some? ==> apple == old(apple) && panicked == old(panicked)
      ensures old(apple).None? && Unoccupied(snake) == [] ==> apple == None && panicked
      ensures old(apple).None? && Unoccupied(snake) != [] ==>
                apple == Some(Unoccupied(snake)[seed % |Unoccupied(snake)|]) && panicked == old(panicked)
      ensures snake == old(snake) && animations == old(animations) && keys == old(keys)
      ensures direction == old(direction) && paused == old(paused)
      ensures events == old(events) && gameOver == old(gameOver)
      ensures old(apple).None? && apple.Some? ==> InField(apple.value.0, apple.value.1)
      ensures apple == Spawned(old(apple), snake, seed)
      ensures panicked == (old(panicked) || SpawnFails(old(apple), snake))
    {
      if apple.Some? {
        return;
      }
      BlocksAreVertices(|snake|);
      var unoccupied := ScanUnoccupied(snake);
      if |unoccupied| == 0 {
        panicked := true;
        return;
      }
      var position := seed % |unoccupied|;
      apple := Some(unoccupied[position]);
      UnoccupiedMembers(snake, apple.value.0, apple.value.1);
    }

    /** A self-collision notifies the page with the score and starts a new game. */
    method ResetOnCollision()
      requires Valid()
      modifies this
      ensures Valid()
      ensures SelfCollision(old(snake)) ==>
                events == old(events) + [GameOver(Score(old(snake)))]
                && snake == StartingSnake(StartingLen) && paused && animations == []
                && keys == [Left] && direction == Left && apple == old(apple) && panicked == old(panicked)
      ensures !SelfCollision(old(snake)) ==> unchanged(this)
    {
      var hit := Collisions(snake);
      if hit {
        gameOver := true;
        events := events + [GameOver(Score(snake))];
        InitiateGame();
        NewSnake();
      }
    }

    /** Eating the apple grows the snake by a copy of its tail, removes the apple and notifies the new score. */
    method EatApple()
      requires Valid()
      modifies this
      ensures Valid()
      ensures AteApple(old(snake), old(apple)) ==>
                snake == Grown(old(snake)) && apple == None && events == old(events) + [Scored(Score(snake))]
                && Score(snake) == Score(old(snake)) + 1
                && animations == old(animations) && keys == old(keys) && direction == old(direction)
                && paused == old(paused) && panicked == old(panicked)
      ensures !AteApple(old(snake), old(apple)) ==> unchanged(this)
    {
      if AteApple(snake, apple) {
        var n := |snake|;
        GrowthAddsTailCopy(snake);
        snake := snake + CreateBox(snake[n - BoxLen], snake[n - BoxLen + 1], BoxWidth, BoxHeight);
        apple := None;
        events := events + [Scored(Score(snake))];
        forall a | a in animations
          ensures AnimationFits(a, |snake|)
        {
          assert AnimationFits(a, |old(snake)|);
        }
      }
    }

    /**
     * The rest of a frame: finished animations retire, the pending key acts,
     * the snake moves and wraps, a missing apple is spawned, and the frame is
     * the render buffer followed by the apple's box.
     */
    method Advance(now: int, seed: nat) returns (frame: Option<seq<int>>)
      requires Valid() && !panicked
      modifies this
      ensures Valid()
      ensures (snake, direction, animations)
              == Framed(old(snake), old(animations), old(direction), old(keys)[0], now)
      ensures keys == old(keys) && events == old(events) && paused == old(paused)
      ensures apple == Spawned(old(apple), snake, seed) && panicked == SpawnFails(old(apple), snake)
      ensures frame == None ==> panicked && apple == None
      ensures frame.Some? ==>
                apple.Some? && |frame.value| >= BoxLen
                && frame.value[|frame.value| - BoxLen..] == CreateBox(apple.value.0, apple.value.1, BoxWidth, BoxHeight)
    {
      var render := SettleAndMove(now);
      SpawnApple(seed);
      frame := Compose(render);
    }

    /** The frame drawn: the render buffer followed by the apple's box; no frame without an apple. */
    method Compose(render: seq<int>) returns (frame: Option<seq<int>>)
      ensures apple.None? ==> frame == None
      ensures apple.Some? ==>
                frame == Some(render + CreateBox(apple.value.0, apple.value.1, BoxWidth, BoxHeight))
                && |frame.value| >= BoxLen
                && frame.value[|frame.value| - BoxLen..] == CreateBox(apple.value.0, apple.value.1, BoxWidth, BoxHeight)
    {
      if apple.None? {
        return None;
      }
      var box := CreateBox(apple.value.0, apple.value.1, BoxWidth, BoxHeight);
      frame := Some(render + box);
      assert frame.value[|frame.value| - BoxLen..] == box;
    }

    /** The snake part of a frame: settle, then move; the render buffer starts empty. */
    method SettleAndMove(now: int) returns (rendered: seq<int>)
      requires Valid()
      modifies this
      ensures Valid()
      ensures (snake, direction, animations)
              == Framed(old(snake), old(animations), old(direction), old(keys)[0], now)
      ensures keys == old(keys) && events == old(events) && paused == old(paused) && apple == old(apple)
      ensures panicked == old(panicked)
    {
      rendered := Settle(now, []);
      rendered := Move(now, rendered);
    }

    /** Finished animations retire and the pending key acts. */
    method Settle(now: int, render: seq<int>) returns (rendered: seq<int>)
      requires Valid()
      modifies this
      ensures Valid()
      ensures (snake, direction, animations)
              == Settled(old(snake), old(animations), old(direction), old(keys)[0], now)
      ensures keys == old(keys) && events == old(events) && paused == old(paused) && apple == old(apple) && panicked == old(panicked)
    {
      assert Chunk(snake, 0) == snake[..BoxLen];
      RetiredHeadInField(animations, now, snake[..BoxLen], |snake|);
      ghost var queued, beforeRetire := animations, snake;
      rendered := RetireFinished(now, render);
      NewHead(RetiredHead(queued, now, beforeRetire[..BoxLen]), beforeRetire);
      KeyActionKeeps(direction, animations, snake, keys[0], now);
      ApplyKeys(now);
    }

    /**
     * The snake moves and wraps: the running animations are drawn over it
     * and a head past an edge wraps, so it stays a snake of in-field cells of
     * the same length.
     */
    method Move(now: int, render: seq<int>) returns (rendered: seq<int>)
      requires Valid()
      modifies this
      ensures Valid()
      ensures snake == RelocatedAll(Overlays(old(animations), now, old(snake)))
      ensures snake == Relocated(Overlays(old(animations), now, old(snake))[..BoxLen])
                       + Overlays(old(animations), now, old(snake))[BoxLen..]
      ensures animations == old(animations) && direction == old(direction) && keys == old(keys)
      ensures events == old(events) && paused == old(paused) && apple == old(apple) && panicked == old(panicked)
    {
      OverlaysWrap(animations, now, snake);
      ghost var moved := Overlays(animations, now, snake);
      rendered := SnakeMovement(now, render);
      WrapLands(moved);
    }

    /**
     * One animation frame.  While paused (or after the spawner stopped the
     * loop) nothing happens.  Otherwise a self-collision ends the game and
     * starts a new one, paused, and the frame goes on with it; then the apple
     * is eaten if reached, and the rest of the frame follows.
     */
    method Tick(now: int, seed: nat) returns (frame: Option<seq<int>>)
      requires Valid()
      modifies this
      ensures Valid()
      ensures old(paused) || old(panicked) ==> frame == None && unchanged(this)
      ensures !old(paused) && !old(panicked) && frame == None ==> panicked && apple == None
      ensures frame.Some? ==>
                apple.Some? && |frame.value| >= BoxLen
                && frame.value[|frame.value| - BoxLen..] == CreateBox(apple.value.0, apple.value.1, BoxWidth, BoxHeight)
      ensures old(events) <= events
      ensures !old(paused) && !old(panicked) ==> FrameRan(now, seed)
    {
      if paused || panicked {
        return None;
      }
      frame := RunFrame(now, seed);
    }

    /**
     * What one frame of a running game does to the snake, the direction, the
     * queue and the page: a self-collision notifies the game over and the
     * frame goes on with a new game, paused; otherwise the frame goes on with
     * the snake as it was.  Either way the apple is eaten if reached.
     */
    twostate predicate FrameRan(now: int, seed: nat)
      requires old(Valid())
      reads this
    {
      (SelfCollision(old(snake)) ==>
         paused && keys == [Left]
         && (snake, direction, animations) == RestartFrame(old(apple), now)
         && events == old(events) + [GameOver(Score(old(snake)))] + RestartNotices(old(apple))
         && apple == Spawned(RestartApple(old(apple)), snake, seed)
         && panicked == SpawnFails(RestartApple(old(apple)), snake))
      && (!SelfCollision(old(snake)) ==>
            paused == old(paused) && keys == old(keys)
            && (snake, direction, animations)
               == FrameFrom(old(snake), old(apple), old(animations), old(direction), old(keys)[0], now)
            && events == old(events)
                         + (if AteApple(old(snake), old(apple)) then [Scored(Score(Grown(old(snake))))] else [])
            && apple == Spawned(Uneaten(old(snake), old(apple)), snake, seed)
            && panicked == SpawnFails(Uneaten(old(snake), old(apple)), snake))
    }

    /** A frame of a running game: the collision test, then the rest of the frame. */
    method RunFrame(now: int, seed: nat) returns (frame: Option<seq<int>>)
      requires Valid() && !paused && !panicked
      modifies this
      ensures Valid()
      ensures frame == None ==> panicked && apple == None
      ensures frame.Some? ==>
                apple.Some? && |frame.value| >= BoxLen
                && frame.value[|frame.value| - BoxLen..] == CreateBox(apple.value.0, apple.value.1, BoxWidth, BoxHeight)
      ensures old(events) <= events
      ensures FrameRan(now, seed)
    {
      ResetOnCollision();
      frame := Play(now, seed);
    }

    /** A frame after the collision test: the apple is eaten if reached, then the rest of the frame. */
    method Play(now: int, seed: nat) returns (frame: Option<seq<int>>)
      requires Valid() && !panicked
      modifies this
      ensures Valid()
      ensures (snake, direction, animations)
              == FrameFrom(old(snake), old(apple), old(animations), old(direction), old(keys)[0], now)
      ensures events == old(events)
                        + (if AteApple(old(snake), old(apple)) then [Scored(Score(Grown(old(snake))))] else [])
      ensures paused == old(paused) && keys == old(keys)
      ensures apple == Spawned(Uneaten(old(snake), old(apple)), snake, seed)
      ensures panicked == SpawnFails(Uneaten(old(snake), old(apple)), snake)
      ensures frame == None ==> panicked && apple == None
      ensures frame.Some? ==>
                apple.Some? && |frame.value| >= BoxLen
                && frame.value[|frame.value| - BoxLen..] == CreateBox(apple.value.0, apple.value.1, BoxWidth, BoxHeight)
    {
      EatApple();
      frame := Advance(now, seed);
    }
  }
}
