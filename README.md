# Snake on a wrapping 16 x 10 grid, modelled in Dafny

This project models the game logic of a small browser snake game: a
1280 x 800 field of 80 x 80 cells, a snake stored as a flat list of vertex
coordinates (12 numbers, six (x, y) pairs, per segment), an optional apple,
the committed direction, a one-slot key queue, a pause flag and a queue of
move animations.

## Modules

The modules follow the source's structure.
- `Geometry`: constants, the six-vertex quad (`create_box`), the shrunk overlap test (`box_collision`) and the grid predicates.
- `Field`: the wrap-around of a block at the field's edges and the "sliver" boxes it adds to the render buffer (`block_exceeds_screen_edge`).
- `Animations`: the animation clock (`elapsed`, `done`, `pause_animation` and `unpause_animation`).
- `Movement`: directions, the rigid follow of `move_snake` and the head movement a key asks for.
- `Rules`: self-collision, eating and growth.
- `Spawner`: the apple spawner's grid scan.
- `Phases`: the steps of one frame as functions of the state before them, with the loops of the source as methods proved against those functions.
- `Game`: the global state as a class whose methods are the entry points (new game, key press, frame) and the frame's phases.

## How the source's features are represented

- **Coordinates:** outside the head interpolation every coordinate is a multiple of 80, so coordinates are `int`.
- **Clock and randomness:** the wall clock (`now`, milliseconds) and the random number that picks the apple (`seed`) are parameters. One `now` is used for the whole frame.
- **Notifications:** the page callbacks (game over, scored, clear screen, pause) are appended, in order, to the `events` log.
- **Apple-spawn panic:** when no cell is free, the spawner's `seed % 0` panics and the frame loop stops. The model records this as the `panicked` flag, and a frame does nothing once it is set.

## Invariant

`Game.Valid` is the invariant every entry point keeps:
- exactly one pending key, which is never the reverse of the direction;
- at most one queued animation;
- every queued animation fits the snake: it starts from a snake of in-field cells, its head is one step further on, and its body is made of in-field cells;
- an animation is paused only while the game is;
- the snake has at least four segments, all of them in-field grid cells;
- the apple, if any, is on an in-field cell.

A consequence is that the reversal guard of `handle_key_action` never fires from a frame. Only `key_press_event` filters reversals.

## Quirks reproduced as written

- Up adds a step to y.
- `spawn_apple` treats a box anchored at every vertex of the snake as occupied. This includes vertices that are not segment anchors, so the cells right of, above and diagonal to a segment are occupied too.
- The up-edge and down-edge slivers are full boxes at `y - 800` and `800 - |y|`, not clipped to the overhang as the right-edge sliver is.
- The pause start time is recorded only on the first pause.
- Segments 1 and 2 are never tested for self-collision.
- A growth segment is a copy of the tail segment.

Two behaviours are kept as the code has them:
- When no cell is free the spawner divides by zero; it is not skipped and retried.
- The left-edge rule is not the mirror of the right-edge rule. The right sliver is emitted only when the box reaches past x = 1280, and its width is clamped to one cell. The left sliver is emitted whenever x <= 0, so a box at x = 0 emits a zero-width box at x = 1280, and its width is not clamped.

## Model

| member | source | states |
|---|---|---|
| Geometry.CreateBox | src/lib.rs:470-481 | the box has 12 numbers, starts at (x, y), its first four vertices are the corners and the second triangle reuses the shared diagonal |
| Geometry.BoxCollision | src/lib.rs:397-407 | two boxes collide exactly when their anchors are closer than 80 - 15 on both axes |
| Geometry.BoxCollisionSymmetric | src/lib.rs:397-407 | the collision test is symmetric |
| Geometry.BoxCollisionReflexive | src/lib.rs:397-407 | every box collides with itself |
| Geometry.GridCollisionIsSameCell | src/lib.rs:404-406 | on grid anchors a collision means the same cell; neighbouring cells, including diagonal ones, never collide |
| Geometry.Snap | src/lib.rs:535 | `(v / 10).round() * 10` gives a multiple of ten within 5 of v, and leaves multiples of ten unchanged |
| Geometry.SegmentsSlice | src/lib.rs:296-297 | a slice cut on segment boundaries of a snake of in-field cells is one too |
| Geometry.SegmentsAppend | src/lib.rs:174 | two snakes of in-field cells concatenated are one |
| Field.Relocated | src/lib.rs:338-391 | a block anchored strictly between -80 and 1280 in x and between -80 and 800 in y is not moved; a block that is moved becomes a full cell box at its new anchor |
| Field.Slivers | src/lib.rs:338-391 | a block adds no sliver exactly when x > 0, y > 0, its box ends at or before the right edge and stops short of the up edge; the slivers are always whole 12-number boxes |
| Field.ExceedsScreenEdge | src/lib.rs:331-392 | one block is relocated by the right, left, up and down rules in that order, each testing the original anchor; each sliver is appended to the render buffer in the same order |
| Field.InteriorUntouched | src/lib.rs:338-391 | a block strictly inside the field is left alone and adds no sliver |
| Field.RelocatedIsTorus | src/lib.rs:342-385 | a grid cell at most one cell off the field (not off two edges at once) lands on (x mod 1280, y mod 800), which is an in-field cell |
| Field.GridCellStays | src/lib.rs:342-385 | an in-field cell is never relocated |
| Field.RightEdgeWraps | src/lib.rs:342-344 | a block at or past x = 1280 restarts at x = 0 with the same y |
| Field.LeftEdgeWraps | src/lib.rs:355-360 | a block wholly past the left edge restarts at x = 1200 |
| Field.RightSliverWidth | src/lib.rs:346-352 | a block reaching past the right edge first emits a box at x = 0 as wide as the overhang, at most a cell |
| Field.StraddlingRightEdge | src/lib.rs:346-352 | a block straddling the right edge stays put and emits exactly one sliver, at x = 0, whose width is the overhang |
| Field.UpSliverIsFullHeight | src/lib.rs:373-377 | a block touching the up edge emits a full-height box at y - 800, not a clipped one |
| Field.RelocatedAllAppend | src/lib.rs:296-298 | wrapping block by block distributes over concatenation, for the blocks and for the slivers |
| Field.RelocatedAllKeepsSegments | src/lib.rs:296-298 | wrapping a snake of in-field cells changes nothing |
| Field.WrapBlocks | src/lib.rs:296-298 | the loop over the end position wraps every block in place and appends every block's slivers, block by block |
| Animations.Elapsed | src/lib.rs:504-508 | without a recorded pause the elapsed time is the wall-clock time since the start |
| Animations.Done | src/lib.rs:499-502 | without a recorded pause an animation is done exactly when the wall clock has passed its start plus its duration |
| Animations.DoneStaysDone | src/lib.rs:499-508 | the elapsed time grows with the wall clock, so a done animation stays done |
| Animations.Pause | src/lib.rs:449-456 | pausing marks the animation paused; a paused one is unchanged; the pause start is set to now only if none was recorded; positions and other times are kept |
| Animations.Unpause | src/lib.rs:458-463 | unpausing a running animation changes nothing; otherwise it records the pause end and resumes; positions and other times are kept |
| Animations.Fresh | src/lib.rs:572-580 | a new animation is running, lasts 200 ms and at any time t has run t - now |
| Animations.PauseIdempotent | src/lib.rs:449-456 | pausing twice is pausing once |
| Animations.PauseThenUnpause | src/lib.rs:499-508 | after a pause at t0 and a resume at t1 the elapsed time is t - start - (t1 - t0), and done holds exactly when that reaches the duration |
| Animations.SecondPauseKeepsFirstStart | src/lib.rs:452-454 | after a second pause and resume, the whole span from the first pause to the last resume counts as paused, including the running time between |
| Animations.PauseEach | src/lib.rs:653-658 | every queued animation is paused, in place and in order |
| Animations.UnpauseEach | src/lib.rs:647-652 | every queued animation is resumed, in place and in order |
| Movement.Opposite | src/lib.rs:532-559 | the reverse of a direction is a different direction on the same axis |
| Movement.OppositeInvolutive | src/lib.rs:532-559 | reversing twice is the identity |
| Movement.Moved | src/lib.rs:586-597 | the moved snake keeps its length, starts with the new head and has every other number one segment further back than in the old snake |
| Movement.MovedChunks | src/lib.rs:586-597 | after a move, segment 0 is the new head and segment k is the old segment k - 1, so the old tail is dropped |
| Movement.MoveSnake | src/lib.rs:586-597 | the copy loop over a zero-filled array builds the moved snake: same length, new head, old segments shifted back one |
| Movement.ShiftAxis | src/lib.rs:533-536 | the loop snaps every coordinate of one axis and adds the step, leaving the other axis unchanged |
| Movement.ShiftedBox | src/lib.rs:533-563 | on a cell, shifting one axis moves the whole box one step along that axis |
| Movement.ShiftedPrefix | src/lib.rs:542-563 | shifting the whole snake and cutting out the head equals shifting the head alone |
| Movement.HeadMovementBox | src/lib.rs:529-566 | for a snake of cells, the head a key asks for is the head cell one step further in that direction (Up grows y) |
| Movement.TargetSteps | src/lib.rs:529-566 | the target of a move has the stepped head first and every other segment where its predecessor was |
| Rules.Collisions | src/lib.rs:410-418 | the scan from segment 3 returns true exactly when the head collides with some segment of index 3 or more |
| Rules.SelfCollisionOnGrid | src/lib.rs:410-418 | on the grid a self-collision means some segment of index 3 or more sits on the head's cell |
| Rules.NeckIgnored | src/lib.rs:412-414 | segments 1 and 2 do not affect the collision test |
| Rules.AteApple | src/lib.rs:422-427 | there is nothing to eat without an apple; with one, eating is the shrunk overlap of head and apple anchors |
| Rules.AteAppleOnGrid | src/lib.rs:422-427 | on the grid the head eats exactly when it is on the apple's cell |
| Rules.Grown | src/lib.rs:164-174 | growing adds one segment and keeps the old snake as a prefix |
| Rules.Eaten | src/lib.rs:164-177 | after the apple test the snake has grown by one segment, keeping its prefix, exactly when the head ate the apple, and is unchanged otherwise |
| Rules.Uneaten | src/lib.rs:164-177 | after the apple test there is no apple exactly when there was none or the head reached it; otherwise the apple is kept |
| Rules.Score | src/lib.rs:176 | the score counts the segments beyond the starting four, and is never negative for a snake of at least four segments |
| Rules.GrowthAddsTailCopy | src/lib.rs:164-177 | growing appends one segment equal to the tail segment, keeps the rest, keeps every segment an in-field cell and adds one to the score |
| Spawner.ScanOrder | src/lib.rs:244-245 | the scan visits 16 x 10 cells |
| Spawner.ScanOrderAt | src/lib.rs:244-245 | the scan goes column by column, each column in order of y |
| Spawner.ScanUnoccupied | src/lib.rs:242-259 | the nested scan, with the early exit of the vertex loop, returns the cells no vertex box overlaps, in scan order |
| Spawner.FreeMembers | src/lib.rs:246-257 | a cell is kept exactly when it was scanned and no vertex box overlaps it |
| Spawner.ScanOrderCells | src/lib.rs:244-245 | the scan visits exactly the in-field grid cells |
| Spawner.UnoccupiedMembers | src/lib.rs:242-259 | the candidates are exactly the in-field cells that no vertex box overlaps |
| Spawner.Spawned | src/lib.rs:235-265 | an existing apple stays; without one, there is no apple exactly when no cell is free, and a chosen apple is an in-field cell that no vertex box overlaps |
| Spawner.ScanOrderDistinct | src/lib.rs:244-245 | no cell is scanned twice |
| Spawner.FreeDistinct | src/lib.rs:257 | the candidate list has no repeats |
| Spawner.OnlyFreeCellIsChosen | src/lib.rs:261-264 | when a single in-field cell is free it is the only candidate and is chosen whatever the seed |
| Spawner.SegmentOccupiesFourCells | src/lib.rs:248-251 | the vertex quirk: a segment occupies its own cell and the cells right of, above and diagonal to it |
| Spawner.CandidateAvoidsSegments | src/lib.rs:248-257 | a candidate cell overlaps no segment of the snake |
| Phases.KeyOf | src/lib.rs:606-661 | w/W/up-arrow mean Up, s/S/down-arrow Down, d/D/right-arrow Right, a/A/left-arrow Left, 32 toggles the pause, anything else is ignored |
| Phases.StartingSnake | src/lib.rs:317-327 | a new snake of n segments has 12n numbers |
| Phases.LayOutSnake | src/lib.rs:317-327 | the loop lays out the starting snake one segment to the right at a time |
| Phases.StartingSnakeCells | src/lib.rs:317-327 | segment k of a new snake is the cell k steps right of the centre cell, and up to eight of them lie inside the field |
| Phases.NewSnake | src/lib.rs:303-328 | the new snake has four in-field segments, its head at (640, 400), score 0 and no self-collision |
| Phases.StartingSnakeOfFour | src/lib.rs:317-327 | the same facts for a snake built from a length equal to four |
| Phases.FreshFits | src/lib.rs:568-581 | the animation a key action pushes starts from the snake, ends with the head one step further and a body of in-field cells, and has both positions the same length |
| Phases.TargetParts | src/lib.rs:529-566 | the end position is the stepped head followed by the snake without its last segment |
| Phases.Survivors | src/lib.rs:179-191 | retain keeps exactly the animations that are not done, and never more than it was given |
| Phases.SurvivorsSnoc | src/lib.rs:179-191 | retain over a queue with one more animation at its end keeps that animation at the end exactly when it is not done |
| Phases.SurvivorsAppend | src/lib.rs:179-191 | retain of two queues one after the other is retain of the first followed by retain of the second, so the kept animations stay in queue order |
| Phases.RetiredHeadInField | src/lib.rs:185-188 | whatever animations finish, the head snapped to their end and wrapped is an in-field cell |
| Phases.StepWrapsIntoField | src/lib.rs:186-187 | a head stepped one cell from an in-field cell wraps back onto an in-field cell |
| Phases.Retire | src/lib.rs:179-191 | the retain pass keeps the running animations, sets and wraps the head for each finished one, and appends its slivers |
| Phases.CopyBody | src/lib.rs:283-291 | the body loop pushes the animation's end body to the render buffer and writes it over the end position |
| Phases.DrawOne | src/lib.rs:278-291 | drawing one running animation gives its overlay, with the head at the animation's end cell, and pushes its end body to the render buffer |
| Phases.HeadThenBody | src/lib.rs:278-291 | setting the head and then copying the body gives the overlay of one running animation |
| Phases.Overlay | src/lib.rs:278-291 | an overlaid end position keeps the snake's length |
| Phases.OverlayWraps | src/lib.rs:278-291 | a running animation drawn over an end position whose body is in-field cells and whose head wraps onto an in-field cell leaves one of the same shape |
| Phases.OverlaysWrap | src/lib.rs:270-292 | however many animations run over a snake of in-field cells, every one fits and the end position is in-field body cells behind a head that wraps onto an in-field cell |
| Phases.OverlayOfOne | src/lib.rs:270-292 | a single running animation drawn over a snake of its length gives exactly its end position |
| Phases.WrapLands | src/lib.rs:294-298 | wrapping such an end position relocates only the head, and the result is a snake of in-field cells |
| Phases.DrawRunning | src/lib.rs:270-292 | the drawing pass gives the overlaid end position and the body tiles of every running animation, in queue order |
| Phases.NewHead | src/lib.rs:186 | a new in-field head cell in front of the rest of a snake of in-field cells gives a snake of in-field cells |
| Phases.KeyAction | src/lib.rs:525-583 | with an animation queued, or with a key that reverses the direction, direction and queue are kept; otherwise the key becomes the direction and exactly one running, unpaused animation from the snake to the key's target is queued |
| Phases.Settled | src/lib.rs:179-195 | retiring finished animations and then the key action keep the snake's length, and every animation left fits the snake |
| Phases.Framed | src/lib.rs:179-199 | settling and moving keep the snake's length |
| Phases.FrameFrom | src/lib.rs:164-199 | a frame without a collision leaves a snake as long as the snake after the apple test |
| Phases.MoveShowsTarget | src/lib.rs:179-199 | in the frame that queues a move, the drawn snake is already the wrapped target of the move; when that target collides with itself so does the drawn snake, so the next frame's collision test ends the game |
| Phases.TargetCollisionInField | src/lib.rs:529-566 | when the target of a move collides with itself, every segment of the target, the head included, is an in-field cell, so wrapping leaves it unchanged |
| Phases.KeyActionKeeps | src/lib.rs:525-583 | with an animation queued nothing changes; otherwise the key becomes the direction and exactly one running animation from the snake to its target is queued; the queue stays at most one long and every queued animation fits |
| Phases.SamePositionsFit | src/lib.rs:643-660 | pausing or resuming keeps every animation's positions, so each still fits the snake |
| Game.Game.constructor | src/lib.rs:141-150 | page load gives an empty context and then a new game: paused, heading left, the four-segment snake, no apple |
| Game.Game.InitiateGame | src/lib.rs:303-328 | a new game is paused, not over, with nothing queued, key queue [Left], direction Left and the four-segment snake; the apple stays |
| Game.Game.KeyPressEvent | src/lib.rs:604-663 | an arrow that reverses the direction, or whose axis is already queued, changes nothing; otherwise it becomes the only pending key; Space toggles the pause, notifies the page and pauses or resumes every animation; other keys change nothing; the invariant is kept |
| Game.Game.TogglePause | src/lib.rs:643-660 | the pause flips; from paused the page is told to clear the screen and every animation resumes, otherwise it is told to pause and every animation pauses |
| Game.Game.HandleKeyAction | src/lib.rs:525-583 | the direction and queue become those of the key action, and nothing else changes |
| Game.Game.ApplyKeys | src/lib.rs:193-195 | the pass over the one pending key performs its key action |
| Game.Game.RetireFinished | src/lib.rs:179-191 | the queue keeps the running animations, and each finished one puts its wrapped end head on the snake |
| Game.Game.SnakeMovement | src/lib.rs:268-301 | the snake becomes the wrapped overlay of the running animations, each drawn with its head at its end cell; the render buffer receives the body tiles, the snake before the move and the slivers; nothing else changes |
| Game.Game.SpawnApple | src/lib.rs:235-265 | an existing apple is kept; otherwise the apple is candidate `seed mod count`, an in-field cell no vertex box overlaps, and with no candidate the frame loop stops |
| Game.Game.ResetOnCollision | src/lib.rs:158-162 | a self-collision notifies game over with the score and starts a new, paused game; otherwise nothing changes |
| Game.Game.EatApple | src/lib.rs:164-177 | eating grows the snake by a tail copy, removes the apple and notifies the new score, one more than before; otherwise nothing changes |
| Game.Game.Settle | src/lib.rs:179-195 | snake, direction and queue become those of retiring the finished animations and then performing the pending key; keys, events, pause, apple and the panic flag are kept; the invariant is kept |
| Game.Game.Move | src/lib.rs:197 | the snake becomes the wrapped overlay of the queued animations, which relocates only the head; queue, direction, keys, events, pause, apple and the panic flag are kept; the invariant is kept |
| Game.Game.Advance | src/lib.rs:179-208 | snake, direction and queue become the frame's settle-and-move result; keys, events and pause are kept; an existing apple stays, otherwise the apple is candidate `seed mod count` of the moved snake, and the loop stops exactly when there is none; the frame ends with the apple's box; the invariant is kept |
| Game.Game.SettleAndMove | src/lib.rs:179-197 | snake, direction and queue become the frame's settle-and-move result; keys, events, pause, apple and the panic flag are kept; the invariant is kept |
| Game.Game.Compose | src/lib.rs:202-207 | with an apple the frame is the render buffer followed by the apple's box; without one there is no frame |
| Game.Game.Play | src/lib.rs:164-208 | snake, direction and queue become those of the frame run from the snake after the apple test; a score notice with the new score is appended exactly when the head ate the apple; pause and keys are kept; the apple left by the eating test stays or, if eaten, is replaced by candidate `seed mod count` of the moved snake, and the loop stops exactly when there is none; the frame ends with the apple's box |
| Game.Game.RunFrame | src/lib.rs:158-208 | a self-collision notifies game over with the score, restarts a paused game with key Left and runs the rest of the frame on it; otherwise the frame runs from the current state with pause and keys kept; either way the apple and the stop flag are those of the spawn step after the eating test; events are only appended and the invariant is kept |
| Game.Game.Tick | src/lib.rs:152-226 | while paused or stopped nothing changes; otherwise the invariant is kept, events are only appended, and snake, direction, queue, keys, pause, events, apple and the stop flag are exactly those of the frame: a self-collision notifies game over with the score and the frame continues from a new paused game with key Left, otherwise the frame runs from the current state; the frame ends with the apple's box |

## Left out

- Game.Game.SnakeMovement: the floating-point interpolation of the head (lib.rs:275-281) is not modelled. While an animation runs, the head is drawn at the animation's end cell from the first frame of the move.
- Phases.DrawOne: the head is set to the animation's end head; the interpolated heads between start and end are not modelled.
- Phases.DrawRunning: same as Game.Game.SnakeMovement; the head is at the end cell instead of being interpolated.
- Phases.Overlay: same; the overlaid head is the end head, not an interpolated one.
- Game.Game.Tick: the head is at its end cell from the first frame of a move. For a move that stays inside the field, a collision or an eaten apple is therefore reported from the frame after the move is queued. The source reports it once the interpolated head is within 65 pixels of the cell, about 3/16 of the way through the move, so the model reports it a few frames earlier.
- Game.Game.Tick: across an edge, the source's interpolated head never leaves the field's last cell, and the x >= 1280 and y >= 800 rules never move it. The source therefore tests the wrapped cell only once the next move starts from it, against segments 2 to n - 2 of the crossing move's end position (the head is segment 0). The model tests it from the frame after the crossing move is queued, against segments 3 to n - 1. So the model ends the game when the wrapped cell is held only by the end position's last segment, which the source never reports because that tail has moved on. It also reports the other edge collisions a whole move early.
- Game.Game.Tick: an apple on the wrapped cell of an edge move is eaten a whole move early. The grown segment then copies the end position's last segment rather than the one before it, which is the tail the source copies.
- Game.Game.SpawnApple: while a move runs, the spawner sees the head at its end cell (wrapped across an edge), not at the interpolated position. So the cells it counts as taken around the head differ from the source's, including the wrapped cell of an edge move.
- Game.Game.SpawnApple: the seed is any natural number, not `random() * 2000` truncated. The division by zero is modelled as the `panicked` flag, which stops later frames.
- Game.Game.Advance: the colour buffer and the number of vertices passed to the renderer are not modelled.
- Game.Game.Tick: the frame's render buffer is returned as a value; drawing it is not modelled.
- Rendering: WebGL setup, shaders, `draw_vertices`, `compile_shader`, `link_program`, `draw_arrays` and `request_animation_frame` are foreign GPU and browser calls.
- `src/render.rs` and `src/webgl_render.rs`: rendering interfaces with no game logic.
- `index.js` and `server.js`: DOM glue and an HTTP score server, which are pure I/O.
- The `log` callback: debug output only.
- `format_coordinates`: dead debug code that formats floats.
- Window size: it is fixed at 1280 x 800, the viewport the game sets, rather than read from the canvas.
- Number types: coordinates are `f32` and times `f64` in the source. All game coordinates are multiples of 80 and times are whole milliseconds, so both are `int` here; rounding error is not modelled.
- Score type: `len / 12 - 4` is `usize`. It cannot underflow because the snake always has at least four segments, an invariant the model proves.
- Raw key events: key codes are mapped to directions and Space by `Phases.KeyOf`, and the DOM event itself is not modelled.
