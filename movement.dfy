/**
 * Directions and one step of the snake: the head is moved one cell and
 * every other segment takes the place of the one in front of it.
 */
module Movement {
  import opened Geometry

  datatype Direction = Up | Down | Left | Right

  /** The 180-degree turn of a direction. */
  function Opposite(d: Direction): (r: Direction)
    ensures r != d
    ensures (d == Up || d == Down) <==> (r == Up || r == Down)
  {
    match d
    case Up => Down
    case Down => Up
    case Left => Right
    case Right => Left
  }

  lemma OppositeInvolutive(d: Direction)
    ensures Opposite(Opposite(d)) == d
  {
  }

  /** Horizontal and vertical displacement of one step; Up grows y. */
  function DeltaX(d: Direction): int
  {
    match d
    case Left => -Step
    case Right => Step
    case _ => 0
  }

  function DeltaY(d: Direction): int
  {
    match d
    case Up => Step
    case Down => -Step
    case _ => 0
  }

  /**
   * Rigid follow: the new snake starts with the first 12 numbers of
   * `head` and continues with the old snake minus its last segment.
   */
  function Moved(snake: seq<int>, head: seq<int>): (r: seq<int>)
    requires |snake| % BoxLen == 0 && |head| >= BoxLen
    ensures |r| == |snake|
    ensures |snake| > 0 ==> r[..BoxLen] == head[..BoxLen] && r[BoxLen..] == snake[..|snake| - BoxLen]
  {
    if |snake| == 0 then [] else head[..BoxLen] + snake[..|snake| - BoxLen]
  }

  /** Segment 0 of a move is the new head, segment k is the old segment k - 1. */
  lemma MovedChunks(snake: seq<int>, head: seq<int>, k: int)
    requires |snake| % BoxLen == 0 && |head| >= BoxLen
    requires 0 <= k < |snake| / BoxLen
    ensures k == 0 ==> Chunk(Moved(snake, head), k) == head[..BoxLen]
    ensures k > 0 ==> Chunk(Moved(snake, head), k) == Chunk(snake, k - 1)
  {
    var r := Moved(snake, head);
    assert r == head[..BoxLen] + snake[..|snake| - BoxLen];
    if k > 0 {
      assert Chunk(r, k) == r[BoxLen * k .. BoxLen * k + BoxLen];
    }
  }

  /**
   * The loop of the source: a zero-filled buffer is filled segment by
   * segment, each segment receiving what the previous iteration carried.
   */
  method MoveSnake(snake: seq<int>, headMovement: seq<int>) returns (r: seq<int>)
    requires |snake| % BoxLen == 0 && |headMovement| >= BoxLen
    ensures r == Moved(snake, headMovement)
    ensures forall k :: 1 <= k < |snake| / BoxLen ==> Chunk(r, k) == Chunk(snake, k - 1)
  {
    var result := new int[|snake|](_ => 0);
    var endPosition := headMovement;
    ghost var target := Moved(snake, headMovement);
    var part := 0;
    while part < |snake|
      invariant 0 <= part <= |snake| && part % BoxLen == 0
      invariant |endPosition| >= BoxLen
      invariant part == 0 ==> endPosition == headMovement
      invariant part > 0 ==> endPosition == snake[part - BoxLen .. part]
      invariant result[..part] == target[..part]
    {
      assert target[part .. part + BoxLen] == endPosition[..BoxLen];
      forall i | 0 <= i < BoxLen {
        result[part + i] := endPosition[i];
      }
      assert result[..part + BoxLen] == target[..part + BoxLen];
      endPosition := snake[part .. part + BoxLen];
      part := part + BoxLen;
    }
    r := result[..];
    assert r == result[..part];
    forall k | 1 <= k < |snake| / BoxLen
      ensures Chunk(r, k) == Chunk(snake, k - 1)
    {
      MovedChunks(snake, headMovement, k);
    }
  }

  /**
   * Every coordinate of one axis (parity 1: y, parity 0: x), from index
   * `parity` on in steps of two, snapped to a multiple of ten and moved by
   * `delta`; the other axis is copied.
   */
  function Shifted(v: seq<int>, parity: int, delta: int): (r: seq<int>)
    requires parity == 0 || parity == 1
    ensures |r| == |v|
  {
    seq(|v|, i requires 0 <= i < |v| => if i % 2 == parity then Snap(v[i]) + delta else v[i])
  }

  method ShiftAxis(v: seq<int>, parity: int, delta: int) returns (r: seq<int>)
    requires parity == 0 || parity == 1
    ensures r == Shifted(v, parity, delta)
  {
    var a := new int[|v|](i requires 0 <= i < |v| => v[i]);
    var i := parity;
    while i < |v|
      invariant parity <= i && i % 2 == parity
      invariant a.Length == |v|
      invariant forall j :: 0 <= j < |v| ==>
                  a[j] == if j % 2 == parity && j < i then Snap(v[j]) + delta else v[j]
    {
      a[i] := Snap(a[i]) + delta;
      i := i + 2;
    }
    r := a[..];
  }

  /** On cell anchors that are multiples of ten, shifting one axis moves the whole box along that axis. */
  lemma ShiftedBox(x: int, y: int, parity: int, delta: int)
    requires x % 10 == 0 && y % 10 == 0
    requires parity == 0 || parity == 1
    ensures parity == 1 ==> Shifted(CreateBox(x, y, BoxWidth, BoxHeight), parity, delta)
                            == CreateBox(x, y + delta, BoxWidth, BoxHeight)
    ensures parity == 0 ==> Shifted(CreateBox(x, y, BoxWidth, BoxHeight), parity, delta)
                            == CreateBox(x + delta, y, BoxWidth, BoxHeight)
  {
    var b := CreateBox(x, y, BoxWidth, BoxHeight);
    var s := Shifted(b, parity, delta);
    var e := if parity == 1 then CreateBox(x, y + delta, BoxWidth, BoxHeight)
             else CreateBox(x + delta, y, BoxWidth, BoxHeight);
    forall i | 0 <= i < BoxLen
      ensures s[i] == e[i]
    {
      assert b[i] % 10 == 0;
    }
  }

  /** Shifting then cutting out the head is cutting out the head then shifting. */
  lemma ShiftedPrefix(v: seq<int>, parity: int, delta: int)
    requires parity == 0 || parity == 1
    requires |v| >= BoxLen
    ensures Shifted(v, parity, delta)[..BoxLen] == Shifted(v[..BoxLen], parity, delta)
  {
  }

  /**
   * The head position a key asks for: Up shifts only the head's y values,
   * the other directions shift one axis of the whole snake (only its head
   * is used afterwards).
   */
  function HeadMovement(snake: seq<int>, key: Direction): (r: seq<int>)
    requires |snake| >= BoxLen
    ensures |r| >= BoxLen
  {
    match key
    case Up => Shifted(snake[..BoxLen], 1, Step)
    case Down => Shifted(snake, 1, -Step)
    case Left => Shifted(snake, 0, -Step)
    case Right => Shifted(snake, 0, Step)
  }

  /** The snake at the end of a move in direction `key`. */
  function Target(snake: seq<int>, key: Direction): (r: seq<int>)
    requires |snake| % BoxLen == 0 && |snake| >= BoxLen
    ensures |r| == |snake|
  {
    Moved(snake, HeadMovement(snake, key))
  }

  /**
   * For a snake of grid cells, a move puts the head one cell further in
   * direction `key` and every other segment where its predecessor was.
   */
  lemma TargetSteps(snake: seq<int>, key: Direction)
    requires Segments(snake) && |snake| >= BoxLen
    ensures Chunk(Target(snake, key), 0)
            == CreateBox(snake[0] + DeltaX(key), snake[1] + DeltaY(key), BoxWidth, BoxHeight)
    ensures forall k :: 1 <= k < |snake| / BoxLen ==> Chunk(Target(snake, key), k) == Chunk(snake, k - 1)
  {
    var hm := HeadMovement(snake, key);
    HeadMovementBox(snake, key);
    MovedChunks(snake, hm, 0);
    forall k | 1 <= k < |snake| / BoxLen
      ensures Chunk(Target(snake, key), k) == Chunk(snake, k - 1)
    {
      MovedChunks(snake, hm, k);
    }
  }

  /** The first 12 numbers of the head movement are the head's box one cell further on. */
  lemma HeadMovementBox(snake: seq<int>, key: Direction)
    requires Segments(snake) && |snake| >= BoxLen
    ensures HeadMovement(snake, key)[..BoxLen]
            == CreateBox(snake[0] + DeltaX(key), snake[1] + DeltaY(key), BoxWidth, BoxHeight)
  {
    HeadAnchorOnGrid(snake);
    HeadIsCell(snake);
    CellMultipleOfTen(snake[0]);
    CellMultipleOfTen(snake[1]);
    HeadBoxMoves(snake, key);
  }

  /** A multiple of the cell size is a multiple of ten. */
  lemma CellMultipleOfTen(v: int)
    requires v % BoxWidth == 0
    ensures v % 10 == 0
  {
    assert v == 10 * (8 * (v / BoxWidth));
  }

  /** The head movement of a box anchored on multiples of ten shifts that box by one step. */
  lemma HeadBoxMoves(snake: seq<int>, key: Direction)
    requires |snake| >= BoxLen && snake[0] % 10 == 0 && snake[1] % 10 == 0
    requires snake[..BoxLen] == CreateBox(snake[0], snake[1], BoxWidth, BoxHeight)
    ensures HeadMovement(snake, key)[..BoxLen]
            == CreateBox(snake[0] + DeltaX(key), snake[1] + DeltaY(key), BoxWidth, BoxHeight)
  {
    var x, y := snake[0], snake[1];
    match key {
      case Up =>
        ShiftedBox(x, y, 1, Step);
      case Down =>
        ShiftedPrefix(snake, 1, -Step);
        ShiftedBox(x, y, 1, -Step);
      case Left =>
        ShiftedPrefix(snake, 0, -Step);
        ShiftedBox(x, y, 0, -Step);
      case Right =>
        ShiftedPrefix(snake, 0, Step);
        ShiftedBox(x, y, 0, Step);
    }
  }
}
