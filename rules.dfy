/**
 * Self-collision, eating and growth, all judged on the snake's flat
 * coordinate list with the shrunk overlap test.
 */
module Rules {
  import opened Geometry

  /** Segments in a fresh snake; the score is the number of segments beyond it. */
  const StartingLen: int := 4

  /** The head (segment 0) overlaps segment k. */
  predicate HeadHits(snake: seq<int>, k: int)
    requires 0 <= k && BoxLen * k + BoxLen <= |snake|
  {
    BoxCollision(snake[..BoxLen], Chunk(snake, k))
  }

  /** Segments 1 and 2 always touch the head, so only segments from index 3 on are tested. */
  predicate SelfCollision(snake: seq<int>)
    requires |snake| % BoxLen == 0
  {
    exists k :: 3 <= k < |snake| / BoxLen && HeadHits(snake, k)
  }

  /** The scan over segments 3, 4, ... that stops at the first hit. */
  method Collisions(snake: seq<int>) returns (hit: bool)
    requires |snake| >= BoxLen && |snake| % BoxLen == 0
    ensures hit <==> SelfCollision(snake)
  {
    var head := snake[..BoxLen];
    var n := |snake| / BoxLen;
    var i, k := 3 * BoxLen, 3;
    while i < |snake|
      invariant i == BoxLen * k && 3 <= k
      invariant k <= n || k == 3
      invariant forall j :: 3 <= j < k ==> !HeadHits(snake, j)
    {
      if BoxCollision(head, snake[i .. i + BoxLen]) {
        assert HeadHits(snake, k);
        return true;
      }
      i, k := i + BoxLen, k + 1;
    }
    return false;
  }

  /** On the grid, a self-collision means some segment from index 3 on sits on the head's cell. */
  lemma SelfCollisionOnGrid(snake: seq<int>)
    requires Segments(snake) && |snake| >= BoxLen
    ensures SelfCollision(snake) <==>
            exists k :: 3 <= k < |snake| / BoxLen && Chunk(snake, k)[..2] == snake[..2]
  {
    assert GridCell(Chunk(snake, 0));
    if SelfCollision(snake) {
      var k :| 3 <= k < |snake| / BoxLen && HeadHits(snake, k);
      assert GridCell(Chunk(snake, k));
      GridCollisionIsSameCell(snake[..BoxLen], Chunk(snake, k));
      assert Chunk(snake, k)[..2] == snake[..2];
    }
    if exists k :: 3 <= k < |snake| / BoxLen && Chunk(snake, k)[..2] == snake[..2] {
      var k :| 3 <= k < |snake| / BoxLen && Chunk(snake, k)[..2] == snake[..2];
      assert Chunk(snake, k)[0] == snake[0] && Chunk(snake, k)[1] == snake[1];
      assert HeadHits(snake, k);
    }
  }

  /**
   * The neck (segments 1 and 2) is never looked at: two snakes that agree
   * everywhere else collide alike.
   */
  lemma NeckIgnored(s: seq<int>, t: seq<int>)
    requires |s| == |t| && |s| % BoxLen == 0 && |s| >= 3 * BoxLen
    requires s[..BoxLen] == t[..BoxLen] && s[3 * BoxLen..] == t[3 * BoxLen..]
    ensures SelfCollision(s) == SelfCollision(t)
  {
    forall k | 3 <= k < |s| / BoxLen
      ensures Chunk(s, k) == Chunk(t, k)
    {
      assert Chunk(s, k) == s[3 * BoxLen..][BoxLen * k - 3 * BoxLen .. BoxLen * k - 2 * BoxLen];
      assert Chunk(t, k) == t[3 * BoxLen..][BoxLen * k - 3 * BoxLen .. BoxLen * k - 2 * BoxLen];
    }
    if SelfCollision(s) {
      var k :| 3 <= k < |s| / BoxLen && HeadHits(s, k);
      assert HeadHits(t, k);
    }
    if SelfCollision(t) {
      var k :| 3 <= k < |t| / BoxLen && HeadHits(t, k);
      assert HeadHits(s, k);
    }
  }

  /** Head against apple; there is nothing to eat without an apple. */
  function AteApple(snake: seq<int>, apple: Option<(int, int)>): (ate: bool)
    requires |snake| >= BoxLen
    ensures ate ==> apple.Some?
    ensures apple.Some? ==>
              (ate <==> Abs(snake[0] - apple.value.0) < BoxWidth - Margin
                        && Abs(snake[1] - apple.value.1) < BoxHeight - Margin)
  {
    match apple
    case None => false
    case Some(p) => BoxCollision(snake[..BoxLen], CreateBox(p.0, p.1, BoxWidth, BoxHeight))
  }

  /** The apple left after the eating test: a reached apple is removed. */
  function Uneaten(snake: seq<int>, apple: Option<(int, int)>): (r: Option<(int, int)>)
    requires |snake| >= BoxLen
    ensures r.None? || r == apple
    ensures r.None? <==> apple.None? || AteApple(snake, apple)
  {
    if AteApple(snake, apple) then None else apple
  }

  /** On the grid the head eats the apple exactly when it sits on the apple's cell. */
  lemma AteAppleOnGrid(snake: seq<int>, x: int, y: int)
    requires Segments(snake) && |snake| >= BoxLen && InField(x, y)
    ensures AteApple(snake, Some((x, y))) <==> snake[0] == x && snake[1] == y
  {
    assert GridCell(Chunk(snake, 0));
    GridCollisionIsSameCell(snake[..BoxLen], CreateBox(x, y, BoxWidth, BoxHeight));
  }

  /** Growth: one more segment, a full box at the last segment's anchor. */
  function Grown(snake: seq<int>): (r: seq<int>)
    requires |snake| >= BoxLen
    ensures |r| == |snake| + BoxLen && r[..|snake|] == snake
  {
    snake + CreateBox(snake[|snake| - BoxLen], snake[|snake| - BoxLen + 1], BoxWidth, BoxHeight)
  }

  /** The snake after the apple test of a frame: grown by one segment when the head reaches the apple. */
  function Eaten(snake: seq<int>, apple: Option<(int, int)>): (r: seq<int>)
    requires |snake| >= BoxLen
    ensures AteApple(snake, apple) ==> |r| == |snake| + BoxLen && r[..|snake|] == snake
    ensures !AteApple(snake, apple) ==> r == snake
  {
    if AteApple(snake, apple) then Grown(snake) else snake
  }

  /** Segments beyond the starting four. */
  function Score(snake: seq<int>): (score: int)
    ensures |snake| >= StartingLen * BoxLen ==> score >= 0
    ensures |snake| % BoxLen == 0 ==> |snake| == BoxLen * (score + StartingLen)
  {
    |snake| / BoxLen - StartingLen
  }

  /**
   * Growing keeps every segment a grid cell, copies the tail segment onto
   * the new last place, leaves the rest alone and adds one to the score.
   */
  lemma GrowthAddsTailCopy(snake: seq<int>)
    requires Segments(snake) && |snake| >= BoxLen
    ensures |Grown(snake)| == |snake| + BoxLen && Grown(snake)[..|snake|] == snake
    ensures Segments(Grown(snake))
    ensures Chunk(Grown(snake), |snake| / BoxLen) == Chunk(snake, |snake| / BoxLen - 1)
    ensures Score(Grown(snake)) == Score(snake) + 1
  {
    var n := |snake| / BoxLen;
    var last := Chunk(snake, n - 1);
    assert GridCell(last);
    assert last[0] == snake[|snake| - BoxLen] && last[1] == snake[|snake| - BoxLen + 1];
    var tail := CreateBox(last[0], last[1], BoxWidth, BoxHeight);
    assert tail == last;
    SegmentsOfCell(last);
    SegmentsAppend(snake, last);
    ChunkAppend(snake, last, n);
    assert Chunk(last, 0) == last;
  }
}
