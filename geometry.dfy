/**
 * Grid constants, the six-vertex quad of a cell, and the shrunk
 * axis-aligned overlap test used for self-collision, eating and spawning.
 *
 * A segment of the snake, the apple and every render box are flat lists of
 * six (x, y) vertex pairs: two triangles covering [x, x+w] x [y, y+h].
 */
module Geometry {

  datatype Option<T> = None | Some(value: T)

  /** Number of cells across and down the field. */
  const GridWidth: int := 16
  const GridHeight: int := 10

  /** Size of the canvas the game is drawn on (the viewport is 1280 x 800). */
  const FieldWidth: int := 1280
  const FieldHeight: int := 800

  /** Cell size: 1280 / GridWidth and 800 / GridHeight. */
  const BoxWidth: int := 80
  const BoxHeight: int := 80

  /** One move advances the head by one cell width. */
  const Step: int := BoxWidth

  /** Both boxes are shrunk by this much before they are compared. */
  const Margin: int := 15

  /** Numbers per box: six vertices of two coordinates each. */
  const BoxLen: int := 12

  function Abs(v: int): int { if v < 0 then -v else v }

  function Min(a: int, b: int): int { if a < b then a else b }

  /** The i-th vertex of a flat vertex list. */
  function Vertex(b: seq<int>, i: int): (int, int)
    requires 0 <= i && 2 * i + 1 < |b|
  {
    (b[2 * i], b[2 * i + 1])
  }

  /** The quad covering [x, x+width] x [y, y+height], as two triangles. */
  function CreateBox(x: int, y: int, width: int, height: int): (b: seq<int>)
    ensures |b| == BoxLen && b[0] == x && b[1] == y
    // the first four vertices are the four corners ...
    ensures Vertex(b, 0) == (x, y) && Vertex(b, 1) == (x + width, y)
         && Vertex(b, 2) == (x, y + height) && Vertex(b, 3) == (x + width, y + height)
    // ... and the second triangle reuses the shared diagonal
    ensures Vertex(b, 4) == Vertex(b, 2) && Vertex(b, 5) == Vertex(b, 1)
  {
    [ x,         y,
      x + width, y,
      x,         y + height,

      x + width, y + height,
      x,         y + height,
      x + width, y ]
  }

  /**
   * Overlap test on the anchors (the first vertex) of two boxes, each box
   * taken as a full cell shrunk by Margin: the anchors collide exactly when
   * they are closer than BoxWidth - Margin on x and BoxHeight - Margin on y.
   */
  function BoxCollision(one: seq<int>, two: seq<int>): (hit: bool)
    requires |one| >= 2 && |two| >= 2
    ensures hit <==> Abs(one[0] - two[0]) < BoxWidth - Margin && Abs(one[1] - two[1]) < BoxHeight - Margin
  {
    var collisionX := one[0] < two[0] + BoxWidth - Margin && one[0] + BoxWidth - Margin > two[0];
    var collisionY := one[1] < two[1] + BoxHeight - Margin && one[1] + BoxHeight - Margin > two[1];
    collisionX && collisionY
  }

  /**
   * `((v / 10).round()) * 10` on an integer: the multiple of ten nearest to v,
   * halves rounded away from zero.
   */
  function Snap(v: int): (r: int)
    ensures r % 10 == 0
    ensures -5 <= r - v <= 5
    ensures v % 10 == 0 ==> r == v
  {
    if v >= 0 then RoundHalfUp(v) else -RoundHalfUp(-v)
  }

  /** The multiple of ten nearest to a non-negative v, halves rounded up. */
  function RoundHalfUp(v: nat): (r: int)
    ensures r % 10 == 0
    ensures -5 <= r - v <= 5
    ensures v % 10 == 0 ==> r == v
  {
    var q := (v + 5) / 10;
    assert 10 * q <= v + 5 < 10 * q + 10;
    assert v % 10 == 0 ==> v == 10 * (v / 10) && q == v / 10;
    q * 10
  }

  /** An anchor on the grid and inside the field. */
  predicate InField(x: int, y: int)
  {
    0 <= x < FieldWidth && 0 <= y < FieldHeight && x % BoxWidth == 0 && y % BoxHeight == 0
  }

  /** An anchor on the grid at most one cell outside the field. */
  predicate NearField(x: int, y: int)
  {
    -BoxWidth <= x <= FieldWidth && -BoxHeight <= y <= FieldHeight
    && x % BoxWidth == 0 && y % BoxHeight == 0
  }

  /** A full cell-sized box anchored at its first vertex. */
  predicate IsCell(b: seq<int>)
  {
    |b| == BoxLen && b == CreateBox(b[0], b[1], BoxWidth, BoxHeight)
  }

  /** A full cell-sized box anchored at a grid position inside the field. */
  predicate GridCell(b: seq<int>)
  {
    IsCell(b) && InField(b[0], b[1])
  }

  /** The k-th segment (12 numbers) of a flat snake. */
  function Chunk(s: seq<int>, k: int): seq<int>
    requires 0 <= k && BoxLen * k + BoxLen <= |s|
  {
    s[BoxLen * k .. BoxLen * k + BoxLen]
  }

  /** Dropping one block from a whole number of blocks leaves a whole number of blocks. */
  lemma DropBlock(n: int)
    requires n % BoxLen == 0
    ensures (n - BoxLen) % BoxLen == 0
  {
    var q := n / BoxLen;
    assert n == BoxLen * q;
    assert n - BoxLen == BoxLen * (q - 1);
  }

  /** A whole number of blocks is a whole number of vertices. */
  lemma BlocksAreVertices(n: int)
    requires n % BoxLen == 0
    ensures n % 2 == 0
  {
    var q := n / BoxLen;
    assert n == 2 * (6 * q);
  }

  /** Every segment of s is a full cell on the grid inside the field. */
  predicate Segments(s: seq<int>)
  {
    |s| % BoxLen == 0 && forall k :: 0 <= k < |s| / BoxLen ==> GridCell(Chunk(s, k))
  }

  /** The head of a snake of grid cells is anchored on the grid. */
  lemma HeadAnchorOnGrid(s: seq<int>)
    requires Segments(s) && |s| >= BoxLen
    ensures s[0] % BoxWidth == 0 && s[1] % BoxHeight == 0
  {
    assert GridCell(Chunk(s, 0));
    assert Chunk(s, 0)[0] == s[0] && Chunk(s, 0)[1] == s[1];
  }

  /** The head of a snake of grid cells is the cell box at its anchor. */
  lemma HeadIsCell(s: seq<int>)
    requires Segments(s) && |s| >= BoxLen
    ensures s[..BoxLen] == CreateBox(s[0], s[1], BoxWidth, BoxHeight)
  {
    assert GridCell(Chunk(s, 0));
    assert Chunk(s, 0) == s[..BoxLen];
  }

  lemma BoxCollisionSymmetric(one: seq<int>, two: seq<int>)
    requires |one| >= 2 && |two| >= 2
    ensures BoxCollision(one, two) == BoxCollision(two, one)
  {
  }

  lemma BoxCollisionReflexive(one: seq<int>)
    requires |one| >= 2
    ensures BoxCollision(one, one)
  {
  }

  /**
   * On the grid the shrunk test is exactly "same cell": anchors one cell
   * apart (sharing an edge or a corner) never collide.
   */
  lemma GridCollisionIsSameCell(one: seq<int>, two: seq<int>)
    requires |one| >= 2 && |two| >= 2
    requires one[0] % BoxWidth == 0 && two[0] % BoxWidth == 0
    requires one[1] % BoxHeight == 0 && two[1] % BoxHeight == 0
    ensures BoxCollision(one, two) <==> one[0] == two[0] && one[1] == two[1]
  {
    if one[0] != two[0] { CellsApart(one[0], two[0]); }
    if one[1] != two[1] { CellsApart(one[1], two[1]); }
  }

  /** Two distinct multiples of the cell size are at least a cell apart. */
  lemma CellsApart(a: int, b: int)
    requires a % BoxWidth == 0 && b % BoxWidth == 0 && a != b
    ensures Abs(a - b) >= BoxWidth
  {
    var p, q := a / BoxWidth, b / BoxWidth;
    assert a == BoxWidth * p && b == BoxWidth * q;
  }

  /** Chunks of a concatenation come from the part they fall in. */
  lemma ChunkAppend(a: seq<int>, b: seq<int>, k: int)
    requires |a| % BoxLen == 0 && 0 <= k && BoxLen * k + BoxLen <= |a| + |b|
    ensures k < |a| / BoxLen ==> Chunk(a + b, k) == Chunk(a, k)
    ensures k >= |a| / BoxLen ==> Chunk(a + b, k) == Chunk(b, k - |a| / BoxLen)
  {
  }

  /** Segments is closed under concatenation. */
  lemma SegmentsAppend(a: seq<int>, b: seq<int>)
    requires Segments(a) && Segments(b)
    ensures Segments(a + b)
  {
    forall k | 0 <= k < |a + b| / BoxLen
      ensures GridCell(Chunk(a + b, k))
    {
      ChunkAppend(a, b, k);
    }
  }

  /** A single in-field cell is a one-segment snake. */
  lemma SegmentsOfCell(b: seq<int>)
    requires GridCell(b)
    ensures Segments(b)
  {
    assert Chunk(b, 0) == b;
  }

  /** Segments of a prefix or suffix cut on a segment boundary. */
  lemma SegmentsSlice(s: seq<int>, i: int, j: int)
    requires Segments(s) && 0 <= i <= j <= |s| && i % BoxLen == 0 && j % BoxLen == 0
    ensures Segments(s[i..j])
  {
    var t := s[i..j];
    var c := i / BoxLen;
    assert i == BoxLen * c;
    assert |t| % BoxLen == 0;
    forall k | 0 <= k < |t| / BoxLen
      ensures GridCell(Chunk(t, k))
    {
      ChunkShift(s, i, j, c, k);
    }
  }

  /** The k-th chunk of a slice starting at chunk c is chunk c + k of the whole. */
  lemma ChunkShift(s: seq<int>, i: int, j: int, c: int, k: int)
    requires 0 <= i <= j <= |s| && i == BoxLen * c && 0 <= k && BoxLen * k + BoxLen <= j - i
    ensures 0 <= k + c && BoxLen * (k + c) + BoxLen <= |s|
    ensures Chunk(s[i..j], k) == Chunk(s, k + c)
  {
    var lo := BoxLen * k;
    assert BoxLen * (k + c) == lo + i;
    var t, u := s[i..j][lo..lo + BoxLen], s[i + lo..i + lo + BoxLen];
    assert |t| == |u| == BoxLen;
    forall m | 0 <= m < BoxLen
      ensures t[m] == u[m]
    {
      assert t[m] == s[i..j][lo + m] == s[i + lo + m];
    }
    assert t == u;
  }
}
