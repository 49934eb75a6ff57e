/**
 * Wrap-around of the field: a box that has left the field is relocated to
 * the opposite edge, and a box on or past an edge adds "sliver" boxes to the
 * render buffer so that it shows on both sides of the seam.
 *
 * The four edges are handled in the order right, left, up, down, and every
 * test reads the box's ORIGINAL anchor, so a later relocation overrides an
 * earlier one.  Up is the direction of growing y.
 */
module Field {
  import opened Geometry

  /** Where a block ends up after the four relocation rules. */
  function Relocated(block: seq<int>): (r: seq<int>)
    requires |block| == BoxLen
    ensures |r| == BoxLen
    ensures -BoxWidth < block[0] < FieldWidth && -BoxHeight < block[1] < FieldHeight ==> r == block
    ensures r != block ==> IsCell(r)
  {
    var x, y := block[0], block[1];
    var right := if x >= FieldWidth then CreateBox(0, y, BoxWidth, BoxHeight) else block;
    var left := if x + BoxWidth <= 0 then CreateBox(FieldWidth - BoxWidth, y, BoxWidth, BoxHeight) else right;
    var up := if y >= FieldHeight then CreateBox(x, 0, BoxWidth, BoxHeight) else left;
    if y + BoxHeight <= 0 then CreateBox(x, FieldHeight - BoxHeight, BoxWidth, BoxHeight) else up
  }

  /** The extra render boxes a block anchored at (x, y) contributes, in append order. */
  function Slivers(x: int, y: int): (r: seq<int>)
    ensures |r| % BoxLen == 0
    ensures r == [] <==> 0 < x <= FieldWidth - BoxWidth && 0 < y < FieldHeight - BoxHeight
  {
    RightSliver(x, y) + LeftSliver(x, y) + UpSliver(x, y) + DownSliver(x, y)
  }

  /** Past the right edge: the overhang, at most a cell wide, drawn from x = 0. */
  function RightSliver(x: int, y: int): seq<int>
  {
    if x + BoxWidth > FieldWidth then CreateBox(0, y, Min(x + BoxWidth - FieldWidth, BoxWidth), BoxHeight) else []
  }

  /** On or past the left edge: the hidden width, drawn against the right edge. */
  function LeftSliver(x: int, y: int): seq<int>
  {
    if x <= 0 then CreateBox(FieldWidth - (0 - x), y, 0 - x, BoxHeight) else []
  }

  /** Touching the up edge: a full box at y - FieldHeight. */
  function UpSliver(x: int, y: int): seq<int>
  {
    if y + BoxHeight >= FieldHeight then CreateBox(x, y - FieldHeight, BoxWidth, BoxHeight) else []
  }

  /** On or past the down edge: a full box at FieldHeight - |y|. */
  function DownSliver(x: int, y: int): seq<int>
  {
    if y <= 0 then CreateBox(x, FieldHeight - Abs(y), BoxWidth, BoxHeight) else []
  }

  /**
   * One call of the edge handling on one block: the block is overwritten
   * rule by rule and each sliver is appended to the render buffer.
   */
  method ExceedsScreenEdge(block: seq<int>, render: seq<int>) returns (moved: seq<int>, rendered: seq<int>)
    requires |block| == BoxLen
    ensures moved == Relocated(block)
    ensures rendered == render + Slivers(block[0], block[1])
  {
    var x, y := block[0], block[1];
    moved, rendered := block, render;

    // Right
    if x >= FieldWidth {
      moved := CreateBox(0, y, BoxWidth, BoxHeight);
    }
    if x + BoxWidth > FieldWidth {
      var width := Min((x + BoxWidth) - FieldWidth, BoxWidth);
      rendered := rendered + CreateBox(0, y, width, BoxHeight);
    }
    assert rendered == render + RightSliver(x, y);

    // Left
    if x + BoxWidth <= 0 {
      moved := CreateBox(FieldWidth - BoxWidth, y, BoxWidth, BoxHeight);
    }
    if x <= 0 {
      var hiddenWidth := 0 - x;
      rendered := rendered + CreateBox(FieldWidth - hiddenWidth, y, hiddenWidth, BoxHeight);
    }
    assert rendered == render + RightSliver(x, y) + LeftSliver(x, y);

    // Up
    if y >= FieldHeight {
      moved := CreateBox(x, 0, BoxWidth, BoxHeight);
    }
    if y + BoxHeight >= FieldHeight {
      var height := y - FieldHeight;
      rendered := rendered + CreateBox(x, height, BoxWidth, BoxHeight);
    }
    assert rendered == render + RightSliver(x, y) + LeftSliver(x, y) + UpSliver(x, y);

    // Down
    if y + BoxHeight <= 0 {
      moved := CreateBox(x, FieldHeight - BoxHeight, BoxWidth, BoxHeight);
    }
    if y <= 0 {
      var height := Abs(y);
      rendered := rendered + CreateBox(x, FieldHeight - height, BoxWidth, BoxHeight);
    }
    assert rendered == render + RightSliver(x, y) + LeftSliver(x, y) + UpSliver(x, y) + DownSliver(x, y);
    AppendFour(render, RightSliver(x, y), LeftSliver(x, y), UpSliver(x, y), DownSliver(x, y));
  }

  /**
   * Regrouping of five concatenated pieces. This lemma exists only to keep
   * verification cheap: it saves the verifier from regrouping inside ExceedsScreenEdge.
   */
  lemma AppendFour(r: seq<int>, a: seq<int>, b: seq<int>, c: seq<int>, d: seq<int>)
    ensures r + a + b + c + d == r + (a + b + c + d)
  {
    assert r + a + b == r + (a + b);
    assert r + (a + b) + c == r + (a + b + c);
  }

  /** A block strictly inside the field is left alone and adds nothing to render. */
  lemma InteriorUntouched(block: seq<int>)
    requires |block| == BoxLen
    requires 0 < block[0] && block[0] + BoxWidth <= FieldWidth
    requires 0 < block[1] && block[1] + BoxHeight < FieldHeight
    ensures Relocated(block) == block && Slivers(block[0], block[1]) == []
  {
  }

  /**
   * On the grid, a cell that has stepped at most one cell off one edge lands
   * on the torus position (x mod FieldWidth, y mod FieldHeight); a cell that
   * is already inside stays where it is.
   */
  lemma RelocatedIsTorus(x: int, y: int)
    requires NearField(x, y)
    requires 0 <= x < FieldWidth || 0 <= y < FieldHeight
    ensures Relocated(CreateBox(x, y, BoxWidth, BoxHeight))
         == CreateBox(x % FieldWidth, y % FieldHeight, BoxWidth, BoxHeight)
    ensures InField(x % FieldWidth, y % FieldHeight)
  {
    if x == FieldWidth {
      assert x % FieldWidth == 0;
    } else if x == -BoxWidth {
      assert x % FieldWidth == FieldWidth - BoxWidth;
    } else {
      assert x % FieldWidth == x;
    }
    if y == FieldHeight {
      assert y % FieldHeight == 0;
    } else if y == -BoxHeight {
      assert y % FieldHeight == FieldHeight - BoxHeight;
    } else {
      assert y % FieldHeight == y;
    }
  }

  /** A cell inside the field is never relocated. */
  lemma GridCellStays(block: seq<int>)
    requires GridCell(block)
    ensures Relocated(block) == block
  {
  }

  /** A block pushed past the right edge (and not off the top or bottom) restarts at x = 0. */
  lemma RightEdgeWraps(block: seq<int>)
    requires |block| == BoxLen
    requires block[0] >= FieldWidth && -BoxHeight < block[1] < FieldHeight
    ensures Relocated(block) == CreateBox(0, block[1], BoxWidth, BoxHeight)
  {
  }

  /** A block fully past the left edge restarts one cell inside the right edge. */
  lemma LeftEdgeWraps(block: seq<int>)
    requires |block| == BoxLen
    requires block[0] + BoxWidth <= 0 && -BoxHeight < block[1] < FieldHeight
    ensures Relocated(block) == CreateBox(FieldWidth - BoxWidth, block[1], BoxWidth, BoxHeight)
  {
  }

  /** The first sliver of a block overlapping the right edge is as wide as the overhang, at most a cell. */
  lemma RightSliverWidth(x: int, y: int)
    requires x + BoxWidth > FieldWidth
    ensures |Slivers(x, y)| >= BoxLen
    ensures Slivers(x, y)[..BoxLen] == CreateBox(0, y, Min(x + BoxWidth - FieldWidth, BoxWidth), BoxHeight)
  {
  }

  /**
   * A block straddling the right edge (anchored inside, reaching past it)
   * stays where it is and emits exactly one sliver at x = 0 whose width is
   * the overhang.
   */
  lemma StraddlingRightEdge(x: int, y: int)
    requires FieldWidth - BoxWidth < x < FieldWidth
    requires 0 < y && y + BoxHeight < FieldHeight
    ensures Relocated(CreateBox(x, y, BoxWidth, BoxHeight)) == CreateBox(x, y, BoxWidth, BoxHeight)
    ensures Slivers(x, y) == CreateBox(0, y, x + BoxWidth - FieldWidth, BoxHeight)
  {
  }

  /**
   * The sliver for the up edge is a full-height box at y - FieldHeight
   * (below the field), not a clipped box on the opposite edge.
   */
  lemma UpSliverIsFullHeight(x: int, y: int)
    requires 0 < x && x + BoxWidth <= FieldWidth
    requires 0 < y && y + BoxHeight >= FieldHeight
    ensures Slivers(x, y) == CreateBox(x, y - FieldHeight, BoxWidth, BoxHeight)
  {
  }

  /** Chunk-wise relocation of a flat list of blocks. */
  function RelocatedAll(s: seq<int>): (r: seq<int>)
    requires |s| % BoxLen == 0
    ensures |r| == |s|
    decreases |s|
  {
    if |s| == 0 then [] else Relocated(s[..BoxLen]) + RelocatedAll(s[BoxLen..])
  }

  /** All slivers of a flat list of blocks, block by block. */
  function SliversAll(s: seq<int>): seq<int>
    requires |s| % BoxLen == 0
    decreases |s|
  {
    if |s| == 0 then [] else Slivers(s[0], s[1]) + SliversAll(s[BoxLen..])
  }

  lemma {:induction false} RelocatedAllAppend(a: seq<int>, b: seq<int>)
    requires |a| % BoxLen == 0 && |b| % BoxLen == 0
    ensures RelocatedAll(a + b) == RelocatedAll(a) + RelocatedAll(b)
    ensures SliversAll(a + b) == SliversAll(a) + SliversAll(b)
    decreases |a|
  {
    if |a| == 0 {
      assert a + b == b;
    } else {
      var rest := a[BoxLen..];
      assert (a + b)[..BoxLen] == a[..BoxLen];
      assert (a + b)[BoxLen..] == rest + b;
      assert (a + b)[0] == a[0] && (a + b)[1] == a[1];
      RelocatedAllAppend(rest, b);
      AppendAssoc(Relocated(a[..BoxLen]), RelocatedAll(rest), RelocatedAll(b));
      AppendAssoc(Slivers(a[0], a[1]), SliversAll(rest), SliversAll(b));
    }
  }

  /** A snake whose segments are all inside the field is left as it is. */
  lemma {:induction false} RelocatedAllKeepsSegments(s: seq<int>)
    requires Segments(s)
    ensures RelocatedAll(s) == s
    decreases |s|
  {
    if |s| > 0 {
      assert s[..BoxLen] == Chunk(s, 0);
      GridCellStays(s[..BoxLen]);
      SegmentsSlice(s, BoxLen, |s|);
      assert s[BoxLen..|s|] == s[BoxLen..];
      RelocatedAllKeepsSegments(s[BoxLen..]);
    }
  }

  /**
   * The loop over the snake's blocks: each block is wrapped in place and its
   * slivers are appended, in block order.
   */
  method WrapBlocks(s: seq<int>, render: seq<int>) returns (wrapped: seq<int>, rendered: seq<int>)
    requires |s| % BoxLen == 0
    ensures wrapped == RelocatedAll(s)
    ensures rendered == render + SliversAll(s)
  {
    wrapped, rendered := s, render;
    var i := 0;
    while i < |s|
      invariant 0 <= i <= |s| && i % BoxLen == 0
      invariant wrapped == RelocatedAll(s[..i]) + s[i..]
      invariant rendered == render + SliversAll(s[..i])
    {
      WrapAdvance(s, i, wrapped, render);
      var block;
      block, rendered := ExceedsScreenEdge(wrapped[i..i + BoxLen], rendered);
      wrapped := wrapped[..i] + block + wrapped[i + BoxLen..];
      i := i + BoxLen;
    }
    assert s[..i] == s;
  }

  /**
   * One step of the loop: the block at i is still the original one, and
   * writing its relocation back extends the relocated prefix by one block.
   */
  lemma WrapAdvance(s: seq<int>, i: int, w: seq<int>, render: seq<int>)
    requires |s| % BoxLen == 0 && 0 <= i < |s| && i % BoxLen == 0
    requires w == RelocatedAll(s[..i]) + s[i..]
    ensures i + BoxLen <= |s| && (i + BoxLen) % BoxLen == 0
    ensures |w| == |s| && w[i..i + BoxLen] == s[i..i + BoxLen] && w[i] == s[i] && w[i + 1] == s[i + 1]
    ensures w[..i] + Relocated(w[i..i + BoxLen]) + w[i + BoxLen..] == RelocatedAll(s[..i + BoxLen]) + s[i + BoxLen..]
    ensures render + SliversAll(s[..i]) + Slivers(w[i], w[i + 1]) == render + SliversAll(s[..i + BoxLen])
  {
    NextBlock(i, |s|);
    var done := RelocatedAll(s[..i]);
    assert |done| == i;
    assert w[..i] == done;
    assert w[i..] == s[i..];
    assert w[i..i + BoxLen] == s[i..i + BoxLen];
    assert w[i + BoxLen..] == s[i + BoxLen..];
    WrapStep(s, i);
    AppendAssoc(render, SliversAll(s[..i]), Slivers(s[i], s[i + 1]));
    AppendAssoc(done, Relocated(s[i..i + BoxLen]), s[i + BoxLen..]);
  }

  /** The next block boundary after a block boundary inside the snake is still inside it. */
  lemma NextBlock(i: int, n: int)
    requires 0 <= i < n && i % BoxLen == 0 && n % BoxLen == 0
    ensures i + BoxLen <= n && (i + BoxLen) % BoxLen == 0
  {
    var a, b := i / BoxLen, n / BoxLen;
    assert i == BoxLen * a && n == BoxLen * b;
  }

  lemma AppendAssoc(a: seq<int>, b: seq<int>, c: seq<int>)
    ensures a + b + c == a + (b + c)
  {
  }

  /** Extending the wrapped prefix by one block. */
  lemma WrapStep(s: seq<int>, i: int)
    requires |s| % BoxLen == 0 && 0 <= i && i % BoxLen == 0 && i + BoxLen <= |s|
    ensures RelocatedAll(s[..i + BoxLen]) == RelocatedAll(s[..i]) + Relocated(s[i..i + BoxLen])
    ensures SliversAll(s[..i + BoxLen]) == SliversAll(s[..i]) + Slivers(s[i], s[i + 1])
  {
    var b := s[i..i + BoxLen];
    assert s[..i + BoxLen] == s[..i] + b;
    RelocatedAllAppend(s[..i], b);
    assert b[..BoxLen] == b && b[BoxLen..] == [];
  }
}
