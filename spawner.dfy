/**
 * The apple spawner's grid scan.  Cells are visited column by column
 * (x outer, y inner).  A cell counts as occupied when it overlaps a box
 * anchored at ANY vertex of the snake's flat list, not only at segment
 * anchors, so the cells right of, above and diagonal to a segment are
 * occupied too.
 */
module Spawner {
  import opened Geometry

  /** The box anchored at the v-th vertex of the snake overlaps the cell at (x, y). */
  predicate VertexOccupies(snake: seq<int>, v: int, x: int, y: int)
    requires 0 <= v && 2 * v + 1 < |snake|
  {
    BoxCollision(CreateBox(snake[2 * v], snake[2 * v + 1], BoxWidth, BoxHeight),
                 CreateBox(x, y, BoxWidth, BoxHeight))
  }

  ghost predicate Occupied(snake: seq<int>, x: int, y: int)
  {
    exists v :: 0 <= v && 2 * v + 1 < |snake| && VertexOccupies(snake, v, x, y)
  }

  /** Every cell of the field in scan order: column by column in increasing x, each column in increasing y. */
  function ScanOrder(): (cells: seq<(int, int)>)
    ensures |cells| == GridWidth * GridHeight
  {
    seq(GridWidth * GridHeight, i requires 0 <= i < GridWidth * GridHeight =>
          (i / GridHeight * BoxWidth, i % GridHeight * BoxHeight))
  }

  /** The cells of `cells` that no vertex box overlaps, in their order. */
  ghost function Free(snake: seq<int>, cells: seq<(int, int)>): seq<(int, int)>
    decreases |cells|
  {
    if |cells| == 0 then []
    else
      var last := cells[|cells| - 1];
      Free(snake, cells[..|cells| - 1]) + (if Occupied(snake, last.0, last.1) then [] else [last])
  }

  /** The candidate list of the whole field. */
  ghost function Unoccupied(snake: seq<int>): seq<(int, int)>
  {
    Free(snake, ScanOrder())
  }

  /** The m-th cell of the scan is row m % 10 of column m / 10. */
  lemma ScanOrderAt(col: int, row: int)
    requires 0 <= col < GridWidth && 0 <= row < GridHeight
    ensures col * GridHeight + row < |ScanOrder()|
    ensures ScanOrder()[col * GridHeight + row] == (col * BoxWidth, row * BoxHeight)
  {
    var m := col * GridHeight + row;
    assert m / GridHeight == col && m % GridHeight == row;
  }

  /** The nested scan of the source, with the early exit of the vertex loop. */
  method ScanUnoccupied(snake: seq<int>) returns (unoccupied: seq<(int, int)>)
    requires |snake| % 2 == 0
    ensures unoccupied == Unoccupied(snake)
  {
    unoccupied := [];
    var col := 0;
    while col < GridWidth
      invariant 0 <= col <= GridWidth
      invariant unoccupied == Free(snake, ScanOrder()[..col * GridHeight])
    {
      var row := 0;
      while row < GridHeight
        invariant 0 <= row <= GridHeight
        invariant unoccupied == Free(snake, ScanOrder()[..col * GridHeight + row])
      {
        var i, j := col * BoxWidth, row * BoxHeight;
        var occupied := false;
        var k, v := 0, 0;
        while k < |snake|
          invariant k == 2 * v && 0 <= k <= |snake|
          invariant forall w :: 0 <= w < v ==> !VertexOccupies(snake, w, i, j)
        {
          var segment := CreateBox(snake[k], snake[k + 1], BoxWidth, BoxHeight);
          var block := CreateBox(i, j, BoxWidth, BoxHeight);
          if BoxCollision(segment, block) {
            assert VertexOccupies(snake, v, i, j);
            occupied := true;
            break;
          }
          k, v := k + 2, v + 1;
        }
        assert occupied <==> Occupied(snake, i, j);
        ScanOrderAt(col, row);
        FreeStep(snake, ScanOrder(), col * GridHeight + row);
        if !occupied {
          unoccupied := unoccupied + [(i, j)];
        }
        row := row + 1;
      }
      col := col + 1;
    }
    assert ScanOrder()[..GridWidth * GridHeight] == ScanOrder();
  }

  /** Extending the scanned prefix by one cell appends that cell when it is free. */
  lemma FreeStep(snake: seq<int>, cells: seq<(int, int)>, m: int)
    requires 0 <= m < |cells|
    ensures Free(snake, cells[..m + 1]) == Free(snake, cells[..m])
              + (if Occupied(snake, cells[m].0, cells[m].1) then [] else [cells[m]])
  {
    assert cells[..m + 1][..m] == cells[..m];
  }

  /** A free cell is one of the scanned cells that no vertex box overlaps. */
  lemma {:induction false} FreeMembers(snake: seq<int>, cells: seq<(int, int)>, c: (int, int))
    ensures c in Free(snake, cells) <==> c in cells && !Occupied(snake, c.0, c.1)
    decreases |cells|
  {
    if |cells| > 0 {
      var init := cells[..|cells| - 1];
      FreeMembers(snake, init, c);
      assert cells == init + [cells[|cells| - 1]];
    }
  }

  /** The scan visits exactly the cells of the field. */
  lemma ScanOrderCells(x: int, y: int)
    ensures (x, y) in ScanOrder() <==> InField(x, y)
  {
    if InField(x, y) {
      var col, row := x / BoxWidth, y / BoxHeight;
      assert x == col * BoxWidth && y == row * BoxHeight;
      ScanOrderAt(col, row);
    }
    if (x, y) in ScanOrder() {
      var i :| 0 <= i < |ScanOrder()| && ScanOrder()[i] == (x, y);
      assert x == i / GridHeight * BoxWidth && y == i % GridHeight * BoxHeight;
    }
  }

  /** The candidates are exactly the free cells of the field. */
  lemma UnoccupiedMembers(snake: seq<int>, x: int, y: int)
    ensures (x, y) in Unoccupied(snake) <==> InField(x, y) && !Occupied(snake, x, y)
  {
    FreeMembers(snake, ScanOrder(), (x, y));
    ScanOrderCells(x, y);
  }

  /**
   * The apple after the spawn step: an apple already on the field stays;
   * otherwise the candidate the seed picks, or none when no cell is free.
   */
  ghost function Spawned(apple: Option<(int, int)>, snake: seq<int>, seed: nat): (r: Option<(int, int)>)
    ensures apple.Some? ==> r == apple
    ensures apple.None? ==> (r.None? <==> Unoccupied(snake) == [])
    ensures apple.None? && r.Some? ==> InField(r.value.0, r.value.1) && !Occupied(snake, r.value.0, r.value.1)
  {
    if apple.Some? then apple
    else if |Unoccupied(snake)| == 0 then None
    else
      var cell := Unoccupied(snake)[seed % |Unoccupied(snake)|];
      UnoccupiedMembers(snake, cell.0, cell.1);
      Some(cell)
  }

  /** The spawn step stops the frame loop exactly when it must place an apple and no cell is free. */
  ghost predicate SpawnFails(apple: Option<(int, int)>, snake: seq<int>)
  {
    apple.None? && Unoccupied(snake) == []
  }

  ghost predicate Distinct(s: seq<(int, int)>)
  {
    forall i, j :: 0 <= i < j < |s| ==> s[i] != s[j]
  }

  /** No cell is scanned twice. */
  lemma ScanOrderDistinct()
    ensures Distinct(ScanOrder())
  {
    var s := ScanOrder();
    forall i, j | 0 <= i < j < |s|
      ensures s[i] != s[j]
    {
      assert i == i / GridHeight * GridHeight + i % GridHeight;
      assert j == j / GridHeight * GridHeight + j % GridHeight;
    }
  }

  /** Filtering a list without repeats gives a list without repeats. */
  lemma {:induction false} FreeDistinct(snake: seq<int>, cells: seq<(int, int)>)
    requires Distinct(cells)
    ensures Distinct(Free(snake, cells))
    decreases |cells|
  {
    if |cells| > 0 {
      var init, last := cells[..|cells| - 1], cells[|cells| - 1];
      FreeDistinct(snake, init);
      FreeMembers(snake, init, last);
      var f := Free(snake, init);
      var r := Free(snake, cells);
      forall i, j | 0 <= i < j < |r|
        ensures r[i] != r[j]
      {
        if j == |f| {
          assert r[i] == f[i];
        }
      }
    }
  }

  /** When a single cell of the field is free, it is the only candidate, whatever the seed. */
  lemma OnlyFreeCellIsChosen(snake: seq<int>, x: int, y: int, seed: nat)
    requires InField(x, y) && !Occupied(snake, x, y)
    requires forall a, b :: InField(a, b) && (a, b) != (x, y) ==> Occupied(snake, a, b)
    ensures Unoccupied(snake) == [(x, y)]
    ensures Unoccupied(snake)[seed % |Unoccupied(snake)|] == (x, y)
  {
    var u := Unoccupied(snake);
    if |u| >= 2 {
      var first, second := u[0], u[1];
      ScanOrderDistinct();
      FreeDistinct(snake, ScanOrder());
      UnoccupiedMembers(snake, first.0, first.1);
      UnoccupiedMembers(snake, second.0, second.1);
      assert false;
    }
    UnoccupiedMembers(snake, x, y);
    if |u| == 1 {
      UnoccupiedMembers(snake, u[0].0, u[0].1);
    }
  }

  /** A segment's box occupies its own cell and the cells right of, above and diagonal to it. */
  lemma SegmentOccupiesFourCells(snake: seq<int>, k: int)
    requires 0 <= k && BoxLen * k + BoxLen <= |snake| && IsCell(Chunk(snake, k))
    ensures var x, y := snake[BoxLen * k], snake[BoxLen * k + 1];
            Occupied(snake, x, y) && Occupied(snake, x + BoxWidth, y)
            && Occupied(snake, x, y + BoxHeight) && Occupied(snake, x + BoxWidth, y + BoxHeight)
  {
    var b := Chunk(snake, k);
    var x, y := snake[BoxLen * k], snake[BoxLen * k + 1];
    assert b[0] == x && b[1] == y;
    assert VertexOccupies(snake, 6 * k, x, y);
    assert snake[BoxLen * k + 2] == b[2] == x + BoxWidth;
    assert VertexOccupies(snake, 6 * k + 1, x + BoxWidth, y);
    assert snake[BoxLen * k + 5] == b[5] == y + BoxHeight;
    assert VertexOccupies(snake, 6 * k + 2, x, y + BoxHeight);
    assert snake[BoxLen * k + 7] == b[7] == y + BoxHeight;
    assert VertexOccupies(snake, 6 * k + 3, x + BoxWidth, y + BoxHeight);
  }

  /** A candidate cell overlaps no segment of the snake. */
  lemma CandidateAvoidsSegments(snake: seq<int>, x: int, y: int)
    requires |snake| % BoxLen == 0 && (x, y) in Unoccupied(snake)
    ensures forall k :: 0 <= k < |snake| / BoxLen ==>
              !BoxCollision(Chunk(snake, k), CreateBox(x, y, BoxWidth, BoxHeight))
  {
    UnoccupiedMembers(snake, x, y);
    forall k | 0 <= k < |snake| / BoxLen
      ensures !BoxCollision(Chunk(snake, k), CreateBox(x, y, BoxWidth, BoxHeight))
    {
      assert !VertexOccupies(snake, 6 * k, x, y);
      assert Chunk(snake, k)[0] == snake[2 * (6 * k)] && Chunk(snake, k)[1] == snake[2 * (6 * k) + 1];
    }
  }
}
