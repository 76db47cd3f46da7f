/** Food placement: a free in-bounds cell, and the counting argument that one
    exists whenever the body is shorter than the number of cells. */
module FoodPlacer {
  import opened GridModel

  /** The cells (0, y) .. (w - 1, y) of row `y`. */
  function Row(y: int, w: nat): (s: set<Cell>)
    ensures |s| == w
    ensures forall c :: c in s <==> c.1 == y && 0 <= c.0 < w
  {
    if w == 0 then {} else Row(y, w - 1) + {(w - 1, y)}
  }

  /** The cells of the first `h` rows of the grid. */
  function Rows(h: nat): (s: set<Cell>)
    ensures |s| == h * GridWidth
    ensures forall c :: c in s <==> 0 <= c.0 < GridWidth && 0 <= c.1 < h
  {
    if h == 0 then {}
    else
      var above := Rows(h - 1);
      var row := Row(h - 1, GridWidth);
      assert above * row == {};
      assert (h - 1) * GridWidth + GridWidth == h * GridWidth;
      above + row
  }

  /** A sequence holds no more distinct values than it has elements. */
  lemma {:induction false} DistinctValuesBound(s: seq<Cell>)
    ensures |set c | c in s| <= |s|
  {
    if s != [] {
      var init := s[..|s| - 1];
      DistinctValuesBound(init);
      assert (set c | c in s) == (set c | c in init) + {s[|s| - 1]};
    }
  }

  /** A subset is no larger than its superset. */
  lemma {:induction false} SubsetBound(a: set<Cell>, b: set<Cell>)
    requires a <= b
    ensures |a| <= |b|
    decreases a
  {
    if a != {} {
      var x :| x in a;
      SubsetBound(a - {x}, b - {x});
    }
  }

  /** Pigeonhole: a body shorter than the number of grid cells leaves a cell
      free. */
  lemma FreeCellExists(body: seq<Cell>)
    requires |body| < GridWidth * GridHeight
    ensures exists c :: InBounds(c) && c !in body
  {
    var grid := Rows(GridHeight);
    var occupied := set c | c in body;
    DistinctValuesBound(body);
    if grid <= occupied {
      SubsetBound(grid, occupied);
    }
    var c :| c in grid && c !in occupied;
    assert InBounds(c);
  }

  /** A food cell inside the grid and off the body. The source draws cells at
      random until one is free; only the outcome is modelled, as a choice among
      the free cells. */
  method GenerateFood(body: seq<Cell>) returns (food: Cell)
    requires exists c :: InBounds(c) && c !in body
    ensures InBounds(food) && food !in body
  {
    food :| InBounds(food) && food !in body;
  }
}
