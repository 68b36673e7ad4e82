/** Grid operations both card variants share: bounds, the cell toggle behind
    `toggleMark`, `grid.flat()`, the numbered-cell filter and `deepCloneGrid`. */
module Grids {
  import opened BingoCard

  predicate InGrid(g: Grid, row: int, col: int)
  {
    0 <= row < |g| && 0 <= col < |g[row]|
  }

  /** `h` has `g`'s shape, ids and values: at most the marks differ. */
  ghost predicate SameLayout(g: Grid, h: Grid)
  {
    && |g| == |h|
    && (forall i :: 0 <= i < |g| ==> |g[i]| == |h[i]|)
    && (forall i, j :: InGrid(g, i, j) ==> h[i][j].id == g[i][j].id && h[i][j].value == g[i][j].value)
  }

  /** The grid's values, row by row. */
  function Values(g: Grid): (vs: seq<seq<Value>>)
    ensures |vs| == |g|
    ensures forall i :: 0 <= i < |g| ==> |vs[i]| == |g[i]|
    ensures forall i, j :: InGrid(g, i, j) ==> vs[i][j] == g[i][j].value
  {
    seq(|g|, i requires 0 <= i < |g| => seq(|g[i]|, j requires 0 <= j < |g[i]| => g[i][j].value))
  }

  /** `deepCloneGrid`: a copy of every cell, `{ ...cell }`. With cells as values
      the copy equals the original; no cell is shared because nothing is. */
  function DeepCopy(g: Grid): (r: Grid)
    ensures r == g
  {
    var r := seq(|g|, i requires 0 <= i < |g| =>
      seq(|g[i]|, j requires 0 <= j < |g[i]| => Cell(g[i][j].id, g[i][j].value, g[i][j].marked)));
    assert forall i :: 0 <= i < |g| ==> r[i] == g[i];
    r
  }

  /** Flips the mark of one cell. */
  function FlipAt(g: Grid, row: int, col: int): (h: Grid)
    requires InGrid(g, row, col)
    ensures SameLayout(g, h)
    ensures h[row][col].marked == !g[row][col].marked
    ensures forall i, j :: InGrid(g, i, j) && (i != row || j != col) ==> h[i][j] == g[i][j]
  {
    g[row := g[row][col := g[row][col].(marked := !g[row][col].marked)]]
  }

  /** The body both variants' `toggleMark` share, for a `rows` x `cols` card:
      out-of-bounds positions, positions missing from a ragged grid and empty
      cells are refused with `false` and no change; any other cell, the FREE
      centre included, has its mark flipped and the answer is `true`. */
  function ToggleAt(g: Grid, row: int, col: int, rows: int, cols: int): (r: (bool, Grid))
    ensures r.0 <==> 0 <= row < rows && 0 <= col < cols && InGrid(g, row, col) && !g[row][col].value.Empty?
    ensures !r.0 ==> r.1 == g
    ensures SameLayout(g, r.1) && Values(r.1) == Values(g)
    ensures r.0 ==> r.1[row][col].marked == !g[row][col].marked
    ensures forall i, j :: InGrid(g, i, j) && (i != row || j != col) ==> r.1[i][j] == g[i][j]
  {
    if !(0 <= row < rows && 0 <= col < cols && InGrid(g, row, col)) then (false, g)
    else if g[row][col].value.Empty? then (false, g)
    else
      var h := FlipAt(g, row, col);
      SameLayoutValues(g, h);
      (true, h)
  }

  /** Grids that differ at most in their marks hold the same values. */
  lemma SameLayoutValues(g: Grid, h: Grid)
    requires SameLayout(g, h)
    ensures Values(g) == Values(h)
  {
    assert forall i :: 0 <= i < |g| ==> Values(g)[i] == Values(h)[i];
  }

  /** Toggling the same position twice gives the same answer both times and
      restores the grid. */
  lemma ToggleTwice(g: Grid, row: int, col: int, rows: int, cols: int)
    ensures ToggleAt(ToggleAt(g, row, col, rows, cols).1, row, col, rows, cols).0 == ToggleAt(g, row, col, rows, cols).0
    ensures ToggleAt(ToggleAt(g, row, col, rows, cols).1, row, col, rows, cols).1 == g
  {
    var (ok, h) := ToggleAt(g, row, col, rows, cols);
    if ok {
      var h2 := ToggleAt(h, row, col, rows, cols).1;
      assert h2[row] == g[row];
    }
  }

  /** `grid.flat()`: the rows concatenated in order. */
  function Flatten(g: Grid): (r: seq<Cell>)
    ensures forall c :: c in r <==> exists i :: 0 <= i < |g| && c in g[i]
  {
    if |g| == 0 then []
    else
      assert forall i :: 0 <= i < |g| - 1 ==> g[1..][i] == g[i + 1];
      g[0] + Flatten(g[1..])
  }

  /** `cells.filter((c) => c.value !== null)`. */
  function Numbered(cells: seq<Cell>): (r: seq<Cell>)
    ensures forall c :: c in r <==> c in cells && !c.value.Empty?
  {
    if |cells| == 0 then []
    else (if cells[0].value.Empty? then [] else [cells[0]]) + Numbered(cells[1..])
  }

  /** `cells.every((c) => c.marked)`. */
  function AllMarked(cells: seq<Cell>): (b: bool)
    ensures b <==> forall c :: c in cells ==> c.marked
    ensures b <==> forall j :: 0 <= j < |cells| ==> cells[j].marked
  {
    if |cells| == 0 then true else cells[0].marked && AllMarked(cells[1..])
  }
}
