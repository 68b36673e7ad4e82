/** The 75-ball card (`Bingo75Card`): a 5 x 5 grid of five distinct numbers
    per column range with a pre-marked FREE centre, and the card's
    operations — toggling a mark, checking rows, columns and diagonals for a
    line, checking for a full card, cloning and the record round trip. */
module Bingo75 {
  import opened Outcomes
  import opened BingoCard
  import opened Sorting
  import opened Random
  import opened Grids

  /** The number of identifiers a generated grid uses up: one per cell. */
  const GridIds := Rows75 * Cols75

  /** Column c holds numbers from [1 + 15c, 15 + 15c]. */
  function ColumnLow(c: int): int
  {
    MinNumber75 + c * RangePerColumn75
  }

  function ColumnHigh(c: int): int
  {
    ColumnLow(c) + RangePerColumn75 - 1
  }

  predicate IsFreeCell(row: int, col: int)
  {
    row == FreeRow && col == FreeCol
  }

  /** Every constraint a new 75-ball card satisfies: 5 x 5, the centre is FREE
      and marked, every other cell holds an unmarked number from its column's
      range, and no column repeats a number. */
  ghost predicate Layout75(g: Grid)
  {
    && |g| == Rows75
    && (forall r :: 0 <= r < Rows75 ==> |g[r]| == Cols75)
    && g[FreeRow][FreeCol].value == Free && g[FreeRow][FreeCol].marked
    && (forall r, c :: 0 <= r < Rows75 && 0 <= c < Cols75 && !IsFreeCell(r, c) ==>
          g[r][c].value.Num? && ColumnLow(c) <= g[r][c].value.n <= ColumnHigh(c) && !g[r][c].marked)
    && (forall r1, r2, c :: 0 <= r1 < r2 < Rows75 && 0 <= c < Cols75 && g[r1][c].value.Num? && g[r2][c].value.Num? ==>
          g[r1][c].value.n != g[r2][c].value.n)
  }

  /** The cells take the identifiers `uuid(next)`, `uuid(next + 1)`, ... in
      row-major order. */
  ghost predicate IdsFrom(g: Grid, uuid: UuidSource, next: nat)
  {
    forall i, j :: InGrid(g, i, j) ==> g[i][j].id == uuid(next + Cols75 * i + j)
  }

  // ---------------------------------------------------------------------
  // Generation

  /** Five distinct numbers from column c's range, in the order drawn. */
  predicate ColumnDraw(nums: seq<int>, c: int)
  {
    && |nums| == Rows75
    && Distinct(nums)
    && forall k :: 0 <= k < |nums| ==> ColumnLow(c) <= nums[k] <= ColumnHigh(c)
  }

  /** The most draws `getRandomNumbers` makes for one column: ten per
      number of the column's range. */
  const ColumnDraws := RangePerColumn75 * 10

  /** The draws of columns c to 4, each by `getRandomNumbers`. A failed draw
      is not caught: it ends the generation. */
  function DrawColumns(c: nat, env: Env): (r: Gen<seq<seq<int>>>)
    requires ValidTape(env.tape) && c <= Cols75
    decreases Cols75 - c
    ensures Continues(r) && (r.Ok? || r.Thrown? ==> r.env.next == env.next)
    ensures r.Ok? ==> |r.value| == Cols75 - c && forall k :: 0 <= k < |r.value| ==> ColumnDraw(r.value[k], c + k)
    ensures r.Thrown? ==> r.error == UniqueDrawFailed
    ensures r.Ok? ==> |env.tape| - |r.env.tape| <= ColumnDraws * (Cols75 - c)
    ensures r.Exhausted? ==> |env.tape| < ColumnDraws * (Cols75 - c)
  {
    if c == Cols75 then Ok([], env)
    else
      var d := GetRandomNumbers(ColumnLow(c), ColumnHigh(c), Rows75, env);
      if d.Exhausted? then Exhausted
      else if d.Thrown? then Thrown(d.error, d.env)
      else
        var rest := DrawColumns(c + 1, d.env);
        if rest.Exhausted? then Exhausted
        else if rest.Thrown? then Thrown(rest.error, rest.env)
        else
          var all := [d.value] + rest.value;
          assert forall k :: 1 <= k < |all| ==> all[k] == rest.value[k - 1];
          Ok(all, rest.env)
  }

  /** The cell at (row, col): the centre is FREE and pre-marked; any other
      cell holds the column's row-th draw, or 0 when there is none. */
  function CellAt(cols: seq<seq<int>>, uuid: UuidSource, next: nat, row: nat, col: nat): (cell: Cell)
    ensures cell.id == uuid(next + Cols75 * row + col)
    ensures cell.value == Free <==> IsFreeCell(row, col)
    ensures cell.marked <==> IsFreeCell(row, col)
    ensures !IsFreeCell(row, col) && col < |cols| && row < |cols[col]| ==> cell.value == Num(cols[col][row])
    ensures !IsFreeCell(row, col) && !(col < |cols| && row < |cols[col]|) ==> cell.value == Num(0)
  {
    var id := uuid(next + Cols75 * row + col);
    if IsFreeCell(row, col) then Cell(id, Free, true)
    else if col < |cols| && row < |cols[col]| then Cell(id, Num(cols[col][row]), false)
    else Cell(id, Num(0), false)
  }

  /** The grid built from the column draws: draws are transposed into rows,
      and ids are taken row by row. */
  function BuildGrid(cols: seq<seq<int>>, uuid: UuidSource, next: nat): (g: Grid)
    ensures |g| == Rows75 && forall r :: 0 <= r < Rows75 ==> |g[r]| == Cols75
    ensures IdsFrom(g, uuid, next)
    ensures g[FreeRow][FreeCol].value == Free && g[FreeRow][FreeCol].marked
    ensures forall r, c :: 0 <= r < Rows75 && 0 <= c < |cols| && c < Cols75 && r < |cols[c]| && !IsFreeCell(r, c) ==>
      g[r][c].value == Num(cols[c][r]) && !g[r][c].marked
  {
    seq(Rows75, r requires 0 <= r < Rows75 => seq(Cols75, c requires 0 <= c < Cols75 => CellAt(cols, uuid, next, r, c)))
  }

  /** `generateGrid`: five columns of draws turned into a grid whose every
      non-centre cell is its column's draw for that row. */
  function GenerateGrid(env: Env, uuid: UuidSource): (r: Gen<Grid>)
    requires ValidTape(env.tape)
    ensures Continues(r)
    ensures r.Ok? ==> Layout75(r.value) && IdsFrom(r.value, uuid, env.next) && r.env.next == env.next + GridIds
    ensures r.Ok? ==> DrawColumns(0, env).Ok? && forall row, col :: 0 <= row < Rows75 && 0 <= col < Cols75 && !IsFreeCell(row, col) ==>
      r.value[row][col].value == Num(DrawColumns(0, env).value[col][row])
    ensures r.Thrown? ==> r.error == UniqueDrawFailed && r.env.next == env.next
    ensures r.Ok? ==> |env.tape| - |r.env.tape| <= ColumnDraws * Cols75
    ensures r.Exhausted? ==> |env.tape| < ColumnDraws * Cols75
  {
    var cols := DrawColumns(0, env);
    if cols.Exhausted? then Exhausted
    else if cols.Thrown? then Thrown(cols.error, cols.env)
    else
      var g := BuildGrid(cols.value, uuid, env.next);
      BuiltLayout(cols.value, g, uuid, env.next);
      Ok(g, Env(cols.env.tape, env.next + GridIds))
  }

  lemma BuiltLayout(cols: seq<seq<int>>, g: Grid, uuid: UuidSource, next: nat)
    requires |cols| == Cols75 && forall c :: 0 <= c < Cols75 ==> ColumnDraw(cols[c], c)
    requires g == BuildGrid(cols, uuid, next)
    ensures Layout75(g)
  {
    forall r1, r2, c | 0 <= r1 < r2 < Rows75 && 0 <= c < Cols75 && g[r1][c].value.Num? && g[r2][c].value.Num?
      ensures g[r1][c].value.n != g[r2][c].value.n
    {
      assert !IsFreeCell(r1, c) && !IsFreeCell(r2, c);
    }
  }

  /** `new Bingo75Card(id)`: the given id or a fresh one, then a generated
      grid; `NewGridNoLine` shows it has neither a line nor a full card. */
  function NewCard(id: string, env: Env, uuid: UuidSource): (r: Gen<Card>)
    requires ValidTape(env.tape)
    ensures Continues(r)
    ensures r.Ok? ==> r.value.kind == Bingo75 && Layout75(r.value.grid)
    ensures r.Ok? ==> r.value.id == ResolveId(id, uuid, env.next)
    ensures r.Ok? ==> IdsFrom(r.value.grid, uuid, env.next + IdsUsed(id))
    ensures r.Ok? ==> r.env.next == env.next + IdsUsed(id) + GridIds
    ensures r.Thrown? ==> r.error == UniqueDrawFailed
    ensures r.Ok? ==> |env.tape| - |r.env.tape| <= ColumnDraws * Cols75
    ensures r.Exhausted? ==> |env.tape| < ColumnDraws * Cols75
  {
    var cid := ResolveId(id, uuid, env.next);
    var start := Env(env.tape, env.next + IdsUsed(id));
    var g := GenerateGrid(start, uuid);
    if g.Exhausted? then Exhausted
    else if g.Thrown? then Thrown(g.error, g.env)
    else
      assert IdsFrom(g.value, uuid, start.next);
      Ok(Card(cid, Bingo75, g.value), g.env)
  }

  /** Distinct cells of a 5 x 5 grid with ids drawn in row-major order have
      distinct identifiers when the source never repeats one. */
  lemma CellIdsFresh(g: Grid, uuid: UuidSource, next: nat)
    requires |g| == Rows75 && (forall i :: 0 <= i < Rows75 ==> |g[i]| == Cols75)
    requires IdsFrom(g, uuid, next) && Injective(uuid)
    ensures forall i1, j1, i2, j2 :: InGrid(g, i1, j1) && InGrid(g, i2, j2) && (i1 != i2 || j1 != j2) ==>
      g[i1][j1].id != g[i2][j2].id
    ensures forall i, j, k: nat :: InGrid(g, i, j) && k < next ==> g[i][j].id != uuid(k)
  {
    forall i1, j1, i2, j2 | InGrid(g, i1, j1) && InGrid(g, i2, j2) && (i1 != i2 || j1 != j2)
      ensures g[i1][j1].id != g[i2][j2].id
    {
      assert next + Cols75 * i1 + j1 != next + Cols75 * i2 + j2;
    }
  }

  // ---------------------------------------------------------------------
  // Card operations

  /** `isValidPosition`: inside the 5 x 5 bounds and present in the grid.
      On a grid of the card's shape only the bounds matter; a record with
      fewer rows or cells refuses the positions it lacks. */
  function IsValidPosition(g: Grid, row: int, col: int): (b: bool)
    ensures b ==> 0 <= row < Rows75 && 0 <= col < Cols75
    ensures b ==> 0 <= row < |g| && 0 <= col < |g[row]|
    ensures row >= |g| ==> !b
    ensures (|g| == Rows75 && forall i :: 0 <= i < Rows75 ==> |g[i]| == Cols75) ==>
      (b <==> 0 <= row < Rows75 && 0 <= col < Cols75)
  {
    0 <= row < Rows75 && 0 <= col < Cols75 && InGrid(g, row, col)
  }

  /** `toggleMark`: flips the mark of any non-empty cell at a valid position,
      the FREE centre included, and answers `true`; refuses an invalid
      position or an empty cell with `false` and no change. */
  function ToggleMark(c: Card, row: int, col: int): (r: (bool, Card))
    ensures r.0 <==> IsValidPosition(c.grid, row, col) && !c.grid[row][col].value.Empty?
    ensures !r.0 ==> r.1 == c
    ensures r.1.id == c.id && r.1.kind == c.kind
    ensures SameLayout(c.grid, r.1.grid) && Values(r.1.grid) == Values(c.grid)
    ensures r.0 ==> r.1.grid[row][col].marked == !c.grid[row][col].marked
    ensures forall i, j :: InGrid(c.grid, i, j) && (i != row || j != col) ==> r.1.grid[i][j] == c.grid[i][j]
  {
    var (ok, g) := ToggleAt(c.grid, row, col, Rows75, Cols75);
    (ok, c.(grid := g))
  }

  /** Toggling the same position twice restores the card. */
  lemma ToggleMarkTwice(c: Card, row: int, col: int)
    ensures ToggleMark(ToggleMark(c, row, col).1, row, col).1 == c
  {
    ToggleTwice(c.grid, row, col, Rows75, Cols75);
  }

  /** Which cell of each row a column or diagonal check looks at. */
  datatype Sweep = Column(col: int) | MainDiagonal | AntiDiagonal

  /** The anti-diagonal's column in row `idx`: `COLS - 1 - idx`. */
  function AntiCol(idx: int): int
  {
    Cols75 - 1 - idx
  }

  /** The column a sweep looks at in row `idx`. */
  function SweepCol(s: Sweep, idx: int): int
  {
    match s
    case Column(col) => col
    case MainDiagonal => idx
    case AntiDiagonal => AntiCol(idx)
  }

  /** `row[col]?.marked` for the cell a sweep looks at in row i: a missing
      cell counts as unmarked. */
  predicate SweepHit(g: Grid, s: Sweep, i: int)
    requires 0 <= i < |g|
  {
    var col := SweepCol(s, i);
    0 <= col < |g[i]| && g[i][col].marked
  }

  /** `grid.every((row, idx) => row[col]?.marked)` from row i on. */
  function EveryRowFrom(g: Grid, s: Sweep, i: nat): (b: bool)
    decreases |g| - i
    ensures b <==> forall k :: i <= k < |g| ==> SweepHit(g, s, k)
  {
    if i >= |g| then true else SweepHit(g, s, i) && EveryRowFrom(g, s, i + 1)
  }

  /** Row r is present and every cell of it is marked. */
  ghost predicate RowLine(g: Grid, r: int)
  {
    0 <= r < |g| && forall j :: 0 <= j < |g[r]| ==> g[r][j].marked
  }

  /** Every row has a marked cell in column c. */
  ghost predicate ColumnLine(g: Grid, c: int)
  {
    forall i :: 0 <= i < |g| ==> 0 <= c < |g[i]| && g[i][c].marked
  }

  /** Every row i has a marked cell at (i, i). */
  ghost predicate MainLine(g: Grid)
  {
    forall i :: 0 <= i < |g| ==> i < |g[i]| && g[i][i].marked
  }

  /** Every row i has a marked cell at (i, 4 - i). */
  ghost predicate AntiLine(g: Grid)
  {
    forall i :: 0 <= i < |g| ==> 0 <= AntiCol(i) < |g[i]| && g[i][AntiCol(i)].marked
  }

  /** The row loop of `checkLine` over rows r to 4; `grid[r]` may be
      missing, and is then skipped. */
  function AnyRowMarked(g: Grid, r: nat): (b: bool)
    decreases Rows75 - r
    ensures b <==> exists k :: r <= k < Rows75 && RowLine(g, k)
  {
    if r >= Rows75 then false
    else
      assert RowLine(g, r) <==> r < |g| && AllMarked(g[r]);
      (r < |g| && AllMarked(g[r])) || AnyRowMarked(g, r + 1)
  }

  /** The column loop of `checkLine` over columns c to 4. */
  function AnyColumnMarked(g: Grid, c: nat): (b: bool)
    decreases Cols75 - c
    ensures b <==> exists k :: c <= k < Cols75 && ColumnLine(g, k)
  {
    if c >= Cols75 then false
    else
      assert EveryRowFrom(g, Column(c), 0) <==> ColumnLine(g, c) by {
        assert forall i :: 0 <= i < |g| ==> (SweepHit(g, Column(c), i) <==> 0 <= c < |g[i]| && g[i][c].marked);
      }
      EveryRowFrom(g, Column(c), 0) || AnyColumnMarked(g, c + 1)
  }

  /** `checkLine`: some row, some column, the main diagonal or the
      anti-diagonal is entirely marked. The checks follow the grid as it
      is: a missing row is skipped, a missing cell breaks a column or a
      diagonal, and on a grid with no rows the column check holds. */
  function CheckLine(g: Grid): (b: bool)
    ensures b <==> || (exists r :: 0 <= r < Rows75 && RowLine(g, r))
                   || (exists c :: 0 <= c < Cols75 && ColumnLine(g, c))
                   || MainLine(g)
                   || AntiLine(g)
  {
    assert EveryRowFrom(g, MainDiagonal, 0) <==> MainLine(g) by {
      assert forall i :: 0 <= i < |g| ==> (SweepHit(g, MainDiagonal, i) <==> i < |g[i]| && g[i][i].marked);
    }
    AntiSweep(g);
    AnyRowMarked(g, 0) || AnyColumnMarked(g, 0) || EveryRowFrom(g, MainDiagonal, 0) || EveryRowFrom(g, AntiDiagonal, 0)
  }

  lemma AntiSweep(g: Grid)
    ensures EveryRowFrom(g, AntiDiagonal, 0) <==> AntiLine(g)
  {
    assert forall i :: 0 <= i < |g| ==> (SweepHit(g, AntiDiagonal, i) <==> 0 <= AntiCol(i) < |g[i]| && g[i][AntiCol(i)].marked);
  }

  /** `checkFull`: every cell, the FREE centre included, is marked. */
  function CheckFull(g: Grid): (b: bool)
    ensures b <==> forall i, j :: InGrid(g, i, j) ==> g[i][j].marked
  {
    var all := Flatten(g);
    assert AllMarked(all) ==> forall i, j :: InGrid(g, i, j) ==> g[i][j].marked by {
      if AllMarked(all) {
        forall i, j | InGrid(g, i, j) ensures g[i][j].marked {
          assert g[i][j] in g[i];
        }
      }
    }
    AllMarked(all)
  }

  /** The i-th cell of the k-th of the twelve lines of a 5 x 5 card: rows
      0 to 4, columns 5 to 9, the main diagonal 10 and the anti-diagonal 11. */
  function LineCell(k: int, i: int): (int, int)
  {
    if k < 5 then (k, i)
    else if k < 10 then (i, k - 5)
    else if k == 10 then (i, i)
    else (i, 4 - i)
  }

  ghost predicate LineMarked(g: Grid, k: int)
    requires |g| == Rows75 && forall r :: 0 <= r < Rows75 ==> |g[r]| == Cols75
    requires 0 <= k < 12
  {
    forall i :: 0 <= i < 5 ==> g[LineCell(k, i).0][LineCell(k, i).1].marked
  }

  /** On a 5 x 5 grid, `checkLine` holds exactly when one of the twelve lines
      is entirely marked. */
  lemma CheckLineTwelveLines(g: Grid)
    requires |g| == Rows75 && forall r :: 0 <= r < Rows75 ==> |g[r]| == Cols75
    ensures CheckLine(g) <==> exists k :: 0 <= k < 12 && LineMarked(g, k)
  {
    if CheckLine(g) {
      LineFound(g);
    }
    if k :| 0 <= k < 12 && LineMarked(g, k) {
      LineChecked(g, k);
    }
  }

  lemma LineFound(g: Grid)
    requires |g| == Rows75 && forall r :: 0 <= r < Rows75 ==> |g[r]| == Cols75
    requires CheckLine(g)
    ensures exists k :: 0 <= k < 12 && LineMarked(g, k)
  {
    if r :| 0 <= r < Rows75 && RowLine(g, r) {
      assert LineMarked(g, r);
    } else if c :| 0 <= c < Cols75 && ColumnLine(g, c) {
      assert LineMarked(g, c + 5);
    } else if MainLine(g) {
      assert LineMarked(g, 10);
    } else {
      assert LineMarked(g, 11);
    }
  }

  lemma LineChecked(g: Grid, k: int)
    requires |g| == Rows75 && forall r :: 0 <= r < Rows75 ==> |g[r]| == Cols75
    requires 0 <= k < 12 && LineMarked(g, k)
    ensures CheckLine(g)
  {
    if k < 5 {
      forall j | 0 <= j < |g[k]| ensures g[k][j].marked {
        assert LineCell(k, j) == (k, j);
      }
      assert RowLine(g, k);
    } else if k < 10 {
      forall i | 0 <= i < |g| ensures g[i][k - 5].marked {
        assert LineCell(k, i) == (i, k - 5);
      }
      assert ColumnLine(g, k - 5);
    } else if k == 10 {
      forall i | 0 <= i < |g| ensures g[i][i].marked {
        assert LineCell(k, i) == (i, i);
      }
      assert MainLine(g);
    } else {
      forall i | 0 <= i < |g| ensures g[i][4 - i].marked {
        assert LineCell(k, i) == (i, 4 - i);
      }
      assert AntiLine(g);
    }
  }

  /** A full card has a line. */
  lemma FullHasLine(g: Grid)
    requires CheckFull(g)
    ensures CheckLine(g)
  {
    if |g| > 0 {
      assert RowLine(g, 0);
    }
  }

  /** A grid with no rows passes both checks: every `every` over it holds. */
  lemma EmptyGridLineAndFull()
    ensures CheckLine([]) && CheckFull([])
  {
  }

  /** A new card has no line, and so is not full either: every line has an
      unmarked number. */
  lemma NewGridNoLine(g: Grid)
    requires Layout75(g)
    ensures !CheckLine(g) && !CheckFull(g)
  {
    assert !IsFreeCell(0, 0) && !IsFreeCell(0, Cols75 - 1);
    assert !g[0][0].marked && !g[0][Cols75 - 1].marked;
    assert !MainLine(g) && !AntiLine(g);
    forall r | 0 <= r < Rows75 ensures !RowLine(g, r) {
      assert !IsFreeCell(r, 0);
    }
    forall c | 0 <= c < Cols75 ensures !ColumnLine(g, c) {
      assert !IsFreeCell(0, c);
    }
  }

  /** `clone`: a card with the same id and a deep copy of the grid. */
  function Clone(c: Card): (r: Card)
    requires c.kind == Bingo75
    ensures r == c
  {
    Card(c.id, Bingo75, DeepCopy(c.grid))
  }

  /** `toJSON`: the id, the tag "75" and a deep copy of the grid. */
  function ToJson(c: Card): (j: CardJson)
    requires c.kind == Bingo75
    ensures j.id == c.id && j.tag == "75" && j.grid == c.grid
  {
    CardJson(c.id, Tag(Bingo75), DeepCopy(c.grid))
  }

  /** `Bingo75Card.fromJSON`: refuses any tag other than "75"; otherwise
      builds the card from the record's id and a deep copy of its grid. An
      empty id is replaced by `newId`, the identifier the constructor would
      draw. */
  function FromJson(j: CardJson, newId: NonEmptyString): (r: Result<Card>)
    ensures r.Failure? <==> j.tag != "75"
    ensures r.Failure? ==> r.error == InvalidCardType
    ensures r.Success? ==> r.value.kind == Bingo75 && r.value.grid == j.grid
    ensures r.Success? ==> r.value.id == (if j.id == "" then newId else j.id)
  {
    if j.tag != Tag(Bingo75) then Failure(InvalidCardType)
    else Success(Card(if j.id != "" then j.id else newId, Bingo75, DeepCopy(j.grid)))
  }

  /** Reading back a card's record gives the card back. */
  lemma FromJsonToJson(c: Card, newId: NonEmptyString)
    requires c.kind == Bingo75
    ensures FromJson(ToJson(c), newId) == Success(c)
  {
  }

  /** Writing out a card read from a "75" record with an id gives the record
      back. */
  lemma ToJsonFromJson(j: CardJson, newId: NonEmptyString)
    requires j.tag == "75" && j.id != ""
    ensures FromJson(j, newId).Success? && ToJson(FromJson(j, newId).value) == j
  {
  }
}
