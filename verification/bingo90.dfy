/** The 90-ball card (`Bingo90Card`): grid generation with up to 100 layout
    attempts, and the card's operations — toggling a mark, checking for a line
    or a full card, cloning and the record round trip. */
module Bingo90 {
  import opened Outcomes
  import opened BingoCard
  import opened Random
  import opened Grids
  import opened Attempt90

  /** `generateGrid` gives up after this many rejected attempts. */
  const MaxAttempts := 100

  /** The number of identifiers a generated grid uses up: one per cell. */
  const GridIds := Rows90 * Cols90

  /** No cell is marked. */
  ghost predicate NoMarks(g: Grid)
  {
    forall i, j :: InGrid(g, i, j) ==> !g[i][j].marked
  }

  /** The cells of a grid of `Cols90`-wide rows take the identifiers
      `uuid(next)`, `uuid(next + 1)`, ... in row-major order. */
  ghost predicate IdsFrom(g: Grid, uuid: UuidSource, next: nat)
  {
    forall i, j :: InGrid(g, i, j) ==> g[i][j].id == uuid(next + Cols90 * i + j)
  }

  // ---------------------------------------------------------------------
  // Generation

  /** `gridRaw.map(...)`: a fresh, unmarked cell for every raw value, each
      with a new identifier, taken row by row. */
  function MakeCells(vg: seq<seq<Value>>, uuid: UuidSource, next: nat): (g: Grid)
    requires forall i :: 0 <= i < |vg| ==> |vg[i]| == Cols90
    ensures Values(g) == vg
    ensures NoMarks(g) && IdsFrom(g, uuid, next)
  {
    var g := seq(|vg|, i requires 0 <= i < |vg| =>
      seq(Cols90, j requires 0 <= j < Cols90 => Cell(uuid(next + Cols90 * i + j), vg[i][j], false)));
    assert forall i :: 0 <= i < |vg| ==> Values(g)[i] == vg[i];
    g
  }

  /** Distinct cells of a 3 x 9 grid built by `MakeCells` have distinct
      identifiers when the source never repeats one, and none of them is an
      identifier drawn before `next`. */
  lemma CellIdsFresh(g: Grid, uuid: UuidSource, next: nat)
    requires |g| == Rows90 && (forall i :: 0 <= i < Rows90 ==> |g[i]| == Cols90)
    requires IdsFrom(g, uuid, next) && Injective(uuid)
    ensures forall i1, j1, i2, j2 :: InGrid(g, i1, j1) && InGrid(g, i2, j2) && (i1 != i2 || j1 != j2) ==>
      g[i1][j1].id != g[i2][j2].id
    ensures forall i, j, k: nat :: InGrid(g, i, j) && k < next ==> g[i][j].id != uuid(k)
  {
    forall i1, j1, i2, j2 | InGrid(g, i1, j1) && InGrid(g, i2, j2) && (i1 != i2 || j1 != j2)
      ensures g[i1][j1].id != g[i2][j2].id
    {
      assert next + Cols90 * i1 + j1 != next + Cols90 * i2 + j2;
    }
  }

  /** The `generateGrid` loop from attempt number `attempts` on. A rejected
      attempt is caught and counted; the first accepted one is turned into
      cells; once 100 attempts are rejected the generation fails. */
  function GenerateFrom(attempts: nat, env: Env, uuid: UuidSource): (r: Gen<Grid>)
    requires ValidTape(env.tape) && attempts <= MaxAttempts
    decreases MaxAttempts - attempts
    ensures Continues(r)
    ensures r.Ok? ==> Layout90(Values(r.value)) && NoMarks(r.value)
    ensures r.Ok? ==> IdsFrom(r.value, uuid, env.next) && r.env.next == env.next + GridIds
    ensures r.Thrown? ==> r.error == GenerationFailed && r.env.next == env.next
  {
    if attempts < MaxAttempts then
      var raw := TryGenerateRaw(env);
      if raw.Exhausted? then Exhausted
      else if raw.Thrown? then GenerateFrom(attempts + 1, raw.env, uuid)
      else Ok(MakeCells(raw.value, uuid, raw.env.next), Env(raw.env.tape, raw.env.next + GridIds))
    else Thrown(GenerationFailed, env)
  }

  /** The randomness left after `n` consecutive attempts that were each
      rejected because a column's numbers could not be drawn, or `None` when
      one of them ends otherwise. */
  function AfterFailedDraws(n: nat, env: Env): (r: Option<Env>)
    requires ValidTape(env.tape)
    ensures r.Some? ==> ValidTape(r.value.tape) && r.value.next == env.next
  {
    if n == 0 then Some(env)
    else
      var raw := TryGenerateRaw(env);
      if raw.Thrown? && raw.error == UniqueDrawFailed then AfterFailedDraws(n - 1, raw.env) else None
  }

  /** Generation fails exactly when every remaining attempt is rejected, and
      each of those rejections is a failed number draw: the row assignment
      never rejects an attempt. */
  lemma {:induction false} GenerationFailsOnlyOnDraws(attempts: nat, env: Env, uuid: UuidSource)
    requires ValidTape(env.tape) && attempts <= MaxAttempts
    ensures GenerateFrom(attempts, env, uuid).Thrown? <==> AfterFailedDraws(MaxAttempts - attempts, env).Some?
    ensures GenerateFrom(attempts, env, uuid).Thrown? ==>
      GenerateFrom(attempts, env, uuid).env == AfterFailedDraws(MaxAttempts - attempts, env).value
    decreases MaxAttempts - attempts
  {
    if attempts < MaxAttempts {
      var raw := TryGenerateRaw(env);
      if raw.Thrown? {
        RejectedAttempt(attempts, env, uuid);
        GenerationFailsOnlyOnDraws(attempts + 1, raw.env, uuid);
      } else {
        SettledAttempt(attempts, env, uuid);
      }
    } else {
      assert GenerateFrom(attempts, env, uuid) == Thrown(GenerationFailed, env);
      assert AfterFailedDraws(MaxAttempts - attempts, env) == Some(env);
    }
  }

  /** A rejected attempt moves both generation and the failed-draw count on
      to the next attempt. */
  lemma RejectedAttempt(attempts: nat, env: Env, uuid: UuidSource)
    requires ValidTape(env.tape) && attempts < MaxAttempts && TryGenerateRaw(env).Thrown?
    ensures var next := TryGenerateRaw(env).env;
      && GenerateFrom(attempts, env, uuid) == GenerateFrom(attempts + 1, next, uuid)
      && AfterFailedDraws(MaxAttempts - attempts, env) == AfterFailedDraws(MaxAttempts - (attempts + 1), next)
  {
    AttemptOnlyFailsOnDraws(env);
  }

  /** An attempt that is not rejected ends generation without a throw and
      breaks the run of failed draws. */
  lemma SettledAttempt(attempts: nat, env: Env, uuid: UuidSource)
    requires ValidTape(env.tape) && attempts < MaxAttempts && !TryGenerateRaw(env).Thrown?
    ensures !GenerateFrom(attempts, env, uuid).Thrown?
    ensures AfterFailedDraws(MaxAttempts - attempts, env).None?
  {
  }

  /** `new Bingo90Card(id)`: the given id or a fresh one, then a generated
      grid. */
  function NewCard(id: string, env: Env, uuid: UuidSource): (r: Gen<Card>)
    requires ValidTape(env.tape)
    ensures Continues(r)
    ensures r.Ok? ==> r.value.kind == Bingo90 && Layout90(Values(r.value.grid)) && NoMarks(r.value.grid)
    ensures r.Ok? ==> r.value.id == ResolveId(id, uuid, env.next)
    ensures r.Ok? ==> IdsFrom(r.value.grid, uuid, env.next + IdsUsed(id))
    ensures r.Ok? ==> r.env.next == env.next + IdsUsed(id) + GridIds
    ensures r.Thrown? ==> r.error == GenerationFailed
    ensures TryGenerateRaw(Env(env.tape, env.next + IdsUsed(id))).Ok? ==>
      r.Ok? && r.env.tape == TryGenerateRaw(Env(env.tape, env.next + IdsUsed(id))).env.tape
  {
    var cid := ResolveId(id, uuid, env.next);
    var start := Env(env.tape, env.next + IdsUsed(id));
    FirstAttemptAccepted(start, uuid);
    var g := GenerateFrom(0, start, uuid);
    if g.Exhausted? then Exhausted
    else if g.Thrown? then Thrown(g.error, g.env)
    else
      assert IdsFrom(g.value, uuid, start.next);
      Ok(Card(cid, Bingo90, g.value), g.env)
  }

  /** When the first attempt is accepted, generation yields its grid and
      leaves the randomness the attempt leaves. */
  lemma FirstAttemptAccepted(env: Env, uuid: UuidSource)
    requires ValidTape(env.tape)
    ensures TryGenerateRaw(env).Ok? ==> GenerateFrom(0, env, uuid).Ok?
    ensures TryGenerateRaw(env).Ok? ==> GenerateFrom(0, env, uuid).env.tape == TryGenerateRaw(env).env.tape
  {
  }

  /** Generation does not have to run out of randomness: on a tape starting
      with the 21 sample draws the first attempt is accepted and a card is
      created under the identifier the caller gives. */
  lemma SampleTapeMakesCard(id: string, rest: seq<real>, next: nat, uuid: UuidSource)
    requires ValidTape(rest) && id != ""
    ensures ValidTape(SampleTape90(rest))
    ensures NewCard(id, Env(SampleTape90(rest), next), uuid).Ok?
    ensures NewCard(id, Env(SampleTape90(rest), next), uuid).env.tape == rest
  {
    SampleAttemptAccepted(rest, next);
  }

  // ---------------------------------------------------------------------
  // Card operations

  /** `isValidPosition`: inside the 3 x 9 bounds and present in the grid.
      On a grid of the card's shape only the bounds matter; a record with
      fewer rows or cells refuses the positions it lacks. */
  function IsValidPosition(g: Grid, row: int, col: int): (b: bool)
    ensures b ==> 0 <= row < Rows90 && 0 <= col < Cols90
    ensures b ==> 0 <= row < |g| && 0 <= col < |g[row]|
    ensures row >= |g| ==> !b
    ensures (|g| == Rows90 && forall i :: 0 <= i < Rows90 ==> |g[i]| == Cols90) ==>
      (b <==> 0 <= row < Rows90 && 0 <= col < Cols90)
  {
    0 <= row < Rows90 && 0 <= col < Cols90 && InGrid(g, row, col)
  }

  /** `toggleMark`: flips the mark of a non-empty cell at a valid position
      (a number, or a FREE cell that a record may carry) and answers `true`;
      refuses an invalid position or an empty cell with `false` and no
      change. Ids, values and every other cell stay. */
  function ToggleMark(c: Card, row: int, col: int): (r: (bool, Card))
    ensures r.0 <==> IsValidPosition(c.grid, row, col) && !c.grid[row][col].value.Empty?
    ensures !r.0 ==> r.1 == c
    ensures r.1.id == c.id && r.1.kind == c.kind
    ensures SameLayout(c.grid, r.1.grid) && Values(r.1.grid) == Values(c.grid)
    ensures r.0 ==> r.1.grid[row][col].marked == !c.grid[row][col].marked
    ensures forall i, j :: InGrid(c.grid, i, j) && (i != row || j != col) ==> r.1.grid[i][j] == c.grid[i][j]
  {
    var (ok, g) := ToggleAt(c.grid, row, col, Rows90, Cols90);
    (ok, c.(grid := g))
  }

  /** Toggling the same position twice restores the card. */
  lemma ToggleMarkTwice(c: Card, row: int, col: int)
    ensures ToggleMark(ToggleMark(c, row, col).1, row, col).1 == c
  {
    ToggleTwice(c.grid, row, col, Rows90, Cols90);
  }

  /** Toggling keeps a valid layout valid: only marks change. */
  lemma ToggleMarkKeepsLayout(c: Card, row: int, col: int)
    requires Layout90(Values(c.grid))
    ensures Layout90(Values(ToggleMark(c, row, col).1.grid))
  {
  }

  /** A row is a line when it has a numbered cell and all its numbered cells
      are marked; empty cells are ignored. */
  ghost predicate RowIsLine(row: seq<Cell>)
  {
    && (exists j :: 0 <= j < |row| && !row[j].value.Empty?)
    && (forall j :: 0 <= j < |row| && !row[j].value.Empty? ==> row[j].marked)
  }

  /** The loop body of `checkLine`: the row's numbered cells are not none and
      all marked. */
  predicate RowComplete(row: seq<Cell>)
  {
    var numbered := Numbered(row);
    |numbered| > 0 && AllMarked(numbered)
  }

  lemma RowCompleteIsLine(row: seq<Cell>)
    ensures RowComplete(row) <==> RowIsLine(row)
  {
    var numbered := Numbered(row);
    if RowIsLine(row) {
      var j :| 0 <= j < |row| && !row[j].value.Empty?;
      assert row[j] in numbered;
    }
    if RowComplete(row) {
      assert numbered[0] in numbered;
      forall j | 0 <= j < |row| && !row[j].value.Empty? ensures row[j].marked {
        assert row[j] in numbered;
      }
    }
  }

  /** `checkLine`: some row is a line. */
  function CheckLine(g: Grid): (b: bool)
    ensures b <==> exists i :: 0 <= i < |g| && RowIsLine(g[i])
  {
    if |g| == 0 then false
    else
      RowCompleteIsLine(g[0]);
      assert forall i :: 0 <= i < |g| - 1 ==> g[1..][i] == g[i + 1];
      RowComplete(g[0]) || CheckLine(g[1..])
  }

  /** `checkFull`: the grid has a numbered cell and every numbered cell is
      marked; a grid of empty cells only is not full. */
  function CheckFull(g: Grid): (b: bool)
    ensures b <==> ((exists i, j :: InGrid(g, i, j) && !g[i][j].value.Empty?)
                    && (forall i, j :: InGrid(g, i, j) && !g[i][j].value.Empty? ==> g[i][j].marked))
  {
    var all := Numbered(Flatten(g));
    FullIsEveryNumberedMarked(g);
    |all| > 0 && AllMarked(all)
  }

  lemma FullIsEveryNumberedMarked(g: Grid)
    ensures |Numbered(Flatten(g))| > 0 <==> exists i, j :: InGrid(g, i, j) && !g[i][j].value.Empty?
    ensures AllMarked(Numbered(Flatten(g))) <==>
      forall i, j :: InGrid(g, i, j) && !g[i][j].value.Empty? ==> g[i][j].marked
  {
    var all := Numbered(Flatten(g));
    if exists i, j :: InGrid(g, i, j) && !g[i][j].value.Empty? {
      var i, j :| InGrid(g, i, j) && !g[i][j].value.Empty?;
      assert g[i][j] in g[i];
      assert g[i][j] in all;
    }
    if |all| > 0 {
      assert all[0] in all;
      var i :| 0 <= i < |g| && all[0] in g[i];
      var j :| 0 <= j < |g[i]| && g[i][j] == all[0];
    }
    if AllMarked(all) {
      forall i, j | InGrid(g, i, j) && !g[i][j].value.Empty? ensures g[i][j].marked {
        assert g[i][j] in g[i];
        assert g[i][j] in all;
      }
    }
    if forall i, j :: InGrid(g, i, j) && !g[i][j].value.Empty? ==> g[i][j].marked {
      forall x | x in all ensures x.marked {
        var i :| 0 <= i < |g| && x in g[i];
        var j :| 0 <= j < |g[i]| && g[i][j] == x;
      }
    }
  }

  /** A full card has a line. */
  lemma FullHasLine(g: Grid)
    requires CheckFull(g)
    ensures CheckLine(g)
  {
    var i, j :| InGrid(g, i, j) && !g[i][j].value.Empty?;
    assert RowIsLine(g[i]);
  }

  /** A grid without marks, as every new card's is, has no line and is not
      full. */
  lemma NewGridNoLine(g: Grid)
    requires NoMarks(g)
    ensures !CheckLine(g) && !CheckFull(g)
  {
    forall i | 0 <= i < |g| ensures !RowIsLine(g[i]) {
      if j :| 0 <= j < |g[i]| && !g[i][j].value.Empty? {
        assert InGrid(g, i, j);
      }
    }
    if i, j :| InGrid(g, i, j) && !g[i][j].value.Empty? {
      assert !g[i][j].marked;
    }
  }

  /** On a full card, toggling any cell that accepts the toggle unmarks a
      numbered cell, so the card is no longer full. */
  lemma ToggleBreaksFull(c: Card, row: int, col: int)
    requires CheckFull(c.grid) && ToggleMark(c, row, col).0
    ensures !CheckFull(ToggleMark(c, row, col).1.grid)
  {
    var h := ToggleMark(c, row, col).1.grid;
    assert InGrid(h, row, col) && !h[row][col].value.Empty? && !h[row][col].marked;
  }

  /** `clone`: a card with the same id and a deep copy of the grid. */
  function Clone(c: Card): (r: Card)
    requires c.kind == Bingo90
    ensures r == c
  {
    Card(c.id, Bingo90, DeepCopy(c.grid))
  }

  /** `toJSON`: the id, the tag "90" and a deep copy of the grid. */
  function ToJson(c: Card): (j: CardJson)
    requires c.kind == Bingo90
    ensures j.id == c.id && j.tag == "90" && j.grid == c.grid
  {
    CardJson(c.id, Tag(Bingo90), DeepCopy(c.grid))
  }

  /** `Bingo90Card.fromJSON`: refuses any tag other than "90"; otherwise
      builds the card from the record's id and a deep copy of its grid. An
      empty id is replaced by `newId`, the identifier the constructor would
      draw. */
  function FromJson(j: CardJson, newId: NonEmptyString): (r: Result<Card>)
    ensures r.Failure? <==> j.tag != "90"
    ensures r.Failure? ==> r.error == InvalidCardType
    ensures r.Success? ==> r.value.kind == Bingo90 && r.value.grid == j.grid
    ensures r.Success? ==> r.value.id == (if j.id == "" then newId else j.id)
  {
    if j.tag != Tag(Bingo90) then Failure(InvalidCardType)
    else Success(Card(if j.id != "" then j.id else newId, Bingo90, DeepCopy(j.grid)))
  }

  /** Reading back a card's record gives the card back. */
  lemma FromJsonToJson(c: Card, newId: NonEmptyString)
    requires c.kind == Bingo90
    ensures FromJson(ToJson(c), newId) == Success(c)
  {
  }

  /** Writing out a card read from a "90" record with an id gives the record
      back. */
  lemma ToJsonFromJson(j: CardJson, newId: NonEmptyString)
    requires j.tag == "90" && j.id != ""
    ensures FromJson(j, newId).Success? && ToJson(FromJson(j, newId).value) == j
  {
  }
}
