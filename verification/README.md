# Bingo card engine — a Dafny model

This project models the card engine of a bingo application: the two card
variants and the factory that creates them.

- **The 75-ball card** is a 5 x 5 grid:
  - column c holds five distinct numbers from [1 + 15c, 15 + 15c];
  - the centre is a pre-marked FREE cell.
- **The 90-ball card** is a 3 x 9 grid with 15 numbers:
  - every row has five numbers and every column has one to three;
  - each column's numbers come from its decade, with 1-9 in the first column and 80-90 in the last;
  - numbers increase down every column;
  - every other cell is empty.
- **Card operations:** toggling a mark, checking for a line or a full card, cloning, and writing a card to its serialized record and reading it back.
- **The factory:**
  - creates one card of a variant from its type tag ("75" or "90");
  - creates between 1 and 1000 cards at once;
  - restores a card from its record;
  - lists the valid tags.

## How the model is built

- **Values, not objects.** Cells, grids and cards are immutable values. `toggleMark` answers its boolean together with the new card. `clone` and `deepCloneGrid` are value copies.
- **`Math.random()` is a tape.** It is an explicit finite sequence of reals in [0, 1), the `tape` of `Outcomes.Env`. `Math.floor(x * n)` is `(x * n as real).Floor`.
- **`crypto.randomUUID()` is an oracle** `uuid: nat -> string` with a cursor: the k-th call answers `uuid(k)`. The model tracks exactly which call number gives each card and cell its identifier.
- **Results.** An operation that draws randomness answers a `Gen`:
  - a value,
  - or a thrown `Error`, one constructor per kind of throw in the source (`InvalidCardType` covers both variants' tag checks, `Retry` every refusal of the row assignment),
  - each together with the randomness left over.
  - An operation that draws nothing answers a `Result`.
- **The 90-ball generator follows `tryGenerateBingo90Raw` phase by phase** (`Attempt90`):
  - the column counts;
  - the sorted column draws;
  - the greedy row assignment, visiting the fuller columns first with a stable sort and choosing the least-used rows;
  - the row check;
  - the fill.
  - `generateGrid` retries up to 100 attempts, catching every rejection.
- **The central result is `Attempt90.RowAssignmentNeverRetries`:**
  - For every valid column-count vector, the row assignment places every column and ends with exactly five numbers in each row. So no `Retry` is ever thrown.
  - The invariant behind it (`PlacementInv`):
    - the row counts never differ by more than one;
    - together with the numbers of the columns not yet placed, they add up to 15.
  - It follows that:
    - an attempt is only rejected when a column's numbers cannot be drawn (`AttemptOnlyFailsOnDraws`);
    - generation fails only after 100 such draw failures (`Bingo90.GenerationFailsOnlyOnDraws`);
    - an accepted attempt satisfies every 90-ball constraint (`Attempt90.Layout90`).
- **Type tags.** Both variants use the single tag set {"75", "90"}:
  - `Bingo75Card.ts:2,6,86` refer to the tags through a `BingoTypes` name;
  - `BingoCard.ts:1-4` defines them as `BINGO_TYPES`;
  - the model takes the values `BingoCard.ts` gives.
- **"Numbered" means non-empty.** Like the source's `numberedCells`, a numbered cell of a 90-ball card is any cell whose value is not `null`. That includes a FREE cell, which a "90" record may carry.
- **75-ball checks on a grid with no rows.** The 75-ball `checkLine` and `checkFull` follow the grid as it is, so on a record whose grid has no rows both answer true: every `every` over no rows holds. The 90-ball checks demand a numbered cell and answer false. `Bingo75.CheckLine` and `Bingo75.CheckFull` state this behaviour as written.

Modules, one per file:

| Module | Contents |
|---|---|
| `Outcomes` | results and errors |
| `BingoCard` | tags, constants, cells, cards, records |
| `Counting` | sums |
| `Sorting` | the numeric sort and the stable key sort |
| `Random` | random draws and `getRandomNumbers` |
| `Grids` | shared grid operations |
| `Attempt90` | one 90-ball layout attempt and its proofs |
| `Bingo90` | the 90-ball card |
| `Bingo75` | the 75-ball card |
| `Factory` | the factory |

## Model

| member | source | states |
|---|---|---|
| BingoCard.KindOfTag | src/models/BingoCard.ts:1-6 | A tag names a variant exactly when it is "75" or "90", and that variant's tag is the same string. |
| BingoCard.Constants75Consistent | src/models/BingoCard.ts:8-17 | Five columns of fifteen numbers cover 1..75 exactly, every column fills all five rows, and the FREE cell lies inside the grid. |
| BingoCard.Constants90Consistent | src/models/BingoCard.ts:19-27 | Three rows of five make the fifteen numbers, and fifteen numbers fit into nine columns of one to three each. |
| Grids.DeepCopy | src/models/Bingo90Card.ts:236-238 | The copy of the grid equals the original, cell for cell. |
| Grids.ToggleAt | src/models/Bingo90Card.ts:18-36 | The toggle succeeds exactly at an in-bounds, present, non-empty cell. On success it flips that cell's mark. Ids, values and all other cells never change. A refused toggle leaves the grid as it was. |
| Grids.ToggleTwice | src/models/Bingo75Card.ts:18-36 | Toggling the same position twice answers the same both times and restores the grid. |
| Grids.Flatten | src/models/Bingo90Card.ts:51 | `flat()` holds exactly the cells of the rows. |
| Grids.Numbered | src/models/Bingo90Card.ts:42 | The filter keeps exactly the cells that are not empty. |
| Grids.AllMarked | src/models/Bingo75Card.ts:70 | `every(c => c.marked)` holds exactly when each cell, by membership and by index, is marked. |
| Random.RandomBelow | src/models/Bingo90Card.ts:119 | One draw is consumed, and for a positive bound the result lies in [0, n). |
| Random.CollectDistinct | src/models/Bingo90Card.ts:219-233 | The loop extends the numbers collected so far to `count` distinct numbers from the range. It fails only when a positive count was not reached within its attempt budget, and then it has consumed exactly the remaining budget of draws. It never consumes more than the remaining budget, and runs out of tape only on a tape shorter than that. |
| Random.CollectDraws | src/models/Bingo90Card.ts:219-233 | The loop's outcome is fixed by the values the draws yield, `floor(random * width) + min` each. A success holds exactly the numbers held so far plus the values of the draws it consumed, and stops at the first draw that completes `count` values. It throws exactly when the whole remaining budget yields fewer than `count` values, and runs out exactly when the tape is shorter than the budget and all of it yields fewer. |
| Random.CollectSuffix | src/models/Bingo90Card.ts:223-227 | The loop consumes draws from the front of the randomness only: what it leaves is a suffix of what it was given. |
| Random.GetRandomNumbers | src/models/Bingo90Card.ts:218-234 | On success: exactly `count` distinct numbers, all in [min, max], after at most (max - min + 1) * 10 draws. On failure: `UniqueDrawFailed` for a positive count, after exactly (max - min + 1) * 10 draws. It runs out only on a tape shorter than that budget. Identifiers are never consumed. The 75-ball copy (Bingo75Card.ts:134-150) is the same function. |
| Random.RandomNumbersDrawn | src/models/Bingo90Card.ts:218-234 | The outcome is fixed by the draws. A success holds exactly the values of the draws it consumed and consumed none past the one completing `count` values. It runs out exactly when the tape is shorter than the budget and all of it yields fewer than `count` values. Otherwise it throws exactly when the budget's draws yield fewer than `count` values. |
| Random.DistinctDrawsSucceed | src/models/Bingo90Card.ts:218-234 | When the first `count` draws yield `count` different values and the budget allows that many draws, the call succeeds after exactly those `count` draws. |
| Sorting.SortNumbers | src/models/Bingo90Card.ts:132 | The numeric sort permutes its input. |
| Sorting.SortNumbersSorted | src/models/Bingo90Card.ts:132 | The numeric sort's result is ascending, and strictly ascending when the input has no repeats. |
| Sorting.StableSortBy | src/models/Bingo90Card.ts:141-143 | The key sort permutes its input. |
| Sorting.StableSortBySorted | src/models/Bingo90Card.ts:141-143 | The key sort orders by key. Applied to an input in strictly ascending order, it keeps elements with equal keys in that order (stability). |
| Attempt90.DistributeExtra | src/models/Bingo90Card.ts:118-124 | The extra-number loop never throws. Whenever it finishes, every column holds one to three numbers and the counts sum to 15. |
| Attempt90.ColumnCounts | src/models/Bingo90Card.ts:114-124 | Phase 1 yields nine counts, each in [1, 3], summing to 15, and it never throws. |
| Attempt90.ExtraOnDistinctPicks | src/models/Bingo90Card.ts:117-124 | When the next draws pick pairwise different columns, each with room for another number, the loop finishes after exactly those draws, and each picked column gets exactly one more number. |
| Attempt90.DrawColumn | src/models/Bingo90Card.ts:128-133 | Column c receives exactly its count of numbers, all from its range and strictly ascending; otherwise the draw fails with `UniqueDrawFailed`. It makes at most ten draws per number of the column's range, and runs out only on a tape shorter than that. |
| Attempt90.DrawColumns | src/models/Bingo90Card.ts:127-134 | Phase 2 yields every remaining column's sorted, in-range draw of the right size, or fails only with `UniqueDrawFailed`. It makes at most the remaining columns' budgets of draws, and runs out only on a tape shorter than that. |
| Attempt90.AvailableRows | src/models/Bingo90Card.ts:147 | The open rows are exactly those holding fewer than five numbers, listed in ascending order. |
| Attempt90.ColumnOrder | src/models/Bingo90Card.ts:141-143 | The visiting order lists each of the nine columns. |
| Attempt90.ColumnOrderSorted | src/models/Bingo90Card.ts:140-143 | The visiting order has no repeats and puts fuller columns first. Columns with equal counts keep left-to-right order. |
| Attempt90.LeastUsedRows | src/models/Bingo90Card.ts:147-160 | The sorted candidates are exactly the open rows, without repeats, ordered by how many numbers each row holds, ties in ascending row order (the stable sort). |
| Attempt90.TakeAllRowsChoice | src/models/Bingo90Card.ts:149-157 | A column of three is placed exactly when all three rows are open. It then takes rows 0, 1 and 2, each of which counts one more number, and no other column changes. |
| Attempt90.TakeTwoRowsChoice | src/models/Bingo90Card.ts:158-173 | A column of two is placed exactly when two or more rows are open. It takes two distinct open rows, listed ascending, that no other open row undercuts (fewer numbers, or as many and an earlier index). Those two rows count one more number; no other column changes. |
| Attempt90.TakeOneRowChoice | src/models/Bingo90Card.ts:174-188 | A column of one is placed exactly when some row is open. It takes an open row that no other open row undercuts; that row counts one more number; no other column changes. |
| Attempt90.PlaceColumnRetries | src/models/Bingo90Card.ts:145-189 | A column is refused with `Retry` exactly when it holds one to three numbers and fewer rows are open than it needs. A placed column changes no other column's instructions and lowers no row count. |
| Attempt90.AssignRowsFrame | src/models/Bingo90Card.ts:145-189 | The loop over the visiting order leaves every column outside that order untouched and lowers no row count. |
| Attempt90.SortPair | src/models/Bingo90Card.ts:171 | The two chosen rows are listed as an ascending permutation of themselves. |
| Attempt90.SortPairIsSort | src/models/Bingo90Card.ts:171 | The two-element sort agrees with the general numeric sort. |
| Attempt90.AssignRowsComplete | src/models/Bingo90Card.ts:145-189 | From any state satisfying the phase-3 invariant, every remaining column is placed without a `Retry`, and the invariant still holds at the end. |
| Attempt90.InitialInv | src/models/Bingo90Card.ts:137-143 | The phase-3 invariant holds initially: empty row counts, no instructions, and the sorted column order. |
| Attempt90.RowAssignmentNeverRetries | src/models/Bingo90Card.ts:136-194 | For every valid count vector, phase 3 never throws `Retry` and ends with exactly five numbers in each row, so the row check at 192 always passes. |
| Attempt90.PlaceAndFill | src/models/Bingo90Card.ts:136-215 | A grid that passes phases 3 and 4 satisfies every 90-ball layout constraint. |
| Attempt90.PlaceAndFillSucceeds | src/models/Bingo90Card.ts:136-215 | Phases 3 and 4 always produce a grid from valid counts and draws. |
| Attempt90.PlacedLastWrite | src/models/Bingo90Card.ts:205-211 | When several instructions of a column name row r, the last one that has a number decides the cell: the later write wins. |
| Attempt90.PlacedNoWrite | src/models/Bingo90Card.ts:205-211 | A row that no instruction with a number names keeps its empty cell. |
| Attempt90.PlacedAt | src/models/Bingo90Card.ts:205-211 | With strictly ascending instructions and enough numbers, the i-th assigned row receives the column's i-th number. |
| Attempt90.PlacedEmpty | src/models/Bingo90Card.ts:205-211 | A row the column's instructions do not name stays empty. |
| Attempt90.FillCells | src/models/Bingo90Card.ts:196-213 | For valid instructions and draws, cell (r, c) is a number exactly when column c is assigned row r, never FREE, and holds the column's i-th number when row r is its i-th instruction. |
| Attempt90.FillLayout | src/models/Bingo90Card.ts:196-213 | Filling a completed assignment with valid draws gives all of the following: 3 x 9, 15 numbers, five per row, one to three per column, each number in its column's range, and numbers strictly increasing down every column. |
| Attempt90.TryGenerateRaw | src/models/Bingo90Card.ts:109-216 | An accepted attempt satisfies every 90-ball layout constraint. A rejected one throws `UniqueDrawFailed` or `Retry`. No identifiers are consumed. |
| Attempt90.AttemptOnlyFailsOnDraws | src/models/Bingo90Card.ts:109-216 | An attempt is rejected only with `UniqueDrawFailed`: `Retry` is never thrown. |
| Attempt90.AttemptExhausted | src/models/Bingo90Card.ts:109-134 | An attempt runs out of randomness only in phase 1, or in phase 2 when fewer than 900 draws are left. |
| Attempt90.AttemptAccepted | src/models/Bingo90Card.ts:109-216 | An attempt is accepted exactly when phase 1 and phase 2 both succeed. |
| Attempt90.AcceptedAttemptLeaves | src/models/Bingo90Card.ts:109-216 | An accepted attempt leaves the randomness that phase 2 leaves. |
| Attempt90.SampleAttemptAccepted | src/models/Bingo90Card.ts:109-216 | On a tape that starts with 21 given draws, an attempt is accepted and consumes exactly those draws. |
| Bingo90.MakeCells | src/models/Bingo90Card.ts:94-100 | Each raw value becomes an unmarked cell with that value and a fresh identifier, taken in row-major order. |
| Bingo90.CellIdsFresh | src/models/Bingo90Card.ts:94-100 | When the identifier source never repeats, distinct cells have distinct ids, and none of them equals an identifier drawn earlier. |
| Bingo90.GenerateFrom | src/models/Bingo90Card.ts:86-107 | A generated grid satisfies the 90-ball layout, has no marks, and uses exactly 27 fresh identifiers. Generation otherwise fails with `GenerationFailed`, without consuming identifiers. |
| Bingo90.RejectedAttempt | src/models/Bingo90Card.ts:89-103 | A rejected attempt is caught and generation retries with the next attempt on the randomness left over; the count of failed draws moves on with it. |
| Bingo90.SettledAttempt | src/models/Bingo90Card.ts:89-103 | An attempt that is not rejected ends generation without a throw and breaks the run of failed draws. |
| Bingo90.GenerationFailsOnlyOnDraws | src/models/Bingo90Card.ts:86-107 | Generation fails exactly when every remaining attempt is rejected by a failed number draw. |
| Bingo90.FirstAttemptAccepted | src/models/Bingo90Card.ts:86-95 | When the first attempt is accepted, generation yields a grid and leaves the randomness that attempt leaves. |
| Bingo90.NewCard | src/models/Bingo90Card.ts:9-16 | A new card keeps a given id or takes the next identifier. Its grid satisfies the 90-ball layout, is unmarked, and takes the identifiers that follow. The only failure is `GenerationFailed`. When the first layout attempt is accepted, a card is created and leaves the randomness that attempt leaves. |
| Bingo90.SampleTapeMakesCard | src/models/Bingo90Card.ts:9-16 | On a tape that starts with 21 given draws, a card with a given id is created and consumes exactly those draws. |
| Bingo90.IsValidPosition | src/models/Bingo90Card.ts:74-84 | A valid position lies in the 3 x 9 bounds and names a cell the grid has. On a 3 x 9 grid, the bounds alone decide; a record with fewer rows refuses the rows it lacks. |
| Bingo90.ToggleMark | src/models/Bingo90Card.ts:18-36 | Answers true exactly at a valid position holding a non-empty cell (a number, or a FREE cell that a record may carry), flipping only that mark. An empty cell or invalid position is refused with false and no change. |
| Bingo90.ToggleMarkTwice | src/models/Bingo90Card.ts:18-36 | Toggling the same position twice restores the card. |
| Bingo90.ToggleMarkKeepsLayout | src/models/Bingo90Card.ts:18-36 | Toggling preserves the 90-ball layout. |
| Bingo90.RowCompleteIsLine | src/models/Bingo90Card.ts:40-46 | The loop's row condition holds exactly when the row has a numbered cell and every numbered cell is marked. |
| Bingo90.CheckLine | src/models/Bingo90Card.ts:38-48 | Holds exactly when some row has a numbered cell and all its numbered cells are marked. |
| Bingo90.CheckFull | src/models/Bingo90Card.ts:50-53 | Holds exactly when the grid has a numbered cell and all numbered cells are marked. |
| Bingo90.FullIsEveryNumberedMarked | src/models/Bingo90Card.ts:50-53 | The flattened, filtered list is non-empty exactly when a numbered cell exists, and all its cells are marked exactly when every numbered cell is. |
| Bingo90.FullHasLine | src/models/Bingo90Card.ts:38-53 | A full card has a line. |
| Bingo90.NewGridNoLine | src/models/Bingo90Card.ts:38-53 | A grid without marks has neither a line nor a full card. |
| Bingo90.ToggleBreaksFull | src/models/Bingo90Card.ts:18-53 | On a full card, any accepted toggle leaves the card no longer full. |
| Bingo90.Clone | src/models/Bingo90Card.ts:55-57 | The clone equals the card: same id, same cells. |
| Bingo90.ToJson | src/models/Bingo90Card.ts:59-65 | The record carries the card's id, the tag "90" and its cells. |
| Bingo90.FromJson | src/models/Bingo90Card.ts:67-72 | Refuses exactly the records whose tag is not "90", with `InvalidCardType`. Otherwise the card has the record's cells and its id, or a fresh id when the record's id is empty. |
| Bingo90.FromJsonToJson | src/models/Bingo90Card.ts:59-72 | Reading back a card's record gives the card back. |
| Bingo90.ToJsonFromJson | src/models/Bingo90Card.ts:59-72 | A "90" record with an id is reproduced by reading it and writing it back. |
| Bingo75.DrawColumns | src/models/Bingo75Card.ts:108-112 | Each column receives five distinct numbers from its range. The only failure is `UniqueDrawFailed`, which is not caught. Columns c to 4 together make at most 150 draws per column, and run out only on a tape shorter than that. |
| Bingo75.BuildGrid | src/models/Bingo75Card.ts:114-131 | The 5 x 5 grid puts column c's row-th draw at (row, c). The centre is FREE and marked. Ids are taken in row-major order. |
| Bingo75.GenerateGrid | src/models/Bingo75Card.ts:104-132 | A generated grid satisfies the 75-ball layout: FREE marked centre; unmarked in-range numbers elsewhere; no repeats within a column. Every non-centre cell is its column's draw. 25 identifiers are used. At most 750 draws are made, and generation runs out only on a tape shorter than that. |
| Bingo75.BuiltLayout | src/models/Bingo75Card.ts:104-132 | Valid column draws always build a grid that satisfies the 75-ball layout. |
| Bingo75.NewCard | src/models/Bingo75Card.ts:9-16 | A new card keeps a given id or takes the next identifier. Its grid satisfies the 75-ball layout and takes the identifiers that follow. The only failure is `UniqueDrawFailed`. At most 750 draws are made, and it runs out only on a tape shorter than that. |
| Bingo75.CellIdsFresh | src/models/Bingo75Card.ts:125-129 | When the identifier source never repeats, distinct cells have distinct ids, and none of them equals an identifier drawn earlier. |
| Bingo75.IsValidPosition | src/models/Bingo75Card.ts:92-102 | A valid position lies in the 5 x 5 bounds and names a cell the grid has. On a 5 x 5 grid, the bounds alone decide; a record with fewer rows refuses the rows it lacks. |
| Bingo75.ToggleMark | src/models/Bingo75Card.ts:18-36 | Answers true exactly at a valid, non-empty position, the FREE centre included, flipping only that mark. Otherwise it is refused with false and no change. |
| Bingo75.ToggleMarkTwice | src/models/Bingo75Card.ts:18-36 | Toggling the same position twice restores the card. |
| Bingo75.EveryRowFrom | src/models/Bingo75Card.ts:51-62 | `every` over the rows holds exactly when each row has a marked cell at the swept column; a missing cell counts as unmarked. |
| Bingo75.AnyRowMarked | src/models/Bingo75Card.ts:42-47 | The row loop succeeds exactly when some present row among the first five is entirely marked. |
| Bingo75.AnyColumnMarked | src/models/Bingo75Card.ts:50-54 | The column loop succeeds exactly when, for some column, every row has a marked cell there. |
| Bingo75.CheckLine | src/models/Bingo75Card.ts:38-67 | Holds exactly when some row, some column, the main diagonal or the anti-diagonal is entirely marked. |
| Bingo75.CheckLineTwelveLines | src/models/Bingo75Card.ts:38-67 | On a 5 x 5 grid, a line exists exactly when one of the twelve lines (five rows, five columns, two diagonals) is entirely marked. |
| Bingo75.CheckFull | src/models/Bingo75Card.ts:69-71 | Holds exactly when every cell, the FREE centre included, is marked. |
| Bingo75.FullHasLine | src/models/Bingo75Card.ts:38-71 | A full card has a line. |
| Bingo75.EmptyGridLineAndFull | src/models/Bingo75Card.ts:38-71 | A grid with no rows passes both checks. |
| Bingo75.NewGridNoLine | src/models/Bingo75Card.ts:38-71 | A card with the 75-ball layout, as every new card has, has neither a line nor a full card. |
| Bingo75.Clone | src/models/Bingo75Card.ts:73-75 | The clone equals the card: same id, same cells. |
| Bingo75.ToJson | src/models/Bingo75Card.ts:77-83 | The record carries the card's id, the tag "75" and its cells. |
| Bingo75.FromJson | src/models/Bingo75Card.ts:85-90 | Refuses exactly the records whose tag is not "75", with `InvalidCardType`. Otherwise the card has the record's cells and its id, or a fresh id when the record's id is empty. |
| Bingo75.FromJsonToJson | src/models/Bingo75Card.ts:77-90 | Reading back a card's record gives the card back. |
| Bingo75.ToJsonFromJson | src/models/Bingo75Card.ts:77-90 | A "75" record with an id is reproduced by reading it and writing it back. |
| Factory.IsValidType | src/models/BingoCardFactory.ts:72-74 | A type is valid exactly when it is "75" or "90". |
| Factory.AvailableTypes | src/models/BingoCardFactory.ts:80-82 | Two different tags, which are exactly the valid types. |
| Factory.Create | src/models/BingoCardFactory.ts:17-28 | An unknown tag is refused with `UnknownType` before anything is drawn. Otherwise the result is a new card of the tag's variant with the given or next id. The 75-ball variant fails only with `UniqueDrawFailed`, the 90-ball only with `GenerationFailed`. |
| Factory.CreateFresh | src/models/BingoCardFactory.ts:17-28 | A card created without an id takes the next identifier, and the identifiers advance by one plus the variant's cell count. |
| Factory.CreateEach | src/models/BingoCardFactory.ts:45 | Creates n new cards of the tag's variant, one after another. Card i's id is i strides after the first. The first failure ends the run; it is `UnknownType` exactly for an unknown tag, and otherwise the variant's generation failure. |
| Factory.CreateMultiple | src/models/BingoCardFactory.ts:36-46 | A count below 1 is refused first, then a count above 1000, then an unknown tag. Every count from 1 to 1000 passes both guards and gives exactly what creating that many cards one after another gives: a throw is then `UnknownType` exactly for an unknown tag, and otherwise only the variant's generation failure. On success: exactly `count` new cards of the tag's variant. |
| Factory.IdsEveryDistinct | src/models/BingoCardFactory.ts:45 | Cards created one after another take identifiers a fixed positive stride apart. With a source that never repeats, their ids are pairwise distinct. |
| Factory.CreateMultipleDistinctIds | src/models/BingoCardFactory.ts:36-46 | When the identifier source never repeats, the cards of one call have pairwise distinct ids. |
| Factory.ToJson | src/models/BingoCard.ts:35-45 | A card's record carries its id, its variant's tag and its cells. |
| Factory.FromJson | src/models/BingoCardFactory.ts:54-65 | Refuses exactly the records with an unknown tag, with `UnknownJsonType`. Otherwise the tag's variant reads the record back. |
| Factory.FromJsonToJson | src/models/BingoCardFactory.ts:54-65 | Reading back any card's record gives the card back. |
| Factory.ToJsonFromJson | src/models/BingoCardFactory.ts:54-65 | A record with a valid tag and an id is reproduced by reading it and writing it back. |

## Left out

- Mutation and object identity: `toggleMark` mutates a cell in place; the model returns the changed card. `deepCloneGrid` guarantees that a clone or a record shares no cell with its original; with immutable values nothing is shared, so that guarantee holds trivially and is not stated separately.
- Floating point: `Math.random()` values are reals in [0, 1) and `Math.floor(x * n)` is computed exactly, without IEEE rounding. The distribution of the draws is not modelled; only what holds for every sequence of draws is.
- A tape too short to finish an operation yields `Exhausted`. This is an artefact of making the randomness finite; the source never runs out of random numbers. The contracts bound when it can happen:
  - `getRandomNumbers` only on a tape shorter than its budget of ten draws per number of the range;
  - a 75-ball card only on a tape shorter than 750 draws;
  - a 90-ball attempt only in phase 1, or in phase 2 with fewer than 900 draws left.
  - Phase 1 of a 90-ball attempt has no such bound: it keeps drawing until six draws have landed on columns with room. `Bingo90.SampleTapeMakesCard` exhibits a tape on which a card is created.
- Bingo90.SampleTapeMakesCard: stated for a card with a given id. The id does not influence the draws, but the case of a fresh id is not stated.
- `crypto.randomUUID()` is an identifier oracle indexed by call number. Its format, and the probability of collisions, is not modelled: distinct-id results assume a source that never repeats (`Injective`).
- `fromJSON` with an empty or missing record id calls `crypto.randomUUID()` in the constructor; the model takes that identifier as the parameter `newId`.
- Error messages: each `throw` is one `Error` constructor; the message text (with its interpolated numbers and tags) is not modelled.
- `Bingo75Card.ts:2,6,86` refer to the tags as a `BingoTypes` enum that `BingoCard.ts` does not define (it defines `BINGO_TYPES`); the model uses the one tag set "75"/"90" for both variants and does not model a missing import.
- Factory.CreateMultiple: the count is an integer; a fractional count (which `Array.from` truncates) or `NaN` (which passes both guards and yields no cards) is not modelled.
- Positions are integers. In JavaScript a fractional position passes the bounds test of `isValidPosition`, finds no row, and is refused. `NaN` already fails `row >= 0` (Bingo90Card.ts:77, Bingo75Card.ts:95). Either way `toggleMark` answers false. The model does not represent such positions.
- Records carry cells as values: a record whose cells are malformed JSON (a non-integer number, a value other than a number, "FREE" or null, or a missing field) is not modelled.
- The store, and the UI components of the application are not part of this model.
