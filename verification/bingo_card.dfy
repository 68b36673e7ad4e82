/** The shared data model of both card variants: the type tags, the per-variant
    constants, a cell, a grid, a card and its serialized record. */
module BingoCard {
  import opened Outcomes

  /** The two card variants. Their tags are the strings "75" and "90". */
  datatype Kind = Bingo75 | Bingo90

  function Tag(k: Kind): string
  {
    match k
    case Bingo75 => "75"
    case Bingo90 => "90"
  }

  /** The variant a tag names, if any. */
  function KindOfTag(s: string): (r: Option<Kind>)
    ensures r.Some? <==> (s == "75" || s == "90")
    ensures r.Some? ==> Tag(r.value) == s
  {
    if s == Tag(Bingo75) then Some(Bingo75)
    else if s == Tag(Bingo90) then Some(Bingo90)
    else None
  }

  // 75-ball constants
  const Rows75 := 5
  const Cols75 := 5
  const MinNumber75 := 1
  const MaxNumber75 := 75
  const NumbersPerColumn75 := 5
  const RangePerColumn75 := 15
  const FreeRow := 2
  const FreeCol := 2

  // 90-ball constants
  const Rows90 := 3
  const Cols90 := 9
  const MinNumber90 := 1
  const MaxNumber90 := 90
  const TotalNumbers90 := 15
  const NumbersPerRow90 := 5
  const ColumnRange90 := 10

  /** The 75-ball constants fit together: five columns of fifteen numbers cover
      1..75, every column fills every row, and the free cell is inside the grid. */
  lemma Constants75Consistent()
    ensures Cols75 * RangePerColumn75 == MaxNumber75 - MinNumber75 + 1 == 75
    ensures NumbersPerColumn75 == Rows75
    ensures 0 <= FreeRow < Rows75 && 0 <= FreeCol < Cols75
  {
  }

  /** The 90-ball constants fit together: three rows of five make fifteen, and
      fifteen numbers can be spread over nine columns with one to three each. */
  lemma Constants90Consistent()
    ensures Rows90 * NumbersPerRow90 == TotalNumbers90 == 15
    ensures Cols90 * 1 <= TotalNumbers90 <= Cols90 * Rows90
    ensures NumbersPerRow90 <= Cols90
  {
  }

  /** A cell's value: a number, the pre-marked centre of a 75-ball card, or the
      empty gap of a 90-ball card (`null` in the record). */
  datatype Value = Num(n: int) | Free | Empty

  /** A cell: `id` and `value` never change after creation; only `marked` does. */
  datatype Cell = Cell(id: string, value: Value, marked: bool)

  type Grid = seq<seq<Cell>>

  type NonEmptyString = s: string | |s| > 0 witness "-"

  /** A card. Its id is never empty, because the constructor replaces an empty
      or missing id with a fresh identifier. */
  datatype Card = Card(id: NonEmptyString, kind: Kind, grid: Grid)

  /** The serialized record. Its type tag is any string: a record read back may
      carry a tag neither variant knows. */
  datatype CardJson = CardJson(id: string, tag: string, grid: Grid)

  /** `crypto.randomUUID()`: the k-th call returns `uuid(k)`. */
  type UuidSource = nat -> NonEmptyString

  /** A source that never repeats an identifier. */
  ghost predicate Injective(uuid: UuidSource)
  {
    forall a: nat, b: nat :: uuid(a) == uuid(b) ==> a == b
  }

  /** The constructors' `id || crypto.randomUUID()`: a given id is kept, and
      an empty one is replaced by the next fresh identifier. */
  function ResolveId(id: string, uuid: UuidSource, next: nat): (r: NonEmptyString)
    ensures id != "" ==> r == id
    ensures id == "" ==> r == uuid(next)
  {
    if id != "" then id else uuid(next)
  }

  /** How many fresh identifiers `ResolveId` uses up. */
  function IdsUsed(id: string): nat
  {
    if id == "" then 1 else 0
  }
}
