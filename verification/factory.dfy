/** `BingoCardFactory`: creating a card of either variant from its tag,
    creating up to 1000 cards at once, restoring a card from its record, and
    the set of valid tags. */
module Factory {
  import opened Outcomes
  import opened BingoCard
  import opened Random
  import opened Grids
  import Attempt90
  import Bingo75
  import Bingo90

  /** `createMultiple` refuses to create more cards than this. */
  const MaxCards := 1000

  /** `isValidType`: the tag names one of the two variants. */
  function IsValidType(s: string): (b: bool)
    ensures b <==> s == "75" || s == "90"
  {
    KindOfTag(s).Some?
  }

  /** `getAvailableTypes`: the two tags, each once. */
  function AvailableTypes(): (ts: seq<string>)
    ensures |ts| == 2 && ts[0] != ts[1]
    ensures forall s :: s in ts <==> IsValidType(s)
  {
    [Tag(Bingo75), Tag(Bingo90)]
  }

  /** What a newly generated card of its variant satisfies. */
  ghost predicate NewlyGenerated(c: Card)
  {
    match c.kind
    case Bingo75 => Bingo75.Layout75(c.grid)
    case Bingo90 => Attempt90.Layout90(Values(c.grid)) && Bingo90.NoMarks(c.grid)
  }

  /** The identifiers the grid of a new card of the variant uses up. */
  function GridIds(k: Kind): nat
  {
    match k
    case Bingo75 => Bingo75.GridIds
    case Bingo90 => Bingo90.GridIds
  }

  /** The identifiers one `create(tag)` without an id uses up: the card's
      own and one per cell; none for an unknown tag. */
  function Stride(tag: string): nat
  {
    match KindOfTag(tag)
    case None => 0
    case Some(k) => 1 + GridIds(k)
  }

  /** `i * s`, by repeated addition. */
  function Offset(i: nat, s: nat): nat
  {
    if i == 0 then 0 else Offset(i - 1, s) + s
  }

  lemma {:induction false} OffsetIsProduct(i: nat, s: nat)
    ensures Offset(i, s) == i * s
  {
    if i > 0 {
      OffsetIsProduct(i - 1, s);
    }
  }

  /** Offsets grow strictly with the count for a positive stride. */
  lemma {:induction false} OffsetIncreasing(i: nat, j: nat, s: nat)
    requires i < j && s > 0
    ensures Offset(i, s) < Offset(j, s)
  {
    if i < j - 1 {
      OffsetIncreasing(i, j - 1, s);
    }
  }

  /** The cards take the identifiers `uuid(start)`, `uuid(start + s)`,
      `uuid(start + 2 * s)`, ... in order. */
  ghost predicate IdsEvery(cards: seq<Card>, uuid: UuidSource, start: nat, s: nat)
    decreases |cards|
  {
    |cards| == 0 || (cards[0].id == uuid(start) && IdsEvery(cards[1..], uuid, start + s, s))
  }

  /** Every card is a newly generated card of the tag's variant. */
  ghost predicate AllNew(cards: seq<Card>, tag: string)
    decreases |cards|
  {
    |cards| == 0 || (Tag(cards[0].kind) == tag && NewlyGenerated(cards[0]) && AllNew(cards[1..], tag))
  }

  /** Card i of cards with ids every `s` places takes the identifier `i * s`
      places after the first. */
  lemma {:induction false} IdsEveryAt(cards: seq<Card>, uuid: UuidSource, start: nat, s: nat, i: nat)
    requires IdsEvery(cards, uuid, start, s) && i < |cards|
    ensures cards[i].id == uuid(start + Offset(i, s))
  {
    if i > 0 {
      IdsEveryAt(cards[1..], uuid, start + s, s, i - 1);
      assert cards[1..][i - 1] == cards[i];
    }
  }

  /** Every card of an all-new run is a new card of the tag's variant. */
  lemma {:induction false} AllNewAt(cards: seq<Card>, tag: string, i: nat)
    requires AllNew(cards, tag) && i < |cards|
    ensures Tag(cards[i].kind) == tag && NewlyGenerated(cards[i])
  {
    if i > 0 {
      AllNewAt(cards[1..], tag, i - 1);
      assert cards[1..][i - 1] == cards[i];
    }
  }

  /** A card of a variant uses up the stride of the variant's tag. */
  lemma StrideOfKind(k: Kind)
    ensures Stride(Tag(k)) == 1 + GridIds(k)
  {
    assert KindOfTag(Tag(k)) == Some(k);
  }

  /** `create(type, id)`: a new card of the tag's variant, keeping a given
      id; an unknown tag is refused before anything is drawn. */
  function Create(tag: string, id: string, env: Env, uuid: UuidSource): (r: Gen<Card>)
    requires ValidTape(env.tape)
    ensures Continues(r)
    ensures !IsValidType(tag) ==> r == Thrown(UnknownType, env)
    ensures r.Thrown? ==> (r.error == UnknownType <==> !IsValidType(tag))
    ensures r.Thrown? && tag == "75" ==> r.error == UniqueDrawFailed
    ensures r.Thrown? && tag == "90" ==> r.error == GenerationFailed
    ensures r.Ok? ==> Tag(r.value.kind) == tag && r.value.id == ResolveId(id, uuid, env.next)
    ensures r.Ok? ==> NewlyGenerated(r.value)
    ensures r.Ok? ==> r.env.next == env.next + IdsUsed(id) + GridIds(r.value.kind)
  {
    match KindOfTag(tag)
    case None => Thrown(UnknownType, env)
    case Some(Bingo75) => Bingo75.NewCard(id, env, uuid)
    case Some(Bingo90) => Bingo90.NewCard(id, env, uuid)
  }

  /** What one `create(type)` without an id yields: a new card of the tag's
      variant whose id is the next identifier, after which the identifiers
      have moved on by the tag's stride. */
  lemma CreateFresh(tag: string, env: Env, uuid: UuidSource)
    requires ValidTape(env.tape)
    ensures var r := Create(tag, "", env, uuid);
      r.Ok? ==> Tag(r.value.kind) == tag && NewlyGenerated(r.value)
                && r.value.id == uuid(env.next) && r.env.next == env.next + Stride(tag)
  {
    var r := Create(tag, "", env, uuid);
    if r.Ok? {
      StrideOfKind(r.value.kind);
    }
  }

  /** `Array.from({ length: n }, () => this.create(type))`: n cards created
      one after another, each a new card of the tag's variant taking the
      next identifier, so that card i's identifier comes `i` strides after
      the first; the first failure ends the run. */
  function CreateEach(tag: string, n: nat, env: Env, uuid: UuidSource): (r: Gen<seq<Card>>)
    requires ValidTape(env.tape)
    ensures Continues(r)
    ensures !IsValidType(tag) && n > 0 ==> r == Thrown(UnknownType, env)
    ensures r.Thrown? ==> r.error in {UnknownType, UniqueDrawFailed, GenerationFailed}
    ensures r.Thrown? ==> n > 0 && (r.error == UnknownType <==> !IsValidType(tag))
    ensures r.Thrown? && tag == "75" ==> r.error == UniqueDrawFailed
    ensures r.Thrown? && tag == "90" ==> r.error == GenerationFailed
    ensures r.Ok? ==> |r.value| == n && r.env.next == env.next + Offset(n, Stride(tag))
    ensures r.Ok? ==> AllNew(r.value, tag) && IdsEvery(r.value, uuid, env.next, Stride(tag))
  {
    if n == 0 then Ok([], env)
    else
      var first := Create(tag, "", env, uuid);
      if first.Exhausted? then Exhausted
      else if first.Thrown? then Thrown(first.error, first.env)
      else
        var rest := CreateEach(tag, n - 1, first.env, uuid);
        if rest.Exhausted? then Exhausted
        else if rest.Thrown? then Thrown(rest.error, rest.env)
        else
          CreateFresh(tag, env, uuid);
          IdsCons(first.value, rest.value, uuid, env.next, Stride(tag), first.env.next);
          NewCons(first.value, rest.value, tag);
          assert Offset(n, Stride(tag)) == Offset(n - 1, Stride(tag)) + Stride(tag);
          Ok([first.value] + rest.value, rest.env)
  }

  /** Putting a card with identifier `uuid(start)` in front of cards whose
      identifiers run every `s` places from `next`, `s` places on. */
  lemma IdsCons(c: Card, cards: seq<Card>, uuid: UuidSource, start: nat, s: nat, next: nat)
    requires c.id == uuid(start) && next == start + s && IdsEvery(cards, uuid, next, s)
    ensures IdsEvery([c] + cards, uuid, start, s)
  {
    assert ([c] + cards)[1..] == cards;
  }

  /** Putting a new card of the tag's variant in front of such cards. */
  lemma NewCons(c: Card, cards: seq<Card>, tag: string)
    requires Tag(c.kind) == tag && NewlyGenerated(c) && AllNew(cards, tag)
    ensures AllNew([c] + cards, tag)
  {
    assert ([c] + cards)[1..] == cards;
  }

  /** `createMultiple(type, count)`: refuses a count below 1, then a count
      above 1000, and only then looks at the tag. Every count from 1 to 1000
      passes both guards: only the tag or card generation can then fail. */
  function CreateMultiple(tag: string, count: int, env: Env, uuid: UuidSource): (r: Gen<seq<Card>>)
    requires ValidTape(env.tape)
    ensures Continues(r)
    ensures count < 1 ==> r == Thrown(CountTooSmall, env)
    ensures count > MaxCards ==> r == Thrown(CountTooLarge, env)
    ensures 1 <= count <= MaxCards ==> r == CreateEach(tag, count, env, uuid)
    ensures 1 <= count <= MaxCards && !IsValidType(tag) ==> r == Thrown(UnknownType, env)
    ensures 1 <= count <= MaxCards && r.Thrown? ==> r.error in {UnknownType, UniqueDrawFailed, GenerationFailed}
    ensures 1 <= count <= MaxCards && r.Thrown? ==> (r.error == UnknownType <==> !IsValidType(tag))
    ensures 1 <= count <= MaxCards && r.Thrown? && tag == "75" ==> r.error == UniqueDrawFailed
    ensures 1 <= count <= MaxCards && r.Thrown? && tag == "90" ==> r.error == GenerationFailed
    ensures r.Ok? ==> |r.value| == count && AllNew(r.value, tag)
    ensures r.Ok? ==> IdsEvery(r.value, uuid, env.next, Stride(tag))
  {
    if count < 1 then Thrown(CountTooSmall, env)
    else if count > MaxCards then Thrown(CountTooLarge, env)
    else CreateEach(tag, count, env, uuid)
  }

  /** Cards whose identifiers are drawn every `s > 0` places from an
      injective source have pairwise distinct ids. */
  lemma IdsEveryDistinct(cards: seq<Card>, uuid: UuidSource, start: nat, s: nat)
    requires IdsEvery(cards, uuid, start, s) && s > 0 && Injective(uuid)
    ensures forall i, j :: 0 <= i < j < |cards| ==> cards[i].id != cards[j].id
  {
    forall i, j | 0 <= i < j < |cards| ensures cards[i].id != cards[j].id {
      IdsEveryAt(cards, uuid, start, s, i);
      IdsEveryAt(cards, uuid, start, s, j);
      OffsetIncreasing(i, j, s);
    }
  }

  /** The cards of one `createMultiple` call have pairwise distinct ids when
      the identifier source never repeats itself. */
  lemma CreateMultipleDistinctIds(tag: string, count: int, env: Env, uuid: UuidSource)
    requires ValidTape(env.tape) && Injective(uuid)
    ensures var r := CreateMultiple(tag, count, env, uuid);
      r.Ok? ==> forall i, j :: 0 <= i < j < |r.value| ==> r.value[i].id != r.value[j].id
  {
    var r := CreateMultiple(tag, count, env, uuid);
    if r.Ok? {
      AllNewAt(r.value, tag, 0);
      StrideOfKind(r.value[0].kind);
      IdsEveryDistinct(r.value, uuid, env.next, Stride(tag));
    }
  }

  /** A card's `toJSON`, by its variant. */
  function ToJson(c: Card): (j: CardJson)
    ensures j.id == c.id && j.tag == Tag(c.kind) && j.grid == c.grid
  {
    match c.kind
    case Bingo75 => Bingo75.ToJson(c)
    case Bingo90 => Bingo90.ToJson(c)
  }

  /** `fromJSON`: a record with either variant's tag is read back by that
      variant; any other tag is refused with an error of its own, distinct
      from both `create`'s and a variant's own refusal. */
  function FromJson(j: CardJson, newId: NonEmptyString): (r: Result<Card>)
    ensures r.Failure? <==> !IsValidType(j.tag)
    ensures r.Failure? ==> r.error == UnknownJsonType
    ensures r.Success? ==> Tag(r.value.kind) == j.tag && r.value.grid == j.grid
    ensures r.Success? ==> r.value.id == (if j.id == "" then newId else j.id)
  {
    match KindOfTag(j.tag)
    case None => Failure(UnknownJsonType)
    case Some(Bingo75) => Bingo75.FromJson(j, newId)
    case Some(Bingo90) => Bingo90.FromJson(j, newId)
  }

  /** Reading back any card's record gives the card back. */
  lemma FromJsonToJson(c: Card, newId: NonEmptyString)
    ensures FromJson(ToJson(c), newId) == Success(c)
  {
  }

  /** A record with a valid tag and an id survives being read and written
      back unchanged. */
  lemma ToJsonFromJson(j: CardJson, newId: NonEmptyString)
    requires IsValidType(j.tag) && j.id != ""
    ensures FromJson(j, newId).Success? && ToJson(FromJson(j, newId).value) == j
  {
  }
}
