/** One attempt of the 90-ball layout construction (`tryGenerateBingo90Raw`):
    column counts, number draws, greedy row assignment, the final row check
    and the grid fill; and the proof that an accepted attempt satisfies every
    90-ball layout constraint and that only a failed number draw can reject
    an attempt. */
module Attempt90 {
  import opened Outcomes
  import opened BingoCard
  import opened Counting
  import opened Sorting
  import opened Random

  /** Column c holds numbers from [1, 9] (c = 0), [80, 90] (c = 8) or
      [10c, 10c + 9] (otherwise). */
  function ColumnMin(c: int): int
  {
    if c == 0 then MinNumber90 else c * ColumnRange90
  }

  function ColumnMax(c: int): int
  {
    if c == 8 then MaxNumber90 else c * ColumnRange90 + ColumnRange90 - 1
  }

  // ---------------------------------------------------------------------
  // Layout constraints

  /** The number of numbered cells in a row of values. */
  function RowNumbers(vs: seq<Value>): nat
  {
    if |vs| == 0 then 0 else (if vs[0].Num? then 1 else 0) + RowNumbers(vs[1..])
  }

  /** The number of numbered cells in column c of a 3-row grid. */
  function ColumnNumbers(vg: seq<seq<Value>>, c: int): nat
    requires |vg| == 3 && 0 <= c && c < |vg[0]| && c < |vg[1]| && c < |vg[2]|
  {
    (if vg[0][c].Num? then 1 else 0) + (if vg[1][c].Num? then 1 else 0) + (if vg[2][c].Num? then 1 else 0)
  }

  /** The number of numbered cells in the whole grid. */
  function TotalNumbers(vg: seq<seq<Value>>): nat
  {
    if |vg| == 0 then 0 else RowNumbers(vg[0]) + TotalNumbers(vg[1..])
  }

  /** Every constraint a 90-ball card satisfies: 3 x 9, no FREE cell, 15
      numbers, 5 per row, 1 to 3 per column, each number inside its column's
      range, and numbers strictly increasing down each column. */
  ghost predicate Layout90(vg: seq<seq<Value>>)
  {
    && |vg| == Rows90
    && (forall r :: 0 <= r < 3 ==> |vg[r]| == Cols90)
    && (forall r, c :: 0 <= r < 3 && 0 <= c < 9 ==> !vg[r][c].Free?)
    && TotalNumbers(vg) == TotalNumbers90
    && (forall r :: 0 <= r < 3 ==> RowNumbers(vg[r]) == NumbersPerRow90)
    && (forall c :: 0 <= c < 9 ==> 1 <= ColumnNumbers(vg, c) <= 3)
    && (forall r, c :: 0 <= r < 3 && 0 <= c < 9 && vg[r][c].Num? ==> ColumnMin(c) <= vg[r][c].n <= ColumnMax(c))
    && (forall r1, r2, c :: 0 <= r1 < r2 < 3 && 0 <= c < 9 && vg[r1][c].Num? && vg[r2][c].Num? ==> vg[r1][c].n < vg[r2][c].n)
  }

  // ---------------------------------------------------------------------
  // Phase 1: how many numbers each column gets

  /** Nine counts, each in [1, 3], adding up to 15. */
  predicate ValidCounts(counts: seq<int>)
  {
    && |counts| == Cols90
    && (forall c :: 0 <= c < |counts| ==> 1 <= counts[c] <= Rows90)
    && Sum(counts) == TotalNumbers90
  }

  /** The phase-1 loop: while extra numbers remain, draw a column index and
      give it one more number unless it already holds three. */
  function DistributeExtra(counts: seq<int>, remaining: int, env: Env): (r: Gen<seq<int>>)
    requires ValidTape(env.tape)
    requires |counts| == 9 && forall c :: 0 <= c < 9 ==> 1 <= counts[c] <= 3
    requires 0 <= remaining && Sum(counts) + remaining == 15
    decreases |env.tape|
    ensures !r.Thrown? && Continues(r)
    ensures r.Ok? ==> ValidCounts(r.value) && r.env.next == env.next
  {
    if remaining <= 0 then Ok(counts, env)
    else
      var d := RandomBelow(env, Cols90);
      if d.Exhausted? then Exhausted
      else
        var idx := d.value;
        if counts[idx] < Rows90 then
          SumUpdate(counts, idx, counts[idx] + 1);
          DistributeExtra(counts[idx := counts[idx] + 1], remaining - 1, d.env)
        else DistributeExtra(counts, remaining, d.env)
  }

  /** Phase 1: every column starts at one number and the remaining 15 - 9 = 6
      are spread at random under the cap of three. */
  function ColumnCounts(env: Env): (r: Gen<seq<int>>)
    requires ValidTape(env.tape)
    ensures !r.Thrown? && Continues(r)
    ensures r.Ok? ==> ValidCounts(r.value) && r.env.next == env.next
  {
    var ones := [1, 1, 1, 1, 1, 1, 1, 1, 1];
    assert Sum(ones) == 9 by {
      assert Sum(ones[8..]) == 1;
      assert Sum(ones[7..]) == 2;
      assert Sum(ones[6..]) == 3;
      assert Sum(ones[5..]) == 4;
      assert Sum(ones[4..]) == 5;
      assert Sum(ones[3..]) == 6;
      assert Sum(ones[2..]) == 7;
      assert Sum(ones[1..]) == 8;
    }
    DistributeExtra(ones, TotalNumbers90 - Cols90, env)
  }

  /** The columns the first `n` draws of phase 1 pick,
      `floor(random * 9)` each. */
  function Picks(t: seq<real>, n: nat): (p: seq<int>)
    requires ValidTape(t) && n <= |t|
    ensures |p| == n && forall k :: 0 <= k < n ==> 0 <= p[k] < Cols90
  {
    if n == 0 then []
    else
      FloorBelow(t[0], Cols90);
      [DrawAt(t, 0, 0, Cols90)] + Picks(t[1..], n - 1)
  }

  /** Every picked column still has room for another number. */
  predicate RoomFor(counts: seq<int>, picks: seq<int>)
  {
    forall k :: 0 <= k < |picks| && 0 <= picks[k] < |counts| ==> counts[picks[k]] < Rows90
  }

  /** When the next `remaining` draws pick pairwise different columns that
      each still have room, the phase-1 loop succeeds after exactly those
      draws and gives each picked column one more number. */
  lemma {:induction false} ExtraOnDistinctPicks(counts: seq<int>, remaining: int, env: Env)
    requires ValidTape(env.tape)
    requires |counts| == 9 && forall c :: 0 <= c < 9 ==> 1 <= counts[c] <= 3
    requires 0 <= remaining <= |env.tape| && Sum(counts) + remaining == 15
    requires Distinct(Picks(env.tape, remaining))
    requires RoomFor(counts, Picks(env.tape, remaining))
    ensures DistributeExtra(counts, remaining, env).Ok?
    ensures DistributeExtra(counts, remaining, env).env.tape == env.tape[remaining..]
    ensures forall c :: 0 <= c < 9 ==>
      DistributeExtra(counts, remaining, env).value[c] == counts[c] + (if c in Picks(env.tape, remaining) then 1 else 0)
    decreases remaining
  {
    if remaining > 0 {
      var counts', env' := ExtraStep(counts, remaining, env);
      ExtraOnDistinctPicks(counts', remaining - 1, env');
      assert env.tape[1..][remaining - 1..] == env.tape[remaining..];
    } else {
      assert env.tape[0..] == env.tape;
    }
  }

  /** One pass of the phase-1 loop on a draw that picks a column with room:
      that column gains a number, and the remaining picks are still pairwise
      different columns with room. */
  lemma ExtraStep(counts: seq<int>, remaining: int, env: Env) returns (counts': seq<int>, env': Env)
    requires ValidTape(env.tape)
    requires |counts| == 9 && forall c :: 0 <= c < 9 ==> 1 <= counts[c] <= 3
    requires 0 < remaining <= |env.tape| && Sum(counts) + remaining == 15
    requires Distinct(Picks(env.tape, remaining))
    requires RoomFor(counts, Picks(env.tape, remaining))
    ensures env' == Env(env.tape[1..], env.next) && ValidTape(env'.tape)
    ensures var idx := Picks(env.tape, remaining)[0];
      && counts' == counts[idx := counts[idx] + 1]
      && Picks(env.tape, remaining) == [idx] + Picks(env'.tape, remaining - 1)
      && idx !in Picks(env'.tape, remaining - 1)
    ensures |counts'| == 9 && (forall c :: 0 <= c < 9 ==> 1 <= counts'[c] <= 3) && Sum(counts') + remaining - 1 == 15
    ensures Distinct(Picks(env'.tape, remaining - 1))
    ensures RoomFor(counts', Picks(env'.tape, remaining - 1))
    ensures DistributeExtra(counts, remaining, env) == DistributeExtra(counts', remaining - 1, env')
  {
    var t := env.tape;
    var p := Picks(t, remaining);
    var idx := p[0];
    env' := Env(t[1..], env.next);
    var rest := Picks(env'.tape, remaining - 1);
    assert p == [idx] + rest;
    FirstDraw(env, 0, Cols90);
    assert RandomBelow(env, Cols90) == Ok(idx, env');
    assert counts[p[0]] < Rows90;
    counts' := counts[idx := counts[idx] + 1];
    SumUpdate(counts, idx, counts[idx] + 1);
    forall i, j | 0 <= i < j < |rest| ensures rest[i] != rest[j] {
      assert rest[i] == p[i + 1] && rest[j] == p[j + 1];
    }
    forall k | 0 <= k < |rest| ensures rest[k] != idx && counts'[rest[k]] < Rows90 {
      assert rest[k] == p[k + 1];
    }
  }

  // ---------------------------------------------------------------------
  // Phase 2: the numbers of each column

  /** `nums` are column c's `count` numbers: in range and strictly ascending. */
  predicate ColumnDraw(nums: seq<int>, c: int, count: int)
  {
    && |nums| == count
    && StrictlyAscending(nums)
    && forall k :: 0 <= k < |nums| ==> ColumnMin(c) <= nums[k] <= ColumnMax(c)
  }

  /** The draws `getRandomNumbers` may make for column c: ten per value of
      its range. */
  function ColumnBudget(c: int): nat
  {
    (ColumnMax(c) - ColumnMin(c) + 1) * 10
  }

  /** The draws phase 2 may make for columns c to 8. */
  function BudgetFrom(c: nat): nat
    decreases 9 - c
  {
    if c >= 9 then 0 else ColumnBudget(c) + BudgetFrom(c + 1)
  }

  /** Phase 2 may make 900 draws: ten per number from 1 to 90. */
  const PhaseTwoDraws := (MaxNumber90 - MinNumber90 + 1) * 10

  lemma PhaseTwoBudget()
    ensures BudgetFrom(0) == PhaseTwoDraws
  {
    assert BudgetFrom(8) == 110;
    assert BudgetFrom(4) == 510;
  }

  /** Column c's numbers: `count` distinct draws from its range, sorted. */
  function DrawColumn(c: int, count: int, env: Env): (r: Gen<seq<int>>)
    requires ValidTape(env.tape) && 1 <= count
    ensures Continues(r) && (r.Ok? || r.Thrown? ==> r.env.next == env.next)
    ensures r.Ok? ==> ColumnDraw(r.value, c, count)
    ensures r.Ok? ==> |env.tape| - |r.env.tape| <= ColumnBudget(c)
    ensures r.Thrown? ==> r.error == UniqueDrawFailed
    ensures r.Exhausted? ==> |env.tape| < ColumnBudget(c)
  {
    var d := GetRandomNumbers(ColumnMin(c), ColumnMax(c), count, env);
    if d.Ok? then
      SortNumbersSorted(d.value);
      var nums := SortNumbers(d.value);
      assert forall k :: 0 <= k < |nums| ==> nums[k] in multiset(d.value);
      Ok(nums, d.env)
    else d
  }

  /** `cols` are the draws of columns c, c + 1, ..., 8. */
  predicate ColumnDrawsFrom(cols: seq<seq<int>>, counts: seq<int>, c: nat)
    requires |counts| == 9 && c <= 9
  {
    |cols| == 9 - c && forall k :: 0 <= k < 9 - c ==> ColumnDraw(cols[k], c + k, counts[c + k])
  }

  lemma ColumnDrawsCons(nums: seq<int>, cols: seq<seq<int>>, counts: seq<int>, c: nat)
    requires |counts| == 9 && c < 9
    requires ColumnDraw(nums, c, counts[c]) && ColumnDrawsFrom(cols, counts, c + 1)
    ensures ColumnDrawsFrom([nums] + cols, counts, c)
  {
    var all := [nums] + cols;
    forall k | 0 <= k < 9 - c ensures ColumnDraw(all[k], c + k, counts[c + k]) {
      if k > 0 {
        assert all[k] == cols[k - 1];
      }
    }
  }

  /** Phase 2 from column c on. */
  function DrawColumns(counts: seq<int>, c: nat, env: Env): (r: Gen<seq<seq<int>>>)
    requires ValidTape(env.tape) && ValidCounts(counts) && c <= 9
    decreases 9 - c
    ensures Continues(r) && (r.Ok? || r.Thrown? ==> r.env.next == env.next)
    ensures r.Ok? ==> ColumnDrawsFrom(r.value, counts, c)
    ensures r.Ok? ==> |env.tape| - |r.env.tape| <= BudgetFrom(c)
    ensures r.Thrown? ==> r.error == UniqueDrawFailed
    ensures r.Exhausted? ==> |env.tape| < BudgetFrom(c)
  {
    if c == 9 then Ok([], env)
    else
      var d := DrawColumn(c, counts[c], env);
      if d.Exhausted? then Exhausted
      else if d.Thrown? then Thrown(d.error, d.env)
      else
        var rest := DrawColumns(counts, c + 1, d.env);
        if rest.Ok? then
          ColumnDrawsCons(d.value, rest.value, counts, c);
          Ok([d.value] + rest.value, rest.env)
        else rest
  }

  // ---------------------------------------------------------------------
  // Phase 3: which rows each column's numbers go to

  /** The running per-row counts and each column's assigned rows
      (`rowCounts` and `colInstructions`). */
  datatype Placement = Placement(rowCounts: seq<int>, rows: seq<seq<int>>)

  /** The rows whose count is still below five, in ascending order. */
  function AvailableRows(rc: seq<int>): (a: seq<int>)
    requires |rc| == 3
    ensures forall r :: r in a <==> 0 <= r < 3 && rc[r] < NumbersPerRow90
    ensures forall k :: 0 <= k < |a| ==> 0 <= a[k] < 3
    ensures StrictlyAscending(a)
    ensures |a| == (if rc[0] < NumbersPerRow90 then 1 else 0) + (if rc[1] < NumbersPerRow90 then 1 else 0)
                 + (if rc[2] < NumbersPerRow90 then 1 else 0)
  {
    (if rc[0] < NumbersPerRow90 then [0] else []) +
    (if rc[1] < NumbersPerRow90 then [1] else []) +
    (if rc[2] < NumbersPerRow90 then [2] else [])
  }

  /** The key table of the comparator `colCounts[b] - colCounts[a]`: each
      column's count negated, so that ascending keys are descending counts. */
  function Negated(counts: seq<int>): (key: seq<int>)
    ensures |key| == |counts| && forall c :: 0 <= c < |counts| ==> key[c] == -counts[c]
  {
    if |counts| == 0 then [] else [-counts[0]] + Negated(counts[1..])
  }

  /** The columns 0 to 8 in index order. */
  function ColumnIndices(): (s: seq<int>)
    ensures |s| == 9 && forall c :: 0 <= c < 9 ==> s[c] == c
    ensures forall c :: c in s <==> 0 <= c < 9
    ensures StrictlyAscending(s)
  {
    var s := seq(9, i => i);
    assert forall c :: 0 <= c < 9 ==> c in s by {
      forall c | 0 <= c < 9
        ensures c in s
      {
        assert s[c] == c;
      }
    }
    s
  }

  /** The order phase 3 visits the columns in: by descending count, ties in
      column order (the sort is stable). */
  function ColumnOrder(counts: seq<int>): (order: seq<int>)
    ensures |order| == 9
    ensures forall c :: c in order <==> 0 <= c < 9
    ensures forall i :: 0 <= i < |order| ==> 0 <= order[i] < 9
  {
    var columns := ColumnIndices();
    var order := StableSortBy(columns, Negated(counts));
    forall i | 0 <= i < |order|
      ensures 0 <= order[i] < 9
    {
      assert order[i] in columns;
    }
    assert forall c :: c in order <==> c in columns;
    order
  }

  /** Phase 3 visits every column exactly once, fuller columns first and
      columns of equal count left to right. */
  lemma ColumnOrderSorted(counts: seq<int>)
    requires |counts| == 9
    ensures Distinct(ColumnOrder(counts))
    ensures forall i, j :: 0 <= i < j < 9 ==>
      var a := ColumnOrder(counts)[i];
      var b := ColumnOrder(counts)[j];
      counts[a] > counts[b] || (counts[a] == counts[b] && a < b)
  {
    var key := Negated(counts);
    var order := ColumnOrder(counts);
    StableSortBySorted(ColumnIndices(), key);
    forall i, j | 0 <= i < j < 9
      ensures counts[order[i]] > counts[order[j]] || (counts[order[i]] == counts[order[j]] && order[i] < order[j])
    {
      assert KeyThenIndex(key, order[i], order[j]);
    }
  }

  /** A column of three takes every row, provided all three are open. */
  function TakeAllRows(c: int, p: Placement): (r: Option<Placement>)
    requires |p.rowCounts| == 3 && |p.rows| == 9 && 0 <= c < 9
    ensures r.Some? ==> |r.value.rowCounts| == 3 && |r.value.rows| == 9
  {
    var rc := p.rowCounts;
    if |AvailableRows(rc)| < 3 then None
    else Some(Placement([rc[0] + 1, rc[1] + 1, rc[2] + 1], p.rows[c := [0, 1, 2]]))
  }

  /** The open rows sorted by how many numbers they hold (the key
      `rowCounts[r] ?? 0`), stably. */
  function LeastUsedRows(rc: seq<int>): (sorted: seq<int>)
    requires |rc| == 3
    ensures forall r :: r in sorted <==> 0 <= r < 3 && rc[r] < NumbersPerRow90
    ensures SortedByKeyThenIndex(sorted, rc) && Distinct(sorted)
  {
    var available := AvailableRows(rc);
    StableSortBySorted(available, rc);
    StableSortBy(available, rc)
  }

  /** `rowCounts[r] = (rowCounts[r] ?? 0) + 1`. */
  function Bump(rc: seq<int>, r: int): (rc': seq<int>)
    requires 0 <= r < |rc|
    ensures |rc'| == |rc| && forall x :: 0 <= x < |rc| ==> rc'[x] == rc[x] + (if x == r then 1 else 0)
  {
    rc[r := rc[r] + 1]
  }

  /** A column of two takes the first two least-used open rows, listed in
      ascending order. */
  function TakeTwoRows(c: int, p: Placement): (r: Option<Placement>)
    requires |p.rowCounts| == 3 && |p.rows| == 9 && 0 <= c < 9
    ensures r.Some? ==> |r.value.rowCounts| == 3 && |r.value.rows| == 9
  {
    var rc := p.rowCounts;
    var sorted := LeastUsedRows(rc);
    if |sorted| < 2 then None
    else
      assert sorted[0] in sorted && sorted[1] in sorted;
      var r1 := sorted[0];
      var r2 := sorted[1];
      Some(Placement(Bump(Bump(rc, r1), r2), p.rows[c := SortPair(r1, r2)]))
  }

  /** `[a, b].sort((x, y) => x - y)`. */
  function SortPair(a: int, b: int): (s: seq<int>)
    ensures multiset(s) == multiset{a, b} && Ascending(s)
  {
    if a <= b then [a, b] else [b, a]
  }

  /** The two-element sort agrees with the general numeric sort. */
  lemma SortPairIsSort(a: int, b: int)
    ensures SortPair(a, b) == SortNumbers([a, b])
  {
    assert [a, b][1..] == [b];
  }

  /** A column of one takes the least-used open row. */
  function TakeOneRow(c: int, p: Placement): (r: Option<Placement>)
    requires |p.rowCounts| == 3 && |p.rows| == 9 && 0 <= c < 9
    ensures r.Some? ==> |r.value.rowCounts| == 3 && |r.value.rows| == 9
  {
    var rc := p.rowCounts;
    var sorted := LeastUsedRows(rc);
    if |sorted| < 1 then None
    else
      assert sorted[0] in sorted;
      var r1 := sorted[0];
      Some(Placement(Bump(rc, r1), p.rows[c := [r1]]))
  }

  /** Assigns rows to column c, which holds `count` numbers. `None` is the
      `Retry` error; any other count leaves everything as it is. */
  function PlaceColumn(c: int, count: int, p: Placement): (r: Option<Placement>)
    requires |p.rowCounts| == 3 && |p.rows| == 9 && 0 <= c < 9
    ensures r.Some? ==> |r.value.rowCounts| == 3 && |r.value.rows| == 9
  {
    if count == 3 then TakeAllRows(c, p)
    else if count == 2 then TakeTwoRows(c, p)
    else if count == 1 then TakeOneRow(c, p)
    else Some(p)
  }

  /** The phase-3 loop over the columns in `order`. */
  function AssignRows(order: seq<int>, counts: seq<int>, p: Placement): (r: Option<Placement>)
    requires |counts| == 9 && |p.rowCounts| == 3 && |p.rows| == 9
    requires forall i :: 0 <= i < |order| ==> 0 <= order[i] < 9
    ensures r.Some? ==> |r.value.rowCounts| == 3 && |r.value.rows| == 9
  {
    if |order| == 0 then Some(p)
    else
      var q := PlaceColumn(order[0], counts[order[0]], p);
      if q.None? then None else AssignRows(order[1..], counts, q.value)
  }

  /** The phase-3 starting point: no row used, no column assigned. */
  function EmptyPlacement(): Placement
  {
    Placement([0, 0, 0], seq(9, _ => []))
  }

  /** The number of rows still holding fewer than five numbers. */
  function OpenRows(rc: seq<int>): nat
    requires |rc| == 3
  {
    (if rc[0] < NumbersPerRow90 then 1 else 0) + (if rc[1] < NumbersPerRow90 then 1 else 0)
      + (if rc[2] < NumbersPerRow90 then 1 else 0)
  }

  /** The rows `s` chosen for a column are all open, and no open row left out
      undercuts one of them: it holds more numbers, or as many and comes
      later. */
  predicate LeastChosen(rc: seq<int>, s: seq<int>)
    requires |rc| == 3
  {
    && (forall k :: 0 <= k < |s| ==> 0 <= s[k] < 3 && rc[s[k]] < NumbersPerRow90)
    && (forall x, k :: 0 <= x < 3 && rc[x] < NumbersPerRow90 && x !in s && 0 <= k < |s| ==> KeyThenIndex(rc, s[k], x))
  }

  /** Placing column c on rows `s` takes `q` from `p`: exactly the rows in `s`
      count one more number, column c is assigned `s`, and no other column
      changes. */
  predicate Assigned(p: Placement, q: Placement, c: int, s: seq<int>)
    requires |p.rowCounts| == 3 && |p.rows| == 9 && 0 <= c < 9
  {
    && |q.rowCounts| == 3 && |q.rows| == 9
    && (forall x :: 0 <= x < 3 ==> q.rowCounts[x] == p.rowCounts[x] + (if x in s then 1 else 0))
    && q.rows[c] == s
    && (forall d :: 0 <= d < 9 && d != c ==> q.rows[d] == p.rows[d])
  }

  /** A column of three is placed exactly when all three rows are open; it
      then takes rows 0, 1 and 2. */
  lemma TakeAllRowsChoice(c: int, p: Placement)
    requires |p.rowCounts| == 3 && |p.rows| == 9 && 0 <= c < 9
    ensures TakeAllRows(c, p).Some? <==> OpenRows(p.rowCounts) == 3
    ensures TakeAllRows(c, p).Some? ==> Assigned(p, TakeAllRows(c, p).value, c, [0, 1, 2])
  {
  }

  /** A column of two is placed exactly when at least two rows are open; it
      then takes the two least-used open rows, ties going to the earlier
      row, listed in ascending order. */
  lemma TakeTwoRowsChoice(c: int, p: Placement)
    requires |p.rowCounts| == 3 && |p.rows| == 9 && 0 <= c < 9
    ensures TakeTwoRows(c, p).Some? <==> OpenRows(p.rowCounts) >= 2
    ensures TakeTwoRows(c, p).Some? ==>
      var s := TakeTwoRows(c, p).value.rows[c];
      && ValidRows(s, 2) && LeastChosen(p.rowCounts, s) && Assigned(p, TakeTwoRows(c, p).value, c, s)
  {
    var rc := p.rowCounts;
    LeastUsedCount(rc);
    if OpenRows(rc) >= 2 {
      LeastPairChosen(rc);
      var sorted := LeastUsedRows(rc);
      var r1, r2 := sorted[0], sorted[1];
      PairRows(r1, r2);
      BumpTwoAssigned(p, c, r1, r2);
    }
  }

  /** There are as many least-used rows as open rows. */
  lemma LeastUsedCount(rc: seq<int>)
    requires |rc| == 3
    ensures |LeastUsedRows(rc)| == OpenRows(rc)
  {
    assert |LeastUsedRows(rc)| == |AvailableRows(rc)|;
  }

  /** With one row open or more, the first least-used row is open and least
      chosen. */
  lemma LeastOneChosen(rc: seq<int>)
    requires |rc| == 3 && OpenRows(rc) >= 1
    ensures |LeastUsedRows(rc)| >= 1
    ensures var r1 := LeastUsedRows(rc)[0]; 0 <= r1 < 3 && LeastChosen(rc, [r1])
  {
    LeastUsedCount(rc);
    var sorted := LeastUsedRows(rc);
    assert sorted[0] in sorted;
    SortedHeadFirst(sorted, rc);
  }

  /** With two rows open or more, the first two least-used rows are distinct,
      open and least chosen. */
  lemma LeastPairChosen(rc: seq<int>)
    requires |rc| == 3 && OpenRows(rc) >= 2
    ensures |LeastUsedRows(rc)| >= 2
    ensures var sorted := LeastUsedRows(rc);
      && 0 <= sorted[0] < 3 && 0 <= sorted[1] < 3 && sorted[0] != sorted[1]
      && LeastChosen(rc, SortPair(sorted[0], sorted[1]))
  {
    LeastUsedCount(rc);
    var sorted := LeastUsedRows(rc);
    assert sorted[0] in sorted && sorted[1] in sorted;
    SortedHeadsFirst(sorted, rc);
    LeastChosenPair(rc, sorted[0], sorted[1]);
  }

  /** Bumping one row and assigning it to column c is an assignment. */
  lemma BumpOneAssigned(p: Placement, c: int, r1: int)
    requires |p.rowCounts| == 3 && |p.rows| == 9 && 0 <= c < 9 && 0 <= r1 < 3
    ensures Assigned(p, Placement(Bump(p.rowCounts, r1), p.rows[c := [r1]]), c, [r1])
  {
  }

  /** Bumping two distinct rows and assigning them, ascending, to column c is
      an assignment. */
  lemma BumpTwoAssigned(p: Placement, c: int, r1: int, r2: int)
    requires |p.rowCounts| == 3 && |p.rows| == 9 && 0 <= c < 9
    requires 0 <= r1 < 3 && 0 <= r2 < 3 && r1 != r2
    ensures Assigned(p, Placement(Bump(Bump(p.rowCounts, r1), r2), p.rows[c := SortPair(r1, r2)]), c, SortPair(r1, r2))
  {
    PairRows(r1, r2);
  }

  /** In the key-then-index order, the first element precedes every other. */
  lemma SortedHeadFirst(sorted: seq<int>, key: seq<int>)
    requires SortedByKeyThenIndex(sorted, key) && |sorted| >= 1
    ensures forall x :: x in sorted && x != sorted[0] ==> KeyThenIndex(key, sorted[0], x)
  {
    forall x | x in sorted && x != sorted[0] ensures KeyThenIndex(key, sorted[0], x) {
      var k :| 0 <= k < |sorted| && sorted[k] == x;
      assert k >= 1;
    }
  }

  /** In the key-then-index order, the first two elements precede every
      later one. */
  lemma SortedHeadsFirst(sorted: seq<int>, key: seq<int>)
    requires SortedByKeyThenIndex(sorted, key) && Distinct(sorted) && |sorted| >= 2
    ensures forall x :: x in sorted && x != sorted[0] && x != sorted[1] ==>
      KeyThenIndex(key, sorted[0], x) && KeyThenIndex(key, sorted[1], x)
  {
    forall x | x in sorted && x != sorted[0] && x != sorted[1]
      ensures KeyThenIndex(key, sorted[0], x) && KeyThenIndex(key, sorted[1], x)
    {
      var k :| 0 <= k < |sorted| && sorted[k] == x;
      assert k >= 2;
    }
  }

  /** Two open rows that no other open row undercuts are least chosen in
      either order. */
  lemma LeastChosenPair(rc: seq<int>, r1: int, r2: int)
    requires |rc| == 3 && 0 <= r1 < 3 && 0 <= r2 < 3 && r1 != r2
    requires rc[r1] < NumbersPerRow90 && rc[r2] < NumbersPerRow90
    requires forall x :: 0 <= x < 3 && rc[x] < NumbersPerRow90 && x != r1 && x != r2 ==>
      KeyThenIndex(rc, r1, x) && KeyThenIndex(rc, r2, x)
    ensures LeastChosen(rc, SortPair(r1, r2))
  {
    PairRows(r1, r2);
  }

  /** A column of one is placed exactly when some row is open; it then takes
      the least-used open row, ties going to the earliest. */
  lemma TakeOneRowChoice(c: int, p: Placement)
    requires |p.rowCounts| == 3 && |p.rows| == 9 && 0 <= c < 9
    ensures TakeOneRow(c, p).Some? <==> OpenRows(p.rowCounts) >= 1
    ensures TakeOneRow(c, p).Some? ==>
      var s := TakeOneRow(c, p).value.rows[c];
      && ValidRows(s, 1) && LeastChosen(p.rowCounts, s) && Assigned(p, TakeOneRow(c, p).value, c, s)
  {
    var rc := p.rowCounts;
    LeastUsedCount(rc);
    if OpenRows(rc) >= 1 {
      LeastOneChosen(rc);
      BumpOneAssigned(p, c, LeastUsedRows(rc)[0]);
    }
  }

  /** A column is refused (`Retry`) exactly when it holds one to three
      numbers and fewer rows than that are open; a placed column changes no
      other column and no row count decreases. */
  lemma PlaceColumnRetries(c: int, count: int, p: Placement)
    requires |p.rowCounts| == 3 && |p.rows| == 9 && 0 <= c < 9
    ensures PlaceColumn(c, count, p).None? <==> 1 <= count <= 3 && OpenRows(p.rowCounts) < count
    ensures var r := PlaceColumn(c, count, p);
      r.Some? ==> && (forall d :: 0 <= d < 9 && d != c ==> r.value.rows[d] == p.rows[d])
                  && (forall x :: 0 <= x < 3 ==> p.rowCounts[x] <= r.value.rowCounts[x])
  {
    var r := PlaceColumn(c, count, p);
    if count == 3 {
      TakeAllRowsChoice(c, p);
      if r.Some? {
        AssignedGrows(p, r.value, c, [0, 1, 2]);
      }
    } else if count == 2 {
      TakeTwoRowsChoice(c, p);
      if r.Some? {
        AssignedGrows(p, r.value, c, r.value.rows[c]);
      }
    } else if count == 1 {
      TakeOneRowChoice(c, p);
      if r.Some? {
        AssignedGrows(p, r.value, c, r.value.rows[c]);
      }
    }
  }

  /** An assignment changes no other column and lowers no row count. */
  lemma AssignedGrows(p: Placement, q: Placement, c: int, s: seq<int>)
    requires |p.rowCounts| == 3 && |p.rows| == 9 && 0 <= c < 9
    requires Assigned(p, q, c, s)
    ensures forall d :: 0 <= d < 9 && d != c ==> q.rows[d] == p.rows[d]
    ensures forall x :: 0 <= x < 3 ==> p.rowCounts[x] <= q.rowCounts[x]
  {
  }

  /** The phase-3 loop leaves every column outside `order` as it was, and no
      row count decreases. */
  lemma {:induction false} AssignRowsFrame(order: seq<int>, counts: seq<int>, p: Placement)
    requires |counts| == 9 && |p.rowCounts| == 3 && |p.rows| == 9
    requires forall i :: 0 <= i < |order| ==> 0 <= order[i] < 9
    ensures var r := AssignRows(order, counts, p);
      r.Some? ==> && (forall d :: 0 <= d < 9 && d !in order ==> r.value.rows[d] == p.rows[d])
                  && (forall x :: 0 <= x < 3 ==> p.rowCounts[x] <= r.value.rowCounts[x])
    decreases |order|
  {
    if |order| > 0 {
      var q := PlaceColumn(order[0], counts[order[0]], p);
      PlaceColumnRetries(order[0], counts[order[0]], p);
      if q.Some? {
        AssignRowsFrame(order[1..], counts, q.value);
        assert order[0] in order;
      }
    }
  }

  // ---------------------------------------------------------------------
  // Phase 4: the grid

  /** The value the fill loop leaves in row r of a column whose numbers `nums`
      go to rows `rows`, in order: the last write to row r wins. */
  function Placed(rows: seq<int>, nums: seq<int>, r: int): (v: Value)
    ensures !v.Free?
  {
    if |rows| == 0 then Empty
    else
      var last := |rows| - 1;
      if rows[last] == r && last < |nums| then Num(nums[last]) else Placed(rows[..last], nums, r)
  }

  /** The 3 x 9 grid of numbers and gaps. */
  function FillGrid(p: Placement, cols: seq<seq<int>>): (vg: seq<seq<Value>>)
    requires |p.rows| == 9 && |cols| == 9
    ensures |vg| == 3 && forall r :: 0 <= r < 3 ==> |vg[r]| == 9
    ensures forall r, c :: 0 <= r < 3 && 0 <= c < 9 ==> vg[r][c] == Placed(p.rows[c], cols[c], r)
  {
    seq(3, r requires 0 <= r < 3 => seq(9, c requires 0 <= c < 9 => Placed(p.rows[c], cols[c], r)))
  }

  /** Phases 3 and 4 with the row check between them. `None` is `Retry`. */
  function PlaceAndFill(counts: seq<int>, cols: seq<seq<int>>): (r: Option<seq<seq<Value>>>)
    requires ValidCounts(counts)
    requires |cols| == 9 && forall c :: 0 <= c < 9 ==> ColumnDraw(cols[c], c, counts[c])
    ensures r.Some? ==> Layout90(r.value)
  {
    var placed := AssignRows(ColumnOrder(counts), counts, EmptyPlacement());
    if placed.None? then None
    else if !(forall row :: 0 <= row < 3 ==> placed.value.rowCounts[row] == NumbersPerRow90) then None
    else
      InitialInv(counts);
      AssignRowsComplete(ColumnOrder(counts), counts, EmptyPlacement());
      FillLayout(placed.value, counts, cols);
      Some(FillGrid(placed.value, cols))
  }

  /** One attempt, `tryGenerateBingo90Raw`. An accepted attempt satisfies every
      90-ball layout constraint. */
  function TryGenerateRaw(env: Env): (r: Gen<seq<seq<Value>>>)
    requires ValidTape(env.tape)
    ensures Continues(r) && (r.Ok? || r.Thrown? ==> r.env.next == env.next)
    ensures r.Ok? ==> Layout90(r.value)
    ensures r.Thrown? ==> r.error == UniqueDrawFailed || r.error == Retry
  {
    var counts := ColumnCounts(env);
    if counts.Exhausted? then Exhausted
    else
      var cols := DrawColumns(counts.value, 0, counts.env);
      if cols.Exhausted? then Exhausted
      else if cols.Thrown? then Thrown(cols.error, cols.env)
      else
        var grid := PlaceAndFill(counts.value, cols.value);
        if grid.None? then Thrown(Retry, cols.env) else Ok(grid.value, cols.env)
  }

  // ---------------------------------------------------------------------
  // Phase 3 invariant

  /** The rows a column holding `count` numbers is assigned: `count` distinct
      rows in ascending order. */
  predicate ValidRows(rows: seq<int>, count: int)
  {
    && |rows| == count
    && StrictlyAscending(rows)
    && forall k :: 0 <= k < |rows| ==> 0 <= rows[k] < 3
  }

  /** How many columns are assigned row r. */
  function Uses(rows: seq<seq<int>>, r: int): nat
  {
    if |rows| == 0 then 0 else (if r in rows[0] then 1 else 0) + Uses(rows[1..], r)
  }

  /** The numbers of the columns not yet assigned any row. */
  function Pending(rows: seq<seq<int>>, counts: seq<int>): int
    requires |rows| == |counts|
  {
    if |rows| == 0 then 0 else (if rows[0] == [] then counts[0] else 0) + Pending(rows[1..], counts[1..])
  }

  /** No row count exceeds another by more than one. */
  predicate Balanced(rc: seq<int>)
    requires |rc| == 3
  {
    && rc[0] <= rc[1] + 1 && rc[1] <= rc[0] + 1
    && rc[0] <= rc[2] + 1 && rc[2] <= rc[0] + 1
    && rc[1] <= rc[2] + 1 && rc[2] <= rc[1] + 1
  }

  /** What holds before each step of the phase-3 loop, with `order` the
      columns still to visit: assigned columns have valid rows, the row counts
      count them, stay balanced and together with the pending columns' numbers
      make 15, and `order` lists exactly the pending columns. */
  ghost predicate PlacementInv(p: Placement, counts: seq<int>, order: seq<int>)
  {
    && ValidCounts(counts)
    && |p.rowCounts| == 3 && |p.rows| == 9
    && (forall c :: 0 <= c < 9 ==> p.rows[c] == [] || ValidRows(p.rows[c], counts[c]))
    && p.rowCounts[0] == Uses(p.rows, 0) && p.rowCounts[1] == Uses(p.rows, 1) && p.rowCounts[2] == Uses(p.rows, 2)
    && Balanced(p.rowCounts)
    && p.rowCounts[0] + p.rowCounts[1] + p.rowCounts[2] + Pending(p.rows, counts) == TotalNumbers90
    && (forall i :: 0 <= i < |order| ==> 0 <= order[i] < 9)
    && (forall c :: c in order <==> 0 <= c < 9 && p.rows[c] == [])
    && Distinct(order)
  }

  lemma {:induction false} UsesUpdate(rows: seq<seq<int>>, c: nat, s: seq<int>, r: int)
    requires c < |rows|
    ensures Uses(rows[c := s], r) == Uses(rows, r) - (if r in rows[c] then 1 else 0) + (if r in s then 1 else 0)
  {
    if c > 0 {
      assert rows[c := s][1..] == rows[1..][c - 1 := s];
      UsesUpdate(rows[1..], c - 1, s, r);
    }
  }

  lemma {:induction false} UsesNone(rows: seq<seq<int>>, r: int)
    requires forall c :: 0 <= c < |rows| ==> rows[c] == []
    ensures Uses(rows, r) == 0
  {
    if |rows| > 0 {
      UsesNone(rows[1..], r);
    }
  }

  lemma {:induction false} PendingUpdate(rows: seq<seq<int>>, counts: seq<int>, c: nat, s: seq<int>)
    requires |rows| == |counts| && c < |rows| && rows[c] == [] && s != []
    ensures Pending(rows[c := s], counts) == Pending(rows, counts) - counts[c]
  {
    if c > 0 {
      assert rows[c := s][1..] == rows[1..][c - 1 := s];
      PendingUpdate(rows[1..], counts[1..], c - 1, s);
    }
  }

  lemma {:induction false} PendingNonNegative(rows: seq<seq<int>>, counts: seq<int>)
    requires |rows| == |counts| && forall k :: 0 <= k < |counts| ==> counts[k] >= 0
    ensures Pending(rows, counts) >= 0
  {
    if |rows| > 0 {
      PendingNonNegative(rows[1..], counts[1..]);
    }
  }

  lemma {:induction false} PendingAtLeast(rows: seq<seq<int>>, counts: seq<int>, c: nat)
    requires |rows| == |counts| && c < |rows| && rows[c] == []
    requires forall k :: 0 <= k < |counts| ==> counts[k] >= 0
    ensures Pending(rows, counts) >= counts[c]
  {
    if c == 0 {
      PendingNonNegative(rows[1..], counts[1..]);
    } else {
      PendingAtLeast(rows[1..], counts[1..], c - 1);
    }
  }

  lemma {:induction false} PendingAllEmpty(rows: seq<seq<int>>, counts: seq<int>)
    requires |rows| == |counts| && forall k :: 0 <= k < |rows| ==> rows[k] == []
    ensures Pending(rows, counts) == Sum(counts)
  {
    if |rows| > 0 {
      PendingAllEmpty(rows[1..], counts[1..]);
    }
  }

  lemma {:induction false} PendingNone(rows: seq<seq<int>>, counts: seq<int>)
    requires |rows| == |counts| && forall k :: 0 <= k < |rows| ==> rows[k] != []
    ensures Pending(rows, counts) == 0
  {
    if |rows| > 0 {
      PendingNone(rows[1..], counts[1..]);
    }
  }

  /** Valid rows for `count` numbers cover exactly `count` of the three rows. */
  lemma RowsCover(s: seq<int>, count: int)
    requires ValidRows(s, count) && count <= 3
    ensures (if 0 in s then 1 else 0) + (if 1 in s then 1 else 0) + (if 2 in s then 1 else 0) == count
  {
    if |s| == 1 {
      assert s == [s[0]];
    } else if |s| == 2 {
      assert s == [s[0], s[1]];
    } else if |s| == 3 {
      assert s[0] < s[1] < s[2];
      assert s[0] == 0 && s[1] == 1 && s[2] == 2;
      assert 0 in s && 1 in s && 2 in s;
    }
  }

  /** Assigning rows `s` to the next pending column keeps the invariant when
      the row counts grow by exactly those rows and stay balanced. */
  lemma AssignKeepsInv(p: Placement, counts: seq<int>, order: seq<int>, s: seq<int>, rc: seq<int>)
    requires PlacementInv(p, counts, order) && |order| > 0
    requires ValidRows(s, counts[order[0]])
    requires |rc| == 3 && Balanced(rc)
    requires rc[0] == p.rowCounts[0] + (if 0 in s then 1 else 0)
    requires rc[1] == p.rowCounts[1] + (if 1 in s then 1 else 0)
    requires rc[2] == p.rowCounts[2] + (if 2 in s then 1 else 0)
    ensures PlacementInv(Placement(rc, p.rows[order[0] := s]), counts, order[1..])
  {
    var c := order[0];
    var rows' := p.rows[c := s];
    assert p.rows[c] == [];
    UsesUpdate(p.rows, c, s, 0);
    UsesUpdate(p.rows, c, s, 1);
    UsesUpdate(p.rows, c, s, 2);
    assert |s| >= 1;
    PendingUpdate(p.rows, counts, c, s);
    RowsCover(s, counts[c]);
    assert rc[0] + rc[1] + rc[2] + Pending(rows', counts) == TotalNumbers90;
    forall c' | 0 <= c' < 9 ensures rows'[c'] == [] || ValidRows(rows'[c'], counts[c']) {
      if c' != c {
        assert rows'[c'] == p.rows[c'];
      }
    }
    OrderTail(order);
    forall x ensures x in order[1..] <==> 0 <= x < 9 && rows'[x] == [] {
      if x in order[1..] {
        assert x in order && x != c;
      }
    }
  }

  /** The tail of a list without repeats lacks the head and has no repeats. */
  lemma OrderTail(order: seq<int>)
    requires Distinct(order) && |order| > 0
    ensures Distinct(order[1..]) && order[0] !in order[1..]
    ensures forall x :: x in order[1..] <==> x in order && x != order[0]
  {
    forall i | 0 <= i < |order| - 1 ensures order[1..][i] != order[0] {
      assert order[1..][i] == order[i + 1];
    }
    assert order == [order[0]] + order[1..];
  }

  /** Before a column is placed the rows hold at most 15 minus its count. */
  lemma RoomForColumn(p: Placement, counts: seq<int>, order: seq<int>)
    requires PlacementInv(p, counts, order) && |order| > 0
    ensures p.rowCounts[0] + p.rowCounts[1] + p.rowCounts[2] + counts[order[0]] <= TotalNumbers90
  {
    PendingAtLeast(p.rows, counts, order[0]);
  }

  /** A column of three finds all three rows open and keeps the invariant. */
  lemma PlaceThree(p: Placement, counts: seq<int>, order: seq<int>)
    requires PlacementInv(p, counts, order) && |order| > 0 && counts[order[0]] == 3
    ensures PlaceColumn(order[0], 3, p).Some?
    ensures PlacementInv(PlaceColumn(order[0], 3, p).value, counts, order[1..])
  {
    var rc := p.rowCounts;
    RoomForColumn(p, counts, order);
    var available := AvailableRows(rc);
    assert 0 in available && 1 in available && 2 in available;
    assert |available| == 3;
    var rc' := [rc[0] + 1, rc[1] + 1, rc[2] + 1];
    assert TakeAllRows(order[0], p) == Some(Placement(rc', p.rows[order[0] := [0, 1, 2]]));
    AssignKeepsInv(p, counts, order, [0, 1, 2], rc');
  }

  /** With room for two more numbers, at least two rows are open, and the
      sorted open rows start with two distinct rows. */
  lemma TwoOpenRows(rc: seq<int>)
    requires |rc| == 3 && Balanced(rc) && rc[0] + rc[1] + rc[2] + 2 <= TotalNumbers90
    ensures var sorted := LeastUsedRows(rc);
      |sorted| >= 2 && 0 <= sorted[0] < 3 && 0 <= sorted[1] < 3 && sorted[0] != sorted[1]
  {
    var available := AvailableRows(rc);
    var sorted := LeastUsedRows(rc);
    StableSortBySorted(available, rc);
    assert sorted[0] in available && sorted[1] in available;
    assert KeyThenIndex(rc, sorted[0], sorted[1]);
  }

  /** The first sorted open row is used no more than the second, and the
      second no more than any other row. */
  lemma TwoLeastOrdered(rc: seq<int>)
    requires |rc| == 3
    requires var sorted := LeastUsedRows(rc);
      |sorted| >= 2 && 0 <= sorted[0] < 3 && 0 <= sorted[1] < 3 && sorted[0] != sorted[1]
    ensures var sorted := LeastUsedRows(rc); rc[sorted[0]] <= rc[sorted[1]]
    ensures var sorted := LeastUsedRows(rc);
      forall x :: 0 <= x < 3 && x != sorted[0] && x != sorted[1] ==> rc[sorted[1]] <= rc[x]
  {
    var sorted := LeastUsedRows(rc);
    assert KeyThenIndex(rc, sorted[0], sorted[1]);
    forall x | 0 <= x < 3 && x != sorted[0] && x != sorted[1]
      ensures rc[sorted[1]] <= rc[x]
    {
      if x in sorted {
        var k :| 0 <= k < |sorted| && sorted[k] == x;
        assert KeyThenIndex(rc, sorted[1], sorted[k]);
      }
    }
  }

  /** With room for one more number, some row is open; the stable sort by
      count puts a least-used row first. */
  lemma LeastRow(rc: seq<int>)
    requires |rc| == 3 && Balanced(rc) && rc[0] + rc[1] + rc[2] + 1 <= TotalNumbers90
    ensures var sorted := LeastUsedRows(rc);
      && |sorted| >= 1 && 0 <= sorted[0] < 3
      && rc[sorted[0]] <= rc[0] && rc[sorted[0]] <= rc[1] && rc[sorted[0]] <= rc[2]
  {
    var available := AvailableRows(rc);
    var sorted := LeastUsedRows(rc);
    StableSortBySorted(available, rc);
    assert sorted[0] in available;
    forall x | 0 <= x < 3 && x in available
      ensures rc[sorted[0]] <= rc[x]
    {
      var k :| 0 <= k < |sorted| && sorted[k] == x;
      assert KeyOf(rc, sorted[0]) <= KeyOf(rc, sorted[k]);
    }
  }

  /** Two distinct rows, sorted, are valid rows for a column of two. */
  lemma PairRows(r1: int, r2: int)
    requires 0 <= r1 < 3 && 0 <= r2 < 3 && r1 != r2
    ensures ValidRows(SortPair(r1, r2), 2)
    ensures forall r :: r in SortPair(r1, r2) <==> r == r1 || r == r2
  {
  }

  /** Adding one to the least-used row and one to the next least-used row of
      balanced counts keeps them balanced. */
  lemma BumpTwoBalanced(rc: seq<int>, r1: int, r2: int)
    requires |rc| == 3 && Balanced(rc) && 0 <= r1 < 3 && 0 <= r2 < 3 && r1 != r2
    requires rc[r1] <= rc[r2] <= rc[3 - r1 - r2]
    ensures Balanced(Bump(Bump(rc, r1), r2))
    ensures forall x :: 0 <= x < 3 ==> Bump(Bump(rc, r1), r2)[x] == rc[x] + (if x == r1 || x == r2 then 1 else 0)
  {
  }

  /** A column of two takes the two least-used open rows and keeps the
      invariant. */
  lemma PlaceTwo(p: Placement, counts: seq<int>, order: seq<int>)
    requires PlacementInv(p, counts, order) && |order| > 0 && counts[order[0]] == 2
    ensures PlaceColumn(order[0], 2, p).Some?
    ensures PlacementInv(PlaceColumn(order[0], 2, p).value, counts, order[1..])
  {
    var rc := p.rowCounts;
    RoomForColumn(p, counts, order);
    TwoOpenRows(rc);
    TwoLeastOrdered(rc);
    var sorted := LeastUsedRows(rc);
    var r1 := sorted[0];
    var r2 := sorted[1];
    BumpTwoBalanced(rc, r1, r2);
    PairRows(r1, r2);
    var rc' := Bump(Bump(rc, r1), r2);
    var s := SortPair(r1, r2);
    assert TakeTwoRows(order[0], p) == Some(Placement(rc', p.rows[order[0] := s]));
    AssignKeepsInv(p, counts, order, s, rc');
  }

  /** A column of one takes the least-used open row and keeps the invariant. */
  lemma PlaceOne(p: Placement, counts: seq<int>, order: seq<int>)
    requires PlacementInv(p, counts, order) && |order| > 0 && counts[order[0]] == 1
    ensures PlaceColumn(order[0], 1, p).Some?
    ensures PlacementInv(PlaceColumn(order[0], 1, p).value, counts, order[1..])
  {
    var rc := p.rowCounts;
    RoomForColumn(p, counts, order);
    LeastRow(rc);
    var r1 := LeastUsedRows(rc)[0];
    var rc' := Bump(rc, r1);
    assert TakeOneRow(order[0], p) == Some(Placement(rc', p.rows[order[0] := [r1]]));
    AssignKeepsInv(p, counts, order, [r1], rc');
  }

  /** Phase 3 never rejects: from the invariant, every remaining column is
      placed and the invariant holds with no column left. */
  lemma {:induction false} AssignRowsComplete(order: seq<int>, counts: seq<int>, p: Placement)
    requires PlacementInv(p, counts, order)
    ensures AssignRows(order, counts, p).Some?
    ensures PlacementInv(AssignRows(order, counts, p).value, counts, [])
    decreases |order|
  {
    if |order| > 0 {
      var count := counts[order[0]];
      if count == 3 {
        PlaceThree(p, counts, order);
      } else if count == 2 {
        PlaceTwo(p, counts, order);
      } else {
        PlaceOne(p, counts, order);
      }
      AssignRowsComplete(order[1..], counts, PlaceColumn(order[0], count, p).value);
    }
  }

  /** The invariant holds at the start of phase 3 for any valid counts. */
  lemma InitialInv(counts: seq<int>)
    requires ValidCounts(counts)
    ensures PlacementInv(EmptyPlacement(), counts, ColumnOrder(counts))
  {
    var p := EmptyPlacement();
    UsesNone(p.rows, 0);
    UsesNone(p.rows, 1);
    UsesNone(p.rows, 2);
    PendingAllEmpty(p.rows, counts);
    ColumnOrderSorted(counts);
  }

  /** With every column placed, each row count is exactly five. */
  lemma DoneRowsFull(p: Placement, counts: seq<int>)
    requires PlacementInv(p, counts, [])
    ensures forall r :: 0 <= r < 3 ==> p.rowCounts[r] == NumbersPerRow90
    ensures forall c :: 0 <= c < 9 ==> ValidRows(p.rows[c], counts[c])
  {
    PendingNone(p.rows, counts);
  }

  /** Phase 3 for valid column counts yields five numbers per row, so neither
      a `Retry` inside phase 3 nor the row check after it can reject an
      attempt. */
  lemma RowAssignmentNeverRetries(counts: seq<int>)
    requires ValidCounts(counts)
    ensures AssignRows(ColumnOrder(counts), counts, EmptyPlacement()).Some?
    ensures forall r :: 0 <= r < 3 ==>
      AssignRows(ColumnOrder(counts), counts, EmptyPlacement()).value.rowCounts[r] == NumbersPerRow90
  {
    InitialInv(counts);
    AssignRowsComplete(ColumnOrder(counts), counts, EmptyPlacement());
    DoneRowsFull(AssignRows(ColumnOrder(counts), counts, EmptyPlacement()).value, counts);
  }

  /** Phases 3 and 4 always produce a grid from valid counts and draws. */
  lemma PlaceAndFillSucceeds(counts: seq<int>, cols: seq<seq<int>>)
    requires ValidCounts(counts)
    requires |cols| == 9 && forall c :: 0 <= c < 9 ==> ColumnDraw(cols[c], c, counts[c])
    ensures PlaceAndFill(counts, cols).Some?
  {
    RowAssignmentNeverRetries(counts);
  }

  /** An attempt runs out of randomness only in phase 1, or in phase 2 on a
      tape shorter than phase 2's budget of 900 draws. */
  lemma AttemptExhausted(env: Env)
    requires ValidTape(env.tape)
    ensures TryGenerateRaw(env).Exhausted? ==>
      ColumnCounts(env).Exhausted? || |ColumnCounts(env).env.tape| < PhaseTwoDraws
  {
    PhaseTwoBudget();
  }

  /** An attempt is accepted exactly when both of its drawing phases
      succeed. */
  lemma AttemptAccepted(env: Env)
    requires ValidTape(env.tape)
    ensures var counts := ColumnCounts(env);
      TryGenerateRaw(env).Ok? <==> counts.Ok? && DrawColumns(counts.value, 0, counts.env).Ok?
  {
    var counts := ColumnCounts(env);
    if counts.Ok? {
      var cols := DrawColumns(counts.value, 0, counts.env);
      if cols.Ok? {
        PlaceAndFillSucceeds(counts.value, cols.value);
      }
    }
  }

  /** An accepted attempt leaves the randomness phase 2 leaves. */
  lemma AcceptedAttemptLeaves(env: Env)
    requires ValidTape(env.tape)
    ensures var counts := ColumnCounts(env);
      TryGenerateRaw(env).Ok? ==> TryGenerateRaw(env).env == DrawColumns(counts.value, 0, counts.env).env
  {
  }

  /** An attempt is only ever rejected because a column's numbers could not be
      drawn: `Retry` is never thrown. */
  lemma AttemptOnlyFailsOnDraws(env: Env)
    requires ValidTape(env.tape)
    ensures TryGenerateRaw(env).Thrown? ==> TryGenerateRaw(env).error == UniqueDrawFailed
  {
    var counts := ColumnCounts(env);
    if counts.Ok? {
      var cols := DrawColumns(counts.value, 0, counts.env);
      if cols.Ok? {
        PlaceAndFillSucceeds(counts.value, cols.value);
      }
    }
  }

  // ---------------------------------------------------------------------
  // A tape on which an attempt succeeds

  /** Six phase-1 draws that pick columns 0 to 5. */
  const SpreadDraws: seq<real> := [0.0, 0.12, 0.23, 0.34, 0.45, 0.56]

  /** The column counts those picks give. */
  const SampleCounts: seq<int> := [2, 2, 2, 2, 2, 2, 1, 1, 1]

  /** Phase-2 draws for columns c to 8 under `SampleCounts`: 0.0 and 0.5 for
      a column of two numbers, 0.0 for a column of one. */
  function SampleColumnDraws(c: nat): seq<real>
    decreases 9 - c
  {
    if c >= 9 then [] else (if c < 6 then [0.0, 0.5] else [0.0]) + SampleColumnDraws(c + 1)
  }

  /** A tape that starts with the 21 draws on which a 90-ball attempt is
      accepted and goes on with `rest`. */
  function SampleTape90(rest: seq<real>): seq<real>
  {
    SpreadDraws + (SampleColumnDraws(0) + rest)
  }

  lemma ValidJoin(a: seq<real>, b: seq<real>)
    requires ValidTape(a) && ValidTape(b)
    ensures ValidTape(a + b)
  {
    assert forall i :: 0 <= i < |a + b| ==> (a + b)[i] == if i < |a| then a[i] else b[i - |a|];
  }

  lemma {:induction false} SampleColumnDrawsValid(c: nat)
    ensures ValidTape(SampleColumnDraws(c))
    decreases 9 - c
  {
    if c < 9 {
      SampleColumnDrawsValid(c + 1);
      ValidJoin(if c < 6 then [0.0, 0.5] else [0.0], SampleColumnDraws(c + 1));
    }
  }

  /** Phase 1 on a tape starting with `SpreadDraws` gives `SampleCounts` and
      consumes exactly those six draws. */
  lemma SpreadCounts(rest: seq<real>, next: nat)
    requires ValidTape(rest)
    ensures ValidTape(SpreadDraws + rest)
    ensures ColumnCounts(Env(SpreadDraws + rest, next)) == Ok(SampleCounts, Env(rest, next))
  {
    var env := Env(SpreadDraws + rest, next);
    SpreadPicks(rest);
    OnesSum();
    ExtraOnDistinctPicks(Ones, 6, env);
    ColumnCountsUnfold(env);
    var r := DistributeExtra(Ones, 6, env);
    assert env.tape[6..] == rest;
    SpreadValues(r.value);
  }

  /** One more number in each of columns 0 to 5 gives `SampleCounts`. */
  lemma SpreadValues(v: seq<int>)
    requires |v| == 9 && forall c :: 0 <= c < 9 ==> v[c] == Ones[c] + (if c in [0, 1, 2, 3, 4, 5] then 1 else 0)
    ensures v == SampleCounts
  {
    var picked := [0, 1, 2, 3, 4, 5];
    forall c | 0 <= c < 9 ensures v[c] == SampleCounts[c] {
      if c < 6 {
        assert picked[c] == c;
      } else {
        assert forall i :: 0 <= i < 6 ==> picked[i] != c;
      }
    }
  }

  /** Every column starts at one number. */
  const Ones: seq<int> := [1, 1, 1, 1, 1, 1, 1, 1, 1]

  lemma OnesSum()
    ensures Sum(Ones) == 9
  {
    assert Sum(Ones[8..]) == 1;
    assert Sum(Ones[7..]) == 2;
    assert Sum(Ones[6..]) == 3;
    assert Sum(Ones[5..]) == 4;
    assert Sum(Ones[4..]) == 5;
    assert Sum(Ones[3..]) == 6;
    assert Sum(Ones[2..]) == 7;
    assert Sum(Ones[1..]) == 8;
  }

  /** Phase 1 is the loop started from one number per column. */
  lemma ColumnCountsUnfold(env: Env)
    requires ValidTape(env.tape)
    ensures Sum(Ones) == 9 && ColumnCounts(env) == DistributeExtra(Ones, 6, env)
  {
    OnesSum();
  }

  /** The six draws of `SpreadDraws` pick columns 0 to 5. */
  lemma SpreadPicks(rest: seq<real>)
    requires ValidTape(rest)
    ensures ValidTape(SpreadDraws + rest)
    ensures 6 <= |SpreadDraws + rest| && Picks(SpreadDraws + rest, 6) == [0, 1, 2, 3, 4, 5]
  {
    ValidJoin(SpreadDraws, rest);
    var t := SpreadDraws + rest;
    assert Picks(t[6..], 0) == [];
    assert Picks(t[5..], 1) == [5] by { assert t[5..][1..] == t[6..]; }
    assert Picks(t[4..], 2) == [4, 5] by { assert t[4..][1..] == t[5..]; }
    assert Picks(t[3..], 3) == [3, 4, 5] by { assert t[3..][1..] == t[4..]; }
    assert Picks(t[2..], 4) == [2, 3, 4, 5] by { assert t[2..][1..] == t[3..]; }
    assert Picks(t[1..], 5) == [1, 2, 3, 4, 5] by { assert t[1..][1..] == t[2..]; }
  }

  /** Two draws 0.0 and 0.5 from a range of at least two values are
      different values. */
  lemma TwoApart(t: seq<real>, min: int, width: int)
    requires |t| >= 2 && t[0] == 0.0 && t[1] == 0.5 && width >= 2
    ensures |Drawn(t, 2, min, width)| == 2
  {
    assert 0.5 * width as real >= 1.0;
    assert DrawAt(t, 0, min, width) == min;
    assert DrawAt(t[1..], 0, min, width) != min;
    assert Drawn(t[1..][1..], 0, min, width) == {};
  }

  /** One draw yields one value. */
  lemma OneDraw(t: seq<real>, min: int, width: int)
    requires |t| >= 1
    ensures |Drawn(t, 1, min, width)| == 1
  {
    assert Drawn(t[1..], 0, min, width) == {};
  }

  /** Column c's draw under `SampleCounts` succeeds on a tape starting with
      its block of `SampleColumnDraws` and consumes exactly that block. */
  lemma SampleColumnStep(c: nat, later: seq<real>, next: nat)
    requires c < 9 && ValidTape(later)
    ensures var t := (if c < 6 then [0.0, 0.5] else [0.0]) + later;
      && ValidTape(t)
      && DrawColumn(c, SampleCounts[c], Env(t, next)).Ok?
      && DrawColumn(c, SampleCounts[c], Env(t, next)).env == Env(later, next)
  {
    var block: seq<real> := if c < 6 then [0.0, 0.5] else [0.0];
    var env := Env(block + later, next);
    ValidJoin(block, later);
    var k := SampleCounts[c];
    if c < 6 {
      TwoApart(env.tape, ColumnMin(c), ColumnMax(c) - ColumnMin(c) + 1);
    } else {
      OneDraw(env.tape, ColumnMin(c), ColumnMax(c) - ColumnMin(c) + 1);
    }
    DistinctDrawsSucceed(ColumnMin(c), ColumnMax(c), k, env);
    assert env.tape[k..] == later;
  }

  /** Phase 2 goes on from column c + 1 once column c is drawn. */
  lemma DrawColumnsUnfold(counts: seq<int>, c: nat, env: Env)
    requires ValidTape(env.tape) && ValidCounts(counts) && c < 9
    requires DrawColumn(c, counts[c], env).Ok?
    ensures var rest := DrawColumns(counts, c + 1, DrawColumn(c, counts[c], env).env);
      && (DrawColumns(counts, c, env).Ok? <==> rest.Ok?)
      && (rest.Ok? ==> DrawColumns(counts, c, env).env == rest.env)
  {
  }

  /** Phase 2 for columns c to 8 under `SampleCounts` succeeds on a tape
      starting with `SampleColumnDraws(c)` and consumes exactly those draws. */
  lemma {:induction false} SampleColumnsDrawn(c: nat, rest: seq<real>, next: nat)
    requires c <= 9 && ValidTape(rest)
    ensures ValidTape(SampleColumnDraws(c) + rest)
    ensures DrawColumns(SampleCounts, c, Env(SampleColumnDraws(c) + rest, next)).Ok?
    ensures DrawColumns(SampleCounts, c, Env(SampleColumnDraws(c) + rest, next)).env.tape == rest
    decreases 9 - c
  {
    SampleColumnDrawsValid(c);
    ValidJoin(SampleColumnDraws(c), rest);
    if c == 9 {
      assert SampleColumnDraws(c) + rest == rest;
    } else {
      var later := SampleColumnDraws(c + 1) + rest;
      assert SampleColumnDraws(c) + rest == (if c < 6 then [0.0, 0.5] else [0.0]) + later;
      SampleColumnsDrawn(c + 1, rest, next);
      SampleColumnStep(c, later, next);
      SampleCountsValid();
      DrawColumnsUnfold(SampleCounts, c, Env(SampleColumnDraws(c) + rest, next));
    }
  }

  lemma SampleCountsValid()
    ensures ValidCounts(SampleCounts)
  {
    assert Sum(SampleCounts[8..]) == 1;
    assert Sum(SampleCounts[7..]) == 2;
    assert Sum(SampleCounts[6..]) == 3;
    assert Sum(SampleCounts[5..]) == 5;
    assert Sum(SampleCounts[4..]) == 7;
    assert Sum(SampleCounts[3..]) == 9;
    assert Sum(SampleCounts[2..]) == 11;
    assert Sum(SampleCounts[1..]) == 13;
  }

  /** An attempt on a tape starting with the 21 sample draws is accepted and
      consumes exactly those draws: generation is not bound to run out. */
  lemma SampleAttemptAccepted(rest: seq<real>, next: nat)
    requires ValidTape(rest)
    ensures ValidTape(SampleTape90(rest))
    ensures TryGenerateRaw(Env(SampleTape90(rest), next)).Ok?
    ensures TryGenerateRaw(Env(SampleTape90(rest), next)).env == Env(rest, next)
  {
    var later := SampleColumnDraws(0) + rest;
    SampleColumnsDrawn(0, rest, next);
    SpreadCounts(later, next);
    AttemptAccepted(Env(SampleTape90(rest), next));
    AcceptedAttemptLeaves(Env(SampleTape90(rest), next));
  }

  // ---------------------------------------------------------------------
  // Phase 4 proof

  /** Later instructions overwrite earlier ones: row r holds the number of
      the last instruction for r that has a number. */
  lemma {:induction false} PlacedLastWrite(rows: seq<int>, nums: seq<int>, r: int, i: int)
    requires 0 <= i < |rows| && i < |nums| && rows[i] == r
    requires forall j :: i < j < |rows| && j < |nums| ==> rows[j] != r
    ensures Placed(rows, nums, r) == Num(nums[i])
    decreases |rows|
  {
    var last := |rows| - 1;
    if last != i {
      assert !(rows[last] == r && last < |nums|);
      PlacedLastWrite(rows[..last], nums, r, i);
    }
  }

  /** A row that no instruction with a number names stays empty. */
  lemma {:induction false} PlacedNoWrite(rows: seq<int>, nums: seq<int>, r: int)
    requires forall j :: 0 <= j < |rows| && j < |nums| ==> rows[j] != r
    ensures Placed(rows, nums, r) == Empty
    decreases |rows|
  {
    if |rows| > 0 {
      PlacedNoWrite(rows[..|rows| - 1], nums, r);
    }
  }

  /** The fill puts a column's i-th number in its i-th assigned row. */
  lemma {:induction false} PlacedAt(rows: seq<int>, nums: seq<int>, i: int)
    requires StrictlyAscending(rows) && |nums| >= |rows| && 0 <= i < |rows|
    ensures Placed(rows, nums, rows[i]) == Num(nums[i])
    decreases |rows|
  {
    var last := |rows| - 1;
    if i < last {
      assert rows[last] != rows[i];
      PlacedAt(rows[..last], nums, i);
    }
  }

  /** A row the column is not assigned stays empty. */
  lemma {:induction false} PlacedEmpty(rows: seq<int>, nums: seq<int>, r: int)
    requires r !in rows
    ensures Placed(rows, nums, r) == Empty
    decreases |rows|
  {
    if |rows| > 0 {
      PlacedEmpty(rows[..|rows| - 1], nums, r);
    }
  }

  /** A row's numbered cells are the columns assigned that row. */
  lemma {:induction false} RowNumbersUses(vs: seq<Value>, rows: seq<seq<int>>, r: int)
    requires |vs| == |rows| && forall c :: 0 <= c < |vs| ==> (vs[c].Num? <==> r in rows[c])
    ensures RowNumbers(vs) == Uses(rows, r)
  {
    if |vs| > 0 {
      RowNumbersUses(vs[1..], rows[1..], r);
    }
  }

  /** Each cell of the fill: numbered exactly where its column was assigned
      its row, holding the column's number of matching rank. */
  lemma FillCells(p: Placement, counts: seq<int>, cols: seq<seq<int>>)
    requires |p.rows| == 9 && |counts| == 9 && forall c :: 0 <= c < 9 ==> ValidRows(p.rows[c], counts[c])
    requires |cols| == 9 && forall c :: 0 <= c < 9 ==> ColumnDraw(cols[c], c, counts[c])
    ensures forall r, c :: 0 <= r < 3 && 0 <= c < 9 ==>
      (FillGrid(p, cols)[r][c].Num? <==> r in p.rows[c]) && !FillGrid(p, cols)[r][c].Free?
    ensures forall r, c, i :: 0 <= r < 3 && 0 <= c < 9 && 0 <= i < |p.rows[c]| && p.rows[c][i] == r ==>
      i < |cols[c]| && FillGrid(p, cols)[r][c] == Num(cols[c][i])
  {
    forall r, c | 0 <= r < 3 && 0 <= c < 9
      ensures Placed(p.rows[c], cols[c], r).Num? <==> r in p.rows[c]
      ensures !Placed(p.rows[c], cols[c], r).Free?
    {
      if r in p.rows[c] {
        var i :| 0 <= i < |p.rows[c]| && p.rows[c][i] == r;
        PlacedAt(p.rows[c], cols[c], i);
      } else {
        PlacedEmpty(p.rows[c], cols[c], r);
      }
    }
    forall r, c, i | 0 <= r < 3 && 0 <= c < 9 && 0 <= i < |p.rows[c]| && p.rows[c][i] == r
      ensures i < |cols[c]| && Placed(p.rows[c], cols[c], r) == Num(cols[c][i])
    {
      PlacedAt(p.rows[c], cols[c], i);
    }
  }

  /** The row and total counts of the fill. */
  lemma FillRows(p: Placement, counts: seq<int>, cols: seq<seq<int>>)
    requires PlacementInv(p, counts, [])
    requires |cols| == 9 && forall c :: 0 <= c < 9 ==> ColumnDraw(cols[c], c, counts[c])
    ensures forall r :: 0 <= r < 3 ==> RowNumbers(FillGrid(p, cols)[r]) == NumbersPerRow90
    ensures TotalNumbers(FillGrid(p, cols)) == TotalNumbers90
  {
    DoneRowsFull(p, counts);
    FillCells(p, counts, cols);
    var vg: seq<seq<Value>> := FillGrid(p, cols);
    RowNumbersUses(vg[0], p.rows, 0);
    RowNumbersUses(vg[1], p.rows, 1);
    RowNumbersUses(vg[2], p.rows, 2);
    var t1 := vg[1..];
    var t2 := t1[1..];
    assert t2[1..] == [];
    assert TotalNumbers(t2) == RowNumbers(vg[2]);
    assert TotalNumbers(t1) == RowNumbers(vg[1]) + TotalNumbers(t2);
  }

  /** Each column of the fill holds its count of numbers. */
  lemma FillColumnCounts(p: Placement, counts: seq<int>, cols: seq<seq<int>>)
    requires ValidCounts(counts)
    requires |p.rows| == 9 && forall c :: 0 <= c < 9 ==> ValidRows(p.rows[c], counts[c])
    requires |cols| == 9 && forall c :: 0 <= c < 9 ==> ColumnDraw(cols[c], c, counts[c])
    ensures forall c :: 0 <= c < 9 ==> ColumnNumbers(FillGrid(p, cols), c) == counts[c]
  {
    FillCells(p, counts, cols);
    forall c | 0 <= c < 9
      ensures ColumnNumbers(FillGrid(p, cols), c) == counts[c]
    {
      RowsCover(p.rows[c], counts[c]);
    }
  }

  /** Each number of the fill lies in its column's range, and numbers increase
      down each column. */
  lemma FillColumnOrder(p: Placement, counts: seq<int>, cols: seq<seq<int>>)
    requires |counts| == 9
    requires |p.rows| == 9 && forall c :: 0 <= c < 9 ==> ValidRows(p.rows[c], counts[c])
    requires |cols| == 9 && forall c :: 0 <= c < 9 ==> ColumnDraw(cols[c], c, counts[c])
    ensures forall r, c :: 0 <= r < 3 && 0 <= c < 9 && FillGrid(p, cols)[r][c].Num? ==>
      ColumnMin(c) <= FillGrid(p, cols)[r][c].n <= ColumnMax(c)
    ensures forall r1, r2, c :: 0 <= r1 < r2 < 3 && 0 <= c < 9 && FillGrid(p, cols)[r1][c].Num? && FillGrid(p, cols)[r2][c].Num? ==>
      FillGrid(p, cols)[r1][c].n < FillGrid(p, cols)[r2][c].n
  {
    var vg: seq<seq<Value>> := FillGrid(p, cols);
    forall r, c | 0 <= r < 3 && 0 <= c < 9 && vg[r][c].Num?
      ensures ColumnMin(c) <= vg[r][c].n <= ColumnMax(c)
    {
      if r !in p.rows[c] {
        PlacedEmpty(p.rows[c], cols[c], r);
      }
      var i :| 0 <= i < |p.rows[c]| && p.rows[c][i] == r;
      PlacedAt(p.rows[c], cols[c], i);
    }
    forall r1, r2, c | 0 <= r1 < r2 < 3 && 0 <= c < 9 && vg[r1][c].Num? && vg[r2][c].Num?
      ensures vg[r1][c].n < vg[r2][c].n
    {
      if r1 !in p.rows[c] {
        PlacedEmpty(p.rows[c], cols[c], r1);
      }
      if r2 !in p.rows[c] {
        PlacedEmpty(p.rows[c], cols[c], r2);
      }
      var i1 :| 0 <= i1 < |p.rows[c]| && p.rows[c][i1] == r1;
      var i2 :| 0 <= i2 < |p.rows[c]| && p.rows[c][i2] == r2;
      PlacedAt(p.rows[c], cols[c], i1);
      PlacedAt(p.rows[c], cols[c], i2);
      assert i1 < i2;
    }
  }

  /** The fill of a completed phase 3 with valid phase-2 numbers satisfies
      every layout constraint. */
  lemma FillLayout(p: Placement, counts: seq<int>, cols: seq<seq<int>>)
    requires PlacementInv(p, counts, [])
    requires |cols| == 9 && forall c :: 0 <= c < 9 ==> ColumnDraw(cols[c], c, counts[c])
    ensures Layout90(FillGrid(p, cols))
  {
    DoneRowsFull(p, counts);
    FillCells(p, counts, cols);
    FillRows(p, counts, cols);
    FillColumnCounts(p, counts, cols);
    FillColumnOrder(p, counts, cols);
  }
}
