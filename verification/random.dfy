/** `Math.random()` as an explicit tape of draws, and the rejection sampler both
    card variants use to collect distinct numbers from a range. */
module Random {
  import opened Outcomes
  import opened Sorting
  import Counting

  /** Every value `Math.random()` returns lies in [0, 1). */
  predicate ValidTape(t: seq<real>)
  {
    forall i :: 0 <= i < |t| ==> 0.0 <= t[i] < 1.0
  }

  /** The randomness an operation leaves behind is still a valid tape. */
  predicate Continues<T>(r: Gen<T>)
  {
    (r.Ok? || r.Thrown?) ==> ValidTape(r.env.tape)
  }

  lemma FloorBelow(x: real, n: int)
    requires 0.0 <= x < 1.0 && n > 0
    ensures 0 <= (x * n as real).Floor < n
  {
    assert x * n as real < 1.0 * n as real;
  }

  /** `Math.floor(Math.random() * n)`: consumes one draw and, for a positive
      `n`, yields an integer in [0, n). */
  function RandomBelow(env: Env, n: int): (r: Gen<int>)
    requires ValidTape(env.tape)
    ensures !r.Thrown?
    ensures r.Exhausted? <==> |env.tape| == 0
    ensures r.Ok? ==> r.env == Env(env.tape[1..], env.next)
    ensures r.Ok? && n > 0 ==> 0 <= r.value < n
    ensures Continues(r)
  {
    if |env.tape| == 0 then Exhausted
    else
      var x := env.tape[0];
      if n > 0 then FloorBelow(x, n); Ok((x * n as real).Floor, Env(env.tape[1..], env.next))
      else Ok((x * n as real).Floor, Env(env.tape[1..], env.next))
  }

  /** The value `floor(t[i] * width) + min` that the i-th draw of the tape
      yields. */
  function DrawAt(t: seq<real>, i: int, min: int, width: int): int
    requires 0 <= i < |t|
  {
    (t[i] * width as real).Floor + min
  }

  /** The values the first `k` draws of the tape yield (all of them when the
      tape is shorter). */
  function Drawn(t: seq<real>, k: int, min: int, width: int): set<int>
    decreases |t|
  {
    if k <= 0 || |t| == 0 then {} else {DrawAt(t, 0, min, width)} + Drawn(t[1..], k - 1, min, width)
  }

  /** The values a sequence holds. */
  function Elements(s: seq<int>): set<int>
  {
    set x | x in s
  }

  /** The values held, together with those the first `k` draws yield. */
  function Seen(nums: seq<int>, t: seq<real>, k: int, min: int, width: int): set<int>
  {
    Elements(nums) + Drawn(t, k, min, width)
  }

  /** The loop of `getRandomNumbers`: while fewer than `count` distinct values
      are held and `attempts < maxAttempts`, draw `floor(random * width) + min`
      and add it to the insertion-ordered set `nums`. */
  function CollectDistinct(min: int, width: int, count: int, maxAttempts: int, attempts: int,
                           nums: seq<int>, env: Env): (r: Gen<seq<int>>)
    requires ValidTape(env.tape)
    requires maxAttempts == width * 10 && 0 <= attempts
    requires Distinct(nums) && |nums| <= (if count < 0 then 0 else count)
    requires forall k :: 0 <= k < |nums| ==> min <= nums[k] < min + width
    decreases maxAttempts - attempts
    ensures Continues(r) && (r.Ok? || r.Thrown? ==> r.env.next == env.next)
    ensures r.Ok? ==> |r.value| == (if count < 0 then 0 else count)
    ensures r.Ok? ==> Distinct(r.value) && forall k :: 0 <= k < |r.value| ==> min <= r.value[k] < min + width
    ensures r.Ok? ==> nums <= r.value
    ensures r.Thrown? ==> r.error == UniqueDrawFailed && count > 0
    ensures r.Thrown? ==> |env.tape| - |r.env.tape| == (if attempts < maxAttempts then maxAttempts - attempts else 0)
    ensures r.Exhausted? ==> attempts < maxAttempts && |env.tape| < maxAttempts - attempts
    ensures r.Ok? ==> |env.tape| - |r.env.tape| <= (if attempts < maxAttempts then maxAttempts - attempts else 0)
  {
    if |nums| < count && attempts < maxAttempts then
      var d := RandomBelow(env, width);
      if d.Exhausted? then Exhausted
      else
        var n := d.value + min;
        var nums' := if n in nums then nums else nums + [n];
        CollectDistinct(min, width, count, maxAttempts, attempts + 1, nums', d.env)
    else if |nums| < count then Thrown(UniqueDrawFailed, env)
    else Ok(nums, env)
  }

  /** A sequence without repeats has as many values as elements. */
  lemma {:induction false} DistinctElements(s: seq<int>)
    requires Distinct(s)
    ensures |Elements(s)| == |s|
  {
    if |s| > 0 {
      var init := s[..|s| - 1];
      DistinctElements(init);
      assert Elements(s) == Elements(init) + {s[|s| - 1]};
      assert s[|s| - 1] !in Elements(init);
    }
  }

  /** What the draws of tape `t` explain about an outcome `r` of the loop
      started with `nums` held and `budget` draws allowed: an outcome holds
      exactly the values of the draws it consumed, and stops at the first draw
      that completes `count` values; it throws exactly when the whole budget
      yields fewer than `count` values; it runs out of tape exactly when the
      tape is shorter than the budget and all of it yields fewer than `count`
      values. */
  predicate Explains(nums: seq<int>, t: seq<real>, budget: int, count: int, min: int, width: int,
                     r: Gen<seq<int>>)
  {
    && CollectsDrawn(nums, t, min, width, r)
    && StopsWhenComplete(nums, t, count, min, width, r)
    && ExhaustsExactly(nums, t, budget, count, min, width, r)
    && ThrowsExactly(nums, t, budget, count, min, width, r)
  }

  /** The tape runs out exactly when it is shorter than the budget and all
      of it yields fewer than `count` values. */
  predicate ExhaustsExactly(nums: seq<int>, t: seq<real>, budget: int, count: int, min: int, width: int,
                            r: Gen<seq<int>>)
  {
    r.Exhausted? <==> |t| < budget && |Seen(nums, t, |t|, min, width)| < count
  }

  /** Short of running out of tape, the loop throws exactly when the whole
      budget of draws yields fewer than `count` values. */
  predicate ThrowsExactly(nums: seq<int>, t: seq<real>, budget: int, count: int, min: int, width: int,
                          r: Gen<seq<int>>)
  {
    !r.Exhausted? ==> (r.Thrown? <==> |Seen(nums, t, budget, min, width)| < count)
  }

  /** A collected outcome holds exactly the values of the draws it consumed. */
  predicate CollectsDrawn(nums: seq<int>, t: seq<real>, min: int, width: int, r: Gen<seq<int>>)
  {
    r.Ok? ==> |r.env.tape| <= |t| && Elements(r.value) == Seen(nums, t, |t| - |r.env.tape|, min, width)
  }

  /** A collected outcome consumed no draw past the one that completed
      `count` values. */
  predicate StopsWhenComplete(nums: seq<int>, t: seq<real>, count: int, min: int, width: int, r: Gen<seq<int>>)
  {
    r.Ok? && |r.env.tape| < |t| ==> |Seen(nums, t, |t| - |r.env.tape| - 1, min, width)| < count
  }

  /** The loop collects exactly the values of the draws it consumes, stops at
      the first draw that completes `count` values, throws exactly when the
      whole budget of draws yields fewer than `count` values, and runs out of
      tape exactly when the tape is shorter than the budget and all of it
      yields fewer than `count` values. */
  lemma {:induction false} CollectDraws(min: int, width: int, count: int, maxAttempts: int, attempts: int,
                                        nums: seq<int>, env: Env, budget: int)
    requires ValidTape(env.tape)
    requires maxAttempts == width * 10 && 0 <= attempts
    requires Distinct(nums) && |nums| <= (if count < 0 then 0 else count)
    requires forall k :: 0 <= k < |nums| ==> min <= nums[k] < min + width
    requires budget == if attempts < maxAttempts then maxAttempts - attempts else 0
    decreases maxAttempts - attempts, 1
    ensures Explains(nums, env.tape, budget, count, min, width,
                     CollectDistinct(min, width, count, maxAttempts, attempts, nums, env))
  {
    if |nums| < count && attempts < maxAttempts && |env.tape| > 0 {
      CollectStep(min, width, count, maxAttempts, attempts, nums, env, budget);
    } else {
      CollectBase(min, width, count, maxAttempts, attempts, nums, env);
    }
  }

  /** One pass of the loop, then the rest of the tape. */
  lemma {:induction false} CollectStep(min: int, width: int, count: int, maxAttempts: int, attempts: int,
                                       nums: seq<int>, env: Env, budget: int)
    requires ValidTape(env.tape) && |env.tape| > 0
    requires maxAttempts == width * 10 && 0 <= attempts < maxAttempts
    requires Distinct(nums) && |nums| < count
    requires forall k :: 0 <= k < |nums| ==> min <= nums[k] < min + width
    requires budget == maxAttempts - attempts
    decreases maxAttempts - attempts, 0
    ensures Explains(nums, env.tape, budget, count, min, width,
                     CollectDistinct(min, width, count, maxAttempts, attempts, nums, env))
  {
    var nums', env' := CollectUnfold(min, width, count, maxAttempts, attempts, nums, env);
    CollectDraws(min, width, count, maxAttempts, attempts + 1, nums', env', budget - 1);
    StepExplains(nums, nums', env.tape, env'.tape, budget, budget - 1, count, min, width,
                 CollectDistinct(min, width, count, maxAttempts, attempts + 1, nums', env'));
  }

  /** When the loop does not run, its outcome is explained by the values
      held. */
  lemma CollectBase(min: int, width: int, count: int, maxAttempts: int, attempts: int,
                    nums: seq<int>, env: Env)
    requires ValidTape(env.tape)
    requires maxAttempts == width * 10 && 0 <= attempts
    requires Distinct(nums) && |nums| <= (if count < 0 then 0 else count)
    requires forall k :: 0 <= k < |nums| ==> min <= nums[k] < min + width
    requires !(|nums| < count && attempts < maxAttempts && |env.tape| > 0)
    ensures Explains(nums, env.tape, if attempts < maxAttempts then maxAttempts - attempts else 0, count, min, width,
                     CollectDistinct(min, width, count, maxAttempts, attempts, nums, env))
  {
    var budget := if attempts < maxAttempts then maxAttempts - attempts else 0;
    BaseExplains(nums, env.tape, budget, count, min, width,
                 CollectDistinct(min, width, count, maxAttempts, attempts, nums, env));
  }

  /** One draw on: what the rest of the tape explains with the first draw
      held, the whole tape explains without it. */
  lemma StepExplains(nums: seq<int>, nums': seq<int>, t: seq<real>, t': seq<real>, budget: int, budget': int,
                     count: int, min: int, width: int, r: Gen<seq<int>>)
    requires |t| > 0 && t' == t[1..] && budget > 0 && budget' == budget - 1 && Distinct(nums) && |nums| < count
    requires Elements(nums') == Elements(nums) + {DrawAt(t, 0, min, width)}
    requires Explains(nums', t', budget', count, min, width, r)
    ensures Explains(nums, t, budget, count, min, width, r)
  {
    StepCollects(nums, nums', t, t', budget, budget', count, min, width, r);
    StepStops(nums, nums', t, t', budget, budget', count, min, width, r);
    StepExhausts(nums, nums', t, t', budget, budget', count, min, width, r);
    StepThrows(nums, nums', t, t', budget, budget', count, min, width, r);
  }

  /** One draw on, a collected outcome still holds exactly the values of
      the draws it consumed. */
  lemma StepCollects(nums: seq<int>, nums': seq<int>, t: seq<real>, t': seq<real>, budget: int, budget': int,
                     count: int, min: int, width: int, r: Gen<seq<int>>)
    requires |t| > 0 && t' == t[1..] && budget > 0 && budget' == budget - 1 && Distinct(nums) && |nums| < count
    requires Elements(nums') == Elements(nums) + {DrawAt(t, 0, min, width)}
    requires Explains(nums', t', budget', count, min, width, r)
    ensures CollectsDrawn(nums, t, min, width, r)
  {
    if r.Ok? {
      var used' := |t'| - |r.env.tape|;
      assert |r.env.tape| <= |t'|;
      assert Elements(r.value) == Seen(nums', t', used', min, width);
      assert |t| - |r.env.tape| == used' + 1;
      SeenStep(nums, nums', t, used', min, width);
      assert Seen(nums', t', used', min, width) == Seen(nums, t, used' + 1, min, width);
    }
  }

  /** One draw on, a collected outcome still stops at the draw that
      completes `count` values. */
  lemma StepStops(nums: seq<int>, nums': seq<int>, t: seq<real>, t': seq<real>, budget: int, budget': int,
                  count: int, min: int, width: int, r: Gen<seq<int>>)
    requires |t| > 0 && t' == t[1..] && budget > 0 && budget' == budget - 1 && Distinct(nums) && |nums| < count
    requires Elements(nums') == Elements(nums) + {DrawAt(t, 0, min, width)}
    requires Explains(nums', t', budget', count, min, width, r)
    ensures StopsWhenComplete(nums, t, count, min, width, r)
  {
    if r.Ok? {
      var used' := |t'| - |r.env.tape|;
      assert |r.env.tape| <= |t'|;
      assert |t| - |r.env.tape| - 1 == used';
      if used' > 0 {
        assert |Seen(nums', t', used' - 1, min, width)| < count;
        SeenStep(nums, nums', t, used' - 1, min, width);
        assert Seen(nums', t', used' - 1, min, width) == Seen(nums, t, used', min, width);
      } else {
        DistinctElements(nums);
        assert Seen(nums, t, 0, min, width) == Elements(nums);
      }
    }
  }

  /** One draw on, the tape still runs out exactly when it is shorter than
      the budget and yields too few values. */
  lemma StepExhausts(nums: seq<int>, nums': seq<int>, t: seq<real>, t': seq<real>, budget: int, budget': int,
                     count: int, min: int, width: int, r: Gen<seq<int>>)
    requires |t| > 0 && t' == t[1..] && budget > 0 && budget' == budget - 1 && Distinct(nums) && |nums| < count
    requires Elements(nums') == Elements(nums) + {DrawAt(t, 0, min, width)}
    requires Explains(nums', t', budget', count, min, width, r)
    ensures ExhaustsExactly(nums, t, budget, count, min, width, r)
  {
    assert |t'| + 1 == |t|;
    assert ExhaustsExactly(nums', t', budget', count, min, width, r);
    SeenStep(nums, nums', t, |t'|, min, width);
    assert Seen(nums', t', |t'|, min, width) == Seen(nums, t, |t|, min, width);
  }

  /** One draw on, the loop still throws exactly when its budget yields too
      few values. */
  lemma StepThrows(nums: seq<int>, nums': seq<int>, t: seq<real>, t': seq<real>, budget: int, budget': int,
                   count: int, min: int, width: int, r: Gen<seq<int>>)
    requires |t| > 0 && t' == t[1..] && budget > 0 && budget' == budget - 1 && Distinct(nums) && |nums| < count
    requires Elements(nums') == Elements(nums) + {DrawAt(t, 0, min, width)}
    requires Explains(nums', t', budget', count, min, width, r)
    ensures ThrowsExactly(nums, t, budget, count, min, width, r)
  {
    assert ThrowsExactly(nums', t', budget', count, min, width, r);
    SeenStep(nums, nums', t, budget', min, width);
    assert Seen(nums', t', budget', min, width) == Seen(nums, t, budget, min, width);
  }

  /** When the loop does not run, the values held explain its outcome. */
  lemma BaseExplains(nums: seq<int>, t: seq<real>, budget: int, count: int, min: int, width: int,
                     r: Gen<seq<int>>)
    requires Distinct(nums) && budget >= 0
    requires |nums| < count && budget > 0 && |t| == 0 ==> r.Exhausted?
    requires |nums| < count && budget == 0 ==> r.Thrown?
    requires |nums| >= count ==> r.Ok? && r.value == nums && |r.env.tape| == |t|
    requires |nums| < count ==> budget == 0 || |t| == 0
    ensures Explains(nums, t, budget, count, min, width, r)
  {
    DistinctElements(nums);
    assert Seen(nums, t, 0, min, width) == Elements(nums);
    Counting.SubsetSize(Elements(nums), Seen(nums, t, budget, min, width));
    Counting.SubsetSize(Elements(nums), Seen(nums, t, |t|, min, width));
  }

  /** One pass of the loop body: the first draw is added unless already held,
      and the loop goes on with the rest of the tape. */
  lemma CollectUnfold(min: int, width: int, count: int, maxAttempts: int, attempts: int,
                      nums: seq<int>, env: Env)
    returns (nums': seq<int>, env': Env)
    requires ValidTape(env.tape) && |env.tape| > 0
    requires maxAttempts == width * 10 && 0 <= attempts < maxAttempts
    requires Distinct(nums) && |nums| < count
    requires forall k :: 0 <= k < |nums| ==> min <= nums[k] < min + width
    ensures nums' == if DrawAt(env.tape, 0, min, width) in nums then nums else nums + [DrawAt(env.tape, 0, min, width)]
    ensures env' == Env(env.tape[1..], env.next)
    ensures ValidTape(env'.tape) && Distinct(nums') && |nums'| <= count
    ensures forall k :: 0 <= k < |nums'| ==> min <= nums'[k] < min + width
    ensures Elements(nums') == Elements(nums) + {DrawAt(env.tape, 0, min, width)}
    ensures CollectDistinct(min, width, count, maxAttempts, attempts, nums, env)
            == CollectDistinct(min, width, count, maxAttempts, attempts + 1, nums', env')
  {
    FirstDraw(env, min, width);
    var x := DrawAt(env.tape, 0, min, width);
    nums' := if x in nums then nums else nums + [x];
    env' := Env(env.tape[1..], env.next);
    assert Elements(nums') == Elements(nums) + {x};
  }

  /** What an outcome leaves of tape `t` is a suffix of `t`: draws are
      consumed from the front. */
  predicate Leaves<T>(t: seq<real>, r: Gen<T>)
  {
    r.Ok? || r.Thrown? ==> |r.env.tape| <= |t| && r.env.tape == t[|t| - |r.env.tape|..]
  }

  /** The loop consumes draws from the front of the tape. */
  lemma {:induction false} CollectSuffix(min: int, width: int, count: int, maxAttempts: int, attempts: int,
                                         nums: seq<int>, env: Env)
    requires ValidTape(env.tape)
    requires maxAttempts == width * 10 && 0 <= attempts
    requires Distinct(nums) && |nums| <= (if count < 0 then 0 else count)
    requires forall k :: 0 <= k < |nums| ==> min <= nums[k] < min + width
    decreases maxAttempts - attempts
    ensures Leaves(env.tape, CollectDistinct(min, width, count, maxAttempts, attempts, nums, env))
  {
    if |nums| < count && attempts < maxAttempts && |env.tape| > 0 {
      var nums', env' := CollectUnfold(min, width, count, maxAttempts, attempts, nums, env);
      CollectSuffix(min, width, count, maxAttempts, attempts + 1, nums', env');
      LeavesStep(env.tape, CollectDistinct(min, width, count, maxAttempts, attempts + 1, nums', env'));
    } else {
      assert env.tape[0..] == env.tape;
    }
  }

  /** A suffix of the tape without its first draw is a suffix of the tape. */
  lemma LeavesStep<T>(t: seq<real>, r: Gen<T>)
    requires |t| > 0 && Leaves(t[1..], r)
    ensures Leaves(t, r)
  {
    if r.Ok? || r.Thrown? {
      assert t[1..][|t| - 1 - |r.env.tape|..] == t[|t| - |r.env.tape|..];
    }
  }

  /** The suffix left after `n` draws. */
  lemma LeavesAfter<T>(t: seq<real>, r: Gen<T>, n: int)
    requires Leaves(t, r) && r.Ok? && |t| - |r.env.tape| == n
    ensures 0 <= n <= |t| && r.env.tape == t[n..]
  {
  }

  /** A draw from a non-empty tape is its first entry, scaled and offset. */
  lemma FirstDraw(env: Env, min: int, width: int)
    requires ValidTape(env.tape) && |env.tape| > 0 && width > 0
    ensures RandomBelow(env, width) == Ok(DrawAt(env.tape, 0, min, width) - min, Env(env.tape[1..], env.next))
  {
  }

  /** After one draw, the values held together with those of the next `k`
      draws are those held before together with the next `k + 1` draws. */
  lemma SeenStep(nums: seq<int>, nums': seq<int>, t: seq<real>, k: int, min: int, width: int)
    requires |t| > 0 && Elements(nums') == Elements(nums) + {DrawAt(t, 0, min, width)}
    ensures k >= 0 ==> Seen(nums', t[1..], k, min, width) == Seen(nums, t, k + 1, min, width)
  {
  }

  /** `getRandomNumbers(min, max, count)`: `count` distinct integers in
      [min, max] in the order they were first drawn, or `UniqueDrawFailed`
      once (max - min + 1) * 10 draws have not produced them. */
  function GetRandomNumbers(min: int, max: int, count: int, env: Env): (r: Gen<seq<int>>)
    requires ValidTape(env.tape)
    ensures Continues(r) && (r.Ok? || r.Thrown? ==> r.env.next == env.next)
    ensures r.Ok? ==> |r.value| == (if count < 0 then 0 else count)
    ensures r.Ok? ==> Distinct(r.value)
    ensures r.Ok? ==> forall k :: 0 <= k < |r.value| ==> min <= r.value[k] <= max
    ensures r.Thrown? ==> r.error == UniqueDrawFailed && count > 0
    ensures r.Thrown? && min <= max ==> |env.tape| - |r.env.tape| == (max - min + 1) * 10
    ensures r.Ok? ==> |env.tape| - |r.env.tape| <= (if min <= max then (max - min + 1) * 10 else 0)
    ensures r.Exhausted? ==> |env.tape| < (max - min + 1) * 10
  {
    CollectDistinct(min, max - min + 1, count, (max - min + 1) * 10, 0, [], env)
  }

  /** The outcome of `getRandomNumbers` is determined by the values drawn
      from the tape, `floor(random * (max - min + 1)) + min` each: a success
      holds exactly the values of the draws it consumed and stops at the
      first draw that completes `count` values; it runs out of tape exactly
      when the tape is shorter than the budget of (max - min + 1) * 10 draws
      and all of it yields fewer than `count` values; otherwise it throws
      exactly when the whole budget yields fewer than `count` values. */
  lemma RandomNumbersDrawn(min: int, max: int, count: int, env: Env)
    requires ValidTape(env.tape)
    ensures var r := GetRandomNumbers(min, max, count, env);
            r.Ok? ==> |r.env.tape| <= |env.tape|
                      && Elements(r.value) == Drawn(env.tape, |env.tape| - |r.env.tape|, min, max - min + 1)
    ensures var r := GetRandomNumbers(min, max, count, env);
            r.Ok? && |r.env.tape| < |env.tape|
            ==> |Drawn(env.tape, |env.tape| - |r.env.tape| - 1, min, max - min + 1)| < count
    ensures var r := GetRandomNumbers(min, max, count, env);
            r.Exhausted? <==> |env.tape| < (max - min + 1) * 10
                              && |Drawn(env.tape, |env.tape|, min, max - min + 1)| < count
    ensures var r := GetRandomNumbers(min, max, count, env);
            !r.Exhausted? ==> (r.Thrown? <==> |Drawn(env.tape, (max - min + 1) * 10, min, max - min + 1)| < count)
  {
    var width := max - min + 1;
    CollectDraws(min, width, count, width * 10, 0, [], env, if 0 < width * 10 then width * 10 else 0);
    ExplainedFromNothing(env.tape, width * 10, count, min, width, GetRandomNumbers(min, max, count, env));
  }

  /** With nothing held at the start, the values seen are the values drawn. */
  lemma ExplainedFromNothing(t: seq<real>, b: int, count: int, min: int, width: int, r: Gen<seq<int>>)
    requires Explains([], t, if 0 < b then b else 0, count, min, width, r)
    ensures r.Ok? ==> |r.env.tape| <= |t| && Elements(r.value) == Drawn(t, |t| - |r.env.tape|, min, width)
    ensures r.Ok? && |r.env.tape| < |t| ==> |Drawn(t, |t| - |r.env.tape| - 1, min, width)| < count
    ensures r.Exhausted? <==> |t| < b && |Drawn(t, |t|, min, width)| < count
    ensures !r.Exhausted? ==> (r.Thrown? <==> |Drawn(t, b, min, width)| < count)
  {
    assert Elements([]) == {};
    forall k | true
      ensures Seen([], t, k, min, width) == Drawn(t, k, min, width)
    {
    }
    if b <= 0 {
      assert Drawn(t, b, min, width) == {} == Drawn(t, 0, min, width);
    }
  }

  /** More draws yield at least the same values. */
  lemma {:induction false} DrawnGrows(t: seq<real>, k: int, k': int, min: int, width: int)
    requires k <= k'
    ensures Drawn(t, k, min, width) <= Drawn(t, k', min, width)
    decreases |t|
  {
    if k > 0 && |t| > 0 {
      DrawnGrows(t[1..], k - 1, k' - 1, min, width);
    }
  }

  /** `k` draws yield at most `k` values. */
  lemma {:induction false} DrawnSize(t: seq<real>, k: int, min: int, width: int)
    ensures |Drawn(t, k, min, width)| <= (if k < 0 then 0 else k)
    decreases |t|
  {
    if k > 0 && |t| > 0 {
      DrawnSize(t[1..], k - 1, min, width);
    }
  }

  /** When the first `count` draws of the tape are pairwise different values
      and the budget allows that many draws, `getRandomNumbers` succeeds after
      exactly those `count` draws. */
  lemma DistinctDrawsSucceed(min: int, max: int, count: int, env: Env)
    requires ValidTape(env.tape) && 0 <= count <= |env.tape| && count <= (max - min + 1) * 10
    requires |Drawn(env.tape, count, min, max - min + 1)| == count
    ensures GetRandomNumbers(min, max, count, env).Ok?
    ensures GetRandomNumbers(min, max, count, env).env == Env(env.tape[count..], env.next)
  {
    var width := max - min + 1;
    var r := GetRandomNumbers(min, max, count, env);
    DistinctDrawsConsumed(min, max, count, env);
    CollectSuffix(min, width, count, width * 10, 0, [], env);
    LeavesAfter(env.tape, r, count);
  }

  /** The success of `DistinctDrawsSucceed`, and the number of draws it
      consumes. */
  lemma DistinctDrawsConsumed(min: int, max: int, count: int, env: Env)
    requires ValidTape(env.tape) && 0 <= count <= |env.tape| && count <= (max - min + 1) * 10
    requires |Drawn(env.tape, count, min, max - min + 1)| == count
    ensures GetRandomNumbers(min, max, count, env).Ok?
    ensures |env.tape| - |GetRandomNumbers(min, max, count, env).env.tape| == count
  {
    RandomNumbersDrawn(min, max, count, env);
    SucceedsOnDistinct(env.tape, (max - min + 1) * 10, count, min, max - min + 1,
                       GetRandomNumbers(min, max, count, env));
  }

  /** `DistinctDrawsSucceed` for any outcome the draws determine as
      `RandomNumbersDrawn` states. */
  lemma SucceedsOnDistinct(t: seq<real>, b: int, count: int, min: int, width: int, r: Gen<seq<int>>)
    requires 0 <= count <= |t| && count <= b && |Drawn(t, count, min, width)| == count
    requires r.Ok? ==> |r.env.tape| <= |t| && Elements(r.value) == Drawn(t, |t| - |r.env.tape|, min, width)
    requires r.Ok? ==> |r.value| == count && Distinct(r.value)
    requires r.Ok? && |r.env.tape| < |t| ==> |Drawn(t, |t| - |r.env.tape| - 1, min, width)| < count
    requires r.Exhausted? <==> |t| < b && |Drawn(t, |t|, min, width)| < count
    requires !r.Exhausted? ==> (r.Thrown? <==> |Drawn(t, b, min, width)| < count)
    ensures r.Ok? && |t| - |r.env.tape| == count
  {
    OkOnDistinct(t, b, count, min, width, r);
    DistinctStopsAtCount(t, count, min, width, r);
  }

  /** Neither running out of tape nor throwing is possible once the first
      `count` draws yield `count` values within the budget. */
  lemma OkOnDistinct(t: seq<real>, b: int, count: int, min: int, width: int, r: Gen<seq<int>>)
    requires 0 <= count <= |t| && count <= b && |Drawn(t, count, min, width)| == count
    requires r.Exhausted? <==> |t| < b && |Drawn(t, |t|, min, width)| < count
    requires !r.Exhausted? ==> (r.Thrown? <==> |Drawn(t, b, min, width)| < count)
    ensures r.Ok?
  {
    DrawnGrows(t, count, |t|, min, width);
    Counting.SubsetSize(Drawn(t, count, min, width), Drawn(t, |t|, min, width));
    DrawnGrows(t, count, b, min, width);
    Counting.SubsetSize(Drawn(t, count, min, width), Drawn(t, b, min, width));
  }

  /** A success holding `count` values drawn as the first `count` draws
      yield stops after exactly those draws. */
  lemma DistinctStopsAtCount(t: seq<real>, count: int, min: int, width: int, r: Gen<seq<int>>)
    requires 0 <= count && |Drawn(t, count, min, width)| == count && r.Ok?
    requires |r.env.tape| <= |t| && Elements(r.value) == Drawn(t, |t| - |r.env.tape|, min, width)
    requires |r.value| == count && Distinct(r.value)
    requires |r.env.tape| < |t| ==> |Drawn(t, |t| - |r.env.tape| - 1, min, width)| < count
    ensures |t| - |r.env.tape| == count
  {
    var used := |t| - |r.env.tape|;
    DistinctElements(r.value);
    DrawnSize(t, used, min, width);
    if used > 0 {
      NoDrawPastCompletion(t, count, used, min, width);
    }
  }

  /** Once the first `count` draws yield `count` values, any later prefix
      yields at least that many: a loop that stops at the first prefix
      reaching `count` values stops within `count` draws. */
  lemma NoDrawPastCompletion(t: seq<real>, count: int, used: int, min: int, width: int)
    requires 0 <= count && |Drawn(t, count, min, width)| == count
    requires used > 0 && |Drawn(t, used - 1, min, width)| < count
    ensures used <= count
  {
    if count <= used - 1 {
      DrawnGrows(t, count, used - 1, min, width);
      Counting.SubsetSize(Drawn(t, count, min, width), Drawn(t, used - 1, min, width));
    }
  }
}
