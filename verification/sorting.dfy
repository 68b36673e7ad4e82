/** The two sorts the 90-ball generator relies on: a numeric ascending sort
    (`nums.sort((a, b) => a - b)`) and a stable sort by a key
    (`Array.prototype.sort` with a key-difference comparator, which is stable),
    with the key given as a table indexed by the element. */
module Sorting {

  predicate Ascending(s: seq<int>)
  {
    forall i, j :: 0 <= i < j < |s| ==> s[i] <= s[j]
  }

  predicate StrictlyAscending(s: seq<int>)
  {
    forall i, j :: 0 <= i < j < |s| ==> s[i] < s[j]
  }

  predicate Distinct(s: seq<int>)
  {
    forall i, j :: 0 <= i < j < |s| ==> s[i] != s[j]
  }

  /** Inserts `x` before the first element not smaller than it. */
  function InsertNumber(x: int, s: seq<int>): (r: seq<int>)
    ensures multiset(r) == multiset(s) + multiset{x}
    ensures |r| == |s| + 1
  {
    if |s| == 0 then [x]
    else if x <= s[0] then [x] + s
    else
      assert s == [s[0]] + s[1..];
      [s[0]] + InsertNumber(x, s[1..])
  }

  /** Putting a first element in front of an ascending sequence keeps it
      ascending when that element is not above the old first one. */
  lemma AscendingCons(h: int, t: seq<int>)
    requires Ascending(t) && (|t| > 0 ==> h <= t[0])
    ensures Ascending([h] + t)
  {
    var r := [h] + t;
    forall i, j | 0 <= i < j < |r| ensures r[i] <= r[j] {
      assert r[j] == t[j - 1];
      if i == 0 {
        assert t[0] <= t[j - 1];
      } else {
        assert r[i] == t[i - 1];
      }
    }
  }

  /** The same for strictly ascending sequences. */
  lemma StrictlyAscendingCons(h: int, t: seq<int>)
    requires StrictlyAscending(t) && (|t| > 0 ==> h < t[0])
    ensures StrictlyAscending([h] + t)
  {
    var r := [h] + t;
    forall i, j | 0 <= i < j < |r| ensures r[i] < r[j] {
      assert r[j] == t[j - 1];
      if i == 0 {
        assert j - 1 == 0 || t[0] < t[j - 1];
      } else {
        assert r[i] == t[i - 1];
      }
    }
  }

  /** Insertion keeps a sorted sequence sorted, and the result starts with
      `x` or with the old first element. */
  lemma {:induction false} InsertNumberSorted(x: int, s: seq<int>)
    requires Ascending(s)
    ensures Ascending(InsertNumber(x, s))
    ensures InsertNumber(x, s)[0] == x || (|s| > 0 && InsertNumber(x, s)[0] == s[0])
  {
    if |s| > 0 {
      if x <= s[0] {
        AscendingCons(x, s);
      } else {
        var t := InsertNumber(x, s[1..]);
        assert InsertNumber(x, s) == [s[0]] + t;
        InsertNumberSorted(x, s[1..]);
        assert s[0] <= t[0] by {
          if |s| > 1 {
            assert s[1..][0] == s[1];
          }
        }
        AscendingCons(s[0], t);
      }
    }
  }

  /** Inserting a new element into a strictly ascending sequence keeps it
      strictly ascending. */
  lemma {:induction false} InsertNumberStrict(x: int, s: seq<int>)
    requires StrictlyAscending(s) && x !in s
    ensures StrictlyAscending(InsertNumber(x, s))
    ensures InsertNumber(x, s)[0] == x || (|s| > 0 && InsertNumber(x, s)[0] == s[0])
  {
    if |s| > 0 {
      if x <= s[0] {
        assert x != s[0];
        StrictlyAscendingCons(x, s);
      } else {
        var t := InsertNumber(x, s[1..]);
        assert InsertNumber(x, s) == [s[0]] + t;
        assert x !in s[1..];
        InsertNumberStrict(x, s[1..]);
        assert s[0] < t[0] by {
          if |s| > 1 {
            assert s[1..][0] == s[1];
          }
        }
        StrictlyAscendingCons(s[0], t);
      }
    }
  }

  /** The numeric ascending sort. */
  function SortNumbers(s: seq<int>): (r: seq<int>)
    ensures multiset(r) == multiset(s)
    ensures |r| == |s|
  {
    if |s| == 0 then []
    else
      assert s == [s[0]] + s[1..];
      InsertNumber(s[0], SortNumbers(s[1..]))
  }

  /** The numeric sort yields an ascending sequence, strictly ascending when the
      input has no repeats. */
  lemma {:induction false} SortNumbersSorted(s: seq<int>)
    ensures Ascending(SortNumbers(s))
    ensures Distinct(s) ==> StrictlyAscending(SortNumbers(s))
  {
    if |s| > 0 {
      assert s == [s[0]] + s[1..];
      var sorted := SortNumbers(s[1..]);
      SortNumbersSorted(s[1..]);
      if Distinct(s) {
        assert forall k :: 0 <= k < |s| - 1 ==> s[1..][k] == s[k + 1] != s[0];
        assert s[0] !in multiset(s[1..]);
        InsertNumberStrict(s[0], sorted);
      }
      InsertNumberSorted(s[0], sorted);
    }
  }

  /** The sort key of `x`: its entry in `key`, or 0 outside it. */
  function KeyOf(key: seq<int>, x: int): int
  {
    if 0 <= x < |key| then key[x] else 0
  }

  /** The order a stable sort by `key` produces from an input listed in
      ascending order: by key, ties by value. */
  predicate KeyThenIndex(key: seq<int>, a: int, b: int)
  {
    KeyOf(key, a) < KeyOf(key, b) || (KeyOf(key, a) == KeyOf(key, b) && a < b)
  }

  predicate SortedByKey(s: seq<int>, key: seq<int>)
  {
    forall i, j :: 0 <= i < j < |s| ==> KeyOf(key, s[i]) <= KeyOf(key, s[j])
  }

  predicate SortedByKeyThenIndex(s: seq<int>, key: seq<int>)
  {
    forall i, j :: 0 <= i < j < |s| ==> KeyThenIndex(key, s[i], s[j])
  }

  /** Inserts `x` before the first element whose key is not smaller than its
      own, so that `x` precedes the elements it ties with. */
  function InsertByKey(x: int, s: seq<int>, key: seq<int>): (r: seq<int>)
    ensures multiset(r) == multiset(s) + multiset{x}
    ensures |r| == |s| + 1
    ensures forall y :: y in r <==> y == x || y in s
  {
    if |s| == 0 then [x]
    else if KeyOf(key, x) <= KeyOf(key, s[0]) then [x] + s
    else
      assert s == [s[0]] + s[1..];
      [s[0]] + InsertByKey(x, s[1..], key)
  }

  /** Putting a first element in front of a sequence sorted by key keeps it
      sorted when the element's key is not above the old first one's. */
  lemma SortedByKeyCons(h: int, t: seq<int>, key: seq<int>)
    requires SortedByKey(t, key) && (|t| > 0 ==> KeyOf(key, h) <= KeyOf(key, t[0]))
    ensures SortedByKey([h] + t, key)
  {
    var r := [h] + t;
    forall i, j | 0 <= i < j < |r| ensures KeyOf(key, r[i]) <= KeyOf(key, r[j]) {
      assert r[j] == t[j - 1];
      if i == 0 {
        assert KeyOf(key, t[0]) <= KeyOf(key, t[j - 1]);
      } else {
        assert r[i] == t[i - 1];
      }
    }
  }

  /** The same for the key-then-index order, which is transitive. */
  lemma SortedByKeyThenIndexCons(h: int, t: seq<int>, key: seq<int>)
    requires SortedByKeyThenIndex(t, key) && (|t| > 0 ==> KeyThenIndex(key, h, t[0]))
    ensures SortedByKeyThenIndex([h] + t, key)
  {
    var r := [h] + t;
    forall i, j | 0 <= i < j < |r| ensures KeyThenIndex(key, r[i], r[j]) {
      assert r[j] == t[j - 1];
      if i == 0 {
        assert j - 1 == 0 || KeyThenIndex(key, t[0], t[j - 1]);
      } else {
        assert r[i] == t[i - 1];
      }
    }
  }

  /** Insertion by key keeps a sequence sorted by key, and the result starts
      with `x` or with the old first element. */
  lemma {:induction false} InsertByKeySorted(x: int, s: seq<int>, key: seq<int>)
    requires SortedByKey(s, key)
    ensures SortedByKey(InsertByKey(x, s, key), key)
    ensures InsertByKey(x, s, key)[0] == x || (|s| > 0 && InsertByKey(x, s, key)[0] == s[0])
  {
    if |s| > 0 {
      if KeyOf(key, x) <= KeyOf(key, s[0]) {
        SortedByKeyCons(x, s, key);
      } else {
        var t := InsertByKey(x, s[1..], key);
        assert InsertByKey(x, s, key) == [s[0]] + t;
        InsertByKeySorted(x, s[1..], key);
        assert KeyOf(key, s[0]) <= KeyOf(key, t[0]) by {
          if |s| > 1 {
            assert s[1..][0] == s[1];
          }
        }
        SortedByKeyCons(s[0], t, key);
      }
    }
  }

  /** When `x` precedes every element in index order, inserting it keeps the
      key-then-index order: `x` goes before the elements it ties with. */
  lemma {:induction false} InsertByKeyStable(x: int, s: seq<int>, key: seq<int>)
    requires SortedByKeyThenIndex(s, key)
    requires forall k :: 0 <= k < |s| ==> x < s[k]
    ensures SortedByKeyThenIndex(InsertByKey(x, s, key), key)
    ensures InsertByKey(x, s, key)[0] == x || (|s| > 0 && InsertByKey(x, s, key)[0] == s[0])
  {
    if |s| > 0 {
      if KeyOf(key, x) <= KeyOf(key, s[0]) {
        assert KeyThenIndex(key, x, s[0]);
        SortedByKeyThenIndexCons(x, s, key);
      } else {
        var t := InsertByKey(x, s[1..], key);
        assert InsertByKey(x, s, key) == [s[0]] + t;
        InsertByKeyStable(x, s[1..], key);
        assert KeyThenIndex(key, s[0], t[0]) by {
          if |s| > 1 {
            assert s[1..][0] == s[1];
          }
        }
        SortedByKeyThenIndexCons(s[0], t, key);
      }
    }
  }

  /** The stable sort by `key`. */
  function StableSortBy(xs: seq<int>, key: seq<int>): (r: seq<int>)
    ensures multiset(r) == multiset(xs)
    ensures |r| == |xs|
    ensures forall y :: y in r <==> y in xs
  {
    if |xs| == 0 then []
    else
      assert xs == [xs[0]] + xs[1..];
      InsertByKey(xs[0], StableSortBy(xs[1..], key), key)
  }

  /** The stable sort orders by key; from an input in strictly ascending order,
      elements with equal keys stay in ascending order. */
  lemma {:induction false} StableSortBySorted(xs: seq<int>, key: seq<int>)
    ensures SortedByKey(StableSortBy(xs, key), key)
    ensures StrictlyAscending(xs) ==> SortedByKeyThenIndex(StableSortBy(xs, key), key)
  {
    if |xs| > 0 {
      var sorted := StableSortBy(xs[1..], key);
      assert StableSortBy(xs, key) == InsertByKey(xs[0], sorted, key);
      StableSortBySorted(xs[1..], key);
      InsertByKeySorted(xs[0], sorted, key);
      if StrictlyAscending(xs) {
        FirstBelowRest(xs);
        forall k | 0 <= k < |sorted| ensures xs[0] < sorted[k] {
          assert sorted[k] in xs[1..];
        }
        InsertByKeyStable(xs[0], sorted, key);
      }
    }
  }

  /** In a strictly ascending sequence the rest is strictly ascending and
      above the first element. */
  lemma FirstBelowRest(xs: seq<int>)
    requires StrictlyAscending(xs) && |xs| > 0
    ensures StrictlyAscending(xs[1..])
    ensures forall y :: y in xs[1..] ==> xs[0] < y
  {
    forall y | y in xs[1..] ensures xs[0] < y {
      var m :| 0 <= m < |xs| - 1 && xs[1..][m] == y;
      assert xs[m + 1] == y;
    }
  }
}
