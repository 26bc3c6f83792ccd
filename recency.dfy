/**
 * The `byRecency` comparator and the stable sort that uses it: most recently viewed
 * first, a missing timestamp counting as zero, ties kept in their original order.
 */
module Recency {
  import opened Wrappers

  /** `lastViewedAt ? Date.parse(lastViewedAt) || 0 : 0`. */
  function Timestamp(t: Option<nat>): (r: nat)
    ensures t.Some? ==> r == t.value
    ensures t.None? ==> r == 0
  {
    t.GetOr(0)
  }

  /** Sorted most recent first. */
  predicate NonIncreasing<T>(s: seq<T>, key: T -> nat) {
    forall i, j :: 0 <= i < j < |s| ==> key(s[i]) >= key(s[j])
  }

  /** Place `x` before the first element that is not more recent than it. */
  function Insert<T(==)>(x: T, s: seq<T>, key: T -> nat): (r: seq<T>)
    requires NonIncreasing(s, key)
    ensures NonIncreasing(r, key)
    ensures multiset(r) == multiset(s) + multiset{x}
    ensures |r| == |s| + 1
    ensures r[0] == x || (s != [] && r[0] == s[0])
  {
    if s == [] || key(s[0]) <= key(x) then [x] + s
    else
      assert s == [s[0]] + s[1..];
      [s[0]] + Insert(x, s[1..], key)
  }

  /** `entries.sort(byRecency)`. */
  function SortByRecency<T(==)>(s: seq<T>, key: T -> nat): (r: seq<T>)
    ensures NonIncreasing(r, key)
    ensures multiset(r) == multiset(s)
  {
    if s == [] then []
    else
      assert s == [s[0]] + s[1..];
      Insert(s[0], SortByRecency(s[1..], key), key)
  }

  /** The elements whose timestamp is `t`, in their order. */
  function WithTimestamp<T>(s: seq<T>, key: T -> nat, t: nat): seq<T> {
    if s == [] then []
    else (if key(s[0]) == t then [s[0]] else []) + WithTimestamp(s[1..], key, t)
  }

  lemma {:induction false} InsertKeepsTies<T>(x: T, s: seq<T>, key: T -> nat, t: nat)
    requires NonIncreasing(s, key)
    ensures WithTimestamp(Insert(x, s, key), key, t)
         == (if key(x) == t then [x] else []) + WithTimestamp(s, key, t)
  {
    if s == [] || key(s[0]) <= key(x) {
      assert ([x] + s)[1..] == s;
    } else {
      var rest := Insert(x, s[1..], key);
      InsertKeepsTies(x, s[1..], key, t);
      assert ([s[0]] + rest)[1..] == rest;
      assert s == [s[0]] + s[1..];
      var head := if key(s[0]) == t then [s[0]] else [];
      var mine := if key(x) == t then [x] else [];
      assert WithTimestamp(s, key, t) == head + WithTimestamp(s[1..], key, t);
      assert WithTimestamp([s[0]] + rest, key, t) == head + WithTimestamp(rest, key, t);
      // `x` is strictly less recent than `s[0]`, so at most one of them has time `t`
      assert head == [] || mine == [];
    }
  }

  /** The sort is stable: elements with equal timestamps keep their relative order. */
  lemma {:induction false} SortIsStable<T>(s: seq<T>, key: T -> nat, t: nat)
    ensures WithTimestamp(SortByRecency(s, key), key, t) == WithTimestamp(s, key, t)
  {
    if s != [] {
      SortIsStable(s[1..], key, t);
      InsertKeepsTies(s[0], SortByRecency(s[1..], key), key, t);
    }
  }
}
