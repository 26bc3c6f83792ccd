/** Facts about sequences shared by the storage model: distinctness and set-like de-duplication. */
module Sequences {

  /** The set of the elements of `s`. */
  function Elements<T(!new)>(s: seq<T>): set<T> {
    set x | x in s
  }

  /** Appending an element adds it to the elements. */
  lemma ElementsAppend<T(!new)>(s: seq<T>, x: T)
    ensures Elements(s + [x]) == Elements(s) + {x}
  {
  }

  /** No element occurs twice. */
  predicate Distinct<T(==)>(s: seq<T>) {
    forall i, j :: 0 <= i < j < |s| ==> s[i] != s[j]
  }

  /**
   * `Array.from(new Set(s))`: the first occurrence of every element, in the order
   * in which the elements first appear.
   */
  function Dedup<T(==)>(s: seq<T>): (r: seq<T>)
    ensures Distinct(r)
    ensures forall i :: 0 <= i < |r| ==> r[i] in s
    ensures forall i :: 0 <= i < |s| ==> s[i] in r
    ensures Distinct(s) ==> r == s
  {
    if s == [] then []
    else
      var prefix := Dedup(s[..|s| - 1]);
      var last := s[|s| - 1];
      assert s == s[..|s| - 1] + [last];
      if last in prefix then prefix else prefix + [last]
  }

  /** Adding an element to a set-backed list appends it exactly when it is new. */
  lemma DedupAppend<T>(s: seq<T>, x: T)
    ensures Dedup(s + [x]) == if x in Dedup(s) then Dedup(s) else Dedup(s) + [x]
  {
    assert (s + [x])[..|s + [x]| - 1] == s;
  }

  /** A repeated element is counted at least twice by the multiset of the sequence. */
  lemma RepeatCountsTwice<T>(s: seq<T>, i: nat, j: nat)
    requires i < j < |s| && s[i] == s[j]
    ensures multiset(s)[s[i]] >= 2
  {
    assert s == s[..j] + s[j..];
    assert s[i] in s[..j];
    assert s[j] in s[j..];
    assert multiset(s) == multiset(s[..j]) + multiset(s[j..]);
  }

  /** In a sequence without repetitions every element is counted at most once. */
  lemma {:induction false} DistinctCountsOnce<T>(s: seq<T>)
    requires Distinct(s)
    ensures forall x :: multiset(s)[x] <= 1
  {
    if s != [] {
      var prefix, last := s[..|s| - 1], s[|s| - 1];
      assert s == prefix + [last];
      DistinctCountsOnce(prefix);
      assert last !in prefix;
      assert multiset(s) == multiset(prefix) + multiset{last};
    }
  }

  /** Reordering a sequence (same multiset) keeps it free of repetitions. */
  lemma PermutationKeepsDistinct<T>(a: seq<T>, b: seq<T>)
    requires multiset(a) == multiset(b)
    requires Distinct(a)
    ensures Distinct(b)
  {
    DistinctCountsOnce(a);
    forall i, j | 0 <= i < j < |b| ensures b[i] != b[j] {
      if b[i] == b[j] {
        RepeatCountsTwice(b, i, j);
      }
    }
  }

  /** A reordering has the same length and the same elements. */
  lemma PermutationSameElements<T>(a: seq<T>, b: seq<T>)
    requires multiset(a) == multiset(b)
    ensures |a| == |b|
    ensures forall i :: 0 <= i < |b| ==> b[i] in a
    ensures forall i :: 0 <= i < |a| ==> a[i] in b
  {
    assert |multiset(a)| == |multiset(b)|;
    forall i | 0 <= i < |b| ensures b[i] in a {
      assert b[i] in multiset(b);
    }
    forall i | 0 <= i < |a| ensures a[i] in b {
      assert a[i] in multiset(a);
    }
  }

  /** Two repetition-free sequences with no element in common concatenate to a repetition-free one. */
  lemma DistinctConcat<T>(a: seq<T>, b: seq<T>)
    requires Distinct(a) && Distinct(b)
    requires forall i, k :: 0 <= i < |a| && 0 <= k < |b| ==> a[i] != b[k]
    ensures Distinct(a + b)
  {
    forall i, k | 0 <= i < k < |a + b| ensures (a + b)[i] != (a + b)[k] {
      if k < |a| {
        assert (a + b)[i] == a[i] && (a + b)[k] == a[k];
      } else if i < |a| {
        assert (a + b)[i] == a[i] && (a + b)[k] == b[k - |a|];
      } else {
        assert (a + b)[i] == b[i - |a|] && (a + b)[k] == b[k - |a|];
      }
    }
  }
}
