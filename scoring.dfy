/**
 * Fuzzy scoring and the ranking of scored results, shared by path resolution
 * (src/menu/resolve.rs:112-148) and search (src/menu/search.rs:84-112).
 *
 * The fuzzy matcher is an external library and is not part of this model: it
 * is a `Scorer`, a function from a haystack, a pattern and a case mode to an
 * optional score, passed in by the caller.  Both call sites rank the scored
 * values with the standard library's stable `sort_by`, best score first;
 * `SortByScoreDesc` is an in-place stable insertion sort that is proved to
 * produce the one such order, given by the function `SortDesc`.
 */
module Scoring {
  import opened Wrappers

  /** The case modes the code asks the matcher for. */
  datatype CaseMatching = Respect | Smart

  /** `pattern.score(haystack)`: `None` when the pattern does not match. */
  type Scorer = (string, string, CaseMatching) -> Option<nat>

  /** A value paired with its score. */
  datatype Scored<T> = Scored(item: T, score: nat)

  predicate SortedDesc<T>(s: seq<Scored<T>>)
  {
    forall i, j :: 0 <= i < j < |s| ==> s[i].score >= s[j].score
  }

  /** Insert `x` after the last element scoring at least as much as it. */
  function InsertDesc<T>(sorted: seq<Scored<T>>, x: Scored<T>): seq<Scored<T>>
  {
    if sorted == [] || sorted[|sorted| - 1].score >= x.score then sorted + [x]
    else InsertDesc(sorted[..|sorted| - 1], x) + [sorted[|sorted| - 1]]
  }

  /** The stable sort by descending score. */
  function SortDesc<T>(s: seq<Scored<T>>): seq<Scored<T>>
  {
    if s == [] then [] else InsertDesc(SortDesc(s[..|s| - 1]), s[|s| - 1])
  }

  /** The elements of `s` with score `v`, in order. */
  function WithScore<T>(s: seq<Scored<T>>, v: nat): seq<Scored<T>>
  {
    if s == [] then []
    else WithScore(s[..|s| - 1], v) + (if s[|s| - 1].score == v then [s[|s| - 1]] else [])
  }

  /** Where `InsertDesc` places `x`: after every trailing element scoring less. */
  function InsertPoint<T>(sorted: seq<Scored<T>>, x: Scored<T>): (j: nat)
    ensures j <= |sorted|
  {
    if sorted == [] || sorted[|sorted| - 1].score >= x.score then |sorted|
    else InsertPoint(sorted[..|sorted| - 1], x)
  }

  lemma {:induction false} InsertPointBounds<T>(sorted: seq<Scored<T>>, x: Scored<T>)
    ensures InsertPoint(sorted, x) == 0 || sorted[InsertPoint(sorted, x) - 1].score >= x.score
    ensures forall k :: InsertPoint(sorted, x) <= k < |sorted| ==> sorted[k].score < x.score
    decreases |sorted|
  {
    if !(sorted == [] || sorted[|sorted| - 1].score >= x.score) {
      InsertPointBounds(sorted[..|sorted| - 1], x);
    }
  }

  /** Placing `x` between the larger and the smaller scores keeps the order. */
  lemma {:induction false} SplitSorted<T>(lo: seq<Scored<T>>, x: Scored<T>, hi: seq<Scored<T>>)
    requires SortedDesc(lo + hi)
    requires lo == [] || lo[|lo| - 1].score >= x.score
    requires forall k :: 0 <= k < |hi| ==> hi[k].score < x.score
    ensures SortedDesc(lo + [x] + hi)
  {
    var r := lo + [x] + hi;
    forall i, k | 0 <= i < k < |r|
      ensures r[i].score >= r[k].score
    {
      if k < |lo| {
        assert r[i] == (lo + hi)[i] && r[k] == (lo + hi)[k];
      } else if i < |lo| {
        assert r[i] == (lo + hi)[i] && (lo + hi)[|lo| - 1] == lo[|lo| - 1];
      } else if i > |lo| {
        assert r[i] == (lo + hi)[i - 1] && r[k] == (lo + hi)[k - 1];
      }
    }
  }

  lemma {:induction false} InsertDescSorted<T>(sorted: seq<Scored<T>>, x: Scored<T>)
    requires SortedDesc(sorted)
    ensures SortedDesc(InsertDesc(sorted, x))
  {
    var j := InsertPoint(sorted, x);
    InsertPointBounds(sorted, x);
    InsertDescAt(sorted, x, j);
    var lo, hi := sorted[..j], sorted[j..];
    assert sorted == lo + hi;
    SplitSorted(lo, x, hi);
  }

  /** Insertion adds exactly `x`. */
  lemma {:induction false} InsertDescPermutes<T>(sorted: seq<Scored<T>>, x: Scored<T>)
    ensures multiset(InsertDesc(sorted, x)) == multiset(sorted) + multiset{x}
    ensures |InsertDesc(sorted, x)| == |sorted| + 1
    decreases |sorted|
  {
    if !(sorted == [] || sorted[|sorted| - 1].score >= x.score) {
      var init := sorted[..|sorted| - 1];
      InsertDescPermutes(init, x);
      assert sorted == init + [sorted[|sorted| - 1]];
    }
  }

  lemma {:induction false} InsertDescStable<T>(sorted: seq<Scored<T>>, x: Scored<T>, v: nat)
    ensures WithScore(InsertDesc(sorted, x), v) == WithScore(sorted, v) + (if x.score == v then [x] else [])
    decreases |sorted|
  {
    if sorted == [] || sorted[|sorted| - 1].score >= x.score {
      var r := sorted + [x];
      assert r[..|r| - 1] == sorted;
      if x.score == v && sorted != [] {
        WithScoreAllBelow(sorted, x, v);
      }
    } else {
      var init := sorted[..|sorted| - 1];
      var last := sorted[|sorted| - 1];
      InsertDescStable(init, x, v);
      var r := InsertDesc(init, x) + [last];
      assert r[..|r| - 1] == InsertDesc(init, x);
    }
  }

  /** `sorted + [x]` lists `x` after the equally scored elements of `sorted`. */
  lemma WithScoreAllBelow<T>(sorted: seq<Scored<T>>, x: Scored<T>, v: nat)
    requires x.score == v
    ensures WithScore(sorted + [x], v) == WithScore(sorted, v) + [x]
  {
    assert (sorted + [x])[..|sorted + [x]| - 1] == sorted;
  }

  /** The sort orders by descending score. */
  lemma {:induction false} SortDescSorted<T>(s: seq<Scored<T>>)
    ensures SortedDesc(SortDesc(s))
    ensures multiset(SortDesc(s)) == multiset(s)
    ensures |SortDesc(s)| == |s|
  {
    if s != [] {
      SortDescSorted(s[..|s| - 1]);
      InsertDescSorted(SortDesc(s[..|s| - 1]), s[|s| - 1]);
      InsertDescPermutes(SortDesc(s[..|s| - 1]), s[|s| - 1]);
      assert s == s[..|s| - 1] + [s[|s| - 1]];
    }
  }

  /** The sort is stable: elements with equal scores keep their input order. */
  lemma {:induction false} SortDescStable<T>(s: seq<Scored<T>>, v: nat)
    ensures WithScore(SortDesc(s), v) == WithScore(s, v)
  {
    if s != [] {
      SortDescStable(s[..|s| - 1], v);
      InsertDescStable(SortDesc(s[..|s| - 1]), s[|s| - 1], v);
    }
  }

  /** Cutting a sequence short cuts each of its equal-score subsequences short. */
  lemma {:induction false} WithScoreOfPrefix<T>(s: seq<Scored<T>>, n: nat, v: nat)
    requires n <= |s|
    ensures WithScore(s[..n], v) <= WithScore(s, v)
    decreases |s|
  {
    if n == |s| {
      assert s[..n] == s;
    } else {
      var init := s[..|s| - 1];
      assert s[..n] == init[..n];
      WithScoreOfPrefix(init, n, v);
    }
  }

  /** Where the insertion loop stops, `InsertDesc` puts `x`. */
  lemma {:induction false} InsertDescAt<T>(sorted: seq<Scored<T>>, x: Scored<T>, j: nat)
    requires j <= |sorted|
    requires j == 0 || sorted[j - 1].score >= x.score
    requires forall k :: j <= k < |sorted| ==> sorted[k].score < x.score
    ensures InsertDesc(sorted, x) == sorted[..j] + [x] + sorted[j..]
    decreases |sorted|
  {
    if j < |sorted| {
      var init := sorted[..|sorted| - 1];
      InsertDescAt(init, x, j);
      assert init[..j] == sorted[..j];
      assert init[j..] + [sorted[|sorted| - 1]] == sorted[j..];
    } else {
      assert sorted[..j] == sorted;
    }
  }

  /** One pass of the insertion sort: `a[i]` moves left past the elements
      of `a[..i]` that score less than it. */
  method InsertInto<T>(a: array<Scored<T>>, i: nat)
    requires i < a.Length
    modifies a
    ensures a[..i + 1] == InsertDesc(old(a[..i]), old(a[i]))
    ensures a[i + 1..] == old(a[i + 1..])
  {
    var x := a[i];
    ghost var sorted := a[..i];
    var j := i;
    while j > 0 && a[j - 1].score < x.score
      invariant 0 <= j <= i
      invariant forall k :: 0 <= k < j ==> a[k] == sorted[k]
      invariant forall k :: j < k <= i ==> a[k] == sorted[k - 1]
      invariant forall k :: i < k < a.Length ==> a[k] == old(a[k])
      invariant forall k :: j <= k < i ==> sorted[k].score < x.score
      decreases j
    {
      a[j] := a[j - 1];
      j := j - 1;
    }
    a[j] := x;
    InsertDescAt(sorted, x, j);
    assert a[..i + 1] == sorted[..j] + [x] + sorted[j..];
  }

  /** Stable in-place insertion sort, best score first. */
  method SortByScoreDesc<T>(a: array<Scored<T>>)
    modifies a
    ensures a[..] == SortDesc(old(a[..]))
  {
    ghost var input := a[..];
    for i := 0 to a.Length
      invariant a[..i] == SortDesc(input[..i])
      invariant a[i..] == input[i..]
    {
      assert a[i] == input[i];
      InsertInto(a, i);
      assert input[..i + 1][..i] == input[..i];
    }
    assert input[..a.Length] == input;
  }
}
