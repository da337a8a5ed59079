/**
 * Searching the flattened menu (src/menu/search.rs): an empty query lists
 * the first items, an exact search keeps the items whose path contains the
 * query, and a fuzzy search ranks the items whose path the fuzzy matcher
 * scores, best first.  Only the `path` of an item is searched.
 */
module Search {
  import opened Wrappers
  import opened Strings
  import opened Flatten
  import opened Scoring

  /** src/menu/search.rs:19-27. */
  datatype SearchOptions = SearchOptions(limit: nat, exact: bool, caseSensitive: bool)

  /** `SearchOptions::default()` (src/menu/search.rs:29-36). */
  const DefaultOptions: SearchOptions := SearchOptions(10, false, false)

  /** A matched item with its score, 0 when unscored (src/menu/search.rs:10-16). */
  type SearchResult = Scored<FlatItem>

  /** `take(n)`: at most the first `n` elements. */
  function Take<T>(s: seq<T>, n: nat): seq<T>
  {
    if |s| <= n then s else s[..n]
  }

  /** Items reported without a score. */
  function Unscored(items: seq<FlatItem>): seq<SearchResult>
  {
    seq(|items|, i requires 0 <= i < |items| => Scored(items[i], 0))
  }

  // ---------------------------------------------------------------------
  // Exact search (src/menu/search.rs:65-82)

  /** The substring test of lines 68-74. */
  predicate PathMatches(item: FlatItem, query: string, caseSensitive: bool)
  {
    if caseSensitive then Contains(item.path, query)
    else Contains(Lower(item.path), Lower(query))
  }

  /** The items passing the substring test, in their order. */
  function ExactMatches(items: seq<FlatItem>, query: string, caseSensitive: bool): seq<FlatItem>
  {
    if items == [] then []
    else (if PathMatches(items[0], query, caseSensitive) then [items[0]] else [])
         + ExactMatches(items[1..], query, caseSensitive)
  }

  /** What `exact_search` returns. */
  function ExactSearch(items: seq<FlatItem>, query: string, opts: SearchOptions): seq<SearchResult>
  {
    Unscored(Take(ExactMatches(items, query, opts.caseSensitive), opts.limit))
  }

  lemma {:induction false} ExactMatchesMembers(items: seq<FlatItem>, query: string, caseSensitive: bool)
    ensures forall x :: x in ExactMatches(items, query, caseSensitive) <==>
              x in items && PathMatches(x, query, caseSensitive)
    ensures |ExactMatches(items, query, caseSensitive)| <= |items|
  {
    if items != [] {
      ExactMatchesMembers(items[1..], query, caseSensitive);
      assert items == [items[0]] + items[1..];
    }
  }

  /** The positions, from `from` on, of the items passing the substring test. */
  function MatchIndices(items: seq<FlatItem>, query: string, caseSensitive: bool, from: nat): seq<nat>
    decreases |items| - from
  {
    if from >= |items| then []
    else (if PathMatches(items[from], query, caseSensitive) then [from] else [])
         + MatchIndices(items, query, caseSensitive, from + 1)
  }

  /** The matches of `items[from..]` are the items at strictly increasing
      positions, and those positions are exactly the matching ones. */
  lemma {:induction false} ExactMatchesInOrder(items: seq<FlatItem>, query: string, caseSensitive: bool, from: nat)
    requires from <= |items|
    ensures var idx := MatchIndices(items, query, caseSensitive, from);
            var m := ExactMatches(items[from..], query, caseSensitive);
            && |idx| == |m|
            && (forall i :: 0 <= i < |idx| ==> from <= idx[i] < |items| && m[i] == items[idx[i]])
            && (forall i, j :: 0 <= i < j < |idx| ==> idx[i] < idx[j])
            && (forall k :: from <= k < |items| ==> (k in idx <==> PathMatches(items[k], query, caseSensitive)))
    decreases |items| - from
  {
    if from < |items| {
      ExactMatchesInOrder(items, query, caseSensitive, from + 1);
      var tail := items[from..];
      assert tail[0] == items[from] && tail[1..] == items[from + 1..];
    }
  }

  /** An exact search reports, unscored, only items whose path contains the
      query; and when it reports fewer than `limit` items, it reports every
      such item. */
  lemma ExactSearchFindsMatches(items: seq<FlatItem>, query: string, opts: SearchOptions)
    ensures var r := ExactSearch(items, query, opts);
            && |r| <= opts.limit
            && forall i :: 0 <= i < |r| ==>
                 r[i].score == 0 && r[i].item in items && PathMatches(r[i].item, query, opts.caseSensitive)
    ensures var r := ExactSearch(items, query, opts);
            |r| < opts.limit ==>
              forall x :: x in items && PathMatches(x, query, opts.caseSensitive) ==> Scored(x, 0) in r
  {
    var m := ExactMatches(items, query, opts.caseSensitive);
    var r := ExactSearch(items, query, opts);
    ExactMatchesMembers(items, query, opts.caseSensitive);
    forall i | 0 <= i < |r|
      ensures r[i].item in items && PathMatches(r[i].item, query, opts.caseSensitive)
    {
      assert r[i].item == m[i];
      assert m[i] in m;
    }
    if |r| < opts.limit {
      forall x | x in items && PathMatches(x, query, opts.caseSensitive)
        ensures Scored(x, 0) in r
      {
        var k :| 0 <= k < |m| && m[k] == x;
        assert r[k] == Scored(x, 0);
      }
    }
  }

  /** An exact search reports the first `limit` matching items in input
      order: the items at the increasing matching positions `idx[..|r|]`;
      a matching position left out comes after all of them, and then the
      limit was reached. */
  lemma ExactSearchKeepsOrder(items: seq<FlatItem>, query: string, opts: SearchOptions)
    ensures var r := ExactSearch(items, query, opts);
            var idx := MatchIndices(items, query, opts.caseSensitive, 0);
            && |r| <= |idx|
            && (forall i :: 0 <= i < |r| ==> idx[i] < |items| && r[i] == Scored(items[idx[i]], 0))
            && (forall i, j :: 0 <= i < j < |r| ==> idx[i] < idx[j])
            && (forall k :: 0 <= k < |items| && PathMatches(items[k], query, opts.caseSensitive) ==>
                  || k in idx[..|r|]
                  || (|r| == opts.limit && forall i :: 0 <= i < |r| ==> idx[i] < k))
  {
    var m := ExactMatches(items, query, opts.caseSensitive);
    var r := ExactSearch(items, query, opts);
    var idx := MatchIndices(items, query, opts.caseSensitive, 0);
    assert items[0..] == items;
    ExactMatchesInOrder(items, query, opts.caseSensitive, 0);
    assert |r| <= |m| && |r| == (if |m| <= opts.limit then |m| else opts.limit);
    assert forall i :: 0 <= i < |r| ==> r[i] == Scored(m[i], 0);
    forall k | 0 <= k < |items| && PathMatches(items[k], query, opts.caseSensitive)
      ensures || k in idx[..|r|]
              || (|r| == opts.limit && forall i :: 0 <= i < |r| ==> idx[i] < k)
    {
      var p :| 0 <= p < |idx| && idx[p] == k;
      if p < |r| {
        assert idx[..|r|][p] == k;
      }
    }
  }

  /** Lower-casing both sides keeps every occurrence. */
  lemma LowerKeepsOccurrence(s: string, pat: string)
    requires Contains(s, pat)
    ensures Contains(Lower(s), Lower(pat))
  {
    var i: nat :| i <= |s| && OccursAt(s, pat, i);
    assert Lower(s)[i..i + |pat|] == Lower(pat) by {
      forall k | 0 <= k < |pat| ensures Lower(s)[i..i + |pat|][k] == Lower(pat)[k] {
        assert s[i..i + |pat|][k] == s[i + k];
      }
    }
    assert OccursAt(Lower(s), Lower(pat), i);
  }

  /** A case-sensitive match is also a case-insensitive one. */
  lemma CaseSensitiveIsStricter(item: FlatItem, query: string)
    ensures PathMatches(item, query, true) ==> PathMatches(item, query, false)
  {
    if PathMatches(item, query, true) {
      LowerKeepsOccurrence(item.path, query);
    }
  }

  /** A case-insensitive exact search depends only on the lower-cased query. */
  lemma {:induction false} CaseInsensitiveQuery(items: seq<FlatItem>, q1: string, q2: string)
    requires Lower(q1) == Lower(q2)
    ensures ExactMatches(items, q1, false) == ExactMatches(items, q2, false)
  {
    if items != [] {
      CaseInsensitiveQuery(items[1..], q1, q2);
    }
  }

  // ---------------------------------------------------------------------
  // Fuzzy search (src/menu/search.rs:84-112)

  /** The case mode of lines 85-89. */
  function Mode(opts: SearchOptions): CaseMatching
  {
    if opts.caseSensitive then Respect else Smart
  }

  /** The `filter_map` of lines 94-106: every item whose path the pattern
      matches, with its score, in input order. */
  function ScoreItems(items: seq<FlatItem>, query: string, mode: CaseMatching, scorer: Scorer): seq<SearchResult>
  {
    if items == [] then []
    else
      (match scorer(items[0].path, query, mode)
       case Some(s) => [Scored(items[0], s)]
       case None => [])
      + ScoreItems(items[1..], query, mode, scorer)
  }

  /** What `fuzzy_search` returns. */
  function FuzzyResults(items: seq<FlatItem>, query: string, opts: SearchOptions, scorer: Scorer): seq<SearchResult>
  {
    Take(SortDesc(ScoreItems(items, query, Mode(opts), scorer)), opts.limit)
  }

  method FuzzySearch(items: seq<FlatItem>, query: string, opts: SearchOptions, scorer: Scorer)
    returns (r: seq<SearchResult>)
    ensures r == FuzzyResults(items, query, opts, scorer)
  {
    var scored := ScoreItems(items, query, Mode(opts), scorer);
    var a := new SearchResult[|scored|](i requires 0 <= i < |scored| => scored[i]);
    assert a[..] == scored;
    SortByScoreDesc(a);
    r := a[..];
    if |r| > opts.limit {
      r := r[..opts.limit];
    }
  }

  lemma {:induction false} ScoreItemsMembers(items: seq<FlatItem>, query: string, mode: CaseMatching, scorer: Scorer)
    ensures forall x :: x in ScoreItems(items, query, mode, scorer) ==>
              x.item in items && scorer(x.item.path, query, mode) == Some(x.score)
    ensures forall it :: it in items && scorer(it.path, query, mode).Some? ==>
              Scored(it, scorer(it.path, query, mode).value) in ScoreItems(items, query, mode, scorer)
  {
    if items != [] {
      ScoreItemsMembers(items[1..], query, mode, scorer);
      forall it | it in items && scorer(it.path, query, mode).Some?
        ensures Scored(it, scorer(it.path, query, mode).value) in ScoreItems(items, query, mode, scorer)
      {
        if it != items[0] {
          assert it in items[1..];
        }
      }
    }
  }

  /** The positions, from `from` on, of the items the matcher scores. */
  function ScoredIndices(items: seq<FlatItem>, query: string, mode: CaseMatching, scorer: Scorer, from: nat): seq<nat>
    decreases |items| - from
  {
    if from >= |items| then []
    else (if scorer(items[from].path, query, mode).Some? then [from] else [])
         + ScoredIndices(items, query, mode, scorer, from + 1)
  }

  /** The scored entries of `items[from..]` are the items at strictly
      increasing positions, with their scores, and those positions are
      exactly the ones the matcher scores. */
  lemma {:induction false} ScoreItemsInOrder(items: seq<FlatItem>, query: string, mode: CaseMatching, scorer: Scorer, from: nat)
    requires from <= |items|
    ensures var idx := ScoredIndices(items, query, mode, scorer, from);
            var s := ScoreItems(items[from..], query, mode, scorer);
            && |idx| == |s|
            && (forall i :: 0 <= i < |idx| ==>
                  && from <= idx[i] < |items|
                  && scorer(items[idx[i]].path, query, mode).Some?
                  && s[i] == Scored(items[idx[i]], scorer(items[idx[i]].path, query, mode).value))
            && (forall i, j :: 0 <= i < j < |idx| ==> idx[i] < idx[j])
            && (forall k :: from <= k < |items| ==> (k in idx <==> scorer(items[k].path, query, mode).Some?))
    decreases |items| - from
  {
    if from < |items| {
      ScoreItemsInOrder(items, query, mode, scorer, from + 1);
      var tail := items[from..];
      assert tail[0] == items[from] && tail[1..] == items[from + 1..];
    }
  }

  /** The fuzzy ranking is stable: for every score, the results with that
      score are, in order, the first of the scored items with that score. */
  lemma FuzzyResultsStable(items: seq<FlatItem>, query: string, opts: SearchOptions, scorer: Scorer)
    ensures forall v: nat :: WithScore(FuzzyResults(items, query, opts, scorer), v)
                             <= WithScore(ScoreItems(items, query, Mode(opts), scorer), v)
  {
    var s := ScoreItems(items, query, Mode(opts), scorer);
    var sorted := SortDesc(s);
    SortDescSorted(s);
    forall v: nat
      ensures WithScore(FuzzyResults(items, query, opts, scorer), v) <= WithScore(s, v)
    {
      SortDescStable(s, v);
      if |sorted| > opts.limit {
        WithScoreOfPrefix(sorted, opts.limit, v);
      }
    }
  }

  /** A fuzzy search returns scored items of the input, best first, each
      with the score the matcher gave its path under the case mode the
      options select, and no more than `limit` of them. */
  lemma FuzzyResultsRanked(items: seq<FlatItem>, query: string, opts: SearchOptions, scorer: Scorer)
    ensures var r := FuzzyResults(items, query, opts, scorer);
            && |r| <= opts.limit
            && SortedDesc(r)
            && forall i :: 0 <= i < |r| ==>
                 r[i].item in items && scorer(r[i].item.path, query, Mode(opts)) == Some(r[i].score)
  {
    var s := ScoreItems(items, query, Mode(opts), scorer);
    var sorted := SortDesc(s);
    var r := FuzzyResults(items, query, opts, scorer);
    SortDescSorted(s);
    ScoreItemsMembers(items, query, Mode(opts), scorer);
    forall i | 0 <= i < |r|
      ensures r[i].item in items && scorer(r[i].item.path, query, Mode(opts)) == Some(r[i].score)
    {
      assert r[i] == sorted[i];
      assert sorted[i] in multiset(sorted);
    }
  }

  /** The fuzzy search keeps the best: an item the matcher scores is among
      the results, or else `limit` results were returned, each scoring at
      least as much as it. */
  lemma FuzzyKeepsBest(items: seq<FlatItem>, query: string, opts: SearchOptions, scorer: Scorer, it: FlatItem)
    requires it in items && scorer(it.path, query, Mode(opts)).Some?
    ensures var r := FuzzyResults(items, query, opts, scorer);
            var x := Scored(it, scorer(it.path, query, Mode(opts)).value);
            || x in r
            || (&& |r| == opts.limit
                && forall i :: 0 <= i < |r| ==> r[i].score >= x.score)
  {
    var s := ScoreItems(items, query, Mode(opts), scorer);
    var sorted := SortDesc(s);
    var r := FuzzyResults(items, query, opts, scorer);
    var x := Scored(it, scorer(it.path, query, Mode(opts)).value);
    SortDescSorted(s);
    ScoreItemsMembers(items, query, Mode(opts), scorer);
    assert x in multiset(sorted);
    var j :| 0 <= j < |sorted| && sorted[j] == x;
    if j < opts.limit {
      assert r[j] == x;
    } else {
      forall i | 0 <= i < |r| ensures r[i].score >= x.score {
        assert r[i] == sorted[i];
      }
    }
  }

  // ---------------------------------------------------------------------
  // The strategy (src/menu/search.rs:46-63)

  /** What `search` returns. */
  function SearchOutcome(items: seq<FlatItem>, query: string, opts: SearchOptions, scorer: Scorer): seq<SearchResult>
  {
    if query == "" then Unscored(Take(items, opts.limit))
    else if opts.exact then ExactSearch(items, query, opts)
    else FuzzyResults(items, query, opts, scorer)
  }

  method Search(items: seq<FlatItem>, query: string, opts: SearchOptions, scorer: Scorer)
    returns (r: seq<SearchResult>)
    ensures r == SearchOutcome(items, query, opts, scorer)
  {
    if query == "" {
      return Unscored(Take(items, opts.limit));
    }
    if opts.exact {
      return ExactSearch(items, query, opts);
    }
    r := FuzzySearch(items, query, opts, scorer);
  }

  /** An empty query lists the first `limit` items, in order, unscored. */
  lemma EmptyQueryListsFirstItems(items: seq<FlatItem>, opts: SearchOptions, scorer: Scorer)
    ensures var r := SearchOutcome(items, "", opts, scorer);
            && |r| == (if |items| < opts.limit then |items| else opts.limit)
            && forall i :: 0 <= i < |r| ==> r[i] == Scored(items[i], 0)
  {
  }

  /** Whatever the mode, a search returns at most `limit` results, each an
      item of the input. */
  lemma SearchBounded(items: seq<FlatItem>, query: string, opts: SearchOptions, scorer: Scorer)
    ensures |SearchOutcome(items, query, opts, scorer)| <= opts.limit
    ensures forall x :: x in SearchOutcome(items, query, opts, scorer) ==> x.item in items
  {
    var r := SearchOutcome(items, query, opts, scorer);
    if query == "" {
      forall x | x in r ensures x.item in items {
        var i :| 0 <= i < |r| && r[i] == x;
      }
    } else if opts.exact {
      ExactSearchFindsMatches(items, query, opts);
      forall x | x in r ensures x.item in items {
        var i :| 0 <= i < |r| && r[i] == x;
      }
    } else {
      FuzzyResultsRanked(items, query, opts, scorer);
      forall x | x in r ensures x.item in items {
        var i :| 0 <= i < |r| && r[i] == x;
      }
    }
  }
}
