/**
 * Path resolution (src/menu/resolve.rs): turning what a user typed into one
 * node of the menu tree.
 *
 * A query holding the separator `::` is walked level by level, matching each
 * unescaped segment against the titles of one level.  Any other query is
 * first compared with the titles of the leaves; exactly one match wins, two
 * or more are ambiguous.  With no leaf match, every node's path is scored by
 * the fuzzy matcher (a `Scorer` parameter here) and the best one wins if it
 * scores at least twice as much as the runner-up.
 */
module Resolve {
  import opened Wrappers
  import opened Strings
  import opened MenuErrors
  import opened PathCodec
  import opened Tree
  import opened Scoring
  import opened Fixtures

  /** FUZZY_AUTO_RESOLVE_RATIO (src/menu/resolve.rs:23). */
  const AutoResolveRatio: nat := 2

  /** How many candidate paths an ambiguous fuzzy match reports. */
  const MaxFuzzyCandidates: nat := 5

  /** A node's title equals `lowered` once lower-cased. */
  predicate TitleMatches(n: MenuNode, lowered: string)
  {
    Lower(n.title) == lowered
  }

  /** The paths of a list of nodes. */
  function Paths(ns: seq<MenuNode>): seq<string>
  {
    seq(|ns|, i requires 0 <= i < |ns| => ns[i].path)
  }

  // ---------------------------------------------------------------------
  // Exact path (src/menu/resolve.rs:64-89)

  /** `iter().find`: the first node of a level whose title matches. */
  function FindFirst(ns: seq<MenuNode>, lowered: string): (r: Option<nat>)
    ensures r.Some? ==> r.value < |ns| && TitleMatches(ns[r.value], lowered)
    ensures r.Some? ==> forall k :: 0 <= k < r.value ==> !TitleMatches(ns[k], lowered)
    ensures r.None? <==> forall k :: 0 <= k < |ns| ==> !TitleMatches(ns[k], lowered)
  {
    if ns == [] then None
    else if TitleMatches(ns[0], lowered) then Some(0)
    else match FindFirst(ns[1..], lowered)
      case None => None
      case Some(i) => Some(i + 1)
  }

  /** Where the level-by-level walk ends, starting at level `current` with
      `found` the node reached so far. */
  function Descend(current: seq<MenuNode>, segs: seq<string>, found: Option<MenuNode>): Option<MenuNode>
    decreases |segs|
  {
    if segs == [] then found
    else match FindFirst(current, Lower(UnescapeSegment(segs[0])))
      case None => None
      case Some(i) => Descend(current[i].children, segs[1..], Some(current[i]))
  }

  /** What `resolve_by_exact_path` returns. */
  function ExactPathOutcome(nodes: seq<MenuNode>, path: string): Result<MenuNode, MenuError>
  {
    match Descend(nodes, PathSegments(path), None)
    case Some(n) => Ok(n)
    case None => Err(ItemNotFound(path))
  }

  method ResolveByExactPath(nodes: seq<MenuNode>, path: string) returns (r: Result<MenuNode, MenuError>)
    ensures r == ExactPathOutcome(nodes, path)
  {
    var segments := SplitPath(path);
    var current := nodes;
    var found: Option<MenuNode> := None;
    for k := 0 to |segments|
      invariant Descend(current, segments[k..], found) == Descend(nodes, segments, None)
    {
      var lowered := Lower(UnescapeSegment(segments[k]));
      var matched := FindFirst(current, lowered);
      DescendStep(current, segments, k, found);
      match matched {
        case Some(i) =>
          found := Some(current[i]);
          current := current[i].children;
        case None =>
          return Err(ItemNotFound(path));
      }
    }
    assert segments[|segments|..] == [];
    match found {
      case Some(n) => r := Ok(n);
      case None => r := Err(ItemNotFound(path));
    }
  }

  /** One level of the walk. */
  lemma DescendStep(current: seq<MenuNode>, segs: seq<string>, k: nat, found: Option<MenuNode>)
    requires k < |segs|
    ensures Descend(current, segs[k..], found) ==
              match FindFirst(current, Lower(UnescapeSegment(segs[k])))
              case None => None
              case Some(i) => Descend(current[i].children, segs[k + 1..], Some(current[i]))
  {
    assert segs[k..][0] == segs[k] && segs[k..][1..] == segs[k + 1..];
  }

  /** The nodes of `ns` and of their subtrees: the pre-order of `ns[i]`'s
      children sits inside the pre-order of `ns`. */
  lemma {:induction false} PreorderAround(ns: seq<MenuNode>, i: nat)
    requires i < |ns|
    ensures Preorder(ns) == Preorder(ns[..i]) + [ns[i]] + Preorder(ns[i].children) + Preorder(ns[i + 1..])
  {
    var t := ns[i..];
    assert ns == ns[..i] + t;
    PreorderAppend(ns[..i], t);
    assert t[0] == ns[i] && t[1..] == ns[i + 1..];
    assert Preorder(t) == [ns[i]] + Preorder(ns[i].children) + Preorder(ns[i + 1..]);
  }

  lemma PreorderSingle(n: MenuNode)
    ensures Preorder([n]) == [n] + Preorder(n.children)
  {
    assert [n][1..] == [];
  }

  /** A walk over at least one segment ends on a node of the forest whose
      title matches the last segment. */
  lemma {:induction false} DescendFinds(current: seq<MenuNode>, segs: seq<string>, found: Option<MenuNode>)
    requires segs != []
    requires Descend(current, segs, found).Some?
    ensures Descend(current, segs, found).value in Preorder(current)
    ensures TitleMatches(Descend(current, segs, found).value, Lower(UnescapeSegment(segs[|segs| - 1])))
    decreases |segs|
  {
    var i := FindFirst(current, Lower(UnescapeSegment(segs[0]))).value;
    PreorderAround(current, i);
    if |segs| > 1 {
      DescendFinds(current[i].children, segs[1..], Some(current[i]));
    }
  }

  /** The exact-path walk either lands on a node of the tree whose title
      matches the path's last segment, or reports the whole path as not
      found; the `ok_or_else` fallback of line 86 is never reached, since a
      split path has at least one segment. */
  lemma ExactPathResult(nodes: seq<MenuNode>, path: string)
    ensures ExactPathOutcome(nodes, path).Err? ==> ExactPathOutcome(nodes, path) == Err(ItemNotFound(path))
    ensures ExactPathOutcome(nodes, path).Ok? ==>
              var segs := PathSegments(path);
              && ExactPathOutcome(nodes, path).value in Preorder(nodes)
              && TitleMatches(ExactPathOutcome(nodes, path).value, Lower(UnescapeSegment(segs[|segs| - 1])))
  {
    var segs := PathSegments(path);
    SplitNonEmpty(path);
    var d := Descend(nodes, segs, None);
    if d.Some? {
      DescendFinds(nodes, segs, None);
    }
  }

  // ---------------------------------------------------------------------
  // Leaves and all nodes (src/menu/resolve.rs:92-110)

  /** `collect_leaves`: the childless nodes, in pre-order. */
  function Leaves(ns: seq<MenuNode>): seq<MenuNode>
    decreases ns
  {
    if ns == [] then []
    else (if |ns[0].children| == 0 then [ns[0]] else Leaves(ns[0].children)) + Leaves(ns[1..])
  }

  /** The childless members of a list, in order. */
  function LeafFilter(s: seq<MenuNode>): seq<MenuNode>
  {
    if s == [] then [] else (if |s[0].children| == 0 then [s[0]] else []) + LeafFilter(s[1..])
  }

  lemma {:induction false} LeafFilterAppend(a: seq<MenuNode>, b: seq<MenuNode>)
    ensures LeafFilter(a + b) == LeafFilter(a) + LeafFilter(b)
  {
    if a == [] {
      assert a + b == b;
    } else {
      var h := if |a[0].children| == 0 then [a[0]] else [];
      assert (a + b)[0] == a[0];
      assert (a + b)[1..] == a[1..] + b;
      assert LeafFilter(a + b) == h + LeafFilter(a[1..] + b);
      LeafFilterAppend(a[1..], b);
      assert LeafFilter(a) == h + LeafFilter(a[1..]);
    }
  }

  lemma {:induction false} LeavesAppend(a: seq<MenuNode>, b: seq<MenuNode>)
    ensures Leaves(a + b) == Leaves(a) + Leaves(b)
  {
    if a == [] {
      assert a + b == b;
    } else {
      var h := if |a[0].children| == 0 then [a[0]] else Leaves(a[0].children);
      assert (a + b)[0] == a[0];
      assert (a + b)[1..] == a[1..] + b;
      assert Leaves(a + b) == h + Leaves(a[1..] + b);
      LeavesAppend(a[1..], b);
      assert Leaves(a) == h + Leaves(a[1..]);
    }
  }

  /** The leaves are exactly the childless nodes of the pre-order, in the
      same order. */
  lemma {:induction false} LeavesArePreorderLeaves(ns: seq<MenuNode>)
    ensures Leaves(ns) == LeafFilter(Preorder(ns))
    decreases ns
  {
    if ns != [] {
      LeavesArePreorderLeaves(ns[0].children);
      LeavesArePreorderLeaves(ns[1..]);
      var pc := Preorder(ns[0].children);
      var pr := Preorder(ns[1..]);
      LeafFilterAppend([ns[0]] + pc, pr);
      LeafFilterAppend([ns[0]], pc);
      assert [ns[0]][1..] == [];
      if |ns[0].children| == 0 {
        assert pc == [];
      }
    }
  }

  /** The leaves of a prefix grow by the leaves under the next node. */
  lemma LeavesSnoc(ns: seq<MenuNode>, i: nat)
    requires i < |ns|
    ensures Leaves(ns[..i + 1]) == Leaves(ns[..i]) + (if |ns[i].children| == 0 then [ns[i]] else Leaves(ns[i].children))
  {
    assert ns[..i + 1] == ns[..i] + [ns[i]];
    LeavesAppend(ns[..i], [ns[i]]);
    assert [ns[i]][1..] == [];
  }

  method CollectLeaves(nodes: seq<MenuNode>) returns (leaves: seq<MenuNode>)
    ensures leaves == Leaves(nodes)
    decreases nodes
  {
    leaves := [];
    for i := 0 to |nodes|
      invariant leaves == Leaves(nodes[..i])
    {
      var node := nodes[i];
      LeavesSnoc(nodes, i);
      if |node.children| == 0 {
        leaves := leaves + [node];
      } else {
        var sub := CollectLeaves(node.children);
        leaves := leaves + sub;
      }
    }
    assert nodes[..|nodes|] == nodes;
  }

  /** The preorder of a prefix grows by the next node and its subtree. */
  lemma PreorderSnoc(ns: seq<MenuNode>, i: nat)
    requires i < |ns|
    ensures Preorder(ns[..i + 1]) == Preorder(ns[..i]) + [ns[i]] + Preorder(ns[i].children)
  {
    assert ns[..i + 1] == ns[..i] + [ns[i]];
    PreorderAppend(ns[..i], [ns[i]]);
    PreorderSingle(ns[i]);
  }

  /** `collect_all`: `out` extended with every node, parents before children. */
  method CollectAll(nodes: seq<MenuNode>, out: seq<MenuNode>) returns (result: seq<MenuNode>)
    ensures result == out + Preorder(nodes)
    decreases nodes
  {
    result := out;
    for i := 0 to |nodes|
      invariant result == out + Preorder(nodes[..i])
    {
      var node := nodes[i];
      PreorderSnoc(nodes, i);
      result := result + [node];
      result := CollectAll(node.children, result);
    }
    assert nodes[..|nodes|] == nodes;
  }

  // ---------------------------------------------------------------------
  // Fuzzy resolution (src/menu/resolve.rs:112-148)

  /** The `filter_map` of lines 119-126: each node whose path the pattern
      matches, with its score, in the given order. */
  function ScoreAll(all: seq<MenuNode>, query: string, scorer: Scorer): seq<Scored<MenuNode>>
  {
    if all == [] then []
    else
      (match scorer(all[0].path, query, Smart)
       case Some(s) => [Scored(all[0], s)]
       case None => [])
      + ScoreAll(all[1..], query, scorer)
  }

  /** Every scored entry is a node of the list with the score the matcher
      gave its path, and every node the matcher scores has its entry. */
  lemma {:induction false} ScoreAllMembers(all: seq<MenuNode>, query: string, scorer: Scorer)
    ensures forall x :: x in ScoreAll(all, query, scorer) ==>
              x.item in all && scorer(x.item.path, query, Smart) == Some(x.score)
    ensures forall n :: n in all && scorer(n.path, query, Smart).Some? ==>
              Scored(n, scorer(n.path, query, Smart).value) in ScoreAll(all, query, scorer)
  {
    if all != [] {
      ScoreAllMembers(all[1..], query, scorer);
      forall n | n in all && scorer(n.path, query, Smart).Some?
        ensures Scored(n, scorer(n.path, query, Smart).value) in ScoreAll(all, query, scorer)
      {
        if n != all[0] {
          assert n in all[1..];
        }
      }
    }
  }

  /** Nothing is scored exactly when the matcher rejects every path. */
  lemma {:induction false} ScoreAllEmpty(all: seq<MenuNode>, query: string, scorer: Scorer)
    ensures ScoreAll(all, query, scorer) == [] <==>
              forall k :: 0 <= k < |all| ==> scorer(all[k].path, query, Smart).None?
  {
    if all != [] {
      ScoreAllEmpty(all[1..], query, scorer);
      assert forall k :: 1 <= k < |all| ==> all[k] == all[1..][k - 1];
    }
  }

  /** The ratio test of lines 137-138: `best / max(second, 1) >= 2`. */
  predicate Confident(best: nat, second: nat)
  {
    best >= AutoResolveRatio * (if second > 1 then second else 1)
  }

  /** The scored nodes, best first, ties in pre-order. */
  function Ranked(nodes: seq<MenuNode>, query: string, scorer: Scorer): seq<Scored<MenuNode>>
  {
    SortDesc(ScoreAll(Preorder(nodes), query, scorer))
  }

  /** The paths an ambiguous fuzzy match reports: those of the first five. */
  function FuzzyCandidates(ranked: seq<Scored<MenuNode>>): seq<string>
  {
    var top := if |ranked| <= MaxFuzzyCandidates then ranked else ranked[..MaxFuzzyCandidates];
    seq(|top|, i requires 0 <= i < |top| => top[i].item.path)
  }

  /** The decision of lines 130-147 on the ranked list. */
  function Decide(ranked: seq<Scored<MenuNode>>, query: string): Result<MenuNode, MenuError>
  {
    if |ranked| == 0 then Err(ItemNotFound(query))
    else if |ranked| == 1 then Ok(ranked[0].item)
    else if Confident(ranked[0].score, ranked[1].score) then Ok(ranked[0].item)
    else Err(AmbiguousMatch(query, FuzzyCandidates(ranked)))
  }

  /** What `resolve_fuzzy` returns. */
  function FuzzyOutcome(nodes: seq<MenuNode>, query: string, scorer: Scorer): Result<MenuNode, MenuError>
  {
    Decide(Ranked(nodes, query, scorer), query)
  }

  method ResolveFuzzy(nodes: seq<MenuNode>, query: string, scorer: Scorer) returns (r: Result<MenuNode, MenuError>)
    ensures r == FuzzyOutcome(nodes, query, scorer)
  {
    var all := CollectAll(nodes, []);
    assert all == Preorder(nodes);
    var scored := ScoreAll(all, query, scorer);
    var a := new Scored<MenuNode>[|scored|](i requires 0 <= i < |scored| => scored[i]);
    assert a[..] == scored;
    SortByScoreDesc(a);
    r := Decide(a[..], query);
  }

  /** The ranked list holds exactly the scored nodes, best first. */
  lemma RankedFacts(nodes: seq<MenuNode>, query: string, scorer: Scorer)
    ensures SortedDesc(Ranked(nodes, query, scorer))
    ensures forall x :: x in Ranked(nodes, query, scorer) <==> x in ScoreAll(Preorder(nodes), query, scorer)
    ensures |Ranked(nodes, query, scorer)| == |ScoreAll(Preorder(nodes), query, scorer)|
  {
    var s := ScoreAll(Preorder(nodes), query, scorer);
    SortDescSorted(s);
    forall x
      ensures x in SortDesc(s) <==> x in s
    {
      assert x in SortDesc(s) <==> x in multiset(SortDesc(s));
      assert x in s <==> x in multiset(s);
    }
  }

  /** Fuzzy resolution finds nothing exactly when the matcher rejects the
      path of every node. */
  lemma FuzzyNotFound(nodes: seq<MenuNode>, query: string, scorer: Scorer)
    ensures FuzzyOutcome(nodes, query, scorer) == Err(ItemNotFound(query)) <==>
              forall n :: n in Preorder(nodes) ==> scorer(n.path, query, Smart).None?
  {
    var all := Preorder(nodes);
    RankedFacts(nodes, query, scorer);
    ScoreAllEmpty(all, query, scorer);
    if forall n :: n in all ==> scorer(n.path, query, Smart).None? {
      assert forall k :: 0 <= k < |all| ==> scorer(all[k].path, query, Smart).None? by {
        forall k | 0 <= k < |all| ensures scorer(all[k].path, query, Smart).None? {
          assert all[k] in all;
        }
      }
    } else {
      var n :| n in all && scorer(n.path, query, Smart).Some?;
      var k :| 0 <= k < |all| && all[k] == n;
    }
  }

  /** A fuzzy match that resolves picks a node of the tree that scores at
      least as much as any other, and, when some other node scored too, at
      least twice as much as the runner-up. */
  lemma FuzzyResolvedIsBest(nodes: seq<MenuNode>, query: string, scorer: Scorer)
    requires FuzzyOutcome(nodes, query, scorer).Ok?
    ensures var n := FuzzyOutcome(nodes, query, scorer).value;
            && n in Preorder(nodes)
            && scorer(n.path, query, Smart).Some?
            && forall m :: m in Preorder(nodes) && scorer(m.path, query, Smart).Some? ==>
                 scorer(m.path, query, Smart).value <= scorer(n.path, query, Smart).value
    ensures var ranked := Ranked(nodes, query, scorer);
            |ranked| >= 2 ==> Confident(ranked[0].score, ranked[1].score)
  {
    var ranked := Ranked(nodes, query, scorer);
    var all := Preorder(nodes);
    RankedFacts(nodes, query, scorer);
    ScoreAllMembers(all, query, scorer);
    assert ranked[0] in ranked;
    forall m | m in all && scorer(m.path, query, Smart).Some?
      ensures scorer(m.path, query, Smart).value <= ranked[0].score
    {
      var x := Scored(m, scorer(m.path, query, Smart).value);
      assert x in ranked;
      var j :| 0 <= j < |ranked| && ranked[j] == x;
      assert j == 0 || ranked[0].score >= ranked[j].score;
    }
  }

  /** An ambiguous fuzzy match lists the paths of the top five ranked nodes
      (at least two), and the best of them did not reach twice the
      runner-up's score. */
  lemma FuzzyAmbiguity(nodes: seq<MenuNode>, query: string, scorer: Scorer)
    requires FuzzyOutcome(nodes, query, scorer).Err?
    requires FuzzyOutcome(nodes, query, scorer).error.AmbiguousMatch?
    ensures var ranked := Ranked(nodes, query, scorer);
            var e := FuzzyOutcome(nodes, query, scorer).error;
            && |ranked| >= 2
            && !Confident(ranked[0].score, ranked[1].score)
            && e.query == query
            && |e.candidates| == (if |ranked| < MaxFuzzyCandidates then |ranked| else MaxFuzzyCandidates)
            && forall i :: 0 <= i < |e.candidates| ==> e.candidates[i] == ranked[i].item.path
  {
  }

  /** Every candidate of an ambiguous fuzzy match is the path of a node of
      the tree that the matcher scored. */
  lemma FuzzyCandidatesScored(nodes: seq<MenuNode>, query: string, scorer: Scorer)
    requires FuzzyOutcome(nodes, query, scorer).Err?
    requires FuzzyOutcome(nodes, query, scorer).error.AmbiguousMatch?
    ensures forall c :: c in FuzzyOutcome(nodes, query, scorer).error.candidates ==>
              exists n :: n in Preorder(nodes) && n.path == c && scorer(n.path, query, Smart).Some?
  {
    var ranked := Ranked(nodes, query, scorer);
    var cands := FuzzyOutcome(nodes, query, scorer).error.candidates;
    FuzzyAmbiguity(nodes, query, scorer);
    RankedFacts(nodes, query, scorer);
    ScoreAllMembers(Preorder(nodes), query, scorer);
    forall c | c in cands
      ensures exists n :: n in Preorder(nodes) && n.path == c && scorer(n.path, query, Smart).Some?
    {
      var i :| 0 <= i < |cands| && cands[i] == c;
      var x := ranked[i];
      assert x in ranked;
      assert x.item in Preorder(nodes) && x.item.path == c && scorer(x.item.path, query, Smart).Some?;
    }
  }

  // ---------------------------------------------------------------------
  // The strategy order (src/menu/resolve.rs:34-59)

  /** The leaves whose title matches the query, case-insensitively. */
  function LeafMatches(leaves: seq<MenuNode>, query: string): seq<MenuNode>
  {
    if leaves == [] then []
    else (if TitleMatches(leaves[0], Lower(query)) then [leaves[0]] else []) + LeafMatches(leaves[1..], query)
  }

  /** What `resolve` returns. */
  function ResolveOutcome(nodes: seq<MenuNode>, query: string, scorer: Scorer): Result<MenuNode, MenuError>
  {
    if Contains(query, PathSep) then ExactPathOutcome(nodes, query)
    else
      var matches := LeafMatches(Leaves(nodes), query);
      if |matches| == 1 then Ok(matches[0])
      else if |matches| > 1 then Err(AmbiguousMatch(query, Paths(matches)))
      else FuzzyOutcome(nodes, query, scorer)
  }

  method Resolve(nodes: seq<MenuNode>, query: string, scorer: Scorer) returns (r: Result<MenuNode, MenuError>)
    ensures r == ResolveOutcome(nodes, query, scorer)
  {
    if Contains(query, PathSep) {
      r := ResolveByExactPath(nodes, query);
      return;
    }
    var leaves := CollectLeaves(nodes);
    var matches := LeafMatches(leaves, query);
    if |matches| == 1 {
      return Ok(matches[0]);
    } else if |matches| > 1 {
      return Err(AmbiguousMatch(query, Paths(matches)));
    }
    r := ResolveFuzzy(nodes, query, scorer);
  }

  /** The matching leaves are the members of the list whose title matches. */
  lemma {:induction false} LeafMatchesMembers(leaves: seq<MenuNode>, query: string)
    ensures forall n :: n in LeafMatches(leaves, query) <==> n in leaves && TitleMatches(n, Lower(query))
  {
    if leaves != [] {
      LeafMatchesMembers(leaves[1..], query);
      assert leaves == [leaves[0]] + leaves[1..];
    }
  }

  /** A query with a separator is resolved by its path alone: the fuzzy
      matcher plays no part and an ambiguity is never reported. */
  lemma SeparatorMeansExactPath(nodes: seq<MenuNode>, query: string, scorer1: Scorer, scorer2: Scorer)
    requires Contains(query, PathSep)
    ensures ResolveOutcome(nodes, query, scorer1) == ResolveOutcome(nodes, query, scorer2)
    ensures ResolveOutcome(nodes, query, scorer1).Err? ==>
              ResolveOutcome(nodes, query, scorer1).error == ItemNotFound(query)
  {
    ExactPathResult(nodes, query);
  }

  /** Without a separator, a query naming exactly one childless node of the
      tree (ignoring case) resolves to it, whatever the fuzzy matcher says. */
  lemma UniqueLeafWins(nodes: seq<MenuNode>, query: string, scorer: Scorer, n: MenuNode)
    requires !Contains(query, PathSep)
    requires LeafMatches(LeafFilter(Preorder(nodes)), query) == [n]
    ensures ResolveOutcome(nodes, query, scorer) == Ok(n)
    ensures n in Preorder(nodes) && |n.children| == 0 && TitleMatches(n, Lower(query))
  {
    LeavesArePreorderLeaves(nodes);
    LeafMatchesMembers(Leaves(nodes), query);
    LeafFilterMembers(Preorder(nodes));
    assert n in LeafMatches(Leaves(nodes), query);
  }

  /** Without a separator, two or more childless nodes with the query as
      title are ambiguous, and the error lists their paths in tree order. */
  lemma SameTitledLeavesAreAmbiguous(nodes: seq<MenuNode>, query: string, scorer: Scorer)
    requires !Contains(query, PathSep)
    requires |LeafMatches(LeafFilter(Preorder(nodes)), query)| >= 2
    ensures ResolveOutcome(nodes, query, scorer) ==
              Err(AmbiguousMatch(query, Paths(LeafMatches(LeafFilter(Preorder(nodes)), query))))
  {
    LeavesArePreorderLeaves(nodes);
  }

  lemma {:induction false} LeafFilterMembers(s: seq<MenuNode>)
    ensures forall n :: n in LeafFilter(s) <==> n in s && |n.children| == 0
  {
    if s != [] {
      LeafFilterMembers(s[1..]);
      assert s == [s[0]] + s[1..];
    }
  }

  /** A title match among the leaves is a node of the tree; several of them
      name at least two candidates. */
  lemma LeafOutcomeResult(nodes: seq<MenuNode>, query: string)
    requires |LeafMatches(Leaves(nodes), query)| >= 1
    ensures LeafMatches(Leaves(nodes), query)[0] in Preorder(nodes)
    ensures |Paths(LeafMatches(Leaves(nodes), query))| == |LeafMatches(Leaves(nodes), query)|
  {
    var matches := LeafMatches(Leaves(nodes), query);
    LeavesArePreorderLeaves(nodes);
    LeafMatchesMembers(Leaves(nodes), query);
    LeafFilterMembers(Preorder(nodes));
    assert matches[0] in matches;
  }

  /** The fuzzy strategy resolves to a node of the tree, or fails with "not
      found" or with an ambiguity between at least two candidates. */
  lemma FuzzyOutcomeResult(nodes: seq<MenuNode>, query: string, scorer: Scorer)
    ensures FuzzyOutcome(nodes, query, scorer).Ok? ==> FuzzyOutcome(nodes, query, scorer).value in Preorder(nodes)
    ensures FuzzyOutcome(nodes, query, scorer).Err? ==>
              || FuzzyOutcome(nodes, query, scorer).error == ItemNotFound(query)
              || (&& FuzzyOutcome(nodes, query, scorer).error.AmbiguousMatch?
                  && FuzzyOutcome(nodes, query, scorer).error.query == query
                  && |FuzzyOutcome(nodes, query, scorer).error.candidates| >= 2)
  {
    var r := FuzzyOutcome(nodes, query, scorer);
    if r.Ok? {
      FuzzyResolvedIsBest(nodes, query, scorer);
    } else if r.error.AmbiguousMatch? {
      FuzzyAmbiguity(nodes, query, scorer);
    }
  }

  /** Whatever the strategy, a resolved node is a node of the tree, and a
      failure is either "not found" for the query or an ambiguity between at
      least two candidates. */
  lemma ResolveResult(nodes: seq<MenuNode>, query: string, scorer: Scorer)
    ensures ResolveOutcome(nodes, query, scorer).Ok? ==> ResolveOutcome(nodes, query, scorer).value in Preorder(nodes)
    ensures ResolveOutcome(nodes, query, scorer).Err? ==>
              var e := ResolveOutcome(nodes, query, scorer).error;
              || e == ItemNotFound(query)
              || (e.AmbiguousMatch? && e.query == query && |e.candidates| >= 2)
  {
    if Contains(query, PathSep) {
      assert ResolveOutcome(nodes, query, scorer) == ExactPathOutcome(nodes, query);
      ExactPathResult(nodes, query);
    } else if |LeafMatches(Leaves(nodes), query)| >= 1 {
      LeafOutcomeResult(nodes, query);
    } else {
      assert ResolveOutcome(nodes, query, scorer) == FuzzyOutcome(nodes, query, scorer);
      FuzzyOutcomeResult(nodes, query, scorer);
    }
  }

  // ---------------------------------------------------------------------
  // The unit tests of src/menu/resolve.rs:150-223

  /** The two segments of a path `a::b` whose titles hold no `::`. */
  lemma TwoSegments(a: string, b: string)
    requires RoundTripSafe(a)
    requires !Contains(a, PathSep) && !Contains(b, PathSep)
    ensures var segs := PathSegments(a + PathSep + b);
            |segs| == 2 && UnescapeSegment(segs[0]) == a && UnescapeSegment(segs[1]) == b
  {
    assert EscapeAll([a, b]) == [a, b];
    assert Join([a, b], PathSep) == a + PathSep + b by {
      assert [a, b][1..] == [b];
    }
    PathRoundTrip([a, b]);
  }

  /** A two-segment path naming, at each level, a title with no `::` in
      it: the walk takes the first match on each level. */
  lemma TwoLevelPath(nodes: seq<MenuNode>, a: string, b: string, scorer: Scorer)
    requires RoundTripSafe(a)
    requires !Contains(a, PathSep) && !Contains(b, PathSep)
    requires FindFirst(nodes, Lower(a)).Some?
    ensures var i := FindFirst(nodes, Lower(a)).value;
            ResolveOutcome(nodes, a + PathSep + b, scorer) ==
              match FindFirst(nodes[i].children, Lower(b))
              case Some(j) => Ok(nodes[i].children[j])
              case None => Err(ItemNotFound(a + PathSep + b))
  {
    var q := a + PathSep + b;
    assert Contains(q, PathSep) by {
      assert q[|a|..|a| + 2] == PathSep;
      assert OccursAt(q, PathSep, |a|);
    }
    assert ResolveOutcome(nodes, q, scorer) == ExactPathOutcome(nodes, q);
    TwoSegments(a, b);
    var segs := PathSegments(q);
    var i := FindFirst(nodes, Lower(a)).value;
    assert Descend(nodes, segs, None) == Descend(nodes[i].children, segs[1..], Some(nodes[i]));
    var rest := segs[1..];
    assert rest[0] == segs[1] && rest[1..] == [];
    match FindFirst(nodes[i].children, Lower(b))
    case Some(j) =>
      assert Descend(nodes[i].children, rest, Some(nodes[i])) == Descend(nodes[i].children[j].children, [], Some(nodes[i].children[j]));
    case None =>
  }

  /** src/menu/resolve.rs:192-197. */
  lemma ExactPathExample(scorer: Scorer)
    ensures ResolveOutcome(TestTree(), "File::Save As\U{2026}", scorer).Ok?
    ensures ResolveOutcome(TestTree(), "File::Save As\U{2026}", scorer).value.path == "File::Save As\U{2026}"
  {
    var q := "File::Save As\U{2026}";
    var a, b := "File", "Save As\U{2026}";
    assert !Contains(a, PathSep) by { NoAdjacentColons(a); }
    assert !Contains(b, PathSep) by { NoAdjacentColons(b); }
    var t := TestTree();
    assert FindFirst(t, Lower(a)) == Some(0);
    var c := t[0].children;
    assert FindFirst(c, Lower(b)) == Some(1) by {
      assert !TitleMatches(c[0], Lower(b));
      assert c[1..][0] == c[1];
    }
    assert q == a + PathSep + b;
    TwoLevelPath(t, a, b, scorer);
  }

  /** src/menu/resolve.rs:199-204. */
  lemma UniqueTitleExample(scorer: Scorer)
    ensures ResolveOutcome(TestTree(), "Paste", scorer).Ok?
    ensures ResolveOutcome(TestTree(), "Paste", scorer).value.path == "Edit::Paste"
  {
    var q := "Paste";
    assert !Contains(q, PathSep) by { NoAdjacentColons(q); }
    var t := TestTree();
    var fileMenu, editMenu := t[0].children, t[1].children;
    assert Leaves(t) == fileMenu + editMenu by {
      LeavesOfChildless(fileMenu);
      LeavesOfChildless(editMenu);
      LeavesOfPair(t[0], t[1]);
    }
    var p := Lower(q);
    assert LeafMatches(editMenu, q) == [editMenu[1]] by {
      assert !TitleMatches(editMenu[0], p);
      assert TitleMatches(editMenu[1], p);
      assert editMenu[1..][1..] == [];
    }
    assert LeafMatches(fileMenu, q) == [] by {
      assert |fileMenu| == 3 && |fileMenu[0].title| == 3 && |fileMenu[1].title| == 8;
      assert Lower(fileMenu[2].title)[0] == 'c' && p[0] == 'p';
      assert |Lower(fileMenu[0].title)| == 3 && |Lower(fileMenu[1].title)| == 8 && |p| == 5;
      NoLeafMatch(fileMenu, q);
    }
    LeafMatchesAppend(fileMenu, editMenu, q);
  }

  /** The leaves of childless nodes are the nodes themselves. */
  lemma {:induction false} LeavesOfChildless(ns: seq<MenuNode>)
    requires forall k :: 0 <= k < |ns| ==> |ns[k].children| == 0
    ensures Leaves(ns) == ns
  {
    if ns != [] {
      assert forall k :: 0 <= k < |ns[1..]| ==> ns[1..][k] == ns[k + 1];
      LeavesOfChildless(ns[1..]);
      assert ns == [ns[0]] + ns[1..];
    }
  }

  /** The leaves of two menus with items are the leaves of their items. */
  lemma LeavesOfPair(a: MenuNode, b: MenuNode)
    requires |a.children| > 0 && |b.children| > 0
    ensures Leaves([a, b]) == Leaves(a.children) + Leaves(b.children)
  {
    assert [a, b][0] == a && [a, b][1..] == [b];
    assert [b][0] == b && [b][1..] == [];
    assert Leaves([b]) == Leaves(b.children) + Leaves([]);
    assert Leaves([a, b]) == Leaves(a.children) + Leaves([b]);
  }

  /** No leaf matches when no title lowers to the lowered query. */
  lemma {:induction false} NoLeafMatch(ns: seq<MenuNode>, query: string)
    requires forall k :: 0 <= k < |ns| ==> !TitleMatches(ns[k], Lower(query))
    ensures LeafMatches(ns, query) == []
  {
    if ns != [] {
      assert forall k :: 0 <= k < |ns[1..]| ==> ns[1..][k] == ns[k + 1];
      NoLeafMatch(ns[1..], query);
    }
  }

  lemma {:induction false} LeafMatchesAppend(a: seq<MenuNode>, b: seq<MenuNode>, query: string)
    ensures LeafMatches(a + b, query) == LeafMatches(a, query) + LeafMatches(b, query)
  {
    if a == [] {
      assert a + b == b;
    } else {
      var h := if TitleMatches(a[0], Lower(query)) then [a[0]] else [];
      assert (a + b)[0] == a[0];
      assert (a + b)[1..] == a[1..] + b;
      assert LeafMatches(a + b, query) == h + LeafMatches(a[1..] + b, query);
      LeafMatchesAppend(a[1..], b, query);
      assert LeafMatches(a, query) == h + LeafMatches(a[1..], query);
    }
  }

  /** src/menu/resolve.rs:206-215. */
  lemma AmbiguousTitleExample(scorer: Scorer)
    ensures var t := [ TestNode("File", "File", [TestNode("Save", "File::Save", [])]),
                       TestNode("Edit", "Edit", [TestNode("Save", "Edit::Save", [])]) ];
            ResolveOutcome(t, "save", scorer) == Err(AmbiguousMatch("save", ["File::Save", "Edit::Save"]))
  {
    var t := [ TestNode("File", "File", [TestNode("Save", "File::Save", [])]),
               TestNode("Edit", "Edit", [TestNode("Save", "Edit::Save", [])]) ];
    NoAdjacentColons("save");
    assert Lower("Save") == Lower("save");
    var leaves := [TestNode("Save", "File::Save", []), TestNode("Save", "Edit::Save", [])];
    assert Leaves(t) == leaves;
    assert LeafMatches(leaves, "save") == leaves;
    assert Paths(leaves) == ["File::Save", "Edit::Save"];
  }

  /** No title of `ns` lowers to `lowered` when none has its length. */
  lemma NoTitleOfLength(ns: seq<MenuNode>, lowered: string)
    requires forall k :: 0 <= k < |ns| ==> |ns[k].title| != |lowered|
    ensures FindFirst(ns, lowered) == None
  {
    forall k | 0 <= k < |ns| ensures !TitleMatches(ns[k], lowered) {
      assert |Lower(ns[k].title)| == |ns[k].title|;
    }
  }

  /** src/menu/resolve.rs:217-222. */
  lemma NotFoundExample(a: string, b: string, scorer: Scorer)
    requires a == "File" && b == "NonExistent"
    ensures ResolveOutcome(TestTree(), a + PathSep + b, scorer) == Err(ItemNotFound(a + PathSep + b))
  {
    assert !Contains(a, PathSep) by { NoAdjacentColons(a); }
    assert !Contains(b, PathSep) by { NoAdjacentColons(b); }
    var t := TestTree();
    assert FindFirst(t, Lower(a)) == Some(0);
    var c := t[0].children;
    assert FindFirst(c, Lower(b)) == None by {
      assert |c| == 3 && |c[0].title| == 3 && |c[1].title| == 8 && |c[2].title| == 5;
      NoTitleOfLength(c, Lower(b));
    }
    TwoLevelPath(t, a, b, scorer);
  }
}
