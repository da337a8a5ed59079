/**
 * The menu path codec (src/menu/tree.rs, lines 16-78): item paths are the
 * titles from the root down, joined by the two-character separator `::`;
 * a literal `::` inside a title is written `\::`.
 *
 * The Rust splitter scans UTF-8 bytes.  The separator and the backslash are
 * ASCII and no byte of a multi-byte UTF-8 sequence is ASCII, so scanning the
 * characters of the string, as this model does, finds the same split points.
 */
module PathCodec {
  import opened Strings

  const PathSep: string := "::"
  const EscapedSep: string := "\\::"

  /** Escape each literal `::` of a title as `\::`. */
  function EscapeTitle(title: string): (r: string)
    ensures !Contains(title, PathSep) ==> r == title
  {
    if Contains(title, PathSep) then Replace(title, PathSep, EscapedSep) else title
  }

  /** Undo the escaping within one path segment: `\::` becomes `::`. */
  function UnescapeSegment(seg: string): (r: string)
    ensures !Contains(seg, EscapedSep) ==> r == seg
  {
    if Contains(seg, EscapedSep) then Replace(seg, EscapedSep, PathSep) else seg
  }

  /** Rust's `join` on a list of strings. */
  function Join(segs: seq<string>, sep: string): string
  {
    if |segs| == 0 then ""
    else if |segs| == 1 then segs[0]
    else segs[0] + sep + Join(segs[1..], sep)
  }

  /** The two bytes at `i` are the separator `::`. */
  predicate SepAt(p: string, i: nat)
  {
    i + 2 <= |p| && p[i] == ':' && p[i + 1] == ':'
  }

  lemma SepAtOccurs(p: string, i: nat)
    ensures SepAt(p, i) <==> OccursAt(p, PathSep, i)
  {
    if i + 2 <= |p| {
      assert p[i..i + 2][0] == p[i] && p[i..i + 2][1] == p[i + 1];
      if SepAt(p, i) {
        assert p[i..i + 2] == PathSep;
      }
    }
  }

  /** The split performed by the scanner of `split_path` from scanner state
      (`start`, `i`): `start` is where the current segment began and `i` the
      byte being looked at. */
  function SplitFrom(p: string, start: nat, i: nat): (segs: seq<string>)
    requires start <= i <= |p|
    ensures |segs| >= 1
    decreases |p| - i
  {
    if i == |p| then [p[start..]]
    else if SepAt(p, i) then
      if i > 0 && p[i - 1] == '\\' then SplitFrom(p, start, i + 2)
      else [p[start..i]] + SplitFrom(p, i + 2, i + 2)
    else SplitFrom(p, start, i + 1)
  }

  /** The segments `split_path` returns for `p`. */
  function PathSegments(p: string): seq<string>
  {
    SplitFrom(p, 0, 0)
  }

  /** Split a path on its unescaped separators (the byte-scanning loop of `split_path`). */
  method SplitPath(path: string) returns (segments: seq<string>)
    ensures segments == PathSegments(path)
    ensures |segments| >= 1
    ensures Join(segments, PathSep) == path
    ensures BackslashOnlyAtEnd(segments)
  {
    segments := [];
    var start, i := 0, 0;
    while i < |path|
      invariant start <= i <= |path|
      invariant segments + SplitFrom(path, start, i) == PathSegments(path)
    {
      if i + 2 <= |path| && path[i] == ':' && path[i + 1] == ':' {
        if i > 0 && path[i - 1] == '\\' {
          i := i + 2;
        } else {
          segments := segments + [path[start..i]];
          i := i + 2;
          start := i;
        }
      } else {
        i := i + 1;
      }
    }
    segments := segments + [path[start..]];
    SplitJoin(path, 0, 0);
    SplitNeverAfterBackslash(path, 0, 0);
  }

  predicate EndsWithBackslash(s: string)
  {
    |s| > 0 && s[|s| - 1] == '\\'
  }

  /** No segment but the last ends with a backslash. */
  predicate BackslashOnlyAtEnd(segs: seq<string>)
  {
    forall k :: 0 <= k < |segs| - 1 ==> !EndsWithBackslash(segs[k])
  }

  lemma JoinCons(s: string, rest: seq<string>, sep: string)
    requires |rest| >= 1
    ensures Join([s] + rest, sep) == s + sep + Join(rest, sep)
  {
    assert ([s] + rest)[1..] == rest;
  }

  /** A suffix of `p` cut in three at `b` and `c`. */
  lemma SliceThree(p: string, a: nat, b: nat, c: nat)
    requires a <= b <= c <= |p|
    ensures p[a..] == p[a..b] + p[b..c] + p[c..]
  {
  }

  /** The pieces of a suffix of `p` that is the concatenation `x + y + z`. */
  lemma SlicesOfConcat(p: string, start: nat, x: string, y: string, z: string)
    requires start <= |p| && p[start..] == x + y + z
    ensures start + |x| + |y| + |z| == |p|
    ensures p[start..start + |x|] == x
    ensures p[start + |x|..start + |x| + |y|] == y
    ensures p[start + |x| + |y|..] == z
  {
    var u := p[start..];
    assert p[start..start + |x|] == u[..|x|];
    assert p[start + |x|..start + |x| + |y|] == u[|x|..|x| + |y|];
    assert p[start + |x| + |y|..] == u[|x| + |y|..];
  }

  /** Joining the segments with `::` gives back the scanned text. */
  lemma {:induction false} SplitJoin(p: string, start: nat, i: nat)
    requires start <= i <= |p|
    ensures Join(SplitFrom(p, start, i), PathSep) == p[start..]
    decreases |p| - i
  {
    if i == |p| {
    } else if SepAt(p, i) {
      if i > 0 && p[i - 1] == '\\' {
        assert SplitFrom(p, start, i) == SplitFrom(p, start, i + 2);
        SplitJoin(p, start, i + 2);
      } else {
        var rest := SplitFrom(p, i + 2, i + 2);
        assert SplitFrom(p, start, i) == [p[start..i]] + rest;
        SplitJoin(p, i + 2, i + 2);
        JoinCons(p[start..i], rest, PathSep);
        SepAtOccurs(p, i);
        SliceThree(p, start, i, i + 2);
      }
    } else {
      assert SplitFrom(p, start, i) == SplitFrom(p, start, i + 1);
      SplitJoin(p, start, i + 1);
    }
  }

  /** A `::` preceded by a backslash is never a split point: no segment but
      the last ends with a backslash. */
  lemma {:induction false} SplitNeverAfterBackslash(p: string, start: nat, i: nat)
    requires start <= i <= |p|
    ensures BackslashOnlyAtEnd(SplitFrom(p, start, i))
    decreases |p| - i
  {
    if i == |p| {
    } else if SepAt(p, i) {
      if i > 0 && p[i - 1] == '\\' {
        SplitNeverAfterBackslash(p, start, i + 2);
      } else {
        SplitNeverAfterBackslash(p, i + 2, i + 2);
        var rest := SplitFrom(p, i + 2, i + 2);
        var segs := [p[start..i]] + rest;
        assert SplitFrom(p, start, i) == segs;
        forall k | 0 <= k < |segs| - 1 ensures !EndsWithBackslash(segs[k]) {
          if k > 0 {
            assert segs[k] == rest[k - 1];
          } else {
            assert segs[0] == p[start..i];
            assert start < i ==> p[start..i][i - start - 1] == p[i - 1];
          }
        }
      }
    } else {
      SplitNeverAfterBackslash(p, start, i + 1);
    }
  }

  /** `split_path` never returns an empty list. */
  lemma SplitNonEmpty(p: string)
    ensures |PathSegments(p)| >= 1
  {
  }

  /** `Replace(_, "::", "\\::")` never produces text that starts with `::`. */
  lemma {:induction false} EscapedNeverStartsWithSep(x: string)
    ensures !OccursAt(Replace(x, PathSep, EscapedSep), PathSep, 0)
  {
    if |x| > 0 && !OccursAt(x, PathSep, 0) && |x| > 1 {
      var tail := x[1..];
      if !OccursAt(tail, PathSep, 0) {
        assert Replace(tail, PathSep, EscapedSep)[0] == x[1];
      }
    }
  }

  lemma ConsNoEscapedSep(c: char, rt: string)
    requires !OccursAt(rt, PathSep, 0)
    ensures !OccursAt([c] + rt, EscapedSep, 0)
  {
    if |rt| >= 2 {
      assert ([c] + rt)[1..3] == rt[..2];
    }
  }

  /** Unescaping inverts the full replacement, whatever the text. */
  lemma {:induction false} UnescapeInvertsReplace(t: string)
    ensures Replace(Replace(t, PathSep, EscapedSep), EscapedSep, PathSep) == t
    decreases |t|
  {
    if |t| == 0 {
    } else if OccursAt(t, PathSep, 0) {
      var r := Replace(t, PathSep, EscapedSep);
      assert r == EscapedSep + Replace(t[2..], PathSep, EscapedSep);
      assert OccursAt(r, EscapedSep, 0);
      assert r[3..] == Replace(t[2..], PathSep, EscapedSep);
      UnescapeInvertsReplace(t[2..]);
      assert t == PathSep + t[2..];
    } else {
      var rt := Replace(t[1..], PathSep, EscapedSep);
      var r := Replace(t, PathSep, EscapedSep);
      assert r == [t[0]] + rt;
      EscapedNeverStartsWithSep(t[1..]);
      ConsNoEscapedSep(t[0], rt);
      assert r[1..] == rt;
      UnescapeInvertsReplace(t[1..]);
      assert t == [t[0]] + t[1..];
    }
  }

  /** Escaping is the full replacement of `::` by `\\::` (the borrowed case is an optimisation). */
  lemma EscapeIsReplace(t: string)
    ensures EscapeTitle(t) == Replace(t, PathSep, EscapedSep)
  {
    if !Contains(t, PathSep) {
      ReplaceAbsent(t, PathSep, EscapedSep);
    }
  }

  /** `unescape_segment` undoes `escape_title`: the escaping is lossless. */
  lemma EscapeRoundTrip(t: string)
    ensures UnescapeSegment(EscapeTitle(t)) == t
  {
    var e := EscapeTitle(t);
    EscapeIsReplace(t);
    UnescapeInvertsReplace(t);
    if !Contains(e, EscapedSep) {
      ReplaceAbsent(e, EscapedSep, PathSep);
    }
  }

  /** Escape every title of a list. */
  function EscapeAll(ts: seq<string>): (r: seq<string>)
    ensures |r| == |ts| && forall i :: 0 <= i < |ts| ==> r[i] == EscapeTitle(ts[i])
  {
    seq(|ts|, i requires 0 <= i < |ts| => EscapeTitle(ts[i]))
  }

  lemma EscapeAllCons(ts: seq<string>)
    requires |ts| >= 1
    ensures EscapeAll(ts) == [EscapeTitle(ts[0])] + EscapeAll(ts[1..])
  {
    var e0, e1 := EscapeAll(ts), EscapeAll(ts[1..]);
    forall i | 0 < i < |ts| ensures e0[i] == e1[i - 1] {
      assert ts[1..][i - 1] == ts[i];
    }
    assert e0 == [e0[0]] + e1;
  }

  /** Unescape every segment of a list. */
  function UnescapeAll(segs: seq<string>): (r: seq<string>)
    ensures |r| == |segs| && forall i :: 0 <= i < |segs| ==> r[i] == UnescapeSegment(segs[i])
  {
    seq(|segs|, i requires 0 <= i < |segs| => UnescapeSegment(segs[i]))
  }

  /** A title whose path round-trips: it does not end with `:` or `\\`.  (The
      splitter looks back a single byte, so a title ending in `\\` makes the
      following separator look escaped, and one ending in `:` makes the
      separator start one byte early.) */
  predicate RoundTripSafe(t: string)
  {
    |t| > 0 ==> t[|t| - 1] != ':' && t[|t| - 1] != '\\'
  }

  lemma FirstCharOfReplace(y: string)
    requires |y| > 0
    ensures |Replace(y, PathSep, EscapedSep)| > 0
    ensures Replace(y, PathSep, EscapedSep)[0] == if OccursAt(y, PathSep, 0) then '\\' else y[0]
  {
  }

  /** The full replacement of `::` by `\\::`, which `EscapeTitle` equals. */
  function Esc(x: string): string
  {
    Replace(x, PathSep, EscapedSep)
  }

  /** The scanner at an unescaped separator or at the end of the text closes the segment. */
  lemma ScanAtBoundary(p: string, start: nat, q: nat)
    requires start <= q <= |p|
    requires q == |p| || OccursAt(p, PathSep, q)
    requires q == 0 || q == |p| || p[q - 1] != '\\'
    ensures SplitFrom(p, start, q) == ClosedAt(p, start, q)
  {
    if q == |p| {
      assert p[start..q] == p[start..];
    } else {
      SepAtOccurs(p, q);
    }
  }

  /** Scanning the escaped form of (a suffix `x` of) a title that sits in `p`
      at `q` and is followed by the end of `p` or by a separator: the scanner
      finds no split point inside it and splits right after it.  The title
      must be round-trip safe unless it runs to the end of `p`. */
  lemma {:induction false} ScanEscaped(p: string, start: nat, q: nat, x: string)
    requires start <= q
    requires q + |Esc(x)| <= |p| && p[q..q + |Esc(x)|] == Esc(x)
    requires q + |Esc(x)| == |p| || OccursAt(p, PathSep, q + |Esc(x)|)
    requires RoundTripSafe(x) || q + |Esc(x)| == |p|
    requires |x| == 0 ==> q == 0 || q == |p| || p[q - 1] != '\\'
    ensures SplitFrom(p, start, q) == ClosedAt(p, start, q + |Esc(x)|)
    decreases |x|
  {
    if |x| == 0 {
      assert Esc(x) == "";
      ScanAtBoundary(p, start, q);
    } else if OccursAt(x, PathSep, 0) {
      ScanEscapedSep(p, start, q, x);
      assert q + |Esc(x)| == q + 3 + |Esc(x[2..])|;
      ScanEscaped(p, start, q + 3, x[2..]);
    } else {
      ScanPlainChar(p, start, q, x);
      assert q + |Esc(x)| == q + 1 + |Esc(x[1..])|;
      ScanEscaped(p, start, q + 1, x[1..]);
    }
  }

  /** The split when the scanner, in a segment begun at `start`, closes it
      at `e`: at the end of the text or at a separator. */
  function ClosedAt(p: string, start: nat, e: nat): seq<string>
    requires start <= e <= |p|
    requires e == |p| || e + 2 <= |p|
  {
    [p[start..e]] + (if e == |p| then [] else SplitFrom(p, e + 2, e + 2))
  }

  /** An escaped separator `\\::` is skipped as a whole. */
  lemma ScanEscapedSep(p: string, start: nat, q: nat, x: string)
    requires start <= q && OccursAt(x, PathSep, 0)
    requires q + |Esc(x)| <= |p| && p[q..q + |Esc(x)|] == Esc(x)
    ensures Esc(x) == EscapedSep + Esc(x[2..])
    ensures q + 3 + |Esc(x[2..])| <= |p| && p[q + 3..q + 3 + |Esc(x[2..])|] == Esc(x[2..])
    ensures p[q + 2] != '\\'
    ensures SplitFrom(p, start, q) == SplitFrom(p, start, q + 3)
  {
    var r2 := Esc(x[2..]);
    var e := Esc(x);
    assert e == EscapedSep + r2;
    var w := p[q..q + |e|];
    assert w == e;
    assert p[q] == w[0] == '\\';
    assert p[q + 1] == w[1] == ':';
    assert p[q + 2] == w[2] == ':';
    assert p[q + 3..q + 3 + |r2|] == e[3..];
    assert !SepAt(p, q);
    assert SepAt(p, q + 1);
  }

  /** A character that does not start a `::` of the title is never a split point. */
  lemma ScanPlainChar(p: string, start: nat, q: nat, x: string)
    requires start <= q && |x| > 0 && !OccursAt(x, PathSep, 0)
    requires q + |Esc(x)| <= |p| && p[q..q + |Esc(x)|] == Esc(x)
    requires RoundTripSafe(x) || q + |Esc(x)| == |p|
    ensures Esc(x) == [x[0]] + Esc(x[1..])
    ensures q + 1 + |Esc(x[1..])| <= |p| && p[q + 1..q + 1 + |Esc(x[1..])|] == Esc(x[1..])
    ensures RoundTripSafe(x) ==> RoundTripSafe(x[1..])
    ensures RoundTripSafe(x) && |x| == 1 ==> p[q] != '\\'
    ensures SplitFrom(p, start, q) == SplitFrom(p, start, q + 1)
  {
    var r1 := Esc(x[1..]);
    assert Esc(x) == [x[0]] + r1;
    assert p[q] == x[0];
    if |x| >= 2 {
      FirstCharOfReplace(x[1..]);
      assert p[q + 1] == r1[0];
    }
    assert p[q + 1..q + 1 + |r1|] == Esc(x)[1..];
  }

  /** The last escaped title of a path is its last segment, whatever it ends with. */
  lemma ScanLastTitle(p: string, start: nat, t: string)
    requires start <= |p| && p[start..] == Esc(t)
    requires start == 0 || p[start - 1] != '\\'
    ensures SplitFrom(p, start, start) == [Esc(t)]
  {
    var e := start + |Esc(t)|;
    assert p[start..e] == Esc(t);
    ScanEscaped(p, start, start, t);
    assert ClosedAt(p, start, e) == [p[start..e]];
  }

  /** An escaped title followed by a separator is one segment, and the
      scan carries on right after the separator. */
  lemma ScanInnerTitle(p: string, start: nat, t: string, tailText: string)
    requires RoundTripSafe(t)
    requires start <= |p| && p[start..] == Esc(t) + PathSep + tailText
    requires start == 0 || p[start - 1] != '\\'
    ensures start + |Esc(t)| + 2 <= |p|
    ensures p[start + |Esc(t)| + 2..] == tailText
    ensures p[start + |Esc(t)| + 1] != '\\'
    ensures SplitFrom(p, start, start) == [Esc(t)] + SplitFrom(p, start + |Esc(t)| + 2, start + |Esc(t)| + 2)
  {
    var e := start + |Esc(t)|;
    SlicesOfConcat(p, start, Esc(t), PathSep, tailText);
    assert p[e + 1] == p[e..e + 2][1];
    ScanEscaped(p, start, start, t);
    assert ClosedAt(p, start, e) == [Esc(t)] + SplitFrom(p, e + 2, e + 2);
  }

  /** The first title of a joined list of two or more escaped titles. */
  lemma ScanListHead(p: string, start: nat, ts: seq<string>)
    requires |ts| >= 2 && RoundTripSafe(ts[0])
    requires start <= |p| && p[start..] == Join(EscapeAll(ts), PathSep)
    requires start == 0 || p[start - 1] != '\\'
    ensures start + |Esc(ts[0])| + 2 <= |p|
    ensures p[start + |Esc(ts[0])| + 2..] == Join(EscapeAll(ts[1..]), PathSep)
    ensures p[start + |Esc(ts[0])| + 1] != '\\'
    ensures SplitFrom(p, start, start) == [Esc(ts[0])] + SplitFrom(p, start + |Esc(ts[0])| + 2, start + |Esc(ts[0])| + 2)
  {
    EscapeIsReplace(ts[0]);
    EscapeAllCons(ts);
    JoinCons(Esc(ts[0]), EscapeAll(ts[1..]), PathSep);
    ScanInnerTitle(p, start, ts[0], Join(EscapeAll(ts[1..]), PathSep));
  }

  /** Splitting a joined list of escaped titles gives back the escaped titles. */
  lemma {:induction false} ScanEscapedList(p: string, start: nat, ts: seq<string>)
    requires |ts| >= 1
    requires forall k :: 0 <= k < |ts| - 1 ==> RoundTripSafe(ts[k])
    requires start <= |p| && p[start..] == Join(EscapeAll(ts), PathSep)
    requires start == 0 || p[start - 1] != '\\'
    ensures SplitFrom(p, start, start) == EscapeAll(ts)
    decreases |ts|
  {
    var t := ts[0];
    EscapeIsReplace(t);
    EscapeAllCons(ts);
    var rest := ts[1..];
    if |ts| == 1 {
      assert EscapeAll(rest) == [];
      ScanLastTitle(p, start, t);
    } else {
      ScanListHead(p, start, ts);
      forall k | 0 <= k < |rest| - 1 ensures RoundTripSafe(rest[k]) {
        assert rest[k] == ts[k + 1];
      }
      ScanEscapedList(p, start + |Esc(t)| + 2, rest);
    }
  }

  /** The path round-trip: joining escaped titles with `::`, splitting the
      result and unescaping each segment gives back the titles, provided the
      list is not empty and no title but the last ends with `:` or `\\`. */
  lemma PathRoundTrip(ts: seq<string>)
    requires |ts| >= 1
    requires forall k :: 0 <= k < |ts| - 1 ==> RoundTripSafe(ts[k])
    ensures UnescapeAll(PathSegments(Join(EscapeAll(ts), PathSep))) == ts
  {
    var p := Join(EscapeAll(ts), PathSep);
    ScanEscapedList(p, 0, ts);
    forall k | 0 <= k < |ts| ensures UnescapeSegment(EscapeTitle(ts[k])) == ts[k] {
      EscapeRoundTrip(ts[k]);
    }
  }

  /** A string with no two adjacent colons contains no separator. */
  lemma NoAdjacentColons(s: string)
    requires forall i :: 0 <= i < |s| - 1 ==> s[i] != ':' || s[i + 1] != ':'
    ensures !Contains(s, PathSep)
  {
    forall i: nat | i <= |s| ensures !OccursAt(s, PathSep, i) {
      if i + 2 <= |s| {
        assert s[i..i + 2][0] == s[i] && s[i..i + 2][1] == s[i + 1];
      }
    }
  }

  /** Why the restriction is needed: a title ending in `:` moves the split. */
  lemma TrailingColonBreaksRoundTrip()
    ensures PathSegments(Join(EscapeAll(["a:", "b"]), PathSep)) == ["a", ":b"]
  {
    NoAdjacentColons("a:");
    NoAdjacentColons("b");
    assert EscapeAll(["a:", "b"]) == ["a:", "b"];
    var p := "a:::b";
    assert Join(["a:", "b"], PathSep) == p;
    assert SplitFrom(p, 0, 0) == SplitFrom(p, 0, 1);
    assert SepAt(p, 1) && p[0..1] == "a";
    assert SplitFrom(p, 0, 1) == ["a"] + SplitFrom(p, 3, 3);
    assert SplitFrom(p, 3, 3) == SplitFrom(p, 3, 4);
    assert SplitFrom(p, 3, 4) == SplitFrom(p, 3, 5) == [":b"];
  }

  /** Why the restriction is needed: a title ending in `\\` hides the separator. */
  lemma TrailingBackslashBreaksRoundTrip()
    ensures PathSegments(Join(EscapeAll(["a\\", "b"]), PathSep)) == ["a\\::b"]
  {
    NoAdjacentColons("a\\");
    NoAdjacentColons("b");
    assert EscapeAll(["a\\", "b"]) == ["a\\", "b"];
    var p := "a\\::b";
    assert Join(["a\\", "b"], PathSep) == p;
    assert SplitFrom(p, 0, 0) == SplitFrom(p, 0, 1) == SplitFrom(p, 0, 2);
    assert SplitFrom(p, 0, 2) == SplitFrom(p, 0, 4);
    assert SplitFrom(p, 0, 4) == SplitFrom(p, 0, 5) == [p];
  }

  /** The last title is not restricted: `a::b:` and `a\\` round-trip. */
  lemma LastTitleIsUnrestricted()
    ensures UnescapeAll(PathSegments(Join(EscapeAll(["a", "b:"]), PathSep))) == ["a", "b:"]
    ensures UnescapeAll(PathSegments(Join(EscapeAll(["a\\"]), PathSep))) == ["a\\"]
  {
    PathRoundTrip(["a", "b:"]);
    PathRoundTrip(["a\\"]);
  }
}
