/**
 * Project search: the SQL sort clause built from the query parameters, and the
 * two substring searches (Knuth-Morris-Pratt over titles, Boyer-Moore with the
 * bad-character rule over readmes) that decide which fetched projects are kept.
 * Both searches run over the bytes of the lowercased strings.
 */
module Search {
  import opened Wrappers

  newtype Byte = x: int | 0 <= x < 256

  // ---------------------------------------------------------------------------
  // Sort clause
  // ---------------------------------------------------------------------------

  datatype SortOrder = Relevant | Title | Likes | UploadTime

  datatype SortDirection = Ascending | Descending

  /** The query parameters that shape the SQL text (`query`, `tags` and `lang` are used elsewhere). */
  datatype SearchQuery = SearchQuery(sort: Option<SortOrder>, dir: Option<SortDirection>)

  function Column(sort: SortOrder): string
    requires sort != Relevant
  {
    match sort
    case Title => "p.title"
    case Likes => "pi.like_count"
    case UploadTime => "p.upload_time"
  }

  function DirectionKeyword(dir: SortDirection): string
  {
    match dir
    case Ascending => " ASC"
    case Descending => " DESC"
  }

  /**
   * `sort_clause`: no clause unless both a sort order and a direction are given and
   * the order is not relevance; otherwise `ORDER BY <column> ASC|DESC`.
   */
  function SortClause(q: SearchQuery): (r: string)
    ensures r == "" <==> (q.sort.None? || q.dir.None? || q.sort.value == Relevant)
    ensures r != "" ==> r == "ORDER BY " + Column(q.sort.value) + DirectionKeyword(q.dir.value)
  {
    if q.sort.None? || q.dir.None? then ""
    else match q.sort.value
      case Relevant => ""
      case _ => "ORDER BY " + Column(q.sort.value) + DirectionKeyword(q.dir.value)
  }

  // ---------------------------------------------------------------------------
  // Occurrences
  // ---------------------------------------------------------------------------

  /** `pattern` occurs in `text` starting at position `q`. */
  ghost predicate OccursAt(text: seq<Byte>, pattern: seq<Byte>, q: int)
  {
    0 <= q && q + |pattern| <= |text| && forall t :: 0 <= t < |pattern| ==> text[q + t] == pattern[t]
  }

  predicate StrictlyIncreasing(s: seq<nat>)
  {
    forall a, b :: 0 <= a < b < |s| ==> s[a] < s[b]
  }

  /** `r` lists every position where `pattern` occurs in `text`, each once, in increasing order. */
  ghost predicate IsOccurrenceList(text: seq<Byte>, pattern: seq<Byte>, r: seq<nat>)
  {
    StrictlyIncreasing(r) && forall q: int :: q in r <==> OccursAt(text, pattern, q)
  }

  // ---------------------------------------------------------------------------
  // Knuth-Morris-Pratt
  // ---------------------------------------------------------------------------

  /** `p[..k]` is a proper border of `p[..n]`: a proper prefix that is also a suffix. */
  ghost predicate Border(p: seq<Byte>, n: int, k: int)
    requires 0 <= n <= |p|
  {
    0 <= k < n && forall t :: 0 <= t < k ==> p[t] == p[n - k + t]
  }

  /** No proper border of `p[..n]` is longer than `lo`. */
  ghost predicate NoBorderAbove(p: seq<Byte>, n: int, lo: int)
    requires 0 <= n <= |p|
  {
    forall k :: lo < k < n ==> !Border(p, n, k)
  }

  /** `v` is the length of the longest proper border of `p[..i + 1]`. */
  ghost predicate IsLps(p: seq<Byte>, i: int, v: int)
    requires 0 <= i < |p|
  {
    Border(p, i + 1, v) && NoBorderAbove(p, i + 1, v)
  }

  lemma AppendIncreasing(r: seq<nat>, x: nat)
    requires StrictlyIncreasing(r) && forall y :: y in r ==> y < x
    ensures StrictlyIncreasing(r + [x])
  {
    forall a, b | 0 <= a < b < |r| + 1
      ensures (r + [x])[a] < (r + [x])[b]
    {
      if b == |r| {
        assert r[a] in r;
      }
    }
  }

  lemma BorderExtend(p: seq<Byte>, n: int, k: int)
    requires 0 <= n < |p| && Border(p, n, k) && p[k] == p[n]
    ensures Border(p, n + 1, k + 1)
  {
  }

  lemma BorderShrink(p: seq<Byte>, n: int, k: int)
    requires 0 <= n < |p| && Border(p, n + 1, k) && k >= 1
    ensures Border(p, n, k - 1) && p[k - 1] == p[n]
  {
    assert p[k - 1] == p[n + 1 - k + (k - 1)];
  }

  lemma BorderOfBorder(p: seq<Byte>, n: int, a: int, b: int)
    requires 0 <= n <= |p| && Border(p, n, a) && Border(p, n, b) && a < b
    ensures Border(p, b, a)
  {
    forall t | 0 <= t < a
      ensures p[t] == p[b - a + t]
    {
      assert p[b - a + t] == p[n - b + (b - a + t)];
    }
  }

  lemma BorderTrans(p: seq<Byte>, n: int, a: int, b: int)
    requires 0 <= n <= |p| && Border(p, n, b) && Border(p, b, a)
    ensures Border(p, n, a)
  {
    forall t | 0 <= t < a
      ensures p[t] == p[n - a + t]
    {
      assert p[b - a + t] == p[n - b + (b - a + t)];
    }
  }

  /** Two matches of prefixes of `p` ending at the same text position make the shorter a border of the longer. */
  lemma SuffixMatchIsBorder(text: seq<Byte>, p: seq<Byte>, e: int, J: int, L: int)
    requires 0 <= L < J <= |p| && J <= e <= |text|
    requires forall t :: 0 <= t < J ==> text[e - J + t] == p[t]
    requires forall t :: 0 <= t < L ==> text[e - L + t] == p[t]
    ensures Border(p, J, L)
  {
    forall t | 0 <= t < L
      ensures p[t] == p[J - L + t]
    {
      assert text[e - J + (J - L + t)] == p[J - L + t];
    }
  }

  /** Every proper border of `p[..n + 1]` shrinks to one of `p[..n]`, so the longest border of `p[..n]` bounds it. */
  lemma ShrinkBound(p: seq<Byte>, n: int, v: int)
    requires 1 <= n < |p| && IsLps(p, n - 1, v)
    ensures NoBorderAbove(p, n + 1, v + 1)
  {
    var n1 := n + 1;
    forall k | v + 1 < k < n1
      ensures !Border(p, n1, k)
    {
      if Border(p, n1, k) {
        BorderShrink(p, n, k);
      }
    }
  }

  /** `create_lps`: entry `i` is the length of the longest proper border of `pattern[..i + 1]`. */
  method CreateLps(pattern: seq<Byte>) returns (lps: seq<nat>)
    ensures |lps| == |pattern|
    ensures forall i :: 0 <= i < |pattern| ==> IsLps(pattern, i, lps[i])
    ensures forall i :: 0 <= i < |pattern| ==> lps[i] <= i
  {
    var m := |pattern|;
    var table := new nat[m](_ => 0);
    var length := 0;
    var i := 1;
    while i < m
      invariant m == 0 || 1 <= i <= m
      invariant 0 <= length < i
      invariant forall t :: 0 <= t < i && t < m ==> IsLps(pattern, t, table[t])
      invariant forall t :: i <= t < m ==> table[t] == 0
      invariant i < m ==> Border(pattern, i, length)
      invariant i < m ==> NoBorderAbove(pattern, i + 1, length + 1)
      decreases m - i, length
    {
      ghost var n := i + 1;
      if pattern[i] == pattern[length] {
        BorderExtend(pattern, i, length);
        length := length + 1;
        table[i] := length;
        i := i + 1;
        if i < m {
          ShrinkBound(pattern, i, length);
        }
      } else if length != 0 {
        var next := table[length - 1];
        BorderTrans(pattern, i, next, length);
        forall k | next + 1 < k < n
          ensures !Border(pattern, n, k)
        {
          if Border(pattern, n, k) {
            BorderShrink(pattern, i, k);
            if k - 1 < length {
              BorderOfBorder(pattern, i, k - 1, length);
            }
          }
        }
        length := next;
      } else {
        assert !Border(pattern, n, 1) by {
          if Border(pattern, n, 1) {
            BorderShrink(pattern, i, 1);
          }
        }
        i := i + 1;
        if i < m {
          ShrinkBound(pattern, i, 0);
        }
      }
    }
    lps := table[..];
  }

  /**
   * The state of `kmp_search` after reading `text[..i]`: `pattern[..j]` is matched just
   * before `i`, no occurrence starting before `i - j` is still incomplete, and `result`
   * lists, in order, exactly the occurrences that end at or before `i`.
   */
  ghost predicate KmpInv(text: seq<Byte>, p: seq<Byte>, i: int, j: int, result: seq<nat>)
  {
    && 0 <= j <= i <= |text|
    && j < |p|
    && (forall t :: 0 <= t < j ==> text[i - j + t] == p[t])
    && (forall q :: 0 <= q < i - j && OccursAt(text, p, q) ==> q + |p| <= i)
    && StrictlyIncreasing(result)
    && (forall q: int :: q in result <==> (OccursAt(text, p, q) && q + |p| <= i))
  }

  /** The next byte extends the partial match without completing the pattern. */
  lemma KmpExtend(text: seq<Byte>, p: seq<Byte>, i: int, j: int, result: seq<nat>)
    requires KmpInv(text, p, i, j, result) && i < |text| && |p| > 0
    requires text[i] == p[j] && j + 1 < |p|
    ensures KmpInv(text, p, i + 1, j + 1, result)
  {
    forall q | i + 1 - |p| <= q && q + |p| == i + 1
      ensures !OccursAt(text, p, q)
    {
    }
  }

  /** The next byte completes an occurrence; matching resumes from the pattern's longest border. */
  lemma KmpComplete(text: seq<Byte>, p: seq<Byte>, i: int, j: int, result: seq<nat>, next: int)
    requires KmpInv(text, p, i, j, result) && i < |text| && |p| > 0
    requires text[i] == p[j] && j + 1 == |p| && IsLps(p, |p| - 1, next)
    ensures KmpInv(text, p, i + 1, next, result + [i + 1 - |p|])
  {
    var m, e := |p|, i + 1;
    var start := e - m;
    assert OccursAt(text, p, start);
    AppendIncreasing(result, start);
    forall t | 0 <= t < next
      ensures text[e - next + t] == p[t]
    {
      assert p[t] == p[m - next + t];
    }
    forall q | 0 <= q < e - next && OccursAt(text, p, q)
      ensures q + m <= e
    {
      if q > start {
        SuffixMatchIsBorder(text, p, e, m, e - q);
      }
    }
  }

  /** A mismatch after a partial match falls back to the longest border of the matched prefix. */
  lemma KmpFallBack(text: seq<Byte>, p: seq<Byte>, i: int, j: int, result: seq<nat>, next: int)
    requires KmpInv(text, p, i, j, result) && i < |text| && |p| > 0
    requires text[i] != p[j] && j > 0 && IsLps(p, j - 1, next)
    ensures KmpInv(text, p, i, next, result)
  {
    forall t | 0 <= t < next
      ensures text[i - next + t] == p[t]
    {
      assert p[t] == p[j - next + t];
    }
    forall q | 0 <= q < i - next && OccursAt(text, p, q)
      ensures q + |p| <= i
    {
      if q >= i - j && q + |p| > i {
        var L := i - q;
        assert text[q + L] == p[L];
        if L < j {
          SuffixMatchIsBorder(text, p, i, j, L);
        }
      }
    }
  }

  /** A mismatch with nothing matched moves past the byte. */
  lemma KmpSkip(text: seq<Byte>, p: seq<Byte>, i: int, result: seq<nat>)
    requires KmpInv(text, p, i, 0, result) && i < |text| && |p| > 0
    requires text[i] != p[0]
    ensures KmpInv(text, p, i + 1, 0, result)
  {
    assert text[i + 0] != p[0];
  }

  /** The inputs on which `kmp_search` does not index the pattern out of bounds. */
  predicate KmpDomain(text: seq<Byte>, pattern: seq<Byte>)
  {
    |pattern| > 0 || |text| == 0
  }

  /**
   * `kmp_search`: every occurrence of a non-empty pattern, in increasing order.
   * With an empty pattern the source only returns (an empty result) when the text is
   * empty too: otherwise its first comparison reads `pattern[0]`.
   */
  method KmpSearch(text: seq<Byte>, pattern: seq<Byte>) returns (result: seq<nat>)
    requires KmpDomain(text, pattern)
    ensures |pattern| > 0 ==> IsOccurrenceList(text, pattern, result)
    ensures |pattern| == 0 ==> result == []
  {
    var lps := CreateLps(pattern);
    var m, n := |pattern|, |text|;
    result := [];
    var i, j := 0, 0;
    while i < n
      invariant m == 0 ==> n == 0 && result == []
      invariant m > 0 ==> KmpInv(text, pattern, i, j, result)
      decreases n - i, j
    {
      if text[i] == pattern[j] {
        if j + 1 == m {
          KmpComplete(text, pattern, i, j, result, lps[m - 1]);
          result := result + [i + 1 - m];
          i, j := i + 1, lps[m - 1];
        } else {
          KmpExtend(text, pattern, i, j, result);
          i, j := i + 1, j + 1;
        }
      } else if j != 0 {
        KmpFallBack(text, pattern, i, j, result, lps[j - 1]);
        j := lps[j - 1];
      } else {
        KmpSkip(text, pattern, i, result);
        i := i + 1;
      }
    }
  }

  // ---------------------------------------------------------------------------
  // Boyer-Moore, bad-character rule
  // ---------------------------------------------------------------------------

  /** `v` is the last index of byte `c` in `p`, or -1 when `c` does not occur in it. */
  ghost predicate IsLastIndex(p: seq<Byte>, c: Byte, v: int)
  {
    -1 <= v < |p| && (v >= 0 ==> p[v] == c) && forall k :: v < k < |p| ==> p[k] != c
  }

  /** `bad_character_heuristic`: 256 entries, entry `c` the last index of byte `c` in the pattern or -1. */
  method BadCharacterHeuristic(pattern: seq<Byte>) returns (badChar: seq<int>)
    ensures |badChar| == 256
    ensures forall c: Byte :: IsLastIndex(pattern, c, badChar[c])
  {
    var table := new int[256](_ => -1);
    for i := 0 to |pattern|
      invariant forall c: Byte :: IsLastIndex(pattern[..i], c, table[c])
    {
      table[pattern[i]] := i;
    }
    assert pattern[..|pattern|] == pattern;
    badChar := table[..];
  }

  /**
   * `boyer_moore_search`: every occurrence, in increasing order. The pattern may be
   * empty (it then occurs at every position, the end included) or longer than the text
   * (no occurrence).
   */
  method BoyerMooreSearch(text: seq<Byte>, pattern: seq<Byte>) returns (result: seq<nat>)
    ensures IsOccurrenceList(text, pattern, result)
    ensures |pattern| > |text| ==> result == []
  {
    var m, n := |pattern|, |text|;
    var badChar := BadCharacterHeuristic(pattern);
    result := [];
    var s := 0;
    while s <= n - m
      invariant 0 <= s
      invariant StrictlyIncreasing(result)
      invariant forall x :: x in result ==> x < s
      invariant m > n ==> result == []
      invariant forall q: int :: q in result <==> (OccursAt(text, pattern, q) && q < s)
      decreases n - m + 1 - s
    {
      var j := m - 1;
      while j >= 0 && pattern[j] == text[s + j]
        invariant -1 <= j < m
        invariant forall t :: j < t < m ==> pattern[t] == text[s + t]
      {
        j := j - 1;
      }
      if j < 0 {
        assert OccursAt(text, pattern, s);
        AppendIncreasing(result, s);
        result := result + [s];
        if s + m < n {
          var c := text[s + m];
          var shift := m - badChar[c];
          assert IsLastIndex(pattern, c, badChar[c]);
          forall q | s < q < s + shift && q + m <= n
            ensures !OccursAt(text, pattern, q)
          {
            assert pattern[s + m - q] != c;
          }
          s := s + shift;
        } else {
          s := s + 1;
        }
      } else {
        var c := text[s + j];
        var shift := if 1 > j - badChar[c] then 1 else j - badChar[c];
        assert IsLastIndex(pattern, c, badChar[c]);
        forall q | s <= q < s + shift && q + m <= n
          ensures !OccursAt(text, pattern, q)
        {
          assert pattern[s + j - q] != c;
        }
        s := s + shift;
      }
    }
    forall q | OccursAt(text, pattern, q)
      ensures q < s
    {
    }
  }

  // ---------------------------------------------------------------------------
  // The filter in `search_projects`
  // ---------------------------------------------------------------------------

  /** The fields of a fetched project that the filter reads. */
  datatype Project = Project(title: seq<Byte>, readme: seq<Byte>)

  function LowerByte(b: Byte): Byte
  {
    if 65 <= b <= 90 then b + 32 else b
  }

  /** Lowercasing, byte by byte, over ASCII letters. */
  function Lower(s: seq<Byte>): (r: seq<Byte>)
    ensures |r| == |s| && forall k :: 0 <= k < |s| ==> r[k] == LowerByte(s[k])
  {
    if s == [] then [] else [LowerByte(s[0])] + Lower(s[1..])
  }

  ghost predicate Contains(text: seq<Byte>, pattern: seq<Byte>)
  {
    exists q :: OccursAt(text, pattern, q)
  }

  /** A project is kept when the lowercased query occurs in its lowercased title or readme. */
  ghost predicate Kept(p: Project, query: seq<Byte>)
  {
    Contains(Lower(p.title), Lower(query)) || Contains(Lower(p.readme), Lower(query))
  }

  lemma NonEmptyIffContains(text: seq<Byte>, pattern: seq<Byte>, r: seq<nat>)
    requires IsOccurrenceList(text, pattern, r)
    ensures |r| > 0 <==> Contains(text, pattern)
  {
    if |r| > 0 {
      assert r[0] in r;
    }
    if Contains(text, pattern) {
      var q :| OccursAt(text, pattern, q);
      assert q in r;
    }
  }

  /**
   * The filter closure as written: the title search runs whatever the query. It is only
   * defined when the lowercased query is non-empty or the title is empty; an empty query
   * against a non-empty title makes `kmp_search` read `pattern[0]` (see `EmptyQueryLeavesKmpDomain`).
   */
  method KeepsProjectAsWritten(p: Project, query: seq<Byte>) returns (keep: bool)
    requires KmpDomain(Lower(p.title), Lower(query))
    ensures keep == Kept(p, query)
  {
    var q := Lower(query);
    var titleHits := KmpSearch(Lower(p.title), q);
    if |titleHits| > 0 {
      NonEmptyIffContains(Lower(p.title), q, titleHits);
      keep := true;
    } else {
      var readmeHits := BoyerMooreSearch(Lower(p.readme), q);
      NonEmptyIffContains(Lower(p.readme), q, readmeHits);
      if |q| == 0 {
        assert OccursAt(Lower(p.readme), q, 0);
      } else {
        NonEmptyIffContains(Lower(p.title), q, titleHits);
      }
      keep := |readmeHits| > 0;
    }
  }

  /** The query `""` against the title `"a"` falls outside the inputs `kmp_search` can handle. */
  lemma EmptyQueryLeavesKmpDomain()
    ensures !KmpDomain(Lower([97]), Lower([]))
  {
  }

  /**
   * The filter closure with the title search skipped for an empty query, which every
   * project contains: the kept projects are the same as intended, and no input panics.
   */
  method KeepsProject(p: Project, query: seq<Byte>) returns (keep: bool)
    ensures keep == Kept(p, query)
  {
    var q := Lower(query);
    var titleHits: seq<nat> := [];
    if |q| > 0 {
      titleHits := KmpSearch(Lower(p.title), q);
      NonEmptyIffContains(Lower(p.title), q, titleHits);
    }
    if |titleHits| > 0 {
      keep := true;
    } else {
      var readmeHits := BoyerMooreSearch(Lower(p.readme), q);
      NonEmptyIffContains(Lower(p.readme), q, readmeHits);
      if |q| == 0 {
        assert OccursAt(Lower(p.readme), q, 0);
      }
      keep := |readmeHits| > 0;
    }
  }

  /** The projects of `ps` that are kept, in their original order. */
  ghost function Filtered(ps: seq<Project>, query: seq<Byte>): (r: seq<Project>)
    ensures |r| <= |ps|
    ensures forall x :: x in r <==> x in ps && Kept(x, query)
  {
    if ps == [] then []
    else
      var last := ps[|ps| - 1];
      Filtered(ps[..|ps| - 1], query) + if Kept(last, query) then [last] else []
  }

  /** The `filter(...).collect()` over the fetched projects. */
  method FilterProjects(projects: seq<Project>, query: seq<Byte>) returns (kept: seq<Project>)
    ensures kept == Filtered(projects, query)
    ensures forall x :: x in kept <==> x in projects && Kept(x, query)
  {
    kept := [];
    for i := 0 to |projects|
      invariant kept == Filtered(projects[..i], query)
    {
      assert projects[..i + 1][..i] == projects[..i];
      var keep := KeepsProject(projects[i], query);
      if keep {
        kept := kept + [projects[i]];
      }
    }
    assert projects[..|projects|] == projects;
  }
}
