/** The fuzzy match score the table list and the row filter rank candidates by.
    Both variants of `fuzzyScore` in the current browser are one definition here:
    the row scorer also counts a preceding space as a word boundary, the table
    scorer does not (`spaceIsBoundary`). */
module Fuzzy {
  import opened GoText

  /** A byte after which a match earns the word-boundary bonus. */
  predicate IsBoundary(c: char, spaceIsBoundary: bool) {
    c == '_' || c == '-' || (spaceIsBoundary && c == ' ')
  }

  /** `pos` lists, in increasing order, text offsets at which `p` (from its byte `j` on)
      can be read off `t` at or after offset `i`. */
  ghost predicate EmbedsFrom(t: string, p: string, pos: seq<nat>, i: nat, j: nat)
    requires j <= |p|
  {
    && |pos| == |p| - j
    && (forall k :: 0 <= k < |pos| ==> i <= pos[k] < |t| && t[pos[k]] == p[j + k])
    && (forall k :: 0 < k < |pos| ==> pos[k - 1] < pos[k])
  }

  /** `p` is a (not necessarily contiguous) subsequence of `t`. */
  ghost predicate IsSubsequence(t: string, p: string) {
    exists pos :: EmbedsFrom(t, p, pos, 0, 0)
  }

  /** The offsets the greedy left-to-right scan matches, scanning `t` from `i`
      and `p` from `j`: each pattern byte is taken at its first occurrence
      after the previous match. */
  function Greedy(t: string, p: string, i: nat, j: nat): (pos: seq<nat>)
    requires i <= |t| && j <= |p|
    ensures |pos| <= |p| - j
    ensures forall k :: 0 <= k < |pos| ==> i <= pos[k] < |t| && t[pos[k]] == p[j + k]
    ensures forall k :: 0 < k < |pos| ==> pos[k - 1] < pos[k]
    decreases |t| - i
  {
    if j == |p| || i == |t| then []
    else if t[i] == p[j] then [i] + Greedy(t, p, i + 1, j + 1)
    else Greedy(t, p, i + 1, j)
  }

  /** Points for one match at offset `q` that is the `run`-th byte of a run of
      adjacent matches: 10, plus 5 per byte of the run from the second byte on,
      plus 20 at the start of the text or after a boundary byte. */
  function MatchPoints(t: string, q: nat, run: nat, spaceIsBoundary: bool): (pts: int)
    requires q < |t|
    ensures 10 <= pts <= 30 + 5 * run
    ensures var bonus := if q == 0 || IsBoundary(t[q - 1], spaceIsBoundary) then 20 else 0;
      && (run <= 1 ==> pts == 10 + bonus)
      && (run > 1 ==> pts == 10 + 5 * run + bonus)
  {
    10 + (if run > 1 then 5 * run else 0)
    + (if q == 0 || IsBoundary(t[q - 1], spaceIsBoundary) then 20 else 0)
  }

  /** Points for the matches at `pos`, given that the previous match was at `prev`
      and ended a run of `run` adjacent matches. */
  function RunPoints(t: string, pos: seq<nat>, prev: int, run: nat, spaceIsBoundary: bool): int
    requires forall k :: 0 <= k < |pos| ==> pos[k] < |t|
  {
    if pos == [] then 0
    else
      var r := if pos[0] == prev + 1 then run + 1 else 1;
      MatchPoints(t, pos[0], r, spaceIsBoundary) + RunPoints(t, pos[1..], pos[0], r, spaceIsBoundary)
  }

  /** The score of `pattern` against `text`, case by case in the order the scorer
      tests them: empty pattern 1, pattern longer than text 0, equal 1000,
      prefix 900, substring 800, otherwise the greedy scan's points plus
      100 - len(text), or 0 when the scan does not match every pattern byte. */
  function Score(text: string, pattern: string, spaceIsBoundary: bool): int {
    if pattern == [] then 1
    else if |pattern| > |text| then 0
    else if text == pattern then 1000
    else if HasPrefix(text, pattern) then 900
    else if Contains(text, pattern) then 800
    else
      var pos := Greedy(text, pattern, 0, 0);
      if |pos| < |pattern| then 0
      else RunPoints(text, pos, -1, 0, spaceIsBoundary) + 100 - |text|
  }

  /** `fuzzyScore`: the early cases, then one pass over the text with a counter of
      adjacent matches. */
  method FuzzyScore(text: string, pattern: string, spaceIsBoundary: bool) returns (score: int)
    ensures score == Score(text, pattern, spaceIsBoundary)
  {
    if pattern == [] {
      return 1;
    }
    if |pattern| > |text| {
      return 0;
    }
    if text == pattern {
      return 1000;
    }
    if HasPrefix(text, pattern) {
      return 900;
    }
    if Contains(text, pattern) {
      return 800;
    }
    ghost var all := Greedy(text, pattern, 0, 0);
    score := 0;
    var textIdx := 0;
    var patternIdx := 0;
    var consecutive := 0;
    ghost var prev: int := -1;
    ghost var run: nat := 0;
    while textIdx < |text| && patternIdx < |pattern|
      invariant 0 <= textIdx <= |text| && 0 <= patternIdx <= |pattern|
      invariant prev < textIdx
      invariant consecutive == if prev == textIdx - 1 then run else 0
      invariant |all| == patternIdx + |Greedy(text, pattern, textIdx, patternIdx)|
      invariant score + RunPoints(text, Greedy(text, pattern, textIdx, patternIdx), prev, run, spaceIsBoundary)
                == RunPoints(text, all, -1, 0, spaceIsBoundary)
      decreases |text| - textIdx
    {
      if text[textIdx] == pattern[patternIdx] {
        score := score + 10;
        consecutive := consecutive + 1;
        if consecutive > 1 {
          score := score + consecutive * 5;
        }
        if textIdx == 0 || text[textIdx - 1] == '_' || text[textIdx - 1] == '-'
           || (spaceIsBoundary && text[textIdx - 1] == ' ') {
          score := score + 20;
        }
        prev, run := textIdx, consecutive;
        patternIdx := patternIdx + 1;
      } else {
        consecutive := 0;
      }
      textIdx := textIdx + 1;
    }
    if patternIdx < |pattern| {
      return 0;
    }
    score := score + (100 - |text|);
  }

  /** Whatever can be read off from offset `i` on, the greedy scan from `i` finds in full. */
  lemma {:induction false} GreedyFindsEmbedding(t: string, p: string, pos: seq<nat>, i: nat, j: nat)
    requires i <= |t| && j <= |p|
    requires EmbedsFrom(t, p, pos, i, j)
    ensures |Greedy(t, p, i, j)| == |p| - j
    decreases |t| - i
  {
    if j < |p| {
      assert i <= pos[0] < |t|;
      if t[i] == p[j] {
        var rest := pos[1..];
        assert EmbedsFrom(t, p, rest, i + 1, j + 1) by {
          forall k | 0 <= k < |rest|
            ensures i + 1 <= rest[k]
          {
            assert pos[0] < pos[k + 1] by { Increasing(pos, 0, k + 1); }
          }
        }
        GreedyFindsEmbedding(t, p, rest, i + 1, j + 1);
      } else {
        assert pos[0] != i;
        assert EmbedsFrom(t, p, pos, i + 1, j) by {
          forall k | 0 <= k < |pos|
            ensures i + 1 <= pos[k]
          {
            if k > 0 { Increasing(pos, 0, k); }
          }
        }
        GreedyFindsEmbedding(t, p, pos, i + 1, j);
      }
    }
  }

  lemma {:induction false} Increasing(pos: seq<nat>, a: nat, b: nat)
    requires forall k :: 0 < k < |pos| ==> pos[k - 1] < pos[k]
    requires a < b < |pos|
    ensures pos[a] < pos[b]
    decreases b - a
  {
    if a + 1 < b {
      Increasing(pos, a, b - 1);
    }
  }

  /** The greedy scan matches every pattern byte exactly when the pattern is a subsequence. */
  lemma GreedyIffSubsequence(t: string, p: string)
    ensures |Greedy(t, p, 0, 0)| == |p| <==> IsSubsequence(t, p)
  {
    var g := Greedy(t, p, 0, 0);
    if |g| == |p| {
      assert EmbedsFrom(t, p, g, 0, 0);
    }
    if IsSubsequence(t, p) {
      var pos :| EmbedsFrom(t, p, pos, 0, 0);
      GreedyFindsEmbedding(t, p, pos, 0, 0);
    }
  }

  /** A substring occurrence is in particular a subsequence. */
  lemma OccurrenceIsSubsequence(t: string, p: string, j: nat)
    requires OccursAt(t, p, j)
    ensures IsSubsequence(t, p)
  {
    var pos := seq(|p|, k requires 0 <= k < |p| => j + k);
    forall k | 0 <= k < |pos|
      ensures t[pos[k]] == p[k]
    {
      assert t[j..j + |p|][k] == p[k];
    }
    assert EmbedsFrom(t, p, pos, 0, 0);
  }

  /** A non-empty pattern that is not a subsequence of the text scores 0. */
  lemma NotSubsequenceScoresZero(t: string, p: string, spaceIsBoundary: bool)
    requires p != [] && !IsSubsequence(t, p)
    ensures Score(t, p, spaceIsBoundary) == 0
  {
    if |p| <= |t| {
      if t == p || HasPrefix(t, p) {
        OccurrenceIsSubsequence(t, p, 0);
      } else if Contains(t, p) {
        OccurrenceIsSubsequence(t, p, Index(t, p));
      }
      GreedyIffSubsequence(t, p);
    }
  }

  /** Lower and upper bounds on the points of a scan: at least 10 per match, at most
      30 plus five times the longest possible run per match. */
  lemma {:induction false} RunPointsBounds(t: string, pos: seq<nat>, prev: int, run: nat, spaceIsBoundary: bool)
    requires forall k :: 0 <= k < |pos| ==> pos[k] < |t|
    ensures 10 * |pos| <= RunPoints(t, pos, prev, run, spaceIsBoundary)
    ensures RunPoints(t, pos, prev, run, spaceIsBoundary) <= |pos| * (30 + 5 * (run + |pos|))
    decreases |pos|
  {
    if pos != [] {
      var r := if pos[0] == prev + 1 then run + 1 else 1;
      var n := |pos| - 1;
      RunPointsBounds(t, pos[1..], pos[0], r, spaceIsBoundary);
      var head := MatchPoints(t, pos[0], r, spaceIsBoundary);
      var tail := RunPoints(t, pos[1..], pos[0], r, spaceIsBoundary);
      var most := 30 + 5 * (run + |pos|);
      assert r <= run + 1;
      assert head <= most;
      assert tail <= n * (30 + 5 * (r + n));
      assert n * (30 + 5 * (r + n)) <= n * most by {
        assert r + n <= run + |pos|;
        MulMonotone(n, 30 + 5 * (r + n), most);
      }
      assert (n + 1) * most == n * most + most;
    }
  }

  lemma MulMonotone(n: nat, a: int, b: int)
    requires a <= b
    ensures n * a <= n * b
  {
  }

  /** In the subsequence case the score is the scan's points plus 100 - len(text), and
      lies between 10 per pattern byte and 30 + 5·len(pattern) per pattern byte,
      plus 100 - len(text): long texts can score 0 or less. */
  lemma SubsequenceScoreBounds(t: string, p: string, spaceIsBoundary: bool)
    requires p != [] && !Contains(t, p) && IsSubsequence(t, p)
    ensures 10 * |p| + 100 - |t| <= Score(t, p, spaceIsBoundary)
    ensures Score(t, p, spaceIsBoundary) <= |p| * (30 + 5 * |p|) + 100 - |t|
  {
    GreedyIffSubsequence(t, p);
    var g := Greedy(t, p, 0, 0);
    assert |p| <= |t| by {
      var pos :| EmbedsFrom(t, p, pos, 0, 0);
      if |p| > |t| {
        Pigeonhole(t, pos);
      }
    }
    assert t != p && !HasPrefix(t, p);
    RunPointsBounds(t, g, -1, 0, spaceIsBoundary);
  }

  /** Strictly increasing offsets into a text are no more than the text is long. */
  lemma Pigeonhole(t: string, pos: seq<nat>)
    requires forall k :: 0 <= k < |pos| ==> pos[k] < |t|
    requires forall k :: 0 < k < |pos| ==> pos[k - 1] < pos[k]
    ensures |pos| <= |t|
  {
    if |pos| > 0 {
      forall k | 0 <= k < |pos|
        ensures k <= pos[k]
      {
        LowerBound(pos, k);
      }
      assert |pos| - 1 <= pos[|pos| - 1];
    }
  }

  lemma {:induction false} LowerBound(pos: seq<nat>, k: nat)
    requires forall i :: 0 < i < |pos| ==> pos[i - 1] < pos[i]
    requires k < |pos|
    ensures k <= pos[k]
  {
    if k > 0 {
      LowerBound(pos, k - 1);
    }
  }

  /** For texts of at most 100 bytes, the score is positive exactly when the pattern
      is a subsequence of the text. */
  lemma ShortTextMatchesIffSubsequence(t: string, p: string, spaceIsBoundary: bool)
    requires |t| <= 100
    ensures Score(t, p, spaceIsBoundary) > 0 <==> IsSubsequence(t, p)
  {
    if p == [] {
      assert EmbedsFrom(t, p, [], 0, 0);
    } else if !IsSubsequence(t, p) {
      NotSubsequenceScoresZero(t, p, spaceIsBoundary);
    } else if !Contains(t, p) {
      SubsequenceScoreBounds(t, p, spaceIsBoundary);
    }
  }

  /** Counting a space as a boundary never lowers a scan's points, and changes
      nothing when the text has no space. */
  lemma {:induction false} SpaceBonusMonotone(t: string, pos: seq<nat>, prev: int, run: nat)
    requires forall k :: 0 <= k < |pos| ==> pos[k] < |t|
    ensures RunPoints(t, pos, prev, run, false) <= RunPoints(t, pos, prev, run, true)
    ensures ' ' !in t ==> RunPoints(t, pos, prev, run, false) == RunPoints(t, pos, prev, run, true)
    decreases |pos|
  {
    if pos != [] {
      var r := if pos[0] == prev + 1 then run + 1 else 1;
      SpaceBonusMonotone(t, pos[1..], pos[0], r);
      if ' ' !in t && pos[0] > 0 {
        assert t[pos[0] - 1] in t;
      }
    }
  }

  /** The row scorer never scores below the table scorer, and they agree on texts
      without a space. */
  lemma RowScoreDominatesTableScore(t: string, p: string)
    ensures Score(t, p, false) <= Score(t, p, true)
    ensures ' ' !in t ==> Score(t, p, false) == Score(t, p, true)
  {
    if p != [] && |p| <= |t| && !Contains(t, p) {
      SpaceBonusMonotone(t, Greedy(t, p, 0, 0), -1, 0);
    }
  }
}
