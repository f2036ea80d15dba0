/** The fuzzy matcher of the search service: a greedy, leftmost,
    case-insensitive subsequence search that reports a verdict, a score and
    the positions it accepted. */
module Matcher {
  import opened JsString

  /** What `fuzzyMatch` returns: `matches`, `score` and `matchIndices`. */
  datatype MatchResult = MatchResult(matches: bool, score: int, matchIndices: seq<nat>)

  /** The first position at or after `from` that holds `c`. */
  function FirstFrom(t: string, c: char, from: nat): (r: Option<nat>)
    decreases |t| - from
    ensures r.Some? ==> from <= r.value < |t| && t[r.value] == c
    ensures r.Some? ==> forall j :: from <= j < r.value ==> t[j] != c
    ensures r.None? ==> forall j :: from <= j < |t| ==> t[j] != c
  {
    if from >= |t| then None
    else if t[from] == c then Some(from)
    else FirstFrom(t, c, from + 1)
  }

  /** The positions a left-to-right scan from `from` accepts for the
      characters of `q`: each query character takes its first occurrence
      after the previous one, and the scan stops at the first query
      character that has no occurrence left. */
  function Greedy(q: string, t: string, from: nat): seq<nat>
    decreases |q|
  {
    if q == [] then []
    else match FirstFrom(t, q[0], from)
      case None => []
      case Some(j) => [j] + Greedy(q[1..], t, j + 1)
  }

  /** The last accepted position, or the sentinel -1 before any. */
  function LastOr(idx: seq<nat>): int {
    if idx == [] then -1 else idx[|idx| - 1]
  }

  /** The score as the scan accumulates it: an accepted position adds 2 when
      it is one past the previously accepted position (the sentinel -1 for
      the first), and 1 otherwise. */
  function Score(idx: seq<nat>): int {
    if idx == [] then 0
    else
      var init := idx[..|idx| - 1];
      Score(init) + (if idx[|idx| - 1] == LastOr(init) + 1 then 2 else 1)
  }

  /** `fuzzyMatch(query, text)` as a value. */
  function Match(query: string, text: string): MatchResult {
    if query == [] then MatchResult(true, 0, [])
    else
      var idx := Greedy(ToLower(query), ToLower(text), 0);
      MatchResult(|idx| == |query|, Score(idx), idx)
  }

  /** The loop of `fuzzyMatch` as a function: one pass over the text from
      position i, advancing the query cursor qi on each character that
      equals the current query character. */
  function Scan(q: string, t: string, qi: nat, i: nat, idx: seq<nat>): seq<nat>
    decreases |t| - i
  {
    if i >= |t| || qi >= |q| then idx
    else if t[i] == q[qi] then Scan(q, t, qi + 1, i + 1, idx + [i])
    else Scan(q, t, qi, i + 1, idx)
  }

  /** The loop of `fuzzyMatch`: one pass over the lowered text, advancing
      the query cursor on each character that equals the current query
      character. */
  method FuzzyMatch(query: string, text: string) returns (m: MatchResult)
    ensures m == Match(query, text)
  {
    if query == [] {
      return MatchResult(true, 0, []);
    }
    var lowerQuery := ToLower(query);
    var lowerText := ToLower(text);
    var queryIndex: nat := 0;
    var score := 0;
    var lastMatchIndex: int := -1;
    var matchIndices: seq<nat> := [];
    var i: nat := 0;
    while i < |lowerText| && queryIndex < |lowerQuery|
      invariant i <= |lowerText|
      invariant queryIndex <= |lowerQuery| && |matchIndices| == queryIndex
      invariant Scan(lowerQuery, lowerText, queryIndex, i, matchIndices)
                == Scan(lowerQuery, lowerText, 0, 0, [])
      invariant score == Score(matchIndices)
      invariant lastMatchIndex == LastOr(matchIndices)
      decreases |lowerText| - i
    {
      if lowerText[i] == lowerQuery[queryIndex] {
        if lastMatchIndex == i - 1 {
          score := score + 2;
        } else {
          score := score + 1;
        }
        ScoreAppend(matchIndices, i);
        lastMatchIndex := i;
        matchIndices := matchIndices + [i];
        queryIndex := queryIndex + 1;
      }
      i := i + 1;
    }
    ScanIsGreedy(lowerQuery, lowerText, 0, 0, []);
    assert lowerQuery[0..] == lowerQuery && [] + Greedy(lowerQuery, lowerText, 0) == Greedy(lowerQuery, lowerText, 0);
    assert matchIndices == Greedy(lowerQuery, lowerText, 0);
    m := MatchResult(queryIndex == |lowerQuery|, score, matchIndices);
  }

  /** The pass accepts, after what it already holds, exactly the greedy
      placement of the rest of the query. */
  lemma {:induction false} ScanIsGreedy(q: string, t: string, qi: nat, i: nat, idx: seq<nat>)
    requires qi <= |q|
    ensures Scan(q, t, qi, i, idx) == idx + Greedy(q[qi..], t, i)
    decreases |t| - i
  {
    if i >= |t| {
      GreedyAtEnd(q[qi..], t, i);
    } else if qi >= |q| {
      assert q[qi..] == [];
    } else if t[i] == q[qi] {
      ScanIsGreedy(q, t, qi + 1, i + 1, idx + [i]);
      GreedyHit(q[qi..], t, i);
      assert q[qi..][1..] == q[qi + 1..];
      Assoc(idx, [i], Greedy(q[qi + 1..], t, i + 1));
    } else {
      ScanIsGreedy(q, t, qi, i + 1, idx);
      GreedyMiss(q[qi..], t, i);
    }
  }

  lemma GreedyHit(q: string, t: string, i: nat)
    requires q != [] && i < |t| && t[i] == q[0]
    ensures Greedy(q, t, i) == [i] + Greedy(q[1..], t, i + 1)
  {
    assert FirstFrom(t, q[0], i) == Some(i);
  }

  lemma GreedyMiss(q: string, t: string, i: nat)
    requires q != [] && i < |t| && t[i] != q[0]
    ensures Greedy(q, t, i) == Greedy(q, t, i + 1)
  {
    assert FirstFrom(t, q[0], i) == FirstFrom(t, q[0], i + 1);
  }

  lemma GreedyAtEnd(q: string, t: string, i: nat)
    requires i >= |t|
    ensures Greedy(q, t, i) == []
  {
    if q != [] {
      assert FirstFrom(t, q[0], i) == None;
    }
  }

  lemma ScoreAppend(idx: seq<nat>, i: nat)
    ensures Score(idx + [i]) == Score(idx) + (if i == LastOr(idx) + 1 then 2 else 1)
    ensures LastOr(idx + [i]) == i
  {
    assert (idx + [i])[..|idx|] == idx;
  }

  // ---------------------------------------------------------------------
  // Properties of the greedy scan

  predicate StrictlyIncreasing(idx: seq<nat>) {
    forall a, b :: 0 <= a < b < |idx| ==> idx[a] < idx[b]
  }

  /** `idx` places the characters of `q`, in order, at strictly increasing
      positions of `t`. */
  ghost predicate Embeds(idx: seq<nat>, q: string, t: string) {
    |idx| == |q| && StrictlyIncreasing(idx)
    && (forall k :: 0 <= k < |idx| ==> idx[k] < |t| && t[idx[k]] == q[k])
  }

  /** `q` is a subsequence of `t`. */
  ghost predicate IsSubsequence(q: string, t: string) {
    exists idx :: Embeds(idx, q, t)
  }

  /** The greedy scan accepts at most one position per query character, at
      positions from `from` on that hold their query character. */
  lemma {:induction false} GreedyInRange(q: string, t: string, from: nat)
    ensures var idx := Greedy(q, t, from);
      && |idx| <= |q|
      && (forall k :: 0 <= k < |idx| ==> from <= idx[k] < |t| && t[idx[k]] == q[k])
    decreases |q|
  {
    if q != [] {
      match FirstFrom(t, q[0], from)
      case None =>
      case Some(j) =>
        GreedyInRange(q[1..], t, j + 1);
    }
  }

  /** The accepted positions are strictly increasing. */
  lemma {:induction false} GreedyIncreasing(q: string, t: string, from: nat)
    ensures StrictlyIncreasing(Greedy(q, t, from))
    decreases |q|
  {
    if q != [] {
      match FirstFrom(t, q[0], from)
      case None =>
      case Some(j) =>
        GreedyIncreasing(q[1..], t, j + 1);
        GreedyInRange(q[1..], t, j + 1);
        ConsIncreasing(j, Greedy(q[1..], t, j + 1));
    }
  }

  /** A position before every element of an increasing list extends it. */
  lemma ConsIncreasing(j: nat, tail: seq<nat>)
    requires StrictlyIncreasing(tail)
    requires forall k :: 0 <= k < |tail| ==> j < tail[k]
    ensures StrictlyIncreasing([j] + tail)
  {
    var idx := [j] + tail;
    forall a, b | 0 <= a < b < |idx| ensures idx[a] < idx[b] {
      if a > 0 {
        assert idx[a] == tail[a - 1];
      }
      assert idx[b] == tail[b - 1];
    }
  }

  /** Each accepted position is the leftmost occurrence of its query
      character after the previous accepted position (after `from - 1` for
      the first one). */
  lemma {:induction false} GreedyLeftmost(q: string, t: string, from: nat)
    ensures var idx := Greedy(q, t, from);
      && |idx| <= |q|
      && (forall k :: 0 <= k < |idx| ==> from <= idx[k] < |t|)
      && (|idx| > 0 ==> forall j :: from <= j < idx[0] ==> t[j] != q[0])
      && (forall k, j :: 0 < k < |idx| && idx[k - 1] < j < idx[k] ==> t[j] != q[k])
    decreases |q|
  {
    if q != [] {
      match FirstFrom(t, q[0], from)
      case None =>
      case Some(j) =>
        var tail := Greedy(q[1..], t, j + 1);
        assert Greedy(q, t, from) == [j] + tail;
        GreedyLeftmost(q[1..], t, j + 1);
        GreedyInRange(q, t, from);
        GapsCons(q, t, j, tail);
    }
  }

  /** The gaps of `[j] + tail` are the gap before `tail[0]` and the gaps
      of `tail`, one query character further on. */
  lemma GapsCons(q: string, t: string, j: nat, tail: seq<nat>)
    requires |tail| < |q|
    requires forall k :: 0 <= k < |tail| ==> j + 1 <= tail[k] < |t|
    requires |tail| > 0 ==> forall m :: j + 1 <= m < tail[0] ==> t[m] != q[1..][0]
    requires forall k, m :: 0 < k < |tail| && tail[k - 1] < m < tail[k] ==> t[m] != q[1..][k]
    ensures var idx := [j] + tail;
      forall k, m :: 0 < k < |idx| && idx[k - 1] < m < idx[k] ==> t[m] != q[k]
  {
    var idx := [j] + tail;
    forall k, m | 0 < k < |idx| && idx[k - 1] < m < idx[k]
      ensures t[m] != q[k]
    {
      assert q[1..][k - 1] == q[k];
      if k > 1 {
        assert idx[k - 1] == tail[k - 2] && idx[k] == tail[k - 1];
      } else {
        assert idx[k] == tail[0];
      }
    }
  }

  /** When the scan places fewer positions than the query has characters,
      the next query character does not occur after the last placed
      position. */
  lemma {:induction false} GreedyShortfall(q: string, t: string, from: nat)
    ensures var idx := Greedy(q, t, from);
      |idx| < |q| ==> forall j :: from <= j < |t| && LastOr(idx) < j ==> t[j] != q[|idx|]
    decreases |q|
  {
    if q != [] {
      match FirstFrom(t, q[0], from)
      case None =>
      case Some(j) =>
        GreedyShortfall(q[1..], t, j + 1);
        GreedyInRange(q[1..], t, j + 1);
        ShortfallStep(q, t, from, j, Greedy(q[1..], t, j + 1));
    }
  }

  /** The shortfall property carries over from the rest of the query to the
      whole when position j is placed in front. */
  lemma ShortfallStep(q: string, t: string, from: nat, j: nat, tail: seq<nat>)
    requires q != [] && from <= j
    requires forall k :: 0 <= k < |tail| ==> j + 1 <= tail[k]
    requires |tail| < |q| - 1 ==> forall m :: j + 1 <= m < |t| && LastOr(tail) < m ==> t[m] != q[1..][|tail|]
    ensures var idx := [j] + tail;
      |idx| < |q| ==> forall m :: from <= m < |t| && LastOr(idx) < m ==> t[m] != q[|idx|]
  {
    var idx := [j] + tail;
    if |idx| < |q| {
      if |tail| == 0 {
        assert LastOr(idx) == j;
      } else {
        assert idx[|idx| - 1] == tail[|tail| - 1];
        assert LastOr(tail) >= j + 1;
      }
      assert q[|idx|] == q[1..][|tail|];
    }
  }

  /** The scan never misses: if the query can be placed from `from` onward,
      greedy placement places all of it. */
  lemma {:induction false} GreedyComplete(q: string, t: string, from: nat, e: seq<nat>)
    requires Embeds(e, q, t)
    requires forall k :: 0 <= k < |e| ==> from <= e[k]
    ensures |Greedy(q, t, from)| == |q|
    decreases |q|
  {
    if q != [] {
      var r := FirstFrom(t, q[0], from);
      assert t[e[0]] == q[0] && from <= e[0] < |t|;
      assert r.Some? && r.value <= e[0];
      var e' := e[1..];
      assert Embeds(e', q[1..], t);
      assert forall k :: 0 <= k < |e'| ==> e[0] < e'[k] by {
        forall k | 0 <= k < |e'| ensures e[0] < e'[k] {
          assert e'[k] == e[k + 1];
        }
      }
      GreedyComplete(q[1..], t, r.value + 1, e');
    }
  }

  /** Everything the matcher promises about one call: an empty query matches
      with score 0 and no positions; otherwise the positions are strictly
      increasing positions of the lowered text, the k-th holds the k-th
      lowered query character and is its leftmost occurrence after the
      previous one, the verdict holds exactly when every query character
      was placed, and when it fails the next query character does not occur
      after the last placed one. */
  lemma MatchShape(query: string, text: string)
    ensures var m := Match(query, text);
      var idx, lq, lt := m.matchIndices, ToLower(query), ToLower(text);
      && (query == [] ==> m == MatchResult(true, 0, []))
      && |idx| <= |query|
      && (m.matches <==> |idx| == |query|)
      && (m.matches && idx == [] <==> query == [])
      && StrictlyIncreasing(idx)
      && (forall k :: 0 <= k < |idx| ==> idx[k] < |lt| && lt[idx[k]] == lq[k])
      && (|idx| > 0 ==> forall j :: 0 <= j < idx[0] ==> lt[j] != lq[0])
      && (forall k, j :: 0 < k < |idx| && idx[k - 1] < j < idx[k] ==> lt[j] != lq[k])
      && (!m.matches ==> forall j :: LastOr(idx) < j < |lt| ==> lt[j] != lq[|idx|])
  {
    if query != [] {
      var lq, lt := ToLower(query), ToLower(text);
      GreedyInRange(lq, lt, 0);
      GreedyIncreasing(lq, lt, 0);
      GreedyLeftmost(lq, lt, 0);
      GreedyShortfall(lq, lt, 0);
    }
  }

  /** The verdict is exactly "the lowered query is a subsequence of the
      lowered text": greedy leftmost search is complete for that question. */
  lemma MatchIffSubsequence(query: string, text: string)
    ensures Match(query, text).matches <==> IsSubsequence(ToLower(query), ToLower(text))
  {
    var lq, lt := ToLower(query), ToLower(text);
    if query == [] {
      assert Embeds([], lq, lt);
    } else {
      var idx := Greedy(lq, lt, 0);
      GreedyInRange(lq, lt, 0);
      GreedyIncreasing(lq, lt, 0);
      if Match(query, text).matches {
        assert Embeds(idx, lq, lt);
      }
      if IsSubsequence(lq, lt) {
        var e :| Embeds(e, lq, lt);
        GreedyComplete(lq, lt, 0, e);
      }
    }
  }

  // ---------------------------------------------------------------------
  // Properties of the score

  /** Position k is "consecutive": one past position k-1, or, for the first
      position, index 0 (the only index one past the sentinel -1). */
  predicate Adjacent(idx: seq<nat>, k: nat)
    requires k < |idx|
  {
    if k == 0 then idx[0] == 0 else idx[k] == idx[k - 1] + 1
  }

  /** The number of consecutive positions among the first n. */
  function AdjacentCount(idx: seq<nat>, n: nat): nat
    requires n <= |idx|
  {
    if n == 0 then 0 else AdjacentCount(idx, n - 1) + (if Adjacent(idx, n - 1) then 1 else 0)
  }

  lemma {:induction false} AdjacentCountPrefix(idx: seq<nat>, m: nat, n: nat)
    requires n <= m <= |idx|
    ensures AdjacentCount(idx[..m], n) == AdjacentCount(idx, n)
  {
    if n > 0 {
      AdjacentCountPrefix(idx, m, n - 1);
      assert Adjacent(idx[..m], n - 1) <==> Adjacent(idx, n - 1);
    }
  }

  /** The score is the number of accepted positions plus the number of
      consecutive ones; so it lies between |idx| and 2|idx|. */
  lemma {:induction false} ScoreCountsAdjacent(idx: seq<nat>)
    ensures Score(idx) == |idx| + AdjacentCount(idx, |idx|)
    ensures |idx| <= Score(idx) <= 2 * |idx|
  {
    if idx != [] {
      var n := |idx| - 1;
      var init := idx[..n];
      ScoreCountsAdjacent(init);
      AdjacentCountPrefix(idx, n, n);
      assert Adjacent(idx, n) <==> idx[n] == LastOr(init) + 1;
    }
  }

  /** The matcher's score obeys the same bounds: between the number of
      matched positions and twice that. */
  lemma MatchScoreBounds(query: string, text: string)
    ensures var m := Match(query, text);
      |m.matchIndices| <= m.score <= 2 * |m.matchIndices|
  {
    ScoreCountsAdjacent(Match(query, text).matchIndices);
  }

  /** The first accepted position earns the consecutive bonus only when it
      is index 0: a query of one character scores 2 at the start of the text
      and 1 anywhere else. */
  lemma FirstBonusOnlyAtStart(query: string, text: string)
    requires |query| == 1
    ensures var m := Match(query, text);
      m.matches ==> (m.score == 2 <==> m.matchIndices[0] == 0) && (m.score == 1 <==> m.matchIndices[0] != 0)
  {
    var m := Match(query, text);
    if m.matches {
      var idx := m.matchIndices;
      assert |idx| == 1 && idx[..0] == [];
      assert Score(idx) == if idx[0] == 0 then 2 else 1;
    }
  }
}
