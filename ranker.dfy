/** The ranker of the search service: it matches every document's name and
    content against the query, keeps the documents where either matched,
    scores them (a file-name hit weighs three times a content hit) and
    orders them by score, highest first, ties in corpus order. */
module Ranker {
  import opened JsString
  import opened Matcher

  /** A document as the directory scan supplies it. */
  datatype FileEntry = FileEntry(filename: string, filepath: string, content: string)

  datatype MatchType = FilenameMatch | ContentMatch

  /** A document with its combined score, the side that matched (absent for
      the empty query) and the positions to highlight in name and content. */
  datatype SearchResult = SearchResult(
    file: FileEntry,
    score: int,
    matchType: Option<MatchType>,
    matchIndices: seq<nat>,
    contentMatchIndices: seq<nat>)

  /** What the empty query returns for a document. */
  function Unranked(f: FileEntry): SearchResult {
    SearchResult(f, 0, None, [], [])
  }

  /** A document is kept when its name or its content matches. */
  predicate Included(f: FileEntry, query: string) {
    Match(query, f.filename).matches || Match(query, f.content).matches
  }

  /** The result pushed for a kept document.  The combined score uses both
      sides' scores whether or not that side matched. */
  function Ranked(f: FileEntry, query: string): SearchResult {
    var fm := Match(query, f.filename);
    var cm := Match(query, f.content);
    SearchResult(
      f,
      fm.score * 3 + cm.score,
      Some(if fm.matches then FilenameMatch else ContentMatch),
      if fm.matches then fm.matchIndices else [],
      if cm.matches then cm.matchIndices else [])
  }

  /** The results pushed, in corpus order, before sorting. */
  function Candidates(files: seq<FileEntry>, query: string): seq<SearchResult> {
    if files == [] then []
    else
      var f := files[|files| - 1];
      Candidates(files[..|files| - 1], query) + (if Included(f, query) then [Ranked(f, query)] else [])
  }

  // ---------------------------------------------------------------------
  // The sort: `results.sort((a, b) => b.score - a.score)`, which ECMAScript
  // requires to be stable.

  /** Insert x after every entry whose score is at least x's. */
  function Insert(x: SearchResult, s: seq<SearchResult>): seq<SearchResult> {
    if s == [] then [x]
    else if s[0].score >= x.score then [s[0]] + Insert(x, s[1..])
    else [x] + s
  }

  /** Stable sort by descending score (insertion sort, in input order). */
  function SortByScore(s: seq<SearchResult>): seq<SearchResult> {
    if s == [] then [] else Insert(s[|s| - 1], SortByScore(s[..|s| - 1]))
  }

  /** `searchFiles(files, query)` as a value. */
  function Search(files: seq<FileEntry>, query: string): seq<SearchResult> {
    if query == [] then seq(|files|, i requires 0 <= i < |files| => Unranked(files[i]))
    else SortByScore(Candidates(files, query))
  }

  /** `searchFiles`: the empty query maps every file; otherwise each file is
      matched on name and content, kept ones are pushed, and the list is
      sorted. */
  method SearchFiles(files: seq<FileEntry>, query: string) returns (results: seq<SearchResult>)
    ensures results == Search(files, query)
  {
    if query == [] {
      return seq(|files|, i requires 0 <= i < |files| => Unranked(files[i]));
    }
    results := [];
    for k := 0 to |files|
      invariant results == Candidates(files[..k], query)
    {
      var file := files[k];
      var filenameMatch := FuzzyMatch(query, file.filename);
      var contentMatch := FuzzyMatch(query, file.content);
      PushStep(files, k, query, filenameMatch, contentMatch);
      if filenameMatch.matches || contentMatch.matches {
        var totalScore := filenameMatch.score * 3 + contentMatch.score;
        results := results + [SearchResult(
          file,
          totalScore,
          Some(if filenameMatch.matches then FilenameMatch else ContentMatch),
          if filenameMatch.matches then filenameMatch.matchIndices else [],
          if contentMatch.matches then contentMatch.matchIndices else [])];
      }
    }
    assert files[..|files|] == files;
    results := SortByScore(results);
  }

  /** One turn of the loop of `searchFiles`: the file's two match results
      decide what is pushed. */
  lemma PushStep(files: seq<FileEntry>, k: nat, query: string, fm: MatchResult, cm: MatchResult)
    requires k < |files|
    requires fm == Match(query, files[k].filename) && cm == Match(query, files[k].content)
    ensures Candidates(files[..k + 1], query) == Candidates(files[..k], query)
      + if fm.matches || cm.matches then
          [SearchResult(
            files[k],
            fm.score * 3 + cm.score,
            Some(if fm.matches then FilenameMatch else ContentMatch),
            if fm.matches then fm.matchIndices else [],
            if cm.matches then cm.matchIndices else [])]
        else []
  {
    CandidatesStep(files, k, query);
    RankedOf(files[k], query, fm, cm);
  }

  lemma CandidatesStep(files: seq<FileEntry>, k: nat, query: string)
    requires k < |files|
    ensures Candidates(files[..k + 1], query) == Candidates(files[..k], query)
      + (if Included(files[k], query) then [Ranked(files[k], query)] else [])
  {
    assert files[..k + 1][..k] == files[..k];
  }

  lemma RankedOf(f: FileEntry, query: string, fm: MatchResult, cm: MatchResult)
    requires fm == Match(query, f.filename) && cm == Match(query, f.content)
    ensures Included(f, query) <==> fm.matches || cm.matches
    ensures Ranked(f, query) == SearchResult(
      f,
      fm.score * 3 + cm.score,
      Some(if fm.matches then FilenameMatch else ContentMatch),
      if fm.matches then fm.matchIndices else [],
      if cm.matches then cm.matchIndices else [])
  {
  }

  // ---------------------------------------------------------------------
  // Properties of the sort

  predicate SortedDesc(s: seq<SearchResult>) {
    forall i, j :: 0 <= i < j < |s| ==> s[i].score >= s[j].score
  }

  /** The entries with score v, in their order. */
  function WithScore(s: seq<SearchResult>, v: int): seq<SearchResult> {
    if s == [] then []
    else (if s[0].score == v then [s[0]] else []) + WithScore(s[1..], v)
  }

  lemma {:induction false} WithScoreAppend(a: seq<SearchResult>, b: seq<SearchResult>, v: int)
    ensures WithScore(a + b, v) == WithScore(a, v) + WithScore(b, v)
  {
    if a == [] {
      assert a + b == b;
    } else {
      var head, rest := if a[0].score == v then [a[0]] else [], WithScore(a[1..], v);
      assert (a + b)[0] == a[0];
      assert (a + b)[1..] == a[1..] + b;
      WithScoreAppend(a[1..], b, v);
      assert WithScore(a + b, v) == head + (rest + WithScore(b, v));
      Assoc(head, rest, WithScore(b, v));
    }
  }

  lemma {:induction false} WithScoreNone(s: seq<SearchResult>, v: int)
    requires forall i :: 0 <= i < |s| ==> s[i].score != v
    ensures WithScore(s, v) == []
  {
    if s != [] {
      WithScoreNone(s[1..], v);
    }
  }

  /** Inserting adds exactly x. */
  lemma {:induction false} InsertPermutes(x: SearchResult, s: seq<SearchResult>)
    ensures multiset(Insert(x, s)) == multiset(s) + multiset{x}
  {
    if s != [] && s[0].score >= x.score {
      InsertPermutes(x, s[1..]);
      assert s == [s[0]] + s[1..];
    }
  }

  /** No entry scores above b. */
  predicate AtMost(s: seq<SearchResult>, b: int) {
    forall k :: 0 <= k < |s| ==> s[k].score <= b
  }

  lemma SortedTail(s: seq<SearchResult>)
    requires s != [] && SortedDesc(s)
    ensures SortedDesc(s[1..]) && AtMost(s, s[0].score) && AtMost(s[1..], s[0].score)
  {
  }

  lemma ConsAtMost(h: SearchResult, r: seq<SearchResult>, b: int)
    requires h.score <= b && AtMost(r, b)
    ensures AtMost([h] + r, b)
  {
    forall k | 0 < k < |[h] + r| ensures ([h] + r)[k].score <= b {
      assert ([h] + r)[k] == r[k - 1];
    }
  }

  lemma ConsSorted(h: SearchResult, r: seq<SearchResult>)
    requires SortedDesc(r) && AtMost(r, h.score)
    ensures SortedDesc([h] + r)
  {
    var t := [h] + r;
    forall i, j | 0 <= i < j < |t| ensures t[i].score >= t[j].score {
      assert t[j] == r[j - 1];
      if i > 0 {
        assert t[i] == r[i - 1];
      }
    }
  }

  /** Inserting an entry scoring at most b into a list scoring at most b
      keeps every score at most b. */
  lemma {:induction false} InsertAtMost(x: SearchResult, s: seq<SearchResult>, b: int)
    requires x.score <= b && AtMost(s, b)
    ensures AtMost(Insert(x, s), b)
  {
    if s == [] {
    } else if s[0].score >= x.score {
      assert AtMost(s[1..], b) by {
        forall k | 0 <= k < |s[1..]| ensures s[1..][k].score <= b {
          assert s[1..][k] == s[k + 1];
        }
      }
      InsertAtMost(x, s[1..], b);
      ConsAtMost(s[0], Insert(x, s[1..]), b);
    } else {
      ConsAtMost(x, s, b);
    }
  }

  /** Inserting into a sorted list keeps it sorted. */
  lemma {:induction false} InsertSorted(x: SearchResult, s: seq<SearchResult>)
    requires SortedDesc(s)
    ensures SortedDesc(Insert(x, s))
  {
    if s == [] {
    } else if s[0].score >= x.score {
      SortedTail(s);
      InsertSorted(x, s[1..]);
      InsertAtMost(x, s[1..], s[0].score);
      ConsSorted(s[0], Insert(x, s[1..]));
    } else {
      SortedTail(s);
      ConsSorted(x, s);
    }
  }

  lemma WithScoreCons(h: SearchResult, r: seq<SearchResult>, v: int)
    ensures WithScore([h] + r, v) == (if h.score == v then [h] else []) + WithScore(r, v)
  {
    assert ([h] + r)[0] == h;
    assert ([h] + r)[1..] == r;
  }

  /** Inserting puts x after every entry of equal score. */
  lemma {:induction false} InsertStable(x: SearchResult, s: seq<SearchResult>, v: int)
    requires SortedDesc(s)
    ensures WithScore(Insert(x, s), v) == WithScore(s, v) + (if x.score == v then [x] else [])
  {
    var mine := if x.score == v then [x] else [];
    if s == [] {
      WithScoreCons(x, [], v);
      assert mine + [] == [] + mine;
    } else if s[0].score >= x.score {
      var head := if s[0].score == v then [s[0]] else [];
      SortedTail(s);
      InsertStable(x, s[1..], v);
      WithScoreCons(s[0], Insert(x, s[1..]), v);
      Assoc(head, WithScore(s[1..], v), mine);
    } else {
      WithScoreCons(x, s, v);
      if x.score == v {
        SortedTail(s);
        WithScoreNone(s, v);
        assert mine + [] == [] + mine;
      } else {
        assert [] + WithScore(s, v) == WithScore(s, v) + [];
      }
    }
  }

  /** The sort orders by descending score. */
  lemma {:induction false} SortSorted(s: seq<SearchResult>)
    ensures SortedDesc(SortByScore(s))
  {
    if s != [] {
      SortSorted(s[..|s| - 1]);
      InsertSorted(s[|s| - 1], SortByScore(s[..|s| - 1]));
    }
  }

  /** The sort is a permutation. */
  lemma {:induction false} SortPermutes(s: seq<SearchResult>)
    ensures multiset(SortByScore(s)) == multiset(s)
  {
    if s != [] {
      SortPermutes(s[..|s| - 1]);
      InsertPermutes(s[|s| - 1], SortByScore(s[..|s| - 1]));
      assert s == s[..|s| - 1] + [s[|s| - 1]];
    }
  }

  /** The sort is stable: for every score, the entries with that score keep
      their order. */
  lemma {:induction false} SortStable(s: seq<SearchResult>, v: int)
    ensures WithScore(SortByScore(s), v) == WithScore(s, v)
  {
    if s != [] {
      var init, x := s[..|s| - 1], s[|s| - 1];
      SortStable(init, v);
      SortSorted(init);
      InsertStable(x, SortByScore(init), v);
      assert s == init + [x];
      WithScoreAppend(init, [x], v);
      assert [x][1..] == [];
    }
  }

  // ---------------------------------------------------------------------
  // Properties of the search

  /** `r` is the ranked form of some kept file of the corpus. */
  ghost predicate Kept(files: seq<FileEntry>, query: string, r: SearchResult) {
    exists i :: 0 <= i < |files| && Included(files[i], query) && r == Ranked(files[i], query)
  }

  /** The pushed results are exactly the ranked forms of the kept documents. */
  lemma {:induction false} CandidatesMembers(files: seq<FileEntry>, query: string)
    ensures forall r :: r in Candidates(files, query) <==> Kept(files, query, r)
  {
    if files != [] {
      var init, f := files[..|files| - 1], files[|files| - 1];
      var pushed := if Included(f, query) then [Ranked(f, query)] else [];
      assert Candidates(files, query) == Candidates(init, query) + pushed;
      CandidatesMembers(init, query);
      forall r ensures r in Candidates(files, query) <==> Kept(files, query, r) {
        if Kept(files, query, r) {
          KeptSplit(files, query, r);
        }
        if Kept(init, query, r) {
          KeptGrow(files, query, r);
        }
        if r in pushed {
          KeptAt(files, query, |files| - 1, r);
        }
      }
    }
  }

  /** A result that comes from some file of a non-empty corpus comes from
      one of the files before the last, or from the last. */
  lemma KeptSplit(files: seq<FileEntry>, query: string, r: SearchResult)
    requires files != [] && Kept(files, query, r)
    ensures Kept(files[..|files| - 1], query, r)
      || (Included(files[|files| - 1], query) && r == Ranked(files[|files| - 1], query))
  {
    var n := |files| - 1;
    var i :| 0 <= i < |files| && Included(files[i], query) && r == Ranked(files[i], query);
    if i < n {
      assert files[..n][i] == files[i];
      KeptAt(files[..n], query, i, r);
    } else {
      assert i == n;
    }
  }

  /** A result that comes from one of the files before the last comes from
      the corpus. */
  lemma KeptGrow(files: seq<FileEntry>, query: string, r: SearchResult)
    requires files != [] && Kept(files[..|files| - 1], query, r)
    ensures Kept(files, query, r)
  {
    var init := files[..|files| - 1];
    var i :| 0 <= i < |init| && Included(init[i], query) && r == Ranked(init[i], query);
    assert files[i] == init[i];
    KeptAt(files, query, i, r);
  }

  lemma KeptAt(files: seq<FileEntry>, query: string, i: nat, r: SearchResult)
    requires i < |files| && Included(files[i], query) && r == Ranked(files[i], query)
    ensures Kept(files, query, r)
  {
  }

  /** The empty query returns every file, in input order, unscored and with
      nothing to highlight. */
  lemma SearchEmptyQuery(files: seq<FileEntry>)
    ensures var r := Search(files, "");
      |r| == |files| && forall i :: 0 <= i < |files| ==> r[i] == SearchResult(files[i], 0, None, [], [])
  {
  }

  /** For a non-empty query: a result is in the output exactly when it is
      the ranked form of a document whose name or content matches; the
      output is ordered by non-increasing score, and it is a stable
      permutation of the kept documents in corpus order. */
  lemma SearchNonEmptyQuery(files: seq<FileEntry>, query: string)
    requires query != []
    ensures forall r :: r in Search(files, query) <==>
      exists i :: 0 <= i < |files| && Included(files[i], query) && r == Ranked(files[i], query)
    ensures SortedDesc(Search(files, query))
    ensures multiset(Search(files, query)) == multiset(Candidates(files, query))
    ensures forall v :: WithScore(Search(files, query), v) == WithScore(Candidates(files, query), v)
  {
    var c := Candidates(files, query);
    SortSorted(c);
    SortPermutes(c);
    forall v ensures WithScore(Search(files, query), v) == WithScore(c, v) {
      SortStable(c, v);
    }
    CandidatesMembers(files, query);
    forall r ensures r in Search(files, query) <==> r in c {
      assert r in Search(files, query) <==> r in multiset(Search(files, query));
      assert r in c <==> r in multiset(c);
    }
  }

  /** What a kept document's result says: the combined score weighs the
      file-name score three to one, the match type is "filename" exactly
      when the name matched, and each position list is non-empty exactly
      when its side matched. */
  lemma RankedShape(f: FileEntry, query: string)
    requires query != []
    ensures var r, fm, cm := Ranked(f, query), Match(query, f.filename), Match(query, f.content);
      && r.file == f
      && r.score == 3 * fm.score + cm.score
      && (r.matchType == Some(FilenameMatch) <==> fm.matches)
      && (r.matchIndices != [] <==> fm.matches)
      && (r.contentMatchIndices != [] <==> cm.matches)
      && (fm.matches ==> r.matchIndices == fm.matchIndices)
      && (cm.matches ==> r.contentMatchIndices == cm.matchIndices)
  {
    MatchShape(query, f.filename);
    MatchShape(query, f.content);
  }
}
