/** The search pass: score every row of the selected column, keep the rows
    with a positive score and order them by score, highest first. */
module Search {
  import opened Wrappers
  import opened Tokenizer
  import opened Matcher
  import opened Ranking

  /** The score of every row of the column, in row order. */
  function Scores(rows: seq<string>, query: seq<string>, requireAll: bool): (scores: seq<nat>)
    ensures |scores| == |rows|
    decreases |rows|
  {
    if rows == [] then []
    else Scores(rows[..|rows| - 1], query, requireAll) + [MatchQuery(rows[|rows| - 1], query, requireAll)]
  }

  /** Row `k` of the score column is that row's match count. */
  lemma {:induction false} ScoresAt(rows: seq<string>, query: seq<string>, requireAll: bool, k: nat)
    requires k < |rows|
    ensures Scores(rows, query, requireAll)[k] == MatchQuery(rows[k], query, requireAll)
    decreases |rows|
  {
    if k < |rows| - 1 {
      ScoresAt(rows[..|rows| - 1], query, requireAll, k);
    }
  }

  /** `res` lists every row with a positive score exactly once, no other
      row, highest score first. */
  ghost predicate IsSearchResult(res: seq<nat>, rows: seq<string>, query: seq<string>, requireAll: bool) {
    Ranks(res, Scores(rows, query, requireAll))
  }

  /** `perform_search` over the selected column (`None` when no data is
      loaded). The result is `None` when the search does not run: the
      query text is empty or there is no data. */
  method PerformSearch(searchQuery: string, column: Option<seq<string>>, exactMatch: bool, partialMatch: bool)
    returns (results: Option<seq<nat>>)
    ensures results.None? <==> searchQuery == [] || column.None?
    ensures results.Some? ==>
      IsSearchResult(results.value, column.value, Tokenize(searchQuery), exactMatch && !partialMatch)
  {
    if searchQuery == [] || column.None? {
      return None;
    }
    var scores := ScoreRows(column.value, Tokenize(searchQuery), exactMatch && !partialMatch);
    var ranked := RankPositive(scores);
    results := Some(ranked);
  }

  /** The `__match_count` column: `match_query` applied to every row. */
  method ScoreRows(rows: seq<string>, query: seq<string>, requireAll: bool) returns (scores: seq<nat>)
    ensures scores == Scores(rows, query, requireAll)
  {
    scores := [];
    for k := 0 to |rows|
      invariant scores == Scores(rows[..k], query, requireAll)
    {
      assert rows[..k + 1][..k] == rows[..k];
      scores := scores + [MatchQuery(rows[k], query, requireAll)];
    }
    assert rows[..|rows|] == rows;
  }

  /** Under `requireAll` the result is exactly the rows holding every query
      token; with an empty token list no row is kept. */
  lemma SearchRequireAll(res: seq<nat>, rows: seq<string>, query: seq<string>)
    requires IsSearchResult(res, rows, query, true)
    ensures query == [] ==> res == []
    ensures query != [] ==> forall k :: 0 <= k < |rows| ==>
      (k in res <==> forall i :: 0 <= i < |query| ==> query[i] in Tokenize(rows[k]))
  {
    var scores := Scores(rows, query, true);
    RanksMembers(res, scores);
    forall k | 0 <= k < |rows|
      ensures scores[k] == MatchQuery(rows[k], query, true)
    {
      ScoresAt(rows, query, true, k);
    }
  }

  /** The result is fixed up to the order of rows with equal scores. */
  lemma SearchScoresDetermined(r1: seq<nat>, r2: seq<nat>, rows: seq<string>, query: seq<string>, requireAll: bool)
    requires IsSearchResult(r1, rows, query, requireAll)
    requires IsSearchResult(r2, rows, query, requireAll)
    ensures |r1| == |r2|
    ensures forall i :: 0 <= i < |r1| ==>
      MatchQuery(rows[r1[i]], query, requireAll) == MatchQuery(rows[r2[i]], query, requireAll)
  {
    var scores := Scores(rows, query, requireAll);
    RanksDetermined(r1, r2, scores);
    forall i | 0 <= i < |r1|
      ensures MatchQuery(rows[r1[i]], query, requireAll) == MatchQuery(rows[r2[i]], query, requireAll)
    {
      ScoresAt(rows, query, requireAll, r1[i]);
      ScoresAt(rows, query, requireAll, r2[i]);
    }
  }
}
