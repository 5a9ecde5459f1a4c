/** Scoring one row text against the tokens of a query. */
module Matcher {
  import opened Tokenizer

  /** Number of query tokens that occur in `row`; a token repeated in the
      query is counted once per repetition. */
  function CountPresent(query: seq<string>, row: seq<string>): (n: nat)
    ensures n <= |query|
    ensures n == |query| <==> forall i :: 0 <= i < |query| ==> query[i] in row
    ensures n == 0 <==> forall i :: 0 <= i < |query| ==> query[i] !in row
  {
    if query == [] then 0
    else (if query[0] in row then 1 else 0) + CountPresent(query[1..], row)
  }

  /** The indices of the query tokens that occur in `row`. */
  ghost function PresentIndices(query: seq<string>, row: seq<string>): set<nat> {
    set i: nat | i < |query| && query[i] in row
  }

  /** Shifts every index of a set by one. */
  ghost function Shifted(s: set<nat>): set<nat> {
    set i | i in s :: i + 1
  }

  lemma ShiftedSize(s: set<nat>)
    ensures |Shifted(s)| == |s|
  {
    if s != {} {
      var x :| x in s;
      assert Shifted(s) == Shifted(s - {x}) + {x + 1} by {
        forall i | i in Shifted(s) ensures i in Shifted(s - {x}) + {x + 1} {
          var j :| j in s && i == j + 1;
          if j != x { assert j in s - {x}; }
        }
      }
      assert x + 1 !in Shifted(s - {x});
      ShiftedSize(s - {x});
    }
  }

  /** The count equals the number of query positions whose token the row
      holds. */
  lemma {:induction false} CountPresentIsIndexCount(query: seq<string>, row: seq<string>)
    ensures CountPresent(query, row) == |PresentIndices(query, row)|
  {
    if query != [] {
      CountPresentIsIndexCount(query[1..], row);
      var shifted := Shifted(PresentIndices(query[1..], row));
      ShiftedSize(PresentIndices(query[1..], row));
      PresentIndicesStep(query, row);
      if query[0] in row {
        assert 0 !in shifted;
        assert |{0} + shifted| == 1 + |shifted|;
      }
    }
  }

  /** The present indices of a query: its head when present, and those of
      its tail moved up by one. */
  lemma PresentIndicesStep(query: seq<string>, row: seq<string>)
    requires query != []
    ensures PresentIndices(query, row) ==
      (if query[0] in row then {0} else {}) + Shifted(PresentIndices(query[1..], row))
  {
    var tail := PresentIndices(query[1..], row);
    var head: set<nat> := if query[0] in row then {0} else {};
    forall i: nat | i in PresentIndices(query, row) ensures i in head + Shifted(tail) {
      if i > 0 {
        assert query[1..][i - 1] == query[i];
        assert i - 1 in tail;
      }
    }
    forall i: nat | i in Shifted(tail) ensures i in PresentIndices(query, row) {
      var j :| j in tail && i == j + 1;
      assert query[1..][j] == query[i];
    }
  }

  /** The distinct tokens of a row. */
  function TokenSet(row: seq<string>): set<string> {
    set w | w in row
  }

  /** The count depends on the row only through the set of its tokens: the
      row's order and repetitions make no difference. */
  lemma {:induction false} CountPresentRowSet(query: seq<string>, row1: seq<string>, row2: seq<string>)
    requires TokenSet(row1) == TokenSet(row2)
    ensures CountPresent(query, row1) == CountPresent(query, row2)
  {
    if query != [] {
      assert query[0] in row1 <==> query[0] in TokenSet(row1);
      assert query[0] in row2 <==> query[0] in TokenSet(row2);
      CountPresentRowSet(query[1..], row1, row2);
    }
  }

  /** Counting a concatenated query adds the counts of its parts, so a
      repeated query token is counted each time. */
  lemma {:induction false} CountPresentConcat(q1: seq<string>, q2: seq<string>, row: seq<string>)
    ensures CountPresent(q1 + q2, row) == CountPresent(q1, row) + CountPresent(q2, row)
  {
    if q1 == [] {
      assert q1 + q2 == q2;
    } else {
      assert (q1 + q2)[1..] == q1[1..] + q2;
      CountPresentConcat(q1[1..], q2, row);
    }
  }

  /** Reordering the query does not change the count. */
  lemma {:induction false} CountPresentQueryOrder(q1: seq<string>, q2: seq<string>, row: seq<string>)
    requires multiset(q1) == multiset(q2)
    ensures CountPresent(q1, row) == CountPresent(q2, row)
  {
    if q1 != [] {
      var w := q1[0];
      assert w in multiset(q2);
      var k :| 0 <= k < |q2| && q2[k] == w;
      var rest := q2[..k] + q2[k + 1..];
      RemoveBoth(q1, q2, k);
      CountPresentQueryOrder(q1[1..], rest, row);
      CountPresentConcat(q2[..k] + [w], q2[k + 1..], row);
      CountPresentConcat(q2[..k], [w], row);
      CountPresentConcat(q2[..k], q2[k + 1..], row);
      CountPresentConcat([w], q1[1..], row);
    }
  }

  /** Taking one occurrence of the first token of `q1` out of both queries
      leaves equal multisets. */
  lemma RemoveBoth(q1: seq<string>, q2: seq<string>, k: nat)
    requires multiset(q1) == multiset(q2) && q1 != [] && k < |q2| && q2[k] == q1[0]
    ensures q2 == q2[..k] + [q1[0]] + q2[k + 1..] && q1 == [q1[0]] + q1[1..]
    ensures multiset(q1[1..]) == multiset(q2[..k] + q2[k + 1..])
  {
    var w := q1[0];
    assert q2 == q2[..k] + [w] + q2[k + 1..];
    assert q1 == [w] + q1[1..];
    assert multiset(q1) == multiset([w]) + multiset(q1[1..]);
    assert multiset(q2) == multiset(q2[..k]) + multiset([w]) + multiset(q2[k + 1..]);
    assert multiset(q2[..k] + q2[k + 1..]) == multiset(q2[..k]) + multiset(q2[k + 1..]);
    assert multiset(q1[1..]) == multiset(q1) - multiset{w};
    assert multiset(q2[..k] + q2[k + 1..]) == multiset(q2) - multiset{w};
  }

  /** `match_query`: the row text is tokenised and scored; under
      `requireAll` a partial score becomes 0. */
  function MatchQuery(rowText: string, query: seq<string>, requireAll: bool): (n: nat)
    ensures n <= |query|
    ensures requireAll ==> n == 0 || n == |query|
    ensures requireAll ==> (n == |query| <==> forall i :: 0 <= i < |query| ==> query[i] in Tokenize(rowText))
    ensures !requireAll ==> n == |PresentIndices(query, Tokenize(rowText))|
  {
    var count := CountPresent(query, Tokenize(rowText));
    CountPresentIsIndexCount(query, Tokenize(rowText));
    if !requireAll || count == |query| then count else 0
  }

  /** Two row texts with the same token set score the same against every
      query. */
  lemma MatchQueryRowSet(a: string, b: string, query: seq<string>, requireAll: bool)
    requires TokenSet(Tokenize(a)) == TokenSet(Tokenize(b))
    ensures MatchQuery(a, query, requireAll) == MatchQuery(b, query, requireAll)
  {
    CountPresentRowSet(query, Tokenize(a), Tokenize(b));
  }
}
