/** Ordering row indices by a score per row, highest first. */
module Ranking {
  /** Every element of `s` indexes `scores`. */
  predicate InRange(s: seq<nat>, scores: seq<nat>) {
    forall i :: 0 <= i < |s| ==> s[i] < |scores|
  }

  /** The rows `s` appear by score, highest first. */
  predicate Descending(s: seq<nat>, scores: seq<nat>)
    requires InRange(s, scores)
  {
    forall i, j :: 0 <= i < j < |s| ==> scores[s[i]] >= scores[s[j]]
  }

  /** Inserts row `x` into a descending sequence of rows. */
  function InsertByScore(x: nat, s: seq<nat>, scores: seq<nat>): (r: seq<nat>)
    requires x < |scores| && InRange(s, scores)
    ensures multiset(r) == multiset(s) + multiset{x}
    ensures InRange(r, scores)
    ensures r[0] == x || (s != [] && r[0] == s[0])
  {
    if s == [] then [x]
    else if scores[s[0]] < scores[x] then [x] + s
    else
      var t := InsertByScore(x, s[1..], scores);
      assert s == [s[0]] + s[1..];
      assert multiset([s[0]] + t) == multiset{s[0]} + multiset(t);
      [s[0]] + t
  }

  lemma {:induction false} InsertByScoreDescending(x: nat, s: seq<nat>, scores: seq<nat>)
    requires x < |scores| && InRange(s, scores)
    requires Descending(s, scores)
    ensures Descending(InsertByScore(x, s, scores), scores)
  {
    if s != [] && scores[s[0]] >= scores[x] {
      var t := InsertByScore(x, s[1..], scores);
      InsertByScoreDescending(x, s[1..], scores);
      var r := [s[0]] + t;
      forall i, j | 0 <= i < j < |r| ensures scores[r[i]] >= scores[r[j]] {
        if i == 0 {
          if t[j - 1] != x {
            assert t[j - 1] in multiset(t);
            assert t[j - 1] in multiset(s[1..]);
            var m :| 0 <= m < |s[1..]| && s[1..][m] == t[j - 1];
            assert s[m + 1] == t[j - 1];
          }
        } else {
          assert r[i] == t[i - 1] && r[j] == t[j - 1];
        }
      }
    }
  }

  /** Orders rows by score, highest first (`sort_values(ascending=False)`). */
  function SortByScore(s: seq<nat>, scores: seq<nat>): (r: seq<nat>)
    requires InRange(s, scores)
    ensures multiset(r) == multiset(s)
    ensures InRange(r, scores) && Descending(r, scores)
  {
    if s == [] then []
    else
      var t := SortByScore(s[1..], scores);
      assert s == [s[0]] + s[1..];
      InsertByScoreDescending(s[0], t, scores);
      InsertByScore(s[0], t, scores)
  }

  /** The scores along a result, in order. */
  function ScoreSeq(res: seq<nat>, scores: seq<nat>): (r: seq<nat>)
    requires InRange(res, scores)
    ensures |r| == |res| && forall i :: 0 <= i < |res| ==> r[i] == scores[res[i]]
  {
    seq(|res|, i requires 0 <= i < |res| => scores[res[i]])
  }

  lemma ScoreSeqConcat(a: seq<nat>, b: seq<nat>, scores: seq<nat>)
    requires InRange(a, scores) && InRange(b, scores)
    ensures InRange(a + b, scores)
    ensures ScoreSeq(a + b, scores) == ScoreSeq(a, scores) + ScoreSeq(b, scores)
  {
  }

  /** Removing the element at `k` removes one copy of it. */
  lemma MultisetRemove(b: seq<nat>, k: nat)
    requires k < |b|
    ensures multiset(b[..k] + b[k + 1..]) == multiset(b) - multiset{b[k]}
  {
    assert b == b[..k] + [b[k]] + b[k + 1..];
  }

  lemma ScoreSeqRemove(b: seq<nat>, k: nat, scores: seq<nat>)
    requires InRange(b, scores) && k < |b|
    ensures InRange(b[..k] + b[k + 1..], scores)
    ensures multiset(ScoreSeq(b, scores))
         == multiset(ScoreSeq(b[..k] + b[k + 1..], scores)) + multiset{scores[b[k]]}
  {
    assert b == b[..k] + [b[k]] + b[k + 1..];
    ScoreSeqConcat(b[..k], [b[k]], scores);
    ScoreSeqConcat(b[..k] + [b[k]], b[k + 1..], scores);
    ScoreSeqConcat(b[..k], b[k + 1..], scores);
  }

  /** Taking the head of `a` out of `a`, and the same row out of `b` at `k`,
      leaves two lists with the same rows. */
  lemma RemoveMatchingRow(a: seq<nat>, b: seq<nat>, k: nat)
    requires a != [] && k < |b| && b[k] == a[0]
    requires multiset(a) == multiset(b)
    ensures multiset(a[1..]) == multiset(b[..k] + b[k + 1..])
  {
    assert a[..0] + a[1..] == a[1..];
    MultisetRemove(b, k);
    MultisetRemove(a, 0);
  }

  lemma ScoreSeqHead(a: seq<nat>, scores: seq<nat>)
    requires InRange(a, scores) && a != []
    ensures InRange(a[1..], scores)
    ensures multiset(ScoreSeq(a, scores)) == multiset(ScoreSeq(a[1..], scores)) + multiset{scores[a[0]]}
  {
    assert ScoreSeq(a, scores) == [scores[a[0]]] + ScoreSeq(a[1..], scores);
  }

  /** Two orders of the same rows carry the same scores. */
  lemma {:induction false} ScoreSeqMultiset(a: seq<nat>, b: seq<nat>, scores: seq<nat>)
    requires InRange(a, scores) && InRange(b, scores)
    requires multiset(a) == multiset(b)
    ensures multiset(ScoreSeq(a, scores)) == multiset(ScoreSeq(b, scores))
  {
    if a != [] {
      assert a[0] in multiset(b);
      var k :| 0 <= k < |b| && b[k] == a[0];
      RemoveMatchingRow(a, b, k);
      ScoreSeqHead(a, scores);
      ScoreSeqRemove(b, k, scores);
      ScoreSeqMultiset(a[1..], b[..k] + b[k + 1..], scores);
    }
  }

  /** `a` is non-increasing. */
  predicate NonIncreasing(a: seq<nat>) {
    forall i, j :: 0 <= i < j < |a| ==> a[i] >= a[j]
  }

  /** The head of a non-increasing sequence is its largest element. */
  lemma HeadIsMax(a: seq<nat>, v: nat)
    requires NonIncreasing(a)
    requires v in multiset(a)
    ensures v <= a[0]
  {
    var i :| 0 <= i < |a| && a[i] == v;
  }

  lemma NonIncreasingTail(a: seq<nat>)
    requires NonIncreasing(a) && a != []
    ensures NonIncreasing(a[1..])
  {
    forall i, j | 0 <= i < j < |a| - 1 ensures a[1..][i] >= a[1..][j] {
      assert a[1..][i] == a[i + 1] && a[1..][j] == a[j + 1];
    }
  }

  lemma HeadTailMultiset(a: seq<nat>)
    requires a != []
    ensures multiset(a[1..]) == multiset(a) - multiset{a[0]}
    ensures a == [a[0]] + a[1..]
  {
    MultisetRemove(a, 0);
    assert a[..0] + a[1..] == a[1..];
  }

  /** Two non-increasing sequences with the same elements are equal. */
  lemma {:induction false} DescendingUnique(a: seq<nat>, b: seq<nat>)
    requires multiset(a) == multiset(b)
    requires NonIncreasing(a) && NonIncreasing(b)
    ensures a == b
  {
    if a != [] {
      HeadsAgree(a, b);
      DescendingUnique(a[1..], b[1..]);
      assert a == [a[0]] + a[1..] && b == [b[0]] + b[1..];
    }
  }

  /** Two non-increasing orderings of one multiset start with the same
      element and go on with orderings of one multiset. */
  lemma HeadsAgree(a: seq<nat>, b: seq<nat>)
    requires multiset(a) == multiset(b)
    requires NonIncreasing(a) && NonIncreasing(b) && a != []
    ensures b != [] && a[0] == b[0]
    ensures multiset(a[1..]) == multiset(b[1..])
    ensures NonIncreasing(a[1..]) && NonIncreasing(b[1..])
  {
    assert |a| == |multiset(a)| == |b|;
    HeadIsMax(b, a[0]);
    HeadIsMax(a, b[0]);
    HeadTailMultiset(a);
    HeadTailMultiset(b);
    NonIncreasingTail(a);
    NonIncreasingTail(b);
  }

  /** `res` lists every row whose score is positive exactly once, no other
      row, and orders them by score, highest first. */
  ghost predicate Ranks(res: seq<nat>, scores: seq<nat>) {
    InRange(res, scores)
    && (forall k: nat :: multiset(res)[k] == if k < |scores| && scores[k] > 0 then 1 else 0)
    && Descending(res, scores)
  }

  /** A ranking holds exactly the rows with a positive score. */
  lemma RanksMembers(res: seq<nat>, scores: seq<nat>)
    requires Ranks(res, scores)
    ensures forall k :: 0 <= k < |scores| ==> (k in res <==> scores[k] > 0)
    ensures (forall k :: 0 <= k < |scores| ==> scores[k] == 0) ==> res == []
  {
    forall k | 0 <= k < |scores| ensures k in res <==> scores[k] > 0 {
      assert k in res <==> multiset(res)[k] > 0;
    }
    if res != [] {
      assert res[0] in res && res[0] < |scores|;
    }
  }

  /** Keeps the rows with a positive score, in row order, then orders them by
      score. */
  method RankPositive(scores: seq<nat>) returns (res: seq<nat>)
    ensures Ranks(res, scores)
  {
    var kept: seq<nat> := [];
    for k := 0 to |scores|
      invariant InRange(kept, scores)
      invariant forall j: nat :: multiset(kept)[j] == if j < k && scores[j] > 0 then 1 else 0
    {
      if scores[k] > 0 {
        kept := kept + [k];
      }
    }
    res := SortByScore(kept, scores);
  }

  /** A ranking is fixed up to the order of rows with equal scores: any two
      rankings of the same scores have the same length and the same score at
      every position. */
  lemma RanksDetermined(r1: seq<nat>, r2: seq<nat>, scores: seq<nat>)
    requires Ranks(r1, scores) && Ranks(r2, scores)
    ensures |r1| == |r2|
    ensures forall i :: 0 <= i < |r1| ==> scores[r1[i]] == scores[r2[i]]
  {
    assert multiset(r1) == multiset(r2) by {
      forall k ensures multiset(r1)[k] == multiset(r2)[k] {
        if k < 0 {
          assert k !in r1 && k !in r2;
        }
      }
    }
    ScoreSeqMultiset(r1, r2, scores);
    assert NonIncreasing(ScoreSeq(r1, scores)) && NonIncreasing(ScoreSeq(r2, scores));
    DescendingUnique(ScoreSeq(r1, scores), ScoreSeq(r2, scores));
    assert |r1| == |ScoreSeq(r1, scores)|;
  }
}
