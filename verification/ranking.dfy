/**
 * Collecting one `(label, score)` entry per parsed resume, ranking the entries
 * with Python's stable `sorted(..., key=score, reverse=True)`, and the summary
 * shown under the table: the top candidate and the sum and count the average
 * is computed from.
 */
module Ranking {
  import opened Wrappers
  import opened PyText
  import opened Records
  import opened Scoring

  /** A row of the ranking table: candidate label and total score. */
  type Entry = (string, int)

  /** `f"Resume {n}"`. */
  function Label(n: nat): string {
    "Resume " + NatToString(n)
  }

  /** Different positions get different labels. */
  lemma LabelInjective(a: nat, b: nat)
    requires Label(a) == Label(b)
    ensures a == b
  {
    assert NatToString(a) == Label(a)[7..];
    assert NatToString(b) == Label(b)[7..];
    NatToStringInjective(a, b);
  }

  /** The entries the result loop has appended after visiting `parsed`, in order. */
  function ResultsFor(req: Requirements, parsed: seq<Option<Object>>, skillWeight: int, experienceWeight: int): (results: seq<Entry>)
    ensures |results| == |parsed|
  {
    if parsed == [] then []
    else
      ResultsFor(req, parsed[..|parsed| - 1], skillWeight, experienceWeight)
        + [(Label(|parsed|), ResumeScore(req, parsed[|parsed| - 1], skillWeight, experienceWeight))]
  }

  /** Entry `k` of `ResultsFor` is `("Resume k+1", score of record k)`. */
  lemma {:induction false} ResultsForAt(req: Requirements, parsed: seq<Option<Object>>, skillWeight: int, experienceWeight: int, k: int)
    requires 0 <= k < |parsed|
    ensures ResultsFor(req, parsed, skillWeight, experienceWeight)[k] == (Label(k + 1), ResumeScore(req, parsed[k], skillWeight, experienceWeight))
  {
    if k < |parsed| - 1 {
      ResultsForAt(req, parsed[..|parsed| - 1], skillWeight, experienceWeight, k);
    }
  }

  /**
   * The result loop: entry `i` is `("Resume i+1", score)` for the `i`-th
   * record, in input order, with score 0 for a falsy record; no two entries
   * share a label.
   */
  method CollectResults(req: Requirements, parsed: seq<Option<Object>>, skillWeight: int, experienceWeight: int)
    returns (results: seq<Entry>)
    ensures |results| == |parsed|
    ensures forall k :: 0 <= k < |parsed| ==> results[k] == (Label(k + 1), ResumeScore(req, parsed[k], skillWeight, experienceWeight))
    ensures forall k :: 0 <= k < |parsed| && IsFalsy(parsed[k]) ==> results[k] == (Label(k + 1), 0)
    ensures forall j, k :: 0 <= j < k < |results| ==> results[j].0 != results[k].0
  {
    results := [];
    for i := 0 to |parsed|
      invariant results == ResultsFor(req, parsed[..i], skillWeight, experienceWeight)
    {
      var score := ScoreResume(req, parsed[i], skillWeight, experienceWeight);
      assert parsed[..i + 1][..i] == parsed[..i];
      results := results + [(Label(i + 1), score)];
    }
    assert parsed[..|parsed|] == parsed;
    forall k | 0 <= k < |parsed| ensures results[k] == (Label(k + 1), ResumeScore(req, parsed[k], skillWeight, experienceWeight)) {
      ResultsForAt(req, parsed, skillWeight, experienceWeight, k);
    }
    forall k | 0 <= k < |parsed| && IsFalsy(parsed[k]) ensures results[k] == (Label(k + 1), 0) {
      FalsyScoresZero(req, parsed[k], skillWeight, experienceWeight);
    }
    LabelsDistinct(results);
  }

  /** Entries labelled by their one-based position carry distinct labels. */
  lemma LabelsDistinct(results: seq<Entry>)
    requires forall k :: 0 <= k < |results| ==> results[k].0 == Label(k + 1)
    ensures forall j, k :: 0 <= j < k < |results| ==> results[j].0 != results[k].0
  {
    forall j, k | 0 <= j < k < |results| ensures results[j].0 != results[k].0 {
      if results[j].0 == results[k].0 { LabelInjective(j + 1, k + 1); }
    }
  }

  // ------------------------------------------------------ stable descending sort

  /** Scores never increase along the sequence. */
  ghost predicate NonIncreasing(xs: seq<Entry>) {
    forall i, j :: 0 <= i < j < |xs| ==> xs[i].1 >= xs[j].1
  }

  /** The entries with score `k`, in their order in `xs`. */
  function WithScore(xs: seq<Entry>, k: int): seq<Entry> {
    if xs == [] then []
    else (if xs[0].1 == k then [xs[0]] else []) + WithScore(xs[1..], k)
  }

  /** Insert `x` before the first entry whose score is not above its own. */
  function InsertDesc(x: Entry, ys: seq<Entry>): (r: seq<Entry>)
    ensures |r| == |ys| + 1
    ensures r[0] == x || (ys != [] && r[0] == ys[0])
  {
    if ys == [] || ys[0].1 <= x.1 then [x] + ys
    else [ys[0]] + InsertDesc(x, ys[1..])
  }

  /** Inserting adds exactly the one entry. */
  lemma {:induction false} InsertDescPermutes(x: Entry, ys: seq<Entry>)
    ensures multiset(InsertDesc(x, ys)) == multiset(ys) + multiset{x}
  {
    if ys != [] && ys[0].1 > x.1 {
      InsertDescPermutes(x, ys[1..]);
      assert ys == [ys[0]] + ys[1..];
    }
  }

  /** Inserting into a non-increasing sequence keeps it non-increasing. */
  lemma {:induction false} InsertDescSorted(x: Entry, ys: seq<Entry>)
    requires NonIncreasing(ys)
    ensures NonIncreasing(InsertDesc(x, ys))
  {
    if ys != [] && ys[0].1 <= x.1 {
      ConsNonIncreasing(x, ys);
    } else if ys != [] {
      assert NonIncreasing(ys[1..]);
      InsertDescSorted(x, ys[1..]);
      ConsNonIncreasing(ys[0], InsertDesc(x, ys[1..]));
    }
  }

  /** Putting an entry in front of a non-increasing sequence whose first score it does not undercut. */
  lemma ConsNonIncreasing(x: Entry, ys: seq<Entry>)
    requires ys != [] && NonIncreasing(ys) && x.1 >= ys[0].1
    ensures NonIncreasing([x] + ys)
  {
    var r := [x] + ys;
    forall i, j | 0 <= i < j < |r| ensures r[i].1 >= r[j].1 {
      if i == 0 { assert r[j].1 <= ys[0].1; }
    }
  }

  /**
   * `sorted(xs, key=lambda x: x[1], reverse=True)`: a permutation of `xs`
   * whose scores never increase.
   */
  function SortDesc(xs: seq<Entry>): (r: seq<Entry>)
    ensures multiset(r) == multiset(xs)
    ensures NonIncreasing(r)
  {
    if xs == [] then []
    else
      var rest := SortDesc(xs[1..]);
      InsertDescPermutes(xs[0], rest);
      InsertDescSorted(xs[0], rest);
      assert multiset(xs) == multiset{xs[0]} + multiset(xs[1..]) by { assert xs == [xs[0]] + xs[1..]; }
      InsertDesc(xs[0], rest)
  }

  /** `WithScore` of an entry in front of a sequence. */
  lemma WithScoreCons(x: Entry, ys: seq<Entry>, k: int)
    ensures WithScore([x] + ys, k) == (if x.1 == k then [x] else []) + WithScore(ys, k)
  {
    assert ([x] + ys)[1..] == ys;
  }

  /** Inserting an entry adds it to the entries of its score, ahead of those already there. */
  lemma {:induction false} WithScoreInsert(x: Entry, ys: seq<Entry>, k: int)
    ensures WithScore(InsertDesc(x, ys), k) == (if x.1 == k then [x] else []) + WithScore(ys, k)
  {
    if ys == [] || ys[0].1 <= x.1 {
      assert InsertDesc(x, ys) == [x] + ys;
      WithScoreCons(x, ys, k);
    } else {
      var tail := InsertDesc(x, ys[1..]);
      assert InsertDesc(x, ys) == [ys[0]] + tail;
      WithScoreInsert(x, ys[1..], k);
      WithScoreCons(ys[0], tail, k);
      var rest := WithScore(ys[1..], k);
      assert WithScore(ys, k) == (if ys[0].1 == k then [ys[0]] else []) + rest;
      if x.1 == k {
        assert WithScore(InsertDesc(x, ys), k) == [x] + rest;
      } else if ys[0].1 == k {
        assert WithScore(InsertDesc(x, ys), k) == [ys[0]] + rest;
      } else {
        assert WithScore(InsertDesc(x, ys), k) == rest;
      }
    }
  }

  /**
   * Stability: for every score, the entries with that score appear in the
   * ranking in the same relative order as in the input.
   */
  lemma {:induction false} SortDescStable(xs: seq<Entry>, k: int)
    ensures WithScore(SortDesc(xs), k) == WithScore(xs, k)
  {
    if xs != [] {
      SortDescStable(xs[1..], k);
      WithScoreInsert(xs[0], SortDesc(xs[1..]), k);
    }
  }

  // ------------------------------------------------------------------ summary

  /** `sorted_results[0]` when the ranking is not empty. */
  function TopCandidate(ranked: seq<Entry>): (top: Option<Entry>)
    ensures top.None? <==> ranked == []
    ensures top.Some? ==> top.value == ranked[0]
  {
    if |ranked| > 0 then Some(ranked[0]) else None
  }

  /** The top candidate of the ranking is an input entry whose score is at least every input score. */
  lemma TopCandidateIsBest(xs: seq<Entry>)
    ensures TopCandidate(SortDesc(xs)).None? <==> xs == []
    ensures TopCandidate(SortDesc(xs)).Some? ==>
      TopCandidate(SortDesc(xs)).value in xs &&
      forall k :: 0 <= k < |xs| ==> xs[k].1 <= TopCandidate(SortDesc(xs)).value.1
  {
    var r := SortDesc(xs);
    if xs != [] {
      assert xs[0] in multiset(xs);
      assert r != [];
      assert r[0] in multiset(r);
      forall k | 0 <= k < |xs| ensures xs[k].1 <= r[0].1 {
        assert xs[k] in multiset(r);
        var j :| 0 <= j < |r| && r[j] == xs[k];
      }
    }
  }

  /** `sum(s for _, s in entries)`. */
  function ScoreSum(xs: seq<Entry>): int {
    if xs == [] then 0 else xs[0].1 + ScoreSum(xs[1..])
  }

  /** Scores that are all non-negative have a non-negative sum, so the average is non-negative. */
  lemma {:induction false} ScoreSumNonNegative(xs: seq<Entry>)
    requires forall k :: 0 <= k < |xs| ==> xs[k].1 >= 0
    ensures ScoreSum(xs) >= 0
  {
    if xs != [] {
      ScoreSumNonNegative(xs[1..]);
    }
  }

  lemma {:induction false} ScoreSumInsert(x: Entry, ys: seq<Entry>)
    ensures ScoreSum(InsertDesc(x, ys)) == x.1 + ScoreSum(ys)
  {
    if ys == [] || ys[0].1 <= x.1 {
      assert ([x] + ys)[1..] == ys;
    } else {
      var tail := InsertDesc(x, ys[1..]);
      ScoreSumInsert(x, ys[1..]);
      assert ([ys[0]] + tail)[1..] == tail;
    }
  }

  /** Ranking does not change the sum of the scores, so the average is that of `all_results`. */
  lemma {:induction false} SortDescKeepsSum(xs: seq<Entry>)
    ensures ScoreSum(SortDesc(xs)) == ScoreSum(xs)
    ensures |SortDesc(xs)| == |xs|
  {
    if xs != [] {
      SortDescKeepsSum(xs[1..]);
      ScoreSumInsert(xs[0], SortDesc(xs[1..]));
    }
    assert |multiset(SortDesc(xs))| == |multiset(xs)|;
  }

  /** A non-increasing ranking sums to at most its length times its first score, so the average never exceeds the top score. */
  lemma {:induction false} SumBoundedByTop(ranked: seq<Entry>)
    requires ranked != [] && NonIncreasing(ranked)
    ensures ScoreSum(ranked) <= |ranked| * ranked[0].1
  {
    if |ranked| > 1 {
      var tail := ranked[1..];
      assert NonIncreasing(tail);
      SumBoundedByTop(tail);
      assert tail[0].1 <= ranked[0].1;
      assert |tail| * tail[0].1 <= |tail| * ranked[0].1 by {
        MulMonotone(|tail|, tail[0].1, ranked[0].1);
      }
    }
  }

  lemma MulMonotone(n: nat, a: int, b: int)
    requires a <= b
    ensures n * a <= n * b
  {
  }
}
