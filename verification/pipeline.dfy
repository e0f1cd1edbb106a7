/**
 * The two phases of one screening run, wired together: the analysis triggered
 * by the Analyze button (split the batch, analyse the job description, parse
 * every resume reply), and the scoring and ranking that are recomputed for
 * the current slider weights. The language-model service is a function
 * parameter per prompt: it maps the text sent to the reply received.
 */
module Pipeline {
  import opened Wrappers
  import opened Records
  import opened ResumeBatch
  import opened Extraction
  import opened Scoring
  import opened Ranking

  /** What the analysis keeps between renders: the requirements and one record per resume. */
  datatype Analysis = Analysis(requirements: Requirements, parsed: seq<Option<Object>>)

  /**
   * The Analyze action: nothing when either text is empty; otherwise the
   * requirements of the job-description reply and one parsed record per
   * resume of the split batch, in batch order.
   */
  method Analyze(jd: string, resumes: string, jdService: string -> string, resumeService: string -> string, decode: Decoder)
    returns (analysis: Option<Analysis>)
    ensures analysis.None? <==> jd == [] || resumes == []
    ensures analysis.Some? ==> analysis.value.requirements == AnalyzeJd(jdService(jd), decode)
    ensures analysis.Some? ==> |analysis.value.parsed| == |SplitResumes(resumes)|
    ensures analysis.Some? ==> forall k :: 0 <= k < |analysis.value.parsed| ==>
      analysis.value.parsed[k] == ParseReply(resumeService(SplitResumes(resumes)[k]), decode)
  {
    if jd == [] || resumes == [] {
      return None;
    }
    var resumeList := SplitResumes(resumes);
    var requirements := AnalyzeJd(jdService(jd), decode);
    var replies := seq(|resumeList|, k requires 0 <= k < |resumeList| => resumeService(resumeList[k]));
    var parsed := ParseResumes(replies, decode);
    forall k | 0 <= k < |parsed| ensures parsed[k] == ParseReply(resumeService(resumeList[k]), decode) {
      ParseAllAt(replies, decode, k);
    }
    return Some(Analysis(requirements, parsed));
  }

  /** `all_results` as a value: entry `k` labels and scores the `k`-th record. */
  function AllResults(a: Analysis, skillWeight: int, experienceWeight: int): (results: seq<Entry>)
    ensures |results| == |a.parsed|
    ensures forall k :: 0 <= k < |a.parsed| ==>
      results[k] == (Label(k + 1), ResumeScore(a.requirements, a.parsed[k], skillWeight, experienceWeight))
  {
    seq(|a.parsed|, k requires 0 <= k < |a.parsed| =>
      (Label(k + 1), ResumeScore(a.requirements, a.parsed[k], skillWeight, experienceWeight)))
  }

  /** With weights of at least 1, every score is non-negative. */
  lemma ScoresNonNegative(a: Analysis, skillWeight: int, experienceWeight: int)
    requires skillWeight >= 1 && experienceWeight >= 1
    ensures forall e :: e in AllResults(a, skillWeight, experienceWeight) ==> e.1 >= 0
  {
    var results := AllResults(a, skillWeight, experienceWeight);
    forall e | e in results ensures e.1 >= 0 {
      var k :| 0 <= k < |results| && results[k] == e;
      if !IsFalsy(a.parsed[k]) {
        var ev := Evaluate(a.requirements, a.parsed[k].value, skillWeight, experienceWeight);
        TotalScoreMonotone(|ev.matched|, |ev.matched|, ev.experienceMet, skillWeight, experienceWeight);
      }
    }
  }

  /**
   * Scoring and ranking for the current weights: the ranking is a
   * non-increasing, stable permutation of `all_results`; the top candidate
   * exists exactly when some resume was parsed and scores at least every
   * entry; the sum and count are those of `all_results`.
   */
  method RankCandidates(a: Analysis, skillWeight: int, experienceWeight: int)
    returns (ranked: seq<Entry>, top: Option<Entry>, scoreSum: int, count: nat)
    ensures multiset(ranked) == multiset(AllResults(a, skillWeight, experienceWeight))
    ensures NonIncreasing(ranked)
    ensures forall k :: WithScore(ranked, k) == WithScore(AllResults(a, skillWeight, experienceWeight), k)
    ensures top.Some? <==> a.parsed != []
    ensures top.Some? ==> top.value == ranked[0] && forall e :: e in ranked ==> e.1 <= top.value.1
    ensures count == |a.parsed| && scoreSum == ScoreSum(AllResults(a, skillWeight, experienceWeight))
    ensures top.Some? ==> scoreSum <= count * top.value.1
  {
    var allResults := CollectResults(a.requirements, a.parsed, skillWeight, experienceWeight);
    assert allResults == AllResults(a, skillWeight, experienceWeight);
    ranked := SortDesc(allResults);
    forall k ensures WithScore(ranked, k) == WithScore(allResults, k) {
      SortDescStable(allResults, k);
    }
    SortDescKeepsSum(allResults);
    top := TopCandidate(ranked);
    if top.Some? {
      forall e | e in ranked ensures e.1 <= top.value.1 {
        var j :| 0 <= j < |ranked| && ranked[j] == e;
        if j > 0 { assert ranked[0].1 >= ranked[j].1; }
      }
      SumBoundedByTop(ranked);
    }
    scoreSum := ScoreSum(ranked);
    count := |ranked|;
  }
}
