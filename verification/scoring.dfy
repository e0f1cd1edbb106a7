/**
 * Scoring one parsed resume against the job requirements: bidirectional
 * substring matching of skills, the experience test, and the weighted total.
 */
module Scoring {
  import opened Wrappers
  import opened PyText
  import opened Records

  /** `req in cand or cand in req`: either skill is a substring of the other. */
  predicate SkillsMatch(req: string, cand: string) {
    Contains(cand, req) || Contains(req, cand)
  }

  /** The match test is symmetric: `req in cand or cand in req` does not depend on which skill is required. */
  lemma SkillsMatchSymmetric(a: string, b: string)
    ensures SkillsMatch(a, b) <==> SkillsMatch(b, a)
  {
  }

  /** What the inner loop appends for one required skill: `req` once per matching candidate skill. */
  function MatchRow(req: string, cands: seq<string>): seq<string> {
    if cands == [] then []
    else MatchRow(req, cands[..|cands| - 1]) + (if SkillsMatch(req, cands[|cands| - 1]) then [req] else [])
  }

  /** The whole `matched_skills` list the two nested loops build, in append order. */
  function MatchedList(reqs: seq<string>, cands: seq<string>): seq<string> {
    if reqs == [] then []
    else MatchedList(reqs[..|reqs| - 1], cands) + MatchRow(reqs[|reqs| - 1], cands)
  }

  /** Some candidate skill matches `req`. */
  ghost predicate HasMatch(req: string, cands: seq<string>) {
    exists c :: c in cands && SkillsMatch(req, c)
  }

  lemma {:induction false} MatchRowMembers(req: string, cands: seq<string>, x: string)
    ensures x in MatchRow(req, cands) <==> x == req && HasMatch(req, cands)
  {
    if cands != [] {
      var init, last := cands[..|cands| - 1], cands[|cands| - 1];
      MatchRowMembers(req, init, x);
      assert cands == init + [last];
      assert forall c :: c in cands <==> c in init || c == last;
    }
  }

  /** A string is in `matched_skills` exactly when it is a required skill that some candidate skill matches. */
  lemma {:induction false} MatchedListMembers(reqs: seq<string>, cands: seq<string>, x: string)
    ensures x in MatchedList(reqs, cands) <==> x in reqs && HasMatch(x, cands)
  {
    if reqs != [] {
      var init, last := reqs[..|reqs| - 1], reqs[|reqs| - 1];
      MatchedListMembers(init, cands, x);
      MatchRowMembers(last, cands, x);
      assert reqs == init + [last];
      assert forall r :: r in reqs <==> r in init || r == last;
    }
  }

  /** The nested loops of the skill matching, appending to `matched_skills`. */
  method MatchSkills(reqs: seq<string>, cands: seq<string>) returns (matched: seq<string>)
    ensures matched == MatchedList(reqs, cands)
    ensures forall x :: x in matched <==> x in reqs && HasMatch(x, cands)
  {
    matched := [];
    for i := 0 to |reqs|
      invariant matched == MatchedList(reqs[..i], cands)
    {
      var req := reqs[i];
      for j := 0 to |cands|
        invariant matched == MatchedList(reqs[..i], cands) + MatchRow(req, cands[..j])
      {
        var cand := cands[j];
        assert cands[..j + 1][..j] == cands[..j];
        if Contains(cand, req) || Contains(req, cand) {
          matched := matched + [req];
        }
      }
      assert reqs[..i + 1][..i] == reqs[..i];
      assert cands[..|cands|] == cands;
    }
    assert reqs[..|reqs|] == reqs;
    forall x ensures x in matched <==> x in reqs && HasMatch(x, cands) {
      MatchedListMembers(reqs, cands, x);
    }
  }

  /** `set(matched_skills)`: the distinct required skills that some candidate skill matches. */
  function MatchedSet(reqs: seq<string>, cands: seq<string>): (m: set<string>)
    ensures forall x :: x in m <==> x in reqs && HasMatch(x, cands)
  {
    var m := set x | x in MatchedList(reqs, cands);
    assert forall x :: x in m <==> x in reqs && HasMatch(x, cands) by {
      forall x ensures x in m <==> x in reqs && HasMatch(x, cands) {
        MatchedListMembers(reqs, cands, x);
      }
    }
    m
  }

  /** The skill score never exceeds the number of distinct required skills. */
  lemma SkillScoreBound(reqs: seq<string>, cands: seq<string>)
    ensures MatchedSet(reqs, cands) <= set r | r in reqs
    ensures |MatchedSet(reqs, cands)| <= |set r | r in reqs|
  {
    SubsetCard(MatchedSet(reqs, cands), set r | r in reqs);
  }

  /** A subset is no larger than its superset. */
  lemma {:induction false} SubsetCard<T>(a: set<T>, b: set<T>)
    requires a <= b
    ensures |a| <= |b|
    decreases |b|
  {
    if a != {} {
      var x :| x in a;
      SubsetCard(a - {x}, b - {x});
    }
  }

  /** Only which candidate skills occur matters: repeating one cannot raise the score. */
  lemma CandidateDuplicatesIgnored(reqs: seq<string>, c1: seq<string>, c2: seq<string>)
    requires forall c :: c in c1 <==> c in c2
    ensures MatchedSet(reqs, c1) == MatchedSet(reqs, c2)
  {
    forall x ensures x in MatchedSet(reqs, c1) <==> x in MatchedSet(reqs, c2) {
      if HasMatch(x, c1) { var c :| c in c1 && SkillsMatch(x, c); assert c in c2; }
      if HasMatch(x, c2) { var c :| c in c2 && SkillsMatch(x, c); assert c in c1; }
    }
  }

  /** Python's `"" in s` holds for every `s`, so an empty candidate skill matches every required skill. */
  lemma EmptyCandidateSkillMatchesAll(reqs: seq<string>, cands: seq<string>)
    requires "" in cands
    ensures MatchedSet(reqs, cands) == set r | r in reqs
  {
    forall r | r in reqs ensures HasMatch(r, cands) {
      assert OccursAt(r, "", 0);
      assert SkillsMatch(r, "");
    }
  }

  /** `skill_score * skill_weight + experience_score * experience_weight`. */
  function TotalScore(skillScore: int, experienceMet: bool, skillWeight: int, experienceWeight: int): (total: int)
    ensures skillScore >= 0 && skillWeight >= 0 && experienceWeight >= 0 ==> total >= 0
  {
    skillScore * skillWeight + (if experienceMet then 1 else 0) * experienceWeight
  }

  /**
   * With the slider weights (at least 1), the total is never negative, grows
   * strictly with the skill score, and meeting the experience bar adds
   * exactly the experience weight.
   */
  lemma {:induction false} TotalScoreMonotone(s1: nat, s2: nat, met: bool, skillWeight: int, experienceWeight: int)
    requires skillWeight >= 1 && experienceWeight >= 1
    ensures TotalScore(s1, met, skillWeight, experienceWeight) >= 0
    ensures s1 < s2 ==> TotalScore(s1, met, skillWeight, experienceWeight) < TotalScore(s2, met, skillWeight, experienceWeight)
    ensures TotalScore(s1, true, skillWeight, experienceWeight) == TotalScore(s1, false, skillWeight, experienceWeight) + experienceWeight
  {
    if s1 < s2 {
      assert (s2 - s1) * skillWeight >= 1 by { MulPositive(s2 - s1, skillWeight); }
      assert s2 * skillWeight - s1 * skillWeight == (s2 - s1) * skillWeight;
    }
    MulPositive(s1 + 1, skillWeight);
  }

  /** Product of two positive integers is positive. */
  lemma MulPositive(a: int, b: int)
    requires a >= 1 && b >= 1
    ensures a * b >= 1
  {
  }

  /** The outcome of scoring one non-falsy resume record. */
  datatype Evaluation = Evaluation(matched: set<string>, experienceMet: bool, total: int)

  /**
   * Scoring a record: the matched skills are the required skills with a
   * bidirectional substring match among the lower-cased candidate skills,
   * the experience test compares years, and the total weighs both.
   */
  function Evaluate(req: Requirements, data: Object, skillWeight: int, experienceWeight: int): (e: Evaluation)
    ensures forall r :: r in e.matched <==> r in req.requiredSkills && HasMatch(r, LowerAll(StringsAt(data, "skills")))
    ensures e.experienceMet <==> NumberAt(data, "experience_years") >= req.minimumExp
    ensures e.total == TotalScore(|e.matched|, e.experienceMet, skillWeight, experienceWeight)
  {
    var matched := MatchedSet(req.requiredSkills, LowerAll(StringsAt(data, "skills")));
    var met := NumberAt(data, "experience_years") >= req.minimumExp;
    Evaluation(matched, met, TotalScore(|matched|, met, skillWeight, experienceWeight))
  }

  /** The score recorded for one entry of `parsed_resumes`: 0 for a falsy record. */
  function ResumeScore(req: Requirements, data: Option<Object>, skillWeight: int, experienceWeight: int): int {
    if IsFalsy(data) then 0 else Evaluate(req, data.value, skillWeight, experienceWeight).total
  }

  /** A falsy record scores 0 whatever the weights and requirements. */
  lemma FalsyScoresZero(req: Requirements, data: Option<Object>, skillWeight: int, experienceWeight: int)
    requires data == None || data == Some(map[])
    ensures ResumeScore(req, data, skillWeight, experienceWeight) == 0
  {
  }

  /**
   * Under the fallback requirements (no skills, minimum 0) nothing matches and
   * the experience test reduces to the candidate's years being non-negative;
   * a record without `experience_years` meets it.
   */
  lemma FallbackRequirementsScore(data: Object, skillWeight: int, experienceWeight: int)
    ensures Evaluate(Requirements([], 0.0), data, skillWeight, experienceWeight).matched == {}
    ensures Evaluate(Requirements([], 0.0), data, skillWeight, experienceWeight).experienceMet
        <==> NumberAt(data, "experience_years") >= 0.0
    ensures "experience_years" !in data ==>
      Evaluate(Requirements([], 0.0), data, skillWeight, experienceWeight).total == experienceWeight
  {
    var e := Evaluate(Requirements([], 0.0), data, skillWeight, experienceWeight);
    assert forall r :: r !in e.matched;
  }

  /** The loop body for one record: the falsy short-circuit, then matching, experience test and weighting. */
  method ScoreResume(req: Requirements, resumeData: Option<Object>, skillWeight: int, experienceWeight: int)
    returns (score: int)
    ensures score == ResumeScore(req, resumeData, skillWeight, experienceWeight)
    ensures IsFalsy(resumeData) ==> score == 0
  {
    if resumeData.None? || resumeData.value == map[] {
      return 0;
    }
    var candidateSkills := LowerAll(StringsAt(resumeData.value, "skills"));
    var candidateExp := NumberAt(resumeData.value, "experience_years");
    var matchedSkills := MatchSkills(req.requiredSkills, candidateSkills);
    var distinct := set x | x in matchedSkills;
    assert distinct == MatchedSet(req.requiredSkills, candidateSkills);
    var skillScore := |distinct|;
    var experienceMatch := candidateExp >= req.minimumExp;
    var experienceScore := if experienceMatch then 1 else 0;
    score := skillScore * skillWeight + experienceScore * experienceWeight;
  }
}
