# Candidate screening core, modelled in Dafny

`app.py` is a Streamlit page that screens candidates for a job. A recruiter
pastes a job description and a batch of resumes separated by `###`. A
language-model service turns the job description into required skills and a
minimum number of years, and turns each resume into skills and years of
experience. The page then scores every resume against the requirements with
two slider weights and ranks the candidates.

This project models the deterministic part of that pipeline:

- **Batch splitting.** `split("###")`, `strip()` and the blank filter
  (`ResumeBatch`).
- **JSON extraction.** Locating the JSON object in a reply: `find("{")`,
  `rfind("}") + 1`, Python slicing, and the resume guard. Then the JD
  fallback and the `.get(..., default)` lookups (`Extraction`, `Records`).
- **Matching and scoring.** Bidirectional substring matching of skills as
  two nested loops, the distinct-match count, the experience test and the
  weighted total (`Scoring`).
- **Collection and ranking.** Collecting `(label, score)` entries, the stable
  descending `sorted`, the top candidate, and the sum and count behind the
  average (`Ranking`).
- **The two phases end to end** (`Pipeline`).

`PyText` holds the Python string builtins this needs, with Python's
semantics:

- `strip()` uses the full `str.isspace` set.
- `find` and `rfind` return -1 when there is no occurrence.
- `in` is true for the empty string.
- Slice bounds are normalised: a negative index counts from the end, and
  crossed bounds give `""`.
- `split` with a non-empty separator.
- `str(n)`.

The language-model service is a function parameter `string -> string` for each
prompt. `json.loads` is a `Decoder` parameter returning `Some(object)` or
`None` when it raises. The code is modelled as written:

- The resume guard `start == -1 or end == -1` tests `end`, but `end` is
  `rfind + 1` and never -1 (`Extraction.ResumeGuardIsStartOnly`). A reply with
  `{` but no later `}` hands the decoder `""` (`Extraction.NoClosingBraceGivesEmpty`).
- The JD path has no guard. With no `{`, the start index -1 counts from the
  end, so the decoder receives `""` or `"}"` (`Extraction.JdJsonTextShape`).
  `json.loads` rejects both, so the fallback applies: for any decoder that
  rejects `""` and `"}"`, a JD reply without `{` gives no skills and a
  minimum of 0 (`Extraction.JdWithoutBraceFallsBack`).
- The fallback sets the minimum to 0, so the experience test reduces to
  "years >= 0". It is not "always met" (`Scoring.FallbackRequirementsScore`).

## Model

| member | source | states |
|---|---|---|
| PyText.Strip | app.py:36 | the stripped text is no longer than the input and neither starts nor ends with whitespace |
| PyText.StripWindow | app.py:36 | `strip()` keeps one contiguous window of the input; everything cut away on either side is whitespace |
| PyText.StripIdempotent | app.py:36 | stripping an already stripped resume changes nothing |
| PyText.StripEmptyIff | app.py:36 | `r.strip()` is empty (the piece is filtered out) exactly when every character of `r` is whitespace |
| PyText.StripKeeps | app.py:121-123 | a non-whitespace character such as `{` occurs in the stripped reply exactly when it occurs in the raw reply |
| PyText.Find | app.py:67 | `find` returns an index where the substring occurs with no occurrence before it, or -1 when it occurs nowhere |
| PyText.RFind | app.py:68 | `rfind` returns an occurrence with no occurrence after it, or -1 |
| PyText.FindChar | app.py:123 | `find("{")` is -1 exactly when there is no `{`; otherwise it indexes a `{` with none before it |
| PyText.RFindChar | app.py:124 | `rfind("}")` is -1 exactly when there is no `}`; otherwise it indexes a `}` with none after it |
| PyText.ContainsIff | app.py:175 | `a in b` on strings holds exactly when `a` occurs in `b` at some index |
| PyText.Slice | app.py:69 | `s[start:end]` has at most `len(s)` characters; with both bounds inside `[0, len]` it is the ordinary slice, and crossed normalised bounds give `""` |
| PyText.SliceBound | app.py:69 | a slice bound already inside `[0, len]` is kept, and every normalised bound lies in `[0, len]` |
| PyText.Split | app.py:36 | `split` always yields at least one piece |
| PyText.SplitJoin | app.py:36 | joining the pieces of `split(sep)` with `sep` gives the input back |
| PyText.SplitPiecesFree | app.py:36 | no piece of `split(sep)` contains `sep` |
| PyText.JoinSplit | app.py:27 | a list of pieces that `split` could have produced (each piece but the last is cut where `find` cuts it, and the last holds no separator), joined with the separator, splits back into exactly those pieces |
| PyText.SplitStep | app.py:36 | when the leftmost separator follows `p`, `split` yields `p` and then the pieces of the rest |
| PyText.SplitCutsCleanly | app.py:36 | every cut `split` makes is at the leftmost occurrence of the separator, and the last piece holds no separator |
| PyText.SplitUnique | app.py:36 | `split` is the only list of cleanly cut pieces that joins back to the input |
| PyText.CutsCleanlyWithoutFirstChar | app.py:27 | pieces that lack the separator's first character (resumes without `#` for `###`) are cut cleanly |
| PyText.LeftmostAt | app.py:67 | an occurrence with none before it is what `find` returns |
| PyText.RightmostAt | app.py:68 | an occurrence with none after it is what `rfind` returns |
| PyText.FindBeforeRest | app.py:36 | text appended after the first separator does not move where `find` cuts |
| PyText.Lower | app.py:168 | `lower()` keeps the length and maps every character through ASCII case folding |
| PyText.LowerIdempotent | app.py:77 | lower-casing a lower-cased skill changes nothing |
| PyText.NatToString | app.py:159 | the decimal rendering of a number is non-empty and has one digit exactly when the number is below 10 |
| PyText.NatToStringInjective | app.py:163 | different numbers render differently |
| Records.StringsAt | app.py:168 | `.get("skills", [])` gives `[]` for a missing key, the list itself for a list of strings, the one-character strings for a string, and the keys for an object |
| Records.NumberAt | app.py:169 | `.get("experience_years", 0)` gives 0 for a missing key and the number itself for a number |
| Records.LowerAll | app.py:168 | the comprehension lower-cases every skill, keeping order and count |
| Records.LowerAllLowered | app.py:77 | every skill in a lower-cased list is already lower case |
| ResumeBatch.StrippedNonEmpty | app.py:36 | the resume list is no longer than the piece list |
| ResumeBatch.StrippedNonEmptyClean | app.py:36 | every resume is non-empty and already stripped |
| ResumeBatch.StrippedNonEmptyMembers | app.py:36 | a string is a resume exactly when it is non-empty and is the stripped form of some piece |
| ResumeBatch.StrippedNonEmptyCount | app.py:36 | there is exactly one resume per piece that is not all whitespace |
| ResumeBatch.SplitResumes | app.py:36 | `resume_list` has exactly one resume per `###`-separated piece that is not all whitespace |
| ResumeBatch.SplitResumesFree | app.py:36 | no resume sent to the service contains `###`; each is non-empty and stripped |
| ResumeBatch.StripInside | app.py:36 | stripping cannot create an occurrence of a substring |
| ResumeBatch.CutAfterPieceIff | app.py:27-36 | `find("###")` in a piece followed by `###` cuts right after the piece exactly when the piece holds no `###` and does not end in `#` |
| Extraction.SpanStart | app.py:123 | the start is -1 exactly when the reply has no `{`; otherwise it is the first `{` |
| Extraction.SpanEnd | app.py:124 | the end is never -1; it is 0 exactly when there is no `}`, and otherwise it is just past the last `}` |
| Extraction.ResumeJsonText | app.py:123-130 | the guard skips the reply exactly when it has no `{`. Otherwise the text is the span from the first `{` through the last `}`, or `""` when that `}` does not come later |
| Extraction.ResumeGuardIsStartOnly | app.py:126 | the `end == -1` half of the guard never fires |
| Extraction.NoClosingBraceGivesEmpty | app.py:124-130 | a `{` with no `}` after it hands the decoder the empty string |
| Extraction.JdJsonText | app.py:67-69 | the unguarded JD slice is no longer than the reply and is `""`, `"}"` or a text beginning with `{` |
| Extraction.JdJsonTextShape | app.py:67-69 | with a `{`, the JD slice is the same span as the resume slice; without one, it is `""` or `"}"` |
| Extraction.DecoderInputs | app.py:67-72 | the decoder only ever receives `""`, `"}"` or a text that begins with `{` |
| Extraction.ParseRaw | app.py:123-136 | a stripped reply without `{` yields `None`; otherwise the record is the decoder's answer on the span |
| Extraction.ParseReply | app.py:121-136 | a raw reply without `{` yields `None` |
| Extraction.ParseOne | app.py:121-136 | one pass of the parsing loop records exactly the value parsed from that reply |
| Extraction.ParseAllAt | app.py:87-136 | record `k` depends on reply `k` alone, and is `None` when that reply has no `{` |
| Extraction.ParseResumes | app.py:87-136 | the loop appends one record per reply, in reply order, and `None` for every reply without `{` |
| Extraction.RequirementsOf | app.py:77-78 | required skill `k` is the lower case of listed skill `k`, one per listed skill, all lower case; the minimum is the listed number, or 0 when the key is missing |
| Extraction.FallbackRequirements | app.py:75-78 | the fallback object yields no skills and a minimum of 0 |
| Extraction.AnalyzeJd | app.py:65-78 | an undecodable JD reply gives no skills and a minimum of 0; all required skills are lower case |
| Extraction.JdWithoutBraceFallsBack | app.py:67-78 | a JD reply without `{` gives no skills and a minimum of 0 whenever the decoder rejects `""` and `"}"` |
| Extraction.AnalyzeJdDecoded | app.py:71-78 | a decoded JD keeps its skill list, lower-cased, and its number of years |
| Scoring.SkillsMatch | app.py:175 | `req in cand or cand in req`: one skill occurs inside the other |
| Scoring.SkillsMatchSymmetric | app.py:175 | the match test does not depend on which skill is the required one |
| Scoring.MatchRowMembers | app.py:174-176 | the inner loop appends only `req`, and does so exactly when some candidate skill matches it |
| Scoring.MatchedListMembers | app.py:172-176 | a string is in `matched_skills` exactly when it is a required skill that some candidate skill matches in either direction |
| Scoring.MatchSkills | app.py:172-176 | the nested loops build the matched list in append order, and its members are exactly the matched required skills |
| Scoring.MatchedSet | app.py:178 | `set(matched_skills)` is the set of required skills having a match |
| Scoring.SkillScoreBound | app.py:178 | the matched set is within the required skills, so the skill score is at most the number of distinct required skills |
| Scoring.CandidateDuplicatesIgnored | app.py:168-178 | two candidate lists with the same skills give the same matched set, so repeated skills do not raise the score |
| Scoring.EmptyCandidateSkillMatchesAll | app.py:175 | a candidate skill `""` matches every required skill |
| Scoring.TotalScore | app.py:181-185 | `skill_score * skill_weight + experience_score * experience_weight`; non-negative when the score and both weights are |
| Scoring.TotalScoreMonotone | app.py:181-185 | with weights of at least 1 the total is non-negative and grows strictly with the skill score; meeting the experience bar adds exactly the experience weight |
| Scoring.Evaluate | app.py:168-185 | matched skills are the required skills with a match among the lower-cased candidate skills; experience is met iff years >= minimum; the total weighs both |
| Records.IsFalsy | app.py:161 | `not resume_data` holds exactly for `None` and `{}` |
| Scoring.ResumeScore | app.py:161-185 | the score appended for a record: 0 when it is falsy, otherwise the weighted total of `Evaluate` |
| Scoring.FalsyScoresZero | app.py:161-164 | a `None` or `{}` record scores 0 |
| Scoring.FallbackRequirementsScore | app.py:75-78 | under the fallback nothing matches, experience is met iff years >= 0, and a record without years scores the experience weight |
| Scoring.ScoreResume | app.py:161-185 | the per-record body scores 0 for a falsy record, and otherwise scores matches, experience and weights as specified |
| Ranking.Label | app.py:163 | `f"Resume {n}"`: the text `Resume ` followed by the decimal form of `n` |
| Ranking.LabelInjective | app.py:163 | different positions get different `Resume n` labels |
| Ranking.LabelsDistinct | app.py:163 | entries labelled by their one-based position carry distinct labels |
| Ranking.ResultsFor | app.py:155-200 | the entries the result loop has appended after a prefix of the records, one per record |
| Ranking.ResultsForAt | app.py:155-200 | entry `k` is `Resume k+1` with the score of record `k` |
| Ranking.CollectResults | app.py:155-200 | one entry per record, in order, labelled `Resume i+1` with that record's score (0 when falsy); no two labels coincide |
| Ranking.InsertDescPermutes | app.py:207 | inserting adds exactly the one entry |
| Ranking.InsertDescSorted | app.py:207 | inserting into a non-increasing ranking keeps it non-increasing |
| Ranking.SortDesc | app.py:207 | `sorted(..., reverse=True)` is a permutation of the entries with non-increasing scores |
| Ranking.WithScoreInsert | app.py:207 | inserting puts the entry ahead of the existing entries of equal score |
| Ranking.SortDescStable | app.py:207 | for every score, the entries with that score keep their input order |
| Ranking.TopCandidate | app.py:212-214 | the top candidate exists exactly when the ranking is not empty, and it is the first entry |
| Ranking.TopCandidateIsBest | app.py:207-214 | the top candidate exists iff there are entries; it is an input entry scoring at least every entry |
| Ranking.ScoreSum | app.py:217 | the sum of the scores |
| Ranking.ScoreSumNonNegative | app.py:217 | scores that are all non-negative have a non-negative sum, so the average is non-negative |
| Ranking.ScoreSumInsert | app.py:217 | inserting an entry adds its score to the sum |
| Ranking.SortDescKeepsSum | app.py:217 | ranking changes neither the sum of the scores nor their count, so the average is that of `all_results` |
| Ranking.SumBoundedByTop | app.py:213-217 | the sum is at most count × top score, so the average never exceeds the top score |
| Pipeline.Analyze | app.py:30-138 | nothing happens when either text is empty; otherwise the requirements come from the JD reply and there is one parsed record per split resume, in order |
| Pipeline.AllResults | app.py:155-200 | entry `k` is `Resume k+1` with the score of record `k` |
| Pipeline.ScoresNonNegative | app.py:149-150 | with slider weights of at least 1 every score is non-negative |
| Pipeline.RankCandidates | app.py:141-217 | the ranking is a stable, non-increasing permutation of `all_results`. The top candidate exists iff the record list is non-empty, and it scores at least every entry. Sum and count are those of `all_results`, and sum <= count × top |
| Scenarios.BlankSegmentDropped | app.py:36 | three resumes with a blank segment among them split into exactly the three resumes; the resumes may mention `C#` as long as they hold no `###` and the first two do not end in `#` |
| Scenarios.ReplySpan | app.py:123-130 | a reply made of chatter without `{`, one object, and chatter without `}` hands the decoder exactly the object |
| Scenarios.ChatterAroundObject | app.py:123-130 | the reply `Here is the result: {"a":1} thanks` hands the decoder `{"a":1}` |
| Scenarios.NoBracesGivesNone | app.py:123-128 | the reply `no braces here` yields no record |
| Scenarios.TiesKeepInputOrder | app.py:207 | scores 3, 5, 5, 1 rank as the two fives in input order, then 3, then 1 |
| Scenarios.JavaMatchesJavaScript | app.py:175 | `java` and `javascript` match in either role; `java` and `python` do not |
| Scenarios.EndToEndScore | app.py:168-185 | python and sql with 3 years against Python, Django and 4 years, weights 3 and 2: only python matches, experience is met, the score is 5 |

## Left out

- The Streamlit page is not modelled: widgets, session state, spinners, the
  messages shown, the JSON dump of each record, and the explanation text.
  Session state is represented by the `Analysis` value passed from one phase
  to the next.
- The Groq client is not modelled: the API key check, model name, prompts and
  network errors. Each prompt's reply is a function parameter of the text sent.
- `json.loads` is the `Decoder` parameter, answering an object or `None` when
  it raises. The decoder only ever sees `""`, `"}"` or a text beginning with
  `{` (`Extraction.DecoderInputs`). The first two raise, and a JSON text
  beginning with `{` is an object, so a successful decode is always an object.
- Records.StringsAt: a `skills` value that is a number, `null` or a boolean
  makes the source raise `TypeError`; the model reads it as no skills. A list
  with an element that is not a string can only be encoded as `Other`, which
  the model reads as no skills, while the source raises `AttributeError` at
  `.lower()`. A nested object is kept only as its keys, in order, since
  iterating a dict yields its keys.
- Records.NumberAt: every value of `experience_years` or
  `minimum_experience_years` that is not a finite number reads as 0, and the
  experience test compares the two numbers so read. The source compares the
  raw values with `candidate_exp >= minimum_exp` instead:
  - `null`, an object, or a pair of different kinds (a string against a
    number, a list against a number) raises `TypeError` and stops the page;
    the model compares 0 with the other side;
  - two strings compare lexicographically (`"10" >= "3"` is false) and two
    lists element by element; the model compares 0 with 0 and reports the
    requirement met;
  - `json.loads` accepts `NaN` and `Infinity`, which a `Num` cannot hold:
    `NaN` on either side makes the comparison false and `Infinity` meets
    every finite minimum; the model reads both as 0;
  - JSON booleans compare as 0 and 1; the model reads both as 0.
- Numbers are exact reals. Floating-point rounding is not modelled.
- PyText.Lower: folds ASCII letters only. Python's `lower()` also folds
  non-ASCII letters.
- The average is left out as a floating-point number: the float division and
  `round(avg, 2)`. The model keeps its exact sum and count.
- The pandas DataFrame and the CSV download.
- The render guard at line 141 is not modelled.
  `Pipeline.RankCandidates` takes any analysis and handles the empty record
  list (no top candidate).
- The slider bounds (1 to 5) appear only as the lemmas' `>= 1` preconditions.
