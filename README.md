# SHL test recommender and its evaluation dashboard, in Dafny

The system has two parts, and this project models both.

- **The recommendation endpoint** (`main.py`, `POST /recommend`). It lower-cases the query; an absent `query` field reads as the empty string. It keeps, in catalog order, every test that has a skill whose lower-case form occurs in the query. When nothing matches it falls back to the first three tests of the catalog. It answers with at most ten tests.
- **The evaluation dashboard** (`streamlit_recommender_eval/evaluate_app.py`). For every labelled case it judges the service's first three recommendations. A recommendation is correct when the Jaccard similarity of its skills with the expected skills exceeds 0.5 and its duration is within the case's limit. Each case yields:
  - a count of correct recommendations;
  - precision@3 (the count divided by 3);
  - recall@3 (the count divided by the capped number of expected skills);
  - a hit, when the count is positive;
  - a display row built from the rank-1 recommendation only.

  The run is summarised by an accuracy (hits over cases) and the mean precision and recall.

Files:

- `wrappers.dfy`: `Option`, used for the `dict.get` defaults.
- `text.dfy`: `str.lower` (ASCII only) and Python's substring `in`, given both as a definition and as a searching function proved equal to it.
- `seqs.dfy`: Python's `s[:n]`, and order-preserving subsequences.
- `recommender.dfy`: the endpoint, as a specification function `Recommendations` and as the source's loops in the method `Recommend`, which is proved to compute that function.
- `evaluation.dfy`: the scoring.
  - The per-case figures are defined as functions: `IsCorrect`, `CorrectInTopK`, `Precision`, `Recall`, `RowFor`.
  - The whole run is defined as functions over the list of cases: `Rows`, `Precisions`, `Recalls`, `Hits`.
  - The dashboard's nested loops are the methods `Evaluate`, `ScoreCase` and `ScoreRecs`, proved to compute those functions.

The HTTP call `requests.post` is replaced by its answer. Each case comes as a `Trial` that carries the decoded response, and `None` means the response had no `"recommendations"` field. JSON numbers (durations, limits, scores) are exact `real`s.

Recall@3 is not bounded by 1. `correct_in_top_k` counts correct *recommendations*, not distinct relevant skills, while `total_relevant` counts expected skills capped at 3. So one expected skill and three correct recommendations give a recall of 3 (`Evaluation.RecallCanExceedOne`). `Evaluation.RecallRange` proves the bound the code keeps, [0, 3].

## Model

| member | source | states |
|---|---|---|
| Wrappers.Option.GetOr | main.py:23 | `dict.get` with a default: the stored value when present, the default otherwise |
| Text.Lower | main.py:23 | lower-casing a character yields no upper-case letter, leaves every other character alone, and maps A–Z onto a–z |
| Text.LowerStr | main.py:23 | `str.lower()` keeps the length and lower-cases each character in place |
| Text.LowerStrIdempotent | main.py:28 | lower-casing an already lower-cased string changes nothing |
| Text.IsSubstring | main.py:28 | definition: `p in t` on strings, `p` occurs in `t` at some position; properties in Contains, SubstringOfEmpty and AbsentCharNotSubstring |
| Text.Contains | main.py:28 | the left-to-right search for `p` in `t` answers true exactly when `p` occurs in `t` at some position |
| Text.SubstringOfEmpty | main.py:28 | only the empty string occurs in the empty string |
| Text.AbsentCharNotSubstring | main.py:28 | a pattern having a character the text lacks does not occur in the text |
| Seqs.Take | main.py:33-35 | `s[:n]` is the prefix of `s` of length `min(n, len(s))` |
| Seqs.TruncatedSubsequence | main.py:35 | cutting a subsequence short leaves a subsequence |
| Recommender.SkillMatches | main.py:28 | definition: `skill.lower() in query`; properties in SkillCaseIrrelevant and EmptyQueryMatches |
| Recommender.ItemMatches | main.py:28 | definition: some skill of the test, lower-cased, occurs in the query; properties in SkillCaseIrrelevant and EmptyQueryMatches |
| Recommender.Matches | main.py:26-29 | definition: the matching tests in catalog order; properties in MatchesMembers, MatchesMultiset, MatchesSubsequence and MatchesEmpty |
| Recommender.Recommendations | main.py:23-35 | definition: the matches, or the first three tests when none, capped at ten; properties in the Recommendations lemmas below |
| Recommender.QueryText | main.py:23 | an absent query reads as ""; the query keeps its length and holds no upper-case letter |
| Recommender.Recommend | main.py:23-35 | the handler's loops (outer over the catalog, inner the `any` over a test's skills), the fallback and the cap compute `Recommendations` |
| Recommender.MatchesMembers | main.py:26-29 | a test is among the matches exactly when it is in the catalog and one of its lower-cased skills occurs in the query |
| Recommender.MatchesSubsequence | main.py:26-29 | the matches keep catalog order (they are a subsequence of the catalog) |
| Recommender.MatchesMultiset | main.py:26-29 | each matching test appears among the matches exactly as often as in the catalog, and a non-matching test never |
| Recommender.MatchesEmpty | main.py:26-32 | the match list is empty exactly when no test of the catalog matches |
| Recommender.RecommendationsBound | main.py:33-35 | at most ten results, and at most three when nothing matched |
| Recommender.RecommendationsFallback | main.py:32-33 | when no test matches, the answer is the first three tests (the whole catalog when it is shorter) |
| Recommender.RecommendationsMatched | main.py:26-35 | when some test matches, the answer is the first ten matches, and every test in it matches |
| Recommender.RecommendationsInclude | main.py:26-35 | when there are at most ten matches, every matching test is in the answer |
| Recommender.RecommendationsSubsequence | main.py:26-35 | the answer is always an order-preserving subsequence of the catalog, so every answered test is a catalog test |
| Recommender.QueryCaseInsensitive | main.py:23 | two queries that agree up to letter case get the same answer |
| Recommender.LowerQueryUnchanged | main.py:23 | lower-casing the query before sending it changes nothing |
| Recommender.SkillCaseIrrelevant | main.py:28 | two tests whose skills agree up to letter case match the same queries |
| Recommender.MatchesSkillCaseIrrelevant | main.py:26-29 | re-casing the catalog's skills re-cases the match list and nothing more |
| Recommender.SkillCaseInsensitive | main.py:23-35 | re-casing the catalog's skills gives the same answer up to the same re-casing |
| Recommender.EmptyQueryMatches | main.py:23-28 | against an absent or empty query, a test matches exactly when it has an empty-string skill |
| Recommender.AbsentQueryFallback | main.py:23-33 | a request without a query gets the fallback when no skill is the empty string, and an empty query is answered as an absent one |
| Recommender.PythonQueryDecisions | main.py:23-29 | for "I need a python test" over the three-test sample catalog, T1 matches and T2, T3 do not |
| Recommender.PythonQueryScenario | main.py:23-35 | that query is answered with [T1] only |
| Recommender.NoMatchScenario | main.py:31-35 | a query naming no skill is answered with the whole three-test sample catalog |
| Evaluation.Jaccard | streamlit_recommender_eval/evaluate_app.py:11-14 | definition: 1 for two empty sets, otherwise the size of the intersection over the size of the union; properties in JaccardRange, JaccardEmpty, JaccardSymmetric and JaccardOne |
| Evaluation.JaccardRange | streamlit_recommender_eval/evaluate_app.py:11-14 | the similarity lies in [0, 1] |
| Evaluation.JaccardEmpty | streamlit_recommender_eval/evaluate_app.py:12-13 | two empty sets have similarity 1 |
| Evaluation.JaccardSymmetric | streamlit_recommender_eval/evaluate_app.py:11-14 | the similarity does not depend on the order of its arguments |
| Evaluation.JaccardOne | streamlit_recommender_eval/evaluate_app.py:11-14 | the similarity is 1 exactly when the two sets are equal |
| Evaluation.ExpectedSet | streamlit_recommender_eval/evaluate_app.py:25 | definition: `expected_skills`, the lower-cased expected skills as a set; properties in SkillSetSingleton and TotalRelevantRange |
| Evaluation.RecSkills | streamlit_recommender_eval/evaluate_app.py:34 | definition: `set(map(str.lower, rec.get("skills", [])))`; properties in MissingSkillsScore and RowForFacts |
| Evaluation.RecDuration | streamlit_recommender_eval/evaluate_app.py:35 | definition: `rec.get("duration", 999)`; properties in MissingDurationFails |
| Evaluation.SkillSet | streamlit_recommender_eval/evaluate_app.py:25 | definition: the set of lower-cased skill names (also used at line 34); properties in SkillSetSingleton |
| Evaluation.IsCorrect | streamlit_recommender_eval/evaluate_app.py:34-38 | definition: skill score above 0.5 and duration (999 when absent) within the limit; properties in MissingDurationFails, MissingSkillsScore and RankStep |
| Evaluation.SkillSetSingleton | streamlit_recommender_eval/evaluate_app.py:25 | a one-skill list in lower case gives the one-element skill set |
| Evaluation.MissingDurationFails | streamlit_recommender_eval/evaluate_app.py:35-38 | a recommendation without a duration (read as 999) is never correct under a limit below 999 |
| Evaluation.MissingSkillsScore | streamlit_recommender_eval/evaluate_app.py:34-38 | a recommendation without skills is correct only when no skill is expected and it fits the limit |
| Evaluation.TopRecs | streamlit_recommender_eval/evaluate_app.py:30 | at most three recommendations are judged |
| Evaluation.CorrectCount | streamlit_recommender_eval/evaluate_app.py:32-40 | the count of correct recommendations never exceeds the number judged |
| Evaluation.CorrectCountPositive | streamlit_recommender_eval/evaluate_app.py:39-40 | the count is positive exactly when some judged recommendation is correct |
| Evaluation.CorrectInTopK | streamlit_recommender_eval/evaluate_app.py:30-40 | definition: the correct recommendations among the first three of the answer; properties in CorrectInTopKBound and CorrectCountPositive |
| Evaluation.CorrectInTopKBound | streamlit_recommender_eval/evaluate_app.py:30-40 | `correct_in_top_k` is at most 3 and at most the length of the answer |
| Evaluation.TotalRelevant | streamlit_recommender_eval/evaluate_app.py:54 | definition: the number of expected skills capped at 3, or 1 when none; properties in TotalRelevantRange |
| Evaluation.TotalRelevantRange | streamlit_recommender_eval/evaluate_app.py:54 | `total_relevant` is between 1 and 3: 1 without expected skills, otherwise the number of expected skills capped at 3 |
| Evaluation.Precision | streamlit_recommender_eval/evaluate_app.py:55 | definition: `correct_in_top_k / 3`; properties in PrecisionRange |
| Evaluation.Recall | streamlit_recommender_eval/evaluate_app.py:56 | definition: `correct_in_top_k / total_relevant`; properties in RecallRange and RecallCanExceedOne |
| Evaluation.PrecisionRange | streamlit_recommender_eval/evaluate_app.py:55 | precision@3 lies in [0, 1] and is 0 exactly when nothing judged is correct |
| Evaluation.RecallRange | streamlit_recommender_eval/evaluate_app.py:54-56 | recall@3 lies in [0, 3] and is 0 exactly when nothing judged is correct |
| Evaluation.RecallCanExceedOne | streamlit_recommender_eval/evaluate_app.py:54-56 | one expected skill and three correct recommendations give recall 3 |
| Evaluation.RowFor | streamlit_recommender_eval/evaluate_app.py:41-52 | definition: the display row of a case's rank-1 recommendation; properties in RowForFacts |
| Evaluation.RowForFacts | streamlit_recommender_eval/evaluate_app.py:34-52 | the row names the rank-1 test; its success is that test's correctness, i.e. score above 0.5 and duration within the limit; its score lies in [0, 1] |
| Evaluation.ScoreRecs | streamlit_recommender_eval/evaluate_app.py:32-52 | the inner loop counts exactly `CorrectCount` and appends exactly the rank-1 row (none for an empty answer) |
| Evaluation.RankStep | streamlit_recommender_eval/evaluate_app.py:33-52 | the fields computed at one rank make up that recommendation's row; its success is its correctness and advances the count by one |
| Evaluation.ScoreCase | streamlit_recommender_eval/evaluate_app.py:25-56 | one pass of the outer loop yields the case's rows, `correct_in_top_k`, precision@3 and recall@3 |
| Evaluation.Evaluate | streamlit_recommender_eval/evaluate_app.py:18-58 | the dashboard's loop yields exactly `Rows`, `Precisions`, `Recalls` and `Hits` of the case list |
| Evaluation.RunStep | streamlit_recommender_eval/evaluate_app.py:24-58 | one more case adds its rank-1 row, its precision, its recall and possibly one hit, and nothing else |
| Evaluation.Precisions | streamlit_recommender_eval/evaluate_app.py:55 | one precision per case |
| Evaluation.PrecisionsAt | streamlit_recommender_eval/evaluate_app.py:55 | the i-th precision is the i-th case's precision@3 |
| Evaluation.Recalls | streamlit_recommender_eval/evaluate_app.py:56 | one recall per case |
| Evaluation.RecallsAt | streamlit_recommender_eval/evaluate_app.py:56 | the i-th recall is the i-th case's recall@3 |
| Evaluation.FirstRow | streamlit_recommender_eval/evaluate_app.py:41-42 | definition: the row appended when `rank == 1`, none for an empty answer; properties in ScoreRecs, RankStep and RowsInclude |
| Evaluation.Rows | streamlit_recommender_eval/evaluate_app.py:41-52 | definition: the rank-1 rows of the cases, in case order; properties in RowsPerCase, RowsInclude, RowsCount and RowsAt |
| Evaluation.RowsPerCase | streamlit_recommender_eval/evaluate_app.py:41-52 | at most one row per case; as many rows as cases exactly when no answer is empty; every row is the rank-1 row of a case with a non-empty answer |
| Evaluation.RowsInclude | streamlit_recommender_eval/evaluate_app.py:41-52 | every case with a non-empty answer contributes its rank-1 row |
| Evaluation.RowsCount | streamlit_recommender_eval/evaluate_app.py:41-52 | the number of rows is exactly the number of cases whose answer is not empty |
| Evaluation.RowsAt | streamlit_recommender_eval/evaluate_app.py:41-52 | when no answer is empty, row i is the rank-1 row of case i, so rows line up with the precision and recall lists |
| Evaluation.IsHit | streamlit_recommender_eval/evaluate_app.py:57 | definition: `correct_in_top_k > 0`; properties in HitsBound and RowSuccessIsHit |
| Evaluation.Hits | streamlit_recommender_eval/evaluate_app.py:57-58 | definition: one per case with a correct recommendation in its top three; properties in HitsCount and HitsBound |
| Evaluation.HitsCount | streamlit_recommender_eval/evaluate_app.py:22-58 | `hits` equals the size of the set of case positions whose top three holds a correct recommendation |
| Evaluation.HitsBound | streamlit_recommender_eval/evaluate_app.py:57-58 | at most one hit per case, and no hit exactly when no case has a correct recommendation |
| Evaluation.RowSuccessIsHit | streamlit_recommender_eval/evaluate_app.py:38-58 | a case whose rank-1 row says success is a hit |
| Evaluation.SingleSkillScenario | streamlit_recommender_eval/evaluate_app.py:24-56 | expected {python}, limit 35, rank-1 T1 = {python} at 30 minutes: score 1, duration ok, success, precision 1/3, recall 1 |
| Evaluation.Sum | streamlit_recommender_eval/evaluate_app.py:66-67 | definition: Python's `sum` over the scores; properties in SumBounds and MeanBound |
| Evaluation.SumBounds | streamlit_recommender_eval/evaluate_app.py:66-67 | a sum of values in [0, hi] lies in [0, n·hi] |
| Evaluation.MeanBound | streamlit_recommender_eval/evaluate_app.py:66-67 | the mean of values in [0, hi] lies in [0, hi] |
| Evaluation.Summarize | streamlit_recommender_eval/evaluate_app.py:65-67 | the summary exists exactly when none of the three divisions is by zero |
| Evaluation.SummaryBounds | streamlit_recommender_eval/evaluate_app.py:65-67 | a run has a summary exactly when it has a case; its accuracy and mean precision lie in [0, 1], its mean recall in [0, 3] |

## Left out

- The web framework: FastAPI, the CORS middleware, uvicorn and the JSON request body. The handler is modelled on the decoded `query` field.
- Loading `tests_db.json` at start-up, and its failure modes. The catalog is a parameter.
- The network call `requests.post`, and its errors. Each case carries the decoded answer.
- Malformed input, which raises `KeyError`, `TypeError` or `AttributeError` in the source. A test without `"skills"`, a case without `"query"`, `"expected_skills"` or `"max_duration"`, or a rank-1 recommendation without `"name"` raises `KeyError`. The name is read only at rank 1, so in the model `Rec.name` is unused at ranks 2 and 3. A JSON `null` query makes `data.get("query", "")` return `None`, and its `.lower()` raises `AttributeError`.
- The Streamlit user interface: the file upload, the table, the headline metrics, the bar chart and the CSV download.
- `round(skill_score, 2)` and `", ".join(...)` in the display row. The row holds the exact score and the skill sets themselves.
- The pandas table: `df["Precision@K"] = precision_scores` raises an error when some but not all answers are empty, because the table then has fewer rows than there are scores. `Evaluation.RowsPerCase` states exactly when the lengths agree.
- The heading "Top-1 Accuracy": the figure it shows counts hits in the top three. The model computes what the code computes.
- Text.Lower, Text.LowerStr: ASCII letters only. Python's `str.lower` also lower-cases non-ASCII letters, and can change a string's length.
- Evaluation.Summarize: the source raises `ZeroDivisionError` on an empty case list. The model answers `None` there instead.
- Floating point: scores, durations and means are exact reals, so rounding of `/` and `sum` is not modelled.
