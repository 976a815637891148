/**
 * The evaluation dashboard's scoring: for each labelled case, the service's
 * top three recommendations are judged by Jaccard similarity of skill sets and
 * by a duration limit; precision, recall, a rank-1 display row and a hit are
 * recorded, and the run is summarised by accuracy and mean precision and recall.
 * The HTTP call is replaced by its answer, supplied per case.
 */
module Evaluation {
  import opened Wrappers
  import opened Text
  import opened Seqs

  /** A recommendation as the evaluator reads it: `skills` and `duration` may be absent. */
  datatype Rec = Rec(name: string, skills: Option<seq<string>>, duration: Option<real>)

  /** One labelled query. */
  datatype Case = Case(query: string, expectedSkills: seq<string>, maxDuration: real)

  /** A case with the service's answer; `None` when the answer had no "recommendations" field. */
  datatype Trial = Trial(testCase: Case, response: Option<seq<Rec>>)

  /** The display row, built from the rank-1 recommendation. */
  datatype Row = Row(
    query: string,
    expectedSkills: set<string>,
    maxDuration: real,
    topMatch: string,
    matchedSkills: set<string>,
    skillScore: real,
    duration: real,
    durationOk: bool,
    success: bool)

  /** The headline figures of a run. */
  datatype Summary = Summary(accuracy: real, avgPrecision: real, avgRecall: real)

  const TopK: nat := 3
  const MissingDuration: real := 999.0
  const Threshold: real := 0.5

  // ---------------------------------------------------------------------
  // Jaccard similarity

  /** |A ∩ B| / |A ∪ B|, and 1 when both are empty. */
  function Jaccard(a: set<string>, b: set<string>): real {
    if a == {} && b == {} then 1.0 else (|a * b| as real) / (|a + b| as real)
  }

  /** Similarity lies between 0 and 1. */
  lemma JaccardRange(a: set<string>, b: set<string>)
    ensures 0.0 <= Jaccard(a, b) <= 1.0
  {
    if a != {} || b != {} {
      assert |a - b| + |b - a| + |a * b| == |a + b|;
      assert a + b != {} by { assert a <= a + b && b <= a + b; }
      FractionBound(|a * b|, |a + b|);
    }
  }

  lemma JaccardEmpty()
    ensures Jaccard({}, {}) == 1.0
  {
  }

  lemma JaccardSymmetric(a: set<string>, b: set<string>)
    ensures Jaccard(a, b) == Jaccard(b, a)
  {
    assert a * b == b * a && a + b == b + a;
  }

  /** Similarity is 1 exactly for equal sets; in particular Jaccard(A, A) == 1. */
  lemma JaccardOne(a: set<string>, b: set<string>)
    ensures Jaccard(a, b) == 1.0 <==> a == b
  {
    if a == b {
      assert a * b == a + b;
    } else {
      assert a - b != {} || b - a != {};
      assert |a - b| + |b - a| + |a * b| == |a + b|;
    }
  }

  // ---------------------------------------------------------------------
  // Judging one recommendation

  /** `set(map(str.lower, names))` */
  function SkillSet(names: seq<string>): set<string> {
    set i | 0 <= i < |names| :: LowerStr(names[i])
  }

  lemma SkillSetSingleton(x: string)
    requires LowerStr(x) == x
    ensures SkillSet([x]) == {x}
  {
    assert [x][0] == x;
    assert x in SkillSet([x]);
  }

  function ExpectedSet(c: Case): set<string> {
    SkillSet(c.expectedSkills)
  }

  /** `rec.get("skills", [])`, lower-cased. */
  function RecSkills(rec: Rec): set<string> {
    SkillSet(rec.skills.GetOr([]))
  }

  /** `rec.get("duration", 999)` */
  function RecDuration(rec: Rec): real {
    rec.duration.GetOr(MissingDuration)
  }

  /** A recommendation is correct iff its skill score exceeds one half and it fits the duration limit. */
  predicate IsCorrect(c: Case, rec: Rec) {
    Jaccard(ExpectedSet(c), RecSkills(rec)) > Threshold && RecDuration(rec) <= c.maxDuration
  }

  /** A recommendation without a duration is never correct while the limit is below 999. */
  lemma MissingDurationFails(c: Case, rec: Rec)
    requires rec.duration == None && c.maxDuration < MissingDuration
    ensures !IsCorrect(c, rec)
  {
  }

  /** A recommendation without skills is correct only when no skill was expected (and it fits the limit). */
  lemma MissingSkillsScore(c: Case, rec: Rec)
    requires rec.skills == None
    ensures IsCorrect(c, rec) <==> ExpectedSet(c) == {} && RecDuration(rec) <= c.maxDuration
  {
    assert RecSkills(rec) == {};
    if ExpectedSet(c) != {} {
      assert ExpectedSet(c) * {} == {};
    }
  }

  // ---------------------------------------------------------------------
  // Per-case figures

  /** `response.json().get("recommendations", [])[:top_k]` */
  function TopRecs(t: Trial): (recs: seq<Rec>)
    ensures |recs| <= TopK
  {
    Take(t.response.GetOr([]), TopK)
  }

  /** How many of `recs` are correct for `c`. */
  function CorrectCount(c: Case, recs: seq<Rec>): (n: nat)
    ensures n <= |recs|
    decreases |recs|
  {
    if recs == [] then 0
    else
      var init := recs[..|recs| - 1];
      assert forall j :: 0 <= j < |init| ==> init[j] == recs[j];
      CorrectCount(c, init) + (if IsCorrect(c, recs[|recs| - 1]) then 1 else 0)
  }

  /** The count is positive exactly when some recommendation is correct. */
  lemma {:induction false} CorrectCountPositive(c: Case, recs: seq<Rec>)
    ensures CorrectCount(c, recs) > 0 <==> exists j :: 0 <= j < |recs| && IsCorrect(c, recs[j])
    decreases |recs|
  {
    if recs != [] {
      var init := recs[..|recs| - 1];
      CorrectCountPositive(c, init);
      assert forall j :: 0 <= j < |init| ==> init[j] == recs[j];
    }
  }

  /** `correct_in_top_k`: the correct recommendations among the first three of the answer. */
  function CorrectInTopK(t: Trial): nat {
    CorrectCount(t.testCase, TopRecs(t))
  }

  /** At most three, and at most the length of the answer. */
  lemma CorrectInTopKBound(t: Trial)
    ensures CorrectInTopK(t) <= TopK && CorrectInTopK(t) <= |t.response.GetOr([])|
  {
  }

  /** `min(top_k, len(expected_skills)) if expected_skills else 1` */
  function TotalRelevant(c: Case): nat {
    var e := ExpectedSet(c);
    if e != {} then (if TopK < |e| then TopK else |e|) else 1
  }

  /** Between 1 and 3: the number of expected skills capped at 3, or 1 when none is expected. */
  lemma TotalRelevantRange(c: Case)
    ensures 1 <= TotalRelevant(c) <= TopK
    ensures ExpectedSet(c) != {} ==>
      TotalRelevant(c) <= |ExpectedSet(c)| && (TotalRelevant(c) == TopK || TotalRelevant(c) == |ExpectedSet(c)|)
    ensures ExpectedSet(c) == {} ==> TotalRelevant(c) == 1
  {
  }

  /** A count over a positive denominator: non-negative, zero only for a zero count, and at most the count. */
  lemma Ratio(n: nat, d: nat)
    requires d >= 1
    ensures 0.0 <= (n as real) / (d as real) <= n as real
    ensures (n as real) / (d as real) == 0.0 <==> n == 0
  {
    var q := (n as real) / (d as real);
    assert q * (d as real) == n as real;
    assert q >= 0.0;
    assert q <= q * (d as real);
  }

  /** precision@3 */
  function Precision(t: Trial): real {
    (CorrectInTopK(t) as real) / (TopK as real)
  }

  /** recall@3 */
  function Recall(t: Trial): real {
    (CorrectInTopK(t) as real) / (TotalRelevant(t.testCase) as real)
  }

  /** Precision lies in [0, 1], and is 0 exactly when nothing in the top three is correct. */
  lemma PrecisionRange(t: Trial)
    ensures 0.0 <= Precision(t) <= 1.0
    ensures Precision(t) == 0.0 <==> CorrectInTopK(t) == 0
  {
    CorrectInTopKBound(t);
    FractionBound(CorrectInTopK(t), TopK);
    Ratio(CorrectInTopK(t), TopK);
  }

  /** Recall lies in [0, 3] (not in [0, 1]: see RecallCanExceedOne), and is 0 exactly when precision is. */
  lemma RecallRange(t: Trial)
    ensures 0.0 <= Recall(t) <= TopK as real
    ensures Recall(t) == 0.0 <==> CorrectInTopK(t) == 0
  {
    CorrectInTopKBound(t);
    TotalRelevantRange(t.testCase);
    Ratio(CorrectInTopK(t), TotalRelevant(t.testCase));
  }

  /** The display row for case `c` from its rank-1 recommendation `rec`. */
  function RowFor(c: Case, rec: Rec): Row {
    var skills := RecSkills(rec);
    var duration := RecDuration(rec);
    var score := Jaccard(ExpectedSet(c), skills);
    var durationOk := duration <= c.maxDuration;
    Row(c.query, ExpectedSet(c), c.maxDuration, rec.name, skills, score, duration, durationOk,
      score > Threshold && durationOk)
  }

  /** The row's verdict is the rank-1 recommendation's correctness, and its fields agree with each other. */
  lemma RowForFacts(c: Case, rec: Rec)
    ensures var row := RowFor(c, rec);
      && row.topMatch == rec.name
      && (row.success <==> IsCorrect(c, rec))
      && (row.success <==> row.skillScore > Threshold && row.durationOk)
      && (row.durationOk <==> row.duration <= row.maxDuration)
      && 0.0 <= row.skillScore <= 1.0
  {
    JaccardRange(ExpectedSet(c), RecSkills(rec));
  }

  // ---------------------------------------------------------------------
  // The whole run, as functions of the trials

  /** The row a list of recommendations contributes: its rank-1 row, if it has a first element. */
  function FirstRow(c: Case, recs: seq<Rec>): seq<Row> {
    if recs == [] then [] else [RowFor(c, recs[0])]
  }

  /** One row per case whose answer is not empty, in case order. */
  function Rows(ts: seq<Trial>): seq<Row>
    decreases |ts|
  {
    if ts == [] then []
    else
      var t := ts[|ts| - 1];
      Rows(ts[..|ts| - 1]) + FirstRow(t.testCase, TopRecs(t))
  }

  /** Precision of every case, in case order. */
  function Precisions(ts: seq<Trial>): (ps: seq<real>)
    ensures |ps| == |ts|
    decreases |ts|
  {
    if ts == [] then [] else Precisions(ts[..|ts| - 1]) + [Precision(ts[|ts| - 1])]
  }

  lemma {:induction false} PrecisionsAt(ts: seq<Trial>, i: nat)
    requires i < |ts|
    ensures Precisions(ts)[i] == Precision(ts[i])
    decreases |ts|
  {
    if i < |ts| - 1 {
      PrecisionsAt(ts[..|ts| - 1], i);
    }
  }

  /** Recall of every case, in case order. */
  function Recalls(ts: seq<Trial>): (rs: seq<real>)
    ensures |rs| == |ts|
    decreases |ts|
  {
    if ts == [] then [] else Recalls(ts[..|ts| - 1]) + [Recall(ts[|ts| - 1])]
  }

  lemma {:induction false} RecallsAt(ts: seq<Trial>, i: nat)
    requires i < |ts|
    ensures Recalls(ts)[i] == Recall(ts[i])
    decreases |ts|
  {
    if i < |ts| - 1 {
      RecallsAt(ts[..|ts| - 1], i);
    }
  }

  /** A case is a hit when at least one of its top three recommendations is correct. */
  predicate IsHit(t: Trial) {
    CorrectInTopK(t) > 0
  }

  /** The number of hits among `ts`. */
  function Hits(ts: seq<Trial>): nat
    decreases |ts|
  {
    if ts == [] then 0
    else Hits(ts[..|ts| - 1]) + (if IsHit(ts[|ts| - 1]) then 1 else 0)
  }

  // ---------------------------------------------------------------------
  // The scoring loops

  /**
   * The inner loop of the dashboard over one case's top recommendations:
   * counts the correct ones and appends the rank-1 row to `results`.
   */
  method ScoreRecs(c: Case, expected: set<string>, recs: seq<Rec>, results0: seq<Row>)
    returns (correctInTopK: nat, results: seq<Row>)
    requires expected == ExpectedSet(c)
    ensures correctInTopK == CorrectCount(c, recs)
    ensures results == results0 + FirstRow(c, recs)
  {
    correctInTopK, results := 0, results0;
    var j := 0;
    while j < |recs|
      invariant 0 <= j <= |recs|
      invariant correctInTopK == CorrectCount(c, recs[..j])
      invariant results == results0 + FirstRow(c, recs[..j])
    {
      var rank := j + 1;
      var rec := recs[j];
      var recSkills := SkillSet(rec.skills.GetOr([]));
      var duration := rec.duration.GetOr(MissingDuration);
      var skillScore := Jaccard(expected, recSkills);
      var durationOk := duration <= c.maxDuration;
      var success := skillScore > Threshold && durationOk;
      var row := Row(c.query, expected, c.maxDuration, rec.name, recSkills,
        skillScore, duration, durationOk, success);
      RankStep(c, recs, j, row);
      ghost var count := CorrectCount(c, recs[..j + 1]);
      if success {
        correctInTopK := correctInTopK + 1;
      }
      assert correctInTopK == count;
      if rank == 1 {
        results := results + [row];
      }
      j := j + 1;
    }
    assert recs[..|recs|] == recs;
  }

  /** The figures the inner loop computes at index `j` are those of `RowFor`, `IsCorrect` and the two counts. */
  lemma RankStep(c: Case, recs: seq<Rec>, j: nat, row: Row)
    requires j < |recs|
    requires row.query == c.query && row.expectedSkills == ExpectedSet(c) && row.maxDuration == c.maxDuration
    requires row.topMatch == recs[j].name && row.matchedSkills == RecSkills(recs[j])
    requires row.duration == RecDuration(recs[j])
    requires row.skillScore == Jaccard(ExpectedSet(c), RecSkills(recs[j]))
    requires row.durationOk == (row.duration <= c.maxDuration)
    requires row.success == (row.skillScore > Threshold && row.durationOk)
    ensures row.success <==> IsCorrect(c, recs[j])
    ensures CorrectCount(c, recs[..j + 1]) == CorrectCount(c, recs[..j]) + (if row.success then 1 else 0)
    ensures FirstRow(c, recs[..j + 1]) == if j == 0 then [row] else FirstRow(c, recs[..j])
  {
    assert recs[..j + 1][..j] == recs[..j];
  }

  /** One case of the outer loop: the inner loop, then `total_relevant`, precision and recall. */
  method ScoreCase(t: Trial, results0: seq<Row>)
    returns (results: seq<Row>, correctInTopK: nat, precision: real, recall: real)
    ensures results == results0 + FirstRow(t.testCase, TopRecs(t))
    ensures correctInTopK == CorrectInTopK(t)
    ensures precision == Precision(t) && recall == Recall(t)
  {
    var c := t.testCase;
    var expected := SkillSet(c.expectedSkills);
    var recs := Take(t.response.GetOr([]), TopK);
    correctInTopK, results := ScoreRecs(c, expected, recs, results0);
    var totalRelevant := if expected != {} then (if TopK < |expected| then TopK else |expected|) else 1;
    precision := (correctInTopK as real) / (TopK as real);
    recall := (correctInTopK as real) / (totalRelevant as real);
  }

  /** The scoring loop of the dashboard, proved to compute the functions above. */
  method Evaluate(trials: seq<Trial>)
    returns (results: seq<Row>, precisionScores: seq<real>, recallScores: seq<real>, hits: nat)
    ensures results == Rows(trials)
    ensures precisionScores == Precisions(trials)
    ensures recallScores == Recalls(trials)
    ensures hits == Hits(trials)
  {
    results, precisionScores, recallScores, hits := [], [], [], 0;
    var i := 0;
    while i < |trials|
      invariant 0 <= i <= |trials|
      invariant results == Rows(trials[..i])
      invariant precisionScores == Precisions(trials[..i])
      invariant recallScores == Recalls(trials[..i])
      invariant hits == Hits(trials[..i])
    {
      var correctInTopK, precision, recall;
      results, correctInTopK, precision, recall := ScoreCase(trials[i], results);
      precisionScores := precisionScores + [precision];
      recallScores := recallScores + [recall];
      if correctInTopK > 0 {
        hits := hits + 1;
      }
      RunStep(trials, i);
      i := i + 1;
    }
    assert trials[..|trials|] == trials;
  }

  /** How each per-run function grows by one case. */
  lemma RunStep(ts: seq<Trial>, i: nat)
    requires i < |ts|
    ensures Rows(ts[..i + 1]) == Rows(ts[..i]) + FirstRow(ts[i].testCase, TopRecs(ts[i]))
    ensures Precisions(ts[..i + 1]) == Precisions(ts[..i]) + [Precision(ts[i])]
    ensures Recalls(ts[..i + 1]) == Recalls(ts[..i]) + [Recall(ts[i])]
    ensures Hits(ts[..i + 1]) == Hits(ts[..i]) + (if CorrectInTopK(ts[i]) > 0 then 1 else 0)
  {
    assert ts[..i + 1][..i] == ts[..i];
  }

  // ---------------------------------------------------------------------
  // Properties of the run

  /** At most one row per case; every row is the rank-1 row of a case whose answer is not empty. */
  lemma {:induction false} RowsPerCase(ts: seq<Trial>)
    ensures |Rows(ts)| <= |ts|
    ensures |Rows(ts)| == |ts| <==> forall i :: 0 <= i < |ts| ==> TopRecs(ts[i]) != []
    ensures forall row :: row in Rows(ts) ==>
      exists i :: 0 <= i < |ts| && TopRecs(ts[i]) != [] && row == RowFor(ts[i].testCase, TopRecs(ts[i])[0])
    decreases |ts|
  {
    if ts != [] {
      var init := ts[..|ts| - 1];
      RowsPerCase(init);
      assert forall i :: 0 <= i < |init| ==> init[i] == ts[i];
    }
  }

  /** When no answer is empty, row `i` is the rank-1 row of case `i`. */
  lemma {:induction false} RowsAt(ts: seq<Trial>, i: nat)
    requires forall j :: 0 <= j < |ts| ==> TopRecs(ts[j]) != []
    requires i < |ts|
    ensures i < |Rows(ts)| && Rows(ts)[i] == RowFor(ts[i].testCase, TopRecs(ts[i])[0])
    decreases |ts|
  {
    var n := |ts| - 1;
    var init := ts[..n];
    assert forall j :: 0 <= j < n ==> init[j] == ts[j];
    RowsPerCase(init);
    assert |Rows(init)| == n;
    if i < n {
      RowsAt(init, i);
    }
  }

  /** The number of cases whose answer is not empty. */
  function NonEmptyCount(ts: seq<Trial>): nat
    decreases |ts|
  {
    if ts == [] then 0
    else NonEmptyCount(ts[..|ts| - 1]) + (if TopRecs(ts[|ts| - 1]) != [] then 1 else 0)
  }

  /** Exactly one row per case whose answer is not empty. */
  lemma {:induction false} RowsCount(ts: seq<Trial>)
    ensures |Rows(ts)| == NonEmptyCount(ts)
    decreases |ts|
  {
    if ts != [] {
      RowsCount(ts[..|ts| - 1]);
    }
  }

  /** Conversely, every case whose answer is not empty contributes its rank-1 row. */
  lemma {:induction false} RowsInclude(ts: seq<Trial>, i: nat)
    requires i < |ts| && TopRecs(ts[i]) != []
    ensures RowFor(ts[i].testCase, TopRecs(ts[i])[0]) in Rows(ts)
    decreases |ts|
  {
    var n := |ts| - 1;
    if i < n {
      RowsInclude(ts[..n], i);
      assert ts[..n][i] == ts[i];
    }
  }

  /** The positions of the cases with a correct recommendation in their top three. */
  function HitSet(ts: seq<Trial>): set<int> {
    set i | 0 <= i < |ts| && IsHit(ts[i])
  }

  /** Hits is the number of cases with a correct recommendation in their top three. */
  lemma HitsCount(ts: seq<Trial>)
    ensures Hits(ts) == |set i | 0 <= i < |ts| && IsHit(ts[i])|
  {
    HitsCountByInduction(ts);
    assert HitSet(ts) == set i | 0 <= i < |ts| && IsHit(ts[i]);
  }

  lemma {:induction false} HitsCountByInduction(ts: seq<Trial>)
    ensures Hits(ts) == |HitSet(ts)|
    decreases |ts|
  {
    if ts != [] {
      var n := |ts| - 1;
      HitsCountByInduction(ts[..n]);
      HitSetStep(ts);
      assert n !in HitSet(ts[..n]);
    }
  }

  lemma HitSetStep(ts: seq<Trial>)
    requires ts != []
    ensures var n := |ts| - 1;
      HitSet(ts) == HitSet(ts[..n]) + (if IsHit(ts[n]) then {n} else {})
  {
    var n := |ts| - 1;
    assert forall i :: 0 <= i < n ==> ts[..n][i] == ts[i];
  }

  /** At most one hit per case; no hit at all exactly when no case has a correct recommendation. */
  lemma {:induction false} HitsBound(ts: seq<Trial>)
    ensures Hits(ts) <= |ts|
    ensures Hits(ts) == 0 <==> forall i :: 0 <= i < |ts| ==> CorrectInTopK(ts[i]) == 0
    decreases |ts|
  {
    if ts != [] {
      var n := |ts| - 1;
      var init := ts[..n];
      HitsBound(init);
      if Hits(ts) == 0 {
        forall i | 0 <= i < |ts| ensures CorrectInTopK(ts[i]) == 0 {
          if i < n {
            assert ts[i] == init[i];
          }
        }
      } else if Hits(init) != 0 {
        var k :| 0 <= k < n && CorrectInTopK(init[k]) != 0;
        assert ts[k] == init[k];
      } else {
        assert CorrectInTopK(ts[n]) != 0;
      }
    }
  }

  /** A successful rank-1 row means the case is a hit (the converse does not hold). */
  lemma RowSuccessIsHit(t: Trial)
    requires TopRecs(t) != [] && RowFor(t.testCase, TopRecs(t)[0]).success
    ensures CorrectInTopK(t) > 0
  {
    CorrectCountPositive(t.testCase, TopRecs(t));
  }

  /** Recall is not bounded by 1: one expected skill and three correct recommendations give 3. */
  lemma RecallCanExceedOne()
    ensures
      var rec := Rec("T1", Some(["python"]), Some(30.0));
      Recall(Trial(Case("python", ["python"], 35.0), Some([rec, rec, rec]))) == 3.0
  {
    var rec := Rec("T1", Some(["python"]), Some(30.0));
    var c := Case("python", ["python"], 35.0);
    LowerStrOfLowerCase("python");
    SkillSetSingleton("python");
    assert ExpectedSet(c) == {"python"};
    assert RecSkills(rec) == {"python"};
    JaccardOne({"python"}, {"python"});
    assert IsCorrect(c, rec);
    var recs := [rec, rec, rec];
    assert [rec][..0] == [];
    assert CorrectCount(c, [rec]) == 1;
    assert [rec, rec][..1] == [rec];
    assert CorrectCount(c, [rec, rec]) == 2;
    assert recs[..2] == [rec, rec];
    assert CorrectCount(c, recs) == 3;
  }

  /** The worked example: expected {"python"}, limit 35, rank-1 T1 = {"python"}, 30 minutes. */
  lemma SingleSkillScenario()
    ensures
      var c := Case("python test", ["python"], 35.0);
      var t := Trial(c, Some([Rec("T1", Some(["python"]), Some(30.0))]));
      && RowFor(c, Rec("T1", Some(["python"]), Some(30.0))) ==
           Row("python test", {"python"}, 35.0, "T1", {"python"}, 1.0, 30.0, true, true)
      && Precision(t) == 1.0 / 3.0
      && Recall(t) == 1.0
  {
    var rec := Rec("T1", Some(["python"]), Some(30.0));
    var c := Case("python test", ["python"], 35.0);
    LowerStrOfLowerCase("python");
    SkillSetSingleton("python");
    assert ExpectedSet(c) == {"python"};
    assert RecSkills(rec) == {"python"};
    JaccardOne({"python"}, {"python"});
    var t := Trial(c, Some([rec]));
    assert TopRecs(t)[..0] == [];
    assert CorrectInTopK(t) == 1;
    assert |ExpectedSet(c)| == 1;
  }

  // ---------------------------------------------------------------------
  // Aggregates

  function Sum(s: seq<real>): real
    decreases |s|
  {
    if s == [] then 0.0 else Sum(s[..|s| - 1]) + s[|s| - 1]
  }

  lemma {:induction false} SumBounds(s: seq<real>, hi: real)
    requires forall i :: 0 <= i < |s| ==> 0.0 <= s[i] <= hi
    ensures 0.0 <= Sum(s) <= (|s| as real) * hi
    decreases |s|
  {
    if s != [] {
      SumBounds(s[..|s| - 1], hi);
    }
  }

  /**
   * `hits / len(test_cases)` and the two means; `None` for an empty case list,
   * where the dashboard divides by zero.
   */
  function Summarize(caseCount: nat, hits: nat, precisionScores: seq<real>, recallScores: seq<real>)
    : (s: Option<Summary>)
    ensures s.Some? <==> caseCount > 0 && |precisionScores| > 0 && |recallScores| > 0
  {
    if caseCount == 0 || |precisionScores| == 0 || |recallScores| == 0 then None
    else Some(Summary(
      (hits as real) / (caseCount as real),
      Sum(precisionScores) / (|precisionScores| as real),
      Sum(recallScores) / (|recallScores| as real)))
  }

  /** The mean of values in [0, hi] lies in [0, hi]. */
  lemma MeanBound(s: seq<real>, hi: real)
    requires s != []
    requires forall i :: 0 <= i < |s| ==> 0.0 <= s[i] <= hi
    ensures 0.0 <= Sum(s) / (|s| as real) <= hi
  {
    SumBounds(s, hi);
    DivideBound(Sum(s), |s| as real, hi);
  }

  /** The run's summary exists iff there is a case, and its figures lie in their ranges. */
  lemma SummaryBounds(ts: seq<Trial>)
    ensures var s := Summarize(|ts|, Hits(ts), Precisions(ts), Recalls(ts));
      && (s.Some? <==> ts != [])
      && (s.Some? ==>
        && 0.0 <= s.value.accuracy <= 1.0
        && 0.0 <= s.value.avgPrecision <= 1.0
        && 0.0 <= s.value.avgRecall <= TopK as real)
  {
    if ts != [] {
      var ps, rs, h := Precisions(ts), Recalls(ts), Hits(ts);
      var s := Summarize(|ts|, h, ps, rs).value;
      HitsBound(ts);
      FractionBound(h, |ts|);
      assert 0.0 <= s.accuracy <= 1.0;
      forall i | 0 <= i < |ps| ensures 0.0 <= ps[i] <= 1.0 {
        PrecisionsAt(ts, i);
        PrecisionRange(ts[i]);
      }
      MeanBound(ps, 1.0);
      forall i | 0 <= i < |rs| ensures 0.0 <= rs[i] <= TopK as real {
        RecallsAt(ts, i);
        RecallRange(ts[i]);
      }
      MeanBound(rs, TopK as real);
    }
  }

  lemma FractionBound(x: nat, n: nat)
    requires 0 < n && x <= n
    ensures 0.0 <= (x as real) / (n as real) <= 1.0
  {
    var q := (x as real) / (n as real);
    assert q * (n as real) == x as real;
  }

  lemma DivideBound(x: real, n: real, hi: real)
    requires n > 0.0 && 0.0 <= x <= n * hi
    ensures 0.0 <= x / n <= hi
  {
    assert x / n * n == x;
  }
}
