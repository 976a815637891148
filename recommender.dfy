/**
 * The recommendation endpoint: keep, in catalog order, every test with a
 * skill that occurs (case-insensitively) in the query; fall back to the
 * first three tests when none does; return at most ten.
 */
module Recommender {
  import opened Wrappers
  import opened Text
  import opened Seqs

  /** One catalog entry ("test"). A missing duration is `None`. */
  datatype Item = Item(name: string, skills: seq<string>, duration: Option<real>)

  const FallbackCount: nat := 3
  const MaxResults: nat := 10

  /** One skill matches when its lower-case form occurs in the (lower-cased) query. */
  predicate SkillMatches(skill: string, q: string) {
    IsSubstring(LowerStr(skill), q)
  }

  /** `any(skill.lower() in query for skill in test["skills"])` */
  predicate ItemMatches(item: Item, q: string) {
    exists k :: 0 <= k < |item.skills| && SkillMatches(item.skills[k], q)
  }

  /** The matching tests of `catalog`, in catalog order (the list before the fallback). */
  function Matches(catalog: seq<Item>, q: string): seq<Item>
    decreases |catalog|
  {
    if catalog == [] then []
    else
      var init := Matches(catalog[..|catalog| - 1], q);
      var last := catalog[|catalog| - 1];
      if ItemMatches(last, q) then init + [last] else init
  }

  /** The query text: an absent `query` field reads as "", then lower-cased. */
  function QueryText(query: Option<string>): (q: string)
    ensures query.None? ==> q == ""
    ensures |q| == |query.GetOr("")|
    ensures forall i :: 0 <= i < |q| ==> !IsUpper(q[i])
  {
    LowerStr(query.GetOr(""))
  }

  /** What the endpoint answers for `query` over `catalog`. */
  function Recommendations(catalog: seq<Item>, query: Option<string>): seq<Item> {
    var matches := Matches(catalog, QueryText(query));
    var chosen := if matches == [] then Take(catalog, FallbackCount) else matches;
    Take(chosen, MaxResults)
  }

  /** The handler body: the loop of the source, proved to answer `Recommendations`. */
  method Recommend(catalog: seq<Item>, query: Option<string>) returns (recommendations: seq<Item>)
    ensures recommendations == Recommendations(catalog, query)
  {
    var q := LowerStr(query.GetOr(""));
    var matches: seq<Item> := [];
    var i := 0;
    while i < |catalog|
      invariant 0 <= i <= |catalog|
      invariant matches == Matches(catalog[..i], q)
    {
      var test := catalog[i];
      var found := false;
      var k := 0;
      while k < |test.skills| && !found
        invariant 0 <= k <= |test.skills|
        invariant found <==> exists j :: 0 <= j < k && SkillMatches(test.skills[j], q)
      {
        if Contains(LowerStr(test.skills[k]), q) {
          found := true;
        }
        k := k + 1;
      }
      assert catalog[..i + 1][..i] == catalog[..i];
      if found {
        matches := matches + [test];
      }
      i := i + 1;
    }
    assert catalog[..|catalog|] == catalog;
    if matches == [] {
      matches := Take(catalog, FallbackCount);
    }
    recommendations := Take(matches, MaxResults);
  }

  // ---------------------------------------------------------------------
  // The list of matches before the fallback

  /** A test is among the matches exactly when it is in the catalog and matches. */
  lemma {:induction false} MatchesMembers(catalog: seq<Item>, q: string, x: Item)
    ensures x in Matches(catalog, q) <==> x in catalog && ItemMatches(x, q)
    decreases |catalog|
  {
    if catalog != [] {
      var init := catalog[..|catalog| - 1];
      MatchesMembers(init, q, x);
      assert catalog == init + [catalog[|catalog| - 1]];
    }
  }

  /** The matches keep catalog order: they form a subsequence of the catalog. */
  lemma {:induction false} MatchesSubsequence(catalog: seq<Item>, q: string)
    ensures IsSubsequence(Matches(catalog, q), catalog)
    decreases |catalog|
  {
    if catalog != [] {
      var init := catalog[..|catalog| - 1];
      var last := catalog[|catalog| - 1];
      MatchesSubsequence(init, q);
      assert catalog == init + [last];
      if ItemMatches(last, q) {
        SubsequenceAppend(Matches(init, q), init, last);
      } else {
        SubsequenceExtend(Matches(init, q), init, last);
      }
    }
  }

  /** Each matching test occurs among the matches as often as in the catalog; a test that does not match, never. */
  lemma {:induction false} MatchesMultiset(catalog: seq<Item>, q: string, x: Item)
    ensures multiset(Matches(catalog, q))[x] == if ItemMatches(x, q) then multiset(catalog)[x] else 0
    decreases |catalog|
  {
    if catalog != [] {
      var init := catalog[..|catalog| - 1];
      MatchesMultiset(init, q, x);
      assert catalog == init + [catalog[|catalog| - 1]];
    }
  }

  /** Nothing matches exactly when no test of the catalog matches. */
  lemma {:induction false} MatchesEmpty(catalog: seq<Item>, q: string)
    ensures Matches(catalog, q) == [] <==> forall i :: 0 <= i < |catalog| ==> !ItemMatches(catalog[i], q)
    decreases |catalog|
  {
    if catalog != [] {
      var init := catalog[..|catalog| - 1];
      MatchesEmpty(init, q);
      assert forall i :: 0 <= i < |init| ==> init[i] == catalog[i];
    }
  }

  // ---------------------------------------------------------------------
  // The answer

  /** At most ten results; at most three when nothing matched. */
  lemma RecommendationsBound(catalog: seq<Item>, query: Option<string>)
    ensures |Recommendations(catalog, query)| <= MaxResults
    ensures Matches(catalog, QueryText(query)) == [] ==> |Recommendations(catalog, query)| <= FallbackCount
  {
  }

  /** When nothing matches, the answer is the first three tests (all of a shorter catalog). */
  lemma RecommendationsFallback(catalog: seq<Item>, query: Option<string>)
    requires forall i :: 0 <= i < |catalog| ==> !ItemMatches(catalog[i], QueryText(query))
    ensures Recommendations(catalog, query) == catalog[..if |catalog| < FallbackCount then |catalog| else FallbackCount]
  {
    MatchesEmpty(catalog, QueryText(query));
  }

  /** When something matched, the answer is the first (up to ten) matches, and each of them matches. */
  lemma RecommendationsMatched(catalog: seq<Item>, query: Option<string>)
    requires exists i :: 0 <= i < |catalog| && ItemMatches(catalog[i], QueryText(query))
    ensures Recommendations(catalog, query) == Take(Matches(catalog, QueryText(query)), MaxResults)
    ensures forall x :: x in Recommendations(catalog, query) ==> ItemMatches(x, QueryText(query))
  {
    var q := QueryText(query);
    MatchesEmpty(catalog, q);
    forall x | x in Recommendations(catalog, query)
      ensures ItemMatches(x, q)
    {
      MatchesMembers(catalog, q, x);
    }
  }

  /** A matching test among the first ten matches is in the answer. */
  lemma RecommendationsInclude(catalog: seq<Item>, query: Option<string>, i: nat)
    requires i < |catalog| && ItemMatches(catalog[i], QueryText(query))
    requires |Matches(catalog, QueryText(query))| <= MaxResults
    ensures catalog[i] in Recommendations(catalog, query)
  {
    MatchesMembers(catalog, QueryText(query), catalog[i]);
    MatchesEmpty(catalog, QueryText(query));
  }

  /** The answer is always an order-preserving subsequence of the catalog. */
  lemma RecommendationsSubsequence(catalog: seq<Item>, query: Option<string>)
    ensures IsSubsequence(Recommendations(catalog, query), catalog)
    ensures forall x :: x in Recommendations(catalog, query) ==> x in catalog
  {
    var matches := Matches(catalog, QueryText(query));
    var chosen := if matches == [] then Take(catalog, FallbackCount) else matches;
    if matches == [] {
      PrefixIsSubsequence(catalog, |chosen|);
    } else {
      MatchesSubsequence(catalog, QueryText(query));
    }
    TruncatedSubsequence(chosen, catalog, |Take(chosen, MaxResults)|);
    SubsequenceMembers(Recommendations(catalog, query), catalog);
  }

  // ---------------------------------------------------------------------
  // Case-insensitivity

  /** Queries that agree up to letter case get the same answer. */
  lemma QueryCaseInsensitive(catalog: seq<Item>, q1: string, q2: string)
    requires LowerStr(q1) == LowerStr(q2)
    ensures Recommendations(catalog, Some(q1)) == Recommendations(catalog, Some(q2))
  {
  }

  /** Lower-casing the query beforehand changes nothing. */
  lemma LowerQueryUnchanged(catalog: seq<Item>, q: string)
    ensures Recommendations(catalog, Some(LowerStr(q))) == Recommendations(catalog, Some(q))
  {
    LowerStrIdempotent(q);
  }

  /** Two tests that differ at most in the letter case of their skills. */
  predicate SameUpToSkillCase(a: Item, b: Item) {
    && a.name == b.name
    && a.duration == b.duration
    && |a.skills| == |b.skills|
    && forall k :: 0 <= k < |a.skills| ==> LowerStr(a.skills[k]) == LowerStr(b.skills[k])
  }

  predicate CatalogsSameUpToSkillCase(c1: seq<Item>, c2: seq<Item>) {
    |c1| == |c2| && forall i :: 0 <= i < |c1| ==> SameUpToSkillCase(c1[i], c2[i])
  }

  lemma SkillCaseIrrelevant(a: Item, b: Item, q: string)
    requires SameUpToSkillCase(a, b)
    ensures ItemMatches(a, q) <==> ItemMatches(b, q)
  {
    if ItemMatches(a, q) {
      var k :| 0 <= k < |a.skills| && SkillMatches(a.skills[k], q);
      assert SkillMatches(b.skills[k], q);
    }
    if ItemMatches(b, q) {
      var k :| 0 <= k < |b.skills| && SkillMatches(b.skills[k], q);
      assert SkillMatches(a.skills[k], q);
    }
  }

  lemma {:induction false} MatchesSkillCaseIrrelevant(c1: seq<Item>, c2: seq<Item>, q: string)
    requires CatalogsSameUpToSkillCase(c1, c2)
    ensures CatalogsSameUpToSkillCase(Matches(c1, q), Matches(c2, q))
    decreases |c1|
  {
    if c1 != [] {
      var n := |c1| - 1;
      assert CatalogsSameUpToSkillCase(c1[..n], c2[..n]);
      MatchesSkillCaseIrrelevant(c1[..n], c2[..n], q);
      SkillCaseIrrelevant(c1[n], c2[n], q);
    }
  }

  /** Re-casing the skills of the catalog gives the same answer, up to the same re-casing. */
  lemma SkillCaseInsensitive(c1: seq<Item>, c2: seq<Item>, query: Option<string>)
    requires CatalogsSameUpToSkillCase(c1, c2)
    ensures CatalogsSameUpToSkillCase(Recommendations(c1, query), Recommendations(c2, query))
  {
    MatchesSkillCaseIrrelevant(c1, c2, QueryText(query));
  }

  // ---------------------------------------------------------------------
  // Empty or absent query

  /** Against the empty query, a test matches exactly when it has an empty skill. */
  lemma EmptyQueryMatches(item: Item)
    ensures ItemMatches(item, QueryText(None)) <==> exists k :: 0 <= k < |item.skills| && item.skills[k] == ""
    ensures ItemMatches(item, QueryText(Some(""))) <==> exists k :: 0 <= k < |item.skills| && item.skills[k] == ""
  {
    forall k | 0 <= k < |item.skills|
      ensures SkillMatches(item.skills[k], "") <==> item.skills[k] == ""
    {
      SubstringOfEmpty(LowerStr(item.skills[k]));
    }
  }

  /** With no empty-string skill in the catalog, an absent or empty query gets the fallback. */
  lemma AbsentQueryFallback(catalog: seq<Item>)
    requires forall i, k :: 0 <= i < |catalog| && 0 <= k < |catalog[i].skills| ==> catalog[i].skills[k] != ""
    ensures Recommendations(catalog, None) == catalog[..if |catalog| < FallbackCount then |catalog| else FallbackCount]
    ensures Recommendations(catalog, Some("")) == Recommendations(catalog, None)
  {
    forall i | 0 <= i < |catalog|
      ensures !ItemMatches(catalog[i], QueryText(None))
    {
      EmptyQueryMatches(catalog[i]);
    }
    RecommendationsFallback(catalog, None);
  }

  // ---------------------------------------------------------------------
  // Worked examples

  function SampleCatalog(): seq<Item> {
    [ Item("T1", ["python"], Some(30.0)),
      Item("T2", ["java"], Some(40.0)),
      Item("T3", ["sql"], Some(20.0)) ]
  }

  lemma PythonQueryLowered()
    ensures QueryText(Some("I need a python test")) == "i need a python test"
  {
    assert "I need a python test" == ['I'] + " need a python test";
    LowerStrCons('I', " need a python test");
    LowerStrOfLowerCase(" need a python test");
  }

  lemma PythonInQuery()
    ensures ItemMatches(SampleCatalog()[0], "i need a python test")
  {
    LowerStrOfLowerCase("python");
    assert IsPrefix("python", "i need a python test"[9..]);
    assert SkillMatches(SampleCatalog()[0].skills[0], "i need a python test");
  }

  /** A one-skill test whose skill has a character the query lacks does not match. */
  lemma SingleSkillMiss(item: Item, skill: string, q: string, j: nat)
    requires item.skills == [skill] && LowerStr(skill) == skill
    requires j < |skill| && skill[j] !in q
    ensures !ItemMatches(item, q)
  {
    AbsentCharNotSubstring(skill, q, j);
  }

  /** Of the sample catalog, only the python test matches a query that mentions python. */
  lemma PythonQueryDecisions()
    ensures var q := QueryText(Some("I need a python test"));
      ItemMatches(SampleCatalog()[0], q) && !ItemMatches(SampleCatalog()[1], q) && !ItemMatches(SampleCatalog()[2], q)
  {
    PythonQueryLowered();
    PythonInQuery();
    JavaMisses("i need a python test");
    SqlMisses("i need a python test", 1);
  }

  lemma JavaMisses(q: string)
    requires 'j' !in q
    ensures !ItemMatches(SampleCatalog()[1], q)
  {
    LowerStrOfLowerCase("java");
    SingleSkillMiss(SampleCatalog()[1], "java", q, 0);
  }

  lemma SqlMisses(q: string, j: nat)
    requires j < 3 && "sql"[j] !in q
    ensures !ItemMatches(SampleCatalog()[2], q)
  {
    LowerStrOfLowerCase("sql");
    SingleSkillMiss(SampleCatalog()[2], "sql", q, j);
  }

  lemma PythonMisses(q: string, j: nat)
    requires j < 6 && "python"[j] !in q
    ensures !ItemMatches(SampleCatalog()[0], q)
  {
    LowerStrOfLowerCase("python");
    SingleSkillMiss(SampleCatalog()[0], "python", q, j);
  }

  /** Only the python test matches a query that mentions python. */
  lemma PythonQueryScenario()
    ensures Recommendations(SampleCatalog(), Some("I need a python test")) == [SampleCatalog()[0]]
  {
    var c := SampleCatalog();
    var q := QueryText(Some("I need a python test"));
    PythonQueryDecisions();
    assert [c[0]][..0] == [];
    assert Matches([c[0]], q) == [c[0]];
    assert c[..2][..1] == [c[0]];
    assert Matches(c[..2], q) == [c[0]];
    assert Matches(c, q) == [c[0]];
  }

  /** A query that mentions no skill gets the whole three-test catalog. */
  lemma NoMatchScenario()
    ensures Recommendations(SampleCatalog(), Some("nothing matches here")) == SampleCatalog()
  {
    var c := SampleCatalog();
    var q := "nothing matches here";
    LowerStrOfLowerCase(q);
    PythonMisses(q, 0);
    JavaMisses(q);
    SqlMisses(q, 1);
    RecommendationsFallback(c, Some(q));
  }
}
