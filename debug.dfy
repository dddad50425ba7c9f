/**
 * The keyword filter of the core debug header, used to select which tests
 * run: a matching '!' keyword vetoes, otherwise some plain keyword must match.
 */
module Debug {
  import opened Strings
  import opened DebugGeneral

  /** keyword[0], which is the terminating zero of an empty std::string. */
  function FirstChar(keyword: string): char
  {
    if |keyword| > 0 then keyword[0] else '\0'
  }

  /** A '!' keyword whose remainder occurs in s. */
  predicate Vetoes(s: string, keyword: string)
  {
    FirstChar(keyword) == '!' && StringContains(s, keyword[1..])
  }

  /** A plain keyword (the empty one included) that occurs in s. */
  predicate Accepts(s: string, keyword: string)
  {
    FirstChar(keyword) != '!' && StringContains(s, keyword)
  }

  /** The answer match_keywords promises: no veto and at least one acceptance. */
  predicate KeywordsMatch(s: string, keywords: seq<string>)
  {
    (forall j :: 0 <= j < |keywords| ==> !Vetoes(s, keywords[j])) &&
    (exists j :: 0 <= j < |keywords| && Accepts(s, keywords[j]))
  }

  /**
   * match_keywords: returns false at the first vetoing keyword, otherwise
   * remembers whether any plain keyword occurred.
   */
  method MatchKeywords(s: string, keywords: seq<string>) returns (r: bool)
    ensures r <==> KeywordsMatch(s, keywords)
  {
    var found := false;
    var i := 0;
    while i < |keywords|
      invariant 0 <= i <= |keywords|
      invariant forall j :: 0 <= j < i ==> !Vetoes(s, keywords[j])
      invariant found == AcceptedBefore(s, keywords, i)
    {
      var keyword := keywords[i];
      var first := if |keyword| > 0 then keyword[0] else '\0';
      assert first == FirstChar(keyword);
      if first == '!' {
        var vetoed := StringContains(s, keyword[1..]);
        if vetoed {
          assert Vetoes(s, keywords[i]);
          return false;
        }
        assert !Vetoes(s, keyword) && !Accepts(s, keyword);
      } else {
        var accepted := StringContains(s, keyword);
        if accepted {
          found := true;
        }
        assert (Accepts(s, keyword) <==> accepted) && !Vetoes(s, keyword);
      }
      i := i + 1;
    }
    AcceptedBeforeExists(s, keywords, i);
    r := found;
  }

  /** Some plain keyword among the first n occurs in s. */
  predicate AcceptedBefore(s: string, keywords: seq<string>, n: nat)
    requires n <= |keywords|
  {
    n > 0 && (AcceptedBefore(s, keywords, n - 1) || Accepts(s, keywords[n - 1]))
  }

  lemma {:induction false} AcceptedBeforeExists(s: string, keywords: seq<string>, n: nat)
    requires n <= |keywords|
    ensures AcceptedBefore(s, keywords, n) <==> exists j :: 0 <= j < n && Accepts(s, keywords[j])
  {
    if n > 0 {
      AcceptedBeforeExists(s, keywords, n - 1);
      if Accepts(s, keywords[n - 1]) {
        assert 0 <= n - 1 < n && Accepts(s, keywords[n - 1]);
      }
    }
  }

  /** A vetoing keyword wins wherever it stands in the list. */
  lemma VetoWins(s: string, keywords: seq<string>, j: nat)
    requires j < |keywords| && Vetoes(s, keywords[j])
    ensures !KeywordsMatch(s, keywords)
  {
  }

  /** An empty keyword list matches nothing. */
  lemma NoKeywordsNoMatch(s: string)
    ensures !KeywordsMatch(s, [])
  {
  }

  /** The empty keyword is plain and occurs in every string. */
  lemma EmptyKeywordMatchesAll(s: string)
    ensures KeywordsMatch(s, [""])
  {
    assert OccursAt(s, "", 0);
    assert Accepts(s, [""][0]);
  }

  /** should_run_test: a test runs exactly when its name matches the keywords. */
  method ShouldRunTest(testName: string, testKeywords: seq<string>) returns (run: bool)
    ensures run <==> KeywordsMatch(testName, testKeywords)
  {
    run := MatchKeywords(testName, testKeywords);
  }
}
