/**
 * The two line filters: `search_case_sensitive` keeps the lines that contain
 * the query, `search_case_insensitive` keeps the lines whose lower-case form
 * contains the lower-case query and returns them unfolded.
 */
module Search {
  import opened Results
  import opened Sequences
  import opened Text
  import opened LineSplit

  /**
   * The test inside the closure of `search_case_insensitive`: every exact
   * match passes it.
   */
  function FoldedMatcher(query: string): (m: string -> bool)
    ensures forall line :: Contains(line, query) ==> m(line)
  {
    ContainsLoweredEverywhere(query);
    line => Contains(Lower(line), Lower(query))
  }

  /**
   * The closure passed to `filter` by `search_case_sensitive`: a line that
   * passes is at least as long as the query and also passes the folded test.
   */
  function ExactMatcher(query: string): (m: string -> bool)
    ensures forall line :: m(line) ==> |query| <= |line| && FoldedMatcher(query)(line)
  {
    line => Contains(line, query)
  }

  /** `contents.lines().filter(|line| line.contains(query)).collect()` */
  function SearchCaseSensitive(query: string, contents: string): (r: seq<string>)
    ensures forall line :: line in r <==> line in Lines(contents) && Contains(line, query)
  {
    Filter(Lines(contents), ExactMatcher(query))
  }

  /**
   * The query is folded once; each line is kept, unfolded, when its folded
   * form contains the folded query (`flat_map` over `Some(line)` / `None`).
   * The result is the same as a `filter` by FoldedMatcher.
   */
  function SearchCaseInsensitive(query: string, contents: string): (r: seq<string>)
    ensures r == Filter(Lines(contents), FoldedMatcher(query))
    ensures forall line :: line in r <==> line in Lines(contents) && Contains(Lower(line), Lower(query))
  {
    var q := Lower(query);
    var select := (line: string) => if Contains(Lower(line), q) then Some(line) else None;
    FlatMapSelectIsFilter(Lines(contents), select, FoldedMatcher(query));
    FlatMapOption(Lines(contents), select)
  }

  /**
   * The exact search returns precisely the filtering of the lines by
   * containment: same order, only matching lines, each matching line as
   * often as the text has it.
   */
  lemma SearchCaseSensitiveSpec(r: seq<string>, query: string, contents: string)
    ensures r == SearchCaseSensitive(query, contents)
        <==> IsFiltering(r, Lines(contents), ExactMatcher(query))
  {
    FilterIsFiltering(Lines(contents), ExactMatcher(query));
    if IsFiltering(r, Lines(contents), ExactMatcher(query)) {
      FilteringUnique(r, Lines(contents), ExactMatcher(query));
    }
  }

  /** The same characterisation for the folded search, whose elements are original lines. */
  lemma SearchCaseInsensitiveSpec(r: seq<string>, query: string, contents: string)
    ensures r == SearchCaseInsensitive(query, contents)
        <==> IsFiltering(r, Lines(contents), FoldedMatcher(query))
  {
    FilterIsFiltering(Lines(contents), FoldedMatcher(query));
    if IsFiltering(r, Lines(contents), FoldedMatcher(query)) {
      FilteringUnique(r, Lines(contents), FoldedMatcher(query));
    }
  }

  /** Every line matches the empty query, in either mode. */
  lemma EmptyQueryKeepsEveryLine(contents: string)
    ensures SearchCaseSensitive("", contents) == Lines(contents)
    ensures SearchCaseInsensitive("", contents) == Lines(contents)
  {
    forall line
      ensures ExactMatcher("")(line) && FoldedMatcher("")(line)
    {
      ContainsEmpty(line);
      assert Lower("") == "";
      ContainsEmpty(Lower(line));
    }
    FilterKeepsAll(Lines(contents), ExactMatcher(""));
    FilterKeepsAll(Lines(contents), FoldedMatcher(""));
  }

  /** Empty text has no lines, so neither search finds anything. */
  lemma EmptyContentsYieldNothing(query: string)
    ensures SearchCaseSensitive(query, "") == []
    ensures SearchCaseInsensitive(query, "") == []
  {
  }

  /** A query longer than every line matches nothing, in either mode. */
  lemma LongQueryMatchesNothing(query: string, contents: string)
    requires forall line :: line in Lines(contents) ==> |line| < |query|
    ensures SearchCaseSensitive(query, contents) == []
    ensures SearchCaseInsensitive(query, contents) == []
  {
    forall line | line in Lines(contents)
      ensures !ExactMatcher(query)(line) && !FoldedMatcher(query)(line)
    {
    }
    FilterKeepsNone(Lines(contents), ExactMatcher(query));
    FilterKeepsNone(Lines(contents), FoldedMatcher(query));
  }

  /** Every exact match is a folded match, so the exact result is a subsequence of the folded one. */
  lemma ExactWithinFolded(query: string, contents: string)
    ensures IsSubsequence(SearchCaseSensitive(query, contents), SearchCaseInsensitive(query, contents))
  {
    FilterMonotone(Lines(contents), ExactMatcher(query), FoldedMatcher(query));
  }

  /** The lines of the `case_sensitive` test text. */
  lemma CaseSensitiveLines()
    ensures Lines(JoinLines(["Rust:", "safe, fast, productive.", "Pick three."]))
         == ["Rust:", "safe, fast, productive.", "Pick three."]
  {
    LinesOfJoinLines(["Rust:", "safe, fast, productive.", "Pick three."]);
  }

  /** "Rust:" has no 'd'. */
  lemma ExactMatchRust()
    ensures !ExactMatcher("duct")("Rust:")
  {
    AbsentCharNotContained("Rust:", "duct", 'd');
  }

  /** "safe, fast, productive." has "duct" at index 15. */
  lemma ExactMatchSafe()
    ensures ExactMatcher("duct")("safe, fast, productive.")
  {
    assert "safe, fast, productive." == "safe, fast, pro" + "duct" + "ive.";
    assert OccursAt("safe, fast, productive.", "duct", 15);
  }

  /** "Pick three." has no 'd'. */
  lemma ExactMatchPick()
    ensures !ExactMatcher("duct")("Pick three.")
  {
    AbsentCharNotContained("Pick three.", "duct", 'd');
  }

  /** Filtering three lines of which only the middle one passes. */
  lemma FilterMiddleOfThree(l1: string, l2: string, l3: string, keep: string -> bool)
    requires !keep(l1) && keep(l2) && !keep(l3)
    ensures Filter([l1, l2, l3], keep) == [l2]
  {
    assert Filter([l3], keep) == [];
    assert [l2, l3][1..] == [l3];
    assert Filter([l2, l3], keep) == [l2];
    assert [l1, l2, l3][1..] == [l2, l3];
  }

  /** The `case_sensitive` test in `src/lib.rs`. */
  lemma CaseSensitiveExample()
    ensures SearchCaseSensitive("duct", JoinLines(["Rust:", "safe, fast, productive.", "Pick three."]))
         == ["safe, fast, productive."]
  {
    CaseSensitiveLines();
    ExactMatchRust();
    ExactMatchSafe();
    ExactMatchPick();
    FilterMiddleOfThree("Rust:", "safe, fast, productive.", "Pick three.", ExactMatcher("duct"));
  }

  /** "Rust:" folds to "rust:", which starts with "rust". */
  lemma FoldedMatchRust()
    ensures FoldedMatcher("RUSt")("Rust:")
  {
    assert Lower("RUSt") == "rust";
    assert Lower("Rust:") == "rust:";
    assert OccursAt("rust:", "rust", 0);
  }

  /** "safe, fast, productive." has no upper-case letter. */
  lemma LowerSafe()
    ensures Lower("safe, fast, productive.") == "safe, fast, productive."
  {
    LowerUnchanged("safe, fast, productive.");
  }

  /** The only 'r' of "safe, fast, productive." starts "roductive.", which has no 's'. */
  lemma NoRustInSafe()
    ensures !Contains("safe, fast, productive.", "rust")
  {
    assert "safe, fast, productive." == "safe, fast, p" + "roductive.";
    if Contains("safe, fast, p" + "roductive.", "rust") {
      ContainsSkipsPrefix("safe, fast, p", "roductive.", "rust");
      AbsentCharNotContained("roductive.", "rust", 's');
    }
  }

  lemma FoldedMatchSafe()
    ensures !FoldedMatcher("RUSt")("safe, fast, productive.")
  {
    assert Lower("RUSt") == "rust";
    LowerSafe();
    NoRustInSafe();
  }

  /** "Pick three." has no 'u' in either case. */
  lemma FoldedMatchPick()
    ensures !FoldedMatcher("RUSt")("Pick three.")
  {
    assert Lower("RUSt") == "rust";
    assert Lower("Pick three.") == "pick three.";
    AbsentCharNotContained("pick three.", "rust", 'u');
  }

  /** "Trust me." folds to "trust me.", which has "rust" at index 1. */
  lemma FoldedMatchTrust()
    ensures FoldedMatcher("RUSt")("Trust me.")
  {
    assert Lower("RUSt") == "rust";
    assert Lower("Trust me.") == "trust me.";
    assert OccursAt("trust me.", "rust", 1);
  }

  /** The lines of the `case_insensitive` test text. */
  lemma CaseInsensitiveLines()
    ensures Lines(JoinLines(["Rust:", "safe, fast, productive.", "Pick three.", "Trust me."]))
         == ["Rust:", "safe, fast, productive.", "Pick three.", "Trust me."]
  {
    LinesOfJoinLines(["Rust:", "safe, fast, productive.", "Pick three.", "Trust me."]);
  }

  /** Filtering four lines of which only the first and the last pass. */
  lemma FilterEndsOfFour(l1: string, l2: string, l3: string, l4: string, keep: string -> bool)
    requires keep(l1) && !keep(l2) && !keep(l3) && keep(l4)
    ensures Filter([l1, l2, l3, l4], keep) == [l1, l4]
  {
    assert Filter([l4], keep) == [l4];
    assert [l3, l4][1..] == [l4];
    assert Filter([l3, l4], keep) == [l4];
    assert [l2, l3, l4][1..] == [l3, l4];
    assert Filter([l2, l3, l4], keep) == [l4];
    assert [l1, l2, l3, l4][1..] == [l2, l3, l4];
  }

  /** Filtering the four lines by the folded matcher keeps the first and the last. */
  lemma FoldedFilterExample()
    ensures Filter(["Rust:", "safe, fast, productive.", "Pick three.", "Trust me."], FoldedMatcher("RUSt"))
         == ["Rust:", "Trust me."]
  {
    FoldedMatchRust();
    FoldedMatchSafe();
    FoldedMatchPick();
    FoldedMatchTrust();
    FilterEndsOfFour("Rust:", "safe, fast, productive.", "Pick three.", "Trust me.", FoldedMatcher("RUSt"));
  }

  /** The `case_insensitive` test in `src/lib.rs`: the lines come back unfolded. */
  lemma CaseInsensitiveExample()
    ensures SearchCaseInsensitive("RUSt", JoinLines(["Rust:", "safe, fast, productive.", "Pick three.", "Trust me."]))
         == ["Rust:", "Trust me."]
  {
    CaseInsensitiveLines();
    FoldedFilterExample();
  }
}
