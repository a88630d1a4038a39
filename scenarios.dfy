/** Proved results of the catalogue filter, the date sort and the image
    editor on concrete data. The filter uses two sample projects: "Alpha" by
    "Acme" tagged `t1` in 2024-01 and "Beta" by "Corp" tagged `t2` in 2024-03. */
module Scenarios {
  import opened Types
  import opened Text
  import opened Sequences
  import opened Selection
  import opened DateOrder
  import opened ProjectList
  import AdminEditor

  function Sample(title: string, client: string, tag: string, date: string): Project
  {
    Project(title, title, "", client, date, [tag], "main.png", [], None, None)
  }

  const Alpha := Sample("Alpha", "Acme", "t1", "2024-01")
  const Beta := Sample("Beta", "Corp", "t2", "2024-03")

  /** Selecting industry `t1` with no term shows only Alpha. */
  lemma IndustrySelectionScenario()
    ensures FilteredProjects([Alpha, Beta], "", ["t1"], []) == [Alpha]
  {
    var f := MatchesFn("", ["t1"], []);
    EmptyTermMatchesAll(Alpha);
    assert HitsAny(Alpha.tags, ["t1"]) by { assert "t1" in Alpha.tags; }
    assert !f(Beta);
    assert [Alpha, Beta][1..] == [Beta];
    assert Filter([Beta], f) == [];
    assert Matching([Alpha, Beta], "", ["t1"], []) == [Alpha];
  }

  /** Beta's title folds to the term itself. */
  lemma BetaMatchesBeta()
    ensures SearchMatches(Beta, "beta")
  {
    assert Lower("beta") == "beta";
    assert Lower("Beta") == "beta";
    assert StartsWith(Lower(Beta.title), Lower("beta"));
  }

  /** Neither "Alpha" nor "Acme" holds a `b` or `B`, so neither contains "beta". */
  lemma AlphaMissesBeta()
    ensures !SearchMatches(Alpha, "beta")
  {
    var t := Lower("beta");
    assert t[0] == 'b';
    assert 'b' !in Alpha.title && 'B' !in Alpha.title;
    assert 'b' !in Alpha.client && 'B' !in Alpha.client;
    if Contains(Lower(Alpha.title), t) {
      ContainsHasFirstChar(Lower(Alpha.title), t);
      LowerHasLetter(Alpha.title, 'b');
    }
    if Contains(Lower(Alpha.client), t) {
      ContainsHasFirstChar(Lower(Alpha.client), t);
      LowerHasLetter(Alpha.client, 'b');
    }
  }

  /** The term "beta" finds Beta by its title and nothing else, whatever its case. */
  lemma SearchScenario()
    ensures FilteredProjects([Alpha, Beta], "beta", [], []) == [Beta]
  {
    var f := MatchesFn("beta", [], []);
    BetaMatchesBeta();
    AlphaMissesBeta();
    assert f(Beta) && !f(Alpha);
    assert [Alpha, Beta][1..] == [Beta];
    assert Filter([Beta], f) == [Beta];
    assert Matching([Alpha, Beta], "beta", [], []) == [Beta];
  }

  const Dec2024 := Sample("A", "c", "t", "2024-12")
  const Feb2024 := Sample("B", "c", "t", "2024-02")
  const Dec2023 := Sample("C", "c", "t", "2023-12")

  lemma Dec2023BeforeFeb2024()
    ensures LexLess("2023-12", "2024-02")
  {
    LexLessAtFirstDifference("2023-12", "2024-02", 3);
  }

  lemma Feb2024BeforeDec2024()
    ensures LexLess("2024-02", "2024-12")
  {
    LexLessAtFirstDifference("2024-02", "2024-12", 5);
  }

  lemma Dec2023BeforeDec2024()
    ensures LexLess("2023-12", "2024-12")
  {
    LexLessAtFirstDifference("2023-12", "2024-12", 3);
  }

  lemma DateOrderOfSamples()
    ensures !NewerOrSame(Dec2023, Dec2024) && !NewerOrSame(Feb2024, Dec2024)
    ensures !NewerOrSame(Dec2023, Feb2024) && NewerOrSame(Feb2024, Dec2023)
  {
    Dec2023BeforeFeb2024();
    Feb2024BeforeDec2024();
    Dec2023BeforeDec2024();
    LexTrichotomy("2023-12", "2024-02");
  }

  /** Sorting three projects dated `x` < `z`, `y` < `x`, `y` < `z` (as
      strings) gives `z`, `x`, `y`. */
  lemma SortThree(x: Project, y: Project, z: Project)
    requires !NewerOrSame(y, z) && !NewerOrSame(x, z) && !NewerOrSame(y, x) && NewerOrSame(x, y)
    ensures SortByDateDesc([x, y, z]) == [z, x, y]
  {
    assert [x, y, z][1..] == [y, z] && [y, z][1..] == [z] && [z][1..] == [];
    assert SortByDateDesc([z]) == [z];
    assert Insert(y, [z]) == [z] + Insert(y, []);
    assert SortByDateDesc([y, z]) == [z, y];
    assert [z, y][1..] == [y];
    assert Insert(x, [y]) == [x, y];
    assert Insert(x, [z, y]) == [z] + Insert(x, [y]);
  }

  /** December 2024, February 2024 and December 2023 come out newest first. */
  lemma DateSortScenario()
    ensures SortByDateDesc([Feb2024, Dec2023, Dec2024]) == [Dec2024, Feb2024, Dec2023]
  {
    DateOrderOfSamples();
    SortThree(Feb2024, Dec2023, Dec2024);
  }

  /** Removing the main image from `["a", "b", "c"]` with main `"b"` leaves
      `["a", "c"]` with main `"a"`. */
  method RemoveMainImageScenario()
  {
    var e := new AdminEditor.ProjectEditor();
    e.AppendImage("a");
    e.AppendImage("b");
    e.AppendImage("c");
    e.SetMainImage("b");
    e.RemoveImage(1);
    assert e.images == ["a", "c"];
    assert e.mainImage == "a";
  }
}
