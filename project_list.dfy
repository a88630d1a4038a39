/** The public catalogue's `filteredProjects`: a case-insensitive search on
    title or client, AND "any selected industry tag", AND "any selected
    work-type tag", then a stable newest-first sort of that fresh list. */
module ProjectList {
  import opened Types
  import opened Text
  import opened Sequences
  import opened Selection
  import opened DateOrder

  /** `title.toLowerCase().includes(term.toLowerCase()) || client.toLowerCase().includes(term.toLowerCase())` */
  predicate SearchMatches(p: Project, term: string)
  {
    Contains(Lower(p.title), Lower(term)) || Contains(Lower(p.client), Lower(term))
  }

  /** All three tests of the public list. */
  predicate Matches(p: Project, term: string, industryIds: seq<string>, typeIds: seq<string>)
  {
    SearchMatches(p, term) && TagsMatch(p, industryIds, typeIds)
  }

  function MatchesFn(term: string, industryIds: seq<string>, typeIds: seq<string>): Project -> bool
  {
    (p: Project) => Matches(p, term, industryIds, typeIds)
  }

  /** The `filter` step alone: the matching projects in input order. */
  function Matching(projects: seq<Project>, term: string, industryIds: seq<string>, typeIds: seq<string>): (r: seq<Project>)
    ensures forall p :: multiset(r)[p] == if Matches(p, term, industryIds, typeIds) then multiset(projects)[p] else 0
    ensures IsSubsequence(r, projects)
  {
    FilterCount(projects, MatchesFn(term, industryIds, typeIds));
    FilterIsSubsequence(projects, MatchesFn(term, industryIds, typeIds));
    Filter(projects, MatchesFn(term, industryIds, typeIds))
  }

  /** `filteredProjects`: every shown project passes all three tests, every
      passing project is shown as often as it occurs in `projects`, dates never
      increase, and projects of one date keep their input order. */
  function FilteredProjects(projects: seq<Project>, term: string, industryIds: seq<string>, typeIds: seq<string>): (r: seq<Project>)
    ensures forall i :: 0 <= i < |r| ==> SearchMatches(r[i], term) && TagsMatch(r[i], industryIds, typeIds)
    ensures forall p :: multiset(r)[p] == if Matches(p, term, industryIds, typeIds) then multiset(projects)[p] else 0
    ensures SortedNewestFirst(r)
    ensures forall d :: WithDate(r, d) == WithDate(Matching(projects, term, industryIds, typeIds), d)
  {
    var m := Matching(projects, term, industryIds, typeIds);
    var r := SortByDateDesc(m);
    SortIsStableForAllDates(m);
    assert forall i :: 0 <= i < |r| ==> r[i] in multiset(r);
    r
  }

  lemma SortIsStableForAllDates(s: seq<Project>)
    ensures forall d :: WithDate(SortByDateDesc(s), d) == WithDate(s, d)
  {
    forall d ensures WithDate(SortByDateDesc(s), d) == WithDate(s, d) {
      SortIsStable(s, d);
    }
  }

  /** An empty search term matches every project. */
  lemma EmptyTermMatchesAll(p: Project)
    ensures SearchMatches(p, "")
  {
    assert Lower("") == "";
    assert StartsWith(Lower(p.title), "");
  }

  /** With no term and nothing selected, every project is shown, only reordered newest first. */
  lemma NoCriteriaShowsAll(projects: seq<Project>)
    ensures FilteredProjects(projects, "", [], []) == SortByDateDesc(projects)
    ensures multiset(FilteredProjects(projects, "", [], [])) == multiset(projects)
  {
    forall i | 0 <= i < |projects| ensures MatchesFn("", [], [])(projects[i]) {
      EmptyTermMatchesAll(projects[i]);
    }
    FilterKeepsAll(projects, MatchesFn("", [], []));
  }

  /** The search ignores the case of the term. */
  lemma SearchIgnoresCase(p: Project, term: string)
    ensures SearchMatches(p, term) <==> SearchMatches(p, Lower(term))
  {
    LowerIdempotent(term);
  }

  /** A search hit means the folded term occurs at some position of the folded title or client. */
  lemma SearchHitHasPosition(p: Project, term: string)
    requires SearchMatches(p, term)
    ensures (exists i: nat :: OccursAt(Lower(p.title), Lower(term), i)) || (exists i: nat :: OccursAt(Lower(p.client), Lower(term), i))
  {
    ContainsIffOccurs(Lower(p.title), Lower(term));
    ContainsIffOccurs(Lower(p.client), Lower(term));
  }

  /** Selecting more ids in a category that already has a selection, or
      clearing a category, never hides a project; making a first selection in
      an empty category never shows a new one. */
  lemma StricterSelectionShowsFewer(projects: seq<Project>, term: string,
                                    industry1: seq<string>, types1: seq<string>,
                                    industry2: seq<string>, types2: seq<string>)
    requires AtLeastAsStrict(industry1, industry2) && AtLeastAsStrict(types1, types2)
    ensures multiset(FilteredProjects(projects, term, industry1, types1)) <= multiset(FilteredProjects(projects, term, industry2, types2))
  {
    forall p ensures MatchesFn(term, industry1, types1)(p) ==> MatchesFn(term, industry2, types2)(p) {
      StricterMatchesFewer(p.tags, industry1, industry2);
      StricterMatchesFewer(p.tags, types1, types2);
    }
    FilterWeakerKeepsMore(projects, MatchesFn(term, industry1, types1), MatchesFn(term, industry2, types2));
  }

  /** Filtering the shown list again with the same criteria shows the same list. */
  lemma FilterIsIdempotent(projects: seq<Project>, term: string, industryIds: seq<string>, typeIds: seq<string>)
    ensures FilteredProjects(FilteredProjects(projects, term, industryIds, typeIds), term, industryIds, typeIds)
         == FilteredProjects(projects, term, industryIds, typeIds)
  {
    var f := MatchesFn(term, industryIds, typeIds);
    var m := Filter(projects, f);
    SortFilterCommute(m, f);
    FilterKeepsAll(m, f);
    SortIdempotent(m);
  }
}
