/** The admin dashboard's project list: the projects are sorted newest first
    once, when they are loaded, and the tag filter then keeps that order. There
    is no search, and with nothing selected the loaded list is shown as it is. */
module AdminFilter {
  import opened Types
  import opened Sequences
  import opened Selection
  import opened DateOrder
  import ProjectList

  /** The load-time sort of the fetched projects. */
  function LoadProjects(fetched: seq<Project>): (r: seq<Project>)
    ensures multiset(r) == multiset(fetched)
    ensures SortedNewestFirst(r)
    ensures forall d :: WithDate(r, d) == WithDate(fetched, d)
  {
    ProjectList.SortIsStableForAllDates(fetched);
    SortByDateDesc(fetched)
  }

  function TagsMatchFn(industryIds: seq<string>, typeIds: seq<string>): Project -> bool
  {
    (p: Project) => TagsMatch(p, industryIds, typeIds)
  }

  /** The admin `filteredProjects`: the very same list when nothing is
      selected, and otherwise exactly the order-preserving sublist of the
      projects that pass both category tests. */
  function AdminFilteredProjects(projects: seq<Project>, industryIds: seq<string>, typeIds: seq<string>): (r: seq<Project>)
    ensures |industryIds| == 0 && |typeIds| == 0 ==> r == projects
    ensures forall i :: 0 <= i < |r| ==> TagsMatch(r[i], industryIds, typeIds)
    ensures forall p :: multiset(r)[p] == if TagsMatch(p, industryIds, typeIds) then multiset(projects)[p] else 0
    ensures IsSubsequence(r, projects)
  {
    if |industryIds| == 0 && |typeIds| == 0 then
      SubsequenceReflexive(projects);
      projects
    else
      FilterCount(projects, TagsMatchFn(industryIds, typeIds));
      FilterIsSubsequence(projects, TagsMatchFn(industryIds, typeIds));
      Filter(projects, TagsMatchFn(industryIds, typeIds))
  }

  /** On the loaded (sorted) list the admin filter shows exactly what the
      public list shows with an empty search term, in the same order; in
      particular it is newest first without sorting again. */
  lemma AdminAgreesWithPublicList(fetched: seq<Project>, industryIds: seq<string>, typeIds: seq<string>)
    ensures AdminFilteredProjects(LoadProjects(fetched), industryIds, typeIds)
         == ProjectList.FilteredProjects(fetched, "", industryIds, typeIds)
    ensures SortedNewestFirst(AdminFilteredProjects(LoadProjects(fetched), industryIds, typeIds))
  {
    var f := ProjectList.MatchesFn("", industryIds, typeIds);
    var g := TagsMatchFn(industryIds, typeIds);
    forall p ensures f(p) == g(p) {
      ProjectList.EmptyTermMatchesAll(p);
    }
    FilterExtensional(fetched, f, g);
    if |industryIds| == 0 && |typeIds| == 0 {
      forall i | 0 <= i < |fetched| ensures g(fetched[i]) { }
      FilterKeepsAll(fetched, g);
    } else {
      SortFilterCommute(fetched, g);
    }
  }
}
