/** The project detail page: loading the project and its tags, the date
    label, the industry/work-type split of the project's tags, and the order
    in which the images are shown. */
module ProjectDetail {
  import opened Types
  import opened Text
  import opened Sequences
  import opened Taxonomy

  /** `formatDate`: empty stays empty; otherwise the first two `-`-separated
      fields joined by `. `. A date without `-` has no second field, and the
      template then prints `undefined` for it. */
  function FormatDate(dateStr: string): (r: string)
    ensures dateStr == "" ==> r == ""
    ensures dateStr != "" ==> StartsWith(r, FieldBefore(dateStr, '-') + ". ")
  {
    if dateStr == "" then ""
    else
      var year := FieldBefore(dateStr, '-');
      var month := if '-' in dateStr then FieldBefore(AfterFirst(dateStr, '-'), '-') else "undefined";
      assert (year + ". " + month)[..|year + ". "|] == year + ". ";
      year + ". " + month
  }

  /** `Y-M` is shown as `Y. M` when neither part holds a `-`. */
  lemma FormatDateOfFields(y: string, m: string)
    requires '-' !in y && '-' !in m
    ensures FormatDate(y + "-" + m) == y + ". " + m
  {
    SplitAtFirst(y, '-', m);
    FieldBeforeNoSeparator(m, '-');
    assert '-' in y + "-" + m by {
      assert (y + "-" + m)[|y|] == '-';
    }
  }

  /** A date with further `-` fields, such as `YYYY-MM-DD`, is shown as its
      first two fields: the rest after the second field is dropped. */
  lemma FormatDateOfMoreFields(y: string, rest: string)
    requires '-' !in y
    ensures FormatDate(y + "-" + rest) == y + ". " + FieldBefore(rest, '-')
  {
    SplitAtFirst(y, '-', rest);
    assert '-' in y + "-" + rest by {
      assert (y + "-" + rest)[|y|] == '-';
    }
  }

  /** `YYYY-MM` is shown as `YYYY. MM`. */
  lemma FormatDateOfYearMonth(s: string)
    requires IsYearMonth(s)
    ensures FormatDate(s) == s[..4] + ". " + s[5..]
  {
    assert s == s[..4] + "-" + s[5..];
    FormatDateOfFields(s[..4], s[5..]);
  }

  /** A non-empty date without `-` is shown with a literal `undefined` month. */
  lemma FormatDateWithoutSeparator(s: string)
    requires s != "" && '-' !in s
    ensures FormatDate(s) == s + ". undefined"
  {
    FieldBeforeNoSeparator(s, '-');
  }

  function HasIdIn(ids: seq<string>): Tag -> bool
  {
    (t: Tag) => t.id in ids
  }

  /** `allTags.filter(t => proj.tags.includes(t.id))`: the tags whose id the
      project lists, in the order of all tags; ids without a tag are dropped. */
  function ResolveTags(allTags: seq<Tag>, ids: seq<string>): (r: seq<Tag>)
    ensures forall t :: t in r <==> t in allTags && t.id in ids
    ensures forall t :: multiset(r)[t] == if t.id in ids then multiset(allTags)[t] else 0
    ensures IsSubsequence(r, allTags)
  {
    FilterCount(allTags, HasIdIn(ids));
    FilterMembership(allTags, HasIdIn(ids));
    FilterIsSubsequence(allTags, HasIdIn(ids));
    Filter(allTags, HasIdIn(ids))
  }

  /** Every resolved tag is shown under exactly one heading, industry or work type. */
  lemma ResolvedTagsSplitExactly(allTags: seq<Tag>, ids: seq<string>)
    ensures forall t :: t in ResolveTags(allTags, ids) ==>
      (t in OfCategory(ResolveTags(allTags, ids), Industry)) != (t in OfCategory(ResolveTags(allTags, ids), WorkType))
    ensures |OfCategory(ResolveTags(allTags, ids), Industry)| + |OfCategory(ResolveTags(allTags, ids), WorkType)|
         == |ResolveTags(allTags, ids)|
  {
    PartitionIsExact(ResolveTags(allTags, ids));
  }

  /** The images in the order the page shows them: the main image, then the gallery. */
  function DisplayImages(p: Project): (r: seq<string>)
    ensures |r| == 1 + |p.gallery|
    ensures r[0] == p.imageUrl
    ensures r[1..] == p.gallery
  {
    [p.imageUrl] + p.gallery
  }

  /** What the page shows once loading is over (or while it never ends). */
  datatype View = Loading | NotFound | Shown(project: Project, projectTags: seq<Tag>)

  /** The page after its fetch: without an id the fetch never starts and the
      page stays on "Loading"; a missing project shows "not found"; otherwise
      the project with its resolved tags. */
  function LoadDetail(id: string, fetched: Option<Project>, allTags: seq<Tag>): (v: View)
    ensures v.Loading? <==> id == ""
    ensures v.NotFound? <==> id != "" && fetched.None?
    ensures v.Shown? ==> v.project == fetched.value
    ensures v.Shown? ==> v.projectTags == ResolveTags(allTags, fetched.value.tags)
    ensures v.Shown? ==> forall t :: t in v.projectTags <==> t in allTags && t.id in fetched.value.tags
  {
    if id == "" then Loading
    else if fetched.None? then NotFound
    else Shown(fetched.value, ResolveTags(allTags, fetched.value.tags))
  }
}
