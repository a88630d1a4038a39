/** The split of a tag list into industry tags and work-type tags
    (`tags.filter(t => t.category === ...)`). */
module Taxonomy {
  import opened Types
  import opened Sequences

  function CategoryIs(c: Category): Tag -> bool
  {
    (t: Tag) => t.category == c
  }

  /** The tags of one category, in the order of `tags`. */
  function OfCategory(tags: seq<Tag>, c: Category): (r: seq<Tag>)
    ensures forall t :: t in r <==> t in tags && t.category == c
    ensures IsSubsequence(r, tags)
  {
    FilterMembership(tags, CategoryIs(c));
    FilterIsSubsequence(tags, CategoryIs(c));
    Filter(tags, CategoryIs(c))
  }

  /** Because a category has exactly two values, every tag lands in exactly
      one of the two lists, as often as it occurs in `tags`. */
  lemma PartitionIsExact(tags: seq<Tag>)
    ensures multiset(OfCategory(tags, Industry)) + multiset(OfCategory(tags, WorkType)) == multiset(tags)
    ensures |OfCategory(tags, Industry)| + |OfCategory(tags, WorkType)| == |tags|
    ensures forall t :: t in tags ==> (t in OfCategory(tags, Industry)) != (t in OfCategory(tags, WorkType))
  {
    FilterSplit(tags, CategoryIs(Industry), CategoryIs(WorkType));
  }
}
