/** The tag-selection helpers shared by the admin dashboard and the public
    project list: toggling an id in a selection list, and the "any selected
    tag" test applied per category. */
module Selection {
  import opened Types
  import opened Sequences

  /** Toggle `id` in a selection: drop every copy when present, otherwise
      append it at the end. */
  function Toggle(sel: seq<string>, id: string): (r: seq<string>)
    ensures id !in sel ==> r == sel + [id]
    ensures id in sel ==> id !in r && IsSubsequence(r, sel)
    ensures id in sel ==> forall x :: x != id ==> multiset(r)[x] == multiset(sel)[x]
    ensures forall x :: x in r <==> (x in sel) != (x == id)
  {
    if id in sel then
      var r := RemoveAll(sel, id);
      assert forall x :: x in r <==> x in multiset(r);
      r
    else
      sel + [id]
  }

  /** Toggling an id that was not selected, twice, restores the selection exactly. */
  lemma ToggleTwiceRestores(sel: seq<string>, id: string)
    requires id !in sel
    ensures Toggle(Toggle(sel, id), id) == sel
  {
    RemoveAllAppended(sel, id);
  }

  /** `tags.some(tagId => selected.includes(tagId))` */
  predicate HitsAny(tags: seq<string>, selected: seq<string>)
  {
    exists t :: t in tags && t in selected
  }

  /** One category's test: vacuous when nothing is selected in it, otherwise
      at least one of the project's tags is selected. */
  predicate CategoryMatches(tags: seq<string>, selected: seq<string>)
  {
    |selected| == 0 || HitsAny(tags, selected)
  }

  /** Both category tests, joined by AND. */
  predicate TagsMatch(p: Project, industryIds: seq<string>, typeIds: seq<string>)
  {
    CategoryMatches(p.tags, industryIds) && CategoryMatches(p.tags, typeIds)
  }

  /** Selection `a` is at least as strict as `b`: `b` selects nothing, or `a`
      selects something and everything `a` selects `b` selects too. */
  predicate AtLeastAsStrict(a: seq<string>, b: seq<string>)
  {
    |b| == 0 || (|a| > 0 && forall x :: x in a ==> x in b)
  }

  /** Widening a non-empty selection, or clearing it, never fails a project
      that passed; selecting within an empty category never passes a new one. */
  lemma StricterMatchesFewer(tags: seq<string>, a: seq<string>, b: seq<string>)
    requires AtLeastAsStrict(a, b)
    ensures CategoryMatches(tags, a) ==> CategoryMatches(tags, b)
  {
    if |b| > 0 && CategoryMatches(tags, a) {
      var t :| t in tags && t in a;
      assert t in b;
    }
  }
}
