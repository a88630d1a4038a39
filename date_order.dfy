/** Newest-first ordering of projects by their `YYYY-MM` date:
    `projects.sort((a, b) => b.date.localeCompare(a.date))`. The built-in
    sort is stable, so it is modelled by an insertion sort that puts each
    project before every later project of the same date. */
module DateOrder {
  import opened Types
  import opened Text
  import opened Sequences

  /** `a` may precede `b` in newest-first order: its date does not sort before `b`'s. */
  predicate NewerOrSame(a: Project, b: Project)
  {
    !LexLess(a.date, b.date)
  }

  /** Dates never increase along `s`. */
  ghost predicate SortedNewestFirst(s: seq<Project>)
  {
    forall i, j :: 0 <= i < j < |s| ==> NewerOrSame(s[i], s[j])
  }

  /** Insert `x` into a newest-first list, before the first project that is not newer. */
  function Insert(x: Project, t: seq<Project>): (r: seq<Project>)
    ensures multiset(r) == multiset(t) + multiset{x}
  {
    if t == [] || NewerOrSame(x, t[0]) then [x] + t
    else
      assert t == [t[0]] + t[1..];
      [t[0]] + Insert(x, t[1..])
  }

  /** The stable date-descending sort. */
  function SortByDateDesc(s: seq<Project>): (r: seq<Project>)
    ensures multiset(r) == multiset(s)
    ensures SortedNewestFirst(r)
  {
    if s == [] then []
    else
      assert s == [s[0]] + s[1..];
      var t := SortByDateDesc(s[1..]);
      InsertKeepsSorted(s[0], t);
      Insert(s[0], t)
  }

  /** The projects of `s` dated exactly `d`, in order. */
  function WithDate(s: seq<Project>, d: string): seq<Project>
  {
    Filter(s, DateIs(d))
  }

  function DateIs(d: string): Project -> bool
  {
    (p: Project) => p.date == d
  }

  lemma SortedCons(a: Project, rest: seq<Project>)
    requires SortedNewestFirst(rest)
    requires forall j :: 0 <= j < |rest| ==> NewerOrSame(a, rest[j])
    ensures SortedNewestFirst([a] + rest)
  {
    var s := [a] + rest;
    forall i, j | 0 <= i < j < |s| ensures NewerOrSame(s[i], s[j]) {
      if i == 0 {
        assert s[j] == rest[j - 1];
      } else {
        assert s[i] == rest[i - 1] && s[j] == rest[j - 1];
      }
    }
  }

  lemma SortedTail(s: seq<Project>)
    requires s != [] && SortedNewestFirst(s)
    ensures SortedNewestFirst(s[1..])
  {
    forall i, j | 0 <= i < j < |s| - 1 ensures NewerOrSame(s[1..][i], s[1..][j]) {
      assert s[1..][i] == s[i + 1] && s[1..][j] == s[j + 1];
    }
  }

  /** The head of a newest-first list is newer than or as new as any project in it. */
  lemma HeadIsNewest(s: seq<Project>, p: Project)
    requires s != [] && SortedNewestFirst(s) && p in s
    ensures NewerOrSame(s[0], p)
  {
    var k :| 0 <= k < |s| && s[k] == p;
    if k == 0 {
      LexTrichotomy(p.date, p.date);
    }
  }

  lemma {:induction false} InsertKeepsSorted(x: Project, t: seq<Project>)
    requires SortedNewestFirst(t)
    ensures SortedNewestFirst(Insert(x, t))
  {
    if t == [] || NewerOrSame(x, t[0]) {
      forall j | 0 <= j < |t| ensures NewerOrSame(x, t[j]) {
        HeadIsNewest(t, t[j]);
        LexNotLessTransitive(x.date, t[0].date, t[j].date);
      }
      SortedCons(x, t);
    } else {
      SortedTail(t);
      InsertKeepsSorted(x, t[1..]);
      var rest := Insert(x, t[1..]);
      LexTrichotomy(x.date, t[0].date);
      forall j | 0 <= j < |rest| ensures NewerOrSame(t[0], rest[j]) {
        assert rest[j] in multiset(rest);
        if rest[j] != x {
          assert rest[j] in t[1..];
          HeadIsNewest(t, rest[j]);
        }
      }
      SortedCons(t[0], rest);
    }
  }

  /** A project newer than or as new as the head of a sorted list is newer
      than or as new as the head of any filtered part of it. */
  lemma NewerThanFilteredHead(x: Project, t: seq<Project>, f: Project -> bool)
    requires SortedNewestFirst(t) && t != [] && NewerOrSame(x, t[0])
    requires Filter(t, f) != []
    ensures NewerOrSame(x, Filter(t, f)[0])
  {
    var ft := Filter(t, f);
    FilterMembership(t, f);
    assert ft[0] in ft;
    HeadIsNewest(t, ft[0]);
    LexNotLessTransitive(x.date, t[0].date, ft[0].date);
  }

  /** The case of `InsertThenFilter` where the project goes in front. */
  lemma InsertInFrontThenFilter(x: Project, t: seq<Project>, f: Project -> bool)
    requires SortedNewestFirst(t) && (t == [] || NewerOrSame(x, t[0]))
    ensures Filter(Insert(x, t), f) == if f(x) then Insert(x, Filter(t, f)) else Filter(t, f)
  {
    assert Insert(x, t) == [x] + t;
    FilterCons(x, t, f);
    var ft := Filter(t, f);
    if f(x) {
      if ft != [] {
        NewerThanFilteredHead(x, t, f);
      }
      assert Insert(x, ft) == [x] + ft;
    }
  }

  /** The case of `InsertThenFilter` where the project goes behind the head
      `h`, given the property for the rest of the list. */
  lemma InsertBehindThenFilter(x: Project, h: Project, rest: seq<Project>, f: Project -> bool)
    requires !NewerOrSame(x, h)
    requires Filter(Insert(x, rest), f) == if f(x) then Insert(x, Filter(rest, f)) else Filter(rest, f)
    ensures Filter(Insert(x, [h] + rest), f) == if f(x) then Insert(x, Filter([h] + rest, f)) else Filter([h] + rest, f)
  {
    var ir, fr := Insert(x, rest), Filter(rest, f);
    var hs := if f(h) then [h] else [];
    InsertBehind(x, h, rest);
    FilterCons(h, rest, f);
    FilterCons(h, ir, f);
    if f(x) {
      calc {
        Filter(Insert(x, [h] + rest), f);
        hs + Filter(ir, f);
        hs + Insert(x, fr);
        { if f(h) { InsertBehind(x, h, fr); } else { assert hs + fr == fr; } }
        Insert(x, hs + fr);
      }
    } else {
      calc {
        Filter(Insert(x, [h] + rest), f);
        hs + Filter(ir, f);
        hs + fr;
      }
    }
  }

  /** A project older than the head goes behind it. */
  lemma InsertBehind(x: Project, h: Project, t: seq<Project>)
    requires !NewerOrSame(x, h)
    ensures Insert(x, [h] + t) == [h] + Insert(x, t)
  {
    assert ([h] + t)[0] == h && ([h] + t)[1..] == t;
  }

  /** Filtering after inserting into a sorted list is inserting into the filtered list. */
  lemma {:induction false} InsertThenFilter(x: Project, t: seq<Project>, f: Project -> bool)
    requires SortedNewestFirst(t)
    ensures Filter(Insert(x, t), f) == if f(x) then Insert(x, Filter(t, f)) else Filter(t, f)
  {
    if t == [] || NewerOrSame(x, t[0]) {
      InsertInFrontThenFilter(x, t, f);
    } else {
      SortedTail(t);
      InsertThenFilter(x, t[1..], f);
      assert t == [t[0]] + t[1..];
      InsertBehindThenFilter(x, t[0], t[1..], f);
    }
  }

  /** Sorting and filtering commute: the stable sort of a filtered list is the
      filtered sorted list. */
  lemma {:induction false} SortFilterCommute(s: seq<Project>, f: Project -> bool)
    ensures Filter(SortByDateDesc(s), f) == SortByDateDesc(Filter(s, f))
  {
    if s != [] {
      SortFilterCommute(s[1..], f);
      InsertThenFilter(s[0], SortByDateDesc(s[1..]), f);
      var fs := Filter(s, f);
      if f(s[0]) {
        assert fs == [s[0]] + Filter(s[1..], f);
        assert fs[0] == s[0] && fs[1..] == Filter(s[1..], f);
      } else {
        assert fs == Filter(s[1..], f);
      }
    }
  }

  /** A list already newest-first is left as it is. */
  lemma {:induction false} SortOfSorted(s: seq<Project>)
    requires SortedNewestFirst(s)
    ensures SortByDateDesc(s) == s
  {
    if s != [] {
      SortedTail(s);
      SortOfSorted(s[1..]);
      assert s == [s[0]] + s[1..];
    }
  }

  /** Stability: the projects of any one date come out in their input order. */
  lemma SortIsStable(s: seq<Project>, d: string)
    ensures WithDate(SortByDateDesc(s), d) == WithDate(s, d)
  {
    SortFilterCommute(s, DateIs(d));
    var w := Filter(s, DateIs(d));
    LexTrichotomy(d, d);
    assert forall i :: 0 <= i < |w| ==> w[i].date == d;
    SortOfSorted(w);
  }

  /** Sorting twice is sorting once. */
  lemma SortIdempotent(s: seq<Project>)
    ensures SortByDateDesc(SortByDateDesc(s)) == SortByDateDesc(s)
  {
    SortOfSorted(SortByDateDesc(s));
  }
}
