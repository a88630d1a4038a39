/** Generic list operations that the views use: `Array.prototype.filter`,
    removal of every copy of a value, and the two `splice` shapes of the
    image editor (remove one position, insert at one position). */
module Sequences {

  /** The elements of `s` for which `f` holds, in their original order. */
  function Filter<T>(s: seq<T>, f: T -> bool): (r: seq<T>)
    ensures |r| <= |s|
    ensures forall i :: 0 <= i < |r| ==> f(r[i])
  {
    if s == [] then [] else (if f(s[0]) then [s[0]] else []) + Filter(s[1..], f)
  }

  /** Filtering a list with a given head: the head if it passes, then the filtered rest. */
  lemma FilterCons<T>(x: T, t: seq<T>, f: T -> bool)
    ensures Filter([x] + t, f) == (if f(x) then [x] else []) + Filter(t, f)
  {
    assert ([x] + t)[0] == x && ([x] + t)[1..] == t;
  }

  /** `a` is `b` with some elements left out and the rest kept in order. */
  ghost predicate IsSubsequence<T>(a: seq<T>, b: seq<T>)
  {
    if b == [] then a == []
    else (a != [] && a[0] == b[0] && IsSubsequence(a[1..], b[1..])) || IsSubsequence(a, b[1..])
  }

  lemma {:induction false} SubsequenceReflexive<T>(s: seq<T>)
    ensures IsSubsequence(s, s)
  {
    if s != [] {
      SubsequenceReflexive(s[1..]);
    }
  }

  /** Filtering keeps exactly the copies of the values that pass the test. */
  lemma {:induction false} FilterCount<T>(s: seq<T>, f: T -> bool)
    ensures forall x :: multiset(Filter(s, f))[x] == if f(x) then multiset(s)[x] else 0
  {
    if s != [] {
      FilterCount(s[1..], f);
      assert s == [s[0]] + s[1..];
      forall x ensures multiset(Filter(s, f))[x] == if f(x) then multiset(s)[x] else 0 {
        assert multiset(s)[x] == multiset([s[0]])[x] + multiset(s[1..])[x];
      }
    }
  }

  lemma FilterMembership<T>(s: seq<T>, f: T -> bool)
    ensures forall x :: x in Filter(s, f) <==> x in s && f(x)
  {
    FilterCount(s, f);
    forall x ensures x in Filter(s, f) <==> x in s && f(x) {
      assert x in Filter(s, f) <==> x in multiset(Filter(s, f));
      assert x in s <==> x in multiset(s);
    }
  }

  lemma {:induction false} FilterIsSubsequence<T>(s: seq<T>, f: T -> bool)
    ensures IsSubsequence(Filter(s, f), s)
  {
    if s != [] {
      FilterIsSubsequence(s[1..], f);
      if f(s[0]) {
        assert Filter(s, f) == [s[0]] + Filter(s[1..], f);
        assert Filter(s, f)[1..] == Filter(s[1..], f);
      } else {
        assert Filter(s, f) == Filter(s[1..], f);
      }
    }
  }

  /** Filtering a list whose every element passes changes nothing. */
  lemma {:induction false} FilterKeepsAll<T>(s: seq<T>, f: T -> bool)
    requires forall i :: 0 <= i < |s| ==> f(s[i])
    ensures Filter(s, f) == s
  {
    if s != [] {
      FilterKeepsAll(s[1..], f);
    }
  }

  lemma {:induction false} FilterConcat<T>(a: seq<T>, b: seq<T>, f: T -> bool)
    ensures Filter(a + b, f) == Filter(a, f) + Filter(b, f)
  {
    if a == [] {
      assert a + b == b;
    } else {
      assert (a + b)[0] == a[0];
      assert (a + b)[1..] == a[1..] + b;
      FilterConcat(a[1..], b, f);
    }
  }

  /** Two tests that agree everywhere select the same list. */
  lemma {:induction false} FilterExtensional<T>(s: seq<T>, f: T -> bool, g: T -> bool)
    requires forall x :: f(x) == g(x)
    ensures Filter(s, f) == Filter(s, g)
  {
    if s != [] {
      FilterExtensional(s[1..], f, g);
    }
  }

  /** A weaker test keeps at least the copies a stronger one keeps. */
  lemma FilterWeakerKeepsMore<T>(s: seq<T>, f: T -> bool, g: T -> bool)
    requires forall x :: f(x) ==> g(x)
    ensures multiset(Filter(s, f)) <= multiset(Filter(s, g))
  {
    FilterCount(s, f);
    FilterCount(s, g);
  }

  /** Two tests that never agree split a list into two parts that together are the list. */
  lemma {:induction false} FilterSplit<T>(s: seq<T>, f: T -> bool, g: T -> bool)
    requires forall x :: f(x) != g(x)
    ensures multiset(Filter(s, f)) + multiset(Filter(s, g)) == multiset(s)
    ensures |Filter(s, f)| + |Filter(s, g)| == |s|
  {
    if s != [] {
      FilterSplit(s[1..], f, g);
      assert s == [s[0]] + s[1..];
      assert f(s[0]) != g(s[0]);
    }
  }

  /** The list without any copy of `x` (`s.filter(y => y !== x)`). */
  function RemoveAll<T(==,!new)>(s: seq<T>, x: T): (r: seq<T>)
    ensures x !in r
    ensures forall y :: y != x ==> multiset(r)[y] == multiset(s)[y]
    ensures IsSubsequence(r, s)
  {
    var keep := (y: T) => y != x;
    FilterCount(s, keep);
    FilterMembership(s, keep);
    FilterIsSubsequence(s, keep);
    Filter(s, keep)
  }

  /** Removing every copy of the value appended last undoes the append. */
  lemma RemoveAllAppended<T(!new)>(s: seq<T>, x: T)
    requires x !in s
    ensures RemoveAll(s + [x], x) == s
  {
    var keep := (y: T) => y != x;
    FilterConcat(s, [x], keep);
    FilterKeepsAll(s, keep);
    assert Filter([x], keep) == [];
  }

  /** Removing every copy of the value put in front undoes putting it there. */
  lemma RemoveAllPrepended<T(!new)>(x: T, s: seq<T>)
    requires x !in s
    ensures RemoveAll([x] + s, x) == s
  {
    var keep := (y: T) => y != x;
    FilterConcat([x], s, keep);
    FilterKeepsAll(s, keep);
    assert Filter([x], keep) == [];
  }

  /** `s.filter((_, i) => i !== idx)`: the list without position `idx`. */
  function RemoveAt<T>(s: seq<T>, idx: nat): (r: seq<T>)
    requires idx < |s|
    ensures |r| == |s| - 1
    ensures forall i :: 0 <= i < idx ==> r[i] == s[i]
    ensures forall i :: idx <= i < |r| ==> r[i] == s[i + 1]
  {
    s[..idx] + s[idx + 1..]
  }

  lemma RemoveAtMultiset<T>(s: seq<T>, idx: nat)
    requires idx < |s|
    ensures multiset(RemoveAt(s, idx)) + multiset{s[idx]} == multiset(s)
  {
    assert s == s[..idx] + [s[idx]] + s[idx + 1..];
  }

  /** `s.splice(idx, 0, x)` for a position inside or at the end of `s`. */
  function InsertAt<T>(s: seq<T>, idx: nat, x: T): (r: seq<T>)
    requires idx <= |s|
    ensures |r| == |s| + 1
    ensures r[idx] == x
    ensures forall i :: 0 <= i < idx ==> r[i] == s[i]
    ensures forall i :: idx < i < |r| ==> r[i] == s[i - 1]
  {
    s[..idx] + [x] + s[idx..]
  }

  lemma InsertAtMultiset<T>(s: seq<T>, idx: nat, x: T)
    requires idx <= |s|
    ensures multiset(InsertAt(s, idx, x)) == multiset(s) + multiset{x}
  {
    assert s == s[..idx] + s[idx..];
  }

  /** Inserting the element just removed from the same position restores the list. */
  lemma RemoveAtInsertAt<T>(s: seq<T>, idx: nat)
    requires idx < |s|
    ensures InsertAt(RemoveAt(s, idx), idx, s[idx]) == s
  {
  }

  /** Removing the element just inserted restores the list. */
  lemma InsertAtRemoveAt<T>(s: seq<T>, idx: nat, x: T)
    requires idx <= |s|
    ensures RemoveAt(InsertAt(s, idx, x), idx) == s
  {
  }
}
