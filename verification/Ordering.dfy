/** Sorting by a strict total order, and why every correct sort agrees. */
module Ordering {
  import opened Prelude

  /** `less` is a strict total order on the elements of `s`. */
  ghost predicate StrictTotalOn<T(!new)>(less: (T, T) -> bool, s: seq<T>) {
    && (forall x :: x in s ==> !less(x, x))
    && (forall x, y :: x in s && y in s ==> x == y || less(x, y) || less(y, x))
    && (forall x, y, z :: x in s && y in s && z in s && less(x, y) && less(y, z) ==> less(x, z))
  }

  /** No element stands after one it should precede. */
  ghost predicate Ordered<T>(s: seq<T>, less: (T, T) -> bool) {
    forall i, j :: 0 <= i < j < |s| ==> !less(s[j], s[i])
  }

  function Insert<T>(x: T, s: seq<T>, less: (T, T) -> bool): (r: seq<T>)
    ensures multiset(r) == multiset(s) + multiset{x}
  {
    if s == [] then [x]
    else if less(s[0], x) then
      assert s == [s[0]] + s[1..];
      [s[0]] + Insert(x, s[1..], less)
    else [x] + s
  }

  /** The effect of `sort_unstable_by`: see `SortDetermined` for why stability is irrelevant. */
  function Sort<T>(s: seq<T>, less: (T, T) -> bool): (r: seq<T>)
    ensures multiset(r) == multiset(s)
  {
    if s == [] then []
    else
      assert s == [s[0]] + s[1..];
      Insert(s[0], Sort(s[1..], less), less)
  }

  lemma SameMembers<T>(a: seq<T>, b: seq<T>)
    requires multiset(a) == multiset(b)
    ensures |a| == |b|
    ensures forall x :: x in a <==> x in b
    ensures NoDuplicates(a) ==> NoDuplicates(b)
  {
    assert |a| == |multiset(a)| == |multiset(b)| == |b|;
    forall x
      ensures x in a <==> x in b
    {
      assert x in a <==> x in multiset(a);
      assert x in b <==> x in multiset(b);
    }
    if NoDuplicates(a) {
      NoDuplicatesCounts(a);
      forall i, j | 0 <= i < j < |b|
        ensures b[i] != b[j]
      {
        CountTwice(b, i, j);
        assert b[i] in a;
      }
    }
  }

  lemma {:induction false} NoDuplicatesCounts<T>(s: seq<T>)
    requires NoDuplicates(s)
    ensures forall x :: x in s ==> multiset(s)[x] == 1
  {
    if s != [] {
      assert s == [s[0]] + s[1..];
      NoDuplicatesCounts(s[1..]);
      assert s[0] !in s[1..];
    }
  }

  lemma CountTwice<T>(s: seq<T>, i: nat, j: nat)
    requires i < j < |s|
    ensures s[i] == s[j] ==> multiset(s)[s[i]] >= 2
  {
    assert s == s[..i] + [s[i]] + s[i + 1..j] + [s[j]] + s[j + 1..];
  }

  lemma TotalOnFewer<T(!new)>(s: seq<T>, t: seq<T>, less: (T, T) -> bool)
    requires StrictTotalOn(less, s) && forall x :: x in t ==> x in s
    ensures StrictTotalOn(less, t)
  {
  }

  /** Something no later than all of an ordered sequence may be put in front of it. */
  lemma FirstInOrder<T(!new)>(x: T, s: seq<T>, less: (T, T) -> bool)
    requires Ordered(s, less) && forall y :: y in s ==> !less(y, x)
    ensures Ordered([x] + s, less)
  {
    var r := [x] + s;
    forall i, j | 0 <= i < j < |r|
      ensures !less(r[j], r[i])
    {
      assert r[j] == s[j - 1] && s[j - 1] in s;
      if i > 0 {
        assert r[i] == s[i - 1];
      }
    }
  }

  lemma TailInOrder<T(!new)>(s: seq<T>, less: (T, T) -> bool)
    requires s != [] && Ordered(s, less)
    ensures Ordered(s[1..], less) && forall y :: y in s[1..] ==> !less(y, s[0])
  {
    var t := s[1..];
    assert forall i :: 0 <= i < |t| ==> t[i] == s[i + 1];
  }

  /** What is not before the first is not before anything that the first is not before. */
  lemma NotBefore<T(!new)>(x: T, first: T, y: T, s: seq<T>, less: (T, T) -> bool)
    requires StrictTotalOn(less, s) && x in s && first in s && y in s
    requires !less(first, x) && !less(y, first)
    ensures !less(y, x)
  {
  }

  lemma NotBoth<T(!new)>(x: T, y: T, s: seq<T>, less: (T, T) -> bool)
    requires StrictTotalOn(less, s) && x in s && y in s && less(x, y)
    ensures !less(y, x)
  {
  }

  lemma InsertMembers<T(!new)>(x: T, s: seq<T>, less: (T, T) -> bool)
    ensures forall y :: y in Insert(x, s, less) ==> y == x || y in s
  {
    SameMembers(Insert(x, s, less), s + [x]);
  }

  lemma {:induction false} InsertOrdered<T(!new)>(x: T, s: seq<T>, less: (T, T) -> bool)
    requires StrictTotalOn(less, [x] + s) && Ordered(s, less)
    ensures Ordered(Insert(x, s, less), less)
  {
    hide StrictTotalOn;
    if s == [] {
      assert Insert(x, s, less) == [x];
    } else {
      var all, t := [x] + s, s[1..];
      assert x in all && s[0] in all && forall y :: y in s ==> y in all;
      assert forall y :: y in t ==> y in s;
      TailInOrder(s, less);
      hide Ordered;
      if less(s[0], x) {
        TotalOnFewer(all, [x] + t, less);
        InsertOrdered(x, t, less);
        InsertMembers(x, t, less);
        NotBoth(s[0], x, all, less);
        FirstInOrder(s[0], Insert(x, t, less), less);
      } else {
        forall y | y in s
          ensures !less(y, x)
        {
          if y != s[0] {
            assert y in t;
            NotBefore(x, s[0], y, all, less);
          }
        }
        FirstInOrder(x, s, less);
      }
    }
  }

  lemma {:induction false} SortOrdered<T(!new)>(s: seq<T>, less: (T, T) -> bool)
    requires StrictTotalOn(less, s)
    ensures Ordered(Sort(s, less), less)
  {
    if s != [] {
      var rest := Sort(s[1..], less);
      SameMembers(rest, s[1..]);
      assert (forall y :: y in s[1..] ==> y in s) && s[0] in s;
      hide Ordered, StrictTotalOn, Insert;
      TotalOnFewer(s, s[1..], less);
      TotalOnFewer(s, [s[0]] + rest, less);
      SortOrdered(s[1..], less);
      InsertOrdered(s[0], rest, less);
    }
  }

  /** A strict total order leaves only one ordered arrangement of the same elements. */
  lemma {:induction false} SortDetermined<T(!new)>(a: seq<T>, b: seq<T>, less: (T, T) -> bool)
    requires multiset(a) == multiset(b)
    requires StrictTotalOn(less, a)
    requires Ordered(a, less) && Ordered(b, less)
    ensures a == b
  {
    hide Ordered, StrictTotalOn, NoDuplicates;
    SameMembers(a, b);
    if a != [] {
      HeadsAgree(a, b, less);
      TailMembers(a, b);
      TailInOrder(a, less);
      TailInOrder(b, less);
      TotalOnTail(a, less);
      SortDetermined(a[1..], b[1..], less);
      SameHeadAndTail(a, b);
    }
  }

  lemma TotalOnTail<T(!new)>(s: seq<T>, less: (T, T) -> bool)
    requires s != [] && StrictTotalOn(less, s)
    ensures StrictTotalOn(less, s[1..])
  {
    hide StrictTotalOn;
    assert forall x :: x in s[1..] ==> x in s;
    TotalOnFewer(s, s[1..], less);
  }

  lemma SameHeadAndTail<T>(a: seq<T>, b: seq<T>)
    requires a != [] && b != [] && a[0] == b[0] && a[1..] == b[1..]
    ensures a == b
  {
    assert a == [a[0]] + a[1..] && b == [b[0]] + b[1..];
  }

  lemma HeadsAgree<T(!new)>(a: seq<T>, b: seq<T>, less: (T, T) -> bool)
    requires a != [] && b != []
    requires forall x :: x in a <==> x in b
    requires StrictTotalOn(less, a)
    requires Ordered(a, less) && Ordered(b, less)
    ensures a[0] == b[0]
  {
    assert a[0] in b && b[0] in a;
    var i :| 0 <= i < |b| && b[i] == a[0];
    var j :| 0 <= j < |a| && a[j] == b[0];
  }

  lemma TailMembers<T>(a: seq<T>, b: seq<T>)
    requires a != [] && b != [] && a[0] == b[0]
    requires multiset(a) == multiset(b)
    ensures multiset(a[1..]) == multiset(b[1..])
  {
    assert a == [a[0]] + a[1..] && b == [b[0]] + b[1..];
    assert multiset(a[1..]) == multiset(a) - multiset{a[0]};
    assert multiset(b[1..]) == multiset(b) - multiset{b[0]};
  }

  /** Sorting forgets the arrangement it started from. */
  lemma SortOfPermutation<T(!new)>(a: seq<T>, b: seq<T>, less: (T, T) -> bool)
    requires multiset(a) == multiset(b)
    requires StrictTotalOn(less, a)
    ensures Sort(a, less) == Sort(b, less)
  {
    SameMembers(a, b);
    SameMembers(a, Sort(a, less));
    hide Ordered, StrictTotalOn, Sort;
    TotalOnFewer(a, b, less);
    TotalOnFewer(a, Sort(a, less), less);
    SortOrdered(a, less);
    SortOrdered(b, less);
    SortDetermined(Sort(a, less), Sort(b, less), less);
  }

  function Reverse<T>(s: seq<T>): (r: seq<T>)
    ensures |r| == |s|
    ensures forall i :: 0 <= i < |s| ==> r[i] == s[|s| - 1 - i]
    ensures multiset(r) == multiset(s)
  {
    if s == [] then []
    else
      assert s == [s[0]] + s[1..];
      Reverse(s[1..]) + [s[0]]
  }
}
