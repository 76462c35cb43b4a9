/** Paging and sorting of Browse answers over scanned catalogs. */
module BrowsePages {
  import opened Prelude
  import opened Numbers
  import opened Identity
  import opened Entries
  import opened Ordering
  import opened CatalogSpec
  import opened Didl
  import opened Browse

  // --- The children of a scanned catalog -----------------------------------------------------

  lemma {:induction false} EveryLookupSucceeds(entries: map<string, Entry>, ids: seq<string>)
    requires forall id :: id in ids ==> id in entries
    ensures ChildEntries(entries, ids) == Resolve(entries, ids)
  {
    if ids != [] {
      assert forall id :: id in ids[1..] ==> id in ids;
      EveryLookupSucceeds(entries, ids[1..]);
      assert ids[0] in ids;
    }
  }

  /**
   * In a scanned catalog the root and the containers, and nothing else, can be browsed; their
   * children are exactly the entries naming them as parent, each once, as many as `childCount` says.
   */
  lemma ChildrenOfScanned(c: Snapshot, m: multiset<Entry>, id: string)
    requires IsCatalogOf(c, m)
    ensures HasChildren(c, id) <==> id == ROOT_ID || IsContainer(c.entries, id)
    ensures HasChildren(c, id) ==>
      && NoDuplicates(ChildrenOf(c, id)) && IdsDistinguish(ChildrenOf(c, id))
      && (forall e :: e in ChildrenOf(c, id) <==> e in m && e.parentId == id)
      && |ChildrenOf(c, id)| == ChildCount(c, id)
  {
    hide Rooted, ListsSorted, Fingerprint, Total;
    if HasChildren(c, id) {
      var ids := c.children[id];
      assert forall i :: i in ids ==> i in c.entries;
      EveryLookupSucceeds(c.entries, ids);
      ResolveFaithful(c.entries, ids);
      forall e
        ensures e in ChildrenOf(c, id) <==> e in m && e.parentId == id
      {
        assert e.id in ids <==> e.id in c.entries && c.entries[e.id].parentId == id;
      }
    }
  }

  // --- One answer ----------------------------------------------------------------------------

  function PageArguments(id: string, criteria: string, filter: string, start: nat, count: nat): Arguments {
    map["ObjectID" := id, "BrowseFlag" := "BrowseDirectChildren", "StartingIndex" := Decimal(start),
        "RequestedCount" := Decimal(count), "SortCriteria" := criteria, "Filter" := filter]
  }

  /** Browsing the children of a container answers with the requested slice of the arranged children. */
  lemma OnePage(c: Snapshot, bookmarks: Bookmarks, baseUrl: string, id: string, criteria: string, filter: string,
                start: nat, count: nat)
    requires HasChildren(c, id) && TitleSort(criteria).Some?
    requires start <= U32_MAX && count <= U32_MAX
    ensures var r := BrowseAnswer(PageArguments(id, criteria, filter, start, count), c, bookmarks, baseUrl);
            var children := ChildrenOf(c, id);
            && r.Ok?
            && r.value.objects
                 == DescribeAll(Page(Arranged(children, TitleSort(criteria).value), start, count), c, bookmarks,
                                baseUrl, filter)
            && r.value.numberReturned
                 == (if count == 0 then Max(0, |children| - start) else Min(count, Max(0, |children| - start)))
            && r.value.totalMatches == |children|
            && r.value.updateId == ObjectUpdateId(c, id)
  {
    hide ParseUnsigned, Decimal, ObjectUpdateId, Sort, DescribeAll, Describe, HasChildren, ChildrenOf, TitleSort;
    ParseDecimal(start, U32_MAX);
    ParseDecimal(count, U32_MAX);
    var children, order := ChildrenOf(c, id), TitleSort(criteria).value;
    ArrangedLength(children, order);
    PageLength(Arranged(children, order), start, count);
  }

  lemma ArrangedLength(children: seq<Entry>, order: Option<bool>)
    ensures |Arranged(children, order)| == |children|
    ensures multiset(Arranged(children, order)) == multiset(children)
  {
    SameMembers(Arranged(children, order), children);
  }

  // --- All pages -----------------------------------------------------------------------------

  /** The objects of the first `n` pages of `size` objects, as a client collects them. */
  function Collected(c: Snapshot, bookmarks: Bookmarks, baseUrl: string, id: string, criteria: string, filter: string,
                     size: nat, n: nat): seq<Object>
  {
    hide BrowseAnswer, PageArguments;
    if n == 0 then []
    else
      var r := BrowseAnswer(PageArguments(id, criteria, filter, (n - 1) * size, size), c, bookmarks, baseUrl);
      Collected(c, bookmarks, baseUrl, id, criteria, filter, size, n - 1) + (if r.Ok? then r.value.objects else [])
  }

  lemma {:induction false} CollectedPages(c: Snapshot, bookmarks: Bookmarks, baseUrl: string, id: string,
                                          criteria: string,
                                          filter: string, size: nat, n: nat)
    requires HasChildren(c, id) && TitleSort(criteria).Some?
    requires 1 <= size <= U32_MAX && n * size <= U32_MAX + size
    ensures Collected(c, bookmarks, baseUrl, id, criteria, filter, size, n)
         == DescribeAll(Pages(Arranged(ChildrenOf(c, id), TitleSort(criteria).value), size, n), c, bookmarks, baseUrl,
                        filter)
    decreases n
  {
    hide BrowseAnswer, Describe, Page, Arranged, ChildrenOf, HasChildren, TitleSort, PageArguments;
    if n > 0 {
      assert (n - 1) * size == n * size - size;
      CollectedPages(c, bookmarks, baseUrl, id, criteria, filter, size, n - 1);
      OnePage(c, bookmarks, baseUrl, id, criteria, filter, (n - 1) * size, size);
    }
  }

  /**
   * Paging is exact: for every container, order and page size, the pages at 0, k, 2k, ... put
   * together list every child exactly once, in the requested order.
   */
  lemma PagesListEveryChildOnce(c: Snapshot, m: multiset<Entry>, bookmarks: Bookmarks, baseUrl: string, id: string,
                                criteria: string, filter: string, size: nat, n: nat)
    requires IsCatalogOf(c, m) && HasChildren(c, id) && TitleSort(criteria).Some?
    requires 1 <= size <= U32_MAX && |ChildrenOf(c, id)| <= n * size <= U32_MAX + size
    ensures var all := Arranged(ChildrenOf(c, id), TitleSort(criteria).value);
            && Collected(c, bookmarks, baseUrl, id, criteria, filter, size, n)
                 == DescribeAll(all, c, bookmarks, baseUrl, filter)
            && NoDuplicates(all) && (forall e :: e in all <==> e in m && e.parentId == id)
  {
    var children, order := ChildrenOf(c, id), TitleSort(criteria).value;
    ChildrenOfScanned(c, m, id);
    hide IsCatalogOf, HasChildren, TitleSort, DescribeAll, ChildrenOf, Arranged, Pages;
    CollectedPages(c, bookmarks, baseUrl, id, criteria, filter, size, n);
    var all := Arranged(children, order);
    ArrangedLength(children, order);
    PagesCover(all, size, n);
    assert all[..|all|] == all;
    SameMembers(children, all);
    SameMembers(all, children);
  }

  /** What a client is told in total is what the container's `childCount` says. */
  lemma TotalMatchesIsChildCount(c: Snapshot, m: multiset<Entry>, bookmarks: Bookmarks, baseUrl: string, id: string,
                                 criteria: string, filter: string, start: nat, count: nat)
    requires IsCatalogOf(c, m) && HasChildren(c, id) && TitleSort(criteria).Some?
    requires start <= U32_MAX && count <= U32_MAX && FilterHas(filter, "@childCount")
    ensures var r := BrowseAnswer(PageArguments(id, criteria, filter, start, count), c, bookmarks, baseUrl);
            var o := if id == ROOT_ID then DescribeRoot(c, filter)
              else Describe(c.entries[id], c, bookmarks, baseUrl, filter);
            r.Ok? && o.ContainerObject? && o.childCount == Some(r.value.totalMatches)
  {
    ChildrenOfScanned(c, m, id);
    OnePage(c, bookmarks, baseUrl, id, criteria, filter, start, count);
    hide BrowseAnswer, PageArguments, FilterHas, ChildrenOf, TitleSort, Fingerprint, Linked, Rooted, ListsSorted, Total;
  }

  // --- Orders --------------------------------------------------------------------------------

  predicate TitledAfter(a: Entry, b: Entry) {
    TitledBefore(b, a)
  }

  /**
   * Titles with identifiers breaking ties leave one ascending and one descending order, each the
   * exact reverse of the other.
   */
  lemma SortedOrdersAreUnique(children: seq<Entry>, s: seq<Entry>)
    requires IdsDistinguish(children) && multiset(s) == multiset(children)
    ensures Ordered(s, TitledBefore) <==> s == Arranged(children, Some(false))
    ensures Ordered(s, TitledAfter) <==> s == Arranged(children, Some(true))
    ensures Arranged(children, Some(true)) == Reverse(Arranged(children, Some(false)))
  {
    hide TitledBefore, TitledAfter, Sort, Ordered, Reverse, IdsDistinguish;
    AscendingIsUnique(children, s);
    DescendingIsUnique(children, s);
  }

  lemma DescendingIsUnique(children: seq<Entry>, s: seq<Entry>)
    requires IdsDistinguish(children) && multiset(s) == multiset(children)
    ensures Ordered(s, TitledAfter) <==> s == Reverse(Sort(children, TitledBefore))
  {
    hide TitledBefore, TitledAfter, Sort, Ordered, Reverse, IdsDistinguish;
    ReverseTwice(s);
    ReverseOrdered(s);
    AscendingIsUnique(children, Reverse(s));
    ReverseTwice(Sort(children, TitledBefore));
  }

  lemma AscendingIsUnique(children: seq<Entry>, s: seq<Entry>)
    requires IdsDistinguish(children) && multiset(s) == multiset(children)
    ensures Ordered(s, TitledBefore) <==> s == Sort(children, TitledBefore)
  {
    TitleOrderTotal(children);
    SortOrdered(children, TitledBefore);
    SameMembers(s, children);
    assert forall x :: x in s ==> x in children;
    hide TitledBefore, Sort, Ordered, IdsDistinguish;
    assert StrictTotalOn(TitledBefore, s);
    if Ordered(s, TitledBefore) {
      SortDetermined(s, Sort(children, TitledBefore), TitledBefore);
    }
  }

  lemma ReverseOrdered(s: seq<Entry>)
    ensures Ordered(s, TitledAfter) <==> Ordered(Reverse(s), TitledBefore)
  {
    hide TitledBefore;
    var r := Reverse(s);
    if Ordered(s, TitledAfter) {
      forall i, j | 0 <= i < j < |r|
        ensures !TitledBefore(r[j], r[i])
      {
        assert !TitledAfter(s[|s| - 1 - i], s[|s| - 1 - j]);
      }
    }
    if Ordered(r, TitledBefore) {
      forall i, j | 0 <= i < j < |s|
        ensures !TitledAfter(s[j], s[i])
      {
        assert r[|s| - 1 - j] == s[j] && r[|s| - 1 - i] == s[i];
        assert !TitledBefore(r[|s| - 1 - i], r[|s| - 1 - j]);
      }
    }
  }

  lemma ReverseTwice(s: seq<Entry>)
    ensures Reverse(Reverse(s)) == s
    ensures multiset(Reverse(s)) == multiset(s)
    ensures forall e :: e in Reverse(s) <==> e in s
  {
    SameMembers(Reverse(s), s);
  }
}
