/** The order of the children in a scanned catalog, in terms of kinds, titles and code points. */
module Listing {
  import opened Prelude
  import opened Utf8
  import opened Entries
  import opened Ordering
  import opened CatalogSpec

  /** Titles ascend by code point; equal titles by identifier. */
  predicate Ascends(a: Entry, b: Entry) {
    CodePointsBefore(a.title, b.title) || (a.title == b.title && CodePointsBefore(a.id, b.id))
  }

  lemma TitledIsAscending(a: Entry, b: Entry)
    ensures TitledBefore(a, b) <==> Ascends(a, b)
  {
    OrderedByCodePoints(a.title, b.title);
    OrderedByCodePoints(a.id, b.id);
    hide StringLess, CodePointsBefore;
  }

  /** In a scanned catalog containers come before media, and in each group titles ascend. */
  lemma ChildrenInOrder(c: Snapshot, m: multiset<Entry>, k: string, i: nat, j: nat)
    requires IsCatalogOf(c, m) && k in c.children && i < j < |c.children[k]|
    ensures c.children[k][i] in c.entries && c.children[k][j] in c.entries
    ensures var a, b := c.entries[c.children[k][i]], c.entries[c.children[k][j]];
            || (a.kind.Container? && b.kind.Media?)
            || (a.kind.Container? == b.kind.Container? && Ascends(a, b))
  {
    hide Rooted, Fingerprint, Total, Ascends, TitledBefore;
    var ids := c.children[k];
    assert ids[i] in ids && ids[j] in ids;
    var a, b := c.entries[ids[i]], c.entries[ids[j]];
    assert Resolve(c.entries, ids)[i] == a && Resolve(c.entries, ids)[j] == b;
    assert !ListedBefore(b, a);
    TitledBeforeTotal(a, b);
    TitledIsAscending(a, b);
  }

  function CountMedia(s: seq<Entry>): nat {
    if s == [] then 0 else (if s[0].kind.Media? then 1 else 0) + CountMedia(s[1..])
  }

  function SumSizes(s: seq<Entry>): nat {
    if s == [] then 0 else s[0].size + SumSizes(s[1..])
  }

  lemma {:induction false} TotalsOf(s: seq<Entry>)
    ensures Total(multiset(s), MediaWeight) == CountMedia(s)
    ensures Total(multiset(s), SizeOf) == SumSizes(s)
  {
    if s != [] {
      TotalsOf(s[1..]);
      assert s == [s[0]] + s[1..];
      assert multiset(s) == multiset(s[1..]) + multiset{s[0]};
      TotalInsert(multiset(s[1..]), s[0], MediaWeight);
      TotalInsert(multiset(s[1..]), s[0], SizeOf);
    }
  }

  /** The counters of a scanned catalog, whatever the order in which its entries are listed. */
  lemma CountersMean(c: Snapshot, m: multiset<Entry>, s: seq<Entry>)
    requires IsCatalogOf(c, m) && Enumerates(s, c.entries)
    ensures c.fileCount == CountMedia(s) && c.totalBytes == Min(SumSizes(s), U64_MAX)
  {
    hide Rooted, Fingerprint, Total, Linked, ListsSorted, CountMedia, SumSizes;
    forall e
      ensures multiset(s)[e] == m[e]
    {
      if e in s {
        NoDuplicatesCounts(s);
        assert m[e] >= 1;
      } else {
        assert e !in m;
      }
    }
    assert multiset(s) == m;
    TotalsOf(s);
  }
}
