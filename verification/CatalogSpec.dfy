/** The immutable catalog snapshot and what it means for one to describe a multiset of entries. */
module CatalogSpec {
  import opened Prelude
  import opened Utf8
  import opened Fnv
  import opened Identity
  import opened Entries
  import opened Ordering

  datatype Snapshot = Snapshot(
    entries: map<string, Entry>, children: map<string, seq<string>>,
    updateId: u32, fileCount: nat, totalBytes: u64)

  function SizeOf(e: Entry): nat {
    e.size
  }

  function MediaWeight(e: Entry): nat {
    if e.kind.Media? then 1 else 0
  }

  /** No identifier occurs twice, not even for equal entries. */
  ghost predicate DistinctIds(m: multiset<Entry>) {
    && (forall e :: m[e] <= 1)
    && (forall e, f :: e in m && f in m && e.id == f.id ==> e == f)
  }

  /** Two of the entries, at these paths, have the same identifier. */
  ghost predicate Collides(m: multiset<Entry>, first: Path, second: Path) {
    exists e, f :: CollidingPair(m, e, f) && e.path == first && f.path == second
  }

  ghost predicate CollidingPair(m: multiset<Entry>, e: Entry, f: Entry) {
    e in m && f in m && e.id == f.id && (e == f ==> m[e] > 1)
  }

  lemma CollidesIsCollision(m: multiset<Entry>, first: Path, second: Path)
    requires Collides(m, first, second)
    ensures !DistinctIds(m)
  {
  }

  lemma MoreEntriesStillCollide(a: multiset<Entry>, b: multiset<Entry>, first: Path, second: Path)
    requires a <= b && Collides(a, first, second)
    ensures Collides(b, first, second)
  {
    var e, f :| CollidingPair(a, e, f) && e.path == first && f.path == second;
    assert CollidingPair(b, e, f);
  }

  /** `entries` is the index by identifier of `m`. */
  ghost predicate Indexes(entries: map<string, Entry>, m: multiset<Entry>) {
    && (forall e :: m[e] <= 1)
    && (forall e :: e in m ==> e.id in entries && entries[e.id] == e)
    && (forall id :: id in entries ==> entries[id] in m && entries[id].id == id)
  }

  predicate IsContainer(entries: map<string, Entry>, id: string) {
    id in entries && entries[id].kind.Container?
  }

  /** The child lists have exactly the root and the containers as keys and mirror the parent links. */
  ghost predicate Linked(entries: map<string, Entry>, children: map<string, seq<string>>) {
    && (forall k :: k in children <==> k == ROOT_ID || IsContainer(entries, k))
    && (forall k :: k in children ==> NoDuplicates(children[k]))
    && (forall k, id :: k in children ==> (id in children[k] <==> id in entries && entries[id].parentId == k))
  }

  /** The object reached from `id` by at most `steps` parent links. */
  ghost function Climb(entries: map<string, Entry>, id: string, steps: nat): string
    decreases steps
  {
    if steps == 0 || id !in entries then id else Climb(entries, entries[id].parentId, steps - 1)
  }

  ghost predicate ReachesRoot(entries: map<string, Entry>, id: string) {
    exists steps: nat :: Climb(entries, id, steps) == ROOT_ID
  }

  /** The parent links form a tree below the root, which is itself no entry. */
  ghost predicate Rooted(entries: map<string, Entry>) {
    && ROOT_ID !in entries
    && (forall id :: id in entries ==> ReachesRoot(entries, id))
    && (forall id :: id in entries ==>
          entries[id].parentId == ROOT_ID || IsContainer(entries, entries[id].parentId))
  }

  /** The entries behind a list of identifiers; every lookup succeeds. */
  function Resolve(entries: map<string, Entry>, ids: seq<string>): (r: seq<Entry>)
    requires forall id :: id in ids ==> id in entries
    ensures |r| == |ids|
    ensures forall i :: 0 <= i < |ids| ==> r[i] == entries[ids[i]]
  {
    seq(|ids|, i requires 0 <= i < |ids| => entries[ids[i]])
  }

  ghost predicate ListsSorted(entries: map<string, Entry>, children: map<string, seq<string>>)
    requires Linked(entries, children)
  {
    forall k :: k in children ==> Ordered(Resolve(entries, children[k]), ListedBefore)
  }

  // --- Fingerprints --------------------------------------------------------------------------

  /** The bytes hashed for one entry, each field closed by 0xff. */
  function EntryBytes(e: Entry): seq<byte> {
    Encode(e.id) + [0xff] + (Encode(e.parentId) + [0xff] + (Encode(e.title) + [0xff]
      + (LittleEndian(e.modifiedSeconds) + [0xff] + (LittleEndian(e.size) + [0xff]))))
  }

  function Stream(s: seq<Entry>): seq<byte> {
    if s == [] then [] else EntryBytes(s[0]) + Stream(s[1..])
  }

  /** The entries of a catalog, in some order. */
  ghost function ValuesOf(entries: map<string, Entry>): seq<Entry>
    decreases |entries|
  {
    if entries == map[] then []
    else
      var id :| id in entries;
      [entries[id]] + ValuesOf(entries - {id})
  }

  /** `s` lists every entry exactly once. */
  ghost predicate Enumerates(s: seq<Entry>, entries: map<string, Entry>) {
    && NoDuplicates(s)
    && (forall e :: e in s ==> e.id in entries && entries[e.id] == e)
    && (forall id :: id in entries ==> entries[id] in s)
  }

  ghost predicate SelfIndexed(entries: map<string, Entry>) {
    forall id :: id in entries ==> entries[id].id == id
  }

  ghost function Fingerprint(entries: map<string, Entry>): u32 {
    FoldUpdateId(Extended(OFFSET_BASIS, Stream(Sort(ValuesOf(entries), IdBefore))))
  }

  /** What `object_update_id` hashes for the children of a container. */
  function ChildBytes(entries: map<string, Entry>, id: string): seq<byte> {
    Encode(id) + [0xff] +
      if id in entries then
        Encode(entries[id].title) + [0xff] + (LittleEndian(entries[id].modifiedSeconds) + [0xff]
          + (LittleEndian(entries[id].size) + [0xff]))
      else []
  }

  function ChildStream(entries: map<string, Entry>, ids: seq<string>): seq<byte> {
    if ids == [] then [] else ChildStream(entries, ids[..|ids| - 1]) + ChildBytes(entries, ids[|ids| - 1])
  }

  /** `Catalog::object_update_id`. */
  function ObjectUpdateId(c: Snapshot, id: string): u32 {
    if id !in c.children then c.updateId
    else FoldUpdateId(Extended(OFFSET_BASIS, Encode(id) + [0xff] + ChildStream(c.entries, c.children[id])))
  }

  /** Hashing concatenated fields one after the other. */
  lemma HashTwo(h: u64, a: seq<byte>, b: seq<byte>)
    ensures Extended(Extended(h, a + [0xff]), b) == Extended(h, a + [0xff] + b)
  {
    ExtendedConcat(h, a + [0xff], b);
  }

  lemma {:induction false} StreamAppend(s: seq<Entry>, e: Entry)
    ensures Stream(s + [e]) == Stream(s) + EntryBytes(e)
  {
    hide EntryBytes;
    if s == [] {
      assert (s + [e])[1..] == [];
    } else {
      StreamAppend(s[1..], e);
      assert (s + [e])[1..] == s[1..] + [e];
    }
  }

  // --- Sorted child lists --------------------------------------------------------------------

  function IdsOf(s: seq<Entry>): (r: seq<string>)
    ensures |r| == |s|
    ensures forall i :: 0 <= i < |s| ==> r[i] == s[i].id
  {
    seq(|s|, i requires 0 <= i < |s| => s[i].id)
  }

  function SortedIds(entries: map<string, Entry>, ids: seq<string>): seq<string>
    requires forall id :: id in ids ==> id in entries
  {
    IdsOf(Sort(Resolve(entries, ids), ListedBefore))
  }

  lemma SortedIdsCorrect(entries: map<string, Entry>, ids: seq<string>)
    requires SelfIndexed(entries) && NoDuplicates(ids)
    requires forall id :: id in ids ==> id in entries
    ensures var r := SortedIds(entries, ids);
            && NoDuplicates(r)
            && (forall id :: id in r <==> id in ids)
            && Ordered(Resolve(entries, r), ListedBefore)
  {
    var a := Resolve(entries, ids);
    var s := Sort(a, ListedBefore);
    ResolveFaithful(entries, ids);
    ListOrderTotal(a);
    SortOrdered(a, ListedBefore);
    SameMembers(a, s);
    hide ListedBefore, Sort, IdsDistinguish, StrictTotalOn, Ordered;
    var r := SortedIds(entries, ids);
    SameIds(entries, ids, a, s);
    assert Resolve(entries, r) == s;
  }

  /** The identifiers of a rearrangement of resolved entries are the same identifiers. */
  lemma SameIds(entries: map<string, Entry>, ids: seq<string>, a: seq<Entry>, s: seq<Entry>)
    requires forall e: Entry :: e in a <==> e.id in ids && e.id in entries && entries[e.id] == e
    requires SelfIndexed(entries) && forall id :: id in ids ==> id in entries
    requires NoDuplicates(s) && forall e :: e in s <==> e in a
    ensures NoDuplicates(IdsOf(s)) && forall id :: id in IdsOf(s) <==> id in ids
    ensures forall i :: 0 <= i < |s| ==> s[i].id in entries && entries[s[i].id] == s[i]
  {
    var r := IdsOf(s);
    forall i | 0 <= i < |s|
      ensures s[i].id in ids && entries[s[i].id] == s[i] && r[i] == s[i].id
    {
      assert s[i] in a;
    }
    forall id | id in ids
      ensures id in r
    {
      assert entries[id] in s;
      var i :| 0 <= i < |s| && s[i] == entries[id];
      assert r[i] == id;
    }
  }

  /** Every list outside `todo` is in listing order. */
  ghost predicate SortedOutside(entries: map<string, Entry>, children: map<string, seq<string>>, todo: set<string>)
    requires Linked(entries, children)
  {
    forall k :: k in children && k !in todo ==> Ordered(Resolve(entries, children[k]), ListedBefore)
  }

  /** Sorting one child list keeps the links and finishes that list. */
  lemma SortOneList(entries: map<string, Entry>, children: map<string, seq<string>>, k: string, todo: set<string>)
    requires SelfIndexed(entries) && Linked(entries, children) && k in children
    requires SortedOutside(entries, children, todo)
    ensures forall id :: id in children[k] ==> id in entries
    ensures var after := children[k := SortedIds(entries, children[k])];
            Linked(entries, after) && SortedOutside(entries, after, todo - {k})
  {
    var before, sorted := children[k], SortedIds(entries, children[k]);
    SortedIdsCorrect(entries, before);
    hide SortedIds, Ordered, ListedBefore, Resolve, IsContainer;
    var after := children[k := sorted];
    ReplaceList(entries, children, k, sorted);
    forall j | j in after && j !in todo - {k}
      ensures Ordered(Resolve(entries, after[j]), ListedBefore)
    {
      if j != k {
        assert after[j] == children[j];
      }
    }
  }

  lemma ReplaceList(entries: map<string, Entry>, children: map<string, seq<string>>, k: string, ids: seq<string>)
    requires Linked(entries, children) && k in children
    requires NoDuplicates(ids) && forall id :: id in ids <==> id in children[k]
    ensures Linked(entries, children[k := ids])
  {
    hide IsContainer;
    var after := children[k := ids];
    assert after.Keys == children.Keys;
    forall j, id | j in after
      ensures id in after[j] <==> id in entries && entries[id].parentId == j
    {
      assert id in children[j] <==> id in entries && entries[id].parentId == j;
    }
  }

  lemma ChildStreamAppend(entries: map<string, Entry>, ids: seq<string>, i: nat, front: seq<byte>)
    requires i < |ids|
    ensures Extended(OFFSET_BASIS, front + ChildStream(entries, ids[..i + 1]))
         == Extended(Extended(OFFSET_BASIS, front + ChildStream(entries, ids[..i])), ChildBytes(entries, ids[i]))
  {
    hide ChildBytes, Extended;
    var before, last := ChildStream(entries, ids[..i]), ChildBytes(entries, ids[i]);
    assert ids[..i + 1][..i] == ids[..i];
    assert front + (before + last) == front + before + last;
    ExtendedConcat(OFFSET_BASIS, front + before, last);
  }

  // --- Catalogs ------------------------------------------------------------------------------

  /** Everything a finished scan promises about the catalog of the entries `m`. */
  ghost predicate IsCatalogOf(c: Snapshot, m: multiset<Entry>) {
    && Indexes(c.entries, m)
    && Linked(c.entries, c.children)
    && Rooted(c.entries)
    && ListsSorted(c.entries, c.children)
    && c.updateId == Fingerprint(c.entries)
    && c.fileCount == Total(m, MediaWeight)
    && c.totalBytes == Min(Total(m, SizeOf), U64_MAX)
  }

  /** `Catalog::has_same_content`. */
  predicate HasSameContent(a: Snapshot, b: Snapshot) {
    a.entries == b.entries && a.children == b.children
  }

  // --- Inserting an entry --------------------------------------------------------------------

  /** The child lists after `insert_entry`. */
  function Attached(children: map<string, seq<string>>, e: Entry): map<string, seq<string>> {
    var siblings := if e.parentId in children then children[e.parentId] else [];
    var extended := children[e.parentId := siblings + [e.id]];
    if e.kind.Container? && e.id !in extended then extended[e.id := []] else extended
  }

  lemma {:induction false} ClimbStays(small: map<string, Entry>, large: map<string, Entry>, id: string, steps: nat)
    requires small.Keys <= large.Keys && forall k :: k in small ==> large[k] == small[k]
    requires ROOT_ID !in large
    requires Climb(small, id, steps) == ROOT_ID
    ensures Climb(large, id, steps) == ROOT_ID
    decreases steps
  {
    if steps > 0 && id in small {
      ClimbStays(small, large, small[id].parentId, steps - 1);
    }
  }

  ghost predicate MayInsert(entries: map<string, Entry>, e: Entry) {
    && e.id != ROOT_ID && e.id !in entries
    && (e.parentId == ROOT_ID || IsContainer(entries, e.parentId))
  }

  /** Adding a fresh entry below an existing container keeps the tree. */
  lemma InsertKeepsRooted(entries: map<string, Entry>, e: Entry)
    requires Rooted(entries) && MayInsert(entries, e)
    ensures Rooted(entries[e.id := e])
  {
    var after := entries[e.id := e];
    forall id | id in entries
      ensures ReachesRoot(after, id)
    {
      var steps: nat :| Climb(entries, id, steps) == ROOT_ID;
      ClimbStays(entries, after, id, steps);
    }
    if e.parentId == ROOT_ID {
      assert Climb(after, ROOT_ID, 0) == ROOT_ID;
      assert Climb(after, e.id, 1) == ROOT_ID;
    } else {
      var steps: nat :| Climb(after, e.parentId, steps) == ROOT_ID;
      assert Climb(after, e.id, steps + 1) == ROOT_ID;
    }
    assert ReachesRoot(after, e.id);
  }

  lemma AttachedLists(children: map<string, seq<string>>, e: Entry)
    requires e.parentId in children && e.id !in children && e.parentId != e.id
    ensures var lists := Attached(children, e);
            && (forall k :: k in lists <==> k in children || (k == e.id && e.kind.Container?))
            && (forall k :: k in lists && k != e.parentId && k != e.id ==> lists[k] == children[k])
            && lists[e.parentId] == children[e.parentId] + [e.id]
            && (e.kind.Container? ==> lists[e.id] == [])
  {
  }

  lemma FreshIsNoParent(entries: map<string, Entry>, e: Entry)
    requires Rooted(entries) && MayInsert(entries, e)
    ensures e.parentId != e.id && forall id :: id in entries ==> entries[id].parentId != e.id
  {
    hide ReachesRoot;
  }

  lemma FreshIsNoKey(entries: map<string, Entry>, children: map<string, seq<string>>, e: Entry)
    requires Linked(entries, children) && MayInsert(entries, e)
    ensures e.parentId in children && e.id !in children
  {
    hide NoDuplicates;
  }

  lemma ListMeans(entries: map<string, Entry>, children: map<string, seq<string>>, k: string, id: string)
    requires Linked(entries, children) && k in children
    ensures id in children[k] <==> id in entries && entries[id].parentId == k
  {
    hide NoDuplicates, IsContainer;
  }

  lemma FreshIsUnlisted(entries: map<string, Entry>, children: map<string, seq<string>>, e: Entry)
    requires Linked(entries, children) && e.id !in entries
    ensures forall k :: k in children ==> e.id !in children[k]
  {
    hide Linked;
    forall k | k in children
      ensures e.id !in children[k]
    {
      ListMeans(entries, children, k, e.id);
    }
  }

  /** An identifier not yet in use is no parent, has no child list and is in none. */
  lemma NobodysParent(entries: map<string, Entry>, children: map<string, seq<string>>, e: Entry)
    requires Linked(entries, children) && Rooted(entries) && MayInsert(entries, e)
    ensures e.parentId in children && e.id !in children && e.parentId != e.id
    ensures forall id :: id in entries ==> entries[id].parentId != e.id
    ensures forall k :: k in children ==> e.id !in children[k]
  {
    hide Linked, Rooted;
    FreshIsNoParent(entries, e);
    FreshIsNoKey(entries, children, e);
    FreshIsUnlisted(entries, children, e);
  }

  lemma InsertKeepsKeys(entries: map<string, Entry>, children: map<string, seq<string>>, e: Entry)
    requires Linked(entries, children) && Rooted(entries) && MayInsert(entries, e)
    ensures var after, lists := entries[e.id := e], Attached(children, e);
            forall k :: k in lists <==> k == ROOT_ID || IsContainer(after, k)
  {
    NobodysParent(entries, children, e);
    AttachedLists(children, e);
    hide Attached, Rooted, NoDuplicates;
    forall k
      ensures k in Attached(children, e) <==> k == ROOT_ID || IsContainer(entries[e.id := e], k)
    {
      assert k in children <==> k == ROOT_ID || IsContainer(entries, k);
    }
  }

  lemma InsertKeepsMembers(entries: map<string, Entry>, children: map<string, seq<string>>, e: Entry, k: string)
    requires Linked(entries, children) && Rooted(entries) && MayInsert(entries, e) && k in Attached(children, e)
    ensures var after, ids := entries[e.id := e], Attached(children, e)[k];
            NoDuplicates(ids) && forall id :: id in ids <==> id in after && after[id].parentId == k
  {
    NobodysParent(entries, children, e);
    AttachedLists(children, e);
    hide Attached, Rooted, IsContainer;
    if k != e.id {
      forall id
        ensures id in children[k] <==> id in entries && entries[id].parentId == k
      {
        ListMeans(entries, children, k, id);
      }
    }
  }

  /** Adding a fresh entry keeps the child lists in step with the parent links. */
  lemma InsertKeepsLinked(entries: map<string, Entry>, children: map<string, seq<string>>, e: Entry)
    requires Linked(entries, children) && Rooted(entries) && MayInsert(entries, e)
    ensures Linked(entries[e.id := e], Attached(children, e))
  {
    InsertKeepsKeys(entries, children, e);
    forall k | k in Attached(children, e)
      ensures NoDuplicates(Attached(children, e)[k])
      ensures forall id :: id in Attached(children, e)[k] <==>
                id in entries[e.id := e] && entries[e.id := e][id].parentId == k
    {
      InsertKeepsMembers(entries, children, e, k);
    }
    hide Attached, Rooted, NoDuplicates, IsContainer, MayInsert;
  }

  lemma InsertKeepsIndex(entries: map<string, Entry>, m: multiset<Entry>, e: Entry)
    requires Indexes(entries, m) && e.id !in entries
    ensures Indexes(entries[e.id := e], m + multiset{e})
  {
    assert e !in m;
  }

  // --- A multiset of entries has one catalog -------------------------------------------------

  lemma SameElements<T>(a: seq<T>, b: seq<T>)
    requires NoDuplicates(a) && NoDuplicates(b)
    requires forall x :: x in a <==> x in b
    ensures multiset(a) == multiset(b)
  {
    NoDuplicatesCounts(a);
    NoDuplicatesCounts(b);
    forall x
      ensures multiset(a)[x] == multiset(b)[x]
    {
      assert x in a <==> x in multiset(a);
      assert x in b <==> x in multiset(b);
    }
  }

  lemma {:induction false} ValuesEnumerate(entries: map<string, Entry>)
    requires SelfIndexed(entries)
    ensures Enumerates(ValuesOf(entries), entries)
    decreases |entries|
  {
    if entries != map[] {
      var id :| id in entries && ValuesOf(entries) == [entries[id]] + ValuesOf(entries - {id});
      ValuesEnumerate(entries - {id});
      hide ValuesOf;
      OneMoreValue(entries, id, ValuesOf(entries - {id}));
    }
  }

  lemma OneMoreValue(entries: map<string, Entry>, id: string, rest: seq<Entry>)
    requires SelfIndexed(entries) && id in entries && Enumerates(rest, entries - {id})
    ensures Enumerates([entries[id]] + rest, entries)
  {
    var all, fewer := [entries[id]] + rest, entries - {id};
    assert entries[id] !in rest;
    forall k | k in entries
      ensures entries[k] in all
    {
      if k != id {
        assert k in fewer && fewer[k] == entries[k];
      }
    }
    assert forall i :: 1 <= i < |all| ==> all[i] == rest[i - 1];
  }

  /** The fingerprint does not depend on the order in which the map yields its values. */
  lemma FingerprintOfAnyOrder(s: seq<Entry>, entries: map<string, Entry>)
    requires SelfIndexed(entries) && Enumerates(s, entries)
    ensures Sort(s, IdBefore) == Sort(ValuesOf(entries), IdBefore)
  {
    ValuesEnumerate(entries);
    var t := ValuesOf(entries);
    forall e
      ensures e in s <==> e in t
    {
    }
    SameElements(s, t);
    IdOrderTotal(s);
    SortOfPermutation(s, t, IdBefore);
  }

  lemma IndexDetermined(a: map<string, Entry>, b: map<string, Entry>, m: multiset<Entry>)
    requires Indexes(a, m) && Indexes(b, m)
    ensures a == b
  {
    forall id
      ensures id in a <==> id in b
      ensures id in a ==> a[id] == b[id]
    {
    }
  }

  lemma ContentsDetermined(entries: map<string, Entry>, m: multiset<Entry>, n: multiset<Entry>)
    requires Indexes(entries, m) && Indexes(entries, n)
    ensures m == n
  {
    forall e
      ensures m[e] == n[e]
    {
      if e in m {
        assert entries[e.id] == e;
      }
      if e in n {
        assert entries[e.id] == e;
      }
    }
  }

  lemma ListDetermined(entries: map<string, Entry>, xs: seq<string>, ys: seq<string>)
    requires SelfIndexed(entries)
    requires NoDuplicates(xs) && NoDuplicates(ys) && forall id :: id in xs <==> id in ys
    requires forall id :: id in xs ==> id in entries
    requires Ordered(Resolve(entries, xs), ListedBefore) && Ordered(Resolve(entries, ys), ListedBefore)
    ensures xs == ys
  {
    var a, b := Resolve(entries, xs), Resolve(entries, ys);
    ResolveFaithful(entries, xs);
    ResolveFaithful(entries, ys);
    SameElements(a, b);
    ListOrderTotal(a);
    SortDetermined(a, b, ListedBefore);
    forall i | 0 <= i < |xs|
      ensures xs[i] == ys[i]
    {
      assert a[i] == b[i];
      assert xs[i] in entries && ys[i] in entries;
    }
  }

  lemma ResolveFaithful(entries: map<string, Entry>, ids: seq<string>)
    requires SelfIndexed(entries) && NoDuplicates(ids)
    requires forall id :: id in ids ==> id in entries
    ensures var r := Resolve(entries, ids);
            NoDuplicates(r) && IdsDistinguish(r) && forall e: Entry :: e in r <==> e.id in ids && entries[e.id] == e
  {
    var r := Resolve(entries, ids);
    forall i | 0 <= i < |ids|
      ensures r[i].id == ids[i]
    {
      assert ids[i] in entries;
    }
    forall e: Entry | e.id in ids && entries[e.id] == e
      ensures e in r
    {
      var i :| 0 <= i < |ids| && ids[i] == e.id;
      assert r[i] == e;
    }
  }

  /** Entries determine the whole catalog: identifiers, lists, counters and fingerprint. */
  lemma CatalogDetermined(c: Snapshot, d: Snapshot, m: multiset<Entry>)
    requires IsCatalogOf(c, m) && IsCatalogOf(d, m)
    ensures c == d
  {
    IndexDetermined(c.entries, d.entries, m);
    hide Indexes, Linked, Rooted, ListsSorted, Fingerprint, Total;
    ListsDetermined(c.entries, c.children, d.children);
  }

  lemma ListsDetermined(entries: map<string, Entry>, a: map<string, seq<string>>, b: map<string, seq<string>>)
    requires SelfIndexed(entries) && Linked(entries, a) && Linked(entries, b)
    requires ListsSorted(entries, a) && ListsSorted(entries, b)
    ensures a == b
  {
    hide IsContainer, Ordered, ListedBefore, Resolve;
    assert a.Keys == b.Keys;
    forall k | k in a
      ensures a[k] == b[k]
    {
      ListDetermined(entries, a[k], b[k]);
    }
  }

  /**
   * Two scanned catalogs with the same entries and child lists are equal in every respect, so
   * keeping the published one instead of replacing it cannot be observed.
   */
  lemma SameContentIsSameCatalog(c: Snapshot, d: Snapshot, m: multiset<Entry>, n: multiset<Entry>)
    requires IsCatalogOf(c, m) && IsCatalogOf(d, n)
    ensures HasSameContent(c, d) <==> c == d
    ensures HasSameContent(c, d) ==> forall id :: ObjectUpdateId(c, id) == ObjectUpdateId(d, id)
  {
    if HasSameContent(c, d) {
      ContentsDetermined(c.entries, m, n);
    }
  }

  /** An entry of one catalog only tells two catalogs apart. */
  lemma OnlyInOne(c: Snapshot, d: Snapshot, m: multiset<Entry>, n: multiset<Entry>, e: Entry)
    requires IsCatalogOf(c, m) && IsCatalogOf(d, n) && e in m && e !in n
    ensures c.entries != d.entries
  {
    hide Linked, Rooted, ListsSorted, Total, Fingerprint;
    assert c.entries[e.id] == e;
  }

  // --- Leaving out entries -------------------------------------------------------------------

  /** The identifiers that are still in use, in their order. */
  function Kept(ids: seq<string>, entries: map<string, Entry>): seq<string> {
    if ids == [] then [] else (if ids[0] in entries then [ids[0]] else []) + Kept(ids[1..], entries)
  }

  lemma {:induction false} KeptMembers(ids: seq<string>, entries: map<string, Entry>)
    ensures forall id :: id in Kept(ids, entries) <==> id in ids && id in entries
    ensures NoDuplicates(ids) ==> NoDuplicates(Kept(ids, entries))
  {
    if ids != [] {
      KeptMembers(ids[1..], entries);
      assert ids == [ids[0]] + ids[1..];
      if NoDuplicates(ids) {
        TailDistinct(ids);
        HeadDistinct(ids[0], Kept(ids[1..], entries));
      }
    }
  }

  lemma TailDistinct(ids: seq<string>)
    requires ids != [] && NoDuplicates(ids)
    ensures NoDuplicates(ids[1..]) && ids[0] !in ids[1..]
  {
  }

  lemma HeadDistinct(id: string, ids: seq<string>)
    requires id !in ids && NoDuplicates(ids)
    ensures NoDuplicates([id] + ids)
  {
  }

  /** Leaving out identifiers keeps the listing order. */
  lemma {:induction false} KeptOrdered(ids: seq<string>, full: map<string, Entry>, entries: map<string, Entry>)
    requires forall id :: id in ids ==> id in full
    requires forall id :: id in entries && id in full ==> entries[id] == full[id]
    requires Ordered(Resolve(full, ids), ListedBefore)
    ensures forall id :: id in Kept(ids, entries) ==> id in entries
    ensures Ordered(Resolve(entries, Kept(ids, entries)), ListedBefore)
  {
    KeptMembers(ids, entries);
    hide ListedBefore, Ordered, Resolve;
    if ids == [] {
      NothingInOrder(entries);
    } else {
      var rest := ids[1..];
      assert forall id :: id in rest ==> id in ids;
      TailInOrder(ids, full);
      KeptOrdered(rest, full, entries);
      KeptMembers(rest, entries);
      if ids[0] in entries {
        assert ids[0] in ids;
        var t := Kept(rest, entries);
        forall id | id in t
          ensures !ListedBefore(entries[id], entries[ids[0]])
        {
          LaterInOrder(ids, full, id);
        }
        OrderedCons(ids[0], t, entries);
      } else {
        assert Kept(ids, entries) == Kept(rest, entries);
      }
    }
  }

  lemma NothingInOrder(entries: map<string, Entry>)
    ensures Ordered(Resolve(entries, []), ListedBefore)
  {
  }

  lemma TailInOrder(ids: seq<string>, full: map<string, Entry>)
    requires ids != [] && (forall i :: i in ids ==> i in full) && Ordered(Resolve(full, ids), ListedBefore)
    ensures forall i :: i in ids[1..] ==> i in full
    ensures Ordered(Resolve(full, ids[1..]), ListedBefore)
  {
    hide ListedBefore;
    var rest, all := ids[1..], Resolve(full, ids);
    assert forall i :: i in rest ==> i in ids;
    forall i, j | 0 <= i < j < |rest|
      ensures !ListedBefore(Resolve(full, rest)[j], Resolve(full, rest)[i])
    {
      assert Resolve(full, rest)[i] == all[i + 1] && Resolve(full, rest)[j] == all[j + 1];
    }
  }

  lemma LaterInOrder(ids: seq<string>, full: map<string, Entry>, id: string)
    requires ids != [] && (forall i :: i in ids ==> i in full) && id in ids[1..]
    requires Ordered(Resolve(full, ids), ListedBefore)
    ensures id in ids && ids[0] in ids && !ListedBefore(full[id], full[ids[0]])
  {
    hide ListedBefore;
    var k :| 0 <= k < |ids[1..]| && ids[1..][k] == id;
    var all := Resolve(full, ids);
    assert ids[k + 1] == id && all[k + 1] == full[id] && all[0] == full[ids[0]];
  }

  lemma OrderedCons(first: string, ids: seq<string>, entries: map<string, Entry>)
    requires first in entries && forall id :: id in ids ==> id in entries
    requires Ordered(Resolve(entries, ids), ListedBefore)
    requires forall id :: id in ids ==> !ListedBefore(entries[id], entries[first])
    ensures Ordered(Resolve(entries, [first] + ids), ListedBefore)
  {
    hide ListedBefore;
    var all, rest := Resolve(entries, [first] + ids), Resolve(entries, ids);
    forall i, j | 0 <= i < j < |all|
      ensures !ListedBefore(all[j], all[i])
    {
      assert ids[j - 1] in ids && all[j] == rest[j - 1];
      if i > 0 {
        assert all[i] == rest[i - 1];
      }
    }
  }

  lemma KeptLists(full: Snapshot, guarded: Snapshot, m: multiset<Entry>, n: multiset<Entry>)
    requires IsCatalogOf(full, m) && IsCatalogOf(guarded, n)
    requires guarded.children.Keys == full.children.Keys
    requires forall id :: id in guarded.entries ==> id in full.entries && full.entries[id] == guarded.entries[id]
    ensures forall k :: k in full.children ==> guarded.children[k] == Kept(full.children[k], guarded.entries)
  {
    hide Rooted, Fingerprint, Total;
    forall k | k in full.children
      ensures guarded.children[k] == Kept(full.children[k], guarded.entries)
    {
      KeptList(full.entries, full.children, guarded.entries, guarded.children, k);
    }
  }

  lemma KeptList(full: map<string, Entry>, lists: map<string, seq<string>>,
                 entries: map<string, Entry>, children: map<string, seq<string>>, k: string)
    requires SelfIndexed(entries) && Linked(full, lists) && Linked(entries, children)
    requires ListsSorted(full, lists) && ListsSorted(entries, children) && k in lists && k in children
    requires forall id :: id in entries ==> id in full && full[id] == entries[id]
    ensures children[k] == Kept(lists[k], entries)
  {
    forall id
      ensures id in lists[k] <==> id in full && full[id].parentId == k
      ensures id in children[k] <==> id in entries && entries[id].parentId == k
    {
      ListMeans(full, lists, k, id);
      ListMeans(entries, children, k, id);
    }
    KeptMembers(lists[k], entries);
    KeptOrdered(lists[k], full, entries);
    hide Kept, ListedBefore, Ordered, IsContainer;
    ListDetermined(entries, children[k], Kept(lists[k], entries));
  }
}
