/** Building a catalog from the configured shares: the mutable state and the loops of a scan. */
module CatalogBuilder {
  import opened Prelude
  import opened Utf8
  import opened Fnv
  import opened Identity
  import opened Ordering
  import opened Entries
  import opened FileSystem
  import opened Traversal
  import opened Following
  import opened LinkOrder
  import opened Shares
  import opened CatalogSpec

  datatype ScanError =
    | ResolveShare(name: string, path: Path)
    | IdCollision(first: Path, second: Path)

  datatype CatalogScan = CatalogScan(catalog: Snapshot, unsettledFiles: nat)

  ghost function ExploreAll(w: Walk, pending: Pending): Found
    requires PlainTree(w)
  {
    if pending == [] then NOTHING
    else
      var (directory, id) := pending[|pending| - 1];
      ExploreAll(w, pending[..|pending| - 1]).Plus(Explore(w, directory, id))
  }

  /** What is left to do strictly shrinks with every directory taken from the stack. */
  ghost function Remaining(w: Walk, visited: set<Path>, pending: Pending): nat
    requires w.files.Finite()
  {
    if w.options.followSymlinks then |w.files.realPaths - visited|
    else |ExploreAll(w, pending).entries| + |pending|
  }

  /**
   * While a listing is processed, what was found so far, what the remaining items `rest` hold and
   * what the stacked directories hold add up to what the whole listing and the old stack hold.
   */
  ghost predicate Balanced(w: Walk, directory: Path, id: string, items: seq<Option<Name>>, stack: Pending,
                           rest: seq<Option<Name>>, pending: Pending, found: Found)
  {
    PlainTree(w) ==>
      && found.Plus(ExploreItems(w, directory, id, rest)).Plus(ExploreAll(w, pending))
           == ExploreItems(w, directory, id, items).Plus(ExploreAll(w, stack))
      && found.entries + ExploreItems(w, directory, id, rest).entries <= ExploreItems(w, directory, id, items).entries
  }

  lemma BalanceStart(w: Walk, directory: Path, id: string, items: seq<Option<Name>>, stack: Pending)
    ensures Balanced(w, directory, id, items, stack, items, stack, NOTHING)
  {
    if PlainTree(w) {
      var all := ExploreItems(w, directory, id, items);
      assert NOTHING.Plus(all) == all;
    }
  }

  /** One item moves its share of the balance from `rest` to `found` and to the stack. */
  lemma BalanceStep(w: Walk, directory: Path, id: string, items: seq<Option<Name>>, stack: Pending,
                    rest: seq<Option<Name>>, pending: Pending, found: Found)
    requires rest != [] && Balanced(w, directory, id, items, stack, rest, pending, found)
    ensures match Inspect(w, directory, id, rest[0])
            case Skip => Balanced(w, directory, id, items, stack, rest[1..], pending, found)
            case Withhold(e) =>
              Balanced(w, directory, id, items, stack, rest[1..], pending, found.Plus(Found(multiset{}, multiset{e})))
            case Add(e) =>
              Balanced(w, directory, id, items, stack, rest[1..], pending, found.Plus(Found(multiset{e}, multiset{})))
            case Descend(e) =>
              Balanced(w, directory, id, items, stack, rest[1..], pending + [(e.path, e.id)],
                       found.Plus(Found(multiset{e}, multiset{})))
  {
    hide Inspect, Walk.Id, Balanced, Explore, ExploreItems, Found.Plus;
    if PlainTree(w) {
      match Inspect(w, directory, id, rest[0]) {
        case Skip =>
          PlusNothing(NOTHING);
          PlusNothing(found);
          PlusNothing(ExploreAll(w, pending));
          BalanceMove(w, directory, id, items, stack, rest, pending, pending, found, NOTHING, NOTHING);
        case Withhold(e) =>
          var here := Found(multiset{}, multiset{e});
          PlusNothing(here);
          PlusNothing(ExploreAll(w, pending));
          BalanceMove(w, directory, id, items, stack, rest, pending, pending, found, here, NOTHING);
        case Add(e) =>
          var here := Found(multiset{e}, multiset{});
          PlusNothing(here);
          PlusNothing(ExploreAll(w, pending));
          BalanceMove(w, directory, id, items, stack, rest, pending, pending, found, here, NOTHING);
        case Descend(e) =>
          var pushed := pending + [(e.path, e.id)];
          assert pushed[..|pushed| - 1] == pending;
          BalanceMove(w, directory, id, items, stack, rest, pending, pushed, found,
                      Found(multiset{e}, multiset{}), Explore(w, e.path, e.id));
      }
    } else {
      BalanceVacuous(w, directory, id, items, stack);
    }
  }

  lemma BalanceVacuous(w: Walk, directory: Path, id: string, items: seq<Option<Name>>, stack: Pending)
    requires !PlainTree(w)
    ensures forall rest, pending, found :: Balanced(w, directory, id, items, stack, rest, pending, found)
  {
  }

  lemma BalanceMove(w: Walk, directory: Path, id: string, items: seq<Option<Name>>, stack: Pending,
                    rest: seq<Option<Name>>, pending: Pending, pushed: Pending, found: Found, here: Found, below: Found)
    requires PlainTree(w) && rest != [] && Balanced(w, directory, id, items, stack, rest, pending, found)
    requires ExploreItem(w, directory, id, rest[0]) == here.Plus(below)
    requires ExploreAll(w, pushed) == ExploreAll(w, pending).Plus(below)
    ensures Balanced(w, directory, id, items, stack, rest[1..], pushed, found.Plus(here))
  {
    hide ExploreItem, ExploreAll, Inspect;
    assert ExploreItems(w, directory, id, rest)
        == ExploreItem(w, directory, id, rest[0]).Plus(ExploreItems(w, directory, id, rest[1..]));
    Regroup(found, here, below, ExploreItems(w, directory, id, rest[1..]), ExploreAll(w, pending));
  }

  lemma Regroup(found: Found, here: Found, below: Found, others: Found, after: Found)
    ensures found.Plus(here).Plus(others).Plus(after.Plus(below))
         == found.Plus(here.Plus(below).Plus(others)).Plus(after)
    ensures found.Plus(here).Plus(others).entries <= found.Plus(here.Plus(below).Plus(others)).entries
  {
    assert found.entries + here.entries + others.entries + (after.entries + below.entries)
        == found.entries + (here.entries + below.entries + others.entries) + after.entries;
    assert found.withheld + here.withheld + others.withheld + (after.withheld + below.withheld)
        == found.withheld + (here.withheld + below.withheld + others.withheld) + after.withheld;
  }

  lemma BalanceEnd(w: Walk, directory: Path, id: string, items: seq<Option<Name>>, stack: Pending,
                   pending: Pending, found: Found)
    requires Balanced(w, directory, id, items, stack, [], pending, found)
    ensures PlainTree(w) ==>
      found.Plus(ExploreAll(w, pending)) == ExploreItems(w, directory, id, items).Plus(ExploreAll(w, stack))
  {
    hide Inspect, Explore, ExploreItem, ExploreAll;
    if PlainTree(w) {
      assert ExploreItems(w, directory, id, []) == NOTHING;
      PlusNothing(found);
    }
  }

  lemma ItemAddsItsEntry(w: Walk, directory: Path, id: string, item: Option<Name>, e: Entry)
    requires PlainTree(w) && Inspect(w, directory, id, item) in {Add(e), Descend(e)}
    ensures multiset{e} <= ExploreItem(w, directory, id, item).entries
  {
    hide Inspect, Explore;
  }

  lemma WithinBalance(w: Walk, directory: Path, id: string, items: seq<Option<Name>>, stack: Pending,
                      rest: seq<Option<Name>>, pending: Pending, found: Found)
    requires rest != [] && PlainTree(w) && Balanced(w, directory, id, items, stack, rest, pending, found)
    ensures found.entries + ExploreItem(w, directory, id, rest[0]).entries
         <= ExploreItems(w, directory, id, items).entries
  {
    hide ExploreItem, ExploreAll;
    var one, others := ExploreItem(w, directory, id, rest[0]), ExploreItems(w, directory, id, rest[1..]);
    assert ExploreItems(w, directory, id, rest) == one.Plus(others);
    hide ExploreItems;
  }

  /** A collision met on the way dooms every order in which the listing could be read. */
  lemma CollisionIsFinal(w: Walk, directory: Path, id: string, items: seq<Option<Name>>, stack: Pending,
                         rest: seq<Option<Name>>, pending: Pending, found: Found, m: multiset<Entry>, e: Entry,
                         first: Path, second: Path)
    requires rest != [] && Balanced(w, directory, id, items, stack, rest, pending, found)
    requires Inspect(w, directory, id, rest[0]) in {Add(e), Descend(e)}
    requires Collides(m + found.entries + multiset{e}, first, second)
    ensures PlainTree(w) ==> Collides(m + ExploreItems(w, directory, id, items).entries, first, second)
  {
    hide Inspect, Collides, Balanced, ExploreItem, ExploreItems;
    if PlainTree(w) {
      ItemAddsItsEntry(w, directory, id, rest[0], e);
      WithinBalance(w, directory, id, items, stack, rest, pending, found);
      MoreEntriesStillCollide(m + found.entries + multiset{e}, m + ExploreItems(w, directory, id, items).entries,
                              first, second);
    }
  }

  lemma DirectNone(w: Walk, directory: Path, id: string)
    ensures Direct(w, directory, id, []) == NOTHING && Subdirectories(w, directory, id, []) == []
  {
  }

  lemma {:induction false} DirectGrows(w: Walk, directory: Path, id: string, items: seq<Option<Name>>, i: nat)
    requires i <= |items|
    ensures Direct(w, directory, id, items[..i]).entries <= Direct(w, directory, id, items).entries
    decreases |items|
  {
    hide DirectItem;
    if i < |items| {
      DirectGrows(w, directory, id, items[..|items| - 1], i);
      assert items[..|items| - 1][..i] == items[..i];
    } else {
      assert items[..i] == items;
    }
  }

  lemma CollisionIsDirect(w: Walk, directory: Path, id: string, items: seq<Option<Name>>, i: nat,
                          m: multiset<Entry>, e: Entry, first: Path, second: Path)
    requires i < |items| && Inspect(w, directory, id, items[i]) in {Add(e), Descend(e)}
    requires Collides(m + Direct(w, directory, id, items[..i]).entries + multiset{e}, first, second)
    ensures Collides(m + Direct(w, directory, id, items).entries, first, second)
  {
    hide Inspect, Collides;
    DirectAppend(w, directory, id, items, i);
    DirectGrows(w, directory, id, items, i + 1);
    var before := Direct(w, directory, id, items[..i]).entries;
    assert DirectItem(w, directory, id, items[i]).entries == multiset{e};
    hide Direct, DirectItem;
    MoreEntriesStillCollide(m + before + multiset{e}, m + Direct(w, directory, id, items).entries, first, second);
  }

  lemma DirectAppend(w: Walk, directory: Path, id: string, items: seq<Option<Name>>, i: nat)
    requires i < |items|
    ensures Direct(w, directory, id, items[..i + 1])
         == Direct(w, directory, id, items[..i]).Plus(DirectItem(w, directory, id, items[i]))
  {
    assert items[..i + 1][..i] == items[..i];
  }

  /** After `i` items the stack has grown by the directories among them. */
  ghost predicate Stacked(w: Walk, directory: Path, id: string, items: seq<Option<Name>>, i: nat, stack: Pending,
                          pending: Pending)
    requires i <= |items|
  {
    pending == stack + Subdirectories(w, directory, id, items[..i])
  }

  lemma StackedStart(w: Walk, directory: Path, id: string, items: seq<Option<Name>>, stack: Pending)
    ensures Stacked(w, directory, id, items, 0, stack, stack)
  {
    assert Subdirectories(w, directory, id, items[..0]) == [];
  }

  lemma StackedStep(w: Walk, directory: Path, id: string, items: seq<Option<Name>>, i: nat, stack: Pending,
                    pending: Pending)
    requires i < |items| && Stacked(w, directory, id, items, i, stack, pending)
    ensures var verdict := Inspect(w, directory, id, items[i]);
            Stacked(w, directory, id, items, i + 1, stack,
                    if verdict.Descend? then pending + [(verdict.entry.path, verdict.entry.id)] else pending)
  {
    hide Inspect;
    assert items[..i + 1][..i] == items[..i];
  }

  lemma StackedEnd(w: Walk, directory: Path, id: string, items: seq<Option<Name>>, stack: Pending, pending: Pending)
    requires Stacked(w, directory, id, items, |items|, stack, pending)
    ensures pending == stack + Subdirectories(w, directory, id, items)
  {
    assert items[..|items|] == items;
  }

  class Catalog {
    var entries: map<string, Entry>
    var children: map<string, seq<string>>
    var updateId: u32
    var fileCount: nat
    var totalBytes: u64

    /** The catalog under construction holds exactly the entries `m`. */
    ghost predicate Holds(m: multiset<Entry>)
      reads this
    {
      Indexes(entries, m) && Linked(entries, children) && Rooted(entries)
    }

    ghost predicate Counts(m: multiset<Entry>)
      reads this
    {
      fileCount == Total(m, MediaWeight) && totalBytes == Min(Total(m, SizeOf), U64_MAX)
    }

    ghost predicate StackIsKnown(pending: Pending)
      reads this
    {
      forall i :: 0 <= i < |pending| ==> IsContainer(entries, pending[i].1)
    }

    function Value(): Snapshot
      reads this
    {
      Snapshot(entries, children, updateId, fileCount, totalBytes)
    }

    constructor Empty()
      ensures Value() == Snapshot(map[], map[ROOT_ID := []], 0, 0, 0)
      ensures Holds(multiset{}) && Counts(multiset{})
    {
      entries := map[];
      children := map[ROOT_ID := []];
      updateId := 0;
      fileCount := 0;
      totalBytes := 0;
    }

    /** `insert_entry`: refuses an identifier in use, otherwise extends index and child lists. */
    method InsertEntry(entry: Entry, ghost m: multiset<Entry>) returns (r: Result<(), ScanError>)
      requires Holds(m)
      requires entry.id != ROOT_ID
      requires entry.parentId == ROOT_ID || IsContainer(entries, entry.parentId)
      modifies this`entries, this`children
      ensures r.Ok? <==> entry.id !in old(entries)
      ensures r.Ok? ==> Holds(m + multiset{entry})
      ensures r.Ok? ==> entries == old(entries)[entry.id := entry] && children == Attached(old(children), entry)
      ensures r.Err? ==> unchanged(this) && r.error == IdCollision(entries[entry.id].path, entry.path)
      ensures r.Err? ==> Collides(m + multiset{entry}, r.error.first, r.error.second)
    {
      if entry.id in entries {
        var previous := entries[entry.id];
        assert previous in m;
        CollisionShows(m, previous, entry);
        return Err(IdCollision(previous.path, entry.path));
      }
      InsertKeepsIndex(entries, m, entry);
      InsertKeepsLinked(entries, children, entry);
      InsertKeepsRooted(entries, entry);
      var siblings := if entry.parentId in children then children[entry.parentId] else [];
      children := children[entry.parentId := siblings + [entry.id]];
      if entry.kind.Container? && entry.id !in children {
        children := children[entry.id := []];
      }
      entries := entries[entry.id := entry];
      return Ok(());
    }

    /** Counts a media file, then inserts the entry. */
    method Accept(entry: Entry, ghost m: multiset<Entry>) returns (r: Result<(), ScanError>)
      requires Holds(m) && Counts(m)
      requires entry.id != ROOT_ID && (entry.kind.Container? ==> entry.size == 0)
      requires IsContainer(entries, entry.parentId)
      modifies this
      ensures updateId == old(updateId)
      ensures r.Ok? ==> Holds(m + multiset{entry}) && Counts(m + multiset{entry})
      ensures r.Ok? ==> old(entries.Keys) <= entries.Keys && entry.id in entries && entries[entry.id] == entry
      ensures r.Ok? ==> forall id :: id in old(entries) ==> entries[id] == old(entries)[id]
      ensures r.Err? ==> r.error.IdCollision? && Collides(m + multiset{entry}, r.error.first, r.error.second)
    {
      hide Indexes, Linked, Rooted, Attached, Collides, Total;
      if entry.kind.Media? {
        fileCount := fileCount + 1;
        totalBytes := SaturatingAdd(totalBytes, entry.size);
      }
      CountsInsert(m, entry);
      r := InsertEntry(entry, m);
    }

    /**
     * The loop over one directory listing: accepts, withholds or skips each item and pushes the
     * directories to descend into.
     */
    method VisitDirectory(w: Walk, directory: Path, parentId: string, items: seq<Option<Name>>,
                          stack: Pending, ghost m: multiset<Entry>)
      returns (r: Result<(Pending, nat), ScanError>, ghost found: Found)
      requires Holds(m) && Counts(m) && StackIsKnown(stack) && IsContainer(entries, parentId)
      requires w.files.Finite()
      modifies this
      ensures updateId == old(updateId)
      ensures r.Ok? ==>
        && Holds(m + found.entries) && Counts(m + found.entries)
        && r.value.1 == |found.withheld|
        && StackIsKnown(r.value.0)
        && |r.value.0| <= |stack| + |found.entries|
        && found == Direct(w, directory, parentId, items)
        && r.value.0 == stack + Subdirectories(w, directory, parentId, items)
        && (PlainTree(w) ==>
              found.Plus(ExploreAll(w, r.value.0))
                == ExploreItems(w, directory, parentId, items).Plus(ExploreAll(w, stack)))
      ensures r.Err? ==>
        && r.error.IdCollision?
        && Collides(m + Direct(w, directory, parentId, items).entries, r.error.first, r.error.second)
      ensures r.Err? && PlainTree(w) ==>
        Collides(m + ExploreItems(w, directory, parentId, items).entries, r.error.first, r.error.second)
    {
      hide Inspect, Walk.Id, Indexes, Linked, Rooted, Balanced, ExploreItems, ExploreAll, Collides, Direct,
           Subdirectories, Stacked, Holds, Counts, Total;
      assert items[..0] == [] && items[..|items|] == items;
      DirectNone(w, directory, parentId);
      StackedStart(w, directory, parentId, items, stack);
      found := NOTHING;
      var pending, unsettled := stack, 0;
      assert m + found.entries == m;
      BalanceStart(w, directory, parentId, items, stack);
      assert items[0..] == items;
      for i := 0 to |items|
        invariant Holds(m + found.entries) && Counts(m + found.entries)
        invariant StackIsKnown(pending) && IsContainer(entries, parentId)
        invariant unsettled == |found.withheld|
        invariant |pending| <= |stack| + |found.entries|
        invariant updateId == old(updateId)
        invariant Balanced(w, directory, parentId, items, stack, items[i..], pending, found)
        invariant found == Direct(w, directory, parentId, items[..i])
        invariant Stacked(w, directory, parentId, items, i, stack, pending)
      {
        DirectAppend(w, directory, parentId, items, i);
        StackedStep(w, directory, parentId, items, i, stack, pending);
        ghost var before := found.entries;
        var verdict := Inspect(w, directory, parentId, items[i]);
        assert items[i..][0] == items[i] && items[i..][1..] == items[i + 1..];
        BalanceStep(w, directory, parentId, items, stack, items[i..], pending, found);
        if verdict.Withhold? {
          unsettled := unsettled + 1;
          found := found.Plus(Found(multiset{}, multiset{verdict.entry}));
        } else if !verdict.Skip? {
          var accepted := Accept(verdict.entry, m + found.entries);
          if accepted.Err? {
            CollisionIsFinal(w, directory, parentId, items, stack, items[i..], pending, found, m, verdict.entry,
                             accepted.error.first, accepted.error.second);
            CollisionIsDirect(w, directory, parentId, items, i, m, verdict.entry,
                              accepted.error.first, accepted.error.second);
            return Err(accepted.error), found;
          }
          found := found.Plus(Found(multiset{verdict.entry}, multiset{}));
          if verdict.Descend? {
            pending := pending + [(verdict.entry.path, verdict.entry.id)];
          }
        }
        PlusEntries(m, before, found);
      }
      assert items[|items|..] == [];
      StackedEnd(w, directory, parentId, items, stack, pending);
      BalanceEnd(w, directory, parentId, items, stack, pending, found);
      return Ok((pending, unsettled)), found;
    }

    /** `scan_share`: a depth-first walk from the share root with an explicit stack. */
    method ScanShare(host: Host, files: Files, share: Share, options: ScanOptions, ghost m: multiset<Entry>)
      returns (r: Result<nat, ScanError>, ghost found: Found)
      requires Holds(m) && Counts(m) && files.Finite()
      modifies this
      ensures updateId == old(updateId)
      ensures r.Ok? ==> Holds(m + found.entries) && Counts(m + found.entries) && r.value == |found.withheld|
      ensures r.Err? && r.error.ResolveShare? <==> ShareRoot(host, files, options, share).None?
      ensures r.Err? && r.error.ResolveShare? ==>
        var root := files.canonicalize(share.path);
        r.error == ResolveShare(share.name, if root.Some? then root.value else share.path)
      ensures r.Ok? ==> ExploreShare(host, files, options, share) == Some(found)
      ensures r.Err? && r.error.IdCollision? ==>
        var total := ExploreShare(host, files, options, share);
        total.Some? && Collides(m + total.value.entries, r.error.first, r.error.second)
    {
      hide Inspect, Walk.Id, Indexes, Linked, Rooted, Attached, Explore, Collides, ObjectId, StableOsHash,
           ModifiedSeconds,
           Total, ExploreShare, AllOf;
      found := NOTHING;
      var canonical := files.canonicalize(share.path);
      if canonical.None? {
        return Err(ResolveShare(share.name, share.path)), found;
      }
      var root := canonical.value;
      var metadata := files.stat(root);
      if metadata.None? {
        return Err(ResolveShare(share.name, root)), found;
      }
      var w := Walk(host, files, options, share.media, root);
      var rootId := ObjectId('d', w.RootHash(), []);
      var entry := Entry(rootId, ROOT_ID, share.name, root, Container, 0, ModifiedSeconds(metadata.value));
      assert ShareRoot(host, files, options, share) == Some((w, entry));
      var inserted := InsertEntry(entry, m);
      ShareIs(host, files, options, share);
      if inserted.Err? {
        MoreEntriesStillCollide(m + multiset{entry}, m + ExploreShare(host, files, options, share).value.entries,
                                inserted.error.first, inserted.error.second);
        return Err(inserted.error), found;
      }
      CountsInsert(m, entry);
      found := Found(multiset{entry}, multiset{});
      ghost var rest, visits;
      r, rest, visits := Drain(w, [(root, rootId)], m + found.entries);
      ghost var below := AllOf(w, [(root, rootId)]).entries;
      assert m + found.entries + below == m + (found.entries + below);
      found := found.Plus(rest);
    }

    /**
     * The loop of the walk: takes directories from the stack until none is left. With links
     * followed, a directory whose canonical path was read before is not read again; `visits` are
     * the directories read.
     */
    method Drain(w: Walk, stack: Pending, ghost m: multiset<Entry>)
      returns (r: Result<nat, ScanError>, ghost found: Found, ghost visits: Pending)
      requires Holds(m) && Counts(m) && StackIsKnown(stack) && w.files.Finite()
      modifies this
      ensures updateId == old(updateId)
      ensures r.Ok? ==> Holds(m + found.entries) && Counts(m + found.entries) && r.value == |found.withheld|
      ensures r.Ok? ==> found == AllOf(w, stack)
      ensures r.Ok? && w.options.followSymlinks ==> visits == FollowedVisits(w, {}, stack)
      ensures r.Err? ==> r.error.IdCollision? && Collides(m + AllOf(w, stack).entries, r.error.first, r.error.second)
    {
      hide Inspect, Walk.Id, Indexes, Linked, Rooted, Explore, ExploreItems, ExploreAll, Collides, Remaining,
           Total, DirectSum, DirectVisit, Direct, FollowedVisits, Below, Subdirectories;
      found, visits := NOTHING, [];
      var pending, unsettled := stack, 0;
      var visited: set<Path> := {};
      assert m + found.entries == m;
      DrainStart(w, stack);
      while pending != []
        invariant Holds(m + found.entries) && Counts(m + found.entries) && StackIsKnown(pending)
        invariant unsettled == |found.withheld|
        invariant PlainTree(w) ==> found.Plus(ExploreAll(w, pending)) == ExploreAll(w, stack)
        invariant w.options.followSymlinks ==> OnTrack(w, stack, visited, pending, visits, found)
        invariant visited <= w.files.realPaths
        invariant updateId == old(updateId)
        decreases Remaining(w, visited, pending), |pending|
      {
        ghost var full, seen, before := pending, visited, found;
        var (directory, parentId) := pending[|pending| - 1];
        assert IsContainer(entries, parentId);
        pending := pending[..|pending| - 1];
        if w.options.followSymlinks {
          var target := w.files.canonicalize(directory);
          RemainingIgnoresStack(w, visited);
          if target.None? || target.value in visited {
            FollowSkips(w, stack, visited, full, visits, found);
            continue;
          }
          VisitedShrinks(w, seen, target.value);
          FollowReads(w, stack, seen, full, visits, found);
          visited := visited + {target.value};
          visits := visits + [full[|full| - 1]];
        }
        var listing := w.files.readDir(directory);
        DirectVisitIs(w, full[|full| - 1], pending);
        if listing.None? {
          PopUnreadable(w, full, directory, parentId, seen);
          continue;
        }
        var visit;
        ghost var here;
        visit, here := VisitDirectory(w, directory, parentId, listing.value, pending, m + found.entries);
        if visit.Err? {
          if w.options.followSymlinks {
            TrackCollision(w, stack, visited, pending + Below(w, full[|full| - 1]), visits, found,
                           DirectVisit(w, full[|full| - 1]), m, visit.error.first, visit.error.second);
          } else {
            StackCollision(w, full, directory, parentId, listing.value, found, ExploreAll(w, stack), m,
                           visit.error.first, visit.error.second);
          }
          return Err(visit.error), found, visits;
        }
        assert m + found.entries + here.entries == m + (found.entries + here.entries);
        found := found.Plus(here);
        pending := visit.value.0;
        unsettled := unsettled + visit.value.1;
        PopRead(w, full, directory, parentId, listing.value, before, here, pending, seen);
      }
      StackEmpty(w, found);
      TrackEnds(w, stack, visited, visits, found);
      return Ok(unsettled), found, visits;
    }

    /** `sort_children`: sorts every child list; each identifier is looked up in the index. */
    method SortChildren()
      requires SelfIndexed(entries) && Linked(entries, children)
      modifies this`children
      ensures Linked(entries, children) && ListsSorted(entries, children)
    {
      hide Linked, SelfIndexed, SortedOutside, SortedIds;
      var todo := children.Keys;
      SortingStarts(entries, children);
      while todo != {}
        invariant todo <= children.Keys
        invariant Linked(entries, children) && SortedOutside(entries, children, todo)
      {
        var k :| k in todo;
        SortOneList(entries, children, k, todo);
        children := children[k := SortedIds(entries, children[k])];
        todo := todo - {k};
      }
      SortingEnds(entries, children);
    }

    /** `content_fingerprint`: hashes every entry in identifier order. */
    method ContentFingerprint() returns (r: u32)
      requires SelfIndexed(entries)
      ensures r == Fingerprint(entries)
    {
      var values := Values();
      FingerprintOfAnyOrder(values, entries);
      values := Sort(values, IdBefore);
      var hash := HashEntries(values);
      r := FoldUpdateId(hash);
    }

    /** The values of the index, in whatever order it yields them. */
    method Values() returns (values: seq<Entry>)
      requires SelfIndexed(entries)
      ensures Enumerates(values, entries)
    {
      values := [];
      var todo := entries.Keys;
      while todo != {}
        invariant todo <= entries.Keys
        invariant NoDuplicates(values)
        invariant forall e :: e in values <==> e.id in entries && e.id !in todo && entries[e.id] == e
      {
        var id :| id in todo;
        values := values + [entries[id]];
        todo := todo - {id};
      }
    }

    /** `object_update_id`: hashes the child list of a container. */
    method ObjectUpdateId(id: string) returns (r: u32)
      ensures r == CatalogSpec.ObjectUpdateId(Value(), id)
    {
      if id !in children {
        return updateId;
      }
      var ids := children[id];
      var hash := HashValue(OFFSET_BASIS, Encode(id));
      ghost var front := Encode(id) + [0xff];
      assert ids[..0] == [] && front + [] == front;
      hide Extended, ChildBytes;
      for i := 0 to |ids|
        invariant hash == Extended(OFFSET_BASIS, front + ChildStream(entries, ids[..i]))
      {
        ChildStreamAppend(entries, ids, i, front);
        hash := HashChild(hash, ids[i]);
      }
      assert ids[..|ids|] == ids;
      r := FoldUpdateId(hash);
    }

    method HashChild(hash: u64, id: string) returns (r: u64)
      ensures r == Extended(hash, ChildBytes(entries, id))
    {
      hide Extended, LittleEndian, Encode;
      r := HashValue(hash, Encode(id));
      if id in entries {
        var e := entries[id];
        r := HashValue(r, Encode(e.title));
        r := HashValue(r, LittleEndian(e.modifiedSeconds));
        r := HashValue(r, LittleEndian(e.size));
        var c := LittleEndian(e.size) + [0xff];
        var b := LittleEndian(e.modifiedSeconds) + [0xff] + c;
        var a := Encode(e.title) + [0xff] + b;
        HashTwo(Extended(Extended(hash, Encode(id) + [0xff]), Encode(e.title) + [0xff]),
                LittleEndian(e.modifiedSeconds), c);
        HashTwo(Extended(hash, Encode(id) + [0xff]), Encode(e.title), b);
        HashTwo(hash, Encode(id), a);
      } else {
        assert Encode(id) + [0xff] + [] == Encode(id) + [0xff];
      }
    }
  }

  lemma SortingStarts(entries: map<string, Entry>, children: map<string, seq<string>>)
    requires Linked(entries, children)
    ensures SortedOutside(entries, children, children.Keys)
  {
  }

  lemma SortingEnds(entries: map<string, Entry>, children: map<string, seq<string>>)
    requires Linked(entries, children) && SortedOutside(entries, children, {})
    ensures ListsSorted(entries, children)
  {
  }

  /** The loop of `content_fingerprint`. */
  method HashEntries(values: seq<Entry>) returns (hash: u64)
    ensures hash == Extended(OFFSET_BASIS, Stream(values))
  {
    hash := OFFSET_BASIS;
    assert values[..0] == [];
    for i := 0 to |values|
      invariant hash == Extended(OFFSET_BASIS, Stream(values[..i]))
    {
      hide EntryBytes, Extended, Stream;
      assert values[..i + 1] == values[..i] + [values[i]];
      StreamAppend(values[..i], values[i]);
      ExtendedConcat(OFFSET_BASIS, Stream(values[..i]), EntryBytes(values[i]));
      hash := HashEntry(hash, values[i]);
    }
    assert values[..|values|] == values;
  }

  /** The five `hash_value` calls for one entry. */
  method HashEntry(hash: u64, e: Entry) returns (r: u64)
    ensures r == Extended(hash, EntryBytes(e))
  {
    hide Extended, LittleEndian, Encode;
    r := HashValue(hash, Encode(e.id));
    r := HashValue(r, Encode(e.parentId));
    r := HashValue(r, Encode(e.title));
    r := HashValue(r, LittleEndian(e.modifiedSeconds));
    r := HashValue(r, LittleEndian(e.size));
    var d := LittleEndian(e.size) + [0xff];
    var c := LittleEndian(e.modifiedSeconds) + [0xff] + d;
    var b := Encode(e.title) + [0xff] + c;
    var a := Encode(e.parentId) + [0xff] + b;
    var h1 := Extended(hash, Encode(e.id) + [0xff]);
    var h2 := Extended(h1, Encode(e.parentId) + [0xff]);
    var h3 := Extended(h2, Encode(e.title) + [0xff]);
    HashTwo(h3, LittleEndian(e.modifiedSeconds), d);
    HashTwo(h2, Encode(e.title), c);
    HashTwo(h1, Encode(e.parentId), b);
    HashTwo(hash, Encode(e.id), a);
  }

  // --- The walk with links followed ----------------------------------------------------------

  /** Everything a walk from this stack finds. */
  ghost function AllOf(w: Walk, stack: Pending): Found
    requires w.files.Finite()
  {
    if w.options.followSymlinks then DirectSum(w, FollowedVisits(w, {}, stack)) else ExploreAll(w, stack)
  }

  /** What was read and what is still to be read are what the whole walk reads. */
  ghost predicate OnTrack(w: Walk, stack: Pending, visited: set<Path>, pending: Pending, visits: Pending, found: Found)
    requires w.files.Finite()
  {
    && visits + FollowedVisits(w, visited, pending) == FollowedVisits(w, {}, stack)
    && found == DirectSum(w, visits)
  }

  lemma FollowSkips(w: Walk, stack: Pending, visited: set<Path>, pending: Pending, visits: Pending, found: Found)
    requires w.files.Finite() && pending != [] && OnTrack(w, stack, visited, pending, visits, found)
    requires var target := w.files.canonicalize(pending[|pending| - 1].0); target.None? || target.value in visited
    ensures OnTrack(w, stack, visited, pending[..|pending| - 1], visits, found)
  {
    hide DirectSum, Below, FollowedVisits;
    FollowedOne(w, visited, pending);
  }

  lemma FollowReads(w: Walk, stack: Pending, visited: set<Path>, pending: Pending, visits: Pending, found: Found)
    requires w.files.Finite() && pending != [] && OnTrack(w, stack, visited, pending, visits, found)
    requires var target := w.files.canonicalize(pending[|pending| - 1].0); target.Some? && target.value !in visited
    ensures var (top, rest) := (pending[|pending| - 1], pending[..|pending| - 1]);
            OnTrack(w, stack, visited + {w.files.canonicalize(top.0).value}, rest + Below(w, top), visits + [top],
                    found.Plus(DirectVisit(w, top)))
  {
    var top, rest := pending[|pending| - 1], pending[..|pending| - 1];
    hide DirectSum, Below, DirectVisit, FollowedVisits;
    DirectSumOne(w, visits, top);
    FollowedOne(w, visited, pending);
    Middle(visits, top, FollowedVisits(w, visited + {w.files.canonicalize(top.0).value}, rest + Below(w, top)));
  }

  lemma Middle(a: Pending, x: Visit, b: Pending)
    ensures a + ([x] + b) == a + [x] + b
  {
  }

  lemma DirectVisitIs(w: Walk, visit: Visit, rest: Pending)
    ensures match w.files.readDir(visit.0)
            case None => DirectVisit(w, visit) == NOTHING && rest + Below(w, visit) == rest
            case Some(items) =>
              && DirectVisit(w, visit) == Direct(w, visit.0, visit.1, items)
              && Below(w, visit) == Subdirectories(w, visit.0, visit.1, items)
    ensures forall f: Found :: f.Plus(NOTHING) == f
  {
    forall f: Found
      ensures f.Plus(NOTHING) == f
    {
      PlusNothing(f);
    }
  }

  lemma TrackCollision(w: Walk, stack: Pending, visited: set<Path>, pending: Pending, visits: Pending,
                       before: Found, here: Found, m: multiset<Entry>, first: Path, second: Path)
    requires w.files.Finite() && OnTrack(w, stack, visited, pending, visits, before.Plus(here))
    requires Collides(m + before.entries + here.entries, first, second)
    ensures Collides(m + DirectSum(w, FollowedVisits(w, {}, stack)).entries, first, second)
  {
    hide DirectSum, FollowedVisits, Collides;
    DirectSumConcat(w, visits, FollowedVisits(w, visited, pending));
    MoreEntriesStillCollide(m + before.entries + here.entries, m + DirectSum(w, FollowedVisits(w, {}, stack)).entries,
                            first, second);
  }

  lemma TrackEnds(w: Walk, stack: Pending, visited: set<Path>, visits: Pending, found: Found)
    requires w.files.Finite()
    ensures OnTrack(w, stack, visited, [], visits, found) ==>
      visits == FollowedVisits(w, {}, stack) && found == DirectSum(w, FollowedVisits(w, {}, stack))
  {
    hide DirectSum;
  }

  /** A share holds its own entry and what a walk from its root finds. */
  lemma ShareIs(host: Host, files: Files, options: ScanOptions, share: Share)
    requires files.Finite() && ShareRoot(host, files, options, share).Some?
    ensures var (w, entry) := ShareRoot(host, files, options, share).value;
            ExploreShare(host, files, options, share)
              == Some(Found(multiset{entry}, multiset{}).Plus(AllOf(w, [(w.root, entry.id)])))
  {
    var (w, entry) := ShareRoot(host, files, options, share).value;
    RootIsWalk(host, files, options, share);
    RootId(w);
    StackOfOne(w, w.root, entry.id);
    hide Explore, ExploreAll, FollowedVisits, DirectSum;
  }

  lemma DrainStart(w: Walk, stack: Pending)
    requires w.files.Finite()
    ensures PlainTree(w) ==> NOTHING.Plus(ExploreAll(w, stack)) == ExploreAll(w, stack)
    ensures OnTrack(w, stack, {}, stack, [], NOTHING)
  {
    hide ExploreAll, FollowedVisits;
    if PlainTree(w) {
      PlusNothing(ExploreAll(w, stack));
    }
  }

  lemma StackOfOne(w: Walk, directory: Path, id: string)
    ensures PlainTree(w) ==> ExploreAll(w, [(directory, id)]) == Explore(w, directory, id)
  {
    hide Explore;
    if PlainTree(w) {
      var one: Pending := [(directory, id)];
      assert one[..0] == [];
      assert NOTHING.Plus(Explore(w, directory, id)) == Explore(w, directory, id);
    }
  }

  lemma StackEmpty(w: Walk, found: Found)
    ensures PlainTree(w) ==> found.Plus(ExploreAll(w, [])) == found
  {
    PlusNothing(found);
  }

  lemma VisitedShrinks(w: Walk, seen: set<Path>, p: Path)
    requires w.options.followSymlinks && w.files.Finite() && p in w.files.realPaths && p !in seen
    ensures forall a, b :: Remaining(w, seen + {p}, a) < Remaining(w, seen, b)
  {
    var all := w.files.realPaths;
    assert all - seen == (all - (seen + {p})) + {p};
  }

  /** With links followed the size of the stack does not matter for what remains. */
  lemma RemainingIgnoresStack(w: Walk, seen: set<Path>)
    requires w.options.followSymlinks && w.files.Finite()
    ensures forall a, b :: Remaining(w, seen, a) == Remaining(w, seen, b)
  {
  }

  /** The top of the stack contributes what its listing holds. */
  lemma StackTop(w: Walk, stack: Pending, directory: Path, id: string)
    requires stack != [] && stack[|stack| - 1] == (directory, id)
    ensures PlainTree(w) ==>
      && ExploreAll(w, stack) == ExploreAll(w, stack[..|stack| - 1]).Plus(Explore(w, directory, id))
      && Explore(w, directory, id)
           == (if w.files.readDir(directory).None? then NOTHING
               else ExploreItems(w, directory, id, w.files.readDir(directory).value))
  {
    hide ExploreItems;
  }

  lemma PopUnreadable(w: Walk, stack: Pending, directory: Path, id: string, seen: set<Path>)
    requires stack != [] && stack[|stack| - 1] == (directory, id) && w.files.Finite()
    requires w.files.readDir(directory).None?
    ensures PlainTree(w) ==>
      && ExploreAll(w, stack[..|stack| - 1]) == ExploreAll(w, stack)
      && Remaining(w, seen, stack[..|stack| - 1]) < Remaining(w, seen, stack)
  {
    StackTop(w, stack, directory, id);
    hide Explore, ExploreAll;
    if PlainTree(w) {
      PlusNothing(ExploreAll(w, stack[..|stack| - 1]));
    }
  }

  /** Reading the top directory keeps the total and leaves less to do. */
  lemma PopRead(w: Walk, stack: Pending, directory: Path, id: string, items: seq<Option<Name>>,
                before: Found, here: Found, pending: Pending, seen: set<Path>)
    requires stack != [] && stack[|stack| - 1] == (directory, id) && w.files.Finite()
    requires w.files.readDir(directory) == Some(items)
    requires PlainTree(w) ==>
      here.Plus(ExploreAll(w, pending))
        == ExploreItems(w, directory, id, items).Plus(ExploreAll(w, stack[..|stack| - 1]))
    requires |pending| < |stack| + |here.entries|
    ensures PlainTree(w) ==>
      && before.Plus(here).Plus(ExploreAll(w, pending)) == before.Plus(ExploreAll(w, stack))
      && Remaining(w, seen, pending) < Remaining(w, seen, stack)
  {
    StackTop(w, stack, directory, id);
    hide Explore, ExploreAll, ExploreItems;
    if PlainTree(w) {
      Exchange(before, here, ExploreItems(w, directory, id, items), ExploreAll(w, stack[..|stack| - 1]),
               ExploreAll(w, pending));
    }
  }

  lemma Exchange(before: Found, here: Found, a: Found, b: Found, c: Found)
    requires here.Plus(c) == a.Plus(b)
    ensures before.Plus(here).Plus(c) == before.Plus(b.Plus(a))
    ensures |here.entries| + |c.entries| == |b.Plus(a).entries|
  {
    assert here.entries + c.entries == a.entries + b.entries == b.entries + a.entries;
    assert here.withheld + c.withheld == a.withheld + b.withheld == b.withheld + a.withheld;
    assert before.entries + here.entries + c.entries == before.entries + (here.entries + c.entries);
    assert before.withheld + here.withheld + c.withheld == before.withheld + (here.withheld + c.withheld);
    assert |here.entries + c.entries| == |here.entries| + |c.entries|;
  }

  lemma StackCollision(w: Walk, stack: Pending, directory: Path, id: string, items: seq<Option<Name>>,
                       found: Found, total: Found, m: multiset<Entry>, first: Path, second: Path)
    requires PlainTree(w) && stack != [] && stack[|stack| - 1] == (directory, id)
    requires w.files.readDir(directory) == Some(items)
    requires found.Plus(ExploreAll(w, stack)) == total
    requires Collides(m + found.entries + ExploreItems(w, directory, id, items).entries, first, second)
    ensures Collides(m + total.entries, first, second)
  {
    StackTop(w, stack, directory, id);
    hide Explore, ExploreAll, ExploreItems, Collides;
    MoreEntriesStillCollide(m + found.entries + ExploreItems(w, directory, id, items).entries, m + total.entries,
                            first, second);
  }

  lemma CollisionShows(m: multiset<Entry>, previous: Entry, entry: Entry)
    requires previous in m && previous.id == entry.id
    ensures Collides(m + multiset{entry}, previous.path, entry.path)
  {
    var n := m + multiset{entry};
    if previous == entry {
      assert n[entry] > 1;
    } else {
      assert previous in n && entry in n;
    }
  }

  lemma PlusEntries(m: multiset<Entry>, before: multiset<Entry>, found: Found)
    ensures found.entries == before ==> m + found.entries == m + before
    ensures forall e :: found.entries == before + multiset{e} ==> m + found.entries == m + before + multiset{e}
    ensures before + multiset{} == before
  {
  }

  lemma CountsInsert(m: multiset<Entry>, e: Entry)
    ensures Total(m + multiset{e}, MediaWeight) == Total(m, MediaWeight) + MediaWeight(e)
    ensures Total(m + multiset{e}, SizeOf) == Total(m, SizeOf) + SizeOf(e)
  {
    TotalInsert(m, e, MediaWeight);
    TotalInsert(m, e, SizeOf);
  }
}
