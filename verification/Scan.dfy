/** A whole scan, and what its result does and does not depend on. */
module Scan {
  import opened Prelude
  import opened Identity
  import opened Entries
  import opened FileSystem
  import opened Traversal
  import opened Following
  import opened LinkOrder
  import opened Shares
  import opened Visibility
  import opened Reading
  import opened ShareOrder
  import opened CatalogSpec
  import opened CatalogBuilder
  import opened Settling

  /** The part of the configuration a scan reads. */
  datatype Config = Config(
    shares: seq<Share>, recursive: bool, followSymlinks: bool, includeHidden: bool,
    settleSeconds: nat, rescanSeconds: nat)
  {
    function SettleTime(): nat {
      settleSeconds * NANOS_PER_SECOND
    }

    function RescanInterval(): nat {
      rescanSeconds * NANOS_PER_SECOND
    }

    function Options(minimumAge: nat, now: int): ScanOptions {
      ScanOptions(recursive, followSymlinks, includeHidden, minimumAge, now)
    }
  }

  ghost predicate AllResolve(host: Host, files: Files, options: ScanOptions, shares: seq<Share>) {
    forall s :: s in shares ==> ShareRoot(host, files, options, s).Some?
  }

  /** The scan of the first `i` shares succeeds, and the next share fails with this error. */
  ghost predicate FailsAt(host: Host, files: Files, options: ScanOptions, shares: seq<Share>, i: nat, error: ScanError)
    requires files.Finite() && i < |shares|
  {
    var before := ExploreShares(host, files, options, shares[..i]);
    && before.Some? && DistinctIds(before.value.entries)
    && match error
       case ResolveShare(name, path) =>
         var root := files.canonicalize(shares[i].path);
         && ShareRoot(host, files, options, shares[i]).None?
         && name == shares[i].name && path == if root.Some? then root.value else shares[i].path
       case IdCollision(first, second) =>
         var upTo := ExploreShares(host, files, options, shares[..i + 1]);
         upTo.Some? && Collides(upTo.value.entries, first, second)
  }

  /**
   * What a scan promises: it succeeds exactly when every share resolves and no identifier occurs
   * twice among all the entries there are, and then the catalog is that of these entries.
   */
  ghost predicate Meets(host: Host, files: Files, options: ScanOptions, shares: seq<Share>,
                        r: Result<CatalogScan, ScanError>)
    requires files.Finite()
  {
    var total := ExploreShares(host, files, options, shares);
    && (r.Ok? <==> total.Some? && DistinctIds(total.value.entries))
    && (r.Ok? ==> IsCatalogOf(r.value.catalog, total.value.entries) && r.value.unsettledFiles == |total.value.withheld|)
    && (r.Err? ==> exists i :: 0 <= i < |shares| && FailsAt(host, files, options, shares, i, r.error))
  }

  /** `scan_with_minimum_age`. */
  method ScanWithMinimumAge(host: Host, files: Files, config: Config, minimumAge: nat, now: int)
    returns (r: Result<CatalogScan, ScanError>)
    requires files.Finite()
    ensures Meets(host, files, config.Options(minimumAge, now), config.shares, r)
  {
    hide Inspect, Walk.Id, Indexes, Linked, Rooted, ListsSorted, ExploreShare, ExploreShares, DistinctIds, Collides,
         ShareRoot, Total;
    var options, shares := config.Options(minimumAge, now), config.shares;
    var catalog := new Catalog.Empty();
    var unsettled := 0;
    ghost var found := NOTHING;
    NoShares(host, files, options, shares);
    for i := 0 to |shares|
      invariant fresh(catalog) && catalog.Holds(found.entries) && catalog.Counts(found.entries)
      invariant unsettled == |found.withheld|
      invariant ExploreShares(host, files, options, shares[..i]) == Some(found)
    {
      HoldsIndexed(catalog.entries, found.entries);
      var result;
      ghost var here;
      result, here := catalog.ScanShare(host, files, shares[i], options, found.entries);
      OneMoreShare(host, files, options, shares, i);
      if result.Err? {
        assert FailsAt(host, files, options, shares, i, result.error);
        FailureIsFinal(host, files, options, shares, i, result.error);
        return Err(result.error);
      }
      found := found.Plus(here);
      unsettled := unsettled + result.value;
    }
    assert shares[..|shares|] == shares;
    HoldsIndexed(catalog.entries, found.entries);
    catalog.SortChildren();
    catalog.updateId := catalog.ContentFingerprint();
    return Ok(CatalogScan(catalog.Value(), unsettled));
  }

  lemma HoldsIndexed(entries: map<string, Entry>, m: multiset<Entry>)
    requires Indexes(entries, m)
    ensures SelfIndexed(entries) && DistinctIds(m)
  {
  }

  lemma NoShares(host: Host, files: Files, options: ScanOptions, shares: seq<Share>)
    requires files.Finite()
    ensures ExploreShares(host, files, options, shares[..0]) == Some(NOTHING)
  {
  }

  lemma BothAssociates(a: Option<Found>, b: Option<Found>, c: Option<Found>)
    ensures Both(a, Both(b, c)) == Both(Both(a, b), c)
  {
    if a.Some? && b.Some? && c.Some? {
      var x, y, z := a.value, b.value, c.value;
      assert x.entries + (y.entries + z.entries) == x.entries + y.entries + z.entries;
      assert x.withheld + (y.withheld + z.withheld) == x.withheld + y.withheld + z.withheld;
    }
  }

  lemma {:induction false} SharesConcat(host: Host, files: Files, options: ScanOptions, a: seq<Share>, b: seq<Share>)
    requires files.Finite()
    ensures ExploreShares(host, files, options, a + b)
         == Both(ExploreShares(host, files, options, a), ExploreShares(host, files, options, b))
  {
    hide ExploreShare, Both;
    if a == [] {
      assert a + b == b;
      BothNothing(ExploreShares(host, files, options, b));
    } else {
      assert (a + b)[0] == a[0] && (a + b)[1..] == a[1..] + b;
      SharesConcat(host, files, options, a[1..], b);
      BothAssociates(ExploreShare(host, files, options, a[0]), ExploreShares(host, files, options, a[1..]),
                     ExploreShares(host, files, options, b));
    }
  }

  lemma BothNothing(a: Option<Found>)
    ensures Both(Some(NOTHING), a) == a == Both(a, Some(NOTHING))
  {
    if a.Some? {
      PlusNothing(a.value);
    }
  }

  lemma OneMoreShare(host: Host, files: Files, options: ScanOptions, shares: seq<Share>, i: nat)
    requires files.Finite() && i < |shares|
    ensures ExploreShares(host, files, options, shares[..i + 1])
         == Both(ExploreShares(host, files, options, shares[..i]), ExploreShare(host, files, options, shares[i]))
    ensures ShareRoot(host, files, options, shares[i]).None? <==> ExploreShare(host, files, options, shares[i]).None?
  {
    var one := [shares[i]];
    assert shares[..i + 1] == shares[..i] + one;
    SharesConcat(host, files, options, shares[..i], one);
    assert one[1..] == [];
    BothNothing(ExploreShare(host, files, options, shares[i]));
    hide Both, ShareRoot, Contents;
    assert ExploreShares(host, files, options, one)
      == Both(ExploreShare(host, files, options, shares[i]), Some(NOTHING));
  }

  /** Whatever the remaining shares hold, a failure on the way stands. */
  lemma FailureIsFinal(host: Host, files: Files, options: ScanOptions, shares: seq<Share>, i: nat, error: ScanError)
    requires files.Finite() && i < |shares| && FailsAt(host, files, options, shares, i, error)
    ensures var total := ExploreShares(host, files, options, shares); !(total.Some? && DistinctIds(total.value.entries))
  {
    hide ExploreShares, ExploreShare, DistinctIds, Collides, ShareRoot;
    OneMoreShare(host, files, options, shares, i);
    assert shares == shares[..i + 1] + shares[i + 1..];
    SharesConcat(host, files, options, shares[..i + 1], shares[i + 1..]);
    var total := ExploreShares(host, files, options, shares);
    if total.Some? {
      MoreEntriesStillCollide(ExploreShares(host, files, options, shares[..i + 1]).value.entries, total.value.entries,
                              error.first, error.second);
      CollidesIsCollision(total.value.entries, error.first, error.second);
    }
  }

  // --- Theorems about scans ------------------------------------------------------------------

  /**
   * The order in which directories list their items and the order of the configured shares do not
   * matter, unless links are followed to a directory that has two names: both scans succeed with
   * equal results or both fail, and when every share resolves both failures are identifier
   * collisions.
   */
  lemma ScanIsOrderFree(host: Host, a: Files, b: Files, options: ScanOptions, xs: seq<Share>, ys: seq<Share>,
                        r: Result<CatalogScan, ScanError>, s: Result<CatalogScan, ScanError>)
    requires a.Finite() && b.Finite() && SameUpToOrder(a, b) && multiset(xs) == multiset(ys)
    requires forall share :: share in xs ==> WithoutAliases(host, a, options, share)
    requires Meets(host, a, options, xs, r) && Meets(host, b, options, ys, s)
    ensures r.Ok? == s.Ok?
    ensures r.Ok? ==> r == s
    ensures r.Err? && AllResolve(host, a, options, xs) ==> r.error.IdCollision? && s.error.IdCollision?
  {
    hide IsCatalogOf, DistinctIds, ExploreShares, WithoutAliases;
    FoundIsOrderFree(host, a, b, options, xs, ys);
    if r.Ok? {
      CatalogDetermined(r.value.catalog, s.value.catalog, ExploreShares(host, a, options, xs).value.entries);
    } else if AllResolve(host, a, options, xs) {
      forall share | share in ys
        ensures ShareRoot(host, b, options, share).Some?
      {
        assert share in multiset(xs);
        assert ShareRoot(host, a, options, share).Some?;
      }
    }
  }

  /**
   * The converse: if all shares resolve and one of them holds an entry in a directory with two
   * names, there are two orders of listings that never lead to equal successful scans.
   */
  lemma AliasedScansDiffer(host: Host, files: Files, options: ScanOptions, shares: seq<Share>, i: nat, e: Entry,
                           other: Path)
    requires files.Finite() && i < |shares|
    requires forall share :: share in shares ==> ShareRoot(host, files, options, share).Some?
    requires HeldUnderTwoNames(host, files, options, shares[i], e, other) && Finds(host, files, options, shares[i], e)
    ensures var a, b := Towards(files, e), Leading(files, other);
            && a.Finite() && b.Finite() && SameUpToOrder(files, a) && SameUpToOrder(files, b)
            && forall r, s ::
                 Meets(host, a, options, shares, r) && Meets(host, b, options, shares, s) && r.Ok? && s.Ok?
                 ==> r.value.catalog.entries != s.value.catalog.entries
  {
    var a, b := Towards(files, e), Leading(files, other);
    AliasedSharesDiffer(host, files, options, shares, i, e, other);
    hide ShareRoot, ExploreShares, HeldUnderTwoNames, SameUpToOrder, Meets, Towards, Leading;
    forall r, s |
      Meets(host, a, options, shares, r) && Meets(host, b, options, shares, s) && r.Ok? && s.Ok?
      ensures r.value.catalog.entries != s.value.catalog.entries
    {
      MoreInOneCatalog(host, a, b, options, shares, r, s, e);
    }
  }

  lemma MoreInOneCatalog(host: Host, a: Files, b: Files, options: ScanOptions, shares: seq<Share>,
                         r: Result<CatalogScan, ScanError>, s: Result<CatalogScan, ScanError>, e: Entry)
    requires a.Finite() && b.Finite()
    requires Meets(host, a, options, shares, r) && Meets(host, b, options, shares, s) && r.Ok? && s.Ok?
    requires HeldTimes(ExploreShares(host, a, options, shares), e).found
           > HeldTimes(ExploreShares(host, b, options, shares), e).found
    ensures r.value.catalog.entries != s.value.catalog.entries
  {
    hide ExploreShares, IsCatalogOf;
    var m, n := ExploreShares(host, a, options, shares).value.entries,
      ExploreShares(host, b, options, shares).value.entries;
    assert m[e] <= 1;
    OnlyInOne(r.value.catalog, s.value.catalog, m, n, e);
  }

  /** Every catalog a scan produces, with or without following links, is a well-formed tree index. */
  lemma ScannedCatalogIsTree(host: Host, files: Files, options: ScanOptions, shares: seq<Share>,
                             r: Result<CatalogScan, ScanError>)
    requires files.Finite() && Meets(host, files, options, shares, r) && r.Ok?
    ensures var c := r.value.catalog;
            && ROOT_ID in c.children && ROOT_ID !in c.entries
            && (forall k :: k in c.children && k != ROOT_ID ==> IsContainer(c.entries, k))
            && (forall k, id :: k in c.children && id in c.children[k] ==>
                 id in c.entries && c.entries[id].parentId == k)
            && (forall id :: id in c.entries ==>
                  && c.entries[id].parentId in c.children
                  && id in c.children[c.entries[id].parentId]
                  && ReachesRoot(c.entries, id))
  {
    var c := r.value.catalog;
    forall id | id in c.entries
      ensures c.entries[id].parentId in c.children && id in c.children[c.entries[id].parentId]
    {
      assert c.entries[id].parentId == ROOT_ID || IsContainer(c.entries, c.entries[id].parentId);
    }
  }

  /**
   * On one file system, if the unguarded scan succeeds then so does the guarded one; its catalog
   * is the unguarded one without the withheld files, in the same order, and the file counts add up.
   */
  lemma GuardedScanConserves(host: Host, files: Files, config: Config, minimumAge: nat, now: int,
                             r: Result<CatalogScan, ScanError>, s: Result<CatalogScan, ScanError>)
    requires files.Finite()
    requires Meets(host, files, config.Options(0, now), config.shares, r)
    requires Meets(host, files, config.Options(minimumAge, now), config.shares, s)
    requires r.Ok?
    ensures s.Ok?
    ensures r.value.unsettledFiles == 0
    ensures s.value.catalog.fileCount + s.value.unsettledFiles == r.value.catalog.fileCount
    ensures var full, guarded := r.value.catalog.entries, s.value.catalog.entries;
            var total := ExploreShares(host, files, config.Options(minimumAge, now), config.shares);
            && total.Some?
            && (forall id :: id in guarded ==> id in full && full[id] == guarded[id])
            && (forall id :: id in full && id !in guarded ==> full[id] in total.value.withheld && full[id].kind.Media?)
            && (forall id :: IsContainer(full, id) ==> IsContainer(guarded, id))
    ensures var full, guarded := r.value.catalog, s.value.catalog;
            && guarded.children.Keys == full.children.Keys
            && forall k :: k in full.children ==> guarded.children[k] == Kept(full.children[k], guarded.entries)
  {
    hide Linked, Rooted, ListsSorted, ExploreShares;
    var free, guarded := config.Options(0, now), config.Options(minimumAge, now);
    NoMinimumPasses(files, free);
    GuardConserves(host, files, free, guarded, config.shares);
    var total := ExploreShares(host, files, guarded, config.shares).value;
    var all := ExploreShares(host, files, free, config.shares).value;
    assert all == Released(total);
    FewerStillDistinct(total.entries, all.entries);
    WithheldAreMedia(host, files, guarded, config.shares);
    TotalSplit(total.entries, total.withheld, MediaWeight);
    TotalOfOnes(total.withheld, MediaWeight);
    Restriction(r.value.catalog, s.value.catalog, total);
    KeptLists(r.value.catalog, s.value.catalog, all.entries, total.entries);
  }

  lemma FewerStillDistinct(a: multiset<Entry>, b: multiset<Entry>)
    requires a <= b && DistinctIds(b)
    ensures DistinctIds(a)
  {
    forall e
      ensures a[e] <= 1
    {
      assert a[e] <= b[e];
    }
  }

  lemma Restriction(full: Snapshot, guarded: Snapshot, total: Found)
    requires IsCatalogOf(full, total.entries + total.withheld) && IsCatalogOf(guarded, total.entries)
    requires forall e :: e in total.withheld ==> e.kind.Media?
    ensures forall id :: id in guarded.entries ==> id in full.entries && full.entries[id] == guarded.entries[id]
    ensures forall id :: id in full.entries && id !in guarded.entries ==>
              full.entries[id] in total.withheld && full.entries[id].kind.Media?
    ensures forall id :: IsContainer(full.entries, id) <==> IsContainer(guarded.entries, id)
    ensures guarded.children.Keys == full.children.Keys
  {
    hide Rooted, ListsSorted, Total, Fingerprint;
    var m := total.entries + total.withheld;
    forall id | id in guarded.entries
      ensures id in full.entries && full.entries[id] == guarded.entries[id]
    {
      assert guarded.entries[id] in m;
    }
    forall id | id in full.entries
      ensures id in guarded.entries || full.entries[id] in total.withheld
    {
      assert full.entries[id] in m;
    }
    hide Indexes;
    forall id
      ensures IsContainer(full.entries, id) <==> IsContainer(guarded.entries, id)
    {
    }
    assert forall k :: k in full.children <==> k == ROOT_ID || IsContainer(full.entries, k);
    assert forall k :: k in guarded.children <==> k == ROOT_ID || IsContainer(guarded.entries, k);
  }

  lemma {:induction false} WithheldAreMedia(host: Host, files: Files, options: ScanOptions, shares: seq<Share>)
    requires files.Finite()
    ensures var f := ExploreShares(host, files, options, shares);
            f.Some? ==> forall e :: e in f.value.withheld ==> e.kind.Media?
  {
    if shares != [] {
      var r := ShareRoot(host, files, options, shares[0]);
      if r.Some? {
        RootIsWalk(host, files, options, shares[0]);
        if options.followSymlinks {
          forall e
            ensures e in Followed(r.value.0).withheld ==> e.kind.Media?
          {
            VisitsWithholdMedia(r.value.0, RootVisits(r.value.0), e);
          }
        } else {
          WalkWithholdsMedia(r.value.0, r.value.0.root, r.value.1.id);
        }
      }
      hide ShareRoot, Followed, Explore;
      WithheldAreMedia(host, files, options, shares[1..]);
    }
  }

  lemma {:induction false} ListingWithholdsMedia(w: Walk, directory: Path, id: string, items: seq<Option<Name>>,
                                                 e: Entry)
    ensures e in Direct(w, directory, id, items).withheld ==> e.kind.Media?
    decreases |items|
  {
    hide Walk.Id;
    if items != [] {
      ListingWithholdsMedia(w, directory, id, items[..|items| - 1], e);
    }
  }

  lemma {:induction false} VisitsWithholdMedia(w: Walk, visits: Pending, e: Entry)
    ensures e in DirectSum(w, visits).withheld ==> e.kind.Media?
    decreases |visits|
  {
    hide Direct;
    if visits != [] {
      var last := visits[|visits| - 1];
      VisitsWithholdMedia(w, visits[..|visits| - 1], e);
      if w.files.readDir(last.0).Some? {
        ListingWithholdsMedia(w, last.0, last.1, w.files.readDir(last.0).value, e);
      }
    }
  }

  lemma {:induction false} WalkWithholdsMedia(w: Walk, directory: Path, id: string)
    requires PlainTree(w)
    ensures forall e :: e in Explore(w, directory, id).withheld ==> e.kind.Media?
    decreases Height(w, directory), 2, 0
  {
    var items := w.files.readDir(directory);
    if items.Some? {
      ItemsWithholdMedia(w, directory, id, items.value);
    }
  }

  lemma {:induction false} ItemsWithholdMedia(w: Walk, directory: Path, id: string, items: seq<Option<Name>>)
    requires PlainTree(w)
    ensures forall e :: e in ExploreItems(w, directory, id, items).withheld ==> e.kind.Media?
    decreases Height(w, directory), 1, |items|
  {
    hide Inspect, Walk.Id;
    if items != [] {
      var verdict := Inspect(w, directory, id, items[0]);
      if verdict.Descend? {
        WalkWithholdsMedia(w, verdict.entry.path, verdict.entry.id);
      }
      ItemsWithholdMedia(w, directory, id, items[1..]);
    }
  }

  // --- Published files -----------------------------------------------------------------------

  /** A media entry of a regular file that had reached the minimum age, with the file's own size and date. */
  predicate Settled(files: Files, options: ScanOptions, e: Entry) {
    e.kind.Media? ==>
      var m := Observed(files, options, e.path);
      && m.Some? && m.value.fileType.RegularFile?
      && e.size == m.value.len && DatedAt(m.value, e.modifiedSeconds)
      && OldEnough(m.value, options.minimumAge, options.now)
  }

  lemma ItemIsSettled(w: Walk, directory: Path, id: string, item: Option<Name>, e: Entry)
    requires e in DirectItem(w, directory, id, item).entries
    ensures Settled(w.files, w.options, e)
  {
    VerdictMeans(w, directory, id, item);
    VerdictIsAt(w, directory, id, item);
    hide Inspect, Considered, DatedAt, OldEnough, IsStem;
  }

  lemma VerdictIsAt(w: Walk, directory: Path, id: string, item: Option<Name>)
    ensures var v := Inspect(w, directory, id, item);
            !v.Skip? ==> item.Some? && v.entry.path == directory + [item.value] && v.entry.kind.Container? == v.Descend?
  {
    hide Walk.Id;
  }

  lemma {:induction false} ListingIsSettled(w: Walk, directory: Path, id: string, items: seq<Option<Name>>, e: Entry)
    requires e in Direct(w, directory, id, items).entries
    ensures Settled(w.files, w.options, e)
    decreases |items|
  {
    hide DirectItem, Settled;
    var front, last := items[..|items| - 1], items[|items| - 1];
    if e in DirectItem(w, directory, id, last).entries {
      ItemIsSettled(w, directory, id, last, e);
    } else {
      ListingIsSettled(w, directory, id, front, e);
    }
  }

  lemma {:induction false} VisitsAreSettled(w: Walk, visits: Pending, e: Entry)
    requires e in DirectSum(w, visits).entries
    ensures Settled(w.files, w.options, e)
    decreases |visits|
  {
    hide Direct, Settled;
    var front, last := visits[..|visits| - 1], visits[|visits| - 1];
    if e in DirectVisit(w, last).entries {
      ListingIsSettled(w, last.0, last.1, w.files.readDir(last.0).value, e);
    } else {
      VisitsAreSettled(w, front, e);
    }
  }

  lemma WalkIsSettled(w: Walk, e: Entry)
    requires w.files.Finite() && e in Contents(w, w.Id('d', w.root)).entries
    ensures Settled(w.files, w.options, e)
  {
    if w.options.followSymlinks {
      hide Settled, DirectSum, FollowedVisits;
      VisitsAreSettled(w, RootVisits(w), e);
    } else {
      FoundIsVisible(w, w.root, e);
      hide Settled, VerdictAt, Visible, Explore, Walk.Id;
      AcceptedIsSettled(w, e);
    }
  }

  lemma AcceptedIsSettled(w: Walk, e: Entry)
    requires e.path != [] && VerdictAt(w, e.path) in {Add(e), Descend(e)}
    ensures Settled(w.files, w.options, e)
  {
    var item := Some(e.path[|e.path| - 1]);
    VerdictMeans(w, Parent(e.path), w.Id('d', Parent(e.path)), item);
    VerdictIsAt(w, Parent(e.path), w.Id('d', Parent(e.path)), item);
    hide Inspect, Considered, DatedAt, OldEnough, IsStem, Walk.Id;
  }

  lemma {:induction false} SharesAreSettled(host: Host, files: Files, options: ScanOptions, shares: seq<Share>,
                                            e: Entry)
    requires files.Finite()
    requires var total := ExploreShares(host, files, options, shares); total.Some? && e in total.value.entries
    ensures Settled(files, options, e)
  {
    var r := ShareRoot(host, files, options, shares[0]);
    RootIsWalk(host, files, options, shares[0]);
    RootId(r.value.0);
    hide Settled, Contents, ShareRoot;
    if e in ExploreShare(host, files, options, shares[0]).value.entries {
      if e in Contents(r.value.0, r.value.1.id).entries {
        ShareIdIs(host, files, options, shares[0]);
        WalkIsSettled(r.value.0, e);
      } else {
        ShareIdIs(host, files, options, shares[0]);
        ContainerIsSettled(files, options, e);
      }
    } else {
      SharesAreSettled(host, files, options, shares[1..], e);
    }
  }

  lemma ContainerIsSettled(files: Files, options: ScanOptions, e: Entry)
    requires e.kind.Container?
    ensures Settled(files, options, e)
  {
  }

  lemma ShareIdIs(host: Host, files: Files, options: ScanOptions, share: Share)
    ensures var r := ShareRoot(host, files, options, share);
            r.Some? ==> r.value.1.id == r.value.0.Id('d', r.value.0.root) && r.value.1.kind.Container?
  {
    var r := ShareRoot(host, files, options, share);
    if r.Some? {
      RootId(r.value.0);
    }
  }

  /**
   * Every media file in a scanned catalog, links followed or not, is a regular file that had
   * reached the minimum age at the scan's clock reading.
   */
  lemma PublishedMediaIsSettled(host: Host, files: Files, options: ScanOptions, shares: seq<Share>,
                                r: Result<CatalogScan, ScanError>, id: string)
    requires files.Finite() && Meets(host, files, options, shares, r) && r.Ok?
    requires id in r.value.catalog.entries
    ensures Settled(files, options, r.value.catalog.entries[id])
  {
    hide Settled, Linked, Rooted, ListsSorted, ExploreShares;
    SharesAreSettled(host, files, options, shares, r.value.catalog.entries[id]);
  }

  /** Whatever one share holds is in the catalog. */
  lemma ShareIsPublished(host: Host, files: Files, options: ScanOptions, shares: seq<Share>, share: Share,
                         r: Result<CatalogScan, ScanError>)
    requires files.Finite() && Meets(host, files, options, shares, r) && r.Ok? && share in shares
    ensures var here := ExploreShare(host, files, options, share);
            && here.Some?
            && (forall e :: e in here.value.entries ==>
                 e.id in r.value.catalog.entries && r.value.catalog.entries[e.id] == e)
            && |here.value.withheld| <= r.value.unsettledFiles
  {
    var i :| 0 <= i < |shares| && shares[i] == share;
    ExtractShare(host, files, options, shares, i);
    hide ExploreShare, ExploreShares, Linked, Rooted, ListsSorted, DistinctIds;
    var here := ExploreShare(host, files, options, share).value;
    var total := ExploreShares(host, files, options, shares).value;
    assert here.entries <= total.entries;
    MultisetSize(here.withheld, total.withheld);
  }

  lemma MultisetSize<T>(a: multiset<T>, b: multiset<T>)
    requires a <= b
    ensures |a| <= |b|
  {
    assert b == a + (b - a);
  }

  /** The directory of `path` is read below the root of the share, and the path is listed there. */
  ghost predicate ReadsItem(host: Host, files: Files, options: ScanOptions, share: Share, path: Path)
    requires files.Finite()
  {
    var r := ShareRoot(host, files, options, share);
    r.Some? && r.value.0.files.Finite() && ListedThere(r.value.0, path) && Reads(r.value.0, Parent(path))
  }

  /** The same, whatever the order of listings. */
  ghost predicate SurelyReadsItem(host: Host, files: Files, options: ScanOptions, share: Share, path: Path)
    requires files.Finite()
  {
    var r := ShareRoot(host, files, options, share);
    r.Some? && r.value.0.files.Finite() && ListedThere(r.value.0, path) && SurelyReads(r.value.0, Parent(path))
  }

  /** Every scan of these files reads the item, whatever the order of listings, exactly when it is surely read. */
  lemma SurelyIsRead(host: Host, files: Files, options: ScanOptions, share: Share, path: Path)
    requires files.Finite()
    ensures SurelyReadsItem(host, files, options, share, path) <==>
            forall b: Files :: b.Finite() && SameUpToOrder(files, b) ==> ReadsItem(host, b, options, share, path)
  {
    RootIsWalk(host, files, options, share);
    hide ShareRoot, Reads, SurelyReads, Listed, SameUpToOrder, Files.Finite;
    var r := ShareRoot(host, files, options, share);
    ReorderedFiles(files);
    if SurelyReadsItem(host, files, options, share, path) {
      forall b: Files | b.Finite() && SameUpToOrder(files, b)
        ensures ReadsItem(host, b, options, share, path)
      {
        SurelyReadInOrder(host, files, b, options, share, path);
      }
    } else if r.Some? && ListedThere(r.value.0, path) {
      ReadInEveryOrderIff(r.value.0, Parent(path));
      var u :| Reordered(r.value.0, u) && !Reads(u, Parent(path));
      OtherOrder(host, files, options, share, u);
      assert !ReadsItem(host, u.files, options, share, path);
    }
  }

  lemma ReorderedFiles(files: Files)
    ensures SameUpToOrder(files, files)
  {
  }

  lemma OtherOrder(host: Host, files: Files, options: ScanOptions, share: Share, u: Walk)
    requires files.Finite() && ShareRoot(host, files, options, share).Some?
    requires Reordered(ShareRoot(host, files, options, share).value.0, u)
    ensures u.files.Finite() && SameUpToOrder(files, u.files)
    ensures var s := ShareRoot(host, u.files, options, share); s.Some? && s.value.0 == u
  {
    RootIsWalk(host, files, options, share);
    hide ShareRoot;
    SameWalkReordered(host, files, u.files, options, share);
    var v := ShareRoot(host, files, options, share).value.0;
    assert v.(files := u.files) == u;
  }

  lemma SurelyReadInOrder(host: Host, files: Files, b: Files, options: ScanOptions, share: Share, path: Path)
    requires files.Finite() && b.Finite() && SameUpToOrder(files, b)
    requires SurelyReadsItem(host, files, options, share, path)
    ensures ReadsItem(host, b, options, share, path)
  {
    SameWalkReordered(host, files, b, options, share);
    RootIsWalk(host, b, options, share);
    hide ShareRoot, Reads, SurelyReads, Listed;
    var v, u := ShareRoot(host, files, options, share).value.0, ShareRoot(host, b, options, share).value.0;
    ReadInEveryOrderIff(v, Parent(path));
    ListedReordered(v, u, Parent(path), path[|path| - 1]);
  }

  /** The file at `path` kept its metadata between two looks at the file system; it is not dated in the future. */
  predicate KeptMetadata(before: Files, earlier: ScanOptions, after: Files, later: ScanOptions, path: Path) {
    var m := Observed(before, earlier, path);
    m == Observed(after, later, path) && m.Some? && m.value.modified.Some? && m.value.modified.value <= earlier.now
  }

  /**
   * An entry withheld from a share by one scan is in the catalog of a later successful scan of the
   * same share that is the settle time later and reads its directory.
   */
  lemma WithheldIsInLaterCatalog(host: Host, before: Files, earlier: ScanOptions, after: Files, later: ScanOptions,
                                 shares: seq<Share>, share: Share, r: Result<CatalogScan, ScanError>, e: Entry)
    requires before.Finite() && after.Finite() && LaterOptions(earlier, later)
    requires later.now >= earlier.now + earlier.minimumAge
    requires var held := ExploreShare(host, before, earlier, share); held.Some? && e in held.value.withheld
    requires before.canonicalize(share.path) == after.canonicalize(share.path)
    requires KeptMetadata(before, earlier, after, later, e.path) && ReadsItem(host, after, later, share, e.path)
    requires share in shares && Meets(host, after, later, shares, r) && r.Ok?
    ensures e.id in r.value.catalog.entries && r.value.catalog.entries[e.id] == e
  {
    ShareIsPublished(host, after, later, shares, share, r);
    WalksOfOneShare(host, before, earlier, after, later, share);
    BelowShare(host, before, earlier, share);
    BelowShare(host, after, later, share);
    hide Meets, Contents, Reads, ListedThere, Walk.Id, ShareRoot, ExploreShare, ReadsItem, KeptMetadata, LaterOptions,
         Ripened;
    var v, w := ShareRoot(host, before, earlier, share).value.0, ShareRoot(host, after, later, share).value.0;
    RipenedWalks(v, w, e.path);
    ItemIsRead(host, after, later, share, e.path);
    WithheldIsPublishedLater(v, w, e);
  }

  lemma ItemIsRead(host: Host, files: Files, options: ScanOptions, share: Share, path: Path)
    requires files.Finite() && ReadsItem(host, files, options, share, path)
    ensures var r := ShareRoot(host, files, options, share);
            r.Some? && r.value.0.files.Finite() && ListedThere(r.value.0, path) && Reads(r.value.0, Parent(path))
  {
    hide ShareRoot, Reads, Listed;
  }

  lemma RipenedWalks(v: Walk, w: Walk, path: Path)
    requires v.host == w.host && v.media == w.media && v.root == w.root && LaterOptions(v.options, w.options)
    requires w.options.now >= v.options.now + v.options.minimumAge
    requires KeptMetadata(v.files, v.options, w.files, w.options, path)
    ensures Ripened(v, w, path)
  {
  }

  lemma WalksOfOneShare(host: Host, before: Files, earlier: ScanOptions, after: Files, later: ScanOptions, share: Share)
    requires before.canonicalize(share.path) == after.canonicalize(share.path)
    ensures var r, s := ShareRoot(host, before, earlier, share), ShareRoot(host, after, later, share);
            && (r.Some? ==> r.value.0.files == before && r.value.0.options == earlier)
            && (s.Some? ==> s.value.0.files == after && s.value.0.options == later)
            && (r.Some? && s.Some? ==>
                  var v, w := r.value.0, s.value.0; v.host == w.host && v.media == w.media && v.root == w.root)
  {
    hide ObjectId, StableOsHash, ModifiedSeconds;
  }

  /** What a share holds below its own entry. */
  lemma BelowShare(host: Host, files: Files, options: ScanOptions, share: Share)
    requires files.Finite()
    ensures var r := ShareRoot(host, files, options, share);
            var f := ExploreShare(host, files, options, share);
            && r.Some? == f.Some?
            && (r.Some? ==>
                  && r.value.0.files.Finite()
                  && var here := Contents(r.value.0, r.value.0.Id('d', r.value.0.root));
                  && (forall e :: e in here.entries ==> e in f.value.entries)
                  && (forall e :: e in f.value.withheld ==> e in here.withheld))
  {
    RootIsWalk(host, files, options, share);
    ShareIdIs(host, files, options, share);
    hide ShareRoot, Contents, Walk.Id;
  }
}
