/** How the settle guard of one scan relates to an unguarded or later scan. */
module Settling {
  import opened Prelude
  import opened Identity
  import opened FileSystem
  import opened Traversal
  import opened Following
  import opened LinkOrder
  import opened Shares

  /** Every regular file passes the age check of these options. */
  ghost predicate AllPass(files: Files, options: ScanOptions) {
    forall p :: Observed(files, options, p).Some? && Observed(files, options, p).value.fileType.RegularFile?
      ==> IsSettled(Observed(files, options, p).value, options.minimumAge, options.now)
  }

  /** Every regular file of the walk passes its age check. */
  ghost predicate Unguarded(w: Walk) {
    AllPass(w.files, w.options)
  }

  /** The same walk with another age check. */
  ghost predicate SameButAge(v: Walk, w: Walk) {
    && v.host == w.host && v.files == w.files && v.media == w.media && v.root == w.root
    && v.options == w.options.(minimumAge := v.options.minimumAge, now := v.options.now)
  }

  /** What the guard withheld, released. */
  function Released(f: Found): Found {
    Found(f.entries + f.withheld, multiset{})
  }

  function AllReleased(f: Option<Found>): Option<Found> {
    if f.Some? then Some(Released(f.value)) else None
  }

  lemma ReleasedPlus(a: Found, b: Found)
    ensures Released(a).Plus(Released(b)) == Released(a.Plus(b))
  {
    assert (a.entries + a.withheld) + (b.entries + b.withheld) == (a.entries + b.entries) + (a.withheld + b.withheld);
  }

  lemma {:induction false} ExploreReleased(v: Walk, w: Walk, directory: Path, id: string)
    requires PlainTree(v) && PlainTree(w) && SameButAge(v, w) && Unguarded(v)
    ensures Explore(v, directory, id) == Released(Explore(w, directory, id))
    decreases Height(v, directory), 2, 0
  {
    var items := v.files.readDir(directory);
    if items.Some? {
      ItemsReleased(v, w, directory, id, items.value);
    }
  }

  lemma {:induction false} ItemsReleased(v: Walk, w: Walk, directory: Path, id: string, items: seq<Option<Name>>)
    requires PlainTree(v) && PlainTree(w) && SameButAge(v, w) && Unguarded(v)
    ensures ExploreItems(v, directory, id, items) == Released(ExploreItems(w, directory, id, items))
    decreases Height(v, directory), 1, |items|
  {
    if items != [] {
      ItemReleased(v, w, directory, id, items[0]);
      ItemsReleased(v, w, directory, id, items[1..]);
      ReleasedPlus(ExploreItem(w, directory, id, items[0]), ExploreItems(w, directory, id, items[1..]));
    }
  }

  lemma {:induction false} ItemReleased(v: Walk, w: Walk, directory: Path, id: string, item: Option<Name>)
    requires PlainTree(v) && PlainTree(w) && SameButAge(v, w) && Unguarded(v)
    ensures ExploreItem(v, directory, id, item) == Released(ExploreItem(w, directory, id, item))
    decreases Height(v, directory), 0, 0
  {
    VerdictReleased(v, w, directory, id, item);
    OneReleased(v, w, directory, id, item);
    ItemSplits(v, directory, id, item);
    ItemSplits(w, directory, id, item);
    hide Inspect, Walk.Id, Unguarded, Explore, ExploreItem, DirectItem;
    assert Released(NOTHING) == NOTHING;
    var verdict := Inspect(w, directory, id, item);
    if verdict.Descend? {
      ExploreReleased(v, w, verdict.entry.path, verdict.entry.id);
    }
    ReleasedPlus(DirectItem(w, directory, id, item), BelowItem(w, directory, id, item));
  }

  ghost function BelowItem(w: Walk, directory: Path, id: string, item: Option<Name>): Found
    requires PlainTree(w)
  {
    var verdict := Inspect(w, directory, id, item);
    if verdict.Descend? then Explore(w, verdict.entry.path, verdict.entry.id) else NOTHING
  }

  lemma ItemSplits(w: Walk, directory: Path, id: string, item: Option<Name>)
    requires PlainTree(w)
    ensures ExploreItem(w, directory, id, item)
      == DirectItem(w, directory, id, item).Plus(BelowItem(w, directory, id, item))
  {
    hide Inspect, Explore;
    PlusNothing(DirectItem(w, directory, id, item));
  }

  /** The age check alone tells the verdicts apart. */
  lemma VerdictReleased(v: Walk, w: Walk, directory: Path, id: string, item: Option<Name>)
    requires SameButAge(v, w) && Unguarded(v)
    ensures var there := Inspect(w, directory, id, item);
            Inspect(v, directory, id, item) == if there.Withhold? then Add(there.entry) else there
  {
    hide ObjectId, StableOsHash, AbsoluteBytes, RelativeBytes, FileStem, ModifiedSeconds;
  }

  // --- The same with links followed ----------------------------------------------------------

  lemma {:induction false} ListingReleased(v: Walk, w: Walk, directory: Path, id: string, items: seq<Option<Name>>)
    requires SameButAge(v, w) && Unguarded(v)
    ensures Direct(v, directory, id, items) == Released(Direct(w, directory, id, items))
    ensures Subdirectories(v, directory, id, items) == Subdirectories(w, directory, id, items)
    decreases |items|
  {
    hide Inspect, Walk.Id, Unguarded, SameButAge;
    if items == [] {
      assert Released(NOTHING) == NOTHING;
    } else {
      var front, last := items[..|items| - 1], items[|items| - 1];
      ListingReleased(v, w, directory, id, front);
      VerdictReleased(v, w, directory, id, last);
      OneReleased(v, w, directory, id, last);
      ReleasedPlus(Direct(w, directory, id, front), DirectItem(w, directory, id, last));
    }
  }

  lemma OneReleased(v: Walk, w: Walk, directory: Path, id: string, item: Option<Name>)
    requires var there := Inspect(w, directory, id, item);
             Inspect(v, directory, id, item) == if there.Withhold? then Add(there.entry) else there
    ensures DirectItem(v, directory, id, item) == Released(DirectItem(w, directory, id, item))
  {
    hide Inspect, Walk.Id;
    match Inspect(w, directory, id, item) {
      case Skip => assert Released(NOTHING) == NOTHING;
      case Withhold(e) => assert Released(Found(multiset{}, multiset{e})) == Found(multiset{e}, multiset{});
      case Add(e) => assert Released(Found(multiset{e}, multiset{})) == Found(multiset{e}, multiset{});
      case Descend(e) => assert Released(Found(multiset{e}, multiset{})) == Found(multiset{e}, multiset{});
    }
  }

  lemma VisitReleased(v: Walk, w: Walk, x: Visit)
    requires SameButAge(v, w) && Unguarded(v)
    ensures DirectVisit(v, x) == Released(DirectVisit(w, x)) && Below(v, x) == Below(w, x)
  {
    hide Unguarded, Direct, Subdirectories;
    assert Released(NOTHING) == NOTHING;
    if v.files.readDir(x.0).Some? {
      ListingReleased(v, w, x.0, x.1, v.files.readDir(x.0).value);
    }
  }

  /** The age check does not change which directories are read. */
  lemma {:induction false} SameVisits(v: Walk, w: Walk, visited: set<Path>, pending: Pending)
    requires SameButAge(v, w) && Unguarded(v) && v.files.Finite()
    ensures FollowedVisits(v, visited, pending) == FollowedVisits(w, visited, pending)
    decreases |v.files.realPaths - visited|, |pending|
  {
    hide Unguarded, FollowedVisits, Below;
    if pending == [] {
      NoVisits(v, visited);
      NoVisits(w, visited);
    } else {
      var top, rest := pending[|pending| - 1], pending[..|pending| - 1];
      var target := v.files.canonicalize(top.0);
      VisitReleased(v, w, top);
      FollowedOne(v, visited, pending);
      FollowedOne(w, visited, pending);
      if target.None? || target.value in visited {
        SameVisits(v, w, visited, rest);
      } else {
        FewerLeft(v.files.realPaths, visited, target.value);
        SameVisits(v, w, visited + {target.value}, rest + Below(v, top));
      }
    }
  }

  lemma NoVisits(w: Walk, visited: set<Path>)
    requires w.files.Finite()
    ensures FollowedVisits(w, visited, []) == []
  {
  }

  lemma {:induction false} SumReleased(v: Walk, w: Walk, visits: Pending)
    requires SameButAge(v, w) && Unguarded(v)
    ensures DirectSum(v, visits) == Released(DirectSum(w, visits))
    decreases |visits|
  {
    hide Unguarded, DirectVisit, SameButAge;
    if visits == [] {
      assert Released(NOTHING) == NOTHING;
    } else {
      var front, last := visits[..|visits| - 1], visits[|visits| - 1];
      SumReleased(v, w, front);
      VisitReleased(v, w, last);
      ReleasedPlus(DirectSum(w, front), DirectVisit(w, last));
    }
  }

  lemma FollowedReleased(v: Walk, w: Walk)
    requires SameButAge(v, w) && Unguarded(v) && v.files.Finite()
    ensures Followed(v) == Released(Followed(w))
  {
    hide Unguarded, FollowedVisits, DirectSum;
    assert VisitOf(v, v.root) == VisitOf(w, w.root);
    SameVisits(v, w, {}, [VisitOf(v, v.root)]);
    SumReleased(v, w, RootVisits(v));
  }

  lemma ContentsReleased(v: Walk, w: Walk, id: string)
    requires SameButAge(v, w) && Unguarded(v) && v.files.Finite()
    ensures Contents(v, id) == Released(Contents(w, id))
  {
    hide Unguarded, Followed, Explore;
    if v.options.followSymlinks {
      FollowedReleased(v, w);
    } else {
      ExploreReleased(v, w, v.root, id);
    }
  }

  lemma ReleasedBoth(a: Option<Found>, b: Option<Found>)
    ensures Both(AllReleased(a), AllReleased(b)) == AllReleased(Both(a, b))
  {
    if a.Some? && b.Some? {
      ReleasedPlus(a.value, b.value);
    }
  }

  lemma ShareReleased(host: Host, files: Files, free: ScanOptions, guarded: ScanOptions, share: Share)
    requires files.Finite()
    requires free == guarded.(minimumAge := free.minimumAge, now := free.now)
    requires AllPass(files, free)
    ensures ExploreShare(host, files, free, share) == AllReleased(ExploreShare(host, files, guarded, share))
  {
    SameRoot(host, files, free, guarded, share);
    hide ShareRoot, Contents, AllPass;
    var r, s := ShareRoot(host, files, free, share), ShareRoot(host, files, guarded, share);
    if r.Some? {
      var (v, entry) := r.value;
      var (w, _) := s.value;
      ContentsReleased(v, w, entry.id);
      var single := Found(multiset{entry}, multiset{});
      assert Released(single) == single;
      ReleasedPlus(single, Contents(w, entry.id));
    }
  }

  lemma SameRoot(host: Host, files: Files, free: ScanOptions, guarded: ScanOptions, share: Share)
    requires free == guarded.(minimumAge := free.minimumAge, now := free.now)
    ensures var r, s := ShareRoot(host, files, free, share), ShareRoot(host, files, guarded, share);
            && r.Some? == s.Some?
            && (r.Some? ==> r.value.1 == s.value.1 && SameButAge(r.value.0, s.value.0)
                            && r.value.0.files == files && r.value.0.options == free)
  {
    hide ObjectId, StableOsHash, ModifiedSeconds;
  }

  /**
   * An unguarded scan finds exactly what the guarded scan of
   * the same files finds together with what it withholds.
   */
  lemma {:induction false} GuardConserves(host: Host, files: Files, free: ScanOptions, guarded: ScanOptions,
                                          shares: seq<Share>)
    requires files.Finite()
    requires free == guarded.(minimumAge := free.minimumAge, now := free.now)
    requires AllPass(files, free)
    ensures ExploreShares(host, files, free, shares) == AllReleased(ExploreShares(host, files, guarded, shares))
  {
    hide ExploreShare;
    assert Released(NOTHING) == NOTHING;
    if shares != [] {
      ShareReleased(host, files, free, guarded, shares[0]);
      GuardConserves(host, files, free, guarded, shares[1..]);
      ReleasedBoth(ExploreShare(host, files, guarded, shares[0]), ExploreShares(host, files, guarded, shares[1..]));
    }
  }

  /** Without a minimum age every file passes, whatever the clock says. */
  lemma NoMinimumPasses(files: Files, options: ScanOptions)
    requires options.minimumAge == 0
    ensures AllPass(files, options)
  {
  }
}
