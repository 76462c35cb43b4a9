/** Exactly when the order of listings does not matter to several shares taken together. */
module ShareOrder {
  import opened Prelude
  import opened Identity
  import opened Entries
  import opened FileSystem
  import opened Traversal
  import opened Visibility
  import opened Following
  import opened LinkOrder
  import opened Shares
  import opened Reading

  /** How often an entry is found, and how often withheld. */
  datatype Tally = Tally(found: nat, held: nat)
  {
    function Plus(other: Tally): Tally {
      Tally(found + other.found, held + other.held)
    }
  }

  const NEVER := Tally(0, 0)

  function Times(f: Found, e: Entry): Tally {
    Tally(f.entries[e], f.withheld[e])
  }

  predicate NoMore(a: Tally, b: Tally) {
    a.found <= b.found && a.held <= b.held
  }

  lemma TimesPlus(a: Found, b: Found, e: Entry)
    ensures Times(a.Plus(b), e) == Times(a, e).Plus(Times(b, e))
  {
  }

  lemma NeverCounts(t: Tally)
    ensures NEVER.Plus(t) == t == t.Plus(NEVER)
  {
  }

  lemma NothingTimes(e: Entry)
    ensures Times(NOTHING, e) == NEVER
  {
  }

  /** A directory other than the entry's own does not hold it. */
  lemma ElsewhereTimes(w: Walk, directory: Path, e: Entry)
    requires e.path == [] || Parent(e.path) != directory
    ensures Times(DirectVisit(w, VisitOf(w, directory)), e) == NEVER
  {
    VisitMembers(w, directory, e);
    hide DirectVisit, Walk.Id;
  }

  /** An entry is found as often as its own directory holds it, if that directory is among those read. */
  lemma {:induction false} SumTimes(w: Walk, visits: Pending, e: Entry)
    requires NoDuplicates(visits) && forall x :: x in visits ==> x == VisitOf(w, x.0)
    requires e.path != []
    ensures var own := VisitOf(w, Parent(e.path));
            Times(DirectSum(w, visits), e) == if own in visits then Times(DirectVisit(w, own), e) else NEVER
    decreases |visits|
  {
    hide DirectVisit, Walk.Id, Found.Plus, Times, Tally.Plus;
    if visits == [] {
      NothingTimes(e);
    } else {
      var front, last := visits[..|visits| - 1], visits[|visits| - 1];
      assert visits == front + [last] && last !in front;
      NeverCounts(Times(DirectVisit(w, last), e));
      NeverCounts(Times(DirectSum(w, front), e));
      SumTimes(w, front, e);
      TimesPlus(DirectSum(w, front), DirectVisit(w, last), e);
      if last.0 != Parent(e.path) {
        ElsewhereTimes(w, last.0, e);
      }
    }
  }

  lemma FollowedTimes(w: Walk, e: Entry)
    requires w.files.Finite() && e.path != []
    ensures var own := VisitOf(w, Parent(e.path));
            Times(Followed(w), e) == if own in RootVisits(w) then Times(DirectVisit(w, own), e) else NEVER
  {
    hide RootVisits, Walk.Id, DirectVisit;
    EachReadOnceFromRoot(w);
    AllDifferentIsDistinct(w, {}, RootVisits(w));
    forall x | x in RootVisits(w)
      ensures x == VisitOf(w, x.0)
    {
      ReadIsSimple(w, x);
    }
    SumTimes(w, RootVisits(w), e);
  }

  /** With every listing leading to its directory, an entry is found as often as in any order. */
  lemma LeadingFindsMost(v: Walk, u: Walk, e: Entry)
    requires v.files.Finite() && Reordered(v, u) && e.path != []
    ensures var w := v.(files := Leading(v.files, Parent(e.path)));
            Reordered(v, w) && NoMore(Times(Followed(u), e), Times(Followed(w), e))
  {
    var path := Parent(e.path);
    var w := v.(files := Leading(v.files, path));
    LeadingReorders(v, path);
    hide RootVisits, Walk.Id, DirectVisit, Followed, Leading, Times;
    FollowedTimes(u, e);
    FollowedTimes(w, e);
    var own := VisitOf(u, path);
    SameVisit(v, u, path);
    SameVisit(v, w, path);
    VisitReordered(v, u, own);
    VisitReordered(v, w, own);
    if own in RootVisits(u) {
      ReadIsSimple(u, own);
      SimpleReordered(v, u, path);
      LeadingReads(v, path);
    }
    NoneIsLeast(Times(DirectVisit(v, own), e));
  }

  lemma NoneIsLeast(t: Tally)
    ensures NoMore(NEVER, t) && NoMore(t, t)
  {
  }

  // --- Shares --------------------------------------------------------------------------------

  function HeldTimes(f: Option<Found>, e: Entry): Tally {
    if f.Some? then Times(f.value, e) else NEVER
  }

  lemma ShareTimes(host: Host, files: Files, options: ScanOptions, share: Share, e: Entry)
    requires files.Finite() && options.followSymlinks
    ensures var r := ShareRoot(host, files, options, share);
            var f := ExploreShare(host, files, options, share);
            && r.Some? == f.Some?
            && (r.Some? ==>
                  var own := Times(Found(multiset{r.value.1}, multiset{}), e);
                  var below := Times(Followed(r.value.0), e);
                  HeldTimes(f, e) == own.Plus(below))
  {
    RootIsWalk(host, files, options, share);
    hide ShareRoot, Followed;
  }

  /** The same, after reordering listings. */
  lemma ReorderedTimes(host: Host, files: Files, b: Files, options: ScanOptions, share: Share, e: Entry)
    requires files.Finite() && b.Finite() && SameUpToOrder(files, b) && options.followSymlinks
    requires ShareRoot(host, files, options, share).Some?
    ensures var (v, root) := ShareRoot(host, files, options, share).value;
            var own := Times(Found(multiset{root}, multiset{}), e);
            var w := v.(files := b);
            var below := Times(Followed(w), e);
            v.files == files && HeldTimes(ExploreShare(host, b, options, share), e) == own.Plus(below)
  {
    hide *;
    RootIsWalk(host, files, options, share);
    SameWalkReordered(host, files, b, options, share);
    ShareTimes(host, b, options, share, e);
  }

  lemma AddNoMore(a: Tally, b: Tally, c: Tally, d: Tally)
    requires NoMore(a, b) && NoMore(c, d)
    ensures NoMore(a.Plus(c), b.Plus(d))
  {
  }

  /** The files with every listing leading to the directory of `e`. */
  function Towards(files: Files, e: Entry): Files
    requires e.path != []
  {
    Leading(files, Parent(e.path))
  }

  lemma TowardsReorders(files: Files, e: Entry)
    requires files.Finite() && e.path != []
    ensures Towards(files, e).Finite() && SameUpToOrder(files, Towards(files, e))
  {
  }

  lemma ShareFindsMost(host: Host, files: Files, b: Files, options: ScanOptions, share: Share, e: Entry)
    requires files.Finite() && b.Finite() && SameUpToOrder(files, b) && options.followSymlinks && e.path != []
    ensures Towards(files, e).Finite()
    ensures NoMore(HeldTimes(ExploreShare(host, b, options, share), e),
                   HeldTimes(ExploreShare(host, Towards(files, e), options, share), e))
  {
    var a := Towards(files, e);
    TowardsReorders(files, e);
    SameWalkReordered(host, files, b, options, share);
    SameWalkReordered(host, files, a, options, share);
    RootIsWalk(host, files, options, share);
    ShareTimes(host, a, options, share, e);
    ShareTimes(host, b, options, share, e);
    hide ShareRoot, Followed, ExploreShare, Leading, Times, HeldTimes, NoMore, SameUpToOrder;
    NoneIsLeast(NEVER);
    NotHeld(ExploreShare(host, a, options, share), e);
    NotHeld(ExploreShare(host, b, options, share), e);
    var r := ShareRoot(host, files, options, share);
    if r.Some? {
      var v, u := r.value.0, ShareRoot(host, b, options, share).value.0;
      LeadingFindsMost(v, u, e);
      var own := Times(Found(multiset{r.value.1}, multiset{}), e);
      NoneIsLeast(own);
      AddNoMore(own, own, Times(Followed(u), e), Times(Followed(v.(files := a)), e));
    }
  }

  lemma NotHeld(f: Option<Found>, e: Entry)
    ensures f.None? ==> HeldTimes(f, e) == NEVER
  {
  }

  lemma BothTimes(a: Option<Found>, b: Option<Found>, e: Entry)
    requires a.Some? && b.Some?
    ensures Both(a, b).Some?
    ensures HeldTimes(Both(a, b), e) == HeldTimes(a, e).Plus(HeldTimes(b, e))
  {
    TimesPlus(a.value, b.value, e);
  }

  lemma {:induction false} SharesFindMost(host: Host, files: Files, b: Files, options: ScanOptions,
                                          shares: seq<Share>, e: Entry)
    requires files.Finite() && b.Finite() && SameUpToOrder(files, b) && options.followSymlinks && e.path != []
    requires forall share :: share in shares ==> ShareRoot(host, files, options, share).Some?
    ensures Towards(files, e).Finite()
    ensures var f, g := ExploreShares(host, b, options, shares),
      ExploreShares(host, Towards(files, e), options, shares);
            f.Some? && g.Some? && NoMore(HeldTimes(f, e), HeldTimes(g, e))
  {
    TowardsReorders(files, e);
    if shares == [] {
      NoneIsLeast(HeldTimes(Some(NOTHING), e));
    } else {
      assert shares[0] in shares;
      SharesFindMost(host, files, b, options, shares[1..], e);
      ShareFindsMost(host, files, b, options, shares[0], e);
      StillResolves(host, files, b, options, shares[0]);
      StillResolves(host, files, Towards(files, e), options, shares[0]);
      hide ShareRoot, ExploreShare, HeldTimes, NoMore, SameUpToOrder, Both, Towards;
      BothTimes(ExploreShare(host, b, options, shares[0]), ExploreShares(host, b, options, shares[1..]), e);
      var a := Towards(files, e);
      BothTimes(ExploreShare(host, a, options, shares[0]), ExploreShares(host, a, options, shares[1..]), e);
      AddNoMore(HeldTimes(ExploreShare(host, b, options, shares[0]), e),
                HeldTimes(ExploreShare(host, a, options, shares[0]), e),
                HeldTimes(ExploreShares(host, b, options, shares[1..]), e),
                HeldTimes(ExploreShares(host, a, options, shares[1..]), e));
    }
  }

  lemma StillResolves(host: Host, files: Files, b: Files, options: ScanOptions, share: Share)
    requires files.Finite() && b.Finite() && SameUpToOrder(files, b)
    ensures ShareRoot(host, files, options, share).Some? <==> ExploreShare(host, b, options, share).Some?
  {
    SameWalkReordered(host, files, b, options, share);
    RootIsWalk(host, b, options, share);
    hide ShareRoot, Contents;
  }

  /** The directory of `e` has a second name in the share, and holds `e`. */
  ghost predicate HeldUnderTwoNames(host: Host, files: Files, options: ScanOptions, share: Share, e: Entry,
                                    other: Path) {
    var r := ShareRoot(host, files, options, share);
    && r.Some? && e.path != [] && options.followSymlinks
    && Simple(r.value.0, Parent(e.path)) && Simple(r.value.0, other) && other != Parent(e.path)
    && files.canonicalize(other) == files.canonicalize(Parent(e.path))
    && Mentions(DirectVisit(r.value.0, VisitOf(r.value.0, Parent(e.path))), e)
  }

  /** `e` is not merely withheld by its directory. */
  ghost predicate Finds(host: Host, files: Files, options: ScanOptions, share: Share, e: Entry) {
    var r := ShareRoot(host, files, options, share);
    r.Some? && e.path != [] && e in DirectVisit(r.value.0, VisitOf(r.value.0, Parent(e.path))).entries
  }

  predicate More(a: Tally, b: Tally) {
    NoMore(b, a) && a != b
  }

  lemma MentionedTimes(f: Found, e: Entry)
    ensures Mentions(f, e) <==> More(Times(f, e), NEVER)
    ensures e in f.entries <==> Times(f, e).found > 0
  {
  }

  /** Listings that lead to the other name: this one is not read. */
  lemma OtherNameMisses(v: Walk, path: Path, other: Path, e: Entry)
    requires v.files.Finite() && Simple(v, path) && Simple(v, other) && other != path
    requires v.files.canonicalize(other) == v.files.canonicalize(path) && e.path != [] && Parent(e.path) == path
    requires Mentions(DirectVisit(v, VisitOf(v, path)), e)
    ensures var a, b := v.(files := Leading(v.files, path)), v.(files := Leading(v.files, other));
            && Reordered(v, a) && Reordered(v, b)
            && Times(Followed(b), e) == NEVER
            && Times(Followed(a), e) == Times(DirectVisit(v, VisitOf(v, path)), e)
  {
    var a, b := v.(files := Leading(v.files, path)), v.(files := Leading(v.files, other));
    LeadingReorders(v, path);
    LeadingReorders(v, other);
    LeadingReads(v, path);
    LeadingReads(v, other);
    hide RootVisits, Walk.Id, DirectVisit, Followed, Leading, Times, Simple;
    FollowedTimes(a, e);
    FollowedTimes(b, e);
    SameVisit(v, a, path);
    SameVisit(v, b, path);
    VisitReordered(v, a, VisitOf(v, path));
    EachReadOnceFromRoot(b);
    if VisitOf(v, path) in RootVisits(b) {
      DifferentVisits(b, RootVisits(b), VisitOf(v, other), VisitOf(v, path));
    }
  }

  /** In a share with an alias one order finds the entry under its name, another does not. */
  lemma AliasedWalk(host: Host, files: Files, options: ScanOptions, share: Share, e: Entry, other: Path)
    returns (t: Tally)
    requires files.Finite() && HeldUnderTwoNames(host, files, options, share, e, other)
    ensures var a, b := Towards(files, e), Leading(files, other);
            var v := ShareRoot(host, files, options, share).value.0;
            && a.Finite() && b.Finite() && SameUpToOrder(files, a) && SameUpToOrder(files, b)
            && Times(Followed(v.(files := a)), e) == t && Times(Followed(v.(files := b)), e) == NEVER
            && More(t, NEVER) && (Finds(host, files, options, share, e) ==> t.found > 0)
  {
    RootIsWalk(host, files, options, share);
    var v := ShareRoot(host, files, options, share).value.0;
    var here := DirectVisit(v, VisitOf(v, Parent(e.path)));
    t := Times(here, e);
    MentionedTimes(here, e);
    hide ShareRoot, Followed, Leading, Times, DirectVisit, Simple, More;
    OtherNameMisses(v, Parent(e.path), other, e);
  }

  lemma AliasedShareDiffers(host: Host, files: Files, options: ScanOptions, share: Share, e: Entry, other: Path)
    requires files.Finite() && HeldUnderTwoNames(host, files, options, share, e, other)
    ensures var a, b := Towards(files, e), Leading(files, other);
            && a.Finite() && b.Finite() && SameUpToOrder(files, a) && SameUpToOrder(files, b)
            && More(HeldTimes(ExploreShare(host, a, options, share), e),
                    HeldTimes(ExploreShare(host, b, options, share), e))
            && (Finds(host, files, options, share, e) ==>
                  HeldTimes(ExploreShare(host, a, options, share), e).found
                    > HeldTimes(ExploreShare(host, b, options, share), e).found)
  {
    IsFollowing(host, files, options, share, e, other);
    hide *;
    var a, b := Towards(files, e), Leading(files, other);
    var t := AliasedWalk(host, files, options, share, e, other);
    var (v, root) := ShareRoot(host, files, options, share).value;
    var own := Times(Found(multiset{root}, multiset{}), e);
    ReorderedTimes(host, files, a, options, share, e);
    assert HeldTimes(ExploreShare(host, a, options, share), e) == own.Plus(t);
    ReorderedTimes(host, files, b, options, share, e);
    assert HeldTimes(ExploreShare(host, b, options, share), e) == own.Plus(NEVER);
    MoreBelow(own, t);
  }

  lemma MoreBelow(own: Tally, t: Tally)
    ensures More(t, NEVER) ==>
      More(own.Plus(t), own.Plus(NEVER)) && own.Plus(t).found == own.found + t.found
      && own.Plus(NEVER).found == own.found
  {
  }

  lemma MoreByOne(a: Tally, b: Tally, c: Tally, d: Tally)
    requires More(a, b) && NoMore(d, c)
    ensures More(a.Plus(c), b.Plus(d))
    ensures a.found > b.found ==> a.Plus(c).found > b.Plus(d).found
  {
  }

  /** One share with an alias: two orders of listings make all shares together hold different things. */
  lemma AliasedSharesDiffer(host: Host, files: Files, options: ScanOptions, shares: seq<Share>, i: nat, e: Entry,
                            other: Path)
    requires files.Finite() && i < |shares| && HeldUnderTwoNames(host, files, options, shares[i], e, other)
    requires forall share :: share in shares ==> ShareRoot(host, files, options, share).Some?
    ensures var a, b := Towards(files, e), Leading(files, other);
            && a.Finite() && b.Finite() && SameUpToOrder(files, a) && SameUpToOrder(files, b)
            && var f, g := ExploreShares(host, a, options, shares), ExploreShares(host, b, options, shares);
            && f.Some? && g.Some? && More(HeldTimes(f, e), HeldTimes(g, e))
            && (Finds(host, files, options, shares[i], e) ==> HeldTimes(f, e).found > HeldTimes(g, e).found)
  {
    var a, b := Towards(files, e), Leading(files, other);
    var share, others := shares[i], shares[..i] + shares[i + 1..];
    AliasedShareDiffers(host, files, options, share, e, other);
    IsFollowing(host, files, options, share, e, other);
    FewerShares(shares, i);
    hide *;
    SharesFindMost(host, files, b, options, others, e);
    ExtractShare(host, a, options, shares, i);
    ExtractShare(host, b, options, shares, i);
    StillResolves(host, files, a, options, share);
    StillResolves(host, files, b, options, share);
    OneMoreOthersNoMore(ExploreShare(host, a, options, share), ExploreShare(host, b, options, share),
                        ExploreShares(host, a, options, others), ExploreShares(host, b, options, others), e);
  }

  lemma FewerShares(shares: seq<Share>, i: nat)
    requires i < |shares|
    ensures shares[i] in shares && forall x :: x in shares[..i] + shares[i + 1..] ==> x in shares
  {
  }

  lemma OneMoreOthersNoMore(x: Option<Found>, y: Option<Found>, u: Option<Found>, v: Option<Found>, e: Entry)
    requires x.Some? && y.Some? && u.Some? && v.Some?
    requires More(HeldTimes(x, e), HeldTimes(y, e)) && NoMore(HeldTimes(v, e), HeldTimes(u, e))
    ensures Both(x, u).Some? && Both(y, v).Some? && More(HeldTimes(Both(x, u), e), HeldTimes(Both(y, v), e))
    ensures HeldTimes(x, e).found > HeldTimes(y, e).found ==>
      HeldTimes(Both(x, u), e).found > HeldTimes(Both(y, v), e).found
  {
    BothTimes(x, u, e);
    BothTimes(y, v, e);
    MoreByOne(HeldTimes(x, e), HeldTimes(y, e), HeldTimes(u, e), HeldTimes(v, e));
    hide HeldTimes, More, NoMore, Both;
  }

  lemma IsFollowing(host: Host, files: Files, options: ScanOptions, share: Share, e: Entry, other: Path)
    requires HeldUnderTwoNames(host, files, options, share, e, other)
    ensures options.followSymlinks && e.path != [] && ShareRoot(host, files, options, share).Some?
  {
  }

  /** An aliased share holds some entry under two names. */
  lemma AliasShows(host: Host, files: Files, options: ScanOptions, share: Share) returns (e: Entry, other: Path)
    requires files.Finite() && !WithoutAliases(host, files, options, share)
    ensures HeldUnderTwoNames(host, files, options, share, e, other)
  {
    RootIsWalk(host, files, options, share);
    hide ShareRoot, Simple, DirectVisit, Walk.Id;
    var w := ShareRoot(host, files, options, share).value.0;
    var p, q :| Simple(w, p) && Simple(w, q) && p != q && w.files.canonicalize(p) == w.files.canonicalize(q)
      && DirectVisit(w, VisitOf(w, p)) != NOTHING;
    e := SomethingMentioned(DirectVisit(w, VisitOf(w, p)));
    MentionedBelow(w, p, VisitOf(w, p), e);
    other := q;
  }

  /**
   * The order of listings never changes what all shares hold together exactly when some share does
   * not resolve, or links are not followed, or no share has a directory with two names that adds
   * something.
   */
  lemma SharesOrderFreeIff(host: Host, files: Files, options: ScanOptions, shares: seq<Share>)
    requires files.Finite()
    ensures (forall b: Files :: b.Finite() && SameUpToOrder(files, b) ==>
               ExploreShares(host, b, options, shares) == ExploreShares(host, files, options, shares))
       <==> (exists share :: share in shares && ShareRoot(host, files, options, share).None?)
            || (forall share :: share in shares ==> WithoutAliases(host, files, options, share))
  {
    hide ShareRoot, ExploreShares, WithoutAliases, SameUpToOrder, Files.Finite, HeldUnderTwoNames;
    if share :| share in shares && ShareRoot(host, files, options, share).None? {
      forall b: Files | b.Finite() && SameUpToOrder(files, b)
        ensures ExploreShares(host, b, options, shares).None?
      {
        StillResolves(host, files, b, options, share);
        OneMissing(host, b, options, shares, share);
      }
      StillItself(files);
    } else if share :| share in shares && !WithoutAliases(host, files, options, share) {
      var i :| 0 <= i < |shares| && shares[i] == share;
      var e, other := AliasShows(host, files, options, share);
      AliasedSharesDiffer(host, files, options, shares, i, e, other);
    } else {
      forall b: Files | b.Finite() && SameUpToOrder(files, b)
        ensures ExploreShares(host, b, options, shares) == ExploreShares(host, files, options, shares)
      {
        SharesOrderFree(host, files, b, options, shares);
      }
    }
  }

  lemma StillItself(files: Files)
    ensures SameUpToOrder(files, files)
  {
  }

  lemma {:induction false} OneMissing(host: Host, files: Files, options: ScanOptions, shares: seq<Share>, share: Share)
    requires files.Finite() && share in shares && ExploreShare(host, files, options, share).None?
    ensures ExploreShares(host, files, options, shares).None?
  {
    hide ExploreShare;
    if shares[0] != share {
      OneMissing(host, files, options, shares[1..], share);
    }
  }
}
