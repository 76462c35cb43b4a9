/** What all configured shares hold together, whether links are followed or not. */
module Shares {
  import opened Prelude
  import opened Identity
  import opened Entries
  import opened FileSystem
  import opened Traversal
  import opened LinkOrder

  /** The entry of the share itself, or `None` when its root cannot be resolved. */
  function ShareRoot(host: Host, files: Files, options: ScanOptions, share: Share): Option<(Walk, Entry)> {
    match files.canonicalize(share.path)
    case None => None
    case Some(root) =>
      match files.stat(root)
      case None => None
      case Some(m) =>
        var w := Walk(host, files, options, share.media, root);
        Some((w, Entry(ObjectId('d', w.RootHash(), []), ROOT_ID, share.name, root, Container, 0,
                       ModifiedSeconds(m))))
  }

  /** What is found below the root of a share. */
  ghost function Contents(w: Walk, rootId: string): Found
    requires w.files.Finite()
  {
    if w.options.followSymlinks then Followed(w) else Explore(w, w.root, rootId)
  }

  ghost function ExploreShare(host: Host, files: Files, options: ScanOptions, share: Share): Option<Found>
    requires files.Finite()
  {
    match ShareRoot(host, files, options, share)
    case None => None
    case Some((w, entry)) => Some(Found(multiset{entry}, multiset{}).Plus(Contents(w, entry.id)))
  }

  /** All shares together; `None` when some share cannot be resolved. */
  ghost function ExploreShares(host: Host, files: Files, options: ScanOptions, shares: seq<Share>): Option<Found>
    requires files.Finite()
  {
    if shares == [] then Some(NOTHING)
    else Both(ExploreShare(host, files, options, shares[0]), ExploreShares(host, files, options, shares[1..]))
  }

  /** Both parts, if neither is missing. */
  function Both(a: Option<Found>, b: Option<Found>): Option<Found> {
    if a.Some? && b.Some? then Some(a.value.Plus(b.value)) else None
  }

  lemma BothSwap(a: Option<Found>, b: Option<Found>, c: Option<Found>)
    ensures Both(a, Both(b, c)) == Both(b, Both(a, c))
  {
    if a.Some? && b.Some? && c.Some? {
      PlusSwap(a.value, b.value, c.value);
    }
  }

  lemma RootIsWalk(host: Host, files: Files, options: ScanOptions, share: Share)
    ensures var r := ShareRoot(host, files, options, share);
            r.Some? ==> r.value.0.files == files && r.value.0.options == options
  {
    hide ObjectId, StableOsHash, ModifiedSeconds;
  }

  lemma RootId(w: Walk)
    ensures w.Id('d', w.root) == ObjectId('d', w.RootHash(), [])
  {
    assert w.root[|w.root|..] == [];
  }

  // --- Independence of order -----------------------------------------------------------------

  /** If links are followed, no directory that adds something can be reached under two names. */
  ghost predicate WithoutAliases(host: Host, files: Files, options: ScanOptions, share: Share) {
    var r := ShareRoot(host, files, options, share);
    options.followSymlinks && r.Some? ==> Unambiguous(r.value.0)
  }

  lemma SameWalkReordered(host: Host, a: Files, b: Files, options: ScanOptions, share: Share)
    requires a.Finite() && b.Finite() && SameUpToOrder(a, b)
    ensures var r, s := ShareRoot(host, a, options, share), ShareRoot(host, b, options, share);
            && r.Some? == s.Some?
            && (r.Some? ==>
                 r.value.1 == s.value.1 && Reordered(r.value.0, s.value.0) && s.value.0 == r.value.0.(files := b))
  {
    hide ObjectId, StableOsHash, ModifiedSeconds;
  }

  lemma ShareOrderFree(host: Host, a: Files, b: Files, options: ScanOptions, share: Share)
    requires a.Finite() && b.Finite() && SameUpToOrder(a, b) && WithoutAliases(host, a, options, share)
    ensures ExploreShare(host, a, options, share) == ExploreShare(host, b, options, share)
  {
    SameWalkReordered(host, a, b, options, share);
    RootIsWalk(host, a, options, share);
    RootIsWalk(host, b, options, share);
    hide ShareRoot, Followed, Explore, Unambiguous;
    var r, s := ShareRoot(host, a, options, share), ShareRoot(host, b, options, share);
    if r.Some? {
      if options.followSymlinks {
        UnambiguousIsOrderFree(r.value.0, s.value.0);
      } else {
        ExploreOrderFree(r.value.0, s.value.0, r.value.0.root, r.value.1.id);
      }
    }
  }

  /**
   * The order of listings never changes what one share holds exactly when links are not followed,
   * the share does not resolve, or no directory that adds something has two names.
   */
  lemma ShareOrderFreeIff(host: Host, a: Files, options: ScanOptions, share: Share)
    requires a.Finite()
    ensures (forall b: Files :: b.Finite() && SameUpToOrder(a, b) ==>
               ExploreShare(host, b, options, share) == ExploreShare(host, a, options, share))
       <==> WithoutAliases(host, a, options, share)
  {
    hide ExploreShare, WithoutAliases, SameUpToOrder, Files.Finite;
    if WithoutAliases(host, a, options, share) {
      forall b: Files | b.Finite() && SameUpToOrder(a, b)
        ensures ExploreShare(host, b, options, share) == ExploreShare(host, a, options, share)
      {
        ShareOrderFree(host, a, b, options, share);
      }
    } else {
      var b := AliasedShareDependsOnOrder(host, a, options, share);
      assert ExploreShare(host, b, options, share) != ExploreShare(host, a, options, share);
    }
  }

  lemma AliasedShareDependsOnOrder(host: Host, a: Files, options: ScanOptions, share: Share) returns (b: Files)
    requires a.Finite() && !WithoutAliases(host, a, options, share)
    ensures b.Finite() && SameUpToOrder(a, b)
      && ExploreShare(host, b, options, share) != ExploreShare(host, a, options, share)
  {
    RootIsWalk(host, a, options, share);
    hide ShareRoot, Followed, Unambiguous;
    var (v, entry) := ShareRoot(host, a, options, share).value;
    OrderFreeIffUnambiguous(v);
    var w :| Reordered(v, w) && Followed(w) != Followed(v);
    b := w.files;
    SameWalkReordered(host, a, b, options, share);
    assert v.(files := b) == w;
    hide Reordered;
    if Found(multiset{entry}, multiset{}).Plus(Followed(v)) == Found(multiset{entry}, multiset{}).Plus(Followed(w)) {
      PlusCancels(Found(multiset{entry}, multiset{}), Followed(v), Followed(w));
    }
  }

  lemma PlusCancels(a: Found, b: Found, c: Found)
    requires a.Plus(b) == a.Plus(c)
    ensures b == c
  {
    assert b.entries == a.entries + b.entries - a.entries && c.entries == a.entries + c.entries - a.entries;
    assert b.withheld == a.withheld + b.withheld - a.withheld && c.withheld == a.withheld + c.withheld - a.withheld;
  }

  lemma {:induction false} SharesOrderFree(host: Host, a: Files, b: Files, options: ScanOptions, shares: seq<Share>)
    requires a.Finite() && b.Finite() && SameUpToOrder(a, b)
    requires forall share :: share in shares ==> WithoutAliases(host, a, options, share)
    ensures ExploreShares(host, a, options, shares) == ExploreShares(host, b, options, shares)
  {
    hide ExploreShare, WithoutAliases;
    if shares != [] {
      assert shares[0] in shares;
      ShareOrderFree(host, a, b, options, shares[0]);
      SharesOrderFree(host, a, b, options, shares[1..]);
    }
  }

  lemma {:induction false} ExtractShare(host: Host, files: Files, options: ScanOptions, shares: seq<Share>, i: nat)
    requires files.Finite() && i < |shares|
    ensures ExploreShares(host, files, options, shares)
         == Both(ExploreShare(host, files, options, shares[i]),
                 ExploreShares(host, files, options, shares[..i] + shares[i + 1..]))
    decreases i
  {
    hide ExploreShare, Both;
    var others := shares[..i] + shares[i + 1..];
    if i == 0 {
      assert others == shares[1..];
    } else {
      ExtractShare(host, files, options, shares[1..], i - 1);
      LeaveOutLater(shares, i);
      BothSwap(ExploreShare(host, files, options, shares[0]), ExploreShare(host, files, options, shares[i]),
               ExploreShares(host, files, options, others[1..]));
    }
  }

  lemma {:induction false} SharesPermuted(host: Host, files: Files, options: ScanOptions, xs: seq<Share>,
                                          ys: seq<Share>)
    requires files.Finite() && multiset(xs) == multiset(ys)
    ensures ExploreShares(host, files, options, xs) == ExploreShares(host, files, options, ys)
    decreases |xs|
  {
    if xs == [] {
      assert |ys| == |multiset(ys)| == 0;
    } else {
      assert xs[0] in multiset(ys);
      var i :| 0 <= i < |ys| && ys[i] == xs[0];
      DropShared(xs, ys, i);
      SharesPermuted(host, files, options, xs[1..], ys[..i] + ys[i + 1..]);
      ExtractShare(host, files, options, ys, i);
    }
  }

  /**
   * Neither the order in which directories list their items nor the order of the configured
   * shares changes what is found, unless links are followed to a directory that has two names.
   */
  lemma FoundIsOrderFree(host: Host, a: Files, b: Files, options: ScanOptions, xs: seq<Share>, ys: seq<Share>)
    requires a.Finite() && b.Finite() && SameUpToOrder(a, b) && multiset(xs) == multiset(ys)
    requires forall share :: share in xs ==> WithoutAliases(host, a, options, share)
    ensures ExploreShares(host, a, options, xs) == ExploreShares(host, b, options, ys)
  {
    SharesOrderFree(host, a, b, options, xs);
    SharesPermuted(host, b, options, xs, ys);
  }
}
