/**
 * What a walk finds, path by path and whether links are followed or not: an entry is found exactly
 * when its directory is read, its own item is listed there, and that item is accepted.
 */
module Reading {
  import opened Prelude
  import opened Identity
  import opened Entries
  import opened FileSystem
  import opened Traversal
  import opened Visibility
  import opened Following
  import opened LinkOrder
  import opened Shares

  /** The walk reads this directory under this name. */
  ghost predicate Reads(w: Walk, directory: Path)
    requires w.files.Finite()
  {
    if w.options.followSymlinks then VisitOf(w, directory) in RootVisits(w)
    else directory == w.root || (Visible(w, w.root, directory) && VerdictAt(w, directory).Descend?)
  }

  /** The item at `path` is listed by its own directory. */
  predicate ListedThere(w: Walk, path: Path) {
    path != [] && Listed(w, Parent(path), path[|path| - 1])
  }

  predicate Accepts(w: Walk, e: Entry) {
    e.path != [] && VerdictAt(w, e.path) in {Add(e), Descend(e)}
  }

  predicate Withholds(w: Walk, e: Entry) {
    e.path != [] && VerdictAt(w, e.path) == Withhold(e)
  }

  lemma {:induction false} DirectMembers(w: Walk, directory: Path, id: string, items: seq<Option<Name>>, e: Entry)
    ensures var here := Direct(w, directory, id, items);
            && (e in here.entries <==> exists item :: item in items && e in DirectItem(w, directory, id, item).entries)
            && (e in here.withheld <==> exists item ::
                 item in items && e in DirectItem(w, directory, id, item).withheld)
    decreases |items|
  {
    hide DirectItem;
    if items != [] {
      var front, last := items[..|items| - 1], items[|items| - 1];
      DirectMembers(w, directory, id, front, e);
      assert items == front + [last];
    }
  }

  lemma ItemMembers(w: Walk, directory: Path, item: Option<Name>, e: Entry)
    ensures var here := DirectItem(w, directory, w.Id('d', directory), item);
            var there := item.Some? && e.path == directory + [item.value];
            && (e in here.entries <==> there && Accepts(w, e))
            && (e in here.withheld <==> there && Withholds(w, e))
  {
    hide Inspect, Walk.Id;
    if item.Some? {
      assert Parent(directory + [item.value]) == directory;
    } else {
      NoItem(w, directory, w.Id('d', directory));
    }
  }

  lemma NoItem(w: Walk, directory: Path, id: string)
    ensures Inspect(w, directory, id, None) == Skip
  {
  }

  /** One directory adds exactly the accepted items it lists. */
  lemma VisitMembers(w: Walk, directory: Path, e: Entry)
    ensures var here := DirectVisit(w, VisitOf(w, directory));
            var there := ListedThere(w, e.path) && Parent(e.path) == directory;
            && (e in here.entries <==> there && Accepts(w, e))
            && (e in here.withheld <==> there && Withholds(w, e))
  {
    hide Inspect, Walk.Id, Direct, DirectItem, Accepts, Withholds;
    var items := w.files.readDir(directory);
    if items.Some? {
      var id := w.Id('d', directory);
      DirectMembers(w, directory, id, items.value, e);
      forall item | item in items.value
        ensures var here := DirectItem(w, directory, id, item);
                var there := item.Some? && e.path == directory + [item.value];
                (e in here.entries <==> there && Accepts(w, e)) && (e in here.withheld <==> there && Withholds(w, e))
      {
        ItemMembers(w, directory, item, e);
      }
      if e.path != [] && Parent(e.path) == directory {
        assert e.path == directory + [e.path[|e.path| - 1]];
      }
      assert forall name :: Parent(directory + [name]) == directory;
    }
  }

  lemma {:induction false} SumMembers(w: Walk, visits: Pending, e: Entry)
    ensures var all := DirectSum(w, visits);
            && (e in all.entries <==> exists x :: x in visits && e in DirectVisit(w, x).entries)
            && (e in all.withheld <==> exists x :: x in visits && e in DirectVisit(w, x).withheld)
    decreases |visits|
  {
    hide DirectVisit;
    if visits != [] {
      var front, last := visits[..|visits| - 1], visits[|visits| - 1];
      SumMembers(w, front, e);
      assert visits == front + [last];
    }
  }

  lemma FollowedMembers(w: Walk, e: Entry)
    requires w.files.Finite()
    ensures var there := ListedThere(w, e.path) && VisitOf(w, Parent(e.path)) in RootVisits(w);
            && (e in Followed(w).entries <==> there && Accepts(w, e))
            && (e in Followed(w).withheld <==> there && Withholds(w, e))
  {
    hide RootVisits, DirectVisit, Walk.Id, Accepts, Withholds, Listed;
    SumMembers(w, RootVisits(w), e);
    forall x | x in RootVisits(w)
      ensures x == VisitOf(w, x.0)
    {
      ReadIsSimple(w, x);
    }
    forall d
      ensures var here := DirectVisit(w, VisitOf(w, d));
              var there := ListedThere(w, e.path) && Parent(e.path) == d;
              (e in here.entries <==> there && Accepts(w, e)) && (e in here.withheld <==> there && Withholds(w, e))
    {
      VisitMembers(w, d, e);
    }
  }

  /** Without links a path is visible exactly when its directory is read and lists it. */
  lemma VisibleStep(w: Walk, path: Path)
    requires PlainTree(w)
    ensures Visible(w, w.root, path) <==> ListedThere(w, path) && Reads(w, Parent(path))
  {
    hide VerdictAt, Listed;
    var n := |w.root|;
    if Visible(w, w.root, path) {
      var parent := Parent(path);
      if |path| > n + 1 {
        assert forall k :: n <= k < |parent| ==> path[..k] == parent[..k] && path[k] == parent[k];
        assert path[..|parent|] == parent;
      } else {
        assert parent == w.root;
      }
    }
    if ListedThere(w, path) && Reads(w, Parent(path)) {
      var parent := Parent(path);
      assert path[..|parent|] == parent;
      assert forall k :: n <= k < |parent| ==> path[..k] == parent[..k] && path[k] == parent[k];
    }
  }

  /** What a walk finds and withholds, characterised path by path. */
  lemma ContentsExactly(w: Walk, e: Entry)
    requires w.files.Finite()
    ensures var f := Contents(w, w.Id('d', w.root));
            var there := ListedThere(w, e.path) && Reads(w, Parent(e.path));
            && (e in f.entries <==> there && Accepts(w, e))
            && (e in f.withheld <==> there && Withholds(w, e))
  {
    if w.options.followSymlinks {
      FollowedMembers(w, e);
    } else {
      ExploreExactly(w, w.root, e);
      VisibleStep(w, e.path);
    }
    hide VerdictAt, Listed, Walk.Id, Explore, Followed, RootVisits, Visible;
  }

  /** Only directories at or below the share root are read. */
  lemma ReadBelowRoot(w: Walk, directory: Path)
    requires w.files.Finite() && Reads(w, directory)
    ensures w.root <= directory
  {
    if w.options.followSymlinks {
      ReadIsSimple(w, VisitOf(w, directory));
    }
  }

  lemma FoundBelowRoot(w: Walk, e: Entry)
    requires w.files.Finite() && e in Contents(w, w.Id('d', w.root)).entries
    ensures |w.root| < |e.path| && w.root <= e.path
  {
    ContentsExactly(w, e);
    ReadBelowRoot(w, Parent(e.path));
    hide VerdictAt, Contents, Reads, Listed;
    assert Parent(e.path) <= e.path;
  }

  /** Within one share a path determines its entry. */
  lemma PathDeterminesEntry(w: Walk, e: Entry, f: Entry)
    requires w.files.Finite() && e.path == f.path
    requires e in Contents(w, w.Id('d', w.root)).entries && f in Contents(w, w.Id('d', w.root)).entries
    ensures e == f
  {
    ContentsExactly(w, e);
    ContentsExactly(w, f);
    hide VerdictAt, Contents, Reads, ListedThere;
  }

  // --- In every order of listings ------------------------------------------------------------

  /** No directory on the way to `path` has another name by a way that enters no directory twice. */
  ghost predicate Unshared(w: Walk, path: Path) {
    forall k, q ::
      |w.root| <= k <= |path| && Simple(w, q) && w.files.canonicalize(q) == w.files.canonicalize(path[..k])
      ==> q == path[..k]
  }

  /** The file system alone makes sure that the directory is read under this name. */
  ghost predicate SurelyReads(w: Walk, directory: Path)
    requires w.files.Finite()
  {
    if w.options.followSymlinks then Simple(w, directory) && Unshared(w, directory) else Reads(w, directory)
  }

  /** A directory found is read under the only name it has. */
  lemma ReadUnderOnlyName(w: Walk, u: Walk, path: Path, k: nat)
    requires Reordered(w, u) && Simple(w, path) && Unshared(w, path) && |w.root| <= k <= |path|
    requires Covered(u, {}, RootVisits(u), VisitOf(u, path[..k]))
    ensures VisitOf(u, path[..k]) in RootVisits(u)
  {
    assert StepEntered(w, path, k);
    hide Walk.Id, RootVisits, Simple, VerdictAt, Listed;
    var z :| z in RootVisits(u) && u.files.canonicalize(z.0) == u.files.canonicalize(path[..k]);
    ReadIsSimple(u, z);
    SimpleReordered(w, u, z.0);
  }

  lemma {:induction false} SurelyRead(w: Walk, u: Walk, path: Path, k: nat)
    requires Reordered(w, u) && Simple(w, path) && Unshared(w, path) && |w.root| <= k <= |path|
    ensures VisitOf(u, path[..k]) in RootVisits(u)
    decreases k
  {
    hide Walk.Id, Below, RootVisits, Simple, Unshared;
    var x := VisitOf(u, path[..k]);
    if k == |w.root| {
      BelowRoot(w, path);
    } else {
      SurelyRead(w, u, path, k - 1);
      SimpleReordered(w, u, path);
      StepBelow(u, path, k);
    }
    RootCovered(u, x);
    hide *;
    ReadUnderOnlyName(w, u, path, k);
  }

  lemma BelowRoot(w: Walk, path: Path)
    requires Simple(w, path)
    ensures |w.root| <= |path| && path[..|w.root|] == w.root
  {
  }

  /** Every directory found is read under some name, or leads nowhere. */
  lemma RootCovered(w: Walk, x: Visit)
    requires w.files.Finite()
    requires x == VisitOf(w, w.root) || exists y :: y in RootVisits(w) && x in Below(w, y)
    ensures Covered(w, {}, RootVisits(w), x)
  {
    hide Walk.Id, Below;
    EverythingCovered(w, {}, [VisitOf(w, w.root)], x);
  }

  lemma StepBelow(w: Walk, path: Path, k: nat)
    requires Simple(w, path) && |w.root| < k <= |path|
    ensures VisitOf(w, path[..k]) in Below(w, VisitOf(w, path[..k - 1]))
  {
    assert StepEntered(w, path, k);
    PrefixParent(path, k);
    hide VerdictAt, Listed, Walk.Id, Below, Simple, Parent;
    BelowIs(w, VisitOf(w, path[..k - 1]), VisitOf(w, path[..k]));
  }

  lemma PrefixParent(path: Path, k: nat)
    requires 0 < k <= |path|
    ensures path[..k] != [] && Parent(path[..k]) == path[..k - 1] && path[..k][|path[..k]| - 1] == path[k - 1]
  {
  }

  lemma VisibleReordered(v: Walk, w: Walk, path: Path)
    requires Reordered(v, w)
    ensures Visible(v, v.root, path) == Visible(w, w.root, path)
  {
    hide VerdictAt, Listed;
    forall k | |v.root| <= k < |path|
      ensures Listed(v, path[..k], path[k]) == Listed(w, path[..k], path[k])
      ensures k > 0 ==> VerdictAt(v, path[..k]) == VerdictAt(w, path[..k])
    {
      ListedReordered(v, w, path[..k], path[k]);
      if k > 0 {
        VerdictReordered(v, w, path[..k]);
      }
    }
  }

  lemma PlainReadsReordered(v: Walk, w: Walk, directory: Path)
    requires Reordered(v, w) && !v.options.followSymlinks
    ensures Reads(v, directory) == Reads(w, directory)
  {
    VisibleReordered(v, w, directory);
    hide VerdictAt, Visible;
    if directory != [] {
      VerdictReordered(v, w, directory);
    }
  }

  /** Another name on the way: there is an order in which that name is read, and this one is not. */
  lemma SharedMayBeMissed(w: Walk, path: Path) returns (u: Walk)
    requires w.files.Finite() && Simple(w, path) && !Unshared(w, path)
    ensures Reordered(w, u) && VisitOf(u, path) !in RootVisits(u)
  {
    hide Walk.Id, RootVisits, Simple, VerdictAt, Listed;
    var k, q :| |w.root| <= k <= |path| && Simple(w, q) && w.files.canonicalize(q) == w.files.canonicalize(path[..k])
      && q != path[..k];
    u := SomeOrderReads(w, q);
    EachReadOnceFromRoot(u);
    if VisitOf(u, path) in RootVisits(u) {
      ReadIsSimple(u, VisitOf(u, path));
      DifferentVisits(u, RootVisits(u), VisitOf(w, q), VisitOf(u, path[..k]));
    }
  }

  lemma EachReadOnceFromRoot(w: Walk)
    requires w.files.Finite()
    ensures AllDifferent(w, {}, RootVisits(w))
  {
    EachReadOnce(w, {}, [VisitOf(w, w.root)]);
  }

  /**
   * A directory is read under a name in every order of listings exactly when it can be reached by
   * that name without entering a directory twice and no directory on the way has another name.
   */
  lemma ReadInEveryOrderIff(w: Walk, directory: Path)
    requires w.files.Finite()
    ensures (forall u :: Reordered(w, u) ==> Reads(u, directory)) <==> SurelyReads(w, directory)
  {
    assert Reordered(w, w);
    hide Walk.Id, RootVisits, Simple, VerdictAt, Listed, Unshared, Visible;
    if w.options.followSymlinks {
      if SurelyReads(w, directory) {
        forall u | Reordered(w, u)
          ensures Reads(u, directory)
        {
          SurelyRead(w, u, directory, |directory|);
          assert directory[..|directory|] == directory;
        }
      } else if Reads(w, directory) {
        ReadIsSimple(w, VisitOf(w, directory));
        var u := SharedMayBeMissed(w, directory);
        assert !Reads(u, directory);
      }
    } else {
      forall u | Reordered(w, u)
        ensures Reads(u, directory) == Reads(w, directory)
      {
        PlainReadsReordered(w, u, directory);
      }
    }
  }

  lemma ThereReordered(v: Walk, w: Walk, e: Entry)
    requires Reordered(v, w)
    ensures ListedThere(v, e.path) == ListedThere(w, e.path)
    ensures Accepts(v, e) == Accepts(w, e) && Withholds(v, e) == Withholds(w, e)
  {
    hide VerdictAt, Listed;
    if e.path != [] {
      ListedReordered(v, w, Parent(e.path), e.path[|e.path| - 1]);
      VerdictReordered(v, w, e.path);
    }
  }

  /** An entry is found in every order of listings exactly when its directory is surely read. */
  lemma FoundInEveryOrderIff(w: Walk, e: Entry)
    requires w.files.Finite()
    ensures (forall u :: Reordered(w, u) ==> e in Contents(u, u.Id('d', u.root)).entries)
       <==> ListedThere(w, e.path) && Accepts(w, e) && SurelyReads(w, Parent(e.path))
  {
    assert Reordered(w, w);
    hide Walk.Id, Contents, Reads, SurelyReads, ListedThere, Accepts, Reordered;
    forall u | Reordered(w, u)
      ensures e in Contents(u, u.Id('d', u.root)).entries
         <==> ListedThere(w, e.path) && Accepts(w, e) && Reads(u, Parent(e.path))
    {
      FoundReordered(w, u, e);
    }
    if e.path != [] {
      ReadInEveryOrderIff(w, Parent(e.path));
    } else {
      NowhereListed(w);
    }
  }

  lemma NowhereListed(w: Walk)
    ensures !ListedThere(w, [])
  {
  }

  lemma FoundReordered(w: Walk, u: Walk, e: Entry)
    requires Reordered(w, u)
    ensures e in Contents(u, u.Id('d', u.root)).entries
       <==> ListedThere(w, e.path) && Accepts(w, e) && Reads(u, Parent(e.path))
  {
    ThereReordered(w, u, e);
    ContentsExactly(u, e);
    hide Walk.Id, Contents, Reads, Listed, Accepts;
  }

  // --- Files that were too young -------------------------------------------------------------

  /** The same options, but for the clock, a settle time that may have shrunk, and `recursive`. */
  predicate LaterOptions(before: ScanOptions, after: ScanOptions) {
    && after == before.(recursive := after.recursive, minimumAge := after.minimumAge, now := after.now)
    && after.minimumAge <= before.minimumAge
  }

  /**
   * Both walks are of one share; the file has kept its metadata, was not dated in the future, and
   * the settle time of the first walk has passed since.
   */
  ghost predicate Ripened(v: Walk, w: Walk, path: Path) {
    && v.host == w.host && v.media == w.media && v.root == w.root
    && LaterOptions(v.options, w.options)
    && w.options.now >= v.options.now + v.options.minimumAge
    && var m := Observed(v.files, v.options, path);
    && m == Observed(w.files, w.options, path)
    && m.Some? && m.value.modified.Some? && m.value.modified.value <= v.options.now
  }

  lemma VerdictWhenSettled(v: Walk, w: Walk, path: Path)
    requires path != [] && Ripened(v, w, path)
    ensures VerdictAt(v, path).Withhold? ==> VerdictAt(w, path) == Add(VerdictAt(v, path).entry)
  {
    hide ObjectId, StableOsHash, AbsoluteBytes, RelativeBytes, FileStem, ModifiedSeconds;
    assert v.Id('d', Parent(path)) == w.Id('d', Parent(path)) && v.Id('f', path) == w.Id('f', path);
    var name := path[|path| - 1];
    assert Parent(path) + [name] == path;
  }

  /** A withheld file is accepted once it is old enough. */
  lemma AcceptedOnceSettled(v: Walk, w: Walk, e: Entry)
    requires v.files.Finite() && e in Contents(v, v.Id('d', v.root)).withheld && Ripened(v, w, e.path)
    ensures Accepts(w, e)
  {
    ContentsExactly(v, e);
    VerdictWhenSettled(v, w, e.path);
    hide VerdictAt, Contents, Reads, ListedThere, Walk.Id;
  }

  /**
   * A withheld file is found by a later walk exactly when that walk reads its directory and finds
   * it listed there. The rest of the tree may have changed arbitrarily.
   */
  lemma WithheldIsPublishedLater(v: Walk, w: Walk, e: Entry)
    requires v.files.Finite() && w.files.Finite()
    requires e in Contents(v, v.Id('d', v.root)).withheld && Ripened(v, w, e.path)
    ensures e in Contents(w, w.Id('d', w.root)).entries <==> ListedThere(w, e.path) && Reads(w, Parent(e.path))
  {
    AcceptedOnceSettled(v, w, e);
    ContentsExactly(w, e);
    hide Contents, Reads, ListedThere, Walk.Id, Accepts;
  }

  /** It is found whatever the order of listings exactly when its directory is surely read. */
  lemma WithheldIsPublishedInEveryOrder(v: Walk, w: Walk, e: Entry)
    requires v.files.Finite() && w.files.Finite()
    requires e in Contents(v, v.Id('d', v.root)).withheld && Ripened(v, w, e.path)
    ensures (forall u :: Reordered(w, u) ==> e in Contents(u, u.Id('d', u.root)).entries)
       <==> ListedThere(w, e.path) && SurelyReads(w, Parent(e.path))
  {
    AcceptedOnceSettled(v, w, e);
    FoundInEveryOrderIff(w, e);
    hide Contents, SurelyReads, ListedThere, Walk.Id, Accepts;
  }
}
