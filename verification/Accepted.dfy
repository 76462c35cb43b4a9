/** What scans of an accepted configuration look like. */
module Accepted {
  import opened Prelude
  import opened Identity
  import opened Entries
  import opened FileSystem
  import opened Traversal
  import opened Shares
  import opened CatalogSpec
  import opened CatalogBuilder
  import opened Scan
  import opened ShareValidation
  import opened Published

  /** Resolving the roots again and inspecting what they resolve to gives what validation saw. */
  ghost predicate RootsStay(files: Files, shares: seq<Share>) {
    forall s :: s in shares && files.canonicalize(s.path).Some? ==>
      files.stat(files.canonicalize(s.path).value) == files.stat(s.path)
  }

  /** An accepted configuration scans without failing to resolve a share: only identifiers can collide. */
  lemma AcceptedSharesResolve(text: Text, host: Host, files: Files, config: Config, minimumAge: nat, now: int,
                              r: Result<CatalogScan, ScanError>)
    requires files.Finite() && Acceptable(text, files, config.shares) && RootsStay(files, config.shares)
    requires Meets(host, files, config.Options(minimumAge, now), config.shares, r)
    ensures r.Err? ==> r.error.IdCollision?
  {
    forall i | 0 <= i < |config.shares|
      ensures ShareRoot(host, files, config.Options(minimumAge, now), config.shares[i]).Some?
    {
      assert Sound(text, files, config.shares[i]);
      WalkOfShare(host, files, config, minimumAge, now, config.shares[i]);
    }
    hide *;
    OnlyCollisions(host, files, config.Options(minimumAge, now), config.shares, r);
  }

  lemma OnlyCollisions(host: Host, files: Files, options: ScanOptions, shares: seq<Share>,
                       r: Result<CatalogScan, ScanError>)
    requires files.Finite() && Meets(host, files, options, shares, r)
    requires forall i :: 0 <= i < |shares| ==> ShareRoot(host, files, options, shares[i]).Some?
    ensures r.Err? ==> r.error.IdCollision?
  {
    hide ShareRoot, ExploreShares, IsCatalogOf, DistinctIds, Collides;
  }

  /**
   * At the top of its catalog are the folders of the shares and nothing else, no two with names that
   * are alike but for letter case, and none blank.
   */
  lemma TopFoldersAreShares(text: Text, host: Host, files: Files, config: Config, minimumAge: nat, now: int,
                            r: Result<CatalogScan, ScanError>, a: string, b: string)
    requires files.Finite() && Acceptable(text, files, config.shares)
    requires Meets(host, files, config.Options(minimumAge, now), config.shares, r) && r.Ok?
    requires var entries := r.value.catalog.entries;
             a in entries && b in entries && entries[a].parentId == "0" && entries[b].parentId == "0" && a != b
    ensures var x, y := r.value.catalog.entries[a], r.value.catalog.entries[b];
            && x.kind == Container && !text.blank(x.title) && text.lower(x.title) != text.lower(y.title)
  {
    var o, entries := config.Options(minimumAge, now), r.value.catalog.entries;
    var s := TopIsShare(host, files, config, minimumAge, now, r, a);
    var t := TopIsShare(host, files, config, minimumAge, now, r, b);
    hide Meets, DatedAt, Config.Options;
    var i :| 0 <= i < |config.shares| && config.shares[i] == s;
    var j :| 0 <= j < |config.shares| && config.shares[j] == t;
    assert Sound(text, files, config.shares[i]);
    if i == j {
      NoPathTwice(text, host, files, o, config.shares, r, a, b);
    } else {
      NamesDiffer(text, files, config.shares, i, j);
    }
  }

  lemma NamesDiffer(text: Text, files: Files, shares: seq<Share>, i: nat, j: nat)
    requires Acceptable(text, files, shares) && i < |shares| && j < |shares| && i != j
    ensures text.lower(shares[i].name) != text.lower(shares[j].name)
  {
    assert Sound(text, files, shares[i]) && Sound(text, files, shares[j]);
    if i < j {
      assert Compatible(text, files, shares[i], shares[j]);
    } else {
      assert Compatible(text, files, shares[j], shares[i]);
    }
  }

  lemma TopIsShare(host: Host, files: Files, config: Config, minimumAge: nat, now: int,
                   r: Result<CatalogScan, ScanError>, id: string)
    returns (share: Share)
    requires files.Finite() && Meets(host, files, config.Options(minimumAge, now), config.shares, r) && r.Ok?
    requires id in r.value.catalog.entries && r.value.catalog.entries[id].parentId == "0"
    ensures share in config.shares && IsShareEntry(files, share, r.value.catalog.entries[id])
  {
    share := PublishedEntryMeans(host, files, config, minimumAge, now, r, id);
    ScannedCatalogIsTree(host, files, config.Options(minimumAge, now), config.shares, r);
    hide Meets, IsShareEntry, IsFolder, IsMedia, Offered, DatedAt;
  }
}
