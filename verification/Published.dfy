/** What a scanned catalog says about the file system, told without the functions of the scan. */
module Published {
  import opened Prelude
  import opened Identity
  import opened Entries
  import opened FileSystem
  import opened Traversal
  import opened LinkOrder
  import opened Shares
  import opened Visibility
  import opened Reading
  import opened CatalogSpec
  import opened CatalogBuilder
  import opened Scan
  import opened ShareValidation

  // --- Files, in plain terms -----------------------------------------------------------------

  /** What the scan sees at a path: the target of a link if links are followed. */
  function Seen(files: Files, config: Config, path: Path): Option<Metadata> {
    if config.followSymlinks then files.stat(path) else files.lstat(path)
  }

  /** A name that can be listed and, unless hidden names are included, does not start with a dot. */
  predicate Offered(config: Config, name: Name) {
    Listable(name) && (config.includeHidden || !([DOT] <= name))
  }

  /** A file of a kind the share asks for. */
  predicate Wanted(host: Host, files: Files, config: Config, share: Share, path: Path) {
    && path != [] && Offered(config, path[|path| - 1])
    && Seen(files, config, path).Some? && Seen(files, config, path).value.fileType.RegularFile?
    && host.mediaKind(path).Some? && host.mediaKind(path).value.category in share.media
  }

  // --- Entries, in plain terms ---------------------------------------------------------------

  /** The entry of a share: a folder below the root that bears the share's name. */
  predicate IsShareEntry(files: Files, share: Share, e: Entry) {
    && files.canonicalize(share.path) == Some(e.path) && files.stat(e.path).Some?
    && e.parentId == "0" && e.title == share.name && e.kind == Container && e.size == 0
    && DatedAt(files.stat(e.path).value, e.modifiedSeconds)
  }

  /** It is listed in its directory, and filed under the entry of that directory. */
  predicate IsFiled(files: Files, entries: map<string, Entry>, e: Entry) {
    && e.path != []
    && var directory, name := e.path[..|e.path| - 1], e.path[|e.path| - 1];
    && files.readDir(directory).Some? && Some(name) in files.readDir(directory).value
    && e.parentId in entries && entries[e.parentId].path == directory && entries[e.parentId].kind == Container
  }

  predicate IsFolder(host: Host, config: Config, m: Metadata, e: Entry)
    requires e.path != []
  {
    && m.fileType.Directory? && config.recursive
    && e.kind == Container && e.size == 0 && e.title == host.lossy(e.path[|e.path| - 1])
  }

  ghost predicate IsMedia(host: Host, share: Share, m: Metadata, minimumAge: nat, now: int, e: Entry)
    requires e.path != []
  {
    && m.fileType.RegularFile? && OldEnough(m, minimumAge, now)
    && e.kind.Media? && host.mediaKind(e.path) == Some(e.kind.media) && e.kind.media.category in share.media
    && e.size == m.len && exists stem :: IsStem(e.path[|e.path| - 1], stem) && e.title == host.lossy(stem)
  }

  /** The entry of something below the share's directory. */
  ghost predicate IsItemEntry(host: Host, files: Files, config: Config, minimumAge: nat, now: int, share: Share,
                              entries: map<string, Entry>, e: Entry)
  {
    var root := files.canonicalize(share.path);
    && root.Some? && root.value < e.path
    && Offered(config, e.path[|e.path| - 1]) && IsFiled(files, entries, e)
    && var m := Seen(files, config, e.path);
    && m.Some? && DatedAt(m.value, e.modifiedSeconds)
    && (IsFolder(host, config, m.value, e) || IsMedia(host, share, m.value, minimumAge, now, e))
  }

  // --- Functions of the scan, in plain terms -------------------------------------------------

  lemma OfferedMeans(w: Walk, config: Config, name: Name)
    requires w.options.includeHidden == config.includeHidden
    ensures Considered(w, Some(name)) <==> Offered(config, name)
  {
  }

  lemma VerdictIsPlain(host: Host, files: Files, config: Config, minimumAge: nat, now: int, share: Share, w: Walk,
                       path: Path)
    requires w.host == host && w.files == files && w.media == share.media
    requires w.options == config.Options(minimumAge, now) && path != []
    ensures var v, m := VerdictAt(w, path), Seen(files, config, path);
            && (v.Descend? <==>
                 Offered(config, path[|path| - 1]) && m.Some? && m.value.fileType.Directory? && config.recursive)
            && (v.Add? <==> Wanted(host, files, config, share, path) && OldEnough(m.value, minimumAge, now))
            && (v.Withhold? <==> Wanted(host, files, config, share, path) && !OldEnough(m.value, minimumAge, now))
  {
    var name := path[|path| - 1];
    assert Parent(path) + [name] == path;
    VerdictMeans(w, Parent(path), w.Id('d', Parent(path)), Some(name));
    OfferedMeans(w, config, name);
    hide Walk.Id, IsStem, DatedAt, OldEnough, Listable, Offered, Considered, Inspect;
  }

  lemma EntryIsPlain(host: Host, files: Files, config: Config, minimumAge: nat, now: int, share: Share, w: Walk,
                     path: Path)
    requires w.host == host && w.files == files && w.media == share.media
    requires w.options == config.Options(minimumAge, now) && path != []
    requires VerdictAt(w, path).Descend? || VerdictAt(w, path).Add?
    ensures var e, m := VerdictAt(w, path).entry, Seen(files, config, path);
            && e.path == path && e.parentId == w.Id('d', Parent(path))
            && Offered(config, path[|path| - 1]) && m.Some? && DatedAt(m.value, e.modifiedSeconds)
            && (IsFolder(host, config, m.value, e) || IsMedia(host, share, m.value, minimumAge, now, e))
  {
    hide Inspect, Walk.Id, DatedAt, IsFolder, IsMedia, Seen, Offered;
    var directory, name := Parent(path), path[|path| - 1];
    assert directory + [name] == path;
    EntryInspected(host, files, config, minimumAge, now, share, w, directory, w.Id('d', directory), name);
  }

  lemma EntryInspected(host: Host, files: Files, config: Config, minimumAge: nat, now: int, share: Share, w: Walk,
                       directory: Path, parentId: string, name: Name)
    requires w.host == host && w.files == files && w.media == share.media
    requires w.options == config.Options(minimumAge, now)
    requires var v := Inspect(w, directory, parentId, Some(name)); v.Descend? || v.Add?
    ensures var e, m := Inspect(w, directory, parentId, Some(name)).entry, Seen(files, config, directory + [name]);
            && e.path == directory + [name] && e.parentId == parentId
            && Offered(config, name) && m.Some? && DatedAt(m.value, e.modifiedSeconds)
            && (IsFolder(host, config, m.value, e) || IsMedia(host, share, m.value, minimumAge, now, e))
  {
    VerdictMeans(w, directory, parentId, Some(name));
    InspectedEntry(w, directory, parentId, Some(name));
    OfferedMeans(w, config, name);
    hide Walk.Id, IsStem, DatedAt, OldEnough, Considered, Inspect, Offered;
  }

  lemma InspectedEntry(w: Walk, directory: Path, parentId: string, item: Option<Name>)
    ensures var v := Inspect(w, directory, parentId, item);
            !v.Skip? ==>
              && item.Some? && v.entry.path == directory + [item.value] && v.entry.parentId == parentId
              && v.entry.kind.Container? == v.Descend? && (v.Descend? ==> v.entry.size == 0)
  {
    hide Walk.Id;
  }

  // --- Catalogs ------------------------------------------------------------------------------

  /** The directory of something found is the root, or was found itself. */
  lemma ParentIsFound(w: Walk, e: Entry)
    requires w.files.Finite() && e in Contents(w, w.Id('d', w.root)).entries
    ensures e.path != [] && w.root < e.path && ListedThere(w, e.path) && Accepts(w, e)
    ensures var p := Parent(e.path);
            p == w.root || (p != [] && VerdictAt(w, p).Descend? && VerdictAt(w, p).entry.path == p
                            && VerdictAt(w, p).entry in Contents(w, w.Id('d', w.root)).entries)
  {
    ContentsExactly(w, e);
    FoundBelowRoot(w, e);
    var p := Parent(e.path);
    if p != w.root {
      ReadIsFound(w, p);
    }
  }

  /** A directory read below the root is an entry of the walk. */
  lemma ReadIsFound(w: Walk, p: Path)
    requires w.files.Finite() && Reads(w, p) && p != w.root
    ensures p != [] && VerdictAt(w, p).Descend? && VerdictAt(w, p).entry.path == p
    ensures VerdictAt(w, p).entry in Contents(w, w.Id('d', w.root)).entries
  {
    ReadBelowRoot(w, p);
    ReadFromParent(w, p);
    EntryAt(w, p);
    hide RootVisits, Visible, Contents, Listed, Walk.Id, Reads, VerdictAt;
    ContentsExactly(w, VerdictAt(w, p).entry);
  }

  lemma EntryAt(w: Walk, p: Path)
    requires p != []
    ensures !VerdictAt(w, p).Skip? ==> VerdictAt(w, p).entry.path == p
  {
    assert Parent(p) + [p[|p| - 1]] == p;
  }

  lemma ReadFromParent(w: Walk, p: Path)
    requires w.files.Finite() && Reads(w, p) && w.root < p
    ensures VerdictAt(w, p).Descend? && ListedThere(w, p) && Reads(w, Parent(p))
  {
    hide Inspect, Walk.Id, RootVisits, Visible, Listed, Chain;
    if w.options.followSymlinks {
      ReadIsSimple(w, VisitOf(w, p));
      assert p[..|p|] == p;
      assert StepEntered(w, p, |p|);
    } else {
      VisibleStep(w, p);
    }
  }

  lemma WalkOfShare(host: Host, files: Files, config: Config, minimumAge: nat, now: int, share: Share)
    requires files.Finite()
    ensures var o := config.Options(minimumAge, now);
            var r := ShareRoot(host, files, o, share);
            && (r.Some? <==> files.canonicalize(share.path).Some?
                             && files.stat(files.canonicalize(share.path).value).Some?)
            && (r.Some? ==>
                 var (w, e) := r.value;
                 && w.host == host && w.files == files && w.options == o && w.media == share.media
                 && files.canonicalize(share.path) == Some(w.root)
                 && e.id == w.Id('d', w.root) && IsShareEntry(files, share, e))
  {
    ShareIdIs(host, files, config.Options(minimumAge, now), share);
    hide ObjectId, ModifiedSeconds, DatedAt, Walk.RootHash;
    var root := files.canonicalize(share.path);
    if root.Some? && files.stat(root.value).Some? {
      DateMeans(files.stat(root.value).value);
    }
  }

  /** The entries of one share: its own, and those the walk finds. */
  lemma ShareHolds(host: Host, files: Files, options: ScanOptions, share: Share, e: Entry)
    requires files.Finite() && ExploreShare(host, files, options, share).Some?
    ensures var r, f := ShareRoot(host, files, options, share), ExploreShare(host, files, options, share).value;
            && r.Some? && r.value.0.files.Finite() && r.value.1 in f.entries
            && var here := Contents(r.value.0, r.value.0.Id('d', r.value.0.root));
            && (e in f.entries <==> e == r.value.1 || e in here.entries)
            && (e in f.withheld <==> e in here.withheld)
  {
    RootIsWalk(host, files, options, share);
    ShareIdIs(host, files, options, share);
    hide Contents, ShareRoot, Walk.Id;
  }

  /** What an entry found by a walk is, the catalog holding everything the share holds. */
  lemma FoundEntryMeans(host: Host, files: Files, config: Config, minimumAge: nat, now: int, share: Share,
                        entries: map<string, Entry>, e: Entry)
    requires files.Finite() && ExploreShare(host, files, config.Options(minimumAge, now), share).Some?
    requires forall x :: x in ExploreShare(host, files, config.Options(minimumAge, now), share).value.entries ==>
      x.id in entries && entries[x.id] == x
    requires e in ExploreShare(host, files, config.Options(minimumAge, now), share).value.entries
    ensures IsShareEntry(files, share, e)
         || IsItemEntry(host, files, config, minimumAge, now, share, entries, e)
  {
    var o := config.Options(minimumAge, now);
    var (w, top) := ShareRoot(host, files, o, share).value;
    WalkOfShare(host, files, config, minimumAge, now, share);
    ShareHolds(host, files, o, share, e);
    if e != top {
      ParentIsFound(w, e);
      EntryIsPlain(host, files, config, minimumAge, now, share, w, e.path);
      ParentEntry(host, files, o, share, w, top, entries, e);
    }
    hide ShareRoot, ExploreShare, Contents, IsShareEntry, IsFolder, IsMedia, Offered, DatedAt, VerdictAt,
         Config.Options;
  }

  /** The entry of the directory of something found is in the catalog. */
  lemma ParentEntry(host: Host, files: Files, o: ScanOptions, share: Share, w: Walk, top: Entry,
                    entries: map<string, Entry>, e: Entry)
    requires files.Finite() && ExploreShare(host, files, o, share).Some?
    requires ShareRoot(host, files, o, share) == Some((w, top)) && w.files == files
    requires top.id == w.Id('d', w.root) && top.path == w.root && top.kind == Container
    requires forall x :: x in ExploreShare(host, files, o, share).value.entries ==>
      x.id in entries && entries[x.id] == x
    requires e in Contents(w, w.Id('d', w.root)).entries
    ensures e.path != [] && IsFiled(files, entries, e)
  {
    ParentIsFound(w, e);
    FiledUnder(w, e);
    var p := Parent(e.path);
    if p != w.root {
      FiledUnder(w, VerdictAt(w, p).entry);
    }
    hide Inspect, Walk.Id, Contents, ShareRoot, ExploreShare;
    ShareHolds(host, files, o, share, top);
    if p != w.root {
      ShareHolds(host, files, o, share, VerdictAt(w, p).entry);
    }
  }

  /** Entries are identified by where they are below the share's directory, folders and files apart. */
  lemma FoundIdMeans(host: Host, files: Files, options: ScanOptions, share: Share, e: Entry)
    requires files.Finite() && ExploreShare(host, files, options, share).Some?
    requires e in ExploreShare(host, files, options, share).value.entries
    ensures var root := files.canonicalize(share.path);
            root.Some? && Identifies(e.id, if e.kind.Container? then 'd' else 'f', root.value, e.path)
  {
    var (w, top) := ShareRoot(host, files, options, share).value;
    ShareIsAt(host, files, options, share);
    ShareHolds(host, files, options, share, e);
    if e == top {
      IdIdentifies('d', w.root, w.root);
    } else {
      ParentIsFound(w, e);
      IdOfAccepted(w, e);
      IdIdentifies(if e.kind.Container? then 'd' else 'f', w.root, e.path);
    }
    hide ShareRoot, ExploreShare, Contents, Identifies, ObjectId, VerdictAt, Reads, Listed;
  }

  lemma ShareIsAt(host: Host, files: Files, options: ScanOptions, share: Share)
    ensures var r := ShareRoot(host, files, options, share);
            r.Some? ==>
              var (w, top) := r.value;
              && files.canonicalize(share.path) == Some(w.root) && top.path == w.root && top.kind == Container
              && top.id == ObjectId('d', StableOsHash(AbsoluteBytes(w.root)), RelativeBytes(w.root, w.root))
  {
    var r := ShareRoot(host, files, options, share);
    if r.Some? {
      assert r.value.0.root[|r.value.0.root|..] == [];
    }
    hide ObjectId;
  }

  lemma IdOfAccepted(w: Walk, e: Entry)
    requires Accepts(w, e)
    ensures e.id == ObjectId(if e.kind.Container? then 'd' else 'f', StableOsHash(AbsoluteBytes(w.root)),
                             RelativeBytes(w.root, e.path))
  {
    hide ObjectId;
  }

  lemma FiledUnder(w: Walk, e: Entry)
    requires e.path != [] && Accepts(w, e)
    ensures e.parentId == w.Id('d', Parent(e.path))
    ensures e.kind.Container? ==> e.id == w.Id('d', e.path)
    ensures VerdictAt(w, e.path).Descend? ==> e.kind == Container
  {
    hide Walk.Id;
  }

  /**
   * Every entry of a scanned catalog is the folder of a share, or something in a directory of one:
   * listed there and filed under that directory's entry; with the title, size and date of what is
   * there; and, if it is a file, of a wanted kind and old enough.
   */
  lemma PublishedEntryMeans(host: Host, files: Files, config: Config, minimumAge: nat, now: int,
                            r: Result<CatalogScan, ScanError>, id: string)
    returns (share: Share)
    requires files.Finite() && Meets(host, files, config.Options(minimumAge, now), config.shares, r) && r.Ok?
    requires id in r.value.catalog.entries
    ensures share in config.shares
    ensures var entries := r.value.catalog.entries;
            || IsShareEntry(files, share, entries[id])
            || IsItemEntry(host, files, config, minimumAge, now, share, entries, entries[id])
  {
    hide IsCatalogOf, IsShareEntry, IsItemEntry, Config.Options, ExploreShares, ExploreShare;
    var o, e := config.Options(minimumAge, now), r.value.catalog.entries[id];
    EntryIsFound(host, files, o, config.shares, r, id);
    var i := EveryEntryHasAShare(host, files, o, config.shares, e);
    share := config.shares[i];
    ShareIsPublished(host, files, o, config.shares, share, r);
    FoundEntryMeans(host, files, config, minimumAge, now, share, r.value.catalog.entries, e);
  }

  /** The identifier of every entry of a scanned catalog. */
  lemma PublishedIdMeans(host: Host, files: Files, options: ScanOptions, shares: seq<Share>,
                         r: Result<CatalogScan, ScanError>, id: string)
    returns (share: Share)
    requires files.Finite() && Meets(host, files, options, shares, r) && r.Ok? && id in r.value.catalog.entries
    ensures share in shares && files.canonicalize(share.path).Some?
    ensures var e := r.value.catalog.entries[id];
            && e.id == id
            && Identifies(id, if e.kind.Container? then 'd' else 'f', files.canonicalize(share.path).value, e.path)
  {
    var e := r.value.catalog.entries[id];
    EntryIsFound(host, files, options, shares, r, id);
    var i := EveryEntryHasAShare(host, files, options, shares, e);
    share := shares[i];
    FoundIdMeans(host, files, options, share, e);
    hide ExploreShares, ExploreShare, Identifies, Linked, Rooted, ListsSorted, Fingerprint;
  }

  lemma EntryIsFound(host: Host, files: Files, options: ScanOptions, shares: seq<Share>,
                     r: Result<CatalogScan, ScanError>, id: string)
    requires files.Finite() && Meets(host, files, options, shares, r) && r.Ok? && id in r.value.catalog.entries
    ensures var total := ExploreShares(host, files, options, shares);
            total.Some? && r.value.catalog.entries[id] in total.value.entries
  {
    hide ExploreShares, Linked, Rooted, ListsSorted, Fingerprint;
  }

  /** A scan succeeds only if every share resolves, and then each share has its entry. */
  lemma EveryShareIsPublished(host: Host, files: Files, config: Config, minimumAge: nat, now: int,
                              r: Result<CatalogScan, ScanError>, share: Share)
    requires files.Finite() && Meets(host, files, config.Options(minimumAge, now), config.shares, r) && r.Ok?
    requires share in config.shares
    ensures exists id :: id in r.value.catalog.entries && IsShareEntry(files, share, r.value.catalog.entries[id])
  {
    var o := config.Options(minimumAge, now);
    hide IsCatalogOf, IsShareEntry, Config.Options, ExploreShares, ExploreShare, ShareRoot, Contents;
    ShareIsPublished(host, files, o, config.shares, share, r);
    WalkOfShare(host, files, config, minimumAge, now, share);
    var top := ShareTop(host, files, o, share);
    assert IsShareEntry(files, share, r.value.catalog.entries[top.id]);
  }

  lemma ShareTop(host: Host, files: Files, options: ScanOptions, share: Share) returns (top: Entry)
    requires files.Finite() && ExploreShare(host, files, options, share).Some?
    ensures ShareRoot(host, files, options, share).Some? && top == ShareRoot(host, files, options, share).value.1
    ensures top in ExploreShare(host, files, options, share).value.entries
  {
    top := ShareRoot(host, files, options, share).value.1;
    ShareHolds(host, files, options, share, top);
  }

  /** What the walk makes of an item it reads is in the catalog, or counted as withheld. */
  lemma ItemIsPublished(host: Host, files: Files, config: Config, minimumAge: nat, now: int,
                        r: Result<CatalogScan, ScanError>, share: Share, path: Path)
    returns (w: Walk)
    requires files.Finite() && Meets(host, files, config.Options(minimumAge, now), config.shares, r) && r.Ok?
    requires share in config.shares && ReadsItem(host, files, config.Options(minimumAge, now), share, path)
    ensures w.host == host && w.files == files && w.media == share.media
    ensures w.options == config.Options(minimumAge, now) && path != []
    ensures files.canonicalize(share.path) == Some(w.root) && ListedThere(w, path) && Reads(w, Parent(path))
    ensures var v := VerdictAt(w, path);
            && (v.Add? || v.Descend? ==>
                 && v.entry.id in r.value.catalog.entries && r.value.catalog.entries[v.entry.id] == v.entry
                 && v.entry.path == path)
            && (v.Withhold? ==> r.value.unsettledFiles > 0)
  {
    var o := config.Options(minimumAge, now);
    hide IsCatalogOf, Config.Options, ExploreShares, ExploreShare, ShareRoot, Contents, VerdictAt, Reads, ListedThere,
         IsShareEntry;
    WalkOfShare(host, files, config, minimumAge, now, share);
    w := ShareRoot(host, files, o, share).value.0;
    ItemIsRead(host, files, o, share, path);
    NowhereListed(w);
    EntryAt(w, path);
    ShareIsPublished(host, files, o, config.shares, share, r);
    var v := VerdictAt(w, path);
    if !v.Skip? {
      ContentsExactly(w, v.entry);
      ShareHolds(host, files, o, share, v.entry);
    }
  }

  /** Every published file is a regular file, with its own size, that had reached the minimum age. */
  lemma PublishedFileIsOld(host: Host, files: Files, config: Config, minimumAge: nat, now: int,
                           r: Result<CatalogScan, ScanError>, id: string)
    requires files.Finite() && Meets(host, files, config.Options(minimumAge, now), config.shares, r) && r.Ok?
    requires id in r.value.catalog.entries && r.value.catalog.entries[id].kind.Media?
    ensures var e := r.value.catalog.entries[id]; var m := Seen(files, config, e.path);
            && m.Some? && m.value.fileType.RegularFile? && e.size == m.value.len
            && (minimumAge > 0 ==> m.value.modified.Some? && now - m.value.modified.value >= minimumAge)
  {
    var e := r.value.catalog.entries[id];
    var share := PublishedEntryMeans(host, files, config, minimumAge, now, r, id);
    hide Meets, Offered, DatedAt, IsFolder, IsStem, IsFiled, IsShareEntry, Seen;
    FolderIsNoMedia(host, files, config, share, e);
  }

  /**
   * A file of a wanted kind that is listed in a directory the scan reads is published exactly when
   * there is no minimum age, or its date is known and lies at least that far back; otherwise it is
   * counted as withheld.
   */
  lemma FilePublishedIff(host: Host, files: Files, config: Config, minimumAge: nat, now: int,
                         r: Result<CatalogScan, ScanError>, share: Share, path: Path)
    requires files.Finite() && Meets(host, files, config.Options(minimumAge, now), config.shares, r) && r.Ok?
    requires share in config.shares && ReadsItem(host, files, config.Options(minimumAge, now), share, path)
    requires Wanted(host, files, config, share, path)
    ensures var m, entries := Seen(files, config, path).value, r.value.catalog.entries;
            var aged := minimumAge == 0 || (m.modified.Some? && now - m.modified.value >= minimumAge);
            && (aged <==> exists id :: id in entries && entries[id].path == path && entries[id].kind.Media?)
            && (!aged ==> r.value.unsettledFiles > 0)
  {
    var entries := r.value.catalog.entries;
    var w := ItemIsPublished(host, files, config, minimumAge, now, r, share, path);
    VerdictIsPlain(host, files, config, minimumAge, now, share, w, path);
    EntryIsMedia(w, path);
    hide Meets, ReadsItem, VerdictAt, Offered, Seen, Config.Options, ListedThere, Reads;
    if VerdictAt(w, path).Add? {
      assert VerdictAt(w, path).entry.id in entries;
    }
    if id :| id in entries && entries[id].path == path && entries[id].kind.Media? {
      PublishedFileIsOld(host, files, config, minimumAge, now, r, id);
    }
  }

  lemma EntryIsMedia(w: Walk, path: Path)
    requires path != []
    ensures VerdictAt(w, path).Add? ==> VerdictAt(w, path).entry.kind.Media?
    ensures VerdictAt(w, path).Descend? ==> VerdictAt(w, path).entry.kind == Container
  {
  }

  lemma FolderIsNoMedia(host: Host, files: Files, config: Config, share: Share, e: Entry)
    requires e.kind.Media?
    ensures !IsShareEntry(files, share, e)
    ensures e.path != [] ==> forall m :: !IsFolder(host, config, m, e)
  {
  }

  /**
   * A directory listed in one that is read has its own entry if the scan is recursive; and, links
   * not being followed, it is read in turn.
   */
  lemma FolderIsPublished(host: Host, files: Files, config: Config, minimumAge: nat, now: int,
                          r: Result<CatalogScan, ScanError>, share: Share, path: Path)
    requires files.Finite() && Meets(host, files, config.Options(minimumAge, now), config.shares, r) && r.Ok?
    requires share in config.shares && ReadsItem(host, files, config.Options(minimumAge, now), share, path)
    requires path != [] && Offered(config, path[|path| - 1]) && config.recursive
    requires Seen(files, config, path).Some? && Seen(files, config, path).value.fileType.Directory?
    ensures var entries := r.value.catalog.entries;
            exists id :: id in entries && entries[id].path == path && entries[id].kind == Container
    ensures !config.followSymlinks ==> forall name ::
      files.readDir(path).Some? && Some(name) in files.readDir(path).value ==>
        ReadsItem(host, files, config.Options(minimumAge, now), share, path + [name])
  {
    var o := config.Options(minimumAge, now);
    var w := ItemIsPublished(host, files, config, minimumAge, now, r, share, path);
    VerdictIsPlain(host, files, config, minimumAge, now, share, w, path);
    EntryIsMedia(w, path);
    if !config.followSymlinks {
      WalkOfShare(host, files, config, minimumAge, now, share);
      VisibleStep(w, path);
      forall name | files.readDir(path).Some? && Some(name) in files.readDir(path).value
        ensures ReadsItem(host, files, o, share, path + [name])
      {
        assert Parent(path + [name]) == path;
      }
    }
  }

  /** Links not being followed, whatever the share's own directory lists is read. */
  lemma RootIsRead(host: Host, files: Files, config: Config, minimumAge: nat, now: int, share: Share, name: Name)
    requires files.Finite() && !config.followSymlinks
    requires files.canonicalize(share.path).Some? && files.stat(files.canonicalize(share.path).value).Some?
    requires var listing := files.readDir(files.canonicalize(share.path).value);
             listing.Some? && Some(name) in listing.value
    ensures ReadsItem(host, files, config.Options(minimumAge, now), share,
                      files.canonicalize(share.path).value + [name])
  {
    WalkOfShare(host, files, config, minimumAge, now, share);
    assert Parent(files.canonicalize(share.path).value + [name]) == files.canonicalize(share.path).value;
    hide IsShareEntry, ShareRoot;
  }
}
