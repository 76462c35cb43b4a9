/**
 * A directory and a link to it: the smallest share whose catalog depends on the order of listings
 * when links are followed.
 */
module AliasExample {
  import opened Prelude
  import opened Fnv
  import opened Identity
  import opened Entries
  import opened FileSystem
  import opened Traversal
  import opened Following
  import opened LinkOrder
  import opened Shares
  import opened CatalogSpec
  import opened CatalogBuilder
  import opened Scan

  const SHARE: Name := [0x73]
  const REAL: Name := [0x61]
  const LINK: Name := [0x63]
  const SONG: Name := [0x6f, 0x2e, 0x6d, 0x70, 0x33]

  /** `/s` holds the directory `a` and the link `c` to it; `a` holds the file `o.mp3`. */
  function Resolved(p: Path): Option<Path> {
    if p == [] || p == [SHARE] then Some(p)
    else if p == [SHARE, REAL] || p == [SHARE, LINK] then Some([SHARE, REAL])
    else if p == [SHARE, REAL, SONG] || p == [SHARE, LINK, SONG] then Some([SHARE, REAL, SONG])
    else None
  }

  const FOLDER := Metadata(Directory, 0, Some(0))
  const AUDIO_FILE := Metadata(RegularFile, 1, Some(0))

  function Status(p: Path): Option<Metadata> {
    var target := Resolved(p);
    if target.None? then None else if target.value == [SHARE, REAL, SONG] then Some(AUDIO_FILE) else Some(FOLDER)
  }

  /** The names in a directory; `linkFirst` is the order in which the share lists its two items. */
  function Names(p: Path, linkFirst: bool): Option<seq<Option<Name>>> {
    if p == [] then Some([Some(SHARE)])
    else if p == [SHARE] then Some(if linkFirst then [Some(LINK), Some(REAL)] else [Some(REAL), Some(LINK)])
    else if p == [SHARE, REAL] then Some([Some(SONG)])
    else None
  }

  function Tree(linkFirst: bool): Files {
    Files(
      Resolved,
      Status,
      (p: Path) => if p == [SHARE, LINK] then Some(Metadata(Symlink, 0, Some(0))) else Status(p),
      (p: Path) => if Resolved(p).Some? then Names(Resolved(p).value, linkFirst) else None,
      2,
      {[], [SHARE], [SHARE, REAL], [SHARE, REAL, SONG]})
  }

  /**
   * The tree behaves like a file system: resolving twice is resolving once, a path and what it
   * resolves to look the same, what does not resolve does not exist, and the items of a directory
   * are exactly the paths one step below it that resolve.
   */
  lemma TreeIsConsistent(linkFirst: bool, p: Path, name: Name)
    ensures var t := Tree(linkFirst);
            && (t.canonicalize(p).Some? ==>
                  var q := t.canonicalize(p).value;
                  t.canonicalize(q) == Some(q) && t.stat(p) == t.stat(q) == t.lstat(q) && t.readDir(p) == t.readDir(q))
            && (t.canonicalize(p).None? ==> t.stat(p).None? && t.lstat(p).None? && t.readDir(p).None?)
            && (t.readDir(p).Some? <==> t.stat(p).Some? && t.stat(p).value.fileType.Directory?)
            && (t.canonicalize(p + [name]).Some? <==> t.readDir(p).Some? && Some(name) in t.readDir(p).value)
  {
    ResolvedStep(p, name);
    NamesListed(p, name, linkFirst);
  }

  /** Exactly five paths one step below another resolve. */
  lemma ResolvedStep(p: Path, name: Name)
    ensures Resolved(p + [name]).Some? <==>
            || (p == [] && name == SHARE)
            || (p == [SHARE] && (name == REAL || name == LINK))
            || ((p == [SHARE, REAL] || p == [SHARE, LINK]) && name == SONG)
  {
    assert (p + [name])[..|p|] == p && (p + [name])[|p|] == name;
    assert [] + [SHARE] == [SHARE] && [SHARE] + [REAL] == [SHARE, REAL] && [SHARE] + [LINK] == [SHARE, LINK];
    assert [SHARE, REAL] + [SONG] == [SHARE, REAL, SONG] && [SHARE, LINK] + [SONG] == [SHARE, LINK, SONG];
  }

  lemma NamesListed(p: Path, name: Name, linkFirst: bool)
    ensures (Resolved(p).Some? && Names(Resolved(p).value, linkFirst).Some?
             && Some(name) in Names(Resolved(p).value, linkFirst).value) <==>
            || (p == [] && name == SHARE)
            || (p == [SHARE] && (name == REAL || name == LINK))
            || ((p == [SHARE, REAL] || p == [SHARE, LINK]) && name == SONG)
  {
  }

  // --- What the walk finds -------------------------------------------------------------------

  const ONE_SHARE := Share("music", [SHARE], [Audio])

  function WithLinks(minimumAge: nat, now: nat): ScanOptions {
    ScanOptions(true, true, false, minimumAge, now)
  }

  function WalkOf(host: Host, linkFirst: bool, minimumAge: nat, now: nat): Walk {
    Walk(host, Tree(linkFirst), WithLinks(minimumAge, now), [Audio], [SHARE])
  }

  /** The host takes the file for audio under either name. */
  ghost predicate KnowsSong(host: Host) {
    forall d :: d == REAL || d == LINK ==>
      var kind := host.mediaKind([SHARE, d, SONG]); kind.Some? && kind.value.category == Audio
  }

  lemma ListsOne(w: Walk, directory: Path, id: string, a: Option<Name>)
    ensures Direct(w, directory, id, [a]) == DirectItem(w, directory, id, a)
    ensures Subdirectories(w, directory, id, [a]) == SubdirectoryAt(w, directory, id, a)
  {
    assert [a][..0] == [];
    PlusNothing(DirectItem(w, directory, id, a));
    hide DirectItem, SubdirectoryAt;
  }

  lemma ListsTwo(w: Walk, directory: Path, id: string, a: Option<Name>, b: Option<Name>)
    ensures Direct(w, directory, id, [a, b]) == DirectItem(w, directory, id, a).Plus(DirectItem(w, directory, id, b))
    ensures Subdirectories(w, directory, id, [a, b])
      == SubdirectoryAt(w, directory, id, a) + SubdirectoryAt(w, directory, id, b)
  {
    ListsOne(w, directory, id, a);
    hide DirectItem, SubdirectoryAt;
    assert [a, b][..1] == [a];
  }

  /** Two items of the share lead to one directory, which holds one song; the item listed last is read. */
  ghost predicate Aliased(w: Walk, first: Name, last: Name, song: Name) {
    && w.files.Finite() && w.options.followSymlinks
    && w.files.readDir(w.root) == Some([Some(first), Some(last)])
    && w.files.readDir(w.root + [last]) == Some([Some(song)])
    && w.files.canonicalize(w.root) == Some(w.root)
    && (var target := w.files.canonicalize(w.root + [last]);
        target.Some? && target.value != w.root && w.files.canonicalize(w.root + [first]) == target)
    && VerdictIn(w, w.root, first).Descend? && VerdictIn(w, w.root, last).Descend?
    && VerdictIn(w, w.root + [last], song).Add?
  }

  function VerdictIn(w: Walk, directory: Path, name: Name): Verdict {
    Inspect(w, directory, w.Id('d', directory), Some(name))
  }

  lemma FolderAdds(w: Walk, directory: Path, name: Name)
    requires VerdictIn(w, directory, name).Descend?
    ensures var id := w.Id('d', directory);
            && DirectItem(w, directory, id, Some(name))
                 == Found(multiset{VerdictIn(w, directory, name).entry}, multiset{})
            && SubdirectoryAt(w, directory, id, Some(name)) == [VisitOf(w, directory + [name])]
  {
    hide Inspect, Walk.Id;
  }

  lemma SongAdds(w: Walk, directory: Path, name: Name)
    requires VerdictIn(w, directory, name).Add?
    ensures var id := w.Id('d', directory);
            && DirectItem(w, directory, id, Some(name))
                 == Found(multiset{VerdictIn(w, directory, name).entry}, multiset{})
            && SubdirectoryAt(w, directory, id, Some(name)) == []
  {
    hide Inspect, Walk.Id;
  }

  lemma TwoFound(a: Entry, b: Entry)
    ensures Found(multiset{a}, multiset{}).Plus(Found(multiset{b}, multiset{})) == Found(multiset{a, b}, multiset{})
  {
  }

  lemma ThreeFound(a: Entry, b: Entry, c: Entry)
    ensures Found(multiset{a, b}, multiset{}).Plus(Found(multiset{c}, multiset{}))
      == Found(multiset{a, b, c}, multiset{})
  {
  }

  /** The share's own listing. */
  lemma RootListing(w: Walk, first: Name, last: Name)
    requires w.files.readDir(w.root) == Some([Some(first), Some(last)])
    requires VerdictIn(w, w.root, first).Descend? && VerdictIn(w, w.root, last).Descend?
    ensures var here := VisitOf(w, w.root);
            && Below(w, here) == [VisitOf(w, w.root + [first]), VisitOf(w, w.root + [last])]
            && DirectVisit(w, here)
                 == Found(multiset{VerdictIn(w, w.root, first).entry, VerdictIn(w, w.root, last).entry}, multiset{})
  {
    hide VerdictIn, Walk.Id, Direct, Subdirectories, DirectItem, SubdirectoryAt, Found.Plus;
    ListsTwo(w, w.root, w.Id('d', w.root), Some(first), Some(last));
    FolderAdds(w, w.root, first);
    FolderAdds(w, w.root, last);
    TwoFound(VerdictIn(w, w.root, first).entry, VerdictIn(w, w.root, last).entry);
  }

  /** The listing of the directory behind the two names. */
  lemma FolderListing(w: Walk, first: Name, last: Name, song: Name)
    requires Aliased(w, first, last, song)
    ensures var here := VisitOf(w, w.root + [last]);
            && Below(w, here) == []
            && DirectVisit(w, here) == Found(multiset{VerdictIn(w, w.root + [last], song).entry}, multiset{})
  {
    ListsOne(w, w.root + [last], w.Id('d', w.root + [last]), Some(song));
    SongAdds(w, w.root + [last], song);
    hide VerdictIn, Walk.Id, Direct, Subdirectories, DirectItem, SubdirectoryAt;
  }

  /** The stack yields the item listed last; by the time the other name comes up its directory was read. */
  lemma VisitsRead(w: Walk, first: Name, last: Name, song: Name)
    requires Aliased(w, first, last, song)
    ensures RootVisits(w) == [VisitOf(w, w.root), VisitOf(w, w.root + [last])]
  {
    RootListing(w, first, last);
    FolderListing(w, first, last, song);
    var target := w.files.canonicalize(w.root + [last]).value;
    hide VerdictIn, Walk.Id, Below, FollowedVisits, DirectVisit;
    VisitsOfTwo(w, VisitOf(w, w.root), VisitOf(w, w.root + [first]), VisitOf(w, w.root + [last]), w.root, target);
  }

  lemma VisitsOfTwo(w: Walk, root: Visit, a: Visit, b: Visit, c: Path, d: Path)
    requires w.files.Finite() && c != d && w.files.canonicalize(root.0) == Some(c)
    requires w.files.canonicalize(a.0) == w.files.canonicalize(b.0) == Some(d)
    requires Below(w, root) == [a, b] && Below(w, b) == []
    ensures FollowedVisits(w, {}, [root]) == [root, b]
  {
    hide FollowedVisits, Below;
    var none: Pending := [];
    var start: Pending := [root];
    var both, one: Pending := [a, b], [a];
    assert start[..0] == none && both[..1] == one && one[..0] == none;
    FollowedOne(w, {}, start);
    assert none + both == both;
    FollowedOne(w, {} + {c}, both);
    assert one + none == one;
    FollowedOne(w, {} + {c} + {d}, one);
    NothingLeft(w, {} + {c} + {d});
  }

  lemma NothingLeft(w: Walk, visited: set<Path>)
    requires w.files.Finite()
    ensures FollowedVisits(w, visited, []) == []
  {
  }

  lemma SumOfTwo(w: Walk, a: Visit, b: Visit)
    ensures DirectSum(w, [a, b]) == DirectVisit(w, a).Plus(DirectVisit(w, b))
  {
    var none: Pending := [];
    var one: Pending := [a];
    assert [a, b] == one + [b] && one == none + [a];
    DirectSumOne(w, one, b);
    DirectSumOne(w, none, a);
    PlusNothing(DirectVisit(w, a));
    assert DirectSum(w, none) == NOTHING;
    hide DirectVisit, DirectSum;
  }

  /** The walk finds both folders, and the song below the name that was read. */
  lemma WalkFinds(w: Walk, first: Name, last: Name, song: Name)
    requires Aliased(w, first, last, song)
    ensures Followed(w)
         == Found(multiset{VerdictIn(w, w.root, first).entry, VerdictIn(w, w.root, last).entry,
                           VerdictIn(w, w.root + [last], song).entry}, multiset{})
  {
    VisitsRead(w, first, last, song);
    RootListing(w, first, last);
    FolderListing(w, first, last, song);
    hide VerdictIn, Walk.Id, DirectVisit, RootVisits, DirectSum, Found.Plus;
    ThreeFound(VerdictIn(w, w.root, first).entry, VerdictIn(w, w.root, last).entry,
               VerdictIn(w, w.root + [last], song).entry);
    SumOfTwo(w, VisitOf(w, w.root), VisitOf(w, w.root + [last]));
  }

  // --- What the scan returns -----------------------------------------------------------------

  lemma HashOfOne(b: byte)
    ensures StableOsHash([]) == OFFSET_BASIS && StableOsHash([b]) == Step(OFFSET_BASIS, b)
  {
    assert [b][..0] == [];
  }

  /** One-byte names of odd bytes hash differently from each other and from the empty path. */
  lemma HashesDiffer(b: byte, c: byte)
    requires b % 2 == 1 && c % 2 == 1 && b != c
    ensures StableOsHash([]) != StableOsHash([b]) && StableOsHash([]) != StableOsHash([c])
    ensures StableOsHash([b]) != StableOsHash([c])
  {
    HashOfOne(b);
    HashOfOne(c);
    StepIsEven(b);
    StepIsEven(c);
    assert OFFSET_BASIS % 2 == 1;
    hide Step, StableOsHash;
    if Step(OFFSET_BASIS, b) == Step(OFFSET_BASIS, c) {
      StepSeparatesBytes(OFFSET_BASIS, b, c);
    }
  }

  /** One step from the odd offset basis on an odd byte leads to an even state. */
  lemma StepIsEven(b: byte)
    requires b % 2 == 1
    ensures Step(OFFSET_BASIS, b) % 2 == 0
  {
    XorParts(OFFSET_BASIS, b);
    var x := Xor64(OFFSET_BASIS, b);
    hide Xor;
    assert x % 2 == 0;
    EvenProduct(x);
  }

  lemma EvenProduct(x: u64)
    requires x % 2 == 0
    ensures WrappingMul(x, PRIME) % 2 == 0
  {
    TwiceTimes(x / 2, PRIME);
    EvenRemainder(x / 2 * PRIME);
  }

  lemma TwiceTimes(half: nat, factor: nat)
    ensures 2 * half * factor == 2 * (half * factor)
  {
  }

  lemma EvenRemainder(half: nat)
    ensures 2 * half % U64_COUNT % 2 == 0
  {
    var q, r := 2 * half / U64_COUNT, 2 * half % U64_COUNT;
    assert 2 * half == U64_COUNT * q + r;
    assert r == 2 * (half - 0x8000_0000_0000_0000 * q);
  }

  lemma RelativeToRoot(w: Walk, name: Name)
    ensures RelativeBytes(w.root, w.root) == [] && RelativeBytes(w.root, w.root + [name]) == name
  {
    assert w.root[|w.root|..] == [] && (w.root + [name])[|w.root|..] == [name];
  }

  lemma FolderIds(w: Walk, b: byte, c: byte)
    requires b % 2 == 1 && c % 2 == 1 && b != c
    ensures var x, y, z := w.Id('d', w.root), w.Id('d', w.root + [[b]]), w.Id('d', w.root + [[c]]);
            x != y && y != z && x != z
  {
    HashesDiffer(b, c);
    RelativeToRoot(w, [b]);
    RelativeToRoot(w, [c]);
    hide RelativeBytes, ObjectId, StableOsHash;
    ObjectIdParts('d', w.RootHash(), [], 'd', w.RootHash(), [b]);
    ObjectIdParts('d', w.RootHash(), [], 'd', w.RootHash(), [c]);
    ObjectIdParts('d', w.RootHash(), [b], 'd', w.RootHash(), [c]);
  }

  /** Four entries with four identifiers. */
  lemma FourAreDistinct(a: Entry, b: Entry, c: Entry, d: Entry)
    requires a.id != b.id && a.id != c.id && b.id != c.id && d.id != a.id && d.id != b.id && d.id != c.id
    ensures DistinctIds(multiset{a} + multiset{b, c, d})
  {
  }

  lemma FourPaths(a: Entry, b: Entry, c: Entry, d: Entry, n: nat)
    requires |a.path| <= n && |b.path| <= n && |c.path| <= n
    ensures var all := multiset{a} + multiset{b, c, d};
            d in all && forall e :: e in all ==> |e.path| <= n || e.path == d.path
  {
  }

  lemma KindLetter(w: Walk, kind: char, path: Path)
    ensures |w.Id(kind, path)| == 33 && w.Id(kind, path)[0] == kind
  {
    hide RelativeBytes, StableOsHash;
  }

  lemma OneShareIs(host: Host, files: Files, options: ScanOptions, share: Share)
    requires files.Finite()
    ensures ExploreShares(host, files, options, [share]) == ExploreShare(host, files, options, share)
  {
    BothNothing(ExploreShare(host, files, options, share));
    hide ExploreShare;
    assert [share][1..] == [];
  }

  /** All there is has four identifiers, and the song is below the name that was read. */
  lemma AliasedDistinct(w: Walk, b: byte, c: byte, song: Name, root: Entry)
    requires Aliased(w, [b], [c], song) && b % 2 == 1 && c % 2 == 1 && b != c
    requires root.id == w.Id('d', w.root) && root.path == w.root
    ensures var all := multiset{root} + Followed(w).entries;
            && DistinctIds(all)
            && (exists e :: e in all && e.path == w.root + [[c]] + [song])
            && (forall e :: e in all ==> |e.path| <= |w.root| + 1 || e.path == w.root + [[c]] + [song])
  {
    WalkFinds(w, [b], [c], song);
    FolderIds(w, b, c);
    EntryIs(w, w.root, [b]);
    EntryIs(w, w.root, [c]);
    EntryIs(w, w.root + [[c]], song);
    var x, y, z := VerdictIn(w, w.root, [b]).entry, VerdictIn(w, w.root, [c]).entry,
      VerdictIn(w, w.root + [[c]], song).entry;
    KindLetter(w, 'd', w.root);
    hide Aliased, VerdictIn, Walk.Id, Followed, DistinctIds;
    FourAreDistinct(root, x, y, z);
    FourPaths(root, x, y, z, |w.root| + 1);
  }

  lemma EntryIs(w: Walk, directory: Path, name: Name)
    requires !VerdictIn(w, directory, name).Skip?
    ensures var v := VerdictIn(w, directory, name);
            && v.entry.path == directory + [name]
            && v.entry.id == w.Id(if v.Descend? then 'd' else 'f', directory + [name])
            && v.entry.id != "" && v.entry.id[0] == (if v.Descend? then 'd' else 'f')
  {
    KindLetter(w, 'd', directory + [name]);
    KindLetter(w, 'f', directory + [name]);
    hide Inspect, Walk.Id;
  }

  // --- The tree is such a share --------------------------------------------------------------

  lemma FolderStatus(name: Name)
    requires name == REAL || name == LINK
    ensures Status([SHARE] + [name]) == Some(FOLDER) && Listable(name) && !IsHidden(name)
  {
    assert [SHARE] + [name] == [SHARE, name];
    assert SLASH !in REAL && SLASH !in LINK;
  }

  lemma FolderIsEntered(host: Host, linkFirst: bool, minimumAge: nat, now: nat, name: Name)
    requires name == REAL || name == LINK
    ensures VerdictIn(WalkOf(host, linkFirst, minimumAge, now), [SHARE], name).Descend?
  {
    FolderStatus(name);
    hide Inspect, Walk.Id, Status, IsHidden, Listable;
    DirectoryIsEntered(WalkOf(host, linkFirst, minimumAge, now), [SHARE], name, FOLDER);
  }

  lemma DirectoryIsEntered(w: Walk, directory: Path, name: Name, m: Metadata)
    requires w.options.followSymlinks && w.options.recursive && Listable(name) && !IsHidden(name)
    requires w.files.stat(directory + [name]) == Some(m) && m.fileType.Directory?
    ensures VerdictIn(w, directory, name).Descend?
  {
    hide Walk.Id, ModifiedSeconds, IsHidden, Listable;
  }

  lemma SongStatus(name: Name)
    requires name == REAL || name == LINK
    ensures Status([SHARE, name] + [SONG]) == Some(AUDIO_FILE) && Listable(SONG) && !IsHidden(SONG)
  {
    assert [SHARE, name] + [SONG] == [SHARE, name, SONG];
    assert SLASH !in SONG;
  }

  lemma SongIsAdded(host: Host, linkFirst: bool, minimumAge: nat, now: nat, name: Name)
    requires (name == REAL || name == LINK) && KnowsSong(host) && minimumAge <= now
    ensures VerdictIn(WalkOf(host, linkFirst, minimumAge, now), [SHARE] + [name], SONG).Add?
  {
    SongStatus(name);
    assert [SHARE] + [name] == [SHARE, name] && [SHARE, name] + [SONG] == [SHARE, name, SONG];
    hide Inspect, Walk.Id, Status, IsHidden, Listable;
    FileIsAdded(WalkOf(host, linkFirst, minimumAge, now), [SHARE, name], SONG);
  }

  lemma FileIsAdded(w: Walk, directory: Path, name: Name)
    requires w.options.followSymlinks && Listable(name) && !IsHidden(name)
    requires w.files.stat(directory + [name]) == Some(AUDIO_FILE) && 0 <= w.options.minimumAge <= w.options.now
    requires var kind := w.host.mediaKind(directory + [name]); kind.Some? && kind.value.category in w.media
    ensures VerdictIn(w, directory, name).Add?
  {
    hide Walk.Id, ModifiedSeconds, FileStem, IsHidden, Listable;
  }

  lemma TreeIsFinite(linkFirst: bool)
    ensures Tree(linkFirst).Finite()
  {
    var t := Tree(linkFirst);
    forall p
      ensures Chain(t.lstat, p) <= t.depth
    {
      ChainIsShort(t.lstat, p);
    }
  }

  lemma TreeAnswers(linkFirst: bool)
    ensures var (first, last) := if linkFirst then (LINK, REAL) else (REAL, LINK);
            var t := Tree(linkFirst);
            && t.readDir([SHARE]) == Some([Some(first), Some(last)])
            && t.readDir([SHARE] + [last]) == Some([Some(SONG)])
            && t.canonicalize([SHARE]) == Some([SHARE])
            && t.canonicalize([SHARE] + [first]) == t.canonicalize([SHARE] + [last]) == Some([SHARE, REAL])
            && [SHARE, REAL] != [SHARE]
  {
    assert [SHARE] + [REAL] == [SHARE, REAL] && [SHARE] + [LINK] == [SHARE, LINK];
    assert |[SHARE, REAL]| != |[SHARE]|;
  }

  lemma TreeIsAliased(host: Host, linkFirst: bool, minimumAge: nat, now: nat)
    requires KnowsSong(host) && minimumAge <= now
    ensures var (first, last) := if linkFirst then (LINK, REAL) else (REAL, LINK);
            Aliased(WalkOf(host, linkFirst, minimumAge, now), first, last, SONG)
  {
    var (first, last) := if linkFirst then (LINK, REAL) else (REAL, LINK);
    FolderIsEntered(host, linkFirst, minimumAge, now, first);
    FolderIsEntered(host, linkFirst, minimumAge, now, last);
    SongIsAdded(host, linkFirst, minimumAge, now, last);
    TreeIsFinite(linkFirst);
    TreeAnswers(linkFirst);
    hide VerdictIn, Files.Finite, Tree, KnowsSong;
  }

  lemma ShareHolds(host: Host, files: Files, options: ScanOptions)
    requires files.Finite() && options.followSymlinks
    requires files.canonicalize([SHARE]) == Some([SHARE]) && files.stat([SHARE]).Some?
    ensures var w := Walk(host, files, options, [Audio], [SHARE]);
            var total := ExploreShares(host, files, options, [ONE_SHARE]);
            && total.Some?
            && exists root: Entry ::
                 && root.id == w.Id('d', w.root) && root.path == w.root
                 && total.value.entries == multiset{root} + Followed(w).entries
  {
    OneShareIs(host, files, options, ONE_SHARE);
    ShareIdIs(host, files, options, ONE_SHARE);
    hide Followed, ObjectId, StableOsHash, ModifiedSeconds, Walk.Id;
    var root := ShareRoot(host, files, options, ONE_SHARE).value.1;
    assert root.path == [SHARE];
  }

  lemma TreeHolds(host: Host, linkFirst: bool, minimumAge: nat, now: nat)
    requires KnowsSong(host) && minimumAge <= now
    ensures Tree(linkFirst).Finite()
    ensures var read := if linkFirst then REAL else LINK;
            var total := ExploreShares(host, Tree(linkFirst), WithLinks(minimumAge, now), [ONE_SHARE]);
            && total.Some? && DistinctIds(total.value.entries)
            && (exists e :: e in total.value.entries && e.path == [SHARE] + [read] + [SONG])
            && (forall e :: e in total.value.entries ==> |e.path| <= 2 || e.path == [SHARE] + [read] + [SONG])
  {
    TreeIsFinite(linkFirst);
    TreeIsAliased(host, linkFirst, minimumAge, now);
    ShareHolds(host, Tree(linkFirst), WithLinks(minimumAge, now));
    var w := WalkOf(host, linkFirst, minimumAge, now);
    hide Aliased, Followed, ExploreShares, DistinctIds, Walk.Id, KnowsSong, Files.Finite;
    var total := ExploreShares(host, Tree(linkFirst), WithLinks(minimumAge, now), [ONE_SHARE]);
    var root: Entry :| root.id == w.Id('d', w.root) && root.path == w.root
      && total.value.entries == multiset{root} + Followed(w).entries;
    if linkFirst {
      AliasedDistinct(w, 0x63, 0x61, SONG, root);
    } else {
      AliasedDistinct(w, 0x61, 0x63, SONG, root);
    }
  }

  lemma SameTree()
    ensures SameUpToOrder(Tree(false), Tree(true))
  {
    assert [Some(REAL), Some(LINK)] == [Some(REAL)] + [Some(LINK)];
    assert multiset([Some(REAL), Some(LINK)]) == multiset([Some(LINK), Some(REAL)]);
  }

  /**
   * With links followed, two scans of one and the same tree can both succeed and publish different
   * catalogs: the song is found below the folder or below the link, depending on which of the two
   * the share lists last.
   */
  lemma TwoNamesTwoCatalogs(host: Host, minimumAge: nat, now: nat,
                            r: Result<CatalogScan, ScanError>, s: Result<CatalogScan, ScanError>)
    requires KnowsSong(host) && minimumAge <= now
    requires Tree(false).Finite() && Tree(true).Finite()
    requires Meets(host, Tree(false), WithLinks(minimumAge, now), [ONE_SHARE], r)
    requires Meets(host, Tree(true), WithLinks(minimumAge, now), [ONE_SHARE], s)
    ensures SameUpToOrder(Tree(false), Tree(true))
    ensures r.Ok? && s.Ok? && r.value.catalog.entries != s.value.catalog.entries
  {
    SameTree();
    TreeHolds(host, false, minimumAge, now);
    TreeHolds(host, true, minimumAge, now);
    ScanSucceeds(host, Tree(false), WithLinks(minimumAge, now), [ONE_SHARE], r);
    ScanSucceeds(host, Tree(true), WithLinks(minimumAge, now), [ONE_SHARE], s);
    SongPaths();
    hide ExploreShares, IsCatalogOf, SameUpToOrder, DistinctIds, Tree, Meets;
    var total := ExploreShares(host, Tree(false), WithLinks(minimumAge, now), [ONE_SHARE]).value.entries;
    var other := ExploreShares(host, Tree(true), WithLinks(minimumAge, now), [ONE_SHARE]).value.entries;
    var e :| e in total && e.path == [SHARE] + [LINK] + [SONG];
    OnlyInOne(r.value.catalog, s.value.catalog, total, other, e);
  }

  lemma SongPaths()
    ensures var a, b := [SHARE] + [LINK] + [SONG], [SHARE] + [REAL] + [SONG]; a != b && |a| == |b| == 3
  {
    assert ([SHARE] + [LINK] + [SONG])[1] == LINK && ([SHARE] + [REAL] + [SONG])[1] == REAL;
  }

  lemma ScanSucceeds(host: Host, files: Files, options: ScanOptions, shares: seq<Share>,
                     r: Result<CatalogScan, ScanError>)
    requires files.Finite() && Meets(host, files, options, shares, r)
    requires var total := ExploreShares(host, files, options, shares); total.Some? && DistinctIds(total.value.entries)
    ensures r.Ok? && IsCatalogOf(r.value.catalog, ExploreShares(host, files, options, shares).value.entries)
  {
    hide ExploreShares, IsCatalogOf, DistinctIds;
  }
}
